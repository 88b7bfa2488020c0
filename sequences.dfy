/** Sequence helpers for the ordered, de-duplicated lists the source builds
    with `if x not in acc: acc.append(x)` and with dict comprehensions over
    ordered keys. */
module Sequences {
  import opened Values

  /** No element occurs twice. */
  predicate Distinct<T(==)>(s: seq<T>) {
    forall i, j :: 0 <= i < j < |s| ==> s[i] != s[j]
  }

  lemma DistinctTail<T>(s: seq<T>)
    requires s != [] && Distinct(s)
    ensures Distinct(s[1..]) && s[0] !in s[1..]
  {
  }

  /** The elements of `s` in first-seen order, each once. Defined from the
      end so that it follows an appending loop step by step. */
  function Dedup<T(==,!new)>(s: seq<T>): (r: seq<T>)
    ensures forall x :: x in r <==> x in s
    ensures Distinct(r)
    ensures |r| <= |s|
  {
    if s == [] then []
    else
      var p := Dedup(s[..|s| - 1]);
      if s[|s| - 1] in p then p else p + [s[|s| - 1]]
  }

  /** One step of the appending loop: `if x not in acc: acc.append(x)`. */
  lemma DedupSnoc<T(!new)>(s: seq<T>, x: T)
    ensures Dedup(s + [x]) == if x in Dedup(s) then Dedup(s) else Dedup(s) + [x]
  {
    assert (s + [x])[..|s + [x]| - 1] == s;
  }

  /** A sequence without repetitions is its own de-duplication. */
  lemma {:induction false} DedupOfDistinct<T(!new)>(s: seq<T>)
    requires Distinct(s)
    ensures Dedup(s) == s
  {
    if s != [] {
      var p := s[..|s| - 1];
      assert Distinct(p);
      DedupOfDistinct(p);
      assert s[|s| - 1] !in p;
      assert p + [s[|s| - 1]] == s;
    }
  }

  /** The first components of a list of pairs, in order: the keys of an
      insertion-ordered dictionary. */
  function Firsts<K, V>(pairs: seq<(K, V)>): (r: seq<K>)
    ensures |r| == |pairs|
    ensures forall i :: 0 <= i < |pairs| ==> r[i] == pairs[i].0
  {
    seq(|pairs|, i requires 0 <= i < |pairs| => pairs[i].0)
  }

  /** The keys of a non-empty list of pairs: its first key, then the rest. */
  lemma FirstsCons<K, V>(pairs: seq<(K, V)>)
    requires pairs != []
    ensures Firsts(pairs) == [pairs[0].0] + Firsts(pairs[1..])
  {
  }

  /** The position of the first occurrence of `x` in `s`. */
  function FirstIndex<T(==)>(s: seq<T>, x: T): (r: nat)
    requires x in s
    ensures r < |s| && s[r] == x
    ensures forall j :: 0 <= j < r ==> s[j] != x
  {
    if s[0] == x then 0 else 1 + FirstIndex(s[1..], x)
  }

  /** `Dedup` lists the elements in the order of their first occurrence:
      together with its membership and distinctness this fixes it. */
  lemma {:induction false} DedupFirstSeenOrder<T(!new)>(s: seq<T>)
    ensures var r := Dedup(s);
      forall i, j :: 0 <= i < j < |r| ==> FirstIndex(s, r[i]) < FirstIndex(s, r[j])
  {
    if s != [] {
      var p := s[..|s| - 1];
      var x := s[|s| - 1];
      DedupFirstSeenOrder(p);
      var r := Dedup(s);
      forall y | y in p ensures FirstIndex(s, y) == FirstIndex(p, y) {
        FirstIndexOfPrefix(s, p, y);
      }
      forall i, j | 0 <= i < j < |r| ensures FirstIndex(s, r[i]) < FirstIndex(s, r[j]) {
        if x !in Dedup(p) && j == |r| - 1 {
          assert r[i] in Dedup(p);
          assert FirstIndex(s, r[j]) == |s| - 1;
        } else {
          assert r[i] == Dedup(p)[i] && r[j] == Dedup(p)[j];
        }
      }
    }
  }

  /** A first occurrence within a prefix is the first occurrence overall. */
  lemma FirstIndexOfPrefix<T>(s: seq<T>, p: seq<T>, x: T)
    requires p <= s && x in p
    ensures FirstIndex(s, x) == FirstIndex(p, x)
  {
    var k := FirstIndex(p, x);
    assert s[k] == x;
    var m := FirstIndex(s, x);
    assert m <= k;
  }

  lemma Associative<T>(a: seq<T>, b: seq<T>, c: seq<T>)
    ensures (a + b) + c == a + (b + c)
  {
  }

  /** Concatenation of a list of lists, in order. */
  function Flatten<T(==,!new)>(ls: seq<seq<T>>): (r: seq<T>)
    ensures forall x :: x in r <==> exists i :: 0 <= i < |ls| && x in ls[i]
  {
    if ls == [] then []
    else
      var r := Flatten(ls[..|ls| - 1]) + ls[|ls| - 1];
      assert forall x :: x in r <==> exists i :: 0 <= i < |ls| && x in ls[i] by {
        forall x | x in r ensures exists i :: 0 <= i < |ls| && x in ls[i] {
          if x in Flatten(ls[..|ls| - 1]) {
            var i :| 0 <= i < |ls| - 1 && x in ls[..|ls| - 1][i];
            assert x in ls[i];
          } else {
            assert x in ls[|ls| - 1];
          }
        }
        forall x | exists i :: 0 <= i < |ls| && x in ls[i] ensures x in r {
          var i :| 0 <= i < |ls| && x in ls[i];
          if i < |ls| - 1 {
            assert x in ls[..|ls| - 1][i];
          }
        }
      }
      r
  }

  /** One step of a loop that appends a whole list. */
  lemma FlattenSnoc<T(!new)>(ls: seq<seq<T>>, l: seq<T>)
    ensures Flatten(ls + [l]) == Flatten(ls) + l
  {
    assert (ls + [l])[..|ls + [l]| - 1] == ls;
  }

  /** The present values of a sequence of options, in order. */
  function Somes<T(!new)>(s: seq<Option<T>>): (r: seq<T>)
    ensures |r| <= |s|
  {
    if s == [] then []
    else
      var rest := Somes(s[..|s| - 1]);
      match s[|s| - 1]
      case Some(x) => rest + [x]
      case None => rest
  }

  /** The positions of the present values, in order. */
  function SomeIndices<T>(s: seq<Option<T>>): seq<nat> {
    if s == [] then []
    else
      var rest := SomeIndices(s[..|s| - 1]);
      if s[|s| - 1].Some? then rest + [|s| - 1] else rest
  }

  /** `Somes(s)` lists exactly the present values of `s`, one per position,
      in position order: entry k is the value at position idx[k], the
      positions strictly increase, and every present position occurs. */
  lemma {:induction false} SomesInOrder<T(!new)>(s: seq<Option<T>>)
    ensures var r, idx := Somes(s), SomeIndices(s);
      && |idx| == |r|
      && (forall k :: 0 <= k < |idx| ==> idx[k] < |s| && s[idx[k]] == Some(r[k]))
      && (forall k, l :: 0 <= k < l < |idx| ==> idx[k] < idx[l])
      && (forall j :: 0 <= j < |s| && s[j].Some? ==> j in idx)
  {
    if s != [] {
      var n := |s|;
      var prefix := s[..n - 1];
      SomesInOrder(prefix);
      assert forall j :: 0 <= j < n - 1 ==> prefix[j] == s[j];
    }
  }

  /** The values `Somes` keeps are exactly the present ones. */
  lemma {:induction false} SomesMembers<T(!new)>(s: seq<Option<T>>)
    ensures forall x :: x in Somes(s) <==> exists i :: 0 <= i < |s| && s[i] == Some(x)
  {
    if s != [] {
      var n := |s|;
      var prefix := s[..n - 1];
      SomesMembers(prefix);
      assert forall j :: 0 <= j < n - 1 ==> prefix[j] == s[j];
    }
  }
}

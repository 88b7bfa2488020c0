/** Document readiness for one scheme (app/services/documents.py): the
    checklist of required documents, each `unknown`, `no` or `yes`, and its
    classification as still checking, missing documents, or ready. The
    checklist is a dictionary in the source; its insertion order matters, so
    it is an ordered sequence of (name, status) pairs with distinct names. */
module Documents {
  import opened Values
  import opened Sequences
  import opened Catalog

  datatype DocStatus = Unknown | No | Yes

  type Checklist = seq<(string, DocStatus)>

  /** A checklist is a dictionary: no document name occurs twice. */
  predicate WellFormed(docs: Checklist) {
    Distinct(Firsts(docs))
  }

  /** The required documents of the first catalog entry with this id, or
      none when no entry has it. */
  function RequiredDocuments(catalog: seq<Scheme>, schemeId: string): (r: seq<string>)
    ensures (forall i :: 0 <= i < |catalog| ==> catalog[i].schemeId != schemeId) ==> r == []
    ensures forall i :: (0 <= i < |catalog| && catalog[i].schemeId == schemeId &&
      (forall j :: 0 <= j < i ==> catalog[j].schemeId != schemeId)) ==> r == catalog[i].requiredDocuments
  {
    if catalog == [] then []
    else if catalog[0].schemeId == schemeId then catalog[0].requiredDocuments
    else
      var r := RequiredDocuments(catalog[1..], schemeId);
      assert forall i :: 1 <= i < |catalog| ==> catalog[i] == catalog[1..][i - 1];
      r
  }

  /** A fresh checklist for a scheme: each required document once, in
      first-listed order, every one `unknown`. */
  function InitializeDocumentState(catalog: seq<Scheme>, schemeId: string): (r: Checklist)
    ensures WellFormed(r)
    ensures Firsts(r) == Dedup(RequiredDocuments(catalog, schemeId))
    ensures forall d :: d in Firsts(r) <==> d in RequiredDocuments(catalog, schemeId)
    ensures forall i :: 0 <= i < |r| ==> r[i].1 == Unknown
    ensures (forall i :: 0 <= i < |catalog| ==> catalog[i].schemeId != schemeId) ==> r == []
  {
    var docs := Dedup(RequiredDocuments(catalog, schemeId));
    var r := seq(|docs|, i requires 0 <= i < |docs| => (docs[i], Unknown));
    assert Firsts(r) == docs;
    r
  }

  /** The first document still `unknown`, or None when every document has
      been answered. */
  function NextUnknownDocument(docs: Checklist): (r: Option<string>)
    ensures r.None? <==> forall i :: 0 <= i < |docs| ==> docs[i].1 != Unknown
    ensures r.Some? ==>
      (exists i :: 0 <= i < |docs| && docs[i] == (r.value, Unknown) && (forall j :: 0 <= j < i ==> docs[j].1 != Unknown))
  {
    if docs == [] then None
    else if docs[0].1 == Unknown then Some(docs[0].0)
    else
      var r := NextUnknownDocument(docs[1..]);
      assert forall i :: 1 <= i < |docs| ==> docs[i] == docs[1..][i - 1];
      assert r.Some? ==>
        (exists i :: 0 <= i < |docs| && docs[i] == (r.value, Unknown) && (forall j :: 0 <= j < i ==> docs[j].1 != Unknown)) by {
        if r.Some? {
          var i :| 0 <= i < |docs[1..]| && docs[1..][i] == (r.value, Unknown) &&
            forall j :: 0 <= j < i ==> docs[1..][j].1 != Unknown;
          assert docs[i + 1] == (r.value, Unknown);
        }
      }
      r
  }

  /** The names of the documents with the given status, in checklist order. */
  function NamesWithStatus(docs: Checklist, status: DocStatus): (r: seq<string>)
    ensures forall x :: x in r <==> exists i :: 0 <= i < |docs| && docs[i] == (x, status)
    ensures |r| <= |docs|
  {
    if docs == [] then []
    else
      var rest := NamesWithStatus(docs[1..], status);
      assert forall i :: 1 <= i < |docs| ==> docs[i] == docs[1..][i - 1];
      assert forall x :: (exists i :: 0 <= i < |docs[1..]| && docs[1..][i] == (x, status)) ==>
        exists i :: 0 <= i < |docs| && docs[i] == (x, status) by {
        forall x | exists i :: 0 <= i < |docs[1..]| && docs[1..][i] == (x, status)
          ensures exists i :: 0 <= i < |docs| && docs[i] == (x, status)
        {
          var i :| 0 <= i < |docs[1..]| && docs[1..][i] == (x, status);
          assert docs[i + 1] == (x, status);
        }
      }
      if docs[0].1 == status then [docs[0].0] + rest else rest
  }

  /** `NamesWithStatus` is a filter: it keeps the names with the status from
      each part of the checklist, in checklist order. */
  lemma {:induction false} NamesWithStatusAppend(a: Checklist, b: Checklist, status: DocStatus)
    ensures NamesWithStatus(a + b, status) == NamesWithStatus(a, status) + NamesWithStatus(b, status)
  {
    if a == [] {
      assert a + b == b;
    } else {
      NamesWithStatusAppend(a[1..], b, status);
      var ab := a + b;
      assert ab[1..] == a[1..] + b && ab[0] == a[0];
      NamesWithStatusFirst(ab, status);
      NamesWithStatusFirst(a, status);
      Associative(if a[0].1 == status then [a[0].0] else [], NamesWithStatus(a[1..], status), NamesWithStatus(b, status));
    }
  }

  /** One unfolding of `NamesWithStatus` at the front of the checklist. */
  lemma NamesWithStatusFirst(docs: Checklist, status: DocStatus)
    requires docs != []
    ensures NamesWithStatus(docs, status) ==
      (if docs[0].1 == status then [docs[0].0] else []) + NamesWithStatus(docs[1..], status)
  {
  }

  /** A single document is kept exactly when it has the status. */
  lemma NamesWithStatusSingle(d: (string, DocStatus), status: DocStatus)
    ensures NamesWithStatus([d], status) == if d.1 == status then [d.0] else []
  {
    assert [d][1..] == [];
  }

  datatype ReadinessStatus = Checking | Missing | Ready

  /** The source's readiness report: a status, the missing documents (only
      for `Missing`) and the next document to ask about (only for `Checking`). */
  datatype Readiness = Readiness(status: ReadinessStatus, missingDocs: seq<string>, nextDoc: Option<string>)

  /** Classifies a checklist. */
  function CheckDocumentReadiness(docs: Checklist): (r: Readiness)
    ensures r.status == Checking <==> exists i :: 0 <= i < |docs| && docs[i].1 == Unknown
    ensures r.status == Missing <==>
      (forall i :: 0 <= i < |docs| ==> docs[i].1 != Unknown) && (exists i :: 0 <= i < |docs| && docs[i].1 == No)
    ensures r.status == Ready <==> forall i :: 0 <= i < |docs| ==> docs[i].1 == Yes
    ensures r.status == Checking ==> r.missingDocs == [] && r.nextDoc.Some?
    ensures r.status == Missing ==> r.missingDocs == NamesWithStatus(docs, No) && r.missingDocs != [] && r.nextDoc == None
    ensures r.status == Ready ==> r.missingDocs == [] && r.nextDoc == None
  {
    var unknownDocs := NamesWithStatus(docs, Unknown);
    var missingDocs := NamesWithStatus(docs, No);
    assert (exists i :: 0 <= i < |docs| && docs[i].1 == Unknown) <==> unknownDocs != [] by {
      if unknownDocs != [] {
        assert unknownDocs[0] in unknownDocs;
      }
      forall i | 0 <= i < |docs| && docs[i].1 == Unknown ensures unknownDocs != [] {
        assert docs[i] == (docs[i].0, Unknown);
      }
    }
    assert (exists i :: 0 <= i < |docs| && docs[i].1 == No) <==> missingDocs != [] by {
      if missingDocs != [] {
        assert missingDocs[0] in missingDocs;
      }
      forall i | 0 <= i < |docs| && docs[i].1 == No ensures missingDocs != [] {
        assert docs[i] == (docs[i].0, No);
      }
    }
    if unknownDocs != [] then
      Readiness(Checking, [], Some(unknownDocs[0]))
    else if missingDocs != [] then
      Readiness(Missing, missingDocs, None)
    else
      assert forall i :: 0 <= i < |docs| ==> docs[i].1 == Yes by {
        forall i | 0 <= i < |docs| ensures docs[i].1 == Yes {
          assert docs[i].0 !in unknownDocs && docs[i].0 !in missingDocs;
        }
      }
      Readiness(Ready, [], None)
  }

  /** While checking, the readiness report asks about the same document as
      the first-unknown search: the first `unknown` document in order. */
  lemma {:induction false} ReadinessAgreesWithNextUnknown(docs: Checklist)
    requires CheckDocumentReadiness(docs).status == Checking
    ensures CheckDocumentReadiness(docs).nextDoc == NextUnknownDocument(docs)
  {
    FirstUnknownIsNext(docs);
  }

  lemma {:induction false} FirstUnknownIsNext(docs: Checklist)
    requires NamesWithStatus(docs, Unknown) != []
    ensures NextUnknownDocument(docs) == Some(NamesWithStatus(docs, Unknown)[0])
  {
    if docs[0].1 != Unknown {
      FirstUnknownIsNext(docs[1..]);
    }
  }

  /** The number of documents still `unknown`. */
  function UnknownCount(docs: Checklist): nat {
    if docs == [] then 0
    else (if docs[0].1 == Unknown then 1 else 0) + UnknownCount(docs[1..])
  }

  /** The orchestrator's write of one answer into the checklist (a dictionary
      assignment: an existing name keeps its position, a new one goes last). */
  function RecordAnswer(docs: Checklist, name: string, status: DocStatus): (r: Checklist)
    ensures name in Firsts(docs) ==> Firsts(r) == Firsts(docs)
    ensures name !in Firsts(docs) ==> r == docs + [(name, status)]
  {
    if docs == [] then [(name, status)]
    else if docs[0].0 == name then [(name, status)] + docs[1..]
    else
      var rest := RecordAnswer(docs[1..], name, status);
      FirstsCons(docs);
      FirstsCons([docs[0]] + rest);
      assert ([docs[0]] + rest)[1..] == rest;
      [docs[0]] + rest
  }

  /** Recording an answer in a checklist writes exactly one entry: an
      existing document gets the new status in its place and every other
      document keeps its status, so an earlier answer is never cleared; the
      result is still a checklist. */
  lemma {:induction false} RecordAnswerWritesOneEntry(docs: Checklist, name: string, status: DocStatus)
    requires WellFormed(docs)
    ensures WellFormed(RecordAnswer(docs, name, status))
    ensures name in Firsts(docs) ==> var r := RecordAnswer(docs, name, status);
      |r| == |docs| && forall i :: 0 <= i < |docs| ==> r[i] == (if docs[i].0 == name then (name, status) else docs[i])
  {
    if name !in Firsts(docs) {
      var r := RecordAnswer(docs, name, status);
      assert Firsts(r) == Firsts(docs) + [name];
    } else if docs[0].0 == name {
      RecordAnswerAtFront(docs, name, status);
    } else {
      FirstsCons(docs);
      DistinctTail(Firsts(docs));
      RecordAnswerWritesOneEntry(docs[1..], name, status);
      forall i | 0 <= i < |docs| - 1 ensures docs[1..][i] == docs[i + 1] { }
      RecordAnswerBehindFront(docs, name, status);
    }
  }

  lemma RecordAnswerAtFront(docs: Checklist, name: string, status: DocStatus)
    requires WellFormed(docs) && docs != [] && docs[0].0 == name
    ensures var r := RecordAnswer(docs, name, status);
      WellFormed(r) && |r| == |docs| &&
      forall i :: 0 <= i < |docs| ==> r[i] == (if docs[i].0 == name then (name, status) else docs[i])
  {
    var r := RecordAnswer(docs, name, status);
    assert Firsts(r) == Firsts(docs);
    forall i | 0 < i < |docs| ensures docs[i].0 != name {
      assert Firsts(docs)[i] == docs[i].0 && Firsts(docs)[0] == name;
    }
  }

  lemma RecordAnswerBehindFront(docs: Checklist, name: string, status: DocStatus)
    requires docs != [] && docs[0].0 != name
    requires var rest := RecordAnswer(docs[1..], name, status);
      |rest| == |docs| - 1 &&
      forall i :: 0 <= i < |docs| - 1 ==> rest[i] == (if docs[i + 1].0 == name then (name, status) else docs[i + 1])
    ensures var r := RecordAnswer(docs, name, status);
      |r| == |docs| &&
      forall i :: 0 <= i < |docs| ==> r[i] == (if docs[i].0 == name then (name, status) else docs[i])
  {
    var r := RecordAnswer(docs, name, status);
    var rest := RecordAnswer(docs[1..], name, status);
    assert r == [docs[0]] + rest;
    forall i | 0 < i < |docs|
      ensures r[i] == (if docs[i].0 == name then (name, status) else docs[i])
    {
      assert r[i] == rest[i - 1];
    }
  }




  /** Answering the document the checklist asks about keeps the checklist's
      names and order and removes exactly one `unknown`, so the checking
      phase ends after as many answers as there are documents. */
  lemma {:induction false} AnsweringNextDocumentProgresses(docs: Checklist, answer: DocStatus)
    requires WellFormed(docs) && answer != Unknown
    requires CheckDocumentReadiness(docs).status == Checking
    ensures var r := RecordAnswer(docs, CheckDocumentReadiness(docs).nextDoc.value, answer);
      WellFormed(r) && Firsts(r) == Firsts(docs) && UnknownCount(r) + 1 == UnknownCount(docs)
  {
    ReadinessAgreesWithNextUnknown(docs);
    var name := CheckDocumentReadiness(docs).nextDoc.value;
    AnswerUnknownDecrements(docs, name, answer);
  }

  lemma {:induction false} AnswerUnknownDecrements(docs: Checklist, name: string, answer: DocStatus)
    requires WellFormed(docs) && answer != Unknown
    requires exists i :: 0 <= i < |docs| && docs[i] == (name, Unknown)
    ensures UnknownCount(RecordAnswer(docs, name, answer)) + 1 == UnknownCount(docs)
    decreases |docs|, 1
  {
    var i :| 0 <= i < |docs| && docs[i] == (name, Unknown);
    if docs[0].0 != name {
      AnswerLaterEntry(docs, name, answer, i);
    } else {
      AnswerFirstEntry(docs, name, answer, i);
    }
  }

  lemma AnswerFirstEntry(docs: Checklist, name: string, answer: DocStatus, i: nat)
    requires WellFormed(docs) && answer != Unknown
    requires i < |docs| && docs[i] == (name, Unknown) && docs[0].0 == name
    ensures UnknownCount(RecordAnswer(docs, name, answer)) + 1 == UnknownCount(docs)
  {
    assert Firsts(docs)[i] == name && Firsts(docs)[0] == name;
    var r := RecordAnswer(docs, name, answer);
    assert r[1..] == docs[1..];
  }

  lemma {:induction false} AnswerLaterEntry(docs: Checklist, name: string, answer: DocStatus, i: nat)
    requires WellFormed(docs) && answer != Unknown
    requires i < |docs| && docs[i] == (name, Unknown) && docs[0].0 != name
    ensures UnknownCount(RecordAnswer(docs, name, answer)) + 1 == UnknownCount(docs)
    decreases |docs|, 0
  {
    var tail := docs[1..];
    assert tail[i - 1] == docs[i];
    assert Firsts(tail) == Firsts(docs)[1..];
    DistinctTail(Firsts(docs));
    AnswerUnknownDecrements(tail, name, answer);
    var r := RecordAnswer(docs, name, answer);
    assert r[1..] == RecordAnswer(tail, name, answer);
  }
}

/** The agent's turn-by-turn memory (app/agent_state.py): the fixed set of
    slot names, the `AgentState` record the orchestrator keeps per session,
    and the mechanical update that merges one turn's NLU result into it. */
module SlotMemory {
  import opened Values
  import opened Sequences
  import Documents

  /** The seven slots the memory tracks, in declaration order. */
  const SlotNames: seq<string> := [
    "age",
    "bpl_status",
    "is_landholding_farmer",
    "not_excluded_category",
    "is_pregnant_or_lactating",
    "meets_any_social_category",
    "gender"
  ]

  const SlotNameSet: set<string> := set n | n in SlotNames

  /** One turn's NLU output: an intent tag (None when the extractor gave
      none) and the extracted slots in the order the extractor listed them. */
  datatype NluResult = NluResult(intent: Option<string>, slots: seq<(string, Option<Value>)>)

  /** The part of the memory the slot merge reads and writes. */
  datatype SlotRecord = SlotRecord(slots: Slots, confirmed: seq<string>, contradictions: seq<string>)

  /** The slot already holds a value and the incoming one differs from it. */
  predicate Conflicts(slots: Slots, name: string, v: Option<Value>) {
    name in slots && v.Some? && slots[name].Some? && slots[name] != v
  }

  /** The incoming value is written: the slot is empty or already holds it. */
  predicate Accepts(slots: Slots, name: string, v: Option<Value>) {
    name in slots && v.Some? && (slots[name].None? || slots[name] == v)
  }

  /** The intent after a turn: a non-empty incoming intent replaces the
      stored one, anything else leaves it alone. */
  function NewIntent(current: Option<string>, incoming: Option<string>): (r: Option<string>)
    ensures incoming.Some? && incoming.value != "" ==> r == incoming
    ensures incoming.None? || incoming.value == "" ==> r == current
  {
    if incoming.Some? && incoming.value != "" && (current.None? || current != incoming)
    then incoming
    else current
  }

  /** Offering one incoming (name, value) pair to the memory. */
  function MergeOne(m: SlotRecord, name: string, v: Option<Value>): (r: SlotRecord)
    // the key set never changes and both logs only grow, by one entry at most
    ensures r.slots.Keys == m.slots.Keys
    ensures m.confirmed <= r.confirmed && m.contradictions <= r.contradictions
    ensures |r.confirmed| + |r.contradictions| <= |m.confirmed| + |m.contradictions| + 1
    // a known value is never replaced, and only the named slot can change
    ensures forall k :: k in m.slots && m.slots[k].Some? ==> r.slots[k] == m.slots[k]
    ensures forall k :: k in m.slots && k != name ==> r.slots[k] == m.slots[k]
    // unknown names and null values change nothing
    ensures name !in m.slots || v.None? ==> r == m
    // a differing value is only logged; a fresh or equal value is stored and confirmed
    ensures Conflicts(m.slots, name, v) ==>
      r.slots == m.slots && r.confirmed == m.confirmed && r.contradictions == m.contradictions + [name]
    ensures Accepts(m.slots, name, v) ==>
      r.slots[name] == v && r.confirmed == m.confirmed + [name] && r.contradictions == m.contradictions
  {
    if name !in m.slots || v.None? then m
    else
      match m.slots[name]
      case Some(current) =>
        if Some(current) != v then m.(contradictions := m.contradictions + [name])
        else m.(slots := m.slots[name := v], confirmed := m.confirmed + [name])
      case None =>
        m.(slots := m.slots[name := v], confirmed := m.confirmed + [name])
  }

  /** Offering a turn's pairs one after the other, in order. */
  function MergeAll(m: SlotRecord, incoming: seq<(string, Option<Value>)>): (r: SlotRecord)
    ensures r.slots.Keys == m.slots.Keys
    ensures m.confirmed <= r.confirmed && m.contradictions <= r.contradictions
    ensures |r.confirmed| + |r.contradictions| <= |m.confirmed| + |m.contradictions| + |incoming|
    ensures forall k :: k in m.slots && m.slots[k].Some? ==> r.slots[k] == m.slots[k]
    ensures forall k :: k in m.slots && k !in Firsts(incoming) ==> r.slots[k] == m.slots[k]
  {
    if incoming == [] then m
    else
      var prefix := incoming[..|incoming| - 1];
      var last := incoming[|incoming| - 1];
      assert Firsts(incoming) == Firsts(prefix) + [last.0];
      MergeOne(MergeAll(m, prefix), last.0, last.1)
  }

  /** Where the results of a turn come from: every value the memory holds
      afterwards was already there or was offered in this turn, and every new
      log entry names a tracked slot offered in this turn. */
  lemma {:induction false} MergeAllProvenance(m: SlotRecord, incoming: seq<(string, Option<Value>)>)
    ensures var r := MergeAll(m, incoming);
      && (forall k :: k in m.slots && r.slots[k] != m.slots[k] ==> (k, r.slots[k]) in incoming)
      && (forall x :: x in r.confirmed[|m.confirmed|..] ==> x in m.slots && x in Firsts(incoming))
      && (forall x :: x in r.contradictions[|m.contradictions|..] ==> x in m.slots && x in Firsts(incoming))
  {
    if incoming != [] {
      var prefix := incoming[..|incoming| - 1];
      var last := incoming[|incoming| - 1];
      MergeAllProvenance(m, prefix);
      var p := MergeAll(m, prefix);
      var r := MergeOne(p, last.0, last.1);
      assert r == MergeAll(m, incoming);
      assert Firsts(incoming) == Firsts(prefix) + [last.0];
      MergeOneProvenance(p, last.0, last.1);
      forall k | k in m.slots && r.slots[k] != m.slots[k]
        ensures (k, r.slots[k]) in incoming
      {
        if r.slots[k] == p.slots[k] {
          assert (k, p.slots[k]) in prefix;
        } else {
          assert r.slots[k] == last.1;
        }
      }
      SuffixSplit(m.confirmed, p.confirmed, r.confirmed);
      SuffixSplit(m.contradictions, p.contradictions, r.contradictions);
    }
  }

  /** One step of the merge changes only the named slot, to the offered
      value, and logs only the offered name. */
  lemma MergeOneProvenance(p: SlotRecord, name: string, v: Option<Value>)
    ensures var r := MergeOne(p, name, v);
      && (forall k :: k in p.slots && r.slots[k] != p.slots[k] ==> k == name && r.slots[k] == v)
      && (forall x :: x in r.confirmed[|p.confirmed|..] ==> x == name && name in p.slots)
      && (forall x :: x in r.contradictions[|p.contradictions|..] ==> x == name && name in p.slots)
  {
  }

  /** A turn whose values are all null, or name no tracked slot, changes
      nothing at all. */
  lemma {:induction false} NullsChangeNothing(m: SlotRecord, incoming: seq<(string, Option<Value>)>)
    requires forall i :: 0 <= i < |incoming| ==> incoming[i].1.None? || incoming[i].0 !in m.slots
    ensures MergeAll(m, incoming) == m
  {
    if incoming != [] {
      NullsChangeNothing(m, incoming[..|incoming| - 1]);
    }
  }

  /** Dropping the last pair of a turn keeps the names distinct. */
  lemma DistinctPrefixNames(incoming: seq<(string, Option<Value>)>)
    requires incoming != [] && Distinct(Firsts(incoming))
    ensures Distinct(Firsts(incoming[..|incoming| - 1]))
    ensures incoming[|incoming| - 1].0 !in Firsts(incoming[..|incoming| - 1])
  {
    var prefix := incoming[..|incoming| - 1];
    assert Firsts(prefix) == Firsts(incoming)[..|prefix|];
  }

  /** What one step adds to a log is what it adds after the earlier steps. */
  lemma SuffixSplit(a: seq<string>, b: seq<string>, c: seq<string>)
    requires a <= b <= c
    ensures c[|a|..] == b[|a|..] + c[|b|..]
  {
  }

  /** Offering a pair for another slot leaves slot `n` and its log entries alone. */
  lemma OtherNameUntouched(p: SlotRecord, name: string, v: Option<Value>, n: string)
    requires n != name && n in p.slots
    ensures var r := MergeOne(p, name, v);
      && r.slots[n] == p.slots[n]
      && n !in r.confirmed[|p.confirmed|..]
      && n !in r.contradictions[|p.contradictions|..]
  {
  }

  /** A differing value offered for a slot that already holds a value
      (a turn names each slot at most once, as a dictionary does): the stored
      value stays, the slot name is logged as a contradiction exactly once,
      and it is not confirmed. */
  lemma {:induction false} ConflictLoggedOnce(m: SlotRecord, incoming: seq<(string, Option<Value>)>, k: nat)
    requires Distinct(Firsts(incoming))
    requires k < |incoming| && Conflicts(m.slots, incoming[k].0, incoming[k].1)
    ensures var r := MergeAll(m, incoming); var n := incoming[k].0;
      && r.slots[n] == m.slots[n]
      && multiset(r.contradictions[|m.contradictions|..])[n] == 1
      && n !in r.confirmed[|m.confirmed|..]
  {
    var n := incoming[k].0;
    var prefix := incoming[..|incoming| - 1];
    var last := incoming[|incoming| - 1];
    DistinctPrefixNames(incoming);
    var p := MergeAll(m, prefix);
    var r := MergeOne(p, last.0, last.1);
    assert r == MergeAll(m, incoming);
    SuffixSplit(m.contradictions, p.contradictions, r.contradictions);
    SuffixSplit(m.confirmed, p.confirmed, r.confirmed);
    if k == |incoming| - 1 {
      MergeAllProvenance(m, prefix);
      assert p.slots[n] == m.slots[n];
      assert r.contradictions[|p.contradictions|..] == [n];
      assert r.confirmed[|p.confirmed|..] == [];
    } else {
      assert prefix[k] == incoming[k];
      ConflictLoggedOnce(m, prefix, k);
      assert Firsts(incoming)[k] == n;
      OtherNameUntouched(p, last.0, last.1, n);
    }
  }

  /** A value offered for a slot that is empty or already holds that same
      value (a turn names each slot at most once): the slot holds it
      afterwards, the name is confirmed exactly once and no contradiction is
      logged for it. */
  lemma {:induction false} AcceptedStoredOnce(m: SlotRecord, incoming: seq<(string, Option<Value>)>, k: nat)
    requires Distinct(Firsts(incoming))
    requires k < |incoming| && Accepts(m.slots, incoming[k].0, incoming[k].1)
    ensures var r := MergeAll(m, incoming); var n := incoming[k].0;
      && r.slots[n] == incoming[k].1
      && multiset(r.confirmed[|m.confirmed|..])[n] == 1
      && n !in r.contradictions[|m.contradictions|..]
  {
    var n := incoming[k].0;
    var prefix := incoming[..|incoming| - 1];
    var last := incoming[|incoming| - 1];
    DistinctPrefixNames(incoming);
    var p := MergeAll(m, prefix);
    var r := MergeOne(p, last.0, last.1);
    assert r == MergeAll(m, incoming);
    SuffixSplit(m.contradictions, p.contradictions, r.contradictions);
    SuffixSplit(m.confirmed, p.confirmed, r.confirmed);
    if k == |incoming| - 1 {
      MergeAllProvenance(m, prefix);
      assert p.slots[n] == m.slots[n];
      assert r.confirmed[|p.confirmed|..] == [n];
      assert r.contradictions[|p.contradictions|..] == [];
    } else {
      assert prefix[k] == incoming[k];
      AcceptedStoredOnce(m, prefix, k);
      assert Firsts(incoming)[k] == n;
      OtherNameUntouched(p, last.0, last.1, n);
    }
  }

  /** Every pair of the turn is null, untracked, or repeats the value the
      slot already holds. */
  predicate Agrees(slots: Slots, incoming: seq<(string, Option<Value>)>) {
    forall i :: 0 <= i < |incoming| ==>
      incoming[i].1.None? || incoming[i].0 !in slots || slots[incoming[i].0] == incoming[i].1
  }

  /** Repeating values the memory already holds logs no contradiction and
      changes no slot. */
  lemma {:induction false} AgreeingTurnIsQuiet(m: SlotRecord, incoming: seq<(string, Option<Value>)>)
    requires Distinct(Firsts(incoming)) && Agrees(m.slots, incoming)
    ensures MergeAll(m, incoming).slots == m.slots
    ensures MergeAll(m, incoming).contradictions == m.contradictions
  {
    if incoming != [] {
      var prefix := incoming[..|incoming| - 1];
      var last := incoming[|incoming| - 1];
      DistinctPrefixNames(incoming);
      assert Agrees(m.slots, prefix) by {
        forall i | 0 <= i < |prefix| ensures prefix[i] == incoming[i] { }
      }
      AgreeingTurnIsQuiet(m, prefix);
      assert Agrees(m.slots, [last]) by {
        assert last == incoming[|incoming| - 1];
      }
    }
  }

  /** Writing the same values twice never produces a contradiction: a turn
      that logged no contradiction, offered again right away, logs none
      either and leaves every slot as it was. */
  lemma RepeatedTurnIsQuiet(m: SlotRecord, incoming: seq<(string, Option<Value>)>)
    requires Distinct(Firsts(incoming))
    requires MergeAll(m, incoming).contradictions == m.contradictions
    ensures var r := MergeAll(m, incoming);
      MergeAll(r, incoming).contradictions == r.contradictions && MergeAll(r, incoming).slots == r.slots
  {
    var r := MergeAll(m, incoming);
    forall i | 0 <= i < |incoming| && incoming[i].1.Some? && incoming[i].0 in r.slots
      ensures r.slots[incoming[i].0] == incoming[i].1
    {
      if Conflicts(m.slots, incoming[i].0, incoming[i].1) {
        ConflictLoggedOnce(m, incoming, i);
        assert false;
      } else {
        AcceptedStoredOnce(m, incoming, i);
      }
    }
    AgreeingTurnIsQuiet(r, incoming);
  }

  /** Folding one more pair onto a prefix of the turn. */
  lemma MergeAllSnoc(m: SlotRecord, incoming: seq<(string, Option<Value>)>, i: nat)
    requires i < |incoming|
    ensures MergeAll(m, incoming[..i + 1]) == MergeOne(MergeAll(m, incoming[..i]), incoming[i].0, incoming[i].1)
  {
    assert incoming[..i + 1][..i] == incoming[..i];
  }

  /** The per-session memory record of the source. */
  class AgentState {
    var intent: Option<string>
    var slots: Slots
    var confirmedSlots: seq<string>
    var contradictions: seq<string>
    var eligibilityChecked: bool
    var eligibleSchemes: seq<string>
    /** The document checklist, in the order its names were inserted. */
    var documents: seq<(string, Documents.DocStatus)>
    var applicationStarted: bool
    var applicationId: Option<string>
    /** The tag of the last planner action, as the source stores `action.value`. */
    var lastAction: Option<string>

    /** The slot dictionary always has exactly the seven slot names as keys. */
    ghost predicate Valid()
      reads this
    {
      slots.Keys == SlotNameSet
    }

    function Record(): SlotRecord
      reads this
    {
      SlotRecord(slots, confirmedSlots, contradictions)
    }

    /** A fresh session: every slot unknown, every log empty. */
    constructor ()
      ensures Valid()
      ensures forall n :: n in SlotNameSet ==> slots[n] == None
      ensures intent == None && confirmedSlots == [] && contradictions == []
      ensures !eligibilityChecked && eligibleSchemes == [] && documents == []
      ensures !applicationStarted && applicationId == None && lastAction == None
    {
      intent := None;
      slots := map n | n in SlotNameSet :: None;
      confirmedSlots := [];
      contradictions := [];
      eligibilityChecked := false;
      eligibleSchemes := [];
      documents := [];
      applicationStarted := false;
      applicationId := None;
      lastAction := None;
    }

    /** Merges one turn's NLU result: the intent, then each slot in order.
        Only the intent, the slots and the two logs may change. */
    method UpdateFromNlu(nlu: NluResult)
      requires Valid()
      modifies this`intent, this`slots, this`confirmedSlots, this`contradictions
      ensures Valid()
      ensures intent == NewIntent(old(intent), nlu.intent)
      ensures Record() == MergeAll(old(Record()), nlu.slots)
      ensures eligibilityChecked == old(eligibilityChecked) && eligibleSchemes == old(eligibleSchemes)
      ensures documents == old(documents) && lastAction == old(lastAction)
      ensures applicationStarted == old(applicationStarted) && applicationId == old(applicationId)
    {
      if nlu.intent.Some? && nlu.intent.value != "" && (intent.None? || intent != nlu.intent) {
        intent := nlu.intent;
      }
      MergeSlots(nlu.slots);
    }

    /** The slot loop: offers each incoming pair in order. */
    method MergeSlots(incoming: seq<(string, Option<Value>)>)
      modifies this`slots, this`confirmedSlots, this`contradictions
      ensures Record() == MergeAll(old(Record()), incoming)
    {
      var i := 0;
      while i < |incoming|
        invariant 0 <= i <= |incoming|
        invariant Record() == MergeAll(old(Record()), incoming[..i])
      {
        var (name, newValue) := incoming[i];
        MergeAllSnoc(old(Record()), incoming, i);
        OfferSlot(name, newValue);
        i := i + 1;
      }
      assert incoming[..i] == incoming;
    }

    /** The body of the slot loop: offers one (name, value) pair. */
    method OfferSlot(name: string, newValue: Option<Value>)
      modifies this`slots, this`confirmedSlots, this`contradictions
      ensures Record() == MergeOne(old(Record()), name, newValue)
    {
      if name in slots && newValue.Some? {
        var currentValue := slots[name];
        if currentValue.Some? && currentValue != newValue {
          contradictions := contradictions + [name];
        } else {
          slots := slots[name := newValue];
          confirmedSlots := confirmedSlots + [name];
        }
      }
    }
  }
}

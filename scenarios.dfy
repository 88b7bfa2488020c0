/** End-to-end scenarios: a discovery turn across the memory, the planner
    and the eligibility engine, and a document check across the readiness
    report and the recording of an answer. */
module Scenarios {
  import opened Values
  import opened SlotMemory
  import opened Catalog
  import opened Eligibility
  import opened Planner
  import opened Sequences
  import opened Documents

  /** An old-age pension entry: aged 60 or more and below the poverty line. */
  const OldAgePension: Scheme := Scheme(
    "CEN_IGNOAPS_001",
    ["aadhaar", "age_proof", "bpl_card"],
    ["age", "bpl_status"],
    [Rule(Some("age"), Ge, Scalar(IntVal(60))), Rule(Some("bpl_status"), Eq, Scalar(BoolVal(true)))],
    Some("வயது 60க்கு மேல், வறுமைக் கோட்டுக்குக் கீழ்"))

  const OldAgeTurn: seq<(string, Option<Value>)> :=
    [("age", Some(IntVal(65))), ("bpl_status", Some(BoolVal(true)))]

  /** A fresh memory told "age 65, below the poverty line" stores both. */
  lemma OldAgeTurnIsStored(m: SlotRecord)
    requires m.slots.Keys == SlotNameSet && forall n :: n in SlotNameSet ==> m.slots[n] == None
    ensures var r := MergeAll(m, OldAgeTurn);
      && r.slots == m.slots["age" := Some(IntVal(65))]["bpl_status" := Some(BoolVal(true))]
      && r.contradictions == m.contradictions
  {
    assert OldAgeTurn[..1] == [OldAgeTurn[0]];
    assert [OldAgeTurn[0]][..0] == [];
    assert MergeAll(m, OldAgeTurn[..1]).slots == m.slots["age" := Some(IntVal(65))];
  }

  /** With that memory, a discovery turn at good confidence finds the
      pension complete and so checks eligibility. */
  lemma OldAgeDiscoveryChecksEligibility(s: PlannerInput)
    requires Get(s.slots, "age") == Some(IntVal(65)) && Get(s.slots, "bpl_status") == Some(BoolVal(true))
    requires s.intent == Some("FIND_ELIGIBLE_SCHEME") && s.contradictions == [] && !s.eligibilityChecked
    ensures AgeComparable(s.slots)
    ensures "IGNOAPS" in CompleteSchemes(s.slots, Candidates(s.slots))
    ensures Decide(s, 0.9).0 == CheckEligibility
  {
    assert "IGNOAPS" in CandidateSchemes(s.slots);
    assert Complete(s.slots, "IGNOAPS") by {
      var missing := MissingSlots(s.slots, SchemeRequiredSlots("IGNOAPS"));
      assert forall x :: x !in missing;
    }
  }

  /** The first rule of the pension: 65 is at least 60. */
  lemma AgeRulePasses(slots: Slots)
    requires Get(slots, "age") == Some(IntVal(65))
    ensures RuleTyped(OldAgePension.rules[0], slots) && EvaluateRule(OldAgePension.rules[0], slots)
  {
  }

  /** The catalog engine reports the pension, with its reason, for the
      slots of that turn. */
  lemma OldAgePensionIsEligible(slots: Slots)
    requires Get(slots, "age") == Some(IntVal(65)) && Get(slots, "bpl_status") == Some(BoolVal(true))
    ensures CatalogTyped([OldAgePension], slots)
    ensures EligibleSchemes([OldAgePension], slots) == [EligibleScheme("CEN_IGNOAPS_001", OldAgePension.reasonTa.value)]
  {
    var rules := OldAgePension.rules;
    AgeRulePasses(slots);
    assert rules[1..][1..] == [];
    assert ReachedRulesTyped(rules[1..], slots);
    assert SchemeTyped(OldAgePension, slots);
    assert CatalogTyped([OldAgePension], slots);
    var e := EligibleScheme("CEN_IGNOAPS_001", OldAgePension.reasonTa.value);
    assert CheckSchemeEligibility(OldAgePension, slots) == Some(e) by {
      assert EvaluateRule(rules[1], slots);
      assert forall i :: 0 <= i < |rules| ==> RuleTyped(rules[i], slots) && EvaluateRule(rules[i], slots);
    }
    var checks := Checks([OldAgePension], slots);
    assert checks == [Some(e)];
    assert checks[..0] == [];
  }

  /** A checklist with two documents held and one not yet asked about: the
      readiness report asks about the third, and answering "no" to it turns
      the checklist into one missing exactly that document. */
  lemma ThirdDocumentAskedThenMissing(a: string, b: string, c: string)
    requires a != b && b != c && a != c
    ensures var docs := [(a, Yes), (b, Yes), (c, Unknown)];
      && CheckDocumentReadiness(docs) == Readiness(Checking, [], Some(c))
      && RecordAnswer(docs, c, No) == [(a, Yes), (b, Yes), (c, No)]
      && CheckDocumentReadiness(RecordAnswer(docs, c, No)) == Readiness(Missing, [c], None)
  {
    var docs := [(a, Yes), (b, Yes), (c, Unknown)];
    var answered := [(a, Yes), (b, Yes), (c, No)];
    NamesOfThree((a, Yes), (b, Yes), (c, Unknown), Unknown);
    assert Firsts(docs) == [a, b, c];
    RecordAnswerWritesOneEntry(docs, c, No);
    assert RecordAnswer(docs, c, No) == answered;
    NamesOfThree((a, Yes), (b, Yes), (c, No), No);
    NamesOfThree((a, Yes), (b, Yes), (c, No), Unknown);
  }

  /** `NamesWithStatus` over a three-entry checklist, entry by entry. */
  lemma NamesOfThree(x: (string, DocStatus), y: (string, DocStatus), z: (string, DocStatus), status: DocStatus)
    ensures NamesWithStatus([x, y, z], status) ==
      NamesWithStatus([x], status) + NamesWithStatus([y], status) + NamesWithStatus([z], status)
  {
    assert [x, y, z] == [x] + [y] + [z];
    NamesWithStatusAppend([x] + [y], [z], status);
    NamesWithStatusAppend([x], [y], status);
  }
}

/** The planner (app/planner.py): candidate narrowing, the union of the
    slots the candidates need, the missing ones, and the decision table that
    picks exactly one action per turn. */
module Planner {
  import opened Values
  import opened Sequences
  import opened SlotMemory
  import opened Documents

  datatype PlannerAction =
    | AskMissingSlot
    | HandleContradiction
    | CheckEligibility
    | CheckDocuments
    | ConfirmApplication
    | ApplyScheme
    | RespondResult
    | RepeatInput
  {
    /** The string value the source stores in `last_action`. */
    function Tag(): string {
      match this
      case AskMissingSlot => "ASK_MISSING_SLOT"
      case HandleContradiction => "HANDLE_CONTRADICTION"
      case CheckEligibility => "CHECK_ELIGIBILITY"
      case CheckDocuments => "CHECK_DOCUMENTS"
      case ConfirmApplication => "CONFIRM_APPLICATION"
      case ApplyScheme => "APPLY_SCHEME"
      case RespondResult => "RESPOND_RESULT"
      case RepeatInput => "REPEAT_INPUT"
    }
  }

  /** The schemes the planner knows, in the order of its table. */
  const Schemes: seq<string> := ["IGNOAPS", "PM-KISAN", "PMMVY"]

  /** The slots each scheme needs before its eligibility can be judged;
      none for an unknown scheme. `age_at_childbirth` is not a tracked slot. */
  function SchemeRequiredSlots(scheme: string): (r: seq<string>)
    ensures r != [] <==> scheme in Schemes
    ensures Distinct(r)
    ensures forall x :: x in r ==> x in SlotNameSet || x == "age_at_childbirth"
  {
    if scheme == "IGNOAPS" then ["age", "bpl_status"]
    else if scheme == "PM-KISAN" then ["is_landholding_farmer", "not_excluded_category"]
    else if scheme == "PMMVY" then ["is_pregnant_or_lactating", "meets_any_social_category", "age_at_childbirth"]
    else []
  }

  /** Position of a scheme in the planner's table (3 for any other name). */
  function SchemeRank(scheme: string): nat {
    if scheme == "IGNOAPS" then 0
    else if scheme == "PM-KISAN" then 1
    else if scheme == "PMMVY" then 2
    else 3
  }

  /** The age slot can be compared with 60, as narrowing needs. */
  predicate AgeComparable(slots: Slots) {
    Get(slots, "age").None? || Get(slots, "age").value.IntVal?
  }

  /** Stage 1: the schemes still plausible given what is known. */
  function CandidateSchemes(slots: Slots): (r: seq<string>)
    requires AgeComparable(slots)
    ensures "IGNOAPS" in r <==> Get(slots, "age").Some? && Get(slots, "age").value.i >= 60
    ensures "PM-KISAN" in r <==> Get(slots, "is_landholding_farmer") != Some(BoolVal(false))
    ensures "PMMVY" in r <==> Get(slots, "gender") == Some(StrVal("female"))
    // only table schemes, each once, in table order
    ensures forall i :: 0 <= i < |r| ==> r[i] in Schemes
    ensures forall i, j :: 0 <= i < j < |r| ==> SchemeRank(r[i]) < SchemeRank(r[j])
  {
    var age := Get(slots, "age");
    var oldAge := if age.Some? && age.value.i >= 60 then ["IGNOAPS"] else [];
    var farmer := if Get(slots, "is_landholding_farmer") != Some(BoolVal(false)) then ["PM-KISAN"] else [];
    var maternity := if Get(slots, "gender") == Some(StrVal("female")) then ["PMMVY"] else [];
    oldAge + farmer + maternity
  }

  /** The schemes a requested list stands for: an empty list means all. */
  function Effective(targetSchemes: seq<string>): (r: seq<string>)
    ensures r != []
  {
    if targetSchemes == [] then Schemes else targetSchemes
  }

  function SlotLists(schemes: seq<string>): (r: seq<seq<string>>)
    ensures |r| == |schemes|
    ensures forall k :: 0 <= k < |schemes| ==> r[k] == SchemeRequiredSlots(schemes[k])
  {
    seq(|schemes|, k requires 0 <= k < |schemes| => SchemeRequiredSlots(schemes[k]))
  }

  lemma SlotListsSnoc(schemes: seq<string>, i: nat)
    requires i < |schemes|
    ensures SlotLists(schemes[..i + 1]) == SlotLists(schemes[..i]) + [SchemeRequiredSlots(schemes[i])]
  {
  }

  /** The union of the required slots of the schemes, in first-seen order. */
  function RequiredSlots(targetSchemes: seq<string>): (r: seq<string>)
    ensures Distinct(r)
    ensures forall x :: x in r <==>
      exists k :: 0 <= k < |Effective(targetSchemes)| && x in SchemeRequiredSlots(Effective(targetSchemes)[k])
  {
    Dedup(Flatten(SlotLists(Effective(targetSchemes))))
  }

  /** The required slots, in order, whose value is still unknown. */
  function MissingSlots(slots: Slots, required: seq<string>): (r: seq<string>)
    ensures forall x :: x in r <==> x in required && !Known(slots, x)
    ensures |r| <= |required|
  {
    if required == [] then []
    else
      var rest := MissingSlots(slots, required[..|required| - 1]);
      var x := required[|required| - 1];
      if Known(slots, x) then rest else rest + [x]
  }

  /** The union lists each slot at the place it is first seen when the
      schemes' lists are read one after the other. */
  lemma RequiredSlotsFirstSeen(targetSchemes: seq<string>)
    ensures var all, r := Flatten(SlotLists(Effective(targetSchemes))), RequiredSlots(targetSchemes);
      forall i, j :: 0 <= i < j < |r| ==> FirstIndex(all, r[i]) < FirstIndex(all, r[j])
  {
    var all := Flatten(SlotLists(Effective(targetSchemes)));
    assert RequiredSlots(targetSchemes) == Dedup(all);
    DedupFirstSeenOrder(all);
  }

  /** `MissingSlots` is a filter: it keeps the unknown slots of each part of
      its input, in order. */
  lemma {:induction false} MissingSlotsAppend(slots: Slots, a: seq<string>, b: seq<string>)
    ensures MissingSlots(slots, a + b) == MissingSlots(slots, a) + MissingSlots(slots, b)
  {
    if b == [] {
      assert a + b == a;
    } else {
      var b', x := b[..|b| - 1], b[|b| - 1];
      MissingSlotsAppend(slots, a, b');
      var ab := a + b;
      assert ab[..|ab| - 1] == a + b' && ab[|ab| - 1] == x;
      MissingSlotsLast(slots, ab);
      MissingSlotsLast(slots, b);
      Associative(MissingSlots(slots, a), MissingSlots(slots, b'), if Known(slots, x) then [] else [x]);
    }
  }

  /** One unfolding of `MissingSlots` at the end of its input. */
  lemma MissingSlotsLast(slots: Slots, s: seq<string>)
    requires s != []
    ensures MissingSlots(slots, s) ==
      MissingSlots(slots, s[..|s| - 1]) + (if Known(slots, s[|s| - 1]) then [] else [s[|s| - 1]])
  {
  }

  /** A single slot is kept exactly when it is unknown. */
  lemma MissingSlotsSingle(slots: Slots, x: string)
    ensures MissingSlots(slots, [x]) == if Known(slots, x) then [] else [x]
  {
    assert [x][..0] == [];
  }

  /** The slot to ask for next: the first missing one. */
  function ChooseNextMissingSlot(missing: seq<string>): (r: Option<string>)
    ensures r.None? <==> missing == []
    ensures r.Some? ==> r.value == missing[0]
  {
    if missing != [] then Some(missing[0]) else None
  }

  /** Every slot the scheme needs is known. */
  predicate Complete(slots: Slots, scheme: string) {
    MissingSlots(slots, SchemeRequiredSlots(scheme)) == []
  }

  /** The candidates all of whose required slots are known, in order. */
  function CompleteSchemes(slots: Slots, candidates: seq<string>): (r: seq<string>)
    ensures forall c :: c in r <==> c in candidates && Complete(slots, c)
  {
    if candidates == [] then []
    else
      var rest := CompleteSchemes(slots, candidates[..|candidates| - 1]);
      var c := candidates[|candidates| - 1];
      if Complete(slots, c) then rest + [c] else rest
  }

  /** The auxiliary data of a decision; None marks a key the source leaves out. */
  datatype Info = Info(
    reason: Option<string>,
    contradictions: Option<seq<string>>,
    candidateSchemes: Option<seq<string>>,
    note: Option<string>,
    completeSchemes: Option<seq<string>>,
    requiredSlots: Option<seq<string>>,
    missingSlots: Option<seq<string>>,
    nextSlot: Option<string>,
    nextDocument: Option<string>,
    missingDocuments: Option<seq<string>>)

  const EmptyInfo: Info := Info(None, None, None, None, None, None, None, None, None, None)

  /** The memory fields the planner reads. */
  datatype PlannerInput = PlannerInput(
    intent: Option<string>,
    slots: Slots,
    contradictions: seq<string>,
    eligibilityChecked: bool,
    documents: Checklist,
    applicationStarted: bool)

  function InputOf(state: AgentState): PlannerInput
    reads state
  {
    PlannerInput(state.intent, state.slots, state.contradictions, state.eligibilityChecked,
                 state.documents, state.applicationStarted)
  }

  /** The candidates after the empty-result fallback to every scheme. */
  function Candidates(slots: Slots): (r: seq<string>)
    requires AgeComparable(slots)
    ensures r != []
    ensures CandidateSchemes(slots) == [] ==> r == Schemes
    ensures CandidateSchemes(slots) != [] ==> r == CandidateSchemes(slots)
  {
    var narrowed := CandidateSchemes(slots);
    if narrowed == [] then Schemes else narrowed
  }

  /** `CompleteSchemes` is a filter: it keeps the complete candidates of
      each part of its input, in order. */
  lemma {:induction false} CompleteSchemesAppend(slots: Slots, a: seq<string>, b: seq<string>)
    ensures CompleteSchemes(slots, a + b) == CompleteSchemes(slots, a) + CompleteSchemes(slots, b)
  {
    if b == [] {
      assert a + b == a;
    } else {
      var b', c := b[..|b| - 1], b[|b| - 1];
      CompleteSchemesAppend(slots, a, b');
      var ab := a + b;
      assert ab[..|ab| - 1] == a + b' && ab[|ab| - 1] == c;
      CompleteSchemesLast(slots, ab);
      CompleteSchemesLast(slots, b);
      Associative(CompleteSchemes(slots, a), CompleteSchemes(slots, b'), if Complete(slots, c) then [c] else []);
    }
  }

  /** One unfolding of `CompleteSchemes` at the end of its input. */
  lemma CompleteSchemesLast(slots: Slots, s: seq<string>)
    requires s != []
    ensures CompleteSchemes(slots, s) ==
      CompleteSchemes(slots, s[..|s| - 1]) + (if Complete(slots, s[|s| - 1]) then [s[|s| - 1]] else [])
  {
  }

  /** A single candidate is kept exactly when it is complete. */
  lemma CompleteSchemesSingle(slots: Slots, c: string)
    ensures CompleteSchemes(slots, [c]) == if Complete(slots, c) then [c] else []
  {
    assert [c][..0] == [];
  }

  /** The discovery flow (intent FIND_ELIGIBLE_SCHEME). */
  function Discover(s: PlannerInput): (r: (PlannerAction, Info))
    requires AgeComparable(s.slots)
    // the report always carries the candidates, the fallback note and the complete schemes
    ensures r.1.candidateSchemes == Some(Candidates(s.slots))
    ensures r.1.note == if CandidateSchemes(s.slots) == [] then Some("no_candidates_yet_using_all") else None
    ensures r.1.completeSchemes == Some(CompleteSchemes(s.slots, Candidates(s.slots)))
    // the discovery flow never leads to documents, confirmation, repetition or contradictions
    ensures r.0 == CheckEligibility || r.0 == RespondResult || r.0 == AskMissingSlot
    // a complete candidate: check eligibility once, then report; no slot lists
    ensures CompleteSchemes(s.slots, Candidates(s.slots)) != [] ==>
      r.0 == (if s.eligibilityChecked then RespondResult else CheckEligibility) &&
      r.1.requiredSlots.None? && r.1.missingSlots.None? && r.1.nextSlot.None?
    // otherwise the union of required slots and the missing ones are reported
    ensures CompleteSchemes(s.slots, Candidates(s.slots)) == [] ==>
      r.1.requiredSlots == Some(RequiredSlots(Candidates(s.slots))) &&
      r.1.missingSlots == Some(MissingSlots(s.slots, RequiredSlots(Candidates(s.slots))))
    // nothing else is reported
    ensures r.1.reason.None? && r.1.contradictions.None? && r.1.nextDocument.None? && r.1.missingDocuments.None?
  {
    var narrowed := CandidateSchemes(s.slots);
    var candidates := Candidates(s.slots);
    var complete := CompleteSchemes(s.slots, candidates);
    var info := EmptyInfo.(
      candidateSchemes := Some(candidates),
      note := if narrowed == [] then Some("no_candidates_yet_using_all") else None,
      completeSchemes := Some(complete));
    if complete != [] then
      (if !s.eligibilityChecked then CheckEligibility else RespondResult, info)
    else
      var required := RequiredSlots(candidates);
      var missing := MissingSlots(s.slots, required);
      var info := info.(requiredSlots := Some(required), missingSlots := Some(missing));
      if missing != [] then (AskMissingSlot, info.(nextSlot := ChooseNextMissingSlot(missing)))
      else (if !s.eligibilityChecked then CheckEligibility else RespondResult, info)
  }

  /** The apply flow (intent APPLY_FOR_SCHEME): eligibility first, then the
      document checklist, then confirmation. */
  function Apply(s: PlannerInput): (r: (PlannerAction, Info))
    ensures !s.eligibilityChecked ==> r == (CheckEligibility, EmptyInfo)
    ensures s.eligibilityChecked && s.documents == [] ==> r == (CheckDocuments, EmptyInfo)
    // a pending document: ask about it
    ensures (s.eligibilityChecked && exists i :: 0 <= i < |s.documents| && s.documents[i].1 == Unknown) ==>
      r.0 == CheckDocuments && r.1 == EmptyInfo.(nextDocument := CheckDocumentReadiness(s.documents).nextDoc) &&
      r.1.nextDocument.Some?
    // every document answered, some missing: explain which
    ensures (s.eligibilityChecked && (forall i :: 0 <= i < |s.documents| ==> s.documents[i].1 != Unknown) &&
             (exists i :: 0 <= i < |s.documents| && s.documents[i].1 == No)) ==>
      r == (CheckDocuments, EmptyInfo.(missingDocuments := Some(NamesWithStatus(s.documents, No))))
    // confirmation only for a checked user holding every document
    ensures r.0 == ConfirmApplication <==>
      s.eligibilityChecked && s.documents != [] && !s.applicationStarted &&
      (forall i :: 0 <= i < |s.documents| ==> s.documents[i].1 == Yes)
    // every document ready: confirm once, then report, with nothing else to say
    ensures (s.eligibilityChecked && s.documents != [] &&
             (forall i :: 0 <= i < |s.documents| ==> s.documents[i].1 == Yes)) ==>
      r == (if s.applicationStarted then RespondResult else ConfirmApplication, EmptyInfo)
  {
    if !s.eligibilityChecked then (CheckEligibility, EmptyInfo)
    else if s.documents == [] then (CheckDocuments, EmptyInfo)
    else
      var readiness := CheckDocumentReadiness(s.documents);
      match readiness.status
      case Checking => (CheckDocuments, EmptyInfo.(nextDocument := readiness.nextDoc))
      case Missing => (CheckDocuments, EmptyInfo.(missingDocuments := Some(readiness.missingDocs)))
      case Ready => (if !s.applicationStarted then ConfirmApplication else RespondResult, EmptyInfo)
  }

  /** The decision table, in strict priority order: low speech confidence,
      pending contradictions, the discovery flow, the apply flow, fallback. */
  function Decide(s: PlannerInput, sttConfidence: real): (r: (PlannerAction, Info))
    requires s.intent == Some("FIND_ELIGIBLE_SCHEME") ==> AgeComparable(s.slots)
    // low confidence wins over everything, pending contradictions included
    ensures sttConfidence < 0.3 ==> r == (RepeatInput, EmptyInfo.(reason := Some("low_stt_confidence")))
    // then contradictions, reported as a copy of the log
    ensures sttConfidence >= 0.3 && s.contradictions != [] ==>
      r == (HandleContradiction, EmptyInfo.(contradictions := Some(s.contradictions)))
    // an intent outside the two flows falls back to asking
    ensures (sttConfidence >= 0.3 && s.contradictions == [] &&
             s.intent != Some("FIND_ELIGIBLE_SCHEME") && s.intent != Some("APPLY_FOR_SCHEME")) ==>
      r == (AskMissingSlot, EmptyInfo.(reason := Some("unhandled_intent_or_none")))
    // otherwise the intent selects the discovery flow or the apply flow
    ensures (sttConfidence >= 0.3 && s.contradictions == [] && s.intent == Some("FIND_ELIGIBLE_SCHEME")) ==>
      r == Discover(s)
    ensures (sttConfidence >= 0.3 && s.contradictions == [] && s.intent == Some("APPLY_FOR_SCHEME")) ==>
      r == Apply(s)
  {
    if sttConfidence < 0.3 then (RepeatInput, EmptyInfo.(reason := Some("low_stt_confidence")))
    else if s.contradictions != [] then (HandleContradiction, EmptyInfo.(contradictions := Some(s.contradictions)))
    else if s.intent == Some("FIND_ELIGIBLE_SCHEME") then Discover(s)
    else if s.intent == Some("APPLY_FOR_SCHEME") then Apply(s)
    else (AskMissingSlot, EmptyInfo.(reason := Some("unhandled_intent_or_none")))
  }

  /** The inner loop of `get_required_slots_for_schemes`: appends each
      slot of `needed` that `required` does not hold yet. */
  method AppendNewSlots(ghost seen: seq<string>, required: seq<string>, needed: seq<string>)
    returns (r: seq<string>)
    requires required == Dedup(seen)
    ensures r == Dedup(seen + needed)
  {
    r := required;
    var j := 0;
    assert seen + needed[..0] == seen;
    while j < |needed|
      invariant 0 <= j <= |needed|
      invariant r == Dedup(seen + needed[..j])
    {
      DedupSnoc(seen + needed[..j], needed[j]);
      assert seen + needed[..j + 1] == seen + needed[..j] + [needed[j]];
      if needed[j] !in r {
        r := r + [needed[j]];
      }
      j := j + 1;
    }
    assert needed[..j] == needed;
  }

  /** `get_required_slots_for_schemes`: the union of the required slots of
      the requested schemes (all of them when none are requested). */
  method GetRequiredSlotsForSchemes(targetSchemes: seq<string>) returns (required: seq<string>)
    ensures required == RequiredSlots(targetSchemes)
  {
    var schemes := if targetSchemes == [] then Schemes else targetSchemes;
    required := [];
    var i := 0;
    while i < |schemes|
      invariant 0 <= i <= |schemes|
      invariant required == Dedup(Flatten(SlotLists(schemes[..i])))
    {
      var needed := SchemeRequiredSlots(schemes[i]);
      required := AppendNewSlots(Flatten(SlotLists(schemes[..i])), required, needed);
      SlotListsSnoc(schemes, i);
      FlattenSnoc(SlotLists(schemes[..i]), needed);
      i := i + 1;
    }
    assert schemes[..i] == schemes;
  }

  /** `get_missing_slots`: the filtering loop. */
  method GetMissingSlots(slots: Slots, required: seq<string>) returns (missing: seq<string>)
    ensures missing == MissingSlots(slots, required)
  {
    missing := [];
    var i := 0;
    while i < |required|
      invariant 0 <= i <= |required|
      invariant missing == MissingSlots(slots, required[..i])
    {
      MissingSlotsSnoc(slots, required, i);
      if Get(slots, required[i]).None? {
        missing := missing + [required[i]];
      }
      i := i + 1;
    }
    assert required[..i] == required;
  }

  lemma MissingSlotsSnoc(slots: Slots, required: seq<string>, i: nat)
    requires i < |required|
    ensures MissingSlots(slots, required[..i + 1]) ==
      MissingSlots(slots, required[..i]) + (if Known(slots, required[i]) then [] else [required[i]])
  {
    assert required[..i + 1][..i] == required[..i];
  }

  /** Stage 2 of discovery: the loop collecting the complete candidates. */
  method GetCompleteSchemes(slots: Slots, candidates: seq<string>) returns (complete: seq<string>)
    ensures complete == CompleteSchemes(slots, candidates)
  {
    complete := [];
    var i := 0;
    while i < |candidates|
      invariant 0 <= i <= |candidates|
      invariant complete == CompleteSchemes(slots, candidates[..i])
    {
      assert candidates[..i + 1][..i] == candidates[..i];
      var missingForScheme := GetMissingSlots(slots, SchemeRequiredSlots(candidates[i]));
      if missingForScheme == [] {
        complete := complete + [candidates[i]];
      }
      i := i + 1;
    }
    assert candidates[..i] == candidates;
  }

  /** The discovery flow of `decide_next_action`: narrows the candidates,
      collects the complete ones in a loop and otherwise asks for the first
      missing slot. */
  method DiscoveryFlow(state: AgentState) returns (action: PlannerAction, info: Info)
    requires AgeComparable(state.slots)
    ensures (action, info) == Discover(InputOf(state))
  {
    info := EmptyInfo;
    var candidates := CandidateSchemes(state.slots);
    info := info.(candidateSchemes := Some(candidates));
    if candidates == [] {
      candidates := Schemes;
      info := info.(candidateSchemes := Some(candidates), note := Some("no_candidates_yet_using_all"));
    }
    var complete := GetCompleteSchemes(state.slots, candidates);
    info := info.(completeSchemes := Some(complete));
    if complete != [] {
      action := if !state.eligibilityChecked then CheckEligibility else RespondResult;
      return;
    }
    var required := GetRequiredSlotsForSchemes(candidates);
    var missing := GetMissingSlots(state.slots, required);
    info := info.(requiredSlots := Some(required), missingSlots := Some(missing));
    if missing != [] {
      action := AskMissingSlot;
      info := info.(nextSlot := ChooseNextMissingSlot(missing));
    } else if !state.eligibilityChecked {
      action := CheckEligibility;
    } else {
      action := RespondResult;
    }
  }

  /** `decide_next_action`: picks the action of the decision table and
      records its tag in `last_action`, the only field it writes. */
  method DecideNextAction(state: AgentState, sttConfidence: real) returns (action: PlannerAction, info: Info)
    requires state.Valid()
    requires state.intent == Some("FIND_ELIGIBLE_SCHEME") ==> AgeComparable(state.slots)
    modifies state`lastAction
    ensures state.Valid()
    ensures (action, info) == Decide(InputOf(state), sttConfidence)
    ensures state.lastAction == Some(action.Tag())
  {
    info := EmptyInfo;
    if sttConfidence < 0.3 {
      action := RepeatInput;
      state.lastAction := Some(action.Tag());
      info := info.(reason := Some("low_stt_confidence"));
      return;
    }
    if state.contradictions != [] {
      action := HandleContradiction;
      state.lastAction := Some(action.Tag());
      info := info.(contradictions := Some(state.contradictions));
      return;
    }
    if state.intent == Some("FIND_ELIGIBLE_SCHEME") {
      action, info := DiscoveryFlow(state);
      state.lastAction := Some(action.Tag());
      return;
    }
    if state.intent == Some("APPLY_FOR_SCHEME") {
      if !state.eligibilityChecked {
        action := CheckEligibility;
      } else if state.documents == [] {
        action := CheckDocuments;
      } else {
        var readiness := CheckDocumentReadiness(state.documents);
        if readiness.status == Checking {
          action := CheckDocuments;
          info := info.(nextDocument := readiness.nextDoc);
        } else if readiness.status == Missing {
          action := CheckDocuments;
          info := info.(missingDocuments := Some(readiness.missingDocs));
        } else {
          action := if !state.applicationStarted then ConfirmApplication else RespondResult;
        }
      }
      state.lastAction := Some(action.Tag());
      return;
    }
    action := AskMissingSlot;
    state.lastAction := Some(action.Tag());
    info := info.(reason := Some("unhandled_intent_or_none"));
  }

  /** With confidence at least 0.3 and no contradiction pending, the
      discovery flow asks for a slot exactly when no candidate is complete,
      and then asks for the first missing slot of the union of what the
      candidates need. Otherwise it checks eligibility once, then reports.
      So the source's fall-through branch after the union is never taken. */
  lemma {:induction false} DiscoveryOutcome(s: PlannerInput)
    requires AgeComparable(s.slots)
    ensures var (action, info) := Discover(s);
      var candidates := Candidates(s.slots);
      var missing := MissingSlots(s.slots, RequiredSlots(candidates));
      && (action == AskMissingSlot <==> CompleteSchemes(s.slots, candidates) == [])
      && (action == AskMissingSlot ==>
            missing != [] && info.missingSlots == Some(missing) && info.nextSlot == Some(missing[0]))
      && (action != AskMissingSlot ==>
            action == (if s.eligibilityChecked then RespondResult else CheckEligibility))
  {
    var candidates := Candidates(s.slots);
    if CompleteSchemes(s.slots, candidates) == [] {
      IncompleteCandidatesLeaveAMissingSlot(s.slots, candidates);
    }
  }

  /** Every incomplete candidate contributes an unknown slot to the union. */
  lemma {:induction false} IncompleteCandidatesLeaveAMissingSlot(slots: Slots, candidates: seq<string>)
    requires candidates != [] && CompleteSchemes(slots, candidates) == []
    ensures MissingSlots(slots, RequiredSlots(candidates)) != []
  {
    var c := candidates[0];
    assert !Complete(slots, c);
    var x := MissingSlots(slots, SchemeRequiredSlots(c))[0];
    assert x in SchemeRequiredSlots(Effective(candidates)[0]);
    assert x in MissingSlots(slots, RequiredSlots(candidates));
  }

  /** The slot discovery asks for is one that memory lacks and that some
      candidate needs. */
  lemma AskedSlotIsNeeded(s: PlannerInput)
    requires AgeComparable(s.slots) && Discover(s).0 == AskMissingSlot
    ensures var next := Discover(s).1.nextSlot;
      var candidates := Candidates(s.slots);
      && next.Some? && !Known(s.slots, next.value)
      && exists k :: 0 <= k < |candidates| && next.value in SchemeRequiredSlots(candidates[k])
  {
    DiscoveryOutcome(s);
    var missing := MissingSlots(s.slots, RequiredSlots(Candidates(s.slots)));
    assert missing[0] in missing;
  }

  /** In the apply flow a pending document is asked about in checklist
      order: the one the first-unknown search finds. */
  lemma ApplyAsksNextUnknownDocument(s: PlannerInput)
    requires s.eligibilityChecked
    requires exists i :: 0 <= i < |s.documents| && s.documents[i].1 == Unknown
    ensures Apply(s).0 == CheckDocuments
    ensures Apply(s).1.nextDocument == NextUnknownDocument(s.documents)
    ensures Apply(s).1.nextDocument.Some?
  {
    ReadinessAgreesWithNextUnknown(s.documents);
  }

  /** PMMVY needs `age_at_childbirth`, which is not a tracked slot, so in a
      memory holding exactly the tracked slots it is never complete. */
  lemma PmmvyNeverComplete(slots: Slots)
    requires slots.Keys == SlotNameSet
    ensures !Complete(slots, "PMMVY")
  {
    assert "age_at_childbirth" in MissingSlots(slots, SchemeRequiredSlots("PMMVY"));
  }

  /** A woman under 60 who is not a farmer has PMMVY as her only candidate;
      once both of its tracked slots are known, discovery asks for
      `age_at_childbirth`. */
  lemma {:induction false} MaternityOnlyUserIsAskedForChildbirthAge(s: PlannerInput)
    requires s.slots.Keys == SlotNameSet
    requires Get(s.slots, "gender") == Some(StrVal("female"))
    requires Get(s.slots, "age").Some? && Get(s.slots, "age").value.IntVal? && Get(s.slots, "age").value.i < 60
    requires Get(s.slots, "is_landholding_farmer") == Some(BoolVal(false))
    requires Known(s.slots, "is_pregnant_or_lactating") && Known(s.slots, "meets_any_social_category")
    ensures Candidates(s.slots) == ["PMMVY"]
    ensures Discover(s).0 == AskMissingSlot && Discover(s).1.nextSlot == Some("age_at_childbirth")
  {
    var candidates := Candidates(s.slots);
    OnlyMaternityCandidate(s.slots);
    PmmvyNeverComplete(s.slots);
    assert CompleteSchemes(s.slots, candidates) == [];
    DiscoveryOutcome(s);
    RequiredSlotsOfPmmvy();
    OnlyChildbirthAgeMissing(s.slots);
  }

  lemma OnlyMaternityCandidate(slots: Slots)
    requires Get(slots, "gender") == Some(StrVal("female"))
    requires Get(slots, "age").Some? && Get(slots, "age").value.IntVal? && Get(slots, "age").value.i < 60
    requires Get(slots, "is_landholding_farmer") == Some(BoolVal(false))
    ensures Candidates(slots) == ["PMMVY"]
  {
    var oldAge: seq<string> := [];
    var farmer: seq<string> := [];
    assert CandidateSchemes(slots) == oldAge + farmer + ["PMMVY"];
  }

  lemma OnlyChildbirthAgeMissing(slots: Slots)
    requires slots.Keys == SlotNameSet
    requires Known(slots, "is_pregnant_or_lactating") && Known(slots, "meets_any_social_category")
    ensures MissingSlots(slots, SchemeRequiredSlots("PMMVY")) == ["age_at_childbirth"]
  {
    var needed := SchemeRequiredSlots("PMMVY");
    assert needed[..2][..1] == ["is_pregnant_or_lactating"];
    assert needed[..2][..1][..0] == [];
    assert MissingSlots(slots, needed[..2]) == [];
  }

  lemma RequiredSlotsOfPmmvy()
    ensures RequiredSlots(["PMMVY"]) == SchemeRequiredSlots("PMMVY")
  {
    var needed := SchemeRequiredSlots("PMMVY");
    var none: seq<seq<string>> := [];
    FlattenSnoc(none, needed);
    assert Flatten(none) == [];
    assert SlotLists(Effective(["PMMVY"])) == none + [needed];
    assert Flatten(SlotLists(Effective(["PMMVY"]))) == needed;
    DedupOfDistinct(needed);
    assert Dedup(needed) == needed;
  }

  /** No turn of slot updates ever stores `age_at_childbirth` in a memory
      holding exactly the tracked slots, so the question above repeats. */
  lemma ChildbirthAgeNeverStored(m: SlotRecord, incoming: seq<(string, Option<Value>)>)
    requires m.slots.Keys == SlotNameSet
    ensures !Known(MergeAll(m, incoming).slots, "age_at_childbirth")
  {
  }

  /** A turn that contradicts a stored value is raised on the next decision
      (unless the speech confidence is too low), and the report names the
      slot. A turn names each slot at most once, as a dictionary does. */
  lemma ConflictingTurnIsRaisedNext(
    s: PlannerInput, m: SlotRecord, incoming: seq<(string, Option<Value>)>, k: nat, sttConfidence: real)
    requires Distinct(Firsts(incoming))
    requires k < |incoming| && Conflicts(m.slots, incoming[k].0, incoming[k].1)
    requires s.slots == MergeAll(m, incoming).slots && s.contradictions == MergeAll(m, incoming).contradictions
    requires (s.intent == Some("FIND_ELIGIBLE_SCHEME") ==> AgeComparable(s.slots)) && sttConfidence >= 0.3
    ensures incoming[k].0 in s.contradictions
    ensures Decide(s, sttConfidence) == (HandleContradiction, EmptyInfo.(contradictions := Some(s.contradictions)))
  {
    var r := MergeAll(m, incoming);
    ConflictLoggedOnce(m, incoming, k);
    assert incoming[k].0 in multiset(r.contradictions[|m.contradictions|..]);
    assert incoming[k].0 in r.contradictions[|m.contradictions|..];
  }
}

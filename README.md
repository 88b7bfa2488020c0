# Welfare-scheme voice assistant: verified model of the decision core

The assistant talks with a citizen in Tamil, fills a small memory of facts
about them (age, poverty-line status, farmer, gender, …), decides turn by
turn what to do next, checks their eligibility for three national welfare
schemes (IGNOAPS old-age pension, PM-KISAN farmer support, PMMVY maternity
benefit) against a rule catalog, and walks them through the documents a
scheme needs. This project models the deterministic core of that loop in
Dafny and proves what it promises:

- `values.dfy` (`Values`): `Option`, the slot values (integer, boolean,
  string) and the slot dictionary.
- `sequences.dfy` (`Sequences`): ordered de-duplication, concatenation and
  option filtering, the list idioms the source uses, with their laws.
- `slot_memory.dfy` (`SlotMemory`): the tracked slot names, the
  `AgentState` record as a class, and the per-turn update as a method with a
  loop invariant, proved equal to a fold of a one-pair merge; the merge's
  guarantees (no overwrite of a known value, contradictions logged once,
  append-only logs, nulls and unknown names ignored) are lemmas.
- `catalog.dfy` (`Catalog`): the scheme catalog as data (taken as a
  parameter instead of being read from a JSON file).
- `eligibility.dfy` (`Eligibility`): the rule engine, one scheme, and the
  whole catalog in order.
- `documents.dfy` (`Documents`): the document checklist, its
  initialisation, the first-unknown search, the readiness classification,
  and the orchestrator's recording of an answer.
- `planner.dfy` (`Planner`): candidate narrowing, the union of required
  slots, missing slots, and the decision table, both as a pure function and
  as the method that writes `last_action`.
- `nlu_utils.dfy` (`NluUtils`): the yes/no classifier for the citizen's
  answers about documents and about confirming the application (Tamil
  substrings, then English whole words).
- `scenarios.dfy` (`Scenarios`): two flows end to end. In a discovery
  turn, a fresh memory is told "age 65, below the poverty line"; the
  planner then checks eligibility, and the engine finds an old-age pension
  entry eligible. In a document check, two documents are held and a third
  is unknown; the report asks about the third, and a "no" to it makes the
  checklist `missing` exactly that document.

The discovery flow has a branch for "nothing missing and nothing complete"
(app/planner.py:167-170), which either checks eligibility or reports the
result. The model keeps the branch as written, and `Planner.IncompleteCandidatesLeaveAMissingSlot` proves it can
never be taken.

Slot values are typed; the source's comparisons `>=`, `<=` and `between`
are modelled only for integer operands, which the functions that compare
demand in their preconditions (`RuleTyped`, `AgeComparable`).

## Model

| member | source | states |
|---|---|---|
| SlotMemory.AgentState.constructor | app/agent_state.py:16-39 | a fresh memory has exactly the seven slot names as keys, all unknown, empty logs, nothing checked, no documents, no application, no last action |
| SlotMemory.NewIntent | app/agent_state.py:54-55 | a non-empty incoming intent replaces the stored one; a missing or empty one leaves it unchanged |
| SlotMemory.MergeOne | app/agent_state.py:59-74 | one pair: unknown names and nulls change nothing; a differing value for a known slot only appends the name to `contradictions`; a fresh or equal value is stored and the name appended to `confirmed_slots`; known values are never replaced; the key set is kept; logs only grow, by at most one entry |
| SlotMemory.MergeAll | app/agent_state.py:58-74 | a whole turn keeps the key set, keeps both old logs as prefixes, never replaces a known value, and leaves slots not named in the turn unchanged |
| SlotMemory.MergeAllProvenance | app/agent_state.py:58-74 | every value changed by a turn was offered in it, and every new log entry is a tracked slot named in the turn |
| SlotMemory.NullsChangeNothing | app/agent_state.py:59-64 | a turn of null values or untracked names leaves the memory exactly as it was |
| SlotMemory.ConflictLoggedOnce | app/agent_state.py:66-70 | a value differing from a stored one leaves the stored value, is logged in `contradictions` exactly once, and is not confirmed |
| SlotMemory.AcceptedStoredOnce | app/agent_state.py:71-74 | a value for an empty slot, or equal to the stored one, is stored, confirmed exactly once and never logged as a contradiction |
| SlotMemory.AgreeingTurnIsQuiet | app/agent_state.py:66-74 | a turn repeating stored values changes no slot and logs no contradiction |
| SlotMemory.RepeatedTurnIsQuiet | app/agent_state.py:71-74 | writing the same values twice never creates a contradiction: a turn that logged none logs none again and changes no slot |
| SlotMemory.MergeOneProvenance | app/agent_state.py:59-74 | one pair changes at most the named slot, only to the offered value, and logs at most that name, and only when it is tracked |
| SlotMemory.AgentState.OfferSlot | app/agent_state.py:59-74 | one loop iteration changes the slots and both logs exactly as `MergeOne` does |
| SlotMemory.AgentState.MergeSlots | app/agent_state.py:57-74 | the slot loop leaves the slots and logs equal to the fold `MergeAll` of the turn |
| SlotMemory.AgentState.UpdateFromNlu | app/agent_state.py:42-74 | the method keeps the key set equal to the slot names, sets the intent as `NewIntent`, leaves slots and logs equal to the fold `MergeAll` of the turn, and changes no other field |
| Eligibility.EvaluateRule | app/services/eligibility.py:24-68 | a rule fails when its field is absent or null, when its operator is unknown and when a `between` range is not a two-element list; otherwise `==` is equality, `>=`/`<=` compare the value with the expected one, and `between` is min <= value <= max |
| Eligibility.BetweenIsInclusive | app/services/eligibility.py:59-64 | both ends of a `between` range pass, one unit outside either end fails |
| Eligibility.AllFieldsKnown | app/services/eligibility.py:85-88 | true exactly when every required field has a non-null value |
| Eligibility.AllRulesPass | app/services/eligibility.py:91-94 | true exactly when every rule passes |
| Eligibility.CheckSchemeEligibility | app/services/eligibility.py:71-100 | a scheme is eligible exactly when all its required fields are known and all its rules pass; the result carries its id and its Tamil reason, "" when absent |
| Eligibility.EligibleSchemes | app/services/eligibility.py:116-123 | the engine's output holds exactly the results of the eligible catalog entries, and no more entries than the catalog |
| Eligibility.EligibleSchemesInCatalogOrder | app/services/eligibility.py:116-123 | the engine's output is a subsequence of the catalog: entry k comes from an eligible position, positions strictly increase, every eligible position appears once |
| Eligibility.CheckEligibility | app/services/eligibility.py:103-123 | the accumulating loop returns exactly `EligibleSchemes` of the catalog |
| Documents.RequiredDocuments | app/services/documents.py:19-33 | the documents of the first catalog entry with the id; none for an unknown id |
| Documents.InitializeDocumentState | app/services/documents.py:36-47 | the checklist holds each required document once, in first-listed order, all `unknown`; an unknown scheme gives an empty checklist |
| Documents.NextUnknownDocument | app/services/documents.py:50-63 | None exactly when no document is `unknown`; otherwise the first `unknown` document in order |
| Documents.NamesWithStatus | app/services/documents.py:76-77 | exactly the names with the given status |
| Documents.NamesWithStatusAppend | app/services/documents.py:76-77 | the name lists are a filter in checklist order: the list of two checklists joined is the two lists joined |
| Documents.CheckDocumentReadiness | app/services/documents.py:66-96 | `checking` iff some document is `unknown` (with a next document and no missing list), `missing` iff none is `unknown` and some is `no` (with exactly the `no` documents), `ready` iff all are `yes`, the empty checklist included |
| Documents.ReadinessAgreesWithNextUnknown | app/services/documents.py:79-84 | while checking, the readiness report's next document is the one the first-unknown search returns |
| Documents.RecordAnswer | app/streamlit_app.py:137 | recording an answer keeps an existing document in its place and appends a new one |
| Documents.RecordAnswerWritesOneEntry | app/streamlit_app.py:137 | on a checklist naming each document once, answering a listed document writes the answer into exactly that entry and keeps every other entry and the length; a new name goes last with the answer; the checklist still names each document once |
| Documents.AnsweringNextDocumentProgresses | app/streamlit_app.py:128-137 | answering the document the checklist asks about keeps the names and their order and removes exactly one `unknown`, so checking ends after at most as many answers as there are documents |
| Sequences.Dedup | app/planner.py:72-77 | the first-seen de-duplication holds exactly the input's elements, each once |
| Sequences.DedupFirstSeenOrder | app/planner.py:72-77 | the de-duplicated elements appear in the order of their first occurrence in the input |
| Planner.CandidateSchemes | app/planner.py:33-60 | IGNOAPS iff age is known and at least 60; PM-KISAN unless the farmer slot is explicitly false; PMMVY iff gender is "female"; in that order, each once |
| Planner.SchemeRequiredSlots | app/planner.py:19-30 | the table lists slots exactly for the three known schemes, each slot once, and every listed slot is a tracked slot except `age_at_childbirth` |
| Planner.Candidates | app/planner.py:131-136 | the narrowed candidates when there are any, otherwise all three schemes; never empty |
| Planner.RequiredSlots | app/planner.py:63-77 | the union, without repetition, of the required slots of the given schemes, or of all schemes when none are given |
| Planner.RequiredSlotsFirstSeen | app/planner.py:63-77 | the union lists the slots in the order they are first met, scheme by scheme and slot by slot |
| Planner.AppendNewSlots | app/planner.py:74-76 | the inner loop appends exactly the new slots, in first-seen order |
| Planner.GetRequiredSlotsForSchemes | app/planner.py:63-77 | the double loop computes `RequiredSlots` |
| Planner.MissingSlots | app/planner.py:80-88 | exactly the required slots whose value is unknown |
| Planner.MissingSlotsAppend | app/planner.py:80-88 | the missing slots are a filter in the order of the required list: the missing slots of two lists joined are those of each, joined |
| Planner.GetMissingSlots | app/planner.py:80-88 | the loop computes `MissingSlots` |
| Planner.ChooseNextMissingSlot | app/planner.py:91-93 | None iff nothing is missing, otherwise the first missing slot |
| Planner.CompleteSchemes | app/planner.py:140-145 | exactly the candidates with no missing required slot |
| Planner.CompleteSchemesAppend | app/planner.py:140-145 | the complete schemes are a filter in candidate order: those of two candidate lists joined are those of each, joined |
| Planner.GetCompleteSchemes | app/planner.py:140-145 | the loop computes `CompleteSchemes` |
| Planner.Apply | app/planner.py:176-206 | not checked: check eligibility; no checklist: check documents; a pending document: check documents naming it; all answered with some `no`: check documents listing the missing ones; every document `yes`: confirmation when not started, otherwise report the result, with no extra information; confirmation exactly in that case |
| Planner.Discover | app/planner.py:125-173 | the information always carries the candidates and the complete ones, and the note `no_candidates_yet_using_all` exactly when narrowing left nothing; with a complete candidate: check eligibility if not yet checked, else report; otherwise ask, carrying the required and missing slots; never any other action |
| Planner.Decide | app/planner.py:108-212 | confidence below 0.3 repeats the input whatever else holds; otherwise pending contradictions are handled with a copy of the log; otherwise the discovery intent gives `Discover`, the apply intent gives `Apply`, and any other intent asks with reason `unhandled_intent_or_none` |
| Planner.DiscoveryFlow | app/planner.py:125-173 | the discovery branch's loops compute the decision `Discover` |
| Planner.DecideNextAction | app/planner.py:96-212 | on a memory holding exactly the tracked slots, the method returns the decision of `Decide` and writes the returned action's tag to `last_action`, the only field it may modify, so the memory stays well formed |
| Planner.DiscoveryOutcome | app/planner.py:138-173 | discovery asks for a slot exactly when no candidate is complete, and then for the first slot of a non-empty missing list; otherwise it checks eligibility if not yet checked, else reports |
| Planner.IncompleteCandidatesLeaveAMissingSlot | app/planner.py:159-170 | with no complete candidate the union always has a missing slot, so the branch after it that checks eligibility or reports is never taken |
| Planner.AskedSlotIsNeeded | app/planner.py:159-166 | the slot discovery asks for is unknown and required by some candidate |
| Planner.ApplyAsksNextUnknownDocument | app/planner.py:186-191 | in the apply flow a pending document is the one the first-unknown search returns |
| Planner.PmmvyNeverComplete | app/planner.py:25-29 | PMMVY is never complete, because `age_at_childbirth` is not a tracked slot |
| Planner.MaternityOnlyUserIsAskedForChildbirthAge | app/planner.py:159-166 | a woman under 60 who is not a farmer, with both tracked PMMVY slots known, is asked for `age_at_childbirth` |
| Planner.ChildbirthAgeNeverStored | app/agent_state.py:58-60 | no turn can store `age_at_childbirth`, so that question repeats forever |
| Planner.ConflictingTurnIsRaisedNext | app/planner.py:118-122 | a turn contradicting a stored value makes the next decision handle the contradiction, naming the slot |
| Scenarios.OldAgeTurnIsStored | app/agent_state.py:58-74 | a fresh memory told age 65 and below the poverty line stores exactly those two values and adds no contradiction |
| Scenarios.OldAgeDiscoveryChecksEligibility | app/planner.py:125-156 | with those values and no check yet, a discovery turn at confidence 0.9 finds IGNOAPS complete and checks eligibility |
| Scenarios.ThirdDocumentAskedThenMissing | app/services/documents.py:66-96 | with two documents held and a third unknown, the report asks about the third; answering "no" writes it in place and the report turns to `missing`, listing exactly that document |
| Scenarios.OldAgePensionIsEligible | app/services/eligibility.py:71-123 | a catalog holding one pension entry (age at least 60, below the poverty line) reports that entry as eligible, with its reason, for those values |
| NluUtils.StripStart | app/services/nlu_utils.py:17 | removes exactly the leading white space |
| NluUtils.StripEnd | app/services/nlu_utils.py:17 | removes exactly the trailing white space |
| NluUtils.Contains | app/services/nlu_utils.py:44 | the scan finds the pattern iff it occurs at some position |
| NluUtils.AnyContained | app/services/nlu_utils.py:43-45 | the pattern loop hits iff some pattern of the list occurs |
| NluUtils.FindWordFrom | app/services/nlu_utils.py:53 | the scan finds the word iff it occurs as a whole word at or after the start |
| NluUtils.AnyWord | app/services/nlu_utils.py:53-56 | the English alternation `\b(…)\b` matches iff some word of its list occurs as a whole word |
| NluUtils.ExtractYesNoFromTamil | app/services/nlu_utils.py:7-58 | on the lowered, stripped text: a Tamil yes wins over everything; a Tamil no only without a Tamil yes; English only without any Tamil match, yes before no; None exactly when nothing matched |
| NluUtils.SariyillaiReadsAsYes | app/services/nlu_utils.py:34-40 | an answer containing "சரியில்லை" ("not right") reads as yes, because it contains the yes-pattern "சரி" |
| NluUtils.StrippingChangesNoAnswer | app/services/nlu_utils.py:17 | stripping white space never changes which group of patterns matches |
| NluUtils.AsciiAnswerIsEnglish | app/services/nlu_utils.py:52-58 | an ASCII answer is decided by the English words alone |
| NluUtils.ShoutedYesIsYes | app/services/nlu_utils.py:17 | "  YES " reads as yes |
| NluUtils.NothingIsUnclear | app/services/nlu_utils.py:53-56 | "nothing" is unclear: "no" and "n" count only as whole words |

## Left out

- File I/O: `load_schemes` in app/services/eligibility.py and app/services/documents.py reads a JSON catalog; the catalog is a parameter here. Its contents are not part of this model.
- `summarize_turn` in app/planner.py: debug log formatting only.
- The user interface, speech-to-text, text-to-speech, the language-model intent and slot extractor, question phrasing and application-id generation: I/O, floating-point heuristics, network calls and randomness. The speech confidence is a `real` parameter compared with 0.3.
- Python's loose comparisons: `True == 1`, and a `TypeError` when `>=` meets a string. Slot values are typed. `EvaluateRule`, `CheckSchemeEligibility` and `CandidateSchemes` require integer operands wherever the source compares with `>=`, `<=` or `between`.
- Planner.DecideNextAction: the `target_schemes` parameter is not modelled. The source accepts it but never reads it.
- NluUtils.Lower: lowercases ASCII letters only. Python's `str.lower` also maps other cased scripts; the Tamil patterns have no case.
- NluUtils.IsWordChar: the English word boundaries use ASCII word characters only. Python treats Unicode letters and digits as word characters too, so an English word glued to a Tamil letter can match here and not there.
- Documents.DocStatus: has three values. The orchestrator writes only "yes" and "no" answers. Any other status string would count like `yes` in the source's readiness check.
- Planner.Apply: the source's `else` branch for an unrecognised readiness status (app/planner.py:202-203) cannot arise with a three-valued status, so it is not modelled.
- Catalog.Scheme: the Tamil reason is either a string or absent. A catalog entry whose `reason_ta` is JSON `null` is not represented; the source would pass that null through as the result's reason, while an absent key gives "".
- SlotMemory.NluResult: the incoming slots are a sequence, so a name may repeat. The source passes a dictionary. Lemmas that need at most one value per slot require distinct names.

/** The deterministic eligibility engine (app/services/eligibility.py): one
    rule against the slots, one scheme against the slots, and the whole
    catalog in order. Every malformed or unknown piece of configuration can
    only make a scheme fail, never pass. */
module Eligibility {
  import opened Values
  import opened Catalog
  import opened Sequences

  /** What the engine reports for an eligible scheme. */
  datatype EligibleScheme = EligibleScheme(schemeId: string, reasonTa: string)

  /** The value a rule looks at, when the slots hold one. */
  function Actual(rule: Rule, slots: Slots): Option<Value> {
    if rule.field.Some? then Get(slots, rule.field.value) else None
  }

  /** The rule's comparison is between integers wherever the source would
      compare with `>=` or `<=`: an ordering rule whose field has a value
      compares two integers, and so does a `between` rule with a
      two-element range. */
  predicate RuleTyped(rule: Rule, slots: Slots) {
    var a := Actual(rule, slots);
    match rule.op
    case Ge => a.Some? ==> a.value.IntVal? && rule.expected.Scalar? && rule.expected.v.IntVal?
    case Le => a.Some? ==> a.value.IntVal? && rule.expected.Scalar? && rule.expected.v.IntVal?
    case Between =>
      a.Some? && rule.expected.Items? && |rule.expected.vs| == 2 ==>
        a.value.IntVal? && rule.expected.vs[0].IntVal? && rule.expected.vs[1].IntVal?
    case _ => true
  }

  /** Evaluates one rule against the slots. */
  function EvaluateRule(rule: Rule, slots: Slots): (r: bool)
    requires RuleTyped(rule, slots)
    // missing data, an unknown operator and a malformed range all fail closed
    ensures r ==> Actual(rule, slots).Some?
    ensures rule.op.Unrecognized? ==> !r
    ensures rule.op.Between? && !(rule.expected.Items? && |rule.expected.vs| == 2) ==> !r
    // on a value that is present, each operator means what it says
    ensures Actual(rule, slots).Some? && rule.op.Eq? ==>
      (r <==> rule.expected == Scalar(Actual(rule, slots).value))
    ensures Actual(rule, slots).Some? && rule.op.Ge? ==>
      (r <==> Actual(rule, slots).value.i >= rule.expected.v.i)
    ensures Actual(rule, slots).Some? && rule.op.Le? ==>
      (r <==> Actual(rule, slots).value.i <= rule.expected.v.i)
    ensures Actual(rule, slots).Some? && rule.op.Between? && rule.expected.Items? && |rule.expected.vs| == 2 ==>
      (r <==> rule.expected.vs[0].i <= Actual(rule, slots).value.i <= rule.expected.vs[1].i)
  {
    if rule.field.None? || rule.field.value !in slots then false
    else
      match slots[rule.field.value]
      case None => false
      case Some(actual) =>
        match rule.op
        case Eq => rule.expected.Scalar? && actual == rule.expected.v
        case Ge => actual.i >= rule.expected.v.i
        case Le => actual.i <= rule.expected.v.i
        case Between =>
          if !rule.expected.Items? || |rule.expected.vs| != 2 then false
          else
            var lo, hi := rule.expected.vs[0], rule.expected.vs[1];
            lo.i <= actual.i <= hi.i
        case Unrecognized(_) => false
  }

  /** Both ends of a `between` range pass; one unit outside either end fails. */
  lemma BetweenIsInclusive(field: string, lo: int, hi: int, slots: Slots)
    requires lo <= hi
    ensures var rule := Rule(Some(field), Between, Items([IntVal(lo), IntVal(hi)]));
      && EvaluateRule(rule, slots[field := Some(IntVal(lo))])
      && EvaluateRule(rule, slots[field := Some(IntVal(hi))])
      && !EvaluateRule(rule, slots[field := Some(IntVal(lo - 1))])
      && !EvaluateRule(rule, slots[field := Some(IntVal(hi + 1))])
  {
  }

  /** The rules the engine reaches are typed: it evaluates them in order and
      stops at the first that fails, so a rule after a failing one is never
      compared. */
  predicate ReachedRulesTyped(rules: seq<Rule>, slots: Slots) {
    rules == [] ||
    (RuleTyped(rules[0], slots) && (EvaluateRule(rules[0], slots) ==> ReachedRulesTyped(rules[1..], slots)))
  }

  /** Every required field has a value (the first loop of the source). */
  function AllFieldsKnown(fields: seq<string>, slots: Slots): (r: bool)
    ensures r <==> forall i :: 0 <= i < |fields| ==> Known(slots, fields[i])
  {
    if fields == [] then true
    else if !Known(slots, fields[0]) then false
    else AllFieldsKnown(fields[1..], slots)
  }

  /** Every rule passes (the second loop of the source, AND with early exit). */
  function AllRulesPass(rules: seq<Rule>, slots: Slots): (r: bool)
    requires ReachedRulesTyped(rules, slots)
    ensures r <==> forall i :: 0 <= i < |rules| ==> RuleTyped(rules[i], slots) && EvaluateRule(rules[i], slots)
  {
    if rules == [] then true
    else if !EvaluateRule(rules[0], slots) then false
    else
      var r := AllRulesPass(rules[1..], slots);
      assert forall i :: 1 <= i < |rules| ==> rules[i] == rules[1..][i - 1];
      r
  }

  /** What the source demands of a scheme before checking it: if its required
      fields are all known, the rules it reaches are typed. */
  predicate SchemeTyped(scheme: Scheme, slots: Slots) {
    AllFieldsKnown(scheme.requiredFields, slots) ==> ReachedRulesTyped(scheme.rules, slots)
  }

  /** Checks one scheme: eligible exactly when every required field is known
      and every rule passes, reported with its id and its reason text ("" when
      the entry has none). */
  function CheckSchemeEligibility(scheme: Scheme, slots: Slots): (r: Option<EligibleScheme>)
    requires SchemeTyped(scheme, slots)
    ensures r.Some? <==>
      (forall i :: 0 <= i < |scheme.requiredFields| ==> Known(slots, scheme.requiredFields[i])) &&
      (forall i :: 0 <= i < |scheme.rules| ==> RuleTyped(scheme.rules[i], slots) && EvaluateRule(scheme.rules[i], slots))
    ensures r.Some? ==> r.value.schemeId == scheme.schemeId
    ensures r.Some? && scheme.reasonTa.Some? ==> r.value.reasonTa == scheme.reasonTa.value
    ensures r.Some? && scheme.reasonTa.None? ==> r.value.reasonTa == ""
  {
    if !AllFieldsKnown(scheme.requiredFields, slots) then None
    else if !AllRulesPass(scheme.rules, slots) then None
    else Some(EligibleScheme(scheme.schemeId, scheme.reasonTa.GetOr("")))
  }

  /** What the source demands of a catalog: every scheme is typed. */
  predicate CatalogTyped(catalog: seq<Scheme>, slots: Slots) {
    forall i :: 0 <= i < |catalog| ==> SchemeTyped(catalog[i], slots)
  }

  /** The outcome of checking each catalog entry, position by position. */
  function Checks(catalog: seq<Scheme>, slots: Slots): (c: seq<Option<EligibleScheme>>)
    requires CatalogTyped(catalog, slots)
    ensures |c| == |catalog|
    ensures forall i :: 0 <= i < |catalog| ==> c[i] == CheckSchemeEligibility(catalog[i], slots)
  {
    seq(|catalog|, i requires 0 <= i < |catalog| && SchemeTyped(catalog[i], slots) =>
      CheckSchemeEligibility(catalog[i], slots))
  }

  /** The eligible schemes of a catalog, in catalog order. */
  function EligibleSchemes(catalog: seq<Scheme>, slots: Slots): (r: seq<EligibleScheme>)
    requires CatalogTyped(catalog, slots)
    ensures |r| <= |catalog|
    ensures forall e :: e in r <==> exists i :: 0 <= i < |catalog| && CheckSchemeEligibility(catalog[i], slots) == Some(e)
  {
    SomesMembers(Checks(catalog, slots));
    Somes(Checks(catalog, slots))
  }

  /** The engine's output is exactly the eligible schemes of the catalog, as a
      subsequence of it in catalog order, one entry per eligible catalog
      position: entry k comes from position idx[k], the positions strictly
      increase, and every eligible position occurs. */
  lemma EligibleSchemesInCatalogOrder(catalog: seq<Scheme>, slots: Slots)
    requires CatalogTyped(catalog, slots)
    ensures var r, idx := EligibleSchemes(catalog, slots), SomeIndices(Checks(catalog, slots));
      && |idx| == |r|
      && (forall k :: 0 <= k < |idx| ==>
            idx[k] < |catalog| && CheckSchemeEligibility(catalog[idx[k]], slots) == Some(r[k]))
      && (forall k, l :: 0 <= k < l < |idx| ==> idx[k] < idx[l])
      && (forall j :: 0 <= j < |catalog| && CheckSchemeEligibility(catalog[j], slots).Some? ==> j in idx)
  {
    SomesInOrder(Checks(catalog, slots));
  }

  /** The engine over the whole catalog: checks each scheme in order and
      collects the eligible ones. */
  method CheckEligibility(catalog: seq<Scheme>, slots: Slots) returns (eligible: seq<EligibleScheme>)
    requires CatalogTyped(catalog, slots)
    ensures eligible == EligibleSchemes(catalog, slots)
  {
    eligible := [];
    ghost var checks := Checks(catalog, slots);
    var i := 0;
    while i < |catalog|
      invariant 0 <= i <= |catalog|
      invariant eligible == Somes(checks[..i])
    {
      assert checks[..i + 1][..i] == checks[..i];
      var result := CheckSchemeEligibility(catalog[i], slots);
      if result.Some? {
        eligible := eligible + [result.value];
      }
      i := i + 1;
    }
    assert checks[..i] == checks;
  }
}

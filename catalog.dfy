/** The scheme catalog, which the source reads from a JSON file and which
    this model takes as a parameter: one record per scheme, in file order. */
module Catalog {
  import opened Values

  /** The operator of a rule. Operator strings other than the four the rule
      engine knows, and a missing operator, are kept as `Unrecognized`. */
  datatype Operator = Eq | Ge | Le | Between | Unrecognized(text: string)

  /** The `value` of a rule: a single value, a list (the `[min, max]` of a
      `between` rule, or a malformed one), or absent. */
  datatype Expected = Scalar(v: Value) | Items(vs: seq<Value>) | Absent

  /** One eligibility rule; a rule may lack its `field` key. */
  datatype Rule = Rule(field: Option<string>, op: Operator, expected: Expected)

  /** One catalog entry. Missing lists read as empty; `reasonTa` is None when
      the entry gives no Tamil reason text. */
  datatype Scheme = Scheme(
    schemeId: string,
    requiredDocuments: seq<string>,
    requiredFields: seq<string>,
    rules: seq<Rule>,
    reasonTa: Option<string>)
}

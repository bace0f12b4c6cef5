/** The per-field selector rule (`SelectorCSS`) in its surface form, its
    model validator, and the cardinality the rule stands for. */
module SelectorRules {
  import opened Wrappers

  /** One named extraction instruction as the caller sends it: a CSS selector,
      the optional `all` flag, the optional `order` index, and whether to strip
      surrounding whitespace from the extracted text (default true). */
  datatype Rule = Rule(query: string, all: Option<bool>, order: Option<int>, strip: bool)

  /** The rule's surface form with the defaults the caller may omit:
      neither `all` nor `order`, and `strip` on. */
  function DefaultRule(query: string): (r: Rule)
    ensures Validate(r) == Ok(r)
    ensures Valid(r) && CardinalityOf(r) == First
  {
    Rule(query, None, None, true)
  }

  /** Raised by the validator when a rule sets both `all` and `order`. */
  datatype ValidationError = ChooseOneOfAllOrOrder

  /** A rule the validator accepts: at most one of `all` and `order` is non-`None`. */
  predicate Valid(rule: Rule)
    ensures rule.all.None? ==> Valid(rule)
    ensures rule.order.None? ==> Valid(rule)
    ensures Valid(rule) ==> rule.all.None? || rule.order.None?
    ensures rule.all == Some(false) && rule.order.Some? ==> !Valid(rule)
  {
    !(rule.all.Some? && rule.order.Some?)
  }

  /** The `after` model validator: it rejects a rule in which both `all` and
      `order` are non-`None` (whatever their values, `all = false` included)
      and otherwise returns the rule itself. */
  function Validate(rule: Rule): (r: Result<Rule, ValidationError>)
    ensures r.Err? <==> rule.all.Some? && rule.order.Some?
    ensures r.Ok? ==> r.value == rule && Valid(r.value)
  {
    if rule.all.Some? && rule.order.Some? then Err(ChooseOneOfAllOrOrder) else Ok(rule)
  }

  /** Python truthiness of the `all` field: only `True` is truthy; `None` and `False` are not. */
  predicate AllTruthy(rule: Rule)
    ensures rule.all.None? ==> !AllTruthy(rule)
    ensures rule.all == Some(false) ==> !AllTruthy(rule)
    ensures rule.all == Some(true) ==> AllTruthy(rule)
  {
    rule.all == Some(true)
  }

  /** Python truthiness of the `order` field: `None` and `0` are falsy. */
  predicate OrderTruthy(rule: Rule)
    ensures rule.order.None? ==> !OrderTruthy(rule)
    ensures rule.order == Some(0) ==> !OrderTruthy(rule)
    ensures forall k :: k != 0 && rule.order == Some(k) ==> OrderTruthy(rule)
  {
    rule.order.Some? && rule.order.value != 0
  }

  /** Which matches a rule extracts, as a tagged variant: the first one, all of
      them, or the one at a given index. */
  datatype Cardinality = First | All | Nth(index: int)

  /** The cardinality a validated rule stands for: `all = true` means ALL, a
      present `order` means NTH, and otherwise the rule takes the first match. */
  function CardinalityOf(rule: Rule): (c: Cardinality)
    requires Valid(rule)
    ensures c.All? <==> rule.all == Some(true)
    ensures c.Nth? <==> rule.order.Some?
    ensures c.Nth? ==> c.index == rule.order.value
  {
    if rule.all == Some(true) then All
    else if rule.order.Some? then Nth(rule.order.value)
    else First
  }

  /** A validated rule has exactly one cardinality, and the three truthiness
      outcomes of the extraction branches line up with it: `all` truthy is ALL,
      `order` truthy is NTH with a non-zero index, and both falsy is FIRST or NTH(0). */
  lemma BranchesMatchCardinality(rule: Rule)
    requires Valid(rule)
    ensures AllTruthy(rule) <==> CardinalityOf(rule) == All
    ensures !AllTruthy(rule) && OrderTruthy(rule) <==>
              CardinalityOf(rule).Nth? && CardinalityOf(rule).index != 0
    ensures !AllTruthy(rule) && !OrderTruthy(rule) <==>
              CardinalityOf(rule) in {First, Nth(0)}
  {
  }
}

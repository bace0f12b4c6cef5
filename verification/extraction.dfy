/** The extraction step of the `/scrape` endpoint: every named rule is
    evaluated against the parsed page and becomes `None`, a string, or a list
    of strings; an out-of-range `order` aborts the whole evaluation. */
module Extraction {
  import opened Wrappers
  import opened SelectorRules
  import opened Documents
  import PyList

  /** The value stored under a field name: `None`, one text, or a list of texts. */
  datatype Value = Null | Str(text: string) | List(items: seq<string>)

  /** The uncaught `IndexError` of `all_matches[order]`, which ends the request. */
  datatype ExtractionError = IndexOutOfRange

  /** The texts of `nodes`, in order, each extracted with the same `strip` flag. */
  function Texts(doc: Document, nodes: seq<Node>, strip: bool): (r: seq<string>)
    ensures |r| == |nodes|
    ensures forall i :: 0 <= i < |nodes| ==> r[i] == doc.text(nodes[i], strip)
  {
    if nodes == [] then [] else [doc.text(nodes[0], strip)] + Texts(doc, nodes[1..], strip)
  }

  /** One iteration of the extraction loop for a single rule. */
  function EvalField(doc: Document, rule: Rule): (r: Result<Value, ExtractionError>)
    ensures r == Ok(Null) <==> !doc.cssMatches(rule.query)
    ensures (r.Ok? && r.value.List?) <==> doc.cssMatches(rule.query) && AllTruthy(rule)
    ensures r.Err? ==> doc.cssMatches(rule.query) && !AllTruthy(rule)
  {
    if !doc.cssMatches(rule.query) then Ok(Null)
    else
      var matches := doc.css(rule.query);
      if AllTruthy(rule) then Ok(List(Texts(doc, matches, rule.strip)))
      else
        var k := if OrderTruthy(rule) then rule.order.value else 0;
        match PyList.Index(|matches|, k)
        case None => Err(IndexOutOfRange)
        case Some(i) => Ok(Str(doc.text(matches[i], rule.strip)))
  }

  /** The whole loop: it fails as soon as one field fails, and otherwise maps
      every field name to its field's value. */
  function Evaluate(doc: Document, rules: map<string, Rule>): (r: Result<map<string, Value>, ExtractionError>)
    ensures r.Err? <==> exists name :: name in rules && EvalField(doc, rules[name]).Err?
    ensures r.Ok? ==> r.value.Keys == rules.Keys
    ensures r.Ok? ==> forall name :: name in rules ==> EvalField(doc, rules[name]) == Ok(r.value[name])
  {
    if exists name :: name in rules && EvalField(doc, rules[name]).Err? then Err(IndexOutOfRange)
    else Ok(map name | name in rules :: EvalField(doc, rules[name]).value)
  }

  /** The extraction loop as written: it visits the rules one at a time, in
      whatever order the mapping yields them, storing each field's value and
      stopping at the first `IndexError`. Whatever the visiting order, the
      outcome is the same. */
  method Scrape(doc: Document, rules: map<string, Rule>) returns (r: Result<map<string, Value>, ExtractionError>)
    ensures r == Evaluate(doc, rules)
  {
    var data: map<string, Value> := map[];
    var pending := rules.Keys;
    while pending != {}
      invariant pending <= rules.Keys
      invariant data.Keys == rules.Keys - pending
      invariant forall name :: name in data ==> EvalField(doc, rules[name]) == Ok(data[name])
      decreases pending
    {
      var name :| name in pending;
      var v := EvalField(doc, rules[name]);
      if v.Err? {
        return Err(v.error);
      }
      data := data[name := v.value];
      pending := pending - {name};
    }
    assert data == map name | name in rules :: EvalField(doc, rules[name]).value;
    return Ok(data);
  }

  /** A selector that matches nothing yields `None`, whatever `all`, `order` and `strip` say. */
  lemma NoMatchIsNull(doc: Document, rule: Rule)
    requires Consistent(doc)
    requires |doc.css(rule.query)| == 0
    ensures EvalField(doc, rule) == Ok(Null)
  {
  }

  /** With `all` truthy, the field lists one text per match, in match order. */
  lemma AllListsEveryMatch(doc: Document, rule: Rule)
    requires doc.cssMatches(rule.query)
    requires AllTruthy(rule)
    ensures EvalField(doc, rule).Ok? && EvalField(doc, rule).value.List?
    ensures |EvalField(doc, rule).value.items| == |doc.css(rule.query)|
    ensures forall i :: 0 <= i < |doc.css(rule.query)| ==>
              EvalField(doc, rule).value.items[i] == doc.text(doc.css(rule.query)[i], rule.strip)
  {
  }

  /** With `all` falsy and `order` non-zero, the field is the text of the match
      that Python's `all_matches[order]` reads: from the front for a positive
      index, from the end for a negative one; every other index fails the
      evaluation and never yields `None`. */
  lemma OrderSelectsMatch(doc: Document, rule: Rule)
    requires doc.cssMatches(rule.query)
    requires !AllTruthy(rule) && OrderTruthy(rule)
    ensures var n, k := |doc.css(rule.query)|, rule.order.value;
            EvalField(doc, rule).Err? <==> !(-n <= k < n)
    ensures var ms, k := doc.css(rule.query), rule.order.value;
            0 < k < |ms| ==> EvalField(doc, rule) == Ok(Str(doc.text(ms[k], rule.strip)))
    ensures var ms, k := doc.css(rule.query), rule.order.value;
            -|ms| <= k < 0 ==> EvalField(doc, rule) == Ok(Str(doc.text(ms[|ms| + k], rule.strip)))
  {
  }

  /** With `all` falsy and `order` absent or zero, the field is the first
      match's text; on a consistent document this branch cannot fail. */
  lemma FirstMatchNeverFails(doc: Document, rule: Rule)
    requires Consistent(doc)
    requires doc.cssMatches(rule.query)
    requires !AllTruthy(rule) && !OrderTruthy(rule)
    ensures |doc.css(rule.query)| > 0
    ensures EvalField(doc, rule) == Ok(Str(doc.text(doc.css(rule.query)[0], rule.strip)))
  {
  }

  /** The shape of a successful value is fixed by the branch taken: a list
      exactly when `all` is truthy, a string exactly for the `order` and
      first-match branches, and `None` exactly when nothing matches. */
  lemma ValueShape(doc: Document, rule: Rule)
    requires EvalField(doc, rule).Ok?
    ensures EvalField(doc, rule).value.Null? <==> !doc.cssMatches(rule.query)
    ensures EvalField(doc, rule).value.List? <==> doc.cssMatches(rule.query) && AllTruthy(rule)
    ensures EvalField(doc, rule).value.Str? <==> doc.cssMatches(rule.query) && !AllTruthy(rule)
  {
  }

  /** Extraction driven by a tagged cardinality instead of the two optional
      fields: no match is `None`, ALL lists every
      match's text, NTH(k) reads the match Python's `matches[k]` reads, and
      FIRST reads the first match. */
  function ExtractByCardinality(doc: Document, query: string, card: Cardinality, strip: bool): (r: Result<Value, ExtractionError>)
    ensures !doc.cssMatches(query) ==> r == Ok(Null)
    ensures card.All? && doc.cssMatches(query) ==> r.Ok? && r.value.List? && |r.value.items| == |doc.css(query)|
    ensures card.All? && doc.cssMatches(query) ==>
              forall i :: 0 <= i < |doc.css(query)| ==> r.value.items[i] == doc.text(doc.css(query)[i], strip)
    ensures card.Nth? && doc.cssMatches(query) ==>
              (r.Err? <==> !(-|doc.css(query)| <= card.index < |doc.css(query)|))
    ensures card.Nth? && doc.cssMatches(query) && 0 <= card.index < |doc.css(query)| ==>
              r == Ok(Str(doc.text(doc.css(query)[card.index], strip)))
    ensures card.Nth? && doc.cssMatches(query) && -|doc.css(query)| <= card.index < 0 ==>
              r == Ok(Str(doc.text(doc.css(query)[|doc.css(query)| + card.index], strip)))
    ensures card.First? && doc.cssMatches(query) && |doc.css(query)| > 0 ==>
              r == Ok(Str(doc.text(doc.css(query)[0], strip)))
  {
    if !doc.cssMatches(query) then Ok(Null)
    else
      var matches := doc.css(query);
      match card
      case All => Ok(List(Texts(doc, matches, strip)))
      case Nth(k) =>
        (match PyList.Index(|matches|, k)
         case None => Err(IndexOutOfRange)
         case Some(i) => Ok(Str(doc.text(matches[i], strip))))
      case First =>
        if |matches| == 0 then Err(IndexOutOfRange) else Ok(Str(doc.text(matches[0], strip)))
  }

  /** The code's truthiness tests on `all` and `order` implement the tagged
      cardinality of a validated rule: `order = 0` taking the first-match
      branch and `all = false` counting as absent change nothing. */
  lemma EvalFieldFollowsCardinality(doc: Document, rule: Rule)
    requires Valid(rule)
    ensures EvalField(doc, rule) == ExtractByCardinality(doc, rule.query, CardinalityOf(rule), rule.strip)
  {
  }

  /** A field's value depends only on its own rule and the document: two rule
      sets that give a name the same rule give it the same value whenever both
      evaluations succeed. */
  lemma FieldDependsOnlyOnItsRule(doc: Document, rules1: map<string, Rule>, rules2: map<string, Rule>, name: string)
    requires name in rules1 && name in rules2 && rules1[name] == rules2[name]
    requires Evaluate(doc, rules1).Ok? && Evaluate(doc, rules2).Ok?
    ensures Evaluate(doc, rules1).value[name] == Evaluate(doc, rules2).value[name]
  {
  }

  /** Adding or replacing one rule leaves every other field as it was: if the
      larger rule set evaluates, so does the smaller one, with the same values. */
  lemma AddingRuleKeepsOthers(doc: Document, rules: map<string, Rule>, name: string, rule: Rule)
    requires Evaluate(doc, rules[name := rule]).Ok?
    ensures Evaluate(doc, rules - {name}).Ok?
    ensures forall other :: other in rules && other != name ==>
              Evaluate(doc, rules[name := rule]).value[other] == Evaluate(doc, rules - {name}).value[other]
  {
    var larger, smaller := rules[name := rule], rules - {name};
    forall other | other in smaller
      ensures EvalField(doc, smaller[other]).Ok?
    {
      assert larger[other] == smaller[other];
    }
  }
}

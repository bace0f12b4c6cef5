/** The `/scrape` request as far as the core reaches: the request body's
    selectors are validated first (a rejected rule fails the body before any
    page is fetched), then the extraction runs over the parsed page. */
module ScrapeRequest {
  import opened Wrappers
  import opened SelectorRules
  import opened Documents
  import opened Extraction

  /** What the endpoint answers: `{"data": ...}`, a rejected request body
      naming the offending fields, or the server error an uncaught
      `IndexError` turns into. */
  datatype Response = Data(data: map<string, Value>) | Unprocessable(invalid: set<string>) | InternalError

  /** Validation of the `selectors` mapping: every rule goes through its
      validator, and the body is rejected, with every offending field name,
      as soon as one rule is rejected. */
  function ValidateSelectors(raws: map<string, Rule>): (r: Result<map<string, Rule>, set<string>>)
    ensures r.Ok? <==> forall name :: name in raws ==> Validate(raws[name]).Ok?
    ensures r.Ok? ==> r.value == raws
    ensures r.Err? ==> r.error != {}
    ensures r.Err? ==> forall name :: name in raws ==> (name in r.error <==> Validate(raws[name]).Err?)
    ensures r.Err? ==> r.error <= raws.Keys
  {
    var invalid := set name | name in raws && Validate(raws[name]).Err?;
    if invalid == {} then
      assert forall name :: name in raws && Validate(raws[name]).Err? ==> name in invalid;
      Ok(raws)
    else Err(invalid)
  }

  /** The request after the page has been fetched and parsed into `doc`. */
  function Handle(doc: Document, raws: map<string, Rule>): (resp: Response)
    ensures resp.Unprocessable? <==> exists name :: name in raws && !Valid(raws[name])
    ensures resp.Data? ==> resp.data.Keys == raws.Keys
    ensures resp.InternalError? ==>
              exists name :: name in raws && EvalField(doc, raws[name]) == Err(IndexOutOfRange)
  {
    match ValidateSelectors(raws)
    case Err(invalid) => Unprocessable(invalid)
    case Ok(rules) =>
      match Evaluate(doc, rules)
      case Ok(data) => Data(data)
      case Err(_) => InternalError
  }

  /** A rejected body is answered the same whatever the page holds: validation
      happens before any fetching or extraction. */
  lemma RejectedBodyIgnoresPage(doc1: Document, doc2: Document, raws: map<string, Rule>)
    requires exists name :: name in raws && raws[name].all.Some? && raws[name].order.Some?
    ensures Handle(doc1, raws) == Handle(doc2, raws)
    ensures Handle(doc1, raws).Unprocessable?
  {
  }

  /** A successful answer holds exactly one value per requested field, and
      each is the value that field's rule extracts on its own. */
  lemma AnswerCoversEveryField(doc: Document, raws: map<string, Rule>)
    requires Handle(doc, raws).Data?
    ensures Handle(doc, raws).data.Keys == raws.Keys
    ensures forall name :: name in raws ==>
              Evaluate(doc, map[name := raws[name]]) == Ok(map[name := Handle(doc, raws).data[name]])
  {
    var data := Handle(doc, raws).data;
    forall name | name in raws
      ensures Evaluate(doc, map[name := raws[name]]) == Ok(map[name := data[name]])
    {
      var single := map[name := raws[name]];
      assert EvalField(doc, raws[name]) == Ok(data[name]);
      assert Evaluate(doc, single).value == map[name := data[name]];
    }
  }
}

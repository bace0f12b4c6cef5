/** Worked requests against a small page: one `<h1>Hello</h1>` and three
    `.item` nodes with texts "a", "b" and "c". */
module Scenarios {
  import opened Wrappers
  import opened SelectorRules
  import opened Documents
  import opened Extraction
  import opened ScrapeRequest

  /** Node texts of the page; unstripped text keeps the markup's surrounding whitespace. */
  function PageText(n: Node, strip: bool): string {
    var t := if n.id == 0 then "Hello" else if n.id == 1 then "a" else if n.id == 2 then "b" else "c";
    if strip then t else " " + t + "\n"
  }

  function Page(): (doc: Document)
    ensures Consistent(doc)
  {
    FromMatches(map["h1" := [Node(0)], ".item" := [Node(1), Node(2), Node(3)]], PageText)
  }

  /** A rule with neither `all` nor `order` takes the first heading's text. */
  lemma HeadingTakesFirstMatch()
    ensures EvalField(Page(), DefaultRule("h1")) == Ok(Str("Hello"))
    ensures EvalField(Page(), DefaultRule("h1").(strip := false)) == Ok(Str(" Hello\n"))
  {
    assert Page().css("h1") == [Node(0)];
    assert PageText(Node(0), false) == " Hello\n";
  }

  /** `all = true` lists the three items in document order. */
  lemma ItemsListedInOrder()
    ensures EvalField(Page(), Rule(".item", Some(true), None, true)) == Ok(List(["a", "b", "c"]))
  {
    var ms := Page().css(".item");
    assert ms == [Node(1), Node(2), Node(3)];
    var texts := Texts(Page(), ms, true);
    assert texts[0] == "a" && texts[1] == "b" && texts[2] == "c";
    assert texts == ["a", "b", "c"];
  }

  /** `order = -1` takes the last item, `order = 5` fails the whole request,
      and a selector that matches nothing is `None` under any policy. */
  lemma OrderAndMissing(rule: Rule)
    requires rule.query == ".missing"
    ensures EvalField(Page(), Rule(".item", None, Some(-1), true)) == Ok(Str("c"))
    ensures Handle(Page(), map["title" := DefaultRule("h1"), "fifth" := Rule(".item", None, Some(5), true)]) == InternalError
    ensures EvalField(Page(), rule) == Ok(Null)
  {
    var raws := map["title" := DefaultRule("h1"), "fifth" := Rule(".item", None, Some(5), true)];
    assert EvalField(Page(), raws["fifth"]).Err?;
    assert ValidateSelectors(raws) == Ok(raws);
  }

  /** `all = false` with an `order` is rejected as well, before the page is looked at. */
  lemma AllFalseWithOrderRejected()
    ensures Handle(Page(), map["x" := Rule(".item", Some(false), Some(1), true)]) == Unprocessable({"x"})
  {
    var raws := map["x" := Rule(".item", Some(false), Some(1), true)];
    assert Validate(raws["x"]).Err?;
    var invalid := ValidateSelectors(raws).error;
    assert "x" in invalid && invalid <= {"x"};
    assert invalid == {"x"};
  }
}

/** The parsed page as an abstract collaborator: CSS matching, the ordered
    list of matched nodes, and the text of a node are uninterpreted. */
module Documents {

  /** A node of the parsed tree; only its identity matters here. */
  datatype Node = Node(id: nat)

  /** A parsed document: `cssMatches(q)` is the existence test, `css(q)` the
      matched nodes in document order, and `text(n, strip)` a node's text,
      with surrounding whitespace removed when `strip` holds. */
  datatype Document = Document(
    cssMatches: string -> bool,
    css: string -> seq<Node>,
    text: (Node, bool) -> string)

  /** The collaborator's promise: a selector matches exactly when its list of matches is non-empty. */
  ghost predicate Consistent(doc: Document) {
    forall q :: doc.cssMatches(q) <==> |doc.css(q)| > 0
  }

  /** A document built from a fixed table of matches, consistent by construction. */
  function FromMatches(matches: map<string, seq<Node>>, text: (Node, bool) -> string): (doc: Document)
    ensures Consistent(doc)
    ensures forall q :: q in matches ==> doc.css(q) == matches[q]
    ensures forall q :: q !in matches ==> doc.css(q) == []
  {
    Document(
      q => q in matches && |matches[q]| > 0,
      q => if q in matches then matches[q] else [],
      text)
  }
}

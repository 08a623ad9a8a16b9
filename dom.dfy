/** The parsed HTML document, seen only through the DOM queries the core
    uses. CSS selector matching and HTML parsing are not modelled: each query
    is a field of `Document`, so every lemma holds for every document and
    every selector engine. */
module Dom {
  import opened Wrappers

  /** A handle for one node of the parsed document. */
  datatype Element = Element(node: nat)

  datatype Document = Document(
    /** Whether the selector engine accepts the selector; a query with a
        selector it rejects throws a SyntaxError. */
    validSelector: string -> bool,
    /** `document.querySelectorAll(sel)`: the matches, in document order. */
    queryAll: string -> seq<Element>,
    /** `el.querySelector(sel)`: the first descendant of `el` that matches. */
    queryFirst: (Element, string) -> Option<Element>,
    /** `el.getAttribute(name)`, `None` when the attribute is absent. */
    getAttr: (Element, string) -> Option<string>,
    /** `el.textContent`. */
    text: Element -> string)

  /** `document.querySelector(sel)`: the first match in document order. */
  function FirstMatch(doc: Document, sel: string): (r: Option<Element>)
    ensures r.Some? <==> |doc.queryAll(sel)| > 0
    ensures r.Some? ==> r.value == doc.queryAll(sel)[0]
  {
    var all := doc.queryAll(sel);
    if |all| == 0 then None else Some(all[0])
  }
}

/**
 * The page as the scraper reads it. CSS selector matching is not modelled:
 * a document carries, for every selector string, the elements
 * `document.querySelectorAll` returns for it, in document order.
 */
module Dom {
  import opened Wrappers
  import opened Text

  datatype Element = Element(
    tagName: string,
    textContent: string,
    attributes: map<string, string>,
    nextElementSibling: Option<Element>)

  datatype Document = Document(querySelectorAll: string -> seq<Element>, body: Element)

  /** `document.querySelector(sel)`: the first element `querySelectorAll` returns, or null. */
  function QuerySelector(doc: Document, sel: string): Option<Element> {
    var els := doc.querySelectorAll(sel);
    if els == [] then None else Some(els[0])
  }

  /** `el.getAttribute(name)`, with a missing attribute read as `''`: the scraper only tests it for truthiness. */
  function GetAttribute(el: Element, name: string): string {
    if name in el.attributes then el.attributes[name] else ""
  }

  /** `el.textContent` of each element. */
  function TextContents(els: seq<Element>): (r: seq<string>)
    ensures |r| == |els| && forall i :: 0 <= i < |els| ==> r[i] == els[i].textContent
  {
    seq(|els|, i requires 0 <= i < |els| => els[i].textContent)
  }

  /** `el.textContent.trim()` of each element. */
  function TrimmedTexts(els: seq<Element>): (r: seq<string>)
    ensures |r| == |els| && forall i :: 0 <= i < |els| ==> r[i] == Trim(els[i].textContent)
  {
    seq(|els|, i requires 0 <= i < |els| => Trim(els[i].textContent))
  }

  /**
   * The trimmed text of every element each selector matches, selector after selector:
   * the order in which `for (selector of selectors) querySelectorAll(selector).forEach(...)` visits them.
   */
  function MatchedTexts(doc: Document, sels: seq<string>): seq<string>
    decreases |sels|
  {
    if sels == [] then []
    else TrimmedTexts(doc.querySelectorAll(sels[0])) + MatchedTexts(doc, sels[1..])
  }

  /** Every matched text is already trimmed. */
  lemma {:induction false} MatchedTextsTrimmed(doc: Document, sels: seq<string>)
    ensures forall t :: t in MatchedTexts(doc, sels) ==> Trim(t) == t
    decreases |sels|
  {
    if sels != [] {
      MatchedTextsTrimmed(doc, sels[1..]);
      var els := doc.querySelectorAll(sels[0]);
      forall i | 0 <= i < |els| ensures Trim(TrimmedTexts(els)[i]) == TrimmedTexts(els)[i] {
        TrimIdempotent(els[i].textContent);
      }
    }
  }
}

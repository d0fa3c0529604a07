/**
 * `extractIngredients`, `extractMaterials`, `extractPackaging` and
 * `extractSustainabilityNotes`: the extractors that search element texts for
 * a keyword pattern, keyword after keyword, and join what they find.
 */
module ScraperSnippets {
  import opened Wrappers
  import opened Text
  import opened Dom
  import opened Patterns

  const IngredientKeywords: seq<string> :=
    ["ingredients", "ingredientes", "components", "componentes", "contains"]

  const MaterialKeywords: seq<string> :=
    ["material", "materials", "made of", "fabricado", "materiales"]

  const PackagingKeywords: seq<string> :=
    ["packaging", "empaque", "embalaje", "package", "wrapping"]

  const SustainabilityKeywords: seq<string> :=
    ["sustainable", "sostenible", "eco-friendly", "ecológico", "green", "verde", "environment", "medio ambiente"]

  /* ---------- keyword snippets: ingredients and materials ---------- */

  /**
   * The trimmed capture of `kw[\s:]+([^\n]{min,max})` in the element's text; None when the
   * element has no text (the loop skips it) or the pattern does not match.
   */
  function CaptureIn(el: Element, kw: string, min: nat, max: nat): Option<string> {
    if el.textContent == "" then None
    else
      match FindSnippet(el.textContent, kw, min, max)
      case None => None
      case Some(c) => Some(Trim(c))
  }

  /** A capture the keyword loop keeps: non-empty and not found before. */
  predicate Fresh(capture: Option<string>, found: seq<string>) {
    capture.Some? && capture.value != "" && capture.value !in found
  }

  /** For one keyword: the capture of the first element, in order, whose capture is fresh. */
  function FreshCapture(els: seq<Element>, kw: string, min: nat, max: nat, found: seq<string>): Option<string>
    decreases |els|
  {
    if els == [] then None
    else if Fresh(CaptureIn(els[0], kw, min, max), found) then CaptureIn(els[0], kw, min, max)
    else FreshCapture(els[1..], kw, min, max, found)
  }

  /** One keyword's turn: skipped once `cap` entries are held, else the fresh capture is appended. */
  function SnippetStep(found: seq<string>, els: seq<Element>, kw: string, min: nat, max: nat, cap: nat): seq<string> {
    if |found| >= cap then found
    else
      match FreshCapture(els, kw, min, max, found)
      case None => found
      case Some(c) => found + [c]
  }

  /** The entries held after the turns of `kws`, starting from `found`. */
  function SnippetsFrom(found: seq<string>, els: seq<Element>, kws: seq<string>, min: nat, max: nat, cap: nat): seq<string>
    decreases |kws|
  {
    if kws == [] then found
    else SnippetsFrom(SnippetStep(found, els, kws[0], min, max, cap), els, kws[1..], min, max, cap)
  }

  /** A kept capture lies on one line, is at most `max` long and is already trimmed. */
  predicate LineSnippet(c: string, max: nat) {
    c != "" && |c| <= max && '\n' !in c && Trim(c) == c
  }

  lemma CaptureShape(el: Element, kw: string, min: nat, max: nat)
    requires min <= max && CaptureIn(el, kw, min, max).Some?
    ensures var c := CaptureIn(el, kw, min, max).value;
      |c| <= max && '\n' !in c && Trim(c) == c
  {
    var raw := FindSnippet(el.textContent, kw, min, max).value;
    FindSnippetShape(el.textContent, kw, min, max);
    TrimIdempotent(raw);
  }

  /**
   * `FreshCapture` is the capture of element `k`, the first element whose capture is
   * fresh, or None (`k == |els|`) when no element has one.
   */
  lemma {:induction false} FreshCaptureIsFirst(els: seq<Element>, kw: string, min: nat, max: nat, found: seq<string>)
    returns (k: nat)
    ensures k <= |els|
    ensures forall j :: 0 <= j < k ==> !Fresh(CaptureIn(els[j], kw, min, max), found)
    ensures k < |els| ==>
      Fresh(CaptureIn(els[k], kw, min, max), found) &&
      FreshCapture(els, kw, min, max, found) == CaptureIn(els[k], kw, min, max)
    ensures k == |els| ==> FreshCapture(els, kw, min, max, found).None?
    decreases |els|
  {
    if els == [] {
      k := 0;
    } else if Fresh(CaptureIn(els[0], kw, min, max), found) {
      k := 0;
    } else {
      var k1 := FreshCaptureIsFirst(els[1..], kw, min, max, found);
      k := k1 + 1;
      forall j | 0 <= j < k ensures !Fresh(CaptureIn(els[j], kw, min, max), found) {
        if j > 0 {
          assert els[j] == els[1..][j - 1];
        }
      }
    }
  }

  /**
   * From distinct entries within the cap, the turns keep the entries distinct, keep the
   * ones already held as a prefix, add at most one per keyword and never pass the cap,
   * and every added entry is a one-line capture of at most `max` characters.
   */
  lemma {:induction false} SnippetsFromShape(found: seq<string>, els: seq<Element>, kws: seq<string>, min: nat, max: nat, cap: nat)
    requires min <= max && NoDuplicates(found) && |found| <= cap
    ensures var r := SnippetsFrom(found, els, kws, min, max, cap);
      NoDuplicates(r) && found <= r && |r| <= cap && |r| <= |found| + |kws| &&
      forall t :: t in r ==> t in found || LineSnippet(t, max)
    decreases |kws|
  {
    if kws != [] {
      var next := SnippetStep(found, els, kws[0], min, max, cap);
      if |found| < cap {
        var k := FreshCaptureIsFirst(els, kws[0], min, max, found);
        if k < |els| {
          CaptureShape(els[k], kws[0], min, max);
        }
      }
      SnippetsFromShape(next, els, kws[1..], min, max, cap);
    }
  }

  /** The inner loop: elements in order, skipping those without text, until a fresh capture. */
  method SearchKeyword(els: seq<Element>, kw: string, min: nat, max: nat, found: seq<string>)
    returns (capture: Option<string>)
    ensures capture == FreshCapture(els, kw, min, max, found)
  {
    for j := 0 to |els|
      invariant FreshCapture(els[j..], kw, min, max, found) == FreshCapture(els, kw, min, max, found)
    {
      assert els[j..][1..] == els[j + 1..];
      var text := els[j].textContent;
      if text == "" {
        continue;
      }
      var m := FindSnippet(text, kw, min, max);
      if m.Some? {
        var c := Trim(m.value);
        if c != "" && c !in found {
          return Some(c);
        }
      }
    }
    return None;
  }

  /** The keyword loop shared by ingredients and materials. */
  method CollectSnippets(els: seq<Element>, kws: seq<string>, min: nat, max: nat, cap: nat)
    returns (found: seq<string>)
    ensures found == SnippetsFrom([], els, kws, min, max, cap)
  {
    found := [];
    for i := 0 to |kws|
      invariant SnippetsFrom(found, els, kws[i..], min, max, cap) == SnippetsFrom([], els, kws, min, max, cap)
    {
      assert kws[i..][1..] == kws[i + 1..];
      if |found| >= cap {
        continue;
      }
      var capture := SearchKeyword(els, kws[i], min, max, found);
      if capture.Some? {
        found := found + [capture.value];
      }
    }
  }

  /** Structured-data matches first, then the usual containers, then the whole body. */
  function IngredientElements(doc: Document): seq<Element> {
    doc.querySelectorAll("[itemprop=\"ingredients\"]") +
    doc.querySelectorAll(".ingredients, #ingredients, [data-ingredients]") +
    [doc.body]
  }

  /** The ingredient entries: one fresh capture of 50 to 500 characters per keyword, at most 3. */
  function Ingredients(doc: Document): seq<string> {
    SnippetsFrom([], IngredientElements(doc), IngredientKeywords, 50, 500, 3)
  }

  method ExtractIngredients(doc: Document) returns (r: string)
    ensures r == Prefix(Join(Ingredients(doc), " "), 500)
  {
    var found := CollectSnippets(IngredientElements(doc), IngredientKeywords, 50, 500, 3);
    r := Prefix(Join(found, " "), 500);
  }

  /** At most 3 distinct ingredient entries, each a trimmed one-line capture of at most 500 characters. */
  lemma IngredientsShape(doc: Document)
    ensures var r := Ingredients(doc);
      |r| <= 3 && NoDuplicates(r) && forall t :: t in r ==> LineSnippet(t, 500)
  {
    SnippetsFromShape([], IngredientElements(doc), IngredientKeywords, 50, 500, 3);
  }

  function MaterialElements(doc: Document): seq<Element> {
    doc.querySelectorAll("[itemprop=\"material\"]") +
    doc.querySelectorAll(".materials, #materials, [data-material], [data-materials]") +
    [doc.body]
  }

  /** `el.getAttribute('data-material') || el.getAttribute('data-materials')`, a missing attribute read as `''`. */
  function AttributeMaterial(el: Element): string {
    var single := GetAttribute(el, "data-material");
    if single != "" then single else GetAttribute(el, "data-materials")
  }

  /** The attribute loop: each non-empty attribute value not held yet is appended, untrimmed. */
  function AttributeMaterialsFrom(found: seq<string>, els: seq<Element>): seq<string>
    decreases |els|
  {
    if els == [] then found
    else
      var m := AttributeMaterial(els[0]);
      AttributeMaterialsFrom(if m != "" && m !in found then found + [m] else found, els[1..])
  }

  /** The first 10 elements carrying a material attribute. */
  function MaterialAttributeElements(doc: Document): seq<Element> {
    var all := doc.querySelectorAll("[data-material], [data-materials]");
    all[..Min(|all|, 10)]
  }

  /** The material entries: up to 5 keyword captures of 20 to 300 characters, then attribute values. */
  function Materials(doc: Document): seq<string> {
    var fromText := SnippetsFrom([], MaterialElements(doc), MaterialKeywords, 20, 300, 5);
    AttributeMaterialsFrom(fromText, MaterialAttributeElements(doc))
  }

  /**
   * The attribute loop keeps entries distinct, keeps what was held as a prefix, adds at
   * most one entry per element, adds only non-empty attribute values of those elements,
   * and leaves none of those values out.
   */
  lemma {:induction false} AttributeMaterialsShape(found: seq<string>, els: seq<Element>)
    requires NoDuplicates(found)
    ensures var r := AttributeMaterialsFrom(found, els);
      NoDuplicates(r) && found <= r && |r| <= |found| + |els| &&
      (forall t :: t in r ==> t in found || (t != "" && exists k :: 0 <= k < |els| && t == AttributeMaterial(els[k]))) &&
      (forall k :: 0 <= k < |els| && AttributeMaterial(els[k]) != "" ==> AttributeMaterial(els[k]) in r)
    decreases |els|
  {
    if els != [] {
      var m := AttributeMaterial(els[0]);
      var next := if m != "" && m !in found then found + [m] else found;
      AttributeMaterialsShape(next, els[1..]);
      var r := AttributeMaterialsFrom(found, els);
      forall t | t in r && t !in found
        ensures t != "" && exists k :: 0 <= k < |els| && t == AttributeMaterial(els[k])
      {
        if t in next {
          assert t == AttributeMaterial(els[0]);
        } else {
          var k :| 0 <= k < |els[1..]| && t == AttributeMaterial(els[1..][k]);
          assert els[1..][k] == els[k + 1];
        }
      }
      forall k | 0 <= k < |els| && AttributeMaterial(els[k]) != ""
        ensures AttributeMaterial(els[k]) in r
      {
        if k > 0 {
          assert els[1..][k - 1] == els[k];
        } else {
          assert m in next;
        }
      }
    }
  }

  method ExtractMaterials(doc: Document) returns (r: string)
    ensures r == Prefix(Join(Materials(doc), " "), 500)
  {
    var materials := CollectSnippets(MaterialElements(doc), MaterialKeywords, 20, 300, 5);
    var dataElements := doc.querySelectorAll("[data-material], [data-materials]");
    var maxDataElements := Min(|dataElements|, 10);
    ghost var scanned := dataElements[..maxDataElements];
    for i := 0 to maxDataElements
      invariant AttributeMaterialsFrom(materials, scanned[i..]) == Materials(doc)
    {
      assert scanned[i..][1..] == scanned[i + 1..];
      var el := dataElements[i];
      var material := GetAttribute(el, "data-material");
      if material == "" {
        material := GetAttribute(el, "data-materials");
      }
      if material != "" && material !in materials {
        materials := materials + [material];
      }
    }
    r := Prefix(Join(materials, " "), 500);
  }

  /**
   * At most 15 distinct material entries: the first `n`, at most 5, are keyword captures,
   * each a trimmed one-line capture of at most 300 characters; the rest are non-empty
   * attribute values of the first 10 attribute-carrying elements, every such value included.
   */
  lemma MaterialsShape(doc: Document) returns (n: nat)
    ensures var r := Materials(doc); var attrs := MaterialAttributeElements(doc);
      |r| <= 15 && NoDuplicates(r) && n <= 5 && n <= |r| &&
      (forall i :: 0 <= i < n ==> LineSnippet(r[i], 300)) &&
      (forall i :: n <= i < |r| ==>
         r[i] != "" && exists k :: 0 <= k < |attrs| && r[i] == AttributeMaterial(attrs[k])) &&
      (forall k :: 0 <= k < |attrs| && AttributeMaterial(attrs[k]) != "" ==> AttributeMaterial(attrs[k]) in r)
  {
    var fromText := SnippetsFrom([], MaterialElements(doc), MaterialKeywords, 20, 300, 5);
    SnippetsFromShape([], MaterialElements(doc), MaterialKeywords, 20, 300, 5);
    AttributeMaterialsShape(fromText, MaterialAttributeElements(doc));
    n := |fromText|;
    var r := Materials(doc);
    forall i | 0 <= i < n ensures LineSnippet(r[i], 300) {
      assert r[i] == fromText[i];
      assert fromText[i] in fromText;
    }
    forall i | n <= i < |r| ensures r[i] !in fromText {
      forall j | 0 <= j < n ensures fromText[j] != r[i] {
        assert r[j] == fromText[j];
      }
    }
  }

  /* ---------- packaging ---------- */

  /** The capture of each keyword's pattern in the text, keyword by keyword. */
  function PackagingCaptures(text: string, kws: seq<string>): seq<Option<string>> {
    seq(|kws|, i requires 0 <= i < |kws| => FindSnippet(text, kws[i], 20, 300))
  }

  /** Every capture that is there is appended trimmed, kept even when empty or repeated. */
  function PackagingFrom(found: seq<string>, caps: seq<Option<string>>): seq<string>
    decreases |caps|
  {
    if caps == [] then found
    else
      PackagingFrom(if caps[0].Some? then found + [Trim(caps[0].value)] else found, caps[1..])
  }

  /** The packaging entries found for the keywords `kws` in `text`. */
  function PackagingIn(text: string, kws: seq<string>): seq<string> {
    PackagingFrom([], PackagingCaptures(text, kws))
  }

  function Packaging(doc: Document): seq<string> {
    PackagingIn(doc.body.textContent, PackagingKeywords)
  }

  method ExtractPackaging(doc: Document) returns (r: string)
    ensures r == Join(Packaging(doc), " ")
  {
    var packaging := [];
    var text := doc.body.textContent;
    ghost var caps := PackagingCaptures(text, PackagingKeywords);
    for i := 0 to |PackagingKeywords|
      invariant PackagingFrom(packaging, caps[i..]) == Packaging(doc)
    {
      assert caps[i..][1..] == caps[i + 1..];
      var m := FindSnippet(text, PackagingKeywords[i], 20, 300);
      assert m == caps[i..][0];
      if m.Some? {
        packaging := packaging + [Trim(m.value)];
      }
    }
    r := Join(packaging, " ");
  }

  /** The positions of the captures that are there, in order. */
  function PresentIndices(caps: seq<Option<string>>): (idx: seq<nat>)
    ensures forall k :: 0 <= k < |idx| ==> idx[k] < |caps| && caps[idx[k]].Some?
    decreases |caps|
  {
    if caps == [] then []
    else
      var rest := PresentIndices(caps[1..]);
      assert forall k :: 0 <= k < |rest| ==> caps[rest[k] + 1] == caps[1..][rest[k]];
      if caps[0].Some? then [0] + Shifted(rest) else Shifted(rest)
  }

  /** The positions are strictly increasing. */
  lemma {:induction false} PresentIndicesIncreasing(caps: seq<Option<string>>)
    ensures StrictlyIncreasing(PresentIndices(caps))
    decreases |caps|
  {
    if caps != [] {
      PresentIndicesIncreasing(caps[1..]);
      ShiftedIncreasing(PresentIndices(caps[1..]));
    }
  }

  /** Every capture that is there has its position among the positions. */
  lemma {:induction false} PresentIndicesComplete(caps: seq<Option<string>>)
    ensures forall i :: 0 <= i < |caps| && caps[i].Some? ==> i in PresentIndices(caps)
    decreases |caps|
  {
    if caps != [] {
      var rest := PresentIndices(caps[1..]);
      PresentIndicesComplete(caps[1..]);
      var shifted := Shifted(rest);
      var idx := PresentIndices(caps);
      assert idx == if caps[0].Some? then [0] + shifted else shifted;
      forall i | 0 <= i < |caps| && caps[i].Some? ensures i in idx {
        if i == 0 {
          assert idx[0] == 0;
        } else {
          assert caps[1..][i - 1] == caps[i];
          var j :| 0 <= j < |rest| && rest[j] == i - 1;
          assert shifted[j] == i;
        }
      }
    }
  }

  /** The trimmed captures that are there, in order. */
  function PresentEntries(caps: seq<Option<string>>): seq<string>
    decreases |caps|
  {
    if caps == [] then []
    else (if caps[0].Some? then [Trim(caps[0].value)] else []) + PresentEntries(caps[1..])
  }

  /** The entries are the trimmed captures at the positions `PresentIndices`. */
  lemma {:induction false} PresentEntriesAt(caps: seq<Option<string>>)
    ensures var idx := PresentIndices(caps); var e := PresentEntries(caps);
      |e| == |idx| && forall k :: 0 <= k < |idx| ==> e[k] == Trim(caps[idx[k]].value)
    decreases |caps|
  {
    if caps != [] {
      var rest := PresentIndices(caps[1..]);
      var later := PresentEntries(caps[1..]);
      PresentEntriesAt(caps[1..]);
      var idx := PresentIndices(caps);
      var e := PresentEntries(caps);
      if caps[0].Some? {
        assert idx == [0] + Shifted(rest);
        assert e == [Trim(caps[0].value)] + later;
        forall k | 1 <= k < |idx| ensures e[k] == Trim(caps[idx[k]].value) {
          assert e[k] == later[k - 1];
          assert idx[k] == rest[k - 1] + 1;
          assert caps[idx[k]] == caps[1..][rest[k - 1]];
        }
      } else {
        assert idx == Shifted(rest);
        assert e == later;
        forall k | 0 <= k < |idx| ensures e[k] == Trim(caps[idx[k]].value) {
          assert idx[k] == rest[k] + 1;
          assert caps[idx[k]] == caps[1..][rest[k]];
        }
      }
    }
  }

  /**
   * Exactly one entry per capture that is there, in order, kept when empty or repeated
   * and without a cap: the fold appends `PresentEntries` to what it holds.
   */
  lemma {:induction false} PackagingFromEntries(found: seq<string>, caps: seq<Option<string>>)
    ensures PackagingFrom(found, caps) == found + PresentEntries(caps)
    decreases |caps|
  {
    if caps != [] {
      var later := PresentEntries(caps[1..]);
      if caps[0].Some? {
        var head := [Trim(caps[0].value)];
        PackagingFromEntries(found + head, caps[1..]);
        assert PackagingFrom(found, caps) == PackagingFrom(found + head, caps[1..]);
        assert PresentEntries(caps) == head + later;
        assert found + head + later == found + (head + later);
      } else {
        PackagingFromEntries(found, caps[1..]);
        assert PackagingFrom(found, caps) == PackagingFrom(found, caps[1..]);
        assert PresentEntries(caps) == later;
      }
    } else {
      assert PresentEntries(caps) == [];
    }
  }

  /**
   * One entry per packaging keyword whose pattern matches the body text, in keyword
   * order, with no cap: entry `k` is the trimmed capture of keyword `idx[k]`, a line of at
   * most 300 characters.
   */
  lemma PackagingShape(text: string, kws: seq<string>) returns (idx: seq<nat>)
    ensures var r := PackagingIn(text, kws);
      |r| == |idx| && StrictlyIncreasing(idx) &&
      (forall k :: 0 <= k < |idx| ==>
        idx[k] < |kws| && FindSnippet(text, kws[idx[k]], 20, 300).Some? &&
        r[k] == Trim(FindSnippet(text, kws[idx[k]], 20, 300).value)) &&
      (forall i :: 0 <= i < |kws| && FindSnippet(text, kws[i], 20, 300).Some? ==> i in idx) &&
      (forall k :: 0 <= k < |r| ==> |r[k]| <= 300 && '\n' !in r[k] && Trim(r[k]) == r[k])
  {
    var caps := PackagingCaptures(text, kws);
    idx := PresentIndices(caps);
    PresentIndicesIncreasing(caps);
    PresentIndicesComplete(caps);
    PackagingFromEntries([], caps);
    PresentEntriesAt(caps);
    var r := PackagingIn(text, kws);
    assert [] + PresentEntries(caps) == PresentEntries(caps);
    forall k | 0 <= k < |r| ensures |r[k]| <= 300 && '\n' !in r[k] && Trim(r[k]) == r[k] {
      var c := caps[idx[k]].value;
      FindSnippetShape(text, kws[idx[k]], 20, 300);
      TrimIdempotent(c);
    }
  }

  /**
   * Unlike the other keyword extractors, packaging keeps repeats: two captures that trim
   * to the same text give two equal entries.
   */
  lemma PackagingKeepsRepeats(caps: seq<Option<string>>, i: int, j: int)
    requires 0 <= i < j < |caps| && caps[i].Some? && caps[j].Some?
    requires Trim(caps[i].value) == Trim(caps[j].value)
    ensures !NoDuplicates(PackagingFrom([], caps))
  {
    var r := PackagingFrom([], caps);
    var idx := PresentIndices(caps);
    var e := PresentEntries(caps);
    assert r == e by {
      PackagingFromEntries([], caps);
      assert [] + e == e;
    }
    var a := Position(caps, i);
    var b := Position(caps, j);
    assert a < b by {
      PresentIndicesIncreasing(caps);
    }
    PresentEntriesAt(caps);
    assert e[a] == Trim(caps[i].value) && e[b] == Trim(caps[j].value);
  }

  /** Where a capture that is there stands among the present positions. */
  lemma Position(caps: seq<Option<string>>, i: int) returns (a: nat)
    requires 0 <= i < |caps| && caps[i].Some?
    ensures a < |PresentIndices(caps)| && PresentIndices(caps)[a] == i
  {
    PresentIndicesComplete(caps);
    var idx := PresentIndices(caps);
    a :| 0 <= a < |idx| && idx[a] == i;
  }

  /* ---------- sustainability notes ---------- */

  /** The first match of `[^.]*kw[^.]*\.` in the element's text; None when the element has no text. */
  function SentenceIn(el: Element, kw: string): Option<string> {
    if el.textContent == "" then None else FindSentence(el.textContent, kw)
  }

  /** For one keyword: the sentence of the first element, in order, that has one. */
  function FirstSentence(els: seq<Element>, kw: string): Option<string>
    decreases |els|
  {
    if els == [] then None
    else if SentenceIn(els[0], kw).Some? then SentenceIn(els[0], kw)
    else FirstSentence(els[1..], kw)
  }

  /**
   * One keyword's turn: skipped once 3 notes are held; otherwise the first element with a
   * sentence ends the search, and its trimmed sentence is appended unless already held.
   */
  function NoteStep(notes: seq<string>, els: seq<Element>, kw: string): seq<string> {
    if |notes| >= 3 then notes
    else
      match FirstSentence(els, kw)
      case None => notes
      case Some(m) => if Trim(m) in notes then notes else notes + [Trim(m)]
  }

  function NotesFrom(notes: seq<string>, els: seq<Element>, kws: seq<string>): seq<string>
    decreases |kws|
  {
    if kws == [] then notes else NotesFrom(NoteStep(notes, els, kws[0]), els, kws[1..])
  }

  /** The sustainability containers, then paragraphs and description blocks, then the body: the first 30. */
  function SustainabilityElements(doc: Document): seq<Element> {
    var all := doc.querySelectorAll(".sustainability, #sustainability, [data-sustainability]") +
      doc.querySelectorAll("p, .description, .product-info") +
      [doc.body];
    all[..Min(|all|, 30)]
  }

  function SustainabilityNotes(doc: Document): seq<string> {
    NotesFrom([], SustainabilityElements(doc), SustainabilityKeywords)
  }

  /** A note is one trimmed sentence: it ends with its only dot. */
  predicate Sentence(t: string) {
    OneDotAtEnd(t) && Trim(t) == t
  }

  /**
   * `FirstSentence` is the sentence of element `k`, the first element that has one, or
   * None (`k == |els|`) when no element has one.
   */
  lemma {:induction false} FirstSentenceIsFirst(els: seq<Element>, kw: string) returns (k: nat)
    ensures k <= |els|
    ensures forall j :: 0 <= j < k ==> SentenceIn(els[j], kw).None?
    ensures k < |els| ==> SentenceIn(els[k], kw).Some? && FirstSentence(els, kw) == SentenceIn(els[k], kw)
    ensures k == |els| ==> FirstSentence(els, kw).None?
    decreases |els|
  {
    if els == [] || SentenceIn(els[0], kw).Some? {
      k := 0;
    } else {
      var k1 := FirstSentenceIsFirst(els[1..], kw);
      k := k1 + 1;
      forall j | 0 <= j < k ensures SentenceIn(els[j], kw).None? {
        if j > 0 {
          assert els[j] == els[1..][j - 1];
        }
      }
    }
  }

  /** A trimmed sentence is still one sentence. */
  lemma TrimmedSentence(m: string)
    requires OneDotAtEnd(m)
    ensures Sentence(Trim(m))
  {
    TrimKeepsLast(m);
    var k :| 0 <= k < |m| && Trim(m) == m[k..];
    var t := Trim(m);
    forall i | 0 <= i < |t| - 1 ensures t[i] != '.' {
      assert t[i] == m[k + i];
    }
    TrimIdempotent(m);
  }

  /**
   * From distinct notes, at most 3, the turns keep them distinct, keep what was held as a
   * prefix, add at most one per keyword, never pass 3, and add only trimmed sentences.
   */
  lemma {:induction false} NotesFromShape(notes: seq<string>, els: seq<Element>, kws: seq<string>)
    requires NoDuplicates(notes) && |notes| <= 3
    ensures var r := NotesFrom(notes, els, kws);
      NoDuplicates(r) && notes <= r && |r| <= 3 && |r| <= |notes| + |kws| &&
      forall t :: t in r ==> t in notes || Sentence(t)
    decreases |kws|
  {
    if kws != [] {
      var next := NoteStep(notes, els, kws[0]);
      if |notes| < 3 {
        var k := FirstSentenceIsFirst(els, kws[0]);
        if k < |els| {
          FindSentenceShape(els[k].textContent, kws[0]);
          TrimmedSentence(SentenceIn(els[k], kws[0]).value);
        }
      }
      NotesFromShape(next, els, kws[1..]);
    }
  }

  method SearchSentence(els: seq<Element>, kw: string) returns (sentence: Option<string>)
    ensures sentence == FirstSentence(els, kw)
  {
    for j := 0 to |els|
      invariant FirstSentence(els[j..], kw) == FirstSentence(els, kw)
    {
      assert els[j..][1..] == els[j + 1..];
      var text := els[j].textContent;
      if text == "" {
        continue;
      }
      var m := FindSentence(text, kw);
      if m.Some? {
        return m;
      }
    }
    return None;
  }

  method ExtractSustainabilityNotes(doc: Document) returns (r: string)
    ensures r == Prefix(Join(SustainabilityNotes(doc), " "), 300)
  {
    var notes := [];
    var limitedElements := SustainabilityElements(doc);
    for i := 0 to |SustainabilityKeywords|
      invariant NotesFrom(notes, limitedElements, SustainabilityKeywords[i..]) == SustainabilityNotes(doc)
    {
      assert SustainabilityKeywords[i..][1..] == SustainabilityKeywords[i + 1..];
      if |notes| >= 3 {
        continue;
      }
      var m := SearchSentence(limitedElements, SustainabilityKeywords[i]);
      if m.Some? {
        var note := Trim(m.value);
        if note !in notes {
          notes := notes + [note];
        }
      }
    }
    r := Prefix(Join(notes, " "), 300);
  }

  /** At most 3 distinct notes, each one trimmed sentence ending with its only dot. */
  lemma SustainabilityNotesShape(doc: Document)
    ensures var r := SustainabilityNotes(doc);
      |r| <= 3 && NoDuplicates(r) && forall t :: t in r ==> Sentence(t)
  {
    NotesFromShape([], SustainabilityElements(doc), SustainabilityKeywords);
  }
}

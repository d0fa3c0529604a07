/**
 * `extractTitle`, `extractDescription` and `extractBulletPoints`: the
 * extractors that read whole element texts from prioritised selector lists.
 */
module ScraperFields {
  import opened Wrappers
  import opened Text
  import opened Dom

  const TitleSelectors: seq<string> := [
    "h1[itemprop=\"name\"]", "h1.product-title", "h1.product-name",
    "h1#product-title", "[data-product-title]", "h1"]

  const DescriptionSelectors: seq<string> := [
    "[itemprop=\"description\"]", ".product-description", "#product-description",
    "[data-product-description]", ".product-details", "#product-details"]

  const BulletSelectors: seq<string> := [
    "ul.product-features li", "ul.features li", "ul.bullets li",
    "[data-features] li", ".product-specs li", "ul li"]

  /** The trimmed text of `querySelector(sel)`, or `''` when nothing matches. */
  function FirstMatchText(doc: Document, sel: string): string {
    match QuerySelector(doc, sel)
    case None => ""
    case Some(el) => Trim(el.textContent)
  }

  /**
   * First match wins: `title` is the trimmed text of the first match of the first selector
   * whose first match has text, and `''` when none has.
   */
  predicate FirstNonEmptyMatch(doc: Document, sels: seq<string>, title: string) {
    (title == "" <==> forall k :: 0 <= k < |sels| ==> FirstMatchText(doc, sels[k]) == "") &&
    (title != "" ==>
      exists k :: 0 <= k < |sels| && title == FirstMatchText(doc, sels[k]) &&
        forall j :: 0 <= j < k ==> FirstMatchText(doc, sels[j]) == "")
  }

  /** The first-match-wins loop of `extractTitle` over a selector list. */
  method FirstMatchingText(doc: Document, sels: seq<string>) returns (title: string)
    ensures FirstNonEmptyMatch(doc, sels, title)
    ensures Trim(title) == title
  {
    for i := 0 to |sels|
      invariant forall j :: 0 <= j < i ==> FirstMatchText(doc, sels[j]) == ""
    {
      var element := QuerySelector(doc, sels[i]);
      if element.Some? && Trim(element.value.textContent) != "" {
        title := Trim(element.value.textContent);
        TrimIdempotent(element.value.textContent);
        return;
      }
    }
    title := "";
  }

  method ExtractTitle(doc: Document) returns (title: string)
    ensures FirstNonEmptyMatch(doc, TitleSelectors, title)
  {
    title := FirstMatchingText(doc, TitleSelectors);
  }

  /** One step of the description scan: a text replaces the kept one only when it is non-empty and strictly longer. */
  function Longer(kept: string, t: string): string {
    if t != "" && |t| > |kept| then t else kept
  }

  /** The text the description scan keeps after visiting `texts`, starting from `kept`. */
  function LongestFrom(kept: string, texts: seq<string>): string
    decreases |texts|
  {
    if texts == [] then kept else LongestFrom(Longer(kept, texts[0]), texts[1..])
  }

  lemma {:induction false} LongestFromAppend(kept: string, a: seq<string>, b: seq<string>)
    ensures LongestFrom(kept, a + b) == LongestFrom(LongestFrom(kept, a), b)
    decreases |a|
  {
    if a == [] {
      assert a + b == b;
    } else {
      assert (a + b)[1..] == a[1..] + b;
      LongestFromAppend(Longer(kept, a[0]), a[1..], b);
    }
  }

  /**
   * The scan never shortens the kept text and ends with one at least as long as every
   * visited text; it ends empty exactly when it started empty and saw only empty texts;
   * and a text it ends with that it did not start with is the first visited text of that
   * length.
   */
  lemma {:induction false} LongestFromShape(kept: string, texts: seq<string>)
    ensures var r := LongestFrom(kept, texts);
      |kept| <= |r| &&
      (forall j :: 0 <= j < |texts| ==> |texts[j]| <= |r|) &&
      (r == "" <==> kept == "" && forall j :: 0 <= j < |texts| ==> texts[j] == "") &&
      (r != kept ==>
        exists k :: 0 <= k < |texts| && texts[k] == r && |kept| < |r| &&
          forall j :: 0 <= j < k ==> |texts[j]| < |r|)
    decreases |texts|
  {
    if texts != [] {
      var next := Longer(kept, texts[0]);
      var rest := texts[1..];
      LongestFromShape(next, rest);
      var r := LongestFrom(next, rest);
      assert forall j :: 0 < j < |texts| ==> texts[j] == rest[j - 1];
      if r != kept {
        if r != next {
          var k :| 0 <= k < |rest| && rest[k] == r && |next| < |r| &&
            forall j :: 0 <= j < k ==> |rest[j]| < |r|;
          assert texts[k + 1] == r;
        } else {
          assert texts[0] == r;
        }
      }
    }
  }

  /** The trimmed text of the element right after the first `h1`, when that element is a `P`. */
  function ParagraphAfterHeading(doc: Document): string {
    match QuerySelector(doc, "h1")
    case None => ""
    case Some(h) =>
      match h.nextElementSibling
      case None => ""
      case Some(next) => if next.tagName == "P" then Trim(next.textContent) else ""
  }

  /** The inner loop of the description scan, over the matches of one selector. */
  method KeepLongest(elements: seq<Element>, kept: string) returns (r: string)
    ensures r == LongestFrom(kept, TrimmedTexts(elements))
  {
    r := kept;
    ghost var texts := TrimmedTexts(elements);
    for j := 0 to |elements|
      invariant LongestFrom(r, texts[j..]) == LongestFrom(kept, texts)
    {
      var text := Trim(elements[j].textContent);
      assert texts[j..][1..] == texts[j + 1..];
      if text != "" && |text| > |r| {
        r := text;
      }
    }
  }

  /**
   * The loop of `extractDescription` over a selector list: the description scan over all
   * matches of all the selectors, in order.
   */
  method LongestMatchedText(doc: Document, sels: seq<string>) returns (description: string)
    ensures description == LongestFrom("", MatchedTexts(doc, sels))
  {
    description := "";
    for i := 0 to |sels|
      invariant LongestFrom(description, MatchedTexts(doc, sels[i..])) == LongestFrom("", MatchedTexts(doc, sels))
    {
      assert sels[i..][1..] == sels[i + 1..];
      var elements := doc.querySelectorAll(sels[i]);
      LongestFromAppend(description, TrimmedTexts(elements), MatchedTexts(doc, sels[i + 1..]));
      description := KeepLongest(elements, description);
    }
  }

  /**
   * The description is the longest non-empty trimmed text over all matches of all the
   * description selectors, the earliest among equally long ones; when every one is
   * empty, the paragraph right after the first heading.
   */
  predicate IsDescription(doc: Document, description: string) {
    var texts := MatchedTexts(doc, DescriptionSelectors);
    if exists k :: 0 <= k < |texts| && texts[k] != "" then
      description != "" &&
      (forall j :: 0 <= j < |texts| ==> |texts[j]| <= |description|) &&
      exists k :: 0 <= k < |texts| && texts[k] == description &&
        forall j :: 0 <= j < k ==> |texts[j]| < |description|
    else
      description == ParagraphAfterHeading(doc)
  }

  method ExtractDescription(doc: Document) returns (description: string)
    ensures IsDescription(doc, description)
  {
    description := LongestMatchedText(doc, DescriptionSelectors);
    LongestFromShape("", MatchedTexts(doc, DescriptionSelectors));
    if description == "" {
      var title := QuerySelector(doc, "h1");
      if title.Some? {
        var nextSibling := title.value.nextElementSibling;
        if nextSibling.Some? && nextSibling.value.tagName == "P" {
          description := Trim(nextSibling.value.textContent);
        }
      }
    }
  }

  /** A bullet is kept when it is non-empty and shorter than 200 characters. */
  predicate Eligible(t: string) {
    t != "" && |t| < 200
  }

  /** One step of the bullet scan: an eligible text not yet collected is appended. */
  function AddBullet(bullets: seq<string>, t: string): seq<string> {
    if Eligible(t) && t !in bullets then bullets + [t] else bullets
  }

  /** The bullets the scan holds after visiting `texts`, starting from `bullets`. */
  function BulletsFrom(bullets: seq<string>, texts: seq<string>): seq<string>
    decreases |texts|
  {
    if texts == [] then bullets else BulletsFrom(AddBullet(bullets, texts[0]), texts[1..])
  }

  lemma {:induction false} BulletsFromAppend(bullets: seq<string>, a: seq<string>, b: seq<string>)
    ensures BulletsFrom(bullets, a + b) == BulletsFrom(BulletsFrom(bullets, a), b)
    decreases |a|
  {
    if a == [] {
      assert a + b == b;
    } else {
      assert (a + b)[1..] == a[1..] + b;
      BulletsFromAppend(AddBullet(bullets, a[0]), a[1..], b);
    }
  }

  /** The scan only appends: what it held before is a prefix of what it holds after. */
  lemma {:induction false} BulletsFromExtends(bullets: seq<string>, texts: seq<string>)
    ensures bullets <= BulletsFrom(bullets, texts)
    decreases |texts|
  {
    if texts != [] {
      BulletsFromExtends(AddBullet(bullets, texts[0]), texts[1..]);
    }
  }

  /**
   * Starting from distinct bullets, the scan keeps them distinct, adds only eligible
   * visited texts and leaves out no eligible visited text.
   */
  lemma {:induction false} BulletsFromShape(bullets: seq<string>, texts: seq<string>)
    requires NoDuplicates(bullets)
    ensures var r := BulletsFrom(bullets, texts);
      NoDuplicates(r) &&
      (forall t :: t in r ==> t in bullets || (Eligible(t) && t in texts)) &&
      (forall t :: t in texts && Eligible(t) ==> t in r)
    decreases |texts|
  {
    if texts != [] {
      var next := AddBullet(bullets, texts[0]);
      BulletsFromShape(next, texts[1..]);
      BulletsFromExtends(next, texts[1..]);
      assert forall t :: t in texts ==> t == texts[0] || t in texts[1..];
      assert Eligible(texts[0]) ==> texts[0] in next;
    }
  }

  /** The positions of the texts the scan adds, in the order it visits them. */
  function AddedAt(bullets: seq<string>, texts: seq<string>): (idx: seq<nat>)
    ensures forall k :: 0 <= k < |idx| ==> idx[k] < |texts|
    decreases |texts|
  {
    if texts == [] then []
    else
      var rest := Shifted(AddedAt(AddBullet(bullets, texts[0]), texts[1..]));
      if Eligible(texts[0]) && texts[0] !in bullets then [0] + rest else rest
  }

  /** The texts the scan adds, in order. */
  function AddedTexts(bullets: seq<string>, texts: seq<string>): seq<string>
    decreases |texts|
  {
    if texts == [] then []
    else
      (if Eligible(texts[0]) && texts[0] !in bullets then [texts[0]] else []) +
      AddedTexts(AddBullet(bullets, texts[0]), texts[1..])
  }

  /** The texts added are the texts at the positions `AddedAt`. */
  lemma {:induction false} AddedTextsAt(bullets: seq<string>, texts: seq<string>)
    ensures var idx := AddedAt(bullets, texts); var added := AddedTexts(bullets, texts);
      |added| == |idx| && forall k :: 0 <= k < |idx| ==> added[k] == texts[idx[k]]
    decreases |texts|
  {
    if texts != [] {
      var next := AddBullet(bullets, texts[0]);
      var rest := AddedAt(next, texts[1..]);
      var later := AddedTexts(next, texts[1..]);
      AddedTextsAt(next, texts[1..]);
      ConsPositions(texts, rest, later, Eligible(texts[0]) && texts[0] !in bullets,
        AddedAt(bullets, texts), AddedTexts(bullets, texts));
    }
  }

  /** The scan appends to what it holds exactly the texts it adds. */
  lemma {:induction false} BulletsFromAdded(bullets: seq<string>, texts: seq<string>)
    ensures BulletsFrom(bullets, texts) == bullets + AddedTexts(bullets, texts)
    decreases |texts|
  {
    if texts == [] {
      assert AddedTexts(bullets, texts) == [];
    } else {
      var next := AddBullet(bullets, texts[0]);
      var later := AddedTexts(next, texts[1..]);
      BulletsFromAdded(next, texts[1..]);
      assert BulletsFrom(bullets, texts) == BulletsFrom(next, texts[1..]);
      if Eligible(texts[0]) && texts[0] !in bullets {
        assert next == bullets + [texts[0]];
        assert AddedTexts(bullets, texts) == [texts[0]] + later;
        assert next + later == bullets + ([texts[0]] + later);
      } else {
        assert next == bullets;
        assert AddedTexts(bullets, texts) == later;
      }
    }
  }

  /** The scan adds texts in the order it visits them. */
  lemma {:induction false} AddedAtIncreasing(bullets: seq<string>, texts: seq<string>)
    ensures StrictlyIncreasing(AddedAt(bullets, texts))
    decreases |texts|
  {
    if texts != [] {
      AddedAtIncreasing(AddBullet(bullets, texts[0]), texts[1..]);
      ShiftedIncreasing(AddedAt(AddBullet(bullets, texts[0]), texts[1..]));
    }
  }

  /** Every value before position `idx[k]` that passes `ok` is held from the start or among the first `k` added values. */
  ghost predicate HeldBefore<T>(held: seq<T>, xs: seq<T>, ok: T -> bool, idx: seq<nat>, added: seq<T>) {
    forall k, j :: 0 <= k < |idx| && 0 <= j < idx[k] && j < |xs| && ok(xs[j]) ==>
      xs[j] in held || exists l :: 0 <= l < k && l < |added| && added[l] == xs[j]
  }

  /**
   * One step of a scan that adds each value passing `ok` and not held yet: what holds for
   * the tail, from what is held after the first value, holds for the whole from the start.
   */
  lemma ConsHeld<T>(xs: seq<T>, ok: T -> bool, held: seq<T>, rest: seq<nat>, later: seq<T>)
    requires xs != []
    requires HeldBefore(if ok(xs[0]) && xs[0] !in held then held + [xs[0]] else held, xs[1..], ok, rest, later)
    ensures var first := ok(xs[0]) && xs[0] !in held;
      HeldBefore(held, xs, ok, if first then [0] + Shifted(rest) else Shifted(rest), if first then [xs[0]] + later else later)
  {
    if ok(xs[0]) && xs[0] !in held {
      var next := held + [xs[0]];
      var idx := [0] + Shifted(rest);
      var added := [xs[0]] + later;
      forall k, j | 0 <= k < |idx| && 0 <= j < idx[k] && j < |xs| && ok(xs[j])
        ensures xs[j] in held || exists l :: 0 <= l < k && l < |added| && added[l] == xs[j]
      {
        assert 0 < k;
        if xs[j] == xs[0] {
          assert added[0] == xs[j];
        } else if xs[j] !in held {
          assert 0 < j && xs[1..][j - 1] == xs[j];
          assert idx[k] == rest[k - 1] + 1;
          assert xs[j] !in next;
          var l :| 0 <= l < k - 1 && l < |later| && later[l] == xs[j];
          assert added[l + 1] == xs[j];
        }
      }
    } else {
      var idx := Shifted(rest);
      forall k, j | 0 <= k < |idx| && 0 <= j < idx[k] && j < |xs| && ok(xs[j])
        ensures xs[j] in held || exists l :: 0 <= l < k && l < |later| && later[l] == xs[j]
      {
        if 0 < j {
          assert xs[1..][j - 1] == xs[j];
          assert idx[k] == rest[k] + 1;
        }
      }
    }
  }

  /** Every eligible text visited before an added one is held by the time that one is added. */
  lemma {:induction false} AddedAfterEligible(bullets: seq<string>, texts: seq<string>)
    ensures HeldBefore(bullets, texts, Eligible, AddedAt(bullets, texts), AddedTexts(bullets, texts))
    decreases |texts|
  {
    if texts != [] {
      var next := AddBullet(bullets, texts[0]);
      var rest := AddedAt(next, texts[1..]);
      var later := AddedTexts(next, texts[1..]);
      var first := Eligible(texts[0]) && texts[0] !in bullets;
      AddedAfterEligible(next, texts[1..]);
      assert next == if first then bullets + [texts[0]] else bullets;
      ConsHeld(texts, Eligible, bullets, rest, later);
      assert AddedAt(bullets, texts) == if first then [0] + Shifted(rest) else Shifted(rest);
      assert AddedTexts(bullets, texts) == if first then [texts[0]] + later else later;
    }
  }

  /** The bullet points: the first 10 eligible texts, each once, over all matches of all the bullet selectors. */
  function BulletPoints(doc: Document): seq<string> {
    var all := BulletsFrom([], MatchedTexts(doc, BulletSelectors));
    all[..Min(10, |all|)]
  }

  /** The inner loop of the bullet scan, over the matches of one selector. */
  method AddBullets(elements: seq<Element>, bullets: seq<string>) returns (r: seq<string>)
    ensures r == BulletsFrom(bullets, TrimmedTexts(elements))
  {
    r := bullets;
    ghost var texts := TrimmedTexts(elements);
    for j := 0 to |elements|
      invariant BulletsFrom(r, texts[j..]) == BulletsFrom(bullets, texts)
    {
      var text := Trim(elements[j].textContent);
      assert texts[j..][1..] == texts[j + 1..];
      if text != "" && |text| < 200 && text !in r {
        r := r + [text];
      }
    }
  }

  /**
   * A scan stopped at the end of the list, or holding 10 bullets, has the same first 10
   * bullets as the scan run to the end.
   */
  lemma StoppedScan(bullets: seq<string>, rest: seq<string>)
    requires rest == [] || |bullets| >= 10
    ensures var all := BulletsFrom(bullets, rest);
      bullets[..Min(10, |bullets|)] == all[..Min(10, |all|)]
  {
    BulletsFromExtends(bullets, rest);
  }

  /**
   * The loop of `extractBulletPoints` over a selector list: it stops scanning selectors
   * once it holds 10 entries and then keeps the first 10.
   */
  method CollectBullets(doc: Document, sels: seq<string>) returns (bullets: seq<string>)
    ensures var all := BulletsFrom([], MatchedTexts(doc, sels)); bullets == all[..Min(10, |all|)]
  {
    bullets := [];
    var i := 0;
    while i < |sels|
      invariant 0 <= i <= |sels|
      invariant BulletsFrom(bullets, MatchedTexts(doc, sels[i..])) == BulletsFrom([], MatchedTexts(doc, sels))
    {
      assert sels[i..][1..] == sels[i + 1..];
      var elements := doc.querySelectorAll(sels[i]);
      BulletsFromAppend(bullets, TrimmedTexts(elements), MatchedTexts(doc, sels[i + 1..]));
      bullets := AddBullets(elements, bullets);
      i := i + 1;
      if |bullets| >= 10 {
        break;
      }
    }
    StoppedScan(bullets, MatchedTexts(doc, sels[i..]));
    bullets := bullets[..Min(10, |bullets|)];
  }

  method ExtractBulletPoints(doc: Document) returns (bullets: seq<string>)
    ensures bullets == BulletPoints(doc)
  {
    bullets := CollectBullets(doc, BulletSelectors);
  }

  /**
   * At most 10 bullets, each non-empty, trimmed, shorter than 200 characters and the text
   * of a matched element, none twice; fewer than 10 only when every eligible text is in.
   */
  lemma BulletPointsShape(doc: Document)
    ensures var r := BulletPoints(doc); var texts := MatchedTexts(doc, BulletSelectors);
      |r| <= 10 && NoDuplicates(r) &&
      (forall t :: t in r ==> t != "" && |t| < 200 && Trim(t) == t && t in texts) &&
      (|r| < 10 ==> forall t :: t in texts && Eligible(t) ==> t in r)
  {
    FirstBulletsShape(MatchedTexts(doc, BulletSelectors));
    MatchedTextsTrimmed(doc, BulletSelectors);
  }

  /** The first 10 texts the scan collects: distinct, eligible, and all of them when fewer. */
  lemma FirstBulletsShape(texts: seq<string>)
    ensures var all := BulletsFrom([], texts); var r := all[..Min(10, |all|)];
      |r| <= 10 && NoDuplicates(r) &&
      (forall t :: t in r ==> Eligible(t) && t in texts) &&
      (|r| < 10 ==> forall t :: t in texts && Eligible(t) ==> t in r)
  {
    var all := BulletsFrom([], texts);
    BulletsFromShape([], texts);
    var r := all[..Min(10, |all|)];
    forall t | t in r ensures t in all {
      var k :| 0 <= k < |r| && r[k] == t;
      assert all[k] == t;
    }
    assert |r| < 10 ==> r == all;
  }

  /** An eligible text before the `k`-th added one is among the texts added before it. */
  lemma EarlierAdded(texts: seq<string>, k: nat, j: nat) returns (l: nat)
    requires k < |AddedAt([], texts)| && j < AddedAt([], texts)[k] && Eligible(texts[j])
    ensures l < k && l < |AddedTexts([], texts)| && AddedTexts([], texts)[l] == texts[j]
  {
    AddedAfterEligible([], texts);
    l :| 0 <= l < k && l < |AddedTexts([], texts)| && AddedTexts([], texts)[l] == texts[j];
  }

  /**
   * The scan over `texts` keeps their order: bullet `k` is `texts[idx[k]]` with `idx`
   * strictly increasing, no earlier text equals it, and every eligible text before it is
   * one of the bullets before it. The bullet points are the first 10 of this scan over
   * the matched texts.
   */
  lemma BulletsFromOrder(texts: seq<string>) returns (idx: seq<nat>)
    ensures var r := BulletsFrom([], texts);
      |idx| == |r| && StrictlyIncreasing(idx) &&
      (forall k :: 0 <= k < |r| ==> idx[k] < |texts| && r[k] == texts[idx[k]]) &&
      (forall k, j :: 0 <= k < |r| && 0 <= j < idx[k] ==> texts[j] != r[k]) &&
      (forall k, j :: 0 <= k < |r| && 0 <= j < idx[k] && Eligible(texts[j]) ==> texts[j] in r[..k])
  {
    idx := AddedAt([], texts);
    var r := AddedTexts([], texts);
    BulletsFromAdded([], texts);
    AddedTextsAt([], texts);
    assert [] + r == r;
    AddedAtIncreasing([], texts);
    forall k, j | 0 <= k < |r| && 0 <= j < idx[k] && Eligible(texts[j]) ensures texts[j] in r[..k] {
      var l := EarlierAdded(texts, k, j);
      assert r[..k][l] == texts[j];
    }
    BulletsFromShape([], texts);
    forall k, j | 0 <= k < |r| && 0 <= j < idx[k] ensures texts[j] != r[k] {
      if texts[j] == r[k] {
        assert r[k] in BulletsFrom([], texts);
        var l := EarlierAdded(texts, k, j);
      }
    }
  }
}

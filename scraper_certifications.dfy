/**
 * `extractCertifications`: which names of a fixed vocabulary of environmental
 * certifications occur, ignoring case, in the text of the first elements of
 * the page.
 */
module ScraperCertifications {
  import opened Text
  import opened Dom

  /** The vocabulary, in the order the results follow. */
  const CertificationKeywords: seq<string> := [
    "organic", "orgánico",
    "fair trade", "comercio justo",
    "fsc", "forest stewardship",
    "leed", "energy star",
    "usda organic", "eu organic",
    "carbon neutral", "carbono neutral",
    "b-corp", "b corp",
    "cradle to cradle", "c2c",
    "greenguard", "eco-label",
    "recycled", "reciclado",
    "biodegradable"]

  /**
   * The certification containers, then the first 30 paragraphs, blocks, spans and list
   * items, of which the first 50 in all.
   */
  function SearchElements(doc: Document): seq<Element> {
    var specific := doc.querySelectorAll(".certifications, #certifications, [data-certifications]");
    var general := doc.querySelectorAll("p, div, span, li");
    var all := specific + general[..Min(|general|, 30)];
    all[..Min(|all|, 50)]
  }

  /** The texts of the searched elements joined by spaces, lower-cased. */
  function SearchText(doc: Document): string {
    Lower(Join(TextContents(SearchElements(doc)), " "))
  }

  /** One vocabulary entry's turn: appended when its lower-cased form occurs and it is not held yet. */
  function CertificationsFrom(found: seq<string>, text: string, kws: seq<string>): seq<string>
    decreases |kws|
  {
    if kws == [] then found
    else
      var kw := kws[0];
      CertificationsFrom(if Contains(text, Lower(kw)) && kw !in found then found + [kw] else found, text, kws[1..])
  }

  /** The certifications found: the first 10 vocabulary entries that occur in the search text. */
  function Certifications(doc: Document, vocabulary: seq<string>): seq<string> {
    var all := CertificationsFrom([], SearchText(doc), vocabulary);
    all[..Min(|all|, 10)]
  }

  method FindCertifications(doc: Document, vocabulary: seq<string>) returns (certifications: seq<string>)
    ensures certifications == Certifications(doc, vocabulary)
  {
    var specificElements := doc.querySelectorAll(".certifications, #certifications, [data-certifications]");
    var generalElements := doc.querySelectorAll("p, div, span, li");
    var limitedGeneral := generalElements[..Min(|generalElements|, 30)];
    var searchElements := specificElements + limitedGeneral;
    var limitedElements := searchElements[..Min(|searchElements|, 50)];
    var searchText := Lower(Join(TextContents(limitedElements), " "));
    certifications := [];
    for i := 0 to |vocabulary|
      invariant CertificationsFrom(certifications, searchText, vocabulary[i..]) ==
        CertificationsFrom([], SearchText(doc), vocabulary)
    {
      assert vocabulary[i..][1..] == vocabulary[i + 1..];
      var keyword := vocabulary[i];
      if Contains(searchText, Lower(keyword)) && keyword !in certifications {
        certifications := certifications + [keyword];
      }
    }
    certifications := certifications[..Min(|certifications|, 10)];
  }

  method ExtractCertifications(doc: Document) returns (certifications: seq<string>)
    ensures certifications == Certifications(doc, CertificationKeywords)
  {
    certifications := FindCertifications(doc, CertificationKeywords);
  }

  /** The turns only append: what was held before is a prefix of what is held after. */
  lemma {:induction false} CertificationsFromExtends(found: seq<string>, text: string, kws: seq<string>)
    ensures found <= CertificationsFrom(found, text, kws)
    decreases |kws|
  {
    if kws != [] {
      var kw := kws[0];
      CertificationsFromExtends(if Contains(text, Lower(kw)) && kw !in found then found + [kw] else found, text, kws[1..]);
    }
  }

  /**
   * Starting from distinct entries, the turns keep them distinct and as a prefix, add
   * exactly the entries of `kws` whose lower-cased form occurs in the text, and nothing else.
   */
  lemma {:induction false} CertificationsFromShape(found: seq<string>, text: string, kws: seq<string>)
    requires NoDuplicates(found)
    ensures var r := CertificationsFrom(found, text, kws);
      NoDuplicates(r) && found <= r &&
      (forall kw :: kw in r ==> kw in found || (kw in kws && Contains(text, Lower(kw)))) &&
      (forall kw :: kw in kws && Contains(text, Lower(kw)) ==> kw in r)
    decreases |kws|
  {
    if kws != [] {
      var kw := kws[0];
      var next := if Contains(text, Lower(kw)) && kw !in found then found + [kw] else found;
      CertificationsFromShape(next, text, kws[1..]);
      CertificationsFromExtends(next, text, kws[1..]);
      assert forall k :: k in kws ==> k == kw || k in kws[1..];
      assert Contains(text, Lower(kw)) ==> kw in next;
    }
  }

  /**
   * What the turns add follows the order of `kws`: entry `i` added is `kws[idx[i]]`, with
   * `idx` strictly increasing.
   */
  lemma {:induction false} CertificationsFromOrder(found: seq<string>, text: string, kws: seq<string>)
    returns (idx: seq<nat>)
    ensures var r := CertificationsFrom(found, text, kws);
      |found| <= |r| && |idx| == |r| - |found| &&
      (forall i :: 0 <= i < |idx| ==> idx[i] < |kws| && kws[idx[i]] == r[|found| + i]) &&
      (forall i, j :: 0 <= i < j < |idx| ==> idx[i] < idx[j])
    decreases |kws|
  {
    if kws == [] {
      idx := [];
    } else {
      var kw := kws[0];
      var added := Contains(text, Lower(kw)) && kw !in found;
      var next := if added then found + [kw] else found;
      var rest := CertificationsFromOrder(next, text, kws[1..]);
      var shifted := seq(|rest|, i requires 0 <= i < |rest| => rest[i] + 1);
      idx := if added then [0] + shifted else shifted;
      var r := CertificationsFrom(found, text, kws);
      assert r == CertificationsFrom(next, text, kws[1..]);
      forall i | 0 <= i < |idx| ensures idx[i] < |kws| && kws[idx[i]] == r[|found| + i] {
        if added && i == 0 {
          CertificationsFromExtends(next, text, kws[1..]);
          assert r[|found|] == next[|found|];
        } else {
          var i0 := if added then i - 1 else i;
          assert idx[i] == rest[i0] + 1;
          assert kws[idx[i]] == kws[1..][rest[i0]];
        }
      }
    }
  }

  /**
   * At most 10 distinct certifications, each a vocabulary entry whose lower-cased form
   * occurs in the search text, in vocabulary order; fewer than 10 only when every entry
   * that occurs is listed.
   */
  lemma CertificationsShape(doc: Document, vocabulary: seq<string>) returns (idx: seq<nat>)
    ensures var r := Certifications(doc, vocabulary);
      |r| <= 10 && NoDuplicates(r) &&
      (forall kw :: kw in r ==> kw in vocabulary && Contains(SearchText(doc), Lower(kw))) &&
      (|r| < 10 ==> forall kw :: kw in vocabulary && Contains(SearchText(doc), Lower(kw)) ==> kw in r) &&
      |idx| == |r| &&
      (forall i :: 0 <= i < |r| ==> idx[i] < |vocabulary| && vocabulary[idx[i]] == r[i]) &&
      (forall i, j :: 0 <= i < j < |r| ==> idx[i] < idx[j])
  {
    var text := SearchText(doc);
    var all := CertificationsFrom([], text, vocabulary);
    CertificationsFromShape([], text, vocabulary);
    var order := CertificationsFromOrder([], text, vocabulary);
    var r := Certifications(doc, vocabulary);
    idx := order[..|r|];
    forall kw | kw in r ensures kw in all {
      var k :| 0 <= k < |r| && r[k] == kw;
      assert all[k] == kw;
    }
  }
}

/**
 * `scrapeProductData` and `cleanAndCombineText`: run every extractor, then
 * render the non-empty fields as labelled parts and normalise the text.
 */
module Scraper {
  import opened Text
  import opened Dom
  import opened Normalize
  import opened ScraperFields
  import opened ScraperSnippets
  import opened ScraperCertifications

  /** What the extractors found, as `scrapeProductData` returns it under `raw`. */
  datatype RawProduct = RawProduct(
    title: string,
    description: string,
    bulletPoints: seq<string>,
    ingredients: string,
    materials: string,
    packaging: string,
    certifications: seq<string>,
    sustainability: string,
    url: string)

  datatype ScrapeResult = ScrapeResult(raw: RawProduct, cleanedText: string)

  /** One labelled part: `${name}: ${value}`. */
  function Part(name: string, value: string): string {
    name + ": " + value
  }

  /** A field of the scraped data: whether it is present, its label and its rendered value. */
  datatype Field = Field(present: bool, name: string, value: string)

  /**
   * The eight fields in the order they are rendered; a string field is present when
   * non-empty, a list field when it has an entry.
   */
  function Fields(data: RawProduct): seq<Field> {
    [Field(data.title != "", "Title", data.title),
     Field(data.description != "", "Description", data.description),
     Field(|data.bulletPoints| > 0, "Features", Join(data.bulletPoints, "; ")),
     Field(data.ingredients != "", "Ingredients", data.ingredients),
     Field(data.materials != "", "Materials", data.materials),
     Field(data.packaging != "", "Packaging", data.packaging),
     Field(|data.certifications| > 0, "Certifications found", Join(data.certifications, ", ")),
     Field(data.sustainability != "", "Sustainability notes", data.sustainability)]
  }

  /** The part for each present field, in order. */
  function Parts(fields: seq<Field>): seq<string>
    decreases |fields|
  {
    if fields == [] then []
    else
      Parts(fields[..|fields| - 1]) + FieldPart(fields[|fields| - 1])
  }

  /** The part of one field: none when it is absent. */
  function FieldPart(field: Field): seq<string> {
    if field.present then [Part(field.name, field.value)] else []
  }

  /** Rendering one more field appends its part. */
  lemma PartsSnoc(fields: seq<Field>, k: int)
    requires 0 <= k < |fields|
    ensures Parts(fields[..k + 1]) == Parts(fields[..k]) + FieldPart(fields[k])
  {
    assert fields[..k + 1][..k] == fields[..k];
  }

  /** How many fields are present. */
  function PresentCount(fields: seq<Field>): nat
    decreases |fields|
  {
    if fields == [] then 0
    else PresentCount(fields[..|fields| - 1]) + (if fields[|fields| - 1].present then 1 else 0)
  }

  function LabelledParts(data: RawProduct): seq<string> {
    Parts(Fields(data))
  }

  /** Labels are told apart by their first letter. */
  predicate DistinctInitials(fields: seq<Field>) {
    (forall i :: 0 <= i < |fields| ==> fields[i].name != "") &&
    (forall i, j :: 0 <= i < j < |fields| ==> fields[i].name[0] != fields[j].name[0])
  }

  /**
   * One part per present field: as many parts as present fields, each part that of a
   * present field, and a present last field gives the last part.
   */
  lemma {:induction false} PartsShape(fields: seq<Field>)
    ensures var parts := Parts(fields);
      |parts| == PresentCount(fields) <= |fields| &&
      (forall p :: p in parts ==> exists i :: 0 <= i < |fields| && fields[i].present && p == Part(fields[i].name, fields[i].value)) &&
      (forall i :: 0 <= i < |fields| && fields[i].present ==> Part(fields[i].name, fields[i].value) in parts) &&
      (fields != [] && fields[|fields| - 1].present ==> parts[|parts| - 1] == Part(fields[|fields| - 1].name, fields[|fields| - 1].value))
    decreases |fields|
  {
    if fields != [] {
      var init := fields[..|fields| - 1];
      PartsShape(init);
      forall i | 0 <= i < |fields| - 1 ensures fields[i] == init[i] { }
    }
  }

  /**
   * The parts follow field order: the `k`-th part is that of the `idx[k]`-th field, which
   * is present, the positions strictly increase, and every present field has one.
   */
  lemma {:induction false} PartsOrder(fields: seq<Field>) returns (idx: seq<nat>)
    ensures var parts := Parts(fields);
      |idx| == |parts| && StrictlyIncreasing(idx) &&
      (forall k :: 0 <= k < |idx| ==>
         idx[k] < |fields| && fields[idx[k]].present &&
         parts[k] == Part(fields[idx[k]].name, fields[idx[k]].value)) &&
      (forall i :: 0 <= i < |fields| && fields[i].present ==> i in idx)
    decreases |fields|
  {
    if fields == [] {
      idx := [];
    } else {
      var last := |fields| - 1;
      var init := fields[..last];
      var prev := PartsOrder(init);
      forall i | 0 <= i < last ensures fields[i] == init[i] { }
      assert Parts(fields) == Parts(init) + FieldPart(fields[last]);
      if fields[last].present {
        idx := prev + [last];
        assert idx[|prev|] == last;
      } else {
        idx := prev;
      }
    }
  }

  /** When the labels have different initials, a field's part is there exactly when the field is present. */
  lemma PartPresentIff(fields: seq<Field>, i: int)
    requires DistinctInitials(fields) && 0 <= i < |fields|
    ensures Part(fields[i].name, fields[i].value) in Parts(fields) <==> fields[i].present
  {
    PartsShape(fields);
    var p := Part(fields[i].name, fields[i].value);
    if p in Parts(fields) {
      var j :| 0 <= j < |fields| && fields[j].present && p == Part(fields[j].name, fields[j].value);
      assert p[0] == fields[i].name[0] && p[0] == fields[j].name[0];
      assert i == j;
    }
  }

  /** The first present field gives the first part. */
  lemma {:induction false} PartsFirst(fields: seq<Field>)
    requires fields != [] && fields[0].present
    ensures Parts(fields) != [] && Parts(fields)[0] == Part(fields[0].name, fields[0].value)
    decreases |fields|
  {
    if |fields| > 1 {
      var init := fields[..|fields| - 1];
      assert init[0] == fields[0];
      PartsFirst(init);
    }
  }

  /** The eight labels start with eight different letters. */
  lemma FieldsHaveDistinctInitials(data: RawProduct)
    ensures DistinctInitials(Fields(data))
  {
    var fields := Fields(data);
    assert forall i :: 0 <= i < 8 ==> fields[i].name[0] == "TDFIMPCS"[i];
  }

  /**
   * One part per present field and none for an absent one: the parts are as many as the
   * present fields, a field's part is there exactly when the field is present, the title
   * comes first and the sustainability notes last.
   */
  lemma LabelledPartsShape(data: RawProduct)
    ensures var parts := LabelledParts(data);
      |parts| == PresentCount(Fields(data)) && |parts| <= 8 &&
      (data.title != "" <==> Part("Title", data.title) in parts) &&
      (data.description != "" <==> Part("Description", data.description) in parts) &&
      (|data.bulletPoints| > 0 <==> Part("Features", Join(data.bulletPoints, "; ")) in parts) &&
      (data.ingredients != "" <==> Part("Ingredients", data.ingredients) in parts) &&
      (data.materials != "" <==> Part("Materials", data.materials) in parts) &&
      (data.packaging != "" <==> Part("Packaging", data.packaging) in parts) &&
      (|data.certifications| > 0 <==> Part("Certifications found", Join(data.certifications, ", ")) in parts) &&
      (data.sustainability != "" <==> Part("Sustainability notes", data.sustainability) in parts) &&
      (data.title != "" ==> parts[0] == Part("Title", data.title)) &&
      (data.sustainability != "" ==> parts[|parts| - 1] == Part("Sustainability notes", data.sustainability))
  {
    var fields := Fields(data);
    PartsShape(fields);
    FieldsHaveDistinctInitials(data);
    PartPresentIff(fields, 0);
    PartPresentIff(fields, 1);
    PartPresentIff(fields, 2);
    PartPresentIff(fields, 3);
    PartPresentIff(fields, 4);
    PartPresentIff(fields, 5);
    PartPresentIff(fields, 6);
    PartPresentIff(fields, 7);
    if data.title != "" {
      PartsFirst(fields);
    }
  }

  /** The normalisation applied to the joined parts. */
  function CleanText(combined: string): string {
    var stripped := RemoveBlocks(RemoveBlocks(StripTags(combined), "script"), "style");
    Truncate(Trim(Collapse(stripped)), 5000)
  }

  /**
   * The cleaned text has no white space at either end, no two adjacent white-space
   * characters and nothing that looks like a tag; it is the collapsed, trimmed, tag-free
   * text when that has at most 5000 characters, else its first 5000 and `...`.
   */
  lemma CleanTextShape(combined: string)
    ensures var c := Trim(Collapse(StripTags(combined)));
      var r := CleanText(combined);
      Trimmed(r) && NoDoubleSpace(r) && NoTag(r) && |r| <= 5003 &&
      (|c| <= 5000 ==> r == c) && (|c| > 5000 ==> r == c[..5000] + "...")
  {
    var s := StripTags(combined);
    StripTagsLeavesNoTag(combined);
    RemoveBlocksAfterStrip(s, "script");
    RemoveBlocksAfterStrip(s, "style");
    CollapseShape(s);
    TrimShape(Collapse(s));
    TruncateShape(Trim(Collapse(s)), 5000);
  }

  method CleanAndCombineText(data: RawProduct) returns (combined: string)
    ensures combined == CleanText(Join(LabelledParts(data), "\n\n"))
  {
    // One `if (field) parts.push(...)` per field, in the order of `Fields`.
    var fields := Fields(data);
    var parts: seq<string> := [];
    for i := 0 to |fields|
      invariant parts == Parts(fields[..i])
    {
      PartsSnoc(fields, i);
      if fields[i].present {
        parts := parts + [Part(fields[i].name, fields[i].value)];
      }
    }
    assert fields[..|fields|] == fields;

    combined := Join(parts, "\n\n");
    combined := StripTags(combined);
    combined := RemoveBlocks(combined, "script");
    combined := RemoveBlocks(combined, "style");
    combined := Trim(Collapse(combined));
    if |combined| > 5000 {
      combined := combined[..5000] + "...";
    }
  }

  /** A product with no field present cleans to the empty text. */
  lemma NothingFoundCleansToEmpty(data: RawProduct)
    requires PresentCount(Fields(data)) == 0
    ensures CleanText(Join(LabelledParts(data), "\n\n")) == ""
  {
    LabelledPartsShape(data);
  }

  /** What each extractor finds on the page, field by field. */
  predicate ScrapedFrom(doc: Document, url: string, raw: RawProduct) {
    FirstNonEmptyMatch(doc, TitleSelectors, raw.title) &&
    IsDescription(doc, raw.description) &&
    raw.bulletPoints == BulletPoints(doc) &&
    raw.ingredients == Prefix(Join(Ingredients(doc), " "), 500) &&
    raw.materials == Prefix(Join(Materials(doc), " "), 500) &&
    raw.packaging == Join(Packaging(doc), " ") &&
    raw.certifications == Certifications(doc, CertificationKeywords) &&
    raw.sustainability == Prefix(Join(SustainabilityNotes(doc), " "), 300) &&
    raw.url == url
  }

  /** The `data` object of `scrapeProductData`: every extractor run once over the page. */
  method ExtractAll(doc: Document, url: string) returns (data: RawProduct)
    ensures ScrapedFrom(doc, url, data)
  {
    var title := ExtractTitle(doc);
    var description := ExtractDescription(doc);
    var bulletPoints := ExtractBulletPoints(doc);
    var ingredients := ExtractIngredients(doc);
    var materials := ExtractMaterials(doc);
    var packaging := ExtractPackaging(doc);
    var certifications := ExtractCertifications(doc);
    var sustainability := ExtractSustainabilityNotes(doc);
    data := RawProduct(title, description, bulletPoints, ingredients, materials,
      packaging, certifications, sustainability, url);
  }

  /**
   * Runs every extractor over the page and keeps what each found under `raw`, with the
   * cleaned rendering of exactly these fields, at most 5003 characters long.
   */
  method ScrapeProductData(doc: Document, url: string) returns (result: ScrapeResult)
    ensures ScrapedFrom(doc, url, result.raw)
    ensures result.cleanedText == CleanText(Join(LabelledParts(result.raw), "\n\n"))
    ensures |result.cleanedText| <= 5003
  {
    var data := ExtractAll(doc, url);
    var cleanedText := CleanAndCombineText(data);
    CleanTextShape(Join(LabelledParts(data), "\n\n"));
    result := ScrapeResult(data, cleanedText);
  }
}

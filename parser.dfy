/**
 * `formatLabel`, `formatConfidence`, `formatBreakdown` and `validateAnalysis`:
 * the projections the popup applies to an analysis before showing it.
 */
module Parser {
  import opened Wrappers
  import opened Text
  import opened JsonData

  /** One entry of the label table: the text shown, its CSS class and its colour. */
  datatype LabelStyle = LabelStyle(display: string, cssClass: string, color: string)

  const EcoFriendly := LabelStyle("Eco-Friendly", "eco-friendly", "#10b981")
  const ModerateStyle := LabelStyle("Moderate", "moderate", "#f59e0b")
  const NotEcoFriendly := LabelStyle("Not Eco-Friendly", "not-eco-friendly", "#ef4444")

  /** The table's own keys and their entries. */
  function OwnLabel(key: string): Option<LabelStyle> {
    if key == "Eco-Friendly" then Some(EcoFriendly)
    else if key == "Moderate" then Some(ModerateStyle)
    else if key == "Not Eco-Friendly" then Some(NotEcoFriendly)
    else None
  }

  /** The property key `labels[label]` reads: `String(label)`, `undefined` for a missing label. */
  function PropertyKey(lbl: Option<Json>): string {
    match lbl
    case None => "undefined"
    case Some(v) => ToJsString(v)
  }

  /**
   * The names every object literal inherits from `Object.prototype`; each is a function
   * or, for `__proto__`, an object, so each is truthy.
   */
  const InheritedNames: seq<string> := [
    "constructor", "__defineGetter__", "__defineSetter__", "hasOwnProperty",
    "__lookupGetter__", "__lookupSetter__", "isPrototypeOf", "propertyIsEnumerable",
    "toString", "valueOf", "__proto__", "toLocaleString"]

  /** What `labels[label] || labels['Moderate']` yields: an entry, or an inherited member. */
  datatype LabelLookup = Entry(style: LabelStyle) | Inherited(name: string)

  /**
   * `formatLabel` as written: the lookup on the object literal also finds the inherited
   * members, which are truthy and so are returned instead of the fallback.
   */
  function FormatLabelAsWritten(lbl: Option<Json>): (r: LabelLookup)
    ensures r.Inherited? <==> PropertyKey(lbl) in InheritedNames
  {
    var key := PropertyKey(lbl);
    match OwnLabel(key)
    case Some(style) => Entry(style)
    case None => if key in InheritedNames then Inherited(key) else Entry(ModerateStyle)
  }

  /** The label `constructor` does not fall back to the Moderate entry. */
  lemma ConstructorIsNotModerate()
    ensures FormatLabelAsWritten(Some(JStr("constructor"))) == Inherited("constructor")
    ensures FormatLabelAsWritten(Some(JStr("constructor"))) != Entry(ModerateStyle)
  {
    assert InheritedNames[0] == "constructor";
  }

  /** `formatLabel` with the lookup restricted to the table's own keys, as intended. */
  function FormatLabel(lbl: Option<Json>): LabelStyle {
    match OwnLabel(PropertyKey(lbl))
    case Some(style) => style
    case None => ModerateStyle
  }

  /**
   * The three labels get their own entries, whose display text is the label itself;
   * every other label, `undefined` included, gets the Moderate entry.
   */
  lemma FormatLabelEntries(lbl: Option<Json>)
    ensures var key := PropertyKey(lbl);
      var r := FormatLabel(lbl);
      (key == "Eco-Friendly" ==> r == EcoFriendly) &&
      (key == "Moderate" ==> r == ModerateStyle) &&
      (key == "Not Eco-Friendly" ==> r == NotEcoFriendly) &&
      (key != "Eco-Friendly" && key != "Not Eco-Friendly" ==> r == ModerateStyle) &&
      (r.display == key <==> key in {"Eco-Friendly", "Moderate", "Not Eco-Friendly"})
  {
  }

  /** The corrected lookup agrees with the written one except on the inherited names. */
  lemma FormatLabelAgreesOffInherited(lbl: Option<Json>)
    requires PropertyKey(lbl) !in InheritedNames
    ensures FormatLabelAsWritten(lbl) == Entry(FormatLabel(lbl))
  {
  }

  /** `${Math.round(confidence)}%` for an integer confidence. */
  function FormatConfidence(confidence: int): string {
    IntToDecimal(confidence) + "%"
  }

  predicate AllDigits(s: string) {
    forall i :: 0 <= i < |s| ==> IsDigit(s[i])
  }

  /** Reads an integer numeral: an optional `-`, then at least one decimal digit. */
  function ReadInt(s: string): Option<int> {
    var negative := s != [] && s[0] == '-';
    var digits := if negative then s[1..] else s;
    if digits == [] || !AllDigits(digits) then None
    else
      var magnitude: int := DecimalValue(digits);
      Some(if negative then -magnitude else magnitude)
  }

  /** Reads a percentage back: an integer numeral followed by `%`. */
  function ReadPercent(s: string): Option<int> {
    if s == [] || s[|s| - 1] != '%' then None else ReadInt(s[..|s| - 1])
  }

  /** `String(n)` reads back as `n`. */
  lemma IntToDecimalReadsBack(n: int)
    ensures ReadInt(IntToDecimal(n)) == Some(n)
  {
    var r := IntToDecimal(n);
    var m: nat := if n < 0 then -n else n;
    var digits := NatToDecimal(m);
    NatToDecimalRoundTrip(m);
    assert AllDigits(digits);
    assert !IsDigit('-');
    if n < 0 {
      assert r == ['-'] + digits;
      assert r[1..] == digits;
    } else {
      assert r == digits;
      assert r[0] != '-' by { assert IsDigit(r[0]); }
    }
  }

  /** The formatted confidence ends in `%` and reads back as the confidence. */
  lemma FormatConfidenceRoundTrip(confidence: int)
    ensures var r := FormatConfidence(confidence);
      r[|r| - 1] == '%' && ReadPercent(r) == Some(confidence)
  {
    var r := FormatConfidence(confidence);
    assert r[..|r| - 1] == IntToDecimal(confidence);
    IntToDecimalReadsBack(confidence);
  }

  /** One row of the breakdown. */
  datatype BreakdownItem = BreakdownItem(title: string, key: string, value: Json, icon: string, isList: bool)

  /** The explanation property each row reads. */
  const BreakdownFields: seq<string> := [
    "carbon_footprint", "recyclability", "toxicity", "durability",
    "certifications_found", "greenwashing_risk"]

  const BreakdownKeys: seq<string> := [
    "carbon_footprint", "recyclability", "toxicity", "durability",
    "certifications", "greenwashing_risk"]

  const NotAvailable: Json := JStr("Not available")

  /**
   * The six rows, each with the explanation's property or its default; `None` where
   * reading a property throws, on an `undefined` or `null` explanation.
   */
  function FormatBreakdown(explanation: Option<Json>): Option<seq<BreakdownItem>> {
    if explanation.None? || explanation.value.JNull? then None
    else
      var e := explanation.value;
      Some([
        BreakdownItem("Carbon Footprint", "carbon_footprint", GetOr(e, "carbon_footprint", NotAvailable), "\U{1F30D}", false),
        BreakdownItem("Recyclability", "recyclability", GetOr(e, "recyclability", NotAvailable), "\U{267B}\U{FE0F}", false),
        BreakdownItem("Toxicity", "toxicity", GetOr(e, "toxicity", NotAvailable), "\U{26A0}\U{FE0F}", false),
        BreakdownItem("Durability", "durability", GetOr(e, "durability", NotAvailable), "\U{23F3}", false),
        BreakdownItem("Certifications", "certifications", GetOr(e, "certifications_found", JArr([])), "\U{2705}", true),
        BreakdownItem("Greenwashing Risk", "greenwashing_risk", GetOr(e, "greenwashing_risk", NotAvailable), "\U{1F50D}", false)])
  }

  /**
   * Any explanation other than `undefined` or `null` gives exactly six rows with the keys
   * in order; row `i` holds the explanation's field when truthy and otherwise the
   * default, `[]` for the certifications row, the only list row, and `Not available`
   * for the others.
   */
  lemma FormatBreakdownShape(explanation: Option<Json>)
    ensures var r := FormatBreakdown(explanation);
      (r.Some? <==> explanation.Some? && !explanation.value.JNull?) &&
      (r.Some? ==>
        |r.value| == 6 &&
        (forall i :: 0 <= i < 6 ==> r.value[i].key == BreakdownKeys[i]) &&
        (forall i :: 0 <= i < 6 ==> (r.value[i].isList <==> i == 4)) &&
        (forall i :: 0 <= i < 6 ==>
          var field := Get(explanation.value, BreakdownFields[i]);
          r.value[i].value == if Present(field) then field.value
                              else if i == 4 then JArr([]) else NotAvailable))
  {
    var r := FormatBreakdown(explanation);
    if r.Some? {
      var items := r.value;
      forall i | 0 <= i < 6
        ensures items[i].key == BreakdownKeys[i]
        ensures items[i].isList <==> i == 4
        ensures var field := Get(explanation.value, BreakdownFields[i]);
          items[i].value == if Present(field) then field.value
                            else if i == 4 then JArr([]) else NotAvailable
      {
      }
    }
  }

  /** The value shown under `key`, if there is such a row. */
  function RowValue(items: seq<BreakdownItem>, key: string): Option<Json>
    decreases |items|
  {
    if items == [] then None
    else if items[0].key == key then Some(items[0].value)
    else RowValue(items[1..], key)
  }

  /**
   * When every field is truthy, the rows give the explanation back: the row under each
   * key holds exactly the field that row reads.
   */
  lemma FormatBreakdownRoundTrip(explanation: Json)
    requires !explanation.JNull?
    requires forall i :: 0 <= i < 6 ==> Present(Get(explanation, BreakdownFields[i]))
    ensures var r := FormatBreakdown(Some(explanation));
      r.Some? &&
      forall i :: 0 <= i < 6 ==> RowValue(r.value, BreakdownKeys[i]) == Get(explanation, BreakdownFields[i])
  {
    var items := FormatBreakdown(Some(explanation)).value;
    FormatBreakdownShape(Some(explanation));
    forall i | 0 <= i < 6
      ensures RowValue(items, BreakdownKeys[i]) == Get(explanation, BreakdownFields[i])
    {
      RowValueFirst(items, BreakdownKeys, i);
    }
  }

  /** Lookup by key finds row `i` when the keys are the distinct `keys`. */
  lemma {:induction false} RowValueFirst(items: seq<BreakdownItem>, keys: seq<string>, i: int)
    requires |items| == |keys| && 0 <= i < |keys|
    requires forall j :: 0 <= j < |keys| ==> items[j].key == keys[j]
    requires NoDuplicates(keys)
    ensures RowValue(items, keys[i]) == Some(items[i].value)
    decreases |items|
  {
    if i > 0 {
      assert items[0].key != keys[i];
      RowValueFirst(items[1..], keys[1..], i - 1);
    }
  }

  /** `typeof v === 'object'`: objects, arrays and `null`. */
  predicate TypeofObject(v: Json) {
    v.JObj? || v.JArr? || v.JNull?
  }

  /** `typeof v === 'number'`, `undefined` being no number. */
  predicate TypeofNumber(v: Option<Json>) {
    v.Some? && v.value.JNum?
  }

  /** The truthiness of `validateAnalysis(analysis)`'s `&&` chain. */
  predicate ValidateAnalysis(analysis: Option<Json>) {
    Present(analysis) && TypeofObject(analysis.value) &&
    Present(Get(analysis.value, "label")) &&
    TypeofNumber(Get(analysis.value, "confidence")) &&
    Present(Get(analysis.value, "explanation")) &&
    TypeofObject(Get(analysis.value, "explanation").value)
  }

  /**
   * An analysis is valid exactly when it is an object whose label is truthy, whose
   * confidence is a number and whose explanation is a non-null object or array; neither
   * the confidence's range nor the label's vocabulary is checked.
   */
  lemma ValidateAnalysisIff(analysis: Option<Json>)
    ensures ValidateAnalysis(analysis) <==>
      analysis.Some? && analysis.value.JObj? &&
      Present(Lookup(analysis.value.fields, "label")) &&
      (exists n :: Lookup(analysis.value.fields, "confidence") == Some(JNum(n))) &&
      (exists e :: Lookup(analysis.value.fields, "explanation") == Some(e) && (e.JObj? || e.JArr?))
  {
    if ValidateAnalysis(analysis) {
      var n := Get(analysis.value, "confidence").value.n;
      assert Lookup(analysis.value.fields, "confidence") == Some(JNum(n));
    }
  }

  /**
   * Any number passes as the confidence and any non-empty string as the label: neither the
   * range 0..100 nor the label vocabulary is checked.
   */
  lemma ValidateAnalysisIgnoresRange(name: string, confidence: int)
    requires name != ""
    ensures ValidateAnalysis(Some(JObj([
      ("label", JStr(name)), ("confidence", JNum(confidence)), ("explanation", JObj([]))])))
  {
    var fields := [("label", JStr(name)), ("confidence", JNum(confidence)), ("explanation", JObj([]))];
    LookupLast(fields, "label", 0);
    LookupLast(fields, "confidence", 1);
  }
}

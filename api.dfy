/**
 * The parts of the Gemini client that do not touch the network: the argument
 * checks of `analyzeProduct` and `parseGeminiResponse`, which turns the model's
 * reply text into an analysis object and never fails.
 */
module Api {
  import opened Wrappers
  import opened Text
  import opened JsonData
  import Parser

  /** Why `analyzeProduct` refuses to build a request. */
  datatype GuardError =
    | NoProductText   // 'No product text provided for analysis'
    | NotAString      // `productText.trim` is not a function
    | NoApiKey        // 'Gemini API key not provided'

  /** The two checks at the top of `analyzeProduct`, in their order; `Ok` lets the request go out. */
  function AnalyzeProductGuard(productText: Option<Json>, apiKey: Option<Json>): Result<(), GuardError> {
    if !Present(productText) then Err(NoProductText)
    else if !productText.value.JStr? then Err(NotAString)
    else if Trim(productText.value.s) == "" then Err(NoProductText)
    else if !Present(apiKey) then Err(NoApiKey)
    else Ok(())
  }

  /**
   * A request goes out exactly when the text is a string with a non-white-space
   * character and the key is truthy; a bad text is reported before a missing key.
   */
  lemma AnalyzeProductGuardIff(productText: Option<Json>, apiKey: Option<Json>)
    ensures var r := AnalyzeProductGuard(productText, apiKey);
      (r.Ok? <==> productText.Some? && productText.value.JStr? &&
                  Trim(productText.value.s) != "" && Present(apiKey)) &&
      (r == Err(NoApiKey) ==> productText.Some? && productText.value.JStr? && Trim(productText.value.s) != "") &&
      ((productText.Some? && productText.value.JStr? &&
        forall i :: 0 <= i < |productText.value.s| ==> IsSpace(productText.value.s[i])) ==> r == Err(NoProductText))
  {
    if productText.Some? && productText.value.JStr? {
      var s := productText.value.s;
      if forall i :: 0 <= i < |s| ==> IsSpace(s[i]) {
        AllSpaceTrimsToEmpty(s);
      }
    }
  }

  /** A string of white space alone trims to the empty string. */
  lemma AllSpaceTrimsToEmpty(s: string)
    requires forall i :: 0 <= i < |s| ==> IsSpace(s[i])
    ensures Trim(s) == ""
  {
    TrimStartAllSpace(s);
  }

  /**
   * `s.replace(/<pat>\n?/g, '')`: each occurrence of `pat`, scanning left to right, is
   * removed together with one `\n` right after it.
   */
  function RemoveFence(s: string, pat: string): string
    requires pat != ""
    decreases |s|
  {
    if s == [] then []
    else if StartsWith(s, pat) then
      var rest := s[|pat|..];
      RemoveFence(if rest != [] && rest[0] == '\n' then rest[1..] else rest, pat)
    else [s[0]] + RemoveFence(s[1..], pat)
  }

  /** Text without a backtick has no fence to remove. */
  lemma {:induction false} RemoveFenceNoBacktick(s: string, pat: string)
    requires pat != "" && pat[0] == '`' && '`' !in s
    ensures RemoveFence(s, pat) == s
    decreases |s|
  {
    if s != [] {
      assert !StartsWith(s, pat) by {
        assert |pat| > |s| || s[..|pat|][0] != pat[0];
      }
      RemoveFenceNoBacktick(s[1..], pat);
    }
  }

  /** Removing fences keeps the characters other than those of the fences, in order. */
  lemma {:induction false} RemoveFenceAppend(s: string, t: string, pat: string)
    requires pat != "" && pat[0] == '`' && '`' !in s
    ensures RemoveFence(s + t, pat) == s + RemoveFence(t, pat)
    decreases |s|
  {
    if s == [] {
      assert s + t == t;
    } else {
      assert !StartsWith(s + t, pat) by {
        assert |pat| > |s + t| || (s + t)[..|pat|][0] != pat[0];
      }
      assert (s + t)[1..] == s[1..] + t;
      RemoveFenceAppend(s[1..], t, pat);
      assert s == [s[0]] + s[1..];
    }
  }

  /** Both fence removals of `parseGeminiResponse`: first ```` ```json ````, then ```` ``` ````. */
  function StripFences(s: string): string {
    RemoveFence(RemoveFence(s, "```json"), "```")
  }

  /** The index of the first `c` in `s`, if any. */
  function FirstIndex(s: string, c: char): (r: Option<nat>)
    ensures r.Some? ==> r.value < |s| && s[r.value] == c && c !in s[..r.value]
    ensures r.None? ==> c !in s
  {
    var k := IndexFrom(s, c, 0);
    assert forall j :: 0 <= j < k ==> s[..k][j] == s[j];
    if k < |s| then Some(k)
    else
      assert s[..k] == s;
      None
  }

  /** The index of the last `c` in `s`, if any. */
  function LastIndex(s: string, c: char): (r: Option<nat>)
    ensures r.Some? ==> r.value < |s| && s[r.value] == c && c !in s[r.value + 1..]
    ensures r.None? ==> c !in s
    decreases |s|
  {
    if s == [] then None
    else
      var rest := LastIndex(s[1..], c);
      if rest.Some? then
        assert s[rest.value + 2..] == s[1..][rest.value + 1..];
        Some(rest.value + 1)
      else if s[0] == c then
        assert s[1..] == s[0 + 1..];
        Some(0)
      else
        assert s == [s[0]] + s[1..];
        None
  }

  /**
   * `s.match(/\{[\s\S]*\}/)`: from the first `{` through the last `}` when a `}` follows
   * the first `{`; no match otherwise.
   */
  function BraceSpan(s: string): Option<string> {
    var open := FirstIndex(s, '{');
    var close := LastIndex(s, '}');
    if open.Some? && close.Some? && open.value < close.value then Some(s[open.value..close.value + 1])
    else None
  }

  /**
   * A span is found exactly when some `{` precedes some `}`; it then starts with `{`,
   * ends with `}`, and has no `{` before it and no `}` after it in `s`.
   */
  lemma BraceSpanShape(s: string)
    ensures var r := BraceSpan(s);
      (r.Some? <==> exists i, j :: 0 <= i < j < |s| && s[i] == '{' && s[j] == '}') &&
      (r.Some? ==>
        exists a, b :: 0 <= a < b <= |s| && r.value == s[a..b] &&
          r.value[0] == '{' && r.value[|r.value| - 1] == '}' &&
          '{' !in s[..a] && '}' !in s[b..])
  {
    var open := FirstIndex(s, '{');
    var close := LastIndex(s, '}');
    if exists i, j :: 0 <= i < j < |s| && s[i] == '{' && s[j] == '}' {
      var i, j :| 0 <= i < j < |s| && s[i] == '{' && s[j] == '}';
      assert s[i] in s && s[j] in s;
      NoneBefore(s, '{', open.value);
      NoneAfter(s, '}', close.value);
      var a, b := open.value, close.value + 1;
      assert BraceSpan(s).value == s[a..b];
    }
  }

  /** No `c` before the first one. */
  lemma NoneBefore(s: string, c: char, first: nat)
    requires first <= |s| && c !in s[..first]
    ensures forall k :: 0 <= k < first ==> s[k] != c
  {
    forall k | 0 <= k < first ensures s[k] != c {
      assert s[k] == s[..first][k];
    }
  }

  /** No `c` after the last one. */
  lemma NoneAfter(s: string, c: char, last: nat)
    requires last < |s| && c !in s[last + 1..]
    ensures forall k :: last < k < |s| ==> s[k] != c
  {
    forall k | last < k < |s| ensures s[k] != c {
      assert s[k] == s[last + 1..][k - last - 1];
    }
  }

  /** The text handed to `JSON.parse`: trimmed, fences removed, then the brace span if there is one. */
  function JsonText(responseText: string): string {
    var stripped := StripFences(Trim(responseText));
    match BraceSpan(stripped)
    case Some(span) => span
    case None => stripped
  }

  /** An object's text, without backticks, fenced as a `json` code block. */
  function Fenced(t: string): string {
    "```json\n" + t + "\n```"
  }

  /** Both fences of a `json` code block come off, leaving the text and its last line break. */
  lemma StripFencesOfFenced(t: string)
    requires '`' !in t
    ensures StripFences(Fenced(t)) == t + "\n"
  {
    var f := Fenced(t);
    var jsonFence := "```json";
    assert StartsWith(f, jsonFence);
    assert f[7..][1..] == (t + "\n") + "```";
    RemoveFenceAppend(t + "\n", "```", jsonFence);
    assert RemoveFence("```", jsonFence) == "```" by {
      assert !StartsWith("```", jsonFence);
      assert !StartsWith("``", jsonFence);
      assert !StartsWith("`", jsonFence);
    }
    RemoveFenceAppend(t + "\n", "```", "```");
    assert RemoveFence("```", "```") == [];
  }

  /** A reply that is an object's text in a `json` code block is parsed as exactly that text. */
  lemma JsonTextOfFenced(t: string)
    requires t != [] && t[0] == '{' && t[|t| - 1] == '}' && '`' !in t
    ensures JsonText(Fenced(t)) == t
  {
    TrimTrimmed(Fenced(t));
    StripFencesOfFenced(t);
    BraceSpanOfObject(t, "\n");
  }

  /** A reply that is an object's text alone is parsed as exactly that text. */
  lemma JsonTextOfObject(t: string)
    requires t != [] && t[0] == '{' && t[|t| - 1] == '}' && '`' !in t
    ensures JsonText(t) == t
  {
    TrimTrimmed(t);
    RemoveFenceNoBacktick(t, "```json");
    RemoveFenceNoBacktick(t, "```");
    BraceSpanOfObject(t, "");
    assert t + "" == t;
  }

  /** An object's text followed by text without `}` spans exactly the object. */
  lemma BraceSpanOfObject(t: string, tail: string)
    requires t != [] && t[0] == '{' && t[|t| - 1] == '}' && '}' !in tail
    ensures BraceSpan(t + tail) == Some(t)
  {
    var s := t + tail;
    BraceSpanShape(s);
    assert s[0] == '{' && s[|t| - 1] == '}';
    var open := FirstIndex(s, '{');
    var close := LastIndex(s, '}');
    NoneBefore(s, '{', open.value);
    NoneAfter(s, '}', close.value);
    assert forall k :: |t| <= k < |s| ==> s[k] == tail[k - |t|];
    assert tail == [] || tail[0] in tail;
    assert open.value == 0;
    assert close.value == |t| - 1;
    assert s[..|t|] == t;
  }

  /** The explanation part of an analysis. */
  datatype Explanation = Explanation(
    carbonFootprint: Json,
    recyclability: Json,
    toxicity: Json,
    durability: Json,
    certificationsFound: seq<Json>,
    greenwashingRisk: Json)

  /** The analysis object `parseGeminiResponse` returns. */
  datatype Analysis = Analysis(productLabel: Json, confidence: Json, summary: Json, explanation: Explanation)

  /** The fixed analysis returned when the reply cannot be used. */
  const ErrorAnalysis := Analysis(JStr("Moderate"), JNum(0), JStr("Error analyzing product"),
    Explanation(JStr("Analysis error"), JStr("Analysis error"), JStr("Analysis error"),
      JStr("Analysis error"), [], JStr("Analysis error")))

  /** `Array.isArray(v) ? v : []`. */
  function ListOrEmpty(v: Option<Json>): seq<Json> {
    if v.Some? && v.value.JArr? then v.value.items else []
  }

  /**
   * `parseGeminiResponse`: `parse` stands for `JSON.parse`, `None` where it throws. A
   * parsed value without a truthy `label` or `explanation` gives the error analysis, as
   * does a failed parse.
   */
  function ParseGeminiResponse(responseText: string, parse: string -> Option<Json>): Analysis {
    match parse(JsonText(responseText))
    case None => ErrorAnalysis
    case Some(parsed) =>
      if !Present(Get(parsed, "label")) || !Present(Get(parsed, "explanation")) then ErrorAnalysis
      else
        var e := Get(parsed, "explanation").value;
        Analysis(
          GetOr(parsed, "label", JStr("Moderate")),
          GetOr(parsed, "confidence", JNum(50)),
          GetOr(parsed, "summary", JStr("")),
          Explanation(
            GetOr(e, "carbon_footprint", Parser.NotAvailable),
            GetOr(e, "recyclability", Parser.NotAvailable),
            GetOr(e, "toxicity", Parser.NotAvailable),
            GetOr(e, "durability", Parser.NotAvailable),
            ListOrEmpty(Get(e, "certifications_found")),
            GetOr(e, "greenwashing_risk", Parser.NotAvailable)))
  }

  /** The parsed reply is usable: it has a truthy `label` and a truthy `explanation`. */
  predicate Usable(parsed: Option<Json>) {
    parsed.Some? && Present(Get(parsed.value, "label")) && Present(Get(parsed.value, "explanation"))
  }

  /**
   * The error analysis comes back exactly when the reply is unusable, since a usable
   * reply never has confidence 0 (a parsed 0 becomes 50). For a usable reply the label is
   * the parsed one, the confidence and summary fall back to 50 and `''`, each explanation
   * string to `Not available` and the certifications to `[]` unless they are an array.
   */
  lemma ParseGeminiResponseShape(responseText: string, parse: string -> Option<Json>)
    ensures var parsed := parse(JsonText(responseText));
      var r := ParseGeminiResponse(responseText, parse);
      (r == ErrorAnalysis <==> !Usable(parsed)) &&
      (r.confidence == JNum(0) <==> !Usable(parsed)) &&
      (Usable(parsed) ==>
        var p := parsed.value;
        var e := Get(p, "explanation").value;
        r.productLabel == Get(p, "label").value &&
        r.confidence == (if Present(Get(p, "confidence")) then Get(p, "confidence").value else JNum(50)) &&
        r.summary == (if Present(Get(p, "summary")) then Get(p, "summary").value else JStr("")) &&
        r.explanation.carbonFootprint == OrNotAvailable(Get(e, "carbon_footprint")) &&
        r.explanation.recyclability == OrNotAvailable(Get(e, "recyclability")) &&
        r.explanation.toxicity == OrNotAvailable(Get(e, "toxicity")) &&
        r.explanation.durability == OrNotAvailable(Get(e, "durability")) &&
        r.explanation.greenwashingRisk == OrNotAvailable(Get(e, "greenwashing_risk")) &&
        r.explanation.certificationsFound ==
          (match Get(e, "certifications_found") case Some(JArr(xs)) => xs case _ => []))
  {
  }

  /** The value shown for an explanation string: the parsed value when truthy, else `Not available`. */
  function OrNotAvailable(v: Option<Json>): Json {
    if Present(v) then v.value else Parser.NotAvailable
  }

  /** The analysis as the object the popup receives. */
  function ToJson(a: Analysis): Json {
    JObj([
      ("label", a.productLabel),
      ("confidence", a.confidence),
      ("summary", a.summary),
      ("explanation", JObj([
        ("carbon_footprint", a.explanation.carbonFootprint),
        ("recyclability", a.explanation.recyclability),
        ("toxicity", a.explanation.toxicity),
        ("durability", a.explanation.durability),
        ("certifications_found", JArr(a.explanation.certificationsFound)),
        ("greenwashing_risk", a.explanation.greenwashingRisk)]))])
  }

  /** An analysis with a truthy label passes `validateAnalysis` exactly when its confidence is a number. */
  lemma AnalysisValidates(a: Analysis)
    requires Truthy(a.productLabel)
    ensures Parser.ValidateAnalysis(Some(ToJson(a))) <==> a.confidence.JNum?
  {
    var fields := ToJson(a).fields;
    LookupLast(fields, "label", 0);
    LookupLast(fields, "confidence", 1);
    LookupLast(fields, "explanation", 3);
  }

  /**
   * What `parseGeminiResponse` returns passes `validateAnalysis` exactly when its
   * confidence is a number: always for the error analysis, and for a usable reply unless
   * it carries a truthy confidence that is not a number.
   */
  lemma ParsedAnalysisValidates(responseText: string, parse: string -> Option<Json>)
    ensures var r := ParseGeminiResponse(responseText, parse);
      (Parser.ValidateAnalysis(Some(ToJson(r))) <==> r.confidence.JNum?) &&
      (!Usable(parse(JsonText(responseText))) ==> Parser.ValidateAnalysis(Some(ToJson(r))))
  {
    AnalysisValidates(ParseGeminiResponse(responseText, parse));
  }
}

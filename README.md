# EcoCheck core, modelled in Dafny

EcoCheck is a browser extension that rates how environmentally friendly a product page is. Its core is:

- **The scraper.** It reads a product page into a raw record and renders that record as one cleaned text. The raw record holds the title, description, bullet points, ingredients, materials, packaging, certifications, sustainability notes and URL.
- **The Gemini client.** It checks the arguments of `analyzeProduct` and turns the model's reply text into an analysis object. That object has a label, a confidence, a summary and a six-field explanation.
- **The parser.** It formats that analysis for the popup.
- **The background service worker.** It validates the requests it receives, answers each analysis exactly once, and clears old analyses from storage.

The project models each of these in its own form.

The extractors and `cleanAndCombineText` are imperative. Each one is a Dafny `method` whose loops mirror the source's `for`/`forEach` loops, with their early exits and caps. Each method is proved equal to a specification function on the page. Separate lemmas prove what the source promises about that function: caps, no duplicates, trimmed entries, first match wins, longest text wins, and vocabulary order.

The parser and `parseGeminiResponse` are pure, so they are functions with lemmas.

The reply guard of the service worker is a class. Its `hasResponded` flag is a field that the timeout and promise callbacks update. `RunPending` plays any sequence of callback events against that class and proves that at most one reply is sent.

Modules:

- `Text`: JavaScript string helpers. These are `trim` with the `\s` set, ASCII lower-case, `startsWith`/`includes`, `join`, `substring` and `String(n)`.
- `JsonData`: the values `JSON.parse` yields, with truthiness, property reads and `String(v)`.
- `Dom`: a document as the result of `querySelectorAll` for each selector.
- `Patterns`: the keyword regular expressions, as the matches a backtracking engine finds.
- `Normalize`: the `replace` rewrites of `cleanAndCombineText`.
- `ScraperFields`, `ScraperSnippets`, `ScraperCertifications` and `Scraper`: the extractors and the assembly.
- `Parser`, `Api` and `Background`.

The page is a parameter of the scraper methods, and so is `window.location.href`. `JSON.parse` is a parameter of `parseGeminiResponse`: a function that returns `None` where the parse throws. `JSON.stringify(request.data).length` is a parameter of the message handler.

Where the code and the documented behaviour disagree, the model follows the code:

- Not every string field of the raw record is trimmed.
  - The joined ingredients, materials and notes are cut with `substring` after joining, so a cut can end in a space.
  - Packaging captures are trimmed, but an all-blank capture is kept as an empty entry, and duplicates are kept.
  - Material attribute values are kept untrimmed.
- The cleaned text is at most 5003 characters long, not 5000: the 5000 kept characters plus `...`.

The pure operations are Dafny functions. Their contracts are stated by lemmas, and the table below names those lemmas. Each function, the source lines it models, and the lemmas that state its contract:

- `Api.ParseGeminiResponse` (src/utils/api.js:113-166): `Api.ParseGeminiResponseShape`, `Api.ParsedAnalysisValidates`.
- `Api.AnalyzeProductGuard` (src/utils/api.js:49-56): `Api.AnalyzeProductGuardIff`.
- `Background.OnMessage` (src/background.js:12-114): `Background.OnMessageAnswersOnce`, `Background.AnalyzeProductRules`, `Background.SaveApiKeyRules`, `Background.PaddedKeyRefused`.
- `Background.KeysToRemove`, `Background.ClearRequest` and `Background.AfterClear` (src/background.js:158-185): `Background.ClearOldAnalysesShape`.
- `Parser.FormatLabel` (src/utils/parser.js:10-30): `Parser.FormatLabelAsWritten`, `Parser.FormatLabelEntries`, `Parser.FormatLabelAgreesOffInherited`.
- `Parser.FormatConfidence` (src/utils/parser.js:37-39): `Parser.FormatConfidenceRoundTrip`.
- `Parser.FormatBreakdown` (src/utils/parser.js:46-88): `Parser.FormatBreakdownShape`, `Parser.FormatBreakdownRoundTrip`.
- `Parser.ValidateAnalysis` (src/utils/parser.js:95-104): `Parser.ValidateAnalysisIff`, `Parser.ValidateAnalysisIgnoresRange`.
- `Patterns.FindSnippet` (src/utils/scraper.js:147-149): `Patterns.FindSnippetIsLeftmostMatch`, `Patterns.FindSnippetShape`.
- `Patterns.FindSentence` (src/utils/scraper.js:304-307): `Patterns.FindSentenceIsLeftmostMatch`, `Patterns.FindSentenceShape`.
- `Scraper.CleanText` (src/utils/scraper.js:346-358): `Scraper.CleanTextShape`.

## Model

| member | source | states |
|---|---|---|
| Dom.MatchedTextsTrimmed | src/utils/scraper.js:71-73 | every element text the description and bullet scans visit is already trimmed |
| ScraperFields.FirstMatchingText | src/utils/scraper.js:45-52 | the result is the trimmed text of the first match of the first selector whose first match has non-blank text, and `''` exactly when no selector has one |
| ScraperFields.ExtractTitle | src/utils/scraper.js:35-53 | the title is the first non-empty trimmed first match over the six title selectors, in their order |
| ScraperFields.LongestFromShape | src/utils/scraper.js:72-77 | the kept description never shortens and ends at least as long as every visited text; it is empty only when every visited text was empty; a new kept text is the first visited text of its length |
| ScraperFields.KeepLongest | src/utils/scraper.js:72-77 | the `forEach` over one selector's matches keeps exactly what the longest-text scan keeps |
| ScraperFields.LongestMatchedText | src/utils/scraper.js:68-78 | the selector loop yields the longest-text scan over all matches of all selectors, in order |
| ScraperFields.ExtractDescription | src/utils/scraper.js:58-92 | the description is the longest non-empty matched text, the earliest of equal length; when there is none, it is the trimmed text of a `P` right after the first `h1` |
| ScraperFields.BulletsFromShape | src/utils/scraper.js:110-116 | the bullet scan keeps entries distinct, adds only non-empty texts shorter than 200 characters, and leaves out none of them |
| ScraperFields.BulletsFromExtends | src/utils/scraper.js:113-114 | the bullet scan only appends |
| ScraperFields.AddBullets | src/utils/scraper.js:110-116 | the `forEach` over one selector's matches performs exactly the bullet scan |
| ScraperFields.StoppedScan | src/utils/scraper.js:119-122 | stopping once 10 bullets are held does not change the first 10 |
| ScraperFields.CollectBullets | src/utils/scraper.js:108-122 | the selector loop with its `break` returns the first 10 bullets of the full scan |
| ScraperFields.ExtractBulletPoints | src/utils/scraper.js:97-123 | the bullet points are the first 10 eligible distinct texts over the six bullet selectors |
| ScraperFields.BulletPointsShape | src/utils/scraper.js:97-123 | at most 10 bullets, each non-empty, trimmed, shorter than 200 characters, a matched text and listed once; fewer than 10 only when every eligible text is listed |
| ScraperFields.FirstBulletsShape | src/utils/scraper.js:108-122 | the first 10 texts the scan collects are distinct, eligible matched texts, and when fewer than 10 they include every eligible matched text |
| ScraperFields.BulletsFromOrder | src/utils/scraper.js:108-122 | the bullet scan keeps the order of the matched texts: bullet `k` is text `idx[k]` with `idx` strictly increasing, no earlier text equals it (it is the first occurrence), and every eligible text before it is one of the bullets before it; the bullet points are the first 10 of this scan |
| ScraperFields.BulletsFromAdded | src/utils/scraper.js:110-116 | the scan appends to what it holds exactly the texts it adds, at the positions `AddedAt` |
| ScraperFields.AddedAtIncreasing | src/utils/scraper.js:108-116 | the scan adds texts in the order it visits them |
| ScraperFields.AddedAfterEligible | src/utils/scraper.js:113-115 | every eligible text visited before an added one is held from the start or added before that one |
| Patterns.SnippetAtSome | src/utils/scraper.js:147-148 | a capture found at a position is a regex match there, with the latest split of `[\s:]+` and the longest `[^\n]{min,max}` |
| Patterns.FindSnippetIsLeftmostMatch | src/utils/scraper.js:147-148 | `text.match` of `kw[\s:]+([^\n]{min,max})` finds a capture exactly when the regex matches anywhere, and then it is the capture of the leftmost match |
| Patterns.FindSnippetShape | src/utils/scraper.js:147-149 | a captured snippet has no newline and between `min` and `max` characters |
| Patterns.FindSentenceIsLeftmostMatch | src/utils/scraper.js:304-305 | `[^.]*kw[^.]*\.` finds a sentence exactly when it matches, and then the leftmost match: it starts the text or follows a dot, and it holds the keyword and ends in its only dot |
| Patterns.FindSentenceShape | src/utils/scraper.js:304-307 | a found sentence holds exactly one dot, as its last character |
| ScraperSnippets.CaptureShape | src/utils/scraper.js:147-150 | a trimmed capture lies on one line, has at most `max` characters and is trimmed |
| ScraperSnippets.FreshCaptureIsFirst | src/utils/scraper.js:143-155 | for one keyword, the entry taken is the capture of the first element, in order, whose trimmed capture is non-empty and new |
| ScraperSnippets.SearchKeyword | src/utils/scraper.js:143-160 | the element loop, with its `continue` and `break`, yields that first fresh capture |
| ScraperSnippets.SnippetsFromShape | src/utils/scraper.js:140-161 | the keyword loop keeps entries distinct, only appends, adds at most one entry per keyword, never exceeds the cap, and adds only one-line trimmed captures of at most `max` characters |
| ScraperSnippets.CollectSnippets | src/utils/scraper.js:140-161 | the `forEach` over keywords, with its cap `return`, computes exactly the keyword-loop entries |
| ScraperSnippets.ExtractIngredients | src/utils/scraper.js:129-164 | the result is the ingredient entries joined by spaces, cut to 500 characters |
| ScraperSnippets.IngredientsShape | src/utils/scraper.js:129-164 | at most 3 distinct ingredient entries, each a trimmed one-line capture of at most 500 characters |
| ScraperSnippets.AttributeMaterialsShape | src/utils/scraper.js:204-212 | the attribute loop keeps entries distinct, adds at most one per element and only non-empty attribute values, and leaves none of those values out |
| ScraperSnippets.ExtractMaterials | src/utils/scraper.js:170-215 | the result is the material entries joined by spaces, cut to 500 characters |
| ScraperSnippets.MaterialsShape | src/utils/scraper.js:170-215 | at most 15 distinct entries: first up to 5 one-line keyword captures of at most 300 characters, then only non-empty attribute values of the first 10 attribute-carrying elements, every such value included |
| ScraperSnippets.PackagingShape | src/utils/scraper.js:224-230 | exactly one entry per keyword whose pattern matches the body text, in keyword order, no cap and no deduplication: entry `k` is the trimmed capture of keyword `idx[k]` with `idx` strictly increasing, every matching keyword is in `idx`, and each entry is a trimmed line of at most 300 characters |
| ScraperSnippets.PackagingFromEntries | src/utils/scraper.js:224-230 | the keyword loop appends to what it holds exactly the trimmed captures that are there, one per keyword, in keyword order |
| ScraperSnippets.PresentIndicesIncreasing | src/utils/scraper.js:224-230 | the keywords that contribute are taken in strictly increasing order |
| ScraperSnippets.PresentIndicesComplete | src/utils/scraper.js:224-230 | every keyword whose pattern matches contributes |
| ScraperSnippets.PackagingKeepsRepeats | src/utils/scraper.js:227-229 | two keywords whose captures trim to the same text give two equal entries: packaging does not deduplicate |
| ScraperSnippets.ExtractPackaging | src/utils/scraper.js:220-233 | the result is the packaging entries joined by spaces, with no cap |
| ScraperSnippets.FirstSentenceIsFirst | src/utils/scraper.js:300-313 | for one keyword, the sentence taken comes from the first element, in order, that has one |
| ScraperSnippets.TrimmedSentence | src/utils/scraper.js:307-309 | a trimmed sentence still ends with its only dot |
| ScraperSnippets.NotesFromShape | src/utils/scraper.js:297-318 | the keyword loop keeps notes distinct, only appends, adds at most one per keyword, never holds more than 3, and adds only trimmed sentences |
| ScraperSnippets.SearchSentence | src/utils/scraper.js:300-317 | the element loop with its `break` yields the first element's sentence |
| ScraperSnippets.ExtractSustainabilityNotes | src/utils/scraper.js:283-321 | the result is the notes joined by spaces, cut to 300 characters |
| ScraperSnippets.SustainabilityNotesShape | src/utils/scraper.js:283-321 | at most 3 distinct notes, each one trimmed sentence ending in its only dot |
| ScraperCertifications.FindCertifications | src/utils/scraper.js:270-276 | the vocabulary loop followed by `slice(0, 10)` yields the first 10 vocabulary entries found in the search text |
| ScraperCertifications.ExtractCertifications | src/utils/scraper.js:239-277 | the certifications are those of the fixed 21-entry vocabulary, over the first 50 searched elements |
| ScraperCertifications.CertificationsFromExtends | src/utils/scraper.js:270-274 | the vocabulary loop only appends |
| ScraperCertifications.CertificationsFromShape | src/utils/scraper.js:270-274 | the loop keeps entries distinct and adds exactly the entries whose lower-cased form occurs in the text |
| ScraperCertifications.CertificationsFromOrder | src/utils/scraper.js:270-274 | added entries follow vocabulary order |
| ScraperCertifications.CertificationsShape | src/utils/scraper.js:239-277 | at most 10 distinct certifications, each a vocabulary entry that occurs in the lower-cased search text, in vocabulary order; fewer than 10 only when every occurring entry is listed |
| Normalize.StripTags | src/utils/scraper.js:346 | removing tags adds no character |
| Normalize.StripTagsLeavesNoTag | src/utils/scraper.js:346 | after `/<[^>]*>/g` no `<` is followed by a `>` |
| Normalize.NoBlockWithoutTag | src/utils/scraper.js:349-350 | text with no `<` before a `>` holds no script or style block |
| Normalize.RemoveBlocksAfterStrip | src/utils/scraper.js:349-350 | once tags are stripped, the script and style removals change nothing |
| Normalize.Collapse | src/utils/scraper.js:353 | collapsing adds only spaces and keeps a non-blank first character |
| Normalize.CollapseShape | src/utils/scraper.js:353 | after `/\s+/g` no two white-space characters are adjacent, and collapsing creates no tag |
| Normalize.TrimShape | src/utils/scraper.js:353 | trimming keeps text tag-free and single-spaced and leaves no white space at either end |
| Normalize.Truncate | src/utils/scraper.js:356-358 | text within the cap is kept whole; longer text becomes its first cap characters and `...`, so at most cap + 3 characters |
| Normalize.TruncateShape | src/utils/scraper.js:356-358 | truncation keeps the text tag-free, single-spaced and trimmed |
| Scraper.PartsSnoc | src/utils/scraper.js:329-340 | rendering one more field appends that field's part |
| Scraper.PartsShape | src/utils/scraper.js:327-340 | one part per present field: as many parts as present fields, each the part of a present field, every present field's part included |
| Scraper.PartsOrder | src/utils/scraper.js:329-340 | the parts follow field order (Title, Description, Features, Ingredients, Materials, Packaging, Certifications found, Sustainability notes): the k-th part is that of the k-th present field, at strictly increasing field positions, and no present field is skipped |
| Scraper.PartPresentIff | src/utils/scraper.js:329-340 | a field's `Label: value` part is present exactly when the field is non-empty |
| Scraper.PartsFirst | src/utils/scraper.js:329 | a present first field gives the first part |
| Scraper.FieldsHaveDistinctInitials | src/utils/scraper.js:329-340 | the eight labels start with eight different letters, so no part is mistaken for another |
| Scraper.LabelledPartsShape | src/utils/scraper.js:327-343 | there are as many parts as non-empty fields; each field's part is present iff the field is non-empty; the title comes first and the sustainability notes last |
| Scraper.CleanTextShape | src/utils/scraper.js:346-358 | the cleaned text is trimmed, single-spaced and tag-free; it is the whole normalised text up to 5000 characters, else its first 5000 characters and `...` |
| Scraper.CleanAndCombineText | src/utils/scraper.js:326-361 | the `parts` loop and the rewrites compute the cleaned rendering of the labelled parts, joined by blank lines |
| Scraper.NothingFoundCleansToEmpty | src/utils/scraper.js:326-361 | a record with every field empty cleans to `''` |
| Scraper.ExtractAll | src/utils/scraper.js:11-21 | each field of the record is what its extractor finds on the page |
| Scraper.ScrapeProductData | src/utils/scraper.js:10-30 | `raw` is the extracted record; `cleanedText` is its cleaned rendering, at most 5003 characters long |
| Parser.FormatLabelAsWritten | src/utils/parser.js:10-30 | the written lookup returns an inherited `Object.prototype` member exactly when the label's string form is one of those names |
| Parser.ConstructorIsNotModerate | src/utils/parser.js:29 | the label `constructor` gets an inherited member, not the Moderate entry |
| Parser.FormatLabelEntries | src/utils/parser.js:11-29 | the three labels get their own entries; every other label, a missing one included, gets the Moderate entry |
| Parser.FormatLabelAgreesOffInherited | src/utils/parser.js:29 | off the inherited names, the corrected lookup equals the written one |
| Parser.IntToDecimalReadsBack | src/utils/parser.js:38 | `String(n)` reads back as `n` |
| Parser.FormatConfidenceRoundTrip | src/utils/parser.js:37-39 | the formatted confidence ends in `%` and reads back as the confidence |
| Parser.FormatBreakdownShape | src/utils/parser.js:46-88 | an explanation other than `undefined`/`null` gives six rows in fixed key order; each row holds the field when truthy, else `[]` for the certifications row (the only list row) and `Not available` for the others; `undefined`/`null` throws |
| Parser.FormatBreakdownRoundTrip | src/utils/parser.js:47-85 | with every field truthy, the row under each key returns exactly the explanation's field |
| Parser.ValidateAnalysisIff | src/utils/parser.js:95-104 | valid exactly when the analysis is an object with a truthy label, a numeric confidence and an explanation that is an object or array; range and vocabulary are not checked |
| Parser.ValidateAnalysisIgnoresRange | src/utils/parser.js:95-104 | every number passes as the confidence and every non-empty string as the label, beside an object explanation: neither the 0 to 100 range nor the label vocabulary is checked |
| Api.AnalyzeProductGuardIff | src/utils/api.js:50-56 | a request goes out exactly when the text is a string with a non-blank character and the key is truthy; a bad text is reported before a missing key; blank text is refused |
| Api.AllSpaceTrimsToEmpty | src/utils/api.js:50 | text made only of white space trims to `''` |
| Api.RemoveFenceNoBacktick | src/utils/api.js:119 | text without a backtick passes the fence removal unchanged |
| Api.RemoveFenceAppend | src/utils/api.js:119 | fence removal keeps a backtick-free prefix as it is |
| Api.StripFencesOfFenced | src/utils/api.js:119 | a ```` ```json ```` code block loses both fences, keeping its body and last line break |
| Api.BraceSpanShape | src/utils/api.js:122-125 | a span exists exactly when some `{` precedes some `}`; it then runs from the first `{` to the last `}` |
| Api.BraceSpanOfObject | src/utils/api.js:122-125 | an object's text followed by text without `}` spans exactly that object |
| Api.JsonTextOfFenced | src/utils/api.js:116-127 | an object's text inside a `json` code block is handed to `JSON.parse` exactly |
| Api.JsonTextOfObject | src/utils/api.js:116-127 | an object's text alone is handed to `JSON.parse` exactly |
| Api.ParseGeminiResponseShape | src/utils/api.js:113-166 | the error analysis comes back exactly when the parse fails or the label or explanation is falsy, and then confidence is 0; otherwise the parsed label is kept, confidence falls back to 50, summary to `''`, explanation strings to `Not available`, and certifications to `[]` unless they are an array |
| Api.AnalysisValidates | src/utils/api.js:135-149 | an analysis with a truthy label passes `validateAnalysis` exactly when its confidence is a number |
| Api.ParsedAnalysisValidates | src/utils/api.js:135-165 | every parsed analysis passes `validateAnalysis` exactly when its confidence is a number, and the error analysis always passes |
| Background.OnMessageAnswersOnce | src/background.js:12-114 | every request is either answered at once, with `false` returned, or kept open with work started; an unknown action gets neither |
| Background.AnalyzeProductRules | src/background.js:13-31 | analysis starts exactly when `data` and `data.cleanedText` are truthy and the size is at most 10240; missing data is reported before size |
| Background.SaveApiKeyRules | src/background.js:82-104 | a key is stored exactly when it is a string with a non-blank character and at most 500 characters before trimming; the stored key is the trimmed one |
| Background.PaddedKeyRefused | src/background.js:84-96 | a key padded with spaces past 500 characters is refused although its trimmed form would fit |
| Background.PendingAnalysis.constructor | src/background.js:34 | a request starts without a reply and with its timer set |
| Background.PendingAnalysis.OnTimeout | src/background.js:37-45 | the timeout sends its failure only if nothing was sent |
| Background.PendingAnalysis.OnSettled | src/background.js:48-64 | resolution or rejection clears the timer and sends its reply only if nothing was sent; a rejection without a truthy message sends `Unknown error in analysis` |
| Background.RunPending | src/background.js:34-67 | for any sequence of callback events, `sendResponse` is called at most once, with the reply of the first event |
| Background.ClearOldAnalysesShape | src/background.js:158-185 | the keys removed are exactly the `analysis_` keys plus a history array of more than one entry; `lastAnalysis` and every other key keep their values; no remove is issued when nothing is selected; a second clearing finds nothing |

## Left out

- Network I/O is not modelled: the `fetch` call of `analyzeProduct`, the Gemini request body, and the reading of the response envelope. Only the argument checks before the request are modelled.
- `chrome.storage` reads and writes are not modelled, and neither are `chrome.runtime.lastError` and the storage callbacks.
  - The `getApiKey`, `saveApiKey` and `clearOldAnalyses` actions are modelled up to the effect they start.
  - `clearOldAnalyses` is modelled up to the keys it asks storage to remove.
- `handleProductAnalysis` and `getStoredApiKey` are not modelled: they forward to storage and to `analyzeProduct`. An analysis's outcome is an event given to `RunPending`.
- `setTimeout` scheduling is not modelled: the 30-second delay is an event in the sequence. A timeout after `clearTimeout` is dropped, as a cleared timer never fires.
- CSS selector matching is not modelled. A document carries, for each selector, the elements `querySelectorAll` returns.
- `window.location.href` is a parameter.
- `JSON.parse` is a parameter: a partial function on text. `JSON.stringify(request.data).length` is also a parameter. Their internals are not modelled.
- JSON numbers are integers. Fractional confidences and the rounding `Math.round` does on them are not modelled, as they are floating point.
- Parser.FormatConfidenceRoundTrip: states the round trip for integer confidences only, because `Math.round` of a fraction is floating point.
- Case-insensitive matching and `toLowerCase` fold ASCII letters only. Non-ASCII keywords such as `orgánico` match only in the case written.
- String lengths count Unicode scalar values, not UTF-16 code units. Caps and size checks on text with astral characters can differ.
- A `try`/`catch` around `new RegExp` is not modelled: the keyword patterns are fixed and always compile.
- The popup and the content script are not part of this model, apart from the helper functions above that the popup calls.

## Findings

| source | as written | input that shows it | evidently intended | confidence | as-written member | corrected member |
|---|---|---|---|---|---|---|
| src/utils/parser.js:29 | `labels[label] \|\| labels['Moderate']` reads the label from an object literal, so inherited `Object.prototype` members are found too. They are truthy functions (or an object for `__proto__`), and one of them is returned instead of the Moderate entry. | the label `"constructor"`, or `"toString"` or `"__proto__"`, from the model's free-text reply | any label other than the three known ones gets the Moderate entry | not executed | Parser.ConstructorIsNotModerate | Parser.FormatLabelEntries |

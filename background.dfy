/**
 * The service worker's request rules: what the `onMessage` handler answers at
 * once, what it starts, the at-most-once reply of an analysis racing its
 * timeout, and the keys `clearOldAnalyses` removes from local storage.
 */
module Background {
  import opened Wrappers
  import opened Text
  import opened JsonData

  /** Largest accepted `JSON.stringify(request.data).length`. */
  const MaxDataSize := 10240
  /** Largest accepted API key length, before trimming. */
  const MaxApiKeyLength := 500

  /** A message passed to `sendResponse`. */
  datatype Reply =
    | Failure(error: Json)   // { success: false, error }
    | Success(data: Json)    // { success: true, data }

  /** The asynchronous work a request starts; its reply comes later. */
  datatype Effect =
    | NoEffect
    | StartAnalysis(data: Json)     // handleProductAnalysis(request.data)
    | ReadApiKey                    // chrome.storage.sync.get
    | StoreApiKey(key: string)      // chrome.storage.sync.set({ geminiApiKey: key })
    | ClearAnalyses                 // clearOldAnalyses()

  /** What one call of the handler does: its immediate reply, its return value and what it starts. */
  datatype Outcome = Outcome(reply: Option<Reply>, keepOpen: bool, effect: Effect)

  /** `request.action === name`. */
  predicate ActionIs(request: Json, name: string) {
    Get(request, "action") == Some(JStr(name))
  }

  /**
   * The `onMessage` handler. `dataSize` stands for `JSON.stringify(request.data).length`;
   * it is only consulted once the data has passed its first check.
   */
  function OnMessage(request: Json, dataSize: nat): Outcome {
    if ActionIs(request, "analyzeProduct") then
      var data := Get(request, "data");
      if !Present(data) || !Present(Get(data.value, "cleanedText")) then
        Outcome(Some(Failure(JStr("Invalid product data"))), false, NoEffect)
      else if dataSize > MaxDataSize then
        Outcome(Some(Failure(JStr("Product data is too large"))), false, NoEffect)
      else
        Outcome(None, true, StartAnalysis(data.value))
    else if ActionIs(request, "getApiKey") then
      Outcome(None, true, ReadApiKey)
    else if ActionIs(request, "saveApiKey") then
      var key := Get(request, "apiKey");
      if !Present(key) || !key.value.JStr? || Trim(key.value.s) == "" then
        Outcome(Some(Failure(JStr("Invalid API key"))), false, NoEffect)
      else if |key.value.s| > MaxApiKeyLength then
        Outcome(Some(Failure(JStr("API key too long"))), false, NoEffect)
      else
        Outcome(None, true, StoreApiKey(Trim(key.value.s)))
    else if ActionIs(request, "clearOldAnalyses") then
      Outcome(None, true, ClearAnalyses)
    else
      Outcome(None, false, NoEffect)
  }

  /** The four actions the handler knows. */
  predicate KnownAction(request: Json) {
    ActionIs(request, "analyzeProduct") || ActionIs(request, "getApiKey") ||
    ActionIs(request, "saveApiKey") || ActionIs(request, "clearOldAnalyses")
  }

  /**
   * Every call either answers at once and returns `false`, or answers later and returns
   * `true` with work started; an unknown action gets neither an answer nor work, and the
   * handler returns `false`.
   */
  lemma OnMessageAnswersOnce(request: Json, dataSize: nat)
    ensures var r := OnMessage(request, dataSize);
      (r.reply.Some? ==> !r.keepOpen && r.effect == NoEffect) &&
      (r.keepOpen <==> r.reply.None? && r.effect != NoEffect) &&
      (!KnownAction(request) <==> r.reply.None? && !r.keepOpen)
  {
  }

  /**
   * An analysis starts exactly when the request has truthy data with a truthy
   * `cleanedText` and a serialised size of at most 10240; missing data is reported
   * before size, whatever the size.
   */
  lemma AnalyzeProductRules(request: Json, dataSize: nat)
    requires ActionIs(request, "analyzeProduct")
    ensures var r := OnMessage(request, dataSize);
      var data := Get(request, "data");
      var valid := Present(data) && Present(Get(data.value, "cleanedText"));
      (r.effect.StartAnalysis? <==> valid && dataSize <= MaxDataSize) &&
      (r.effect.StartAnalysis? ==> r.effect.data == data.value) &&
      (!valid ==> r.reply == Some(Failure(JStr("Invalid product data")))) &&
      (valid && dataSize > MaxDataSize ==> r.reply == Some(Failure(JStr("Product data is too large"))))
  {
  }

  /**
   * A key is stored exactly when it is a string with a non-white-space character and at
   * most 500 characters before trimming; what is stored is the trimmed key, non-empty,
   * at most 500 characters and without white space at either end.
   */
  lemma SaveApiKeyRules(request: Json, dataSize: nat)
    requires ActionIs(request, "saveApiKey")
    ensures var r := OnMessage(request, dataSize);
      var key := Get(request, "apiKey");
      (r.effect.StoreApiKey? <==>
        key.Some? && key.value.JStr? && Trim(key.value.s) != "" && |key.value.s| <= MaxApiKeyLength) &&
      (r.effect.StoreApiKey? ==>
        r.effect.key == Trim(key.value.s) && r.effect.key != "" &&
        |r.effect.key| <= MaxApiKeyLength && Trim(r.effect.key) == r.effect.key) &&
      (key.Some? && key.value.JStr? && Trim(key.value.s) != "" && |key.value.s| > MaxApiKeyLength ==>
        r.reply == Some(Failure(JStr("API key too long"))))
  {
    var r := OnMessage(request, dataSize);
    if r.effect.StoreApiKey? {
      TrimIdempotent(Get(request, "apiKey").value.s);
    }
  }

  /**
   * A key padded with spaces past 500 characters is refused as too long although its
   * trimmed form, the one that would be stored, has at most 500 characters.
   */
  lemma PaddedKeyRefused(key: string, padding: string)
    requires key != "" && |key| <= MaxApiKeyLength && !IsSpace(key[|key| - 1])
    requires |padding| + |key| > MaxApiKeyLength
    requires forall i :: 0 <= i < |padding| ==> padding[i] == ' '
    ensures var request := JObj([("action", JStr("saveApiKey")), ("apiKey", JStr(padding + key))]);
      OnMessage(request, 0).reply == Some(Failure(JStr("API key too long"))) &&
      Trim(padding + key) != "" && |Trim(padding + key)| <= MaxApiKeyLength
  {
    var request := JObj([("action", JStr("saveApiKey")), ("apiKey", JStr(padding + key))]);
    LookupLast(request.fields, "action", 0);
    LookupLast(request.fields, "apiKey", 1);
    var s := padding + key;
    assert s[|s| - 1] == key[|key| - 1];
    TrimKeepsLast(s);
    var k := TrimIsSlice(s);
    assert !IsSpace(s[k]) by { assert Trim(s)[0] == s[k]; }
    assert k >= |padding|;
  }

  /** What settles a pending analysis: its timeout, or the analysis promise. */
  datatype Event =
    | Timeout
    | Resolved(result: Json)
    | Rejected(message: Option<Json>)

  /** The message an event's callback sends when it is the first to respond. */
  function ReplyFor(e: Event): Reply {
    match e
    case Timeout => Failure(JStr("Timeout: Analysis took too long"))
    case Resolved(result) => Success(result)
    case Rejected(message) =>
      Failure(if Present(message) then message.value else JStr("Unknown error in analysis"))
  }

  /**
   * The state an `analyzeProduct` request shares between its timeout and the analysis
   * callbacks: the `hasResponded` flag, whether the timer was cleared, and the replies
   * passed to `sendResponse` so far.
   */
  class PendingAnalysis {
    var hasResponded: bool
    var timerCleared: bool
    var sent: seq<Reply>

    /** At most one reply, and exactly one once the flag is set. */
    predicate Valid()
      reads this
    {
      |sent| <= 1 && (hasResponded <==> |sent| == 1)
    }

    constructor()
      ensures Valid() && !hasResponded && !timerCleared && sent == []
    {
      hasResponded := false;
      timerCleared := false;
      sent := [];
    }

    /** The timeout callback; it runs only while the timer is still set. */
    method OnTimeout()
      requires Valid() && !timerCleared
      modifies this
      ensures Valid() && timerCleared == old(timerCleared) && hasResponded
      ensures sent == if old(hasResponded) then old(sent) else [ReplyFor(Timeout)]
    {
      if !hasResponded {
        hasResponded := true;
        sent := sent + [ReplyFor(Timeout)];
      }
    }

    /** The `then` and `catch` callbacks: clear the timer, then respond unless already done. */
    method OnSettled(e: Event)
      requires Valid() && !e.Timeout?
      modifies this
      ensures Valid() && timerCleared && hasResponded
      ensures sent == if old(hasResponded) then old(sent) else [ReplyFor(e)]
    {
      timerCleared := true;
      if !hasResponded {
        hasResponded := true;
        sent := sent + [ReplyFor(e)];
      }
    }
  }

  /**
   * Runs the callbacks of one request in the order their events arrive; a timeout that
   * arrives after the timer was cleared does not run. Whatever the interleaving,
   * `sendResponse` is called at most once, with the reply of the first event.
   */
  method RunPending(events: seq<Event>) returns (sent: seq<Reply>)
    ensures |sent| <= 1
    ensures sent == if events == [] then [] else [ReplyFor(events[0])]
  {
    var pending := new PendingAnalysis();
    for i := 0 to |events|
      invariant pending.Valid()
      invariant pending.sent == if i == 0 then [] else [ReplyFor(events[0])]
      invariant pending.hasResponded <==> i > 0
      invariant i == 0 ==> !pending.timerCleared
    {
      match events[i]
      case Timeout =>
        if !pending.timerCleared {
          pending.OnTimeout();
        }
      case _ =>
        pending.OnSettled(events[i]);
    }
    sent := pending.sent;
  }

  /** A stored item is stale when its key has the per-analysis prefix, or when it is the history and holds an array of more than one entry. */
  predicate Stale(key: string, value: Json) {
    StartsWith(key, "analysis_") ||
    (key == "analysisHistory" && value.JArr? && |value.items| > 1)
  }

  /** The keys `clearOldAnalyses` selects from the stored items. */
  function KeysToRemove(items: map<string, Json>): set<string> {
    set key | key in items && Stale(key, items[key])
  }

  /** What `clearOldAnalyses` asks of storage: nothing when no key is selected. */
  function ClearRequest(items: map<string, Json>): Option<set<string>> {
    var keys := KeysToRemove(items);
    if keys == {} then None else Some(keys)
  }

  /** Local storage after a successful `clearOldAnalyses`. */
  function AfterClear(items: map<string, Json>): map<string, Json> {
    match ClearRequest(items)
    case None => items
    case Some(keys) => items - keys
  }

  /**
   * The removed keys are exactly the stored `analysis_` keys and a history array of more
   * than one entry; `lastAnalysis` and every other key stay with their values, and a
   * second clearing finds nothing to remove.
   */
  lemma ClearOldAnalysesShape(items: map<string, Json>)
    ensures var after := AfterClear(items);
      (forall key :: key in KeysToRemove(items) <==> key in items && Stale(key, items[key])) &&
      "lastAnalysis" !in KeysToRemove(items) &&
      (ClearRequest(items).None? <==> forall key :: key in items ==> !Stale(key, items[key])) &&
      (forall key :: key in after <==> key in items && !Stale(key, items[key])) &&
      (forall key :: key in after ==> after[key] == items[key]) &&
      KeysToRemove(after) == {}
  {
    assert !StartsWith("lastAnalysis", "analysis_") by {
      assert "lastAnalysis"[..9][0] == 'l';
    }
    if ClearRequest(items).None? {
      forall key | key in items ensures !Stale(key, items[key]) {
        assert key !in KeysToRemove(items);
      }
    }
  }
}

/** The retry loop of `extractTextWithGemini` and `getReadableErrorMessage` of the
    OCR background script.

    The network is not modelled: each attempt's response is given as an `Attempt`
    value, and the loop is a method over the sequence of those responses. */
module VisionRetry {
  import opened Wrappers
  import opened JsString

  /** `MAX_RETRIES`: one retry, so at most two attempts. */
  const MaxRetries: nat := 1

  const TimeoutMessage: string := "APIリクエストがタイムアウトしました"
  const NoTextMessage: string := "テキストを抽出できませんでした"
  const TemporaryTag: string := "一時的なAPI制限"
  const TemporaryPrefix: string := "一時的なAPI制限: "
  const ApiErrorPrefix: string := "API エラー: "
  const MissingKeyMessage: string := "APIキーが設定されていません"

  /** What one attempt's `fetch` came back with. `HttpFailed` carries the status of a
      response that is not `ok` and the message taken from its JSON body; `Answered`
      carries `candidates[0].content.parts[0].text`, empty when that path is absent. */
  datatype Attempt =
    | TimedOut
    | FetchFailed(message: string)
    | HttpFailed(status: int, message: string)
    | Answered(text: string)

  /** The wording an overloaded or throttled server uses. */
  predicate ServerBusyText(m: string) {
    Contains(m, "overloaded") || Contains(m, "rate limit") || Contains(m, "server error") || Contains(m, "try again")
  }

  /** The condition under which a failed response is rethrown as a temporary limit. */
  predicate TemporaryResponse(status: int, m: string) {
    ServerBusyText(m) || status == 429 || status >= 500
  }

  /** `isTemporaryError` of the `catch` block, on the error's message. */
  predicate IsTemporary(m: string) {
    || Contains(m, TemporaryTag) || Contains(m, "overloaded") || Contains(m, "rate limit")
    || Contains(m, "timeout") || Contains(m, "タイムアウト")
  }

  /** The body of the `try` block for one attempt: the extracted text, or the error
      it throws. */
  function AttemptResult(a: Attempt): (r: Result<string, string>)
    ensures r.Ok? <==> a.Answered? && a.text != []
    ensures r.Ok? ==> r.value == a.text
    ensures a.HttpFailed? ==> StartsWith(r.error, TemporaryPrefix) || StartsWith(r.error, ApiErrorPrefix)
  {
    match a
    case TimedOut => Err(TimeoutMessage)
    case FetchFailed(m) => Err(m)
    case HttpFailed(status, m) =>
      if TemporaryResponse(status, m) then Err(TemporaryPrefix + m) else Err(ApiErrorPrefix + m)
    case Answered(t) => if t == [] then Err(NoTextMessage) else Ok(t)
  }

  /** An attempt whose failure the loop retries when it has a retry left. */
  predicate Retryable(a: Attempt) {
    AttemptResult(a).Err? && IsTemporary(AttemptResult(a).error)
  }

  function Pow(b: real, n: nat): real {
    if n == 0 then 1.0 else b * Pow(b, n - 1)
  }

  /** `retryDelay` after the counter has been incremented to `attempt`. */
  function RetryDelay(attempt: nat): real
    requires attempt >= 1
  {
    1000.0 * Pow(1.5, attempt - 1)
  }

  /** The retry loop. `made` is the number of attempts sent and `delays` the waits
      between them. At most two attempts are made; only a temporary failure is
      retried; any other error, and the error of the last attempt, is rethrown as is.
      Because the counter is incremented before the delay is computed, the one
      retry always waits 1000 ms, and the throw after the loop cannot be reached. */
  method ExtractText(answers: seq<Attempt>) returns (r: Result<string, string>, made: nat, delays: seq<real>)
    requires |answers| > MaxRetries
    ensures 1 <= made <= MaxRetries + 1
    ensures r == AttemptResult(answers[made - 1])
    ensures forall i :: 0 <= i < made - 1 ==> Retryable(answers[i])
    ensures made <= MaxRetries ==> !Retryable(answers[made - 1])
    ensures |delays| == made - 1 && forall i :: 0 <= i < |delays| ==> delays[i] == 1000.0
  {
    var attempt: nat := 0;
    r, made, delays := Err(NoTextMessage), 1, [];
    while attempt <= MaxRetries
      invariant attempt <= MaxRetries
      invariant |delays| == attempt
      invariant forall i :: 0 <= i < attempt ==> Retryable(answers[i]) && delays[i] == 1000.0
      decreases MaxRetries - attempt
    {
      var outcome := AttemptResult(answers[attempt]);
      if outcome.Ok? {
        r, made := outcome, attempt + 1;
        return;
      }
      if IsTemporary(outcome.error) && attempt < MaxRetries {
        attempt := attempt + 1;
        delays := delays + [RetryDelay(attempt)];
        continue;
      }
      r, made := outcome, attempt + 1;
      return;
    }
    assert false;
  }

  /** The delay formula itself grows by half each retry; with one retry only its
      first term is ever used. */
  lemma {:induction false} RetryDelayGrows(attempt: nat)
    requires attempt >= 1
    ensures RetryDelay(attempt + 1) == 1.5 * RetryDelay(attempt)
    ensures RetryDelay(1) == 1000.0
  {
  }

  lemma {:induction false} TagStartsTemporary(m: string)
    ensures Contains(TemporaryPrefix + m, TemporaryTag)
  {
    assert (TemporaryPrefix + m)[0..][..|TemporaryTag|] == TemporaryTag;
    ContainsAt(TemporaryPrefix + m, TemporaryTag, 0);
  }

  /** A 429, a 5xx, or a response that says the server is busy is retried. */
  lemma {:induction false} BusyResponseRetried(status: int, m: string)
    requires TemporaryResponse(status, m)
    ensures Retryable(HttpFailed(status, m))
  {
    TagStartsTemporary(m);
  }

  lemma {:induction false} TimeoutContainsWord(s: string)
    requires s == TimeoutMessage
    ensures Contains(s, "タイムアウト")
  {
    assert s[9..][..6] == "タイムアウト";
    ContainsAt(s, "タイムアウト", 9);
  }

  /** The request timing out is retried. */
  lemma {:induction false} TimeoutRetried()
    ensures Retryable(TimedOut)
  {
    TimeoutContainsWord(TimeoutMessage);
  }

  /** A client error whose message names no temporary condition is rethrown at once,
      as `API エラー: …`. */
  lemma {:induction false} ClientErrorNotRetried(status: int, m: string)
    requires status != 429 && status < 500 && !ServerBusyText(m)
    requires !Contains(m, TemporaryTag) && !Contains(m, "timeout") && !Contains(m, "タイムアウト")
    ensures AttemptResult(HttpFailed(status, m)) == Err(ApiErrorPrefix + m)
    ensures !Retryable(HttpFailed(status, m))
  {
    ContainsAfterPrefix(ApiErrorPrefix, m, TemporaryTag);
    ContainsAfterPrefix(ApiErrorPrefix, m, "overloaded");
    ContainsAfterPrefix(ApiErrorPrefix, m, "rate limit");
    ContainsAfterPrefix(ApiErrorPrefix, m, "timeout");
    ContainsAfterPrefix(ApiErrorPrefix, m, "タイムアウト");
  }

  /** A client error whose message mentions a timeout is nonetheless retried, since
      the `catch` block looks at the wording only. */
  lemma {:induction false} ClientTimeoutWordRetried(status: int, m: string)
    requires status != 429 && status < 500 && !ServerBusyText(m) && Contains(m, "timeout")
    ensures Retryable(HttpFailed(status, m))
  {
    ContainsAppended(ApiErrorPrefix, m, "timeout");
  }

  /** The advice both throttling messages end with. */
  const WaitAndRetry: string := "しばらく待ってから再試行してください。"
  const BusyMessage: string := "Google Gemini APIが混雑しています。" + WaitAndRetry
  const RateLimitMessage: string := "APIの利用制限に達しました。" + WaitAndRetry
  const InvalidKeyMessage: string := "APIキーが無効です。" + "設定から正しいGemini APIキーを入力してください。"
  const NetworkMessage: string := "ネットワークエラーが発生しました。" + "インターネット接続を確認してください。"
  const NoErrorMessage: string := "エラーが発生しました"
  const GenericPrefix: string := "エラー: "

  /** `error.message || error.toString()` for an `Error`: an empty message shows as
      the class name. */
  function Shown(m: string): string {
    if m == [] then "Error" else m
  }

  predicate BusyWords(m: string) { Contains(m, "overloaded") || Contains(m, TemporaryTag) }
  predicate KeyWords(m: string) { Contains(m, "invalid API key") || Contains(m, MissingKeyMessage) }
  predicate NetworkWords(m: string) { Contains(m, "network") || Contains(m, "timeout") }

  lemma {:induction false} ReadableMessagesDistinct()
    ensures !StartsWith(BusyMessage, GenericPrefix) && !StartsWith(RateLimitMessage, GenericPrefix)
    ensures !StartsWith(InvalidKeyMessage, GenericPrefix) && !StartsWith(NetworkMessage, GenericPrefix)
  {
    assert GenericPrefix[0] == 'エ';
    assert BusyMessage[0] == 'G';
    assert RateLimitMessage[0] == 'A';
    assert InvalidKeyMessage[0] == 'A';
    assert NetworkMessage[0] == 'ネ';
  }

  /** `getReadableErrorMessage(error)`, with `None` for a missing error. The checks
      are made in a fixed order, so a message matching several groups gets the
      earliest one, and only a message matching none is shown after `エラー: `. */
  function ReadableError(e: Option<string>): (r: string)
    ensures e.None? ==> r == NoErrorMessage
    ensures e.Some? && BusyWords(Shown(e.value)) ==> r == BusyMessage
    ensures e.Some? && !BusyWords(Shown(e.value)) && Contains(Shown(e.value), "rate limit") ==> r == RateLimitMessage
    ensures e.Some? ==> (StartsWith(r, GenericPrefix) <==>
      !BusyWords(Shown(e.value)) && !Contains(Shown(e.value), "rate limit")
      && !KeyWords(Shown(e.value)) && !NetworkWords(Shown(e.value)))
  {
    ReadableMessagesDistinct();
    match e
    case None => NoErrorMessage
    case Some(raw) =>
      var m := Shown(raw);
      if BusyWords(m) then BusyMessage
      else if Contains(m, "rate limit") then RateLimitMessage
      else if KeyWords(m) then InvalidKeyMessage
      else if NetworkWords(m) then NetworkMessage
      else GenericPrefix + m
  }

  /** Every failure the loop retried because the server reported a temporary limit
      reads as "the API is busy" when it finally surfaces. */
  lemma {:induction false} BusyResponseReadsBusy(status: int, m: string)
    requires TemporaryResponse(status, m)
    ensures ReadableError(Some(AttemptResult(HttpFailed(status, m)).error)) == BusyMessage
  {
    TagStartsTemporary(m);
  }

  /** A message made of none of the characters that open the words looked for, and
      with no `キ`, is shown verbatim. */
  lemma {:induction false} PlainMessageReadsGeneric(s: string)
    requires s != [] && 'o' !in s && '一' !in s && 'r' !in s && 'i' !in s && 'キ' !in s
    requires 'n' !in s && 't' !in s
    ensures ReadableError(Some(s)) == GenericPrefix + s
  {
    NotContainsChar(s, "overloaded", 0);
    NotContainsChar(s, TemporaryTag, 0);
    NotContainsChar(s, "rate limit", 0);
    NotContainsChar(s, "invalid API key", 0);
    NotContainsChar(s, MissingKeyMessage, 3);
    NotContainsChar(s, "network", 0);
    NotContainsChar(s, "timeout", 0);
  }

  /** The loop's own timeout error is worded in Japanese, so it does not reach the
      network branch, which looks for the English `timeout`: it is shown verbatim. */
  lemma {:induction false} TimeoutReadsGeneric()
    ensures ReadableError(Some(TimeoutMessage)) == GenericPrefix + TimeoutMessage
  {
    PlainMessageReadsGeneric(TimeoutMessage);
  }

  /** A message that holds the missing-key wording but none of the characters that
      open the earlier groups' words reads as an invalid key. */
  lemma {:induction false} KeyMessageReads(s: string)
    requires Contains(s, MissingKeyMessage) && 'o' !in s && '一' !in s && 'r' !in s
    ensures ReadableError(Some(s)) == InvalidKeyMessage
  {
    NotContainsChar(s, "overloaded", 0);
    NotContainsChar(s, TemporaryTag, 0);
    NotContainsChar(s, "rate limit", 0);
  }

  /** The missing-key error reads as an invalid key. */
  lemma {:induction false} MissingKeyReads()
    ensures ReadableError(Some(MissingKeyMessage)) == InvalidKeyMessage
  {
    ContainsSelf(MissingKeyMessage);
    KeyMessageReads(MissingKeyMessage);
  }
}

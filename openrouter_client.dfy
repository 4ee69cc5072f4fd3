/**
 * The OpenRouter client: the API-key check, the retry loop of
 * `_try_model_with_retry` over the HTTP exchanges of its attempts (given as
 * values), the check of the decoded JSON response's shape, and the error that
 * `generate_review` finally raises.
 */
module OpenRouterClient {
  import opened Wrappers
  import opened Text
  import opened Config

  // ---------------------------------------------------------------------------
  // `OpenRouterClient.__init__`
  // ---------------------------------------------------------------------------

  const KEY_UNSET_ERROR: string := "OPENROUTER_API_KEY not set"
  const BASE_URL: string := "https://openrouter.ai/api/v1"

  /** The client's state: the key, the endpoint and the `Authorization` header. */
  datatype Client = Client(apiKey: string, baseUrl: string, authorization: string)

  /** `OpenRouterClient(api_key)`, with `None` for an unset key; an empty key is refused like a missing one. */
  function NewClient(apiKey: Option<string>): (r: Result<Client>)
    ensures r.Err? <==> !IsSet(apiKey)
    ensures r.Err? ==> r.message == KEY_UNSET_ERROR
    ensures r.Ok? ==> r.value.apiKey == apiKey.value && r.value.baseUrl == BASE_URL
    ensures r.Ok? ==> r.value.authorization == "Bearer " + apiKey.value
  {
    if !IsSet(apiKey) then Err(KEY_UNSET_ERROR)
    else Ok(Client(apiKey.value, BASE_URL, "Bearer " + apiKey.value))
  }

  // ---------------------------------------------------------------------------
  // Decoded JSON values, as Python holds them
  // ---------------------------------------------------------------------------

  /** The value `response.json()` returns. Objects keep their entries in order; floating-point numbers are not modelled. */
  datatype Json =
    | JNull
    | JBool(b: bool)
    | JInt(i: int)
    | JString(s: string)
    | JArray(items: seq<Json>)
    | JObject(fields: seq<(string, Json)>)

  /** `type(v).__name__` */
  function TypeName(v: Json): string {
    match v
    case JNull => "NoneType"
    case JBool(_) => "bool"
    case JInt(_) => "int"
    case JString(_) => "str"
    case JArray(_) => "list"
    case JObject(_) => "dict"
  }

  /** Python's truth test on a value. */
  predicate Truthy(v: Json) {
    match v
    case JNull => false
    case JBool(b) => b
    case JInt(i) => i != 0
    case JString(s) => s != ""
    case JArray(items) => items != []
    case JObject(fields) => fields != []
  }

  /** `d.get(key)` on a dictionary's entries. */
  function Get(fields: seq<(string, Json)>, key: string): Option<Json>
    decreases |fields|
  {
    if fields == [] then None
    else if fields[0].0 == key then Some(fields[0].1)
    else Get(fields[1..], key)
  }

  /** `d.get(key, default)` */
  function GetOr(fields: seq<(string, Json)>, key: string, default: Json): Json {
    match Get(fields, key)
    case Some(v) => v
    case None => default
  }

  /** `get` finds the first entry for the key, and nothing when there is none. */
  lemma {:induction false} GetSpec(fields: seq<(string, Json)>, key: string)
    ensures Get(fields, key).None? <==> forall i :: 0 <= i < |fields| ==> fields[i].0 != key
    ensures Get(fields, key).Some? ==>
      exists i :: 0 <= i < |fields| && fields[i] == (key, Get(fields, key).value)
        && forall j :: 0 <= j < i ==> fields[j].0 != key
    decreases |fields|
  {
    if fields != [] && fields[0].0 != key {
      GetSpec(fields[1..], key);
      var tail := fields[1..];
      if Get(tail, key).Some? {
        var i :| 0 <= i < |tail| && tail[i] == (key, Get(tail, key).value)
          && forall j :: 0 <= j < i ==> tail[j].0 != key;
        assert fields[i + 1] == tail[i];
        assert forall j :: 0 <= j < i + 1 ==> fields[j].0 != key by {
          forall j | 0 <= j < i + 1 ensures fields[j].0 != key {
            if j > 0 {
              assert fields[j] == tail[j - 1];
            }
          }
        }
      } else {
        forall i | 0 <= i < |fields| ensures fields[i].0 != key {
          if i > 0 {
            assert fields[i] == tail[i - 1];
          }
        }
      }
    }
  }

  /** Entries in front are looked up first. */
  lemma {:induction false} GetAppend(front: seq<(string, Json)>, back: seq<(string, Json)>, key: string)
    ensures Get(front + back, key) == if Get(front, key).Some? then Get(front, key) else Get(back, key)
    decreases |front|
  {
    if front == [] {
      assert front + back == back;
    } else {
      assert (front + back)[0] == front[0] && (front + back)[1..] == front[1..] + back;
      GetAppend(front[1..], back, key);
    }
  }

  /** `str(i)` for an integer. */
  function IntToString(i: int): string {
    if i < 0 then "-" + NatToString(-i) else NatToString(i)
  }

  /** `repr(v)`; strings are quoted with single quotes and not escaped. */
  function Repr(v: Json): string
    decreases v
  {
    match v
    case JNull => "None"
    case JBool(b) => if b then "True" else "False"
    case JInt(i) => IntToString(i)
    case JString(s) => "'" + s + "'"
    case JArray(items) =>
      "[" + Join(seq(|items|, k requires 0 <= k < |items| => Repr(items[k])), ", ") + "]"
    case JObject(fields) =>
      "{" + Join(seq(|fields|, k requires 0 <= k < |fields| => "'" + fields[k].0 + "': " + Repr(fields[k].1)), ", ") + "}"
  }

  /** `str(v)`: a string is itself, any other value its `repr`. */
  function Render(v: Json): string {
    if v.JString? then v.s else Repr(v)
  }

  // ---------------------------------------------------------------------------
  // The response check of `_try_model_with_retry`
  // ---------------------------------------------------------------------------

  /** What the check of a decoded `200` response leads to: the content, `None`, or the message of the error raised. */
  datatype Interpretation = Content(value: Json) | NoContent | Invalid(message: string)

  const UNEXPECTED_ERROR: string := "Unexpected error: "

  /** The message of an `"error"` entry: a dictionary's `"message"`, a list's items joined by "; ", or the value itself. */
  function ErrorText(errorData: Json): string {
    match errorData
    case JObject(fields) => (match Get(fields, "message") case Some(m) => Render(m) case None => Render(errorData))
    case JArray(items) => Join(seq(|items|, k requires 0 <= k < |items| => Render(items[k])), "; ")
    case _ => Render(errorData)
  }

  /** The values `len` accepts. */
  predicate HasLength(v: Json) {
    v.JString? || v.JArray? || v.JObject?
  }

  function Length(v: Json): nat
    requires HasLength(v)
  {
    match v
    case JString(s) => |s|
    case JArray(items) => |items|
    case JObject(fields) => |fields|
  }

  /** The `TypeError` message of `len` on a value without a length. */
  function NoLength(v: Json): string {
    "object of type '" + TypeName(v) + "' has no len()"
  }

  /** `v[0]` of a non-empty sized value: a string gives its first character, a dictionary a `KeyError` for `0`. */
  function FirstOf(v: Json): Result<Json>
    requires HasLength(v) && Length(v) > 0
  {
    match v
    case JString(s) => Ok(JString([s[0]]))
    case JArray(items) => Ok(items[0])
    case JObject(_) => Err("0")
  }

  /** The check of a decoded response, in the order of lines 175-235 of `_try_model_with_retry`. */
  function Interpret(response: Json): Interpretation {
    if !response.JObject? then
      Invalid("Invalid API response format: " + "expected dict, got " + TypeName(response) + ". Response: " + Render(response))
    else
      match Get(response.fields, "error")
      case Some(errorData) => Invalid("API error: " + ErrorText(errorData))
      case None =>
        match Get(response.fields, "choices")
        case None => NoContent
        case Some(choices) => InterpretChoices(response, choices)
  }

  /** The `choices` entry: no length is a `TypeError`, an empty one is `None`, otherwise its first item is checked. */
  function InterpretChoices(response: Json, choices: Json): Interpretation {
    if !HasLength(choices) then Invalid(UNEXPECTED_ERROR + NoLength(choices))
    else if Length(choices) == 0 then NoContent
    else
      match FirstOf(choices)
      case Err(keyError) => Invalid(UNEXPECTED_ERROR + keyError)
      case Ok(firstChoice) => InterpretChoice(response, firstChoice)
  }

  /** `choices[0]` must be a dictionary whose `"message"` (default `{}`) is one; its `"content"` (default "") is the result. */
  function InterpretChoice(response: Json, firstChoice: Json): Interpretation {
    if !firstChoice.JObject? then
      Invalid("Unexpected response format: choices[0] is " + TypeName(firstChoice)
        + ", expected dict. Response: " + Render(response))
    else
      var message := GetOr(firstChoice.fields, "message", JObject([]));
      if !message.JObject? then
        Invalid("Unexpected message format: message is " + TypeName(message)
          + ", expected dict. Response: " + Render(response))
      else
        var content := GetOr(message.fields, "content", JString(""));
        if !Truthy(content) then NoContent
        // the success line prints `len(content)`, which raises for a true boolean or a non-zero number
        else if !HasLength(content) then Invalid(UNEXPECTED_ERROR + NoLength(content))
        else Content(content)
  }

  /** Anything but a dictionary is rejected, naming its type. */
  lemma NonDictRejected(response: Json)
    requires !response.JObject?
    ensures Interpret(response).Invalid?
    ensures StartsWith(Interpret(response).message, "Invalid API response format: " + "expected dict, got " + TypeName(response))
  {
    var h := "Invalid API response format: " + "expected dict, got " + TypeName(response);
    StartsWithAppend(h, ". Response: ");
    StartsWithLonger(h + ". Response: ", Render(response), h);
  }

  /** The checks after the `"error"` entry raise messages that start with "Unexpected". */
  lemma ChoicesMessagesUnexpected(response: Json, choices: Json)
    ensures InterpretChoices(response, choices).Invalid? ==>
      |InterpretChoices(response, choices).message| > 0 && InterpretChoices(response, choices).message[0] == 'U'
  {
    if !HasLength(choices) {
      assert (UNEXPECTED_ERROR + NoLength(choices))[0] == 'U';
    } else if Length(choices) > 0 {
      match FirstOf(choices)
      case Err(keyError) =>
        assert (UNEXPECTED_ERROR + keyError)[0] == 'U';
      case Ok(firstChoice) =>
        ChoiceMessagesUnexpected(response, firstChoice);
    }
  }

  lemma ChoiceMessagesUnexpected(response: Json, firstChoice: Json)
    ensures InterpretChoice(response, firstChoice).Invalid? ==>
      |InterpretChoice(response, firstChoice).message| > 0 && InterpretChoice(response, firstChoice).message[0] == 'U'
  {
    if !firstChoice.JObject? {
      var h := "Unexpected response format: choices[0] is " + TypeName(firstChoice);
      assert (h + ", expected dict. Response: " + Render(response))[0] == h[0];
    } else {
      var message := GetOr(firstChoice.fields, "message", JObject([]));
      var h := "Unexpected message format: message is " + TypeName(message);
      assert (h + ", expected dict. Response: " + Render(response))[0] == h[0];
      if message.JObject? {
        var content := GetOr(message.fields, "content", JString(""));
        assert (UNEXPECTED_ERROR + NoLength(content))[0] == 'U';
      }
    }
  }

  /**
   * A dictionary without `"error"` whose `"choices"` is a non-empty list is
   * rejected when its first item is not a dictionary, naming that item's type,
   * and when that item's `"message"` is not a dictionary, naming the message's
   * type.
   */
  lemma MalformedChoiceRejected(response: Json, items: seq<Json>)
    requires response.JObject? && Get(response.fields, "error").None?
    requires Get(response.fields, "choices") == Some(JArray(items)) && items != []
    ensures !items[0].JObject? ==>
      Interpret(response).Invalid?
      && StartsWith(Interpret(response).message, "Unexpected response format: choices[0] is " + TypeName(items[0]))
    ensures items[0].JObject? && !GetOr(items[0].fields, "message", JObject([])).JObject? ==>
      Interpret(response).Invalid?
      && StartsWith(Interpret(response).message,
        "Unexpected message format: message is " + TypeName(GetOr(items[0].fields, "message", JObject([]))))
  {
    var first := items[0];
    assert Interpret(response) == InterpretChoice(response, first);
    var h := if !first.JObject? then "Unexpected response format: choices[0] is " + TypeName(first)
      else "Unexpected message format: message is " + TypeName(GetOr(first.fields, "message", JObject([])));
    StartsWithAppend(h, ", expected dict. Response: ");
    StartsWithLonger(h + ", expected dict. Response: ", Render(response), h);
  }

  /** The message starts with "API error: " exactly when the response carries an `"error"` entry, whatever else it holds. */
  lemma ApiErrorIff(response: Json)
    ensures (Interpret(response).Invalid? && StartsWith(Interpret(response).message, "API error: "))
      <==> response.JObject? && Get(response.fields, "error").Some?
  {
    var r := Interpret(response);
    if r.Invalid? {
      FirstCharOfPrefix(r.message, "API error: ");
    }
    if response.JObject? && Get(response.fields, "error").Some? {
      StartsWithAppend("API error: ", ErrorText(Get(response.fields, "error").value));
    } else if response.JObject? && Get(response.fields, "choices").Some? {
      var choices := Get(response.fields, "choices").value;
      assert r == InterpretChoices(response, choices);
      ChoicesMessagesUnexpected(response, choices);
    } else if response.JObject? {
      assert r == NoContent;
    } else {
      var h := "Invalid API response format: " + "expected dict, got " + TypeName(response);
      NonDictRejected(response);
      FirstCharOfPrefix(r.message, h);
      assert h[0] == 'I';
    }
  }

  /** A string that starts with a non-empty prefix starts with the prefix's first character. */
  lemma FirstCharOfPrefix(s: string, p: string)
    requires p != []
    ensures StartsWith(s, p) ==> |s| > 0 && s[0] == p[0]
  {
    if StartsWith(s, p) {
      assert s[..|p|][0] == s[0];
    }
  }

  /** The error text of a string is the string; of a dictionary with a string `"message"`, that message. */
  lemma ErrorTextOfStringAndDict(s: string, fields: seq<(string, Json)>)
    ensures ErrorText(JString(s)) == s
    ensures Get(fields, "message") == Some(JString(s)) ==> ErrorText(JObject(fields)) == s
    ensures Get(fields, "message").None? ==> ErrorText(JObject(fields)) == Repr(JObject(fields))
  {
  }

  /** A list of strings gives them joined by "; ". */
  lemma ErrorTextOfStrings(messages: seq<string>)
    ensures ErrorText(JArray(seq(|messages|, k requires 0 <= k < |messages| => JString(messages[k])))) == Join(messages, "; ")
  {
    var items := seq(|messages|, k requires 0 <= k < |messages| => JString(messages[k]));
    var texts := seq(|items|, k requires 0 <= k < |items| => Render(items[k]));
    assert texts == messages;
  }

  /** Content is only ever a true value with a length: a non-empty string, list or dictionary. */
  lemma ContentShape(response: Json)
    requires Interpret(response).Content?
    ensures Truthy(Interpret(response).value) && HasLength(Interpret(response).value)
    ensures !Interpret(response).value.JNull? && !Interpret(response).value.JBool? && !Interpret(response).value.JInt?
  {
  }

  /**
   * A chat completion: a dictionary without an `"error"` entry whose first
   * `"choices"` entry is a list starting with a dictionary whose `"message"`
   * is a dictionary with the string `text` as its `"content"`.
   */
  predicate IsCompletion(response: Json, text: string) {
    response.JObject?
    && Get(response.fields, "error").None?
    && match Get(response.fields, "choices")
       case Some(JArray(choices)) =>
         choices != [] && choices[0].JObject?
         && (match Get(choices[0].fields, "message")
             case Some(JObject(messageFields)) => Get(messageFields, "content") == Some(JString(text))
             case _ => false)
       case _ => false
  }

  /** A chat completion gives its text, and `None` when the text is empty. */
  lemma CompletionContent(response: Json, text: string)
    requires IsCompletion(response, text)
    ensures Interpret(response) == if text == "" then NoContent else Content(JString(text))
  {
  }

  /** Extra entries in front of a completion's entries, other than `"error"` and `"choices"`, change nothing. */
  lemma CompletionWithOtherEntries(extra: seq<(string, Json)>, response: Json, text: string)
    requires IsCompletion(response, text)
    requires Get(extra, "error").None? && Get(extra, "choices").None?
    ensures Interpret(JObject(extra + response.fields)) == Interpret(response)
  {
    GetAppend(extra, response.fields, "error");
    GetAppend(extra, response.fields, "choices");
    CompletionContent(response, text);
    var whole := JObject(extra + response.fields);
    assert IsCompletion(whole, text);
    CompletionContent(whole, text);
  }

  /** A missing or empty `"choices"` entry, or a first choice without content, gives `None`. */
  lemma NoChoicesNoContent(fields: seq<(string, Json)>, choice: seq<(string, Json)>)
    requires Get(fields, "error").None?
    ensures Get(fields, "choices").None? ==> Interpret(JObject(fields)) == NoContent
    ensures Get(fields, "choices") in {Some(JArray([])), Some(JString("")), Some(JObject([]))} ==> Interpret(JObject(fields)) == NoContent
    ensures (Get(fields, "choices") == Some(JArray([JObject(choice)])) && Get(choice, "message").None?) ==>
      Interpret(JObject(fields)) == NoContent
  {
  }

  // ---------------------------------------------------------------------------
  // `_try_model_with_retry`
  // ---------------------------------------------------------------------------

  /** The message of the request: the prompt, sent as the user's. */
  datatype ChatMessage = ChatMessage(role: string, content: string)

  /** The request body; the floating-point `temperature` and `top_p` are not modelled. */
  datatype Payload = Payload(model: string, messages: seq<ChatMessage>, maxTokens: nat, reasoning: bool)

  /** The payload built at each attempt, from the generation settings (`top_k` is not sent). */
  function BuildPayload(modelName: string, prompt: string, enableReasoning: bool): Payload {
    Payload(modelName, [ChatMessage("user", prompt)], MAX_OUTPUT_TOKENS, enableReasoning)
  }

  /** The body of a response: decoded JSON, or the reason it could not be decoded. */
  datatype Body = Parsed(value: Json) | Unparsable(reason: string)

  /** One `requests.post`: a timeout, another `RequestException`, or a response. */
  datatype Exchange = TimedOut | NetworkFailure(reason: string) | Replied(status: nat, text: string, body: Body)

  /**
   * Retried while attempts remain: a timeout, a network error, status 429, or
   * a `200` whose body is not JSON (`requests` raises its JSON decoding error
   * as a `RequestException`).
   */
  predicate Transient(x: Exchange) {
    match x
    case TimedOut => true
    case NetworkFailure(_) => true
    case Replied(status, _, body) => status == 429 || (status == 200 && body.Unparsable?)
  }

  const UNAUTHORIZED_ERROR: string := "Invalid API key (401). Get a new API key at: https://openrouter.ai/keys"
  const NO_CREDITS_ERROR: string := "Insufficient credits (402). Add credits at: https://openrouter.ai/credits"
  const FORBIDDEN_ERROR: string := "Access forbidden (403). Check your API key permissions."

  /** The words the messages of an exhausted retry loop share. */
  function RetriesPhrase(): string {
    "after " + NatToString(MAX_RETRIES) + " retries"
  }

  function RateLimitError(text: string): string {
    "Rate limit exceeded " + RetriesPhrase() + ". Response: " + text
  }

  function TimeoutError(): string {
    "Request timeout " + RetriesPhrase()
  }

  function NetworkError(reason: string): string {
    "Network error " + RetriesPhrase() + ": " + reason
  }

  function StatusError(status: nat, text: string): string {
    "API call failed with status " + NatToString(status) + ": " + text
  }

  /** How an exchange ends the loop when it is not retried: the content, `None`, or the message of the error raised. */
  function Settle(x: Exchange): Result<Option<Json>> {
    match x
    case TimedOut => Err(TimeoutError())
    case NetworkFailure(reason) => Err(NetworkError(reason))
    case Replied(status, text, body) =>
      if status == 429 then Err(RateLimitError(text))
      else if status == 401 then Err(UNAUTHORIZED_ERROR)
      else if status == 402 then Err(NO_CREDITS_ERROR)
      else if status == 403 then Err(FORBIDDEN_ERROR)
      else if status != 200 then Err(StatusError(status, text))
      else
        match body
        case Unparsable(reason) => Err(NetworkError(reason))
        case Parsed(responseData) =>
          match Interpret(responseData)
          case Content(content) => Ok(Some(content))
          case NoContent => Ok(None)
          case Invalid(message) => Err(message)
  }

  /** The attempt, from `k` on, that ends the loop: the first exchange not retried, or the last allowed. */
  function LastAttempt(exchanges: nat -> Exchange, k: nat): (d: nat)
    requires k <= MAX_RETRIES
    ensures k <= d <= MAX_RETRIES
    decreases MAX_RETRIES - k
  {
    if k < MAX_RETRIES && Transient(exchanges(k)) then LastAttempt(exchanges, k + 1) else k
  }

  lemma {:induction false} LastAttemptFacts(exchanges: nat -> Exchange, k: nat)
    requires k <= MAX_RETRIES
    ensures forall j :: k <= j < LastAttempt(exchanges, k) ==> Transient(exchanges(j))
    ensures LastAttempt(exchanges, k) == MAX_RETRIES || !Transient(exchanges(LastAttempt(exchanges, k)))
    decreases MAX_RETRIES - k
  {
    if k < MAX_RETRIES && Transient(exchanges(k)) {
      LastAttemptFacts(exchanges, k + 1);
    }
  }

  /**
   * The checks of one attempt on what its request got: whether the loop goes
   * on to the next attempt, and otherwise what it returns or raises.
   */
  method CheckExchange(attempt: nat, exchange: Exchange) returns (retry: bool, result: Result<Option<Json>>)
    ensures retry <==> attempt < MAX_RETRIES && Transient(exchange)
    ensures !retry ==> result == Settle(exchange)
  {
    retry := false;
    match exchange
    case TimedOut =>
      if attempt < MAX_RETRIES {
        return true, Err(TimeoutError());
      }
      return false, Err(TimeoutError());
    case NetworkFailure(reason) =>
      if attempt < MAX_RETRIES {
        return true, Err(NetworkError(reason));
      }
      return false, Err(NetworkError(reason));
    case Replied(status, text, body) =>
      if status == 429 {
        if attempt < MAX_RETRIES {
          return true, Err(RateLimitError(text));
        }
        return false, Err(RateLimitError(text));
      }
      if status == 401 {
        return false, Err(UNAUTHORIZED_ERROR);
      }
      if status == 402 {
        return false, Err(NO_CREDITS_ERROR);
      }
      if status == 403 {
        return false, Err(FORBIDDEN_ERROR);
      }
      if status != 200 {
        return false, Err(StatusError(status, text));
      }
      match body
      case Unparsable(reason) =>
        if attempt < MAX_RETRIES {
          return true, Err(NetworkError(reason));
        }
        return false, Err(NetworkError(reason));
      case Parsed(responseData) =>
        match Interpret(responseData)
        case Content(content) =>
          result := Ok(Some(content));
        case NoContent =>
          result := Ok(None);
        case Invalid(message) =>
          result := Err(message);
  }

  /**
   * `_try_model_with_retry`. `exchanges(k)` is what the request of attempt `k`
   * gets; the method also returns the waits, in order, and the payloads posted.
   */
  method TryModelWithRetry(modelName: string, prompt: string, enableReasoning: bool, exchanges: nat -> Exchange)
    returns (result: Result<Option<Json>>, sleeps: seq<nat>, requests: seq<Payload>)
    ensures result == Settle(exchanges(LastAttempt(exchanges, 0)))
    ensures sleeps == Backoff(LastAttempt(exchanges, 0))
    ensures |requests| == LastAttempt(exchanges, 0) + 1
    ensures forall i :: 0 <= i < |requests| ==> requests[i] == BuildPayload(modelName, prompt, enableReasoning)
  {
    LastAttemptFacts(exchanges, 0);
    var retryDelay := INITIAL_RETRY_DELAY;
    sleeps := [];
    requests := [];
    for attempt := 0 to MAX_RETRIES + 1
      invariant attempt <= LastAttempt(exchanges, 0)
      invariant retryDelay == INITIAL_RETRY_DELAY * Pow(RETRY_BACKOFF_MULTIPLIER, attempt)
      invariant sleeps == Backoff(if attempt == 0 then 0 else attempt - 1)
      invariant |requests| == attempt
      invariant forall i :: 0 <= i < |requests| ==> requests[i] == BuildPayload(modelName, prompt, enableReasoning)
    {
      if attempt > 0 {
        sleeps := sleeps + [retryDelay];
      }
      var payload := BuildPayload(modelName, prompt, enableReasoning);
      requests := requests + [payload];
      var retry, outcome := CheckExchange(attempt, exchanges(attempt));
      if retry {
        retryDelay := retryDelay * RETRY_BACKOFF_MULTIPLIER;
        continue;
      }
      return outcome, sleeps, requests;
    }
    // every attempt returns or retries, and the last one cannot retry
    assert false;
  }

  /** At most three requests go out, 10 and 20 seconds apart. */
  lemma RetrySchedule(exchanges: nat -> Exchange)
    ensures LastAttempt(exchanges, 0) + 1 <= MAX_RETRIES + 1 == 3
    ensures Backoff(LastAttempt(exchanges, 0)) == [10, 20][..LastAttempt(exchanges, 0)]
  {
    assert Backoff(2) == [10, 20];
  }

  /** The first exchange that is not transient ends the loop; three transient ones end it at the third. */
  lemma SettledByFirstNonTransient(exchanges: nat -> Exchange, d: nat)
    requires d <= MAX_RETRIES
    requires forall j :: 0 <= j < d ==> Transient(exchanges(j))
    requires d == MAX_RETRIES || !Transient(exchanges(d))
    ensures LastAttempt(exchanges, 0) == d
  {
    LastAttemptFacts(exchanges, 0);
  }

  /** A status other than 200 and 429 raises at once, with no retry and no wait. */
  lemma ErrorStatusNotRetried(exchanges: nat -> Exchange)
    requires exchanges(0).Replied? && exchanges(0).status != 200 && exchanges(0).status != 429
    ensures LastAttempt(exchanges, 0) == 0 && Backoff(LastAttempt(exchanges, 0)) == []
    ensures Settle(exchanges(0)).Err?
    ensures exchanges(0).status == 401 ==> Settle(exchanges(0)).message == UNAUTHORIZED_ERROR
    ensures exchanges(0).status == 402 ==> Settle(exchanges(0)).message == NO_CREDITS_ERROR
    ensures exchanges(0).status == 403 ==> Settle(exchanges(0)).message == FORBIDDEN_ERROR
  {
  }

  lemma RetriesPhraseValue()
    ensures RetriesPhrase() == "after 2 retries"
  {
    assert NatToString(MAX_RETRIES) == [DigitChar(2)] == "2";
  }

  /** A transient failure on the last attempt raises, saying that the retries ran out. */
  lemma ExhaustedRetriesRaise(x: Exchange)
    requires Transient(x)
    ensures Settle(x).Err?
    ensures Contains(Settle(x).message, "after 2 retries")
  {
    var n := RetriesPhrase();
    RetriesPhraseValue();
    match x
    case TimedOut =>
      ContainsInfix("Request timeout ", n, "");
      assert "Request timeout " + n + "" == TimeoutError();
    case NetworkFailure(reason) =>
      ContainsInfix("Network error ", n, ": " + reason);
      assert "Network error " + n + (": " + reason) == NetworkError(reason);
    case Replied(status, text, body) =>
      if status == 429 {
        ContainsInfix("Rate limit exceeded ", n, ". Response: " + text);
        assert "Rate limit exceeded " + n + (". Response: " + text) == RateLimitError(text);
      } else {
        ContainsInfix("Network error ", n, ": " + body.reason);
        assert "Network error " + n + (": " + body.reason) == NetworkError(body.reason);
      }
  }

  /** Content reaches the caller only when it is a true value, so `generate_review`'s own test never rejects it. */
  lemma SettledContentTruthy(x: Exchange)
    requires Settle(x).Ok? && Settle(x).value.Some?
    ensures Truthy(Settle(x).value.value)
  {
  }

  // ---------------------------------------------------------------------------
  // `_create_detailed_error` and `generate_review`
  // ---------------------------------------------------------------------------

  /** An exception reaching `_create_detailed_error`: the client's own, or any other, with its `str`. */
  datatype Failure = ApiError(message: string) | OtherFailure(message: string)

  datatype ErrorKind = PassedOn | InvalidKey | RateLimited | NoCredits | CallFailed

  /** The checks of `_create_detailed_error`, in order. */
  function ErrorKindOf(error: Failure): ErrorKind {
    if error.ApiError? then PassedOn
    else if Contains(Lower(error.message), "api key") || Contains(error.message, "401") then InvalidKey
    else if Contains(Lower(error.message), "rate") || Contains(error.message, "429") then RateLimited
    else if Contains(Lower(error.message), "credits") || Contains(error.message, "402") then NoCredits
    else CallFailed
  }

  const INVALID_KEY_MESSAGE: string :=
    "Invalid OPENROUTER_API_KEY.\n   Get a new API key at: https://openrouter.ai/keys\n"
    + "   Update GitHub Secret: Settings → Secrets → OPENROUTER_API_KEY"
  const RATE_LIMIT_MESSAGE: string :=
    "OpenRouter API rate limit exceeded.\n   Check your rate limits at: https://openrouter.ai/settings/limits\n"
    + "   Wait and retry, or upgrade your plan\n   Error: "
  const NO_CREDITS_MESSAGE: string :=
    "Insufficient OpenRouter credits.\n   Add credits at: https://openrouter.ai/credits\n   Error: "
  const CALL_FAILED_MESSAGE: string := "OpenRouter API call failed: "

  /** The message of the error `_create_detailed_error` returns. */
  function DetailedError(error: Failure): string {
    match ErrorKindOf(error)
    case PassedOn => error.message
    case InvalidKey => INVALID_KEY_MESSAGE
    case RateLimited => RATE_LIMIT_MESSAGE + error.message
    case NoCredits => NO_CREDITS_MESSAGE + error.message
    case CallFailed => CALL_FAILED_MESSAGE + error.message
  }

  /** The client's own errors pass unchanged; every other keeps its message, except an invalid key's. */
  lemma DetailedErrorShape(error: Failure)
    ensures error.ApiError? ==> DetailedError(error) == error.message
    ensures ErrorKindOf(error) == InvalidKey ==> DetailedError(error) == INVALID_KEY_MESSAGE
    ensures ErrorKindOf(error) in {RateLimited, NoCredits, CallFailed} ==> Contains(DetailedError(error), error.message)
  {
    ContainsInfix(RATE_LIMIT_MESSAGE, error.message, "");
    ContainsInfix(NO_CREDITS_MESSAGE, error.message, "");
    ContainsInfix(CALL_FAILED_MESSAGE, error.message, "");
    assert RATE_LIMIT_MESSAGE + error.message + "" == RATE_LIMIT_MESSAGE + error.message;
    assert NO_CREDITS_MESSAGE + error.message + "" == NO_CREDITS_MESSAGE + error.message;
    assert CALL_FAILED_MESSAGE + error.message + "" == CALL_FAILED_MESSAGE + error.message;
  }

  /** The checks come in order: a key problem wins over a rate limit, which wins over missing credits. */
  lemma ErrorKindOrder(message: string)
    ensures Contains(message, "401") ==> ErrorKindOf(OtherFailure(message)) == InvalidKey
    ensures Contains(message, "429") && !Contains(message, "401") && !Contains(Lower(message), "api key")
      ==> ErrorKindOf(OtherFailure(message)) == RateLimited
    ensures ErrorKindOf(OtherFailure(message)) == NoCredits
      ==> !Contains(message, "401") && !Contains(message, "429") && (Contains(Lower(message), "credits") || Contains(message, "402"))
  {
  }

  function EmptyResponseError(modelName: string): string {
    "Model " + modelName + " returned empty response"
  }

  /** What `generate_review` returns or raises, for the configured model. */
  function GenerateReviewResult(modelName: string, exchanges: nat -> Exchange): Result<Json> {
    match Settle(exchanges(LastAttempt(exchanges, 0)))
    case Ok(Some(review)) =>
      if Truthy(review) then Ok(review) else Err(DetailedError(ApiError(EmptyResponseError(modelName))))
    case Ok(None) => Err(DetailedError(ApiError(EmptyResponseError(modelName))))
    case Err(message) => Err(DetailedError(ApiError(message)))
  }

  /**
   * `generate_review`. `modelName` and `enableReasoning` are the settings
   * `OPENROUTER_MODEL` and `ENABLE_REASONING`.
   */
  method GenerateReview(modelName: string, prompt: string, enableReasoning: bool, exchanges: nat -> Exchange)
    returns (result: Result<Json>)
    ensures result == GenerateReviewResult(modelName, exchanges)
  {
    var review, _, _ := TryModelWithRetry(modelName, prompt, enableReasoning, exchanges);
    match review
    case Ok(Some(content)) =>
      if Truthy(content) {
        return Ok(content);
      }
      return Err(DetailedError(ApiError(EmptyResponseError(modelName))));
    case Ok(None) =>
      return Err(DetailedError(ApiError(EmptyResponseError(modelName))));
    case Err(message) =>
      return Err(DetailedError(ApiError(message)));
  }

  /**
   * A review is the decisive response's content; otherwise the error raised by
   * the loop reaches the caller unchanged, or, when there was no content, the
   * "returned empty response" error does. The classification of
   * `_create_detailed_error` is never reached.
   */
  lemma GenerateReviewSpec(modelName: string, exchanges: nat -> Exchange)
    ensures var r := GenerateReviewResult(modelName, exchanges);
      var s := Settle(exchanges(LastAttempt(exchanges, 0)));
      && (r.Ok? <==> s.Ok? && s.value.Some?)
      && (r.Ok? ==> s.value == Some(r.value) && Truthy(r.value))
      && (s.Err? ==> r == Err(s.message))
      && (s == Ok(None) ==> r == Err(EmptyResponseError(modelName)))
  {
    var s := Settle(exchanges(LastAttempt(exchanges, 0)));
    if s.Ok? && s.value.Some? {
      SettledContentTruthy(exchanges(LastAttempt(exchanges, 0)));
    }
  }
}

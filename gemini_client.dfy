/**
 * The decisions of `GeminiClient`: which models to try and in what order,
 * how a model's attempts are retried, when `generate_review` moves on to the
 * next model, and how a failure is turned into an explanatory message. The
 * SDK calls are replaced by a function giving the answer to each attempt.
 */
module GeminiClient {
  import opened Wrappers
  import opened Text
  import opened Config

  /** `any(k in s for k in keys)` */
  predicate ContainsAny(s: string, keys: seq<string>)
    decreases |keys|
  {
    keys != [] && (Contains(s, keys[0]) || ContainsAny(s, keys[1..]))
  }

  lemma {:induction false} ContainsAnyIff(s: string, keys: seq<string>)
    ensures ContainsAny(s, keys) <==> exists k :: 0 <= k < |keys| && Contains(s, keys[k])
    decreases |keys|
  {
    if keys != [] {
      ContainsAnyIff(s, keys[1..]);
      if ContainsAny(s, keys[1..]) {
        var k :| 0 <= k < |keys| - 1 && Contains(s, keys[1..][k]);
        assert Contains(s, keys[k + 1]);
      }
      if exists k :: 0 <= k < |keys| && Contains(s, keys[k]) {
        var k :| 0 <= k < |keys| && Contains(s, keys[k]);
        if k > 0 {
          assert Contains(s, keys[1..][k - 1]);
        }
      }
    }
  }

  // ---------------------------------------------------------------------------
  // `_select_models_to_try`
  // ---------------------------------------------------------------------------

  /** The inner loop body: keep `model` for `pattern` unless it is already kept or excluded. */
  function Consider(picked: seq<string>, pattern: string, model: string): seq<string> {
    var modelLower := Lower(model);
    if Contains(modelLower, pattern) && model !in picked && !ContainsAny(modelLower, EXCLUDED_MODEL_KEYWORDS)
    then picked + [model]
    else picked
  }

  /** One pass of the listing for one pattern. */
  function PatternPass(picked: seq<string>, pattern: string, models: seq<string>): seq<string>
    decreases |models|
  {
    if models == [] then picked else PatternPass(Consider(picked, pattern, models[0]), pattern, models[1..])
  }

  /** The passes for the patterns in order. */
  function AllPasses(picked: seq<string>, patterns: seq<string>, models: seq<string>): seq<string>
    decreases |patterns|
  {
    if patterns == [] then picked else AllPasses(PatternPass(picked, patterns[0], models), patterns[1..], models)
  }

  /** What `_select_models_to_try(available)` returns. */
  function SelectModels(available: seq<string>): seq<string> {
    var picked := if available != [] then AllPasses([], PREFERRED_MODEL_PATTERNS, available) else [];
    if picked == [] then FALLBACK_MODELS else picked
  }

  /** `_select_models_to_try`: a pass over the listing per pattern, then the fallback. */
  method SelectModelsToTry(availableModels: seq<string>) returns (modelsToTry: seq<string>)
    ensures modelsToTry == SelectModels(availableModels)
  {
    modelsToTry := [];
    if availableModels != [] {
      ghost var goal := AllPasses([], PREFERRED_MODEL_PATTERNS, availableModels);
      assert PREFERRED_MODEL_PATTERNS[0..] == PREFERRED_MODEL_PATTERNS;
      for p := 0 to |PREFERRED_MODEL_PATTERNS|
        invariant AllPasses(modelsToTry, PREFERRED_MODEL_PATTERNS[p..], availableModels) == goal
      {
        var pattern := PREFERRED_MODEL_PATTERNS[p];
        ghost var before := modelsToTry;
        AllPassesStep(modelsToTry, p, availableModels);
        assert availableModels[0..] == availableModels;
        for m := 0 to |availableModels|
          invariant PatternPass(modelsToTry, pattern, availableModels[m..]) == PatternPass(before, pattern, availableModels)
        {
          var model := availableModels[m];
          PatternPassStep(modelsToTry, pattern, availableModels, m);
          var modelLower := Lower(model);
          if Contains(modelLower, pattern) && model !in modelsToTry && !ContainsAny(modelLower, EXCLUDED_MODEL_KEYWORDS) {
            modelsToTry := modelsToTry + [model];
          }
        }
        assert availableModels[|availableModels|..] == [];
      }
      assert PREFERRED_MODEL_PATTERNS[|PREFERRED_MODEL_PATTERNS|..] == [];
    }
    if modelsToTry == [] {
      modelsToTry := FALLBACK_MODELS;
    }
  }

  lemma PatternPassStep(picked: seq<string>, pattern: string, models: seq<string>, m: nat)
    requires m < |models|
    ensures PatternPass(picked, pattern, models[m..]) == PatternPass(Consider(picked, pattern, models[m]), pattern, models[m + 1..])
  {
    assert models[m..][1..] == models[m + 1..];
  }

  lemma AllPassesStep(picked: seq<string>, p: nat, models: seq<string>)
    requires p < |PREFERRED_MODEL_PATTERNS|
    ensures AllPasses(picked, PREFERRED_MODEL_PATTERNS[p..], models)
      == AllPasses(PatternPass(picked, PREFERRED_MODEL_PATTERNS[p], models), PREFERRED_MODEL_PATTERNS[p + 1..], models)
  {
    assert PREFERRED_MODEL_PATTERNS[p..][1..] == PREFERRED_MODEL_PATTERNS[p + 1..];
  }

  /** The position of the first pattern a (lower-cased) name contains, or `|patterns|` when it contains none. */
  function Rank(name: string, patterns: seq<string>): (r: nat)
    ensures r <= |patterns|
    decreases |patterns|
  {
    if patterns == [] then 0 else if Contains(name, patterns[0]) then 0 else 1 + Rank(name, patterns[1..])
  }

  lemma {:induction false} RankFacts(name: string, patterns: seq<string>)
    ensures forall k :: 0 <= k < Rank(name, patterns) ==> !Contains(name, patterns[k])
    ensures Rank(name, patterns) < |patterns| ==> Contains(name, patterns[Rank(name, patterns)])
    decreases |patterns|
  {
    if patterns != [] && !Contains(name, patterns[0]) {
      RankFacts(name, patterns[1..]);
      forall k | 1 <= k < Rank(name, patterns) ensures !Contains(name, patterns[k]) {
        assert patterns[k] == patterns[1..][k - 1];
      }
    }
  }

  /** A model's priority: the first preferred pattern its lower-cased name contains. */
  function Priority(model: string): nat {
    Rank(Lower(model), PREFERRED_MODEL_PATTERNS)
  }

  /** A listed model is worth trying: it matches a preferred pattern and no excluded keyword. */
  predicate Qualifies(model: string) {
    Priority(model) < |PREFERRED_MODEL_PATTERNS| && !ContainsAny(Lower(model), EXCLUDED_MODEL_KEYWORDS)
  }

  /** The index of the first occurrence of `x` in `s`, or `|s|`. */
  function FirstIndex(s: seq<string>, x: string): (i: nat)
    ensures i <= |s|
    ensures i < |s| <==> x in s
    ensures i < |s| ==> s[i] == x
    ensures forall j :: 0 <= j < i ==> s[j] != x
    decreases |s|
  {
    if s == [] then 0 else if s[0] == x then 0 else 1 + FirstIndex(s[1..], x)
  }

  /** The order of the result: by priority, then by first position in the listing. */
  predicate Precedes(a: string, b: string, available: seq<string>) {
    Priority(a) < Priority(b) || (Priority(a) == Priority(b) && FirstIndex(available, a) < FirstIndex(available, b))
  }

  predicate NoDuplicates(s: seq<string>) {
    forall i, j :: 0 <= i < j < |s| ==> s[i] != s[j]
  }

  predicate InOrder(s: seq<string>, available: seq<string>) {
    forall i, j :: 0 <= i < j < |s| ==> Precedes(s[i], s[j], available)
  }

  /** Kept so far: the qualifying models of priority below `p`, and those of priority `p` among the first `m` listed. */
  ghost predicate Seen(x: string, available: seq<string>, p: nat, m: nat)
    requires m <= |available|
  {
    x in available && Qualifies(x) && (Priority(x) < p || (Priority(x) == p && x in available[..m]))
  }

  /** The state of the two loops before pattern `p` meets listed model `m`. */
  ghost predicate Picked(picked: seq<string>, available: seq<string>, p: nat, m: nat)
    requires m <= |available|
  {
    NoDuplicates(picked)
    && InOrder(picked, available)
    && forall x :: x in picked <==> Seen(x, available, p, m)
  }

  /** In the listing, `x` is in the first `m + 1` entries exactly when it is in the first `m` or is entry `m`. */
  lemma PrefixStep(available: seq<string>, m: nat, x: string)
    requires m < |available|
    ensures x in available[..m + 1] <==> x in available[..m] || x == available[m]
    ensures x in available[..m] ==> FirstIndex(available, x) < m
    ensures x in available && x !in available[..m] && available[m] == x ==> FirstIndex(available, x) == m
  {
    assert available[..m + 1] == available[..m] + [available[m]];
    if x in available[..m] {
      var j :| 0 <= j < m && available[..m][j] == x;
      assert available[j] == x;
    }
  }

  /** A kept model precedes the model about to be kept. */
  lemma KeptPrecedes(picked: seq<string>, available: seq<string>, p: nat, m: nat, x: string)
    requires m < |available| && Picked(picked, available, p, m)
    requires x == available[m] && Priority(x) == p && x !in available[..m]
    ensures forall y :: y in picked ==> Precedes(y, x, available)
  {
    forall y | y in picked ensures Precedes(y, x, available) {
      assert Seen(y, available, p, m);
      PrefixStep(available, m, y);
      PrefixStep(available, m, x);
    }
  }

  /** Appending a model that every kept one precedes keeps the order and the uniqueness. */
  lemma AppendInOrder(picked: seq<string>, available: seq<string>, x: string)
    requires NoDuplicates(picked) && InOrder(picked, available) && x !in picked
    requires forall y :: y in picked ==> Precedes(y, x, available)
    ensures NoDuplicates(picked + [x]) && InOrder(picked + [x], available)
  {
    var s := picked + [x];
    forall i, j | 0 <= i < j < |s| ensures s[i] != s[j] && Precedes(s[i], s[j], available) {
      if j == |picked| {
        assert s[i] == picked[i] && picked[i] in picked;
      } else {
        assert s[i] == picked[i] && s[j] == picked[j];
      }
    }
  }

  /** The inner loop body keeps `Picked`. */
  lemma ConsiderKeeps(picked: seq<string>, available: seq<string>, p: nat, m: nat)
    requires p < |PREFERRED_MODEL_PATTERNS| && m < |available| && Picked(picked, available, p, m)
    ensures Picked(Consider(picked, PREFERRED_MODEL_PATTERNS[p], available[m]), available, p, m + 1)
  {
    var x := available[m];
    var pattern := PREFERRED_MODEL_PATTERNS[p];
    var next := Consider(picked, pattern, x);
    RankFacts(Lower(x), PREFERRED_MODEL_PATTERNS);
    if next != picked {
      assert next == picked + [x];
      assert Priority(x) <= p;
      assert Priority(x) == p by {
        if Priority(x) < p {
          assert Seen(x, available, p, m);
        }
      }
      assert x !in available[..m] by {
        if x in available[..m] {
          assert Seen(x, available, p, m);
        }
      }
      KeptPrecedes(picked, available, p, m, x);
      AppendInOrder(picked, available, x);
    }
    forall y ensures y in next <==> Seen(y, available, p, m + 1) {
      PrefixStep(available, m, y);
      if y == x && Seen(y, available, p, m + 1) && Priority(y) == p {
        assert Contains(Lower(x), pattern);
      }
    }
  }

  lemma {:induction false} PatternPassKeeps(picked: seq<string>, available: seq<string>, p: nat, m: nat)
    requires p < |PREFERRED_MODEL_PATTERNS| && m <= |available| && Picked(picked, available, p, m)
    ensures Picked(PatternPass(picked, PREFERRED_MODEL_PATTERNS[p], available[m..]), available, p + 1, 0)
    decreases |available| - m
  {
    var pattern := PREFERRED_MODEL_PATTERNS[p];
    if m == |available| {
      assert available[m..] == [];
      assert available[..m] == available;
      forall y ensures Seen(y, available, p, m) <==> Seen(y, available, p + 1, 0) {
      }
    } else {
      assert available[m..][0] == available[m] && available[m..][1..] == available[m + 1..];
      ConsiderKeeps(picked, available, p, m);
      PatternPassKeeps(Consider(picked, pattern, available[m]), available, p, m + 1);
    }
  }

  lemma {:induction false} AllPassesKeep(picked: seq<string>, available: seq<string>, p: nat)
    requires p <= |PREFERRED_MODEL_PATTERNS| && Picked(picked, available, p, 0)
    ensures Picked(AllPasses(picked, PREFERRED_MODEL_PATTERNS[p..], available), available, |PREFERRED_MODEL_PATTERNS|, 0)
    decreases |PREFERRED_MODEL_PATTERNS| - p
  {
    var patterns := PREFERRED_MODEL_PATTERNS[p..];
    if p < |PREFERRED_MODEL_PATTERNS| {
      assert patterns[0] == PREFERRED_MODEL_PATTERNS[p] && patterns[1..] == PREFERRED_MODEL_PATTERNS[p + 1..];
      assert available[0..] == available;
      PatternPassKeeps(picked, available, p, 0);
      AllPassesKeep(PatternPass(picked, patterns[0], available), available, p + 1);
    } else {
      assert patterns == [];
    }
  }

  /**
   * The models taken from the listing are exactly its qualifying ones, each
   * once, ordered by priority and then by position in the listing.
   */
  lemma PassesSelect(available: seq<string>)
    ensures var picked := AllPasses([], PREFERRED_MODEL_PATTERNS, available);
      NoDuplicates(picked) && InOrder(picked, available)
      && forall x :: x in picked <==> x in available && Qualifies(x)
  {
    assert PREFERRED_MODEL_PATTERNS[0..] == PREFERRED_MODEL_PATTERNS;
    AllPassesKeep([], available, 0);
    var picked := AllPasses([], PREFERRED_MODEL_PATTERNS, available);
    forall x ensures x in picked <==> x in available && Qualifies(x) {
      assert Seen(x, available, |PREFERRED_MODEL_PATTERNS|, 0) <==> x in available && Qualifies(x);
    }
  }

  /**
   * `_select_models_to_try`: when some listed model qualifies, the result is
   * exactly the qualifying models, without duplicates, in priority order with
   * ties in listing order; otherwise (an empty listing included) it is the
   * fallback list. Either way it is never empty.
   */
  lemma SelectModelsSpec(available: seq<string>)
    ensures var r := SelectModels(available);
      r != []
      && ((forall x :: x in available ==> !Qualifies(x)) ==> r == FALLBACK_MODELS)
      && ((exists x :: x in available && Qualifies(x)) ==>
            NoDuplicates(r) && InOrder(r, available) && forall x :: x in r <==> x in available && Qualifies(x))
  {
    PassesSelect(available);
    var picked := AllPasses([], PREFERRED_MODEL_PATTERNS, available);
    assert picked != [] ==> picked[0] in picked;
    if exists x :: x in available && Qualifies(x) {
      var x :| x in available && Qualifies(x);
      assert x in picked;
    }
  }

  // ---------------------------------------------------------------------------
  // `__init__` and `_list_available_models`
  // ---------------------------------------------------------------------------

  const KEY_UNSET_ERROR: string := "GEMINI_API_KEY not set"
  const SDK_MISSING_ERROR: string :=
    "google.generativeai SDK not installed. " + "Please add it to requirements.txt"

  /** `GeminiClient(api_key)`: refuses an empty key, then a missing SDK; keeps the key otherwise. */
  function NewClient(apiKey: string, hasSdk: bool): (r: Result<string>)
    ensures r.Ok? <==> apiKey != "" && hasSdk
    ensures r.Ok? ==> r.value == apiKey
    ensures apiKey == "" ==> r == Err(KEY_UNSET_ERROR)
    ensures apiKey != "" && !hasSdk ==> r == Err(SDK_MISSING_ERROR)
  {
    if apiKey == "" then Err(KEY_UNSET_ERROR)
    else if !hasSdk then Err(SDK_MISSING_ERROR)
    else Ok(apiKey)
  }

  /** A model as the SDK lists it: its name and the generation methods it supports. */
  datatype ModelInfo = ModelInfo(name: string, supportedMethods: seq<string>)

  predicate CanGenerate(m: ModelInfo) {
    "generateContent" in m.supportedMethods
  }

  /** The names of the listed models that support `generateContent`, in listing order. */
  function CapableNames(listed: seq<ModelInfo>): seq<string>
    decreases |listed|
  {
    if listed == [] then []
    else (if CanGenerate(listed[0]) then [listed[0].name] else []) + CapableNames(listed[1..])
  }

  lemma {:induction false} CapableNamesSpec(listed: seq<ModelInfo>)
    ensures |CapableNames(listed)| <= |listed|
    ensures forall x :: x in CapableNames(listed) <==> exists i :: 0 <= i < |listed| && listed[i].name == x && CanGenerate(listed[i])
    decreases |listed|
  {
    if listed != [] {
      CapableNamesSpec(listed[1..]);
      forall x ensures x in CapableNames(listed) <==> exists i :: 0 <= i < |listed| && listed[i].name == x && CanGenerate(listed[i]) {
        if exists i :: 0 <= i < |listed| && listed[i].name == x && CanGenerate(listed[i]) {
          var i :| 0 <= i < |listed| && listed[i].name == x && CanGenerate(listed[i]);
          if i > 0 {
            assert listed[1..][i - 1] == listed[i];
          }
        }
        if x in CapableNames(listed[1..]) {
          var i :| 0 <= i < |listed| - 1 && listed[1..][i].name == x && CanGenerate(listed[1..][i]);
          assert listed[i + 1] == listed[1..][i];
        }
      }
    }
  }

  /**
   * `_list_available_models`. `listed` is what the SDK yielded; when listing
   * fails part-way, it is the models yielded before the failure, which the
   * source keeps.
   */
  method ListAvailableModels(listed: seq<ModelInfo>) returns (availableModels: seq<string>)
    ensures availableModels == CapableNames(listed)
  {
    availableModels := [];
    for i := 0 to |listed|
      invariant availableModels + CapableNames(listed[i..]) == CapableNames(listed)
    {
      assert listed[i..][1..] == listed[i + 1..];
      if CanGenerate(listed[i]) {
        availableModels := availableModels + [listed[i].name];
      }
    }
    assert listed[|listed|..] == [];
  }

  // ---------------------------------------------------------------------------
  // `_create_detailed_error`
  // ---------------------------------------------------------------------------

  datatype ErrorKind = InvalidKey | QuotaExceeded | PermissionDenied | CallFailed

  /** The tests of `_create_detailed_error`, in order. */
  function ErrorKindOf(errorMsg: string): ErrorKind {
    var lower := Lower(errorMsg);
    if Contains(lower, "API key") || Contains(lower, "api_key") then InvalidKey
    else if Contains(lower, "quota") || Contains(lower, "rate") || Contains(errorMsg, "RESOURCE_EXHAUSTED") || Contains(errorMsg, "429")
    then QuotaExceeded
    else if Contains(errorMsg, "PERMISSION_DENIED") then PermissionDenied
    else CallFailed
  }

  const INVALID_KEY_MESSAGE: string :=
    "Invalid GEMINI_API_KEY.\n"
    + "   Get a new API key at: https://aistudio.google.com/app/apikey\n"
    + "   Update GitHub Secret: Settings \U{2192} Secrets \U{2192} GEMINI_API_KEY"
  const QUOTA_MESSAGE: string :=
    "Gemini API quota exceeded.\n"
    + "   Free tier: 2 requests/min for Pro models, "
    + "15 requests/min for Flash models\n"
    + "   Wait ~60 seconds and retry, or upgrade at: "
    + "https://ai.google.dev/pricing\n"
    + "   Monitor usage: https://ai.dev/usage\n"
    + "   Error: "
  const PERMISSION_MESSAGE: string :=
    "Permission denied.\n"
    + "   Check if your API key has Gemini API enabled\n"
    + "   Enable at: https://aistudio.google.com/app/apikey\n"
    + "   Error: "
  const CALL_FAILED_MESSAGE: string := "Gemini API call failed: "

  /** The message of the `GeminiAPIError` that `_create_detailed_error` builds. */
  function DetailedError(errorMsg: string): string {
    match ErrorKindOf(errorMsg)
    case InvalidKey => INVALID_KEY_MESSAGE
    case QuotaExceeded => QUOTA_MESSAGE + errorMsg
    case PermissionDenied => PERMISSION_MESSAGE + errorMsg
    case CallFailed => CALL_FAILED_MESSAGE + errorMsg
  }

  /**
   * The `"API key"` test compares a lower-cased message with a pattern that
   * has upper-case letters, so it never succeeds: only `api_key`, in any
   * case, makes an error an invalid-key error.
   */
  lemma InvalidKeyOnlyByIdentifier(errorMsg: string)
    ensures ErrorKindOf(errorMsg) == InvalidKey <==> Contains(Lower(errorMsg), "api_key")
  {
    LowerNeverContainsUpper(errorMsg, "API key");
  }

  /**
   * The detailed message names its kind and quotes the original error, except
   * for an invalid key, whose message is fixed and so never repeats the error text.
   */
  lemma DetailedErrorShape(errorMsg: string)
    ensures ErrorKindOf(errorMsg) == InvalidKey ==> DetailedError(errorMsg) == INVALID_KEY_MESSAGE
    ensures ErrorKindOf(errorMsg) == QuotaExceeded ==>
      StartsWith(DetailedError(errorMsg), QUOTA_MESSAGE) && EndsWith(DetailedError(errorMsg), errorMsg)
    ensures ErrorKindOf(errorMsg) == PermissionDenied ==>
      StartsWith(DetailedError(errorMsg), PERMISSION_MESSAGE) && EndsWith(DetailedError(errorMsg), errorMsg)
    ensures ErrorKindOf(errorMsg) == CallFailed ==>
      StartsWith(DetailedError(errorMsg), CALL_FAILED_MESSAGE) && EndsWith(DetailedError(errorMsg), errorMsg)
  {
    var d := DetailedError(errorMsg);
    match ErrorKindOf(errorMsg)
    case InvalidKey =>
    case QuotaExceeded =>
      assert d[..|QUOTA_MESSAGE|] == QUOTA_MESSAGE && d[|d| - |errorMsg|..] == errorMsg;
    case PermissionDenied =>
      assert d[..|PERMISSION_MESSAGE|] == PERMISSION_MESSAGE && d[|d| - |errorMsg|..] == errorMsg;
    case CallFailed =>
      assert d[..|CALL_FAILED_MESSAGE|] == CALL_FAILED_MESSAGE && d[|d| - |errorMsg|..] == errorMsg;
  }

  // ---------------------------------------------------------------------------
  // `_try_model_with_retry`
  // ---------------------------------------------------------------------------

  /** One call of `generate_content`: the response text (empty for a missing response or text), or the raised error. */
  datatype Attempt = Answered(text: string) | Failed(message: string)

  /** What trying a model leads to: a review, `None`, or an exception passed on. */
  datatype Outcome = Review(text: string) | NoReview | Raised(message: string)

  /** A quota or rate-limit failure, which is retried. */
  predicate Retryable(errorMsg: string) {
    Contains(errorMsg, "429") || Contains(Lower(errorMsg), "quota") || Contains(Lower(errorMsg), "rate")
  }

  predicate RetriedFailure(a: Attempt) {
    a.Failed? && Retryable(a.message)
  }

  /** The attempt, from `k` on, whose result ends the retry loop: the first that is not retried, or the last allowed. */
  function Decisive(attempts: nat -> Attempt, k: nat): (d: nat)
    requires k <= MAX_RETRIES
    ensures k <= d <= MAX_RETRIES
    decreases MAX_RETRIES - k
  {
    if k < MAX_RETRIES && RetriedFailure(attempts(k)) then Decisive(attempts, k + 1) else k
  }

  lemma {:induction false} DecisiveFacts(attempts: nat -> Attempt, k: nat)
    requires k <= MAX_RETRIES
    ensures forall j :: k <= j < Decisive(attempts, k) ==> RetriedFailure(attempts(j))
    ensures Decisive(attempts, k) == MAX_RETRIES || !RetriedFailure(attempts(Decisive(attempts, k)))
    decreases MAX_RETRIES - k
  {
    if k < MAX_RETRIES && RetriedFailure(attempts(k)) {
      DecisiveFacts(attempts, k + 1);
    }
  }

  /** How the decisive attempt ends the loop. */
  function Settle(a: Attempt): Outcome {
    match a
    case Answered(t) => if t == "" then NoReview else Review(t)
    case Failed(m) => Raised(m)
  }

  /**
   * `_try_model_with_retry`. `attempts(k)` is the result of attempt `k`; the
   * second result lists the waits, in order.
   */
  method TryModelWithRetry(attempts: nat -> Attempt) returns (outcome: Outcome, sleeps: seq<nat>)
    ensures outcome == Settle(attempts(Decisive(attempts, 0)))
    ensures sleeps == Backoff(Decisive(attempts, 0))
  {
    DecisiveFacts(attempts, 0);
    var retryDelay := INITIAL_RETRY_DELAY;
    sleeps := [];
    for attempt := 0 to MAX_RETRIES + 1
      invariant attempt <= Decisive(attempts, 0)
      invariant retryDelay == INITIAL_RETRY_DELAY * Pow(RETRY_BACKOFF_MULTIPLIER, attempt)
      invariant sleeps == Backoff(if attempt == 0 then 0 else attempt - 1)
    {
      if attempt > 0 {
        sleeps := sleeps + [retryDelay];
      }
      match attempts(attempt)
      case Answered(text) =>
        if text == "" {
          return NoReview, sleeps;
        }
        return Review(text), sleeps;
      case Failed(retryMsg) =>
        if Retryable(retryMsg) {
          if attempt < MAX_RETRIES {
            retryDelay := retryDelay * RETRY_BACKOFF_MULTIPLIER;
            continue;
          }
          return Raised(retryMsg), sleeps;
        }
        return Raised(retryMsg), sleeps;
    }
    assert false;
  }

  /** A model is called at most three times; the waits between calls are 10 and 20 seconds. */
  lemma RetrySchedule(attempts: nat -> Attempt)
    ensures Decisive(attempts, 0) <= 2
    ensures Backoff(Decisive(attempts, 0)) == [10, 20][..Decisive(attempts, 0)]
  {
    assert Backoff(2) == [10, 20];
  }

  /** A model's first answer that is not a retried failure settles it; the three-call cap settles it otherwise. */
  lemma SettledByFirstNonRetried(attempts: nat -> Attempt, d: nat)
    requires d <= MAX_RETRIES
    requires forall j :: 0 <= j < d ==> RetriedFailure(attempts(j))
    requires d == MAX_RETRIES || !RetriedFailure(attempts(d))
    ensures Decisive(attempts, 0) == d
  {
    DecisiveFacts(attempts, 0);
  }

  /**
   * Any message mentioning "generate" counts as a rate-limit failure:
   * "rate" is a substring of it.
   */
  lemma GenerateLooksRateLimited(errorMsg: string)
    requires Contains(Lower(errorMsg), "generate")
    ensures Retryable(errorMsg)
    ensures ErrorKindOf(errorMsg) in {InvalidKey, QuotaExceeded}
  {
    ContainsInfix("gene", "rate", "");
    assert "gene" + "rate" + "" == "generate";
    ContainsTransitive(Lower(errorMsg), "generate", "rate");
  }

  // ---------------------------------------------------------------------------
  // `generate_review`
  // ---------------------------------------------------------------------------

  /** A failure after which `generate_review` tries the next model. */
  predicate MovesOn(errorMsg: string) {
    Contains(errorMsg, "404") || Contains(Lower(errorMsg), "not found")
    || Contains(errorMsg, "429") || Contains(Lower(errorMsg), "quota")
  }

  /** The attempts at one model. */
  function AttemptsAt(respond: (string, nat) -> Attempt, model: string): nat -> Attempt {
    (k: nat) => respond(model, k)
  }

  /** What `_try_model_with_retry` does for `model`. */
  function ModelOutcome(respond: (string, nat) -> Attempt, model: string): Outcome {
    var attempts := AttemptsAt(respond, model);
    Settle(attempts(Decisive(attempts, 0)))
  }

  function AllFailedMessage(lastError: Option<string>): string {
    "All Gemini models failed. Last error: " + match lastError case None => "None" case Some(m) => m
  }

  /** The loop of `generate_review` over the models still to try. */
  function TryModels(respond: (string, nat) -> Attempt, models: seq<string>, lastError: Option<string>): Result<string>
    decreases |models|
  {
    if models == [] then Err(AllFailedMessage(lastError))
    else match ModelOutcome(respond, models[0])
      case Review(t) => Ok(t)
      case NoReview => TryModels(respond, models[1..], lastError)
      case Raised(m) =>
        if MovesOn(m) then TryModels(respond, models[1..], Some(m)) else Err(DetailedError(m))
  }

  /** `generate_review`: `listed` is the SDK's listing and `respond(model, k)` the result of attempt `k` at `model`. */
  function GenerateReviewResult(listed: seq<ModelInfo>, respond: (string, nat) -> Attempt): Result<string> {
    TryModels(respond, SelectModels(CapableNames(listed)), None)
  }

  method GenerateReview(listed: seq<ModelInfo>, respond: (string, nat) -> Attempt) returns (result: Result<string>)
    ensures result == GenerateReviewResult(listed, respond)
  {
    var availableModels := ListAvailableModels(listed);
    var modelsToTry := SelectModelsToTry(availableModels);
    ghost var goal := TryModels(respond, modelsToTry, None);
    var lastError: Option<string> := None;
    assert modelsToTry[0..] == modelsToTry;
    for i := 0 to |modelsToTry|
      invariant TryModels(respond, modelsToTry[i..], lastError) == goal
    {
      var modelName := modelsToTry[i];
      assert modelsToTry[i..][1..] == modelsToTry[i + 1..];
      var review, _ := TryModelWithRetry(AttemptsAt(respond, modelName));
      match review
      case Review(text) =>
        return Ok(text);
      case NoReview =>
      case Raised(errorMsg) =>
        lastError := Some(errorMsg);
        if !MovesOn(errorMsg) {
          return Err(DetailedError(errorMsg));
        }
    }
    assert modelsToTry[|modelsToTry|..] == [];
    result := Err(AllFailedMessage(lastError));
  }

  /** A model `generate_review` passes over: it gave no review, or failed in a way that moves on. */
  predicate Skipped(o: Outcome) {
    o.NoReview? || (o.Raised? && MovesOn(o.message))
  }

  /** The position of the first model that is not passed over, or `|models|`. */
  function FirstDecided(respond: (string, nat) -> Attempt, models: seq<string>): (d: nat)
    ensures d <= |models|
    ensures forall j :: 0 <= j < d ==> Skipped(ModelOutcome(respond, models[j]))
    ensures d < |models| ==> !Skipped(ModelOutcome(respond, models[d]))
    decreases |models|
  {
    if models == [] then 0
    else if Skipped(ModelOutcome(respond, models[0])) then 1 + FirstDecided(respond, models[1..])
    else 0
  }

  /**
   * The first model that is not passed over decides `generate_review`: its
   * review is returned, or its error becomes the detailed error.
   */
  lemma {:induction false} DecidedByFirst(respond: (string, nat) -> Attempt, models: seq<string>, lastError: Option<string>)
    requires FirstDecided(respond, models) < |models|
    ensures var o := ModelOutcome(respond, models[FirstDecided(respond, models)]);
      TryModels(respond, models, lastError) == if o.Review? then Ok(o.text) else Err(DetailedError(o.message))
    decreases |models|
  {
    if Skipped(ModelOutcome(respond, models[0])) {
      var next := if ModelOutcome(respond, models[0]).Raised? then Some(ModelOutcome(respond, models[0]).message) else lastError;
      DecidedByFirst(respond, models[1..], next);
    }
  }

  /**
   * When every model is passed over, `generate_review` fails with the
   * message of the last error raised, or "None" when none was.
   */
  lemma {:induction false} AllPassedOver(respond: (string, nat) -> Attempt, models: seq<string>, lastError: Option<string>)
    requires FirstDecided(respond, models) == |models|
    ensures TryModels(respond, models, lastError) == Err(AllFailedMessage(LastRaised(respond, models, lastError)))
    decreases |models|
  {
    if models != [] {
      var o := ModelOutcome(respond, models[0]);
      AllPassedOver(respond, models[1..], if o.Raised? then Some(o.message) else lastError);
    }
  }

  /** The message of the last model that raised one, else `lastError`. */
  function LastRaised(respond: (string, nat) -> Attempt, models: seq<string>, lastError: Option<string>): (r: Option<string>)
    ensures r == lastError || (r.Some? && exists j :: 0 <= j < |models| && ModelOutcome(respond, models[j]) == Raised(r.value))
    decreases |models|
  {
    if models == [] then lastError
    else
      var o := ModelOutcome(respond, models[0]);
      var r := LastRaised(respond, models[1..], if o.Raised? then Some(o.message) else lastError);
      assert r != lastError && r != (if o.Raised? then Some(o.message) else lastError) ==>
        r.Some? && exists j :: 0 <= j < |models| - 1 && ModelOutcome(respond, models[1..][j]) == Raised(r.value);
      r
  }

  /** A review is never empty: an empty answer means "no review". */
  lemma ReviewNotEmpty(respond: (string, nat) -> Attempt, model: string)
    ensures ModelOutcome(respond, model).Review? ==> ModelOutcome(respond, model).text != ""
  {
  }

  /** The loop over the models: decided by the first one not passed over, or failing with the last error. */
  lemma TryModelsSpec(respond: (string, nat) -> Attempt, models: seq<string>, lastError: Option<string>)
    ensures var d := FirstDecided(respond, models);
      var r := TryModels(respond, models, lastError);
      (r.Ok? <==> d < |models| && ModelOutcome(respond, models[d]).Review?)
      && (r.Ok? ==> r.value == ModelOutcome(respond, models[d]).text && r.value != "")
      && (d < |models| && ModelOutcome(respond, models[d]).Raised? ==> r == Err(DetailedError(ModelOutcome(respond, models[d]).message)))
      && (d == |models| ==> r == Err(AllFailedMessage(LastRaised(respond, models, lastError))))
  {
    var d := FirstDecided(respond, models);
    if d < |models| {
      DecidedByFirst(respond, models, lastError);
      ReviewNotEmpty(respond, models[d]);
    } else {
      AllPassedOver(respond, models, lastError);
    }
  }

  /**
   * `generate_review` returns a review only from the first model not passed
   * over; with the fallback list never empty, it fails with the "all models
   * failed" message only when every model tried was passed over.
   */
  lemma GenerateReviewSpec(listed: seq<ModelInfo>, respond: (string, nat) -> Attempt)
    ensures var models := SelectModels(CapableNames(listed));
      var d := FirstDecided(respond, models);
      var r := GenerateReviewResult(listed, respond);
      models != []
      && (r.Ok? <==> d < |models| && ModelOutcome(respond, models[d]).Review?)
      && (r.Ok? ==> r.value == ModelOutcome(respond, models[d]).text && r.value != "")
      && (d < |models| && ModelOutcome(respond, models[d]).Raised? ==> r == Err(DetailedError(ModelOutcome(respond, models[d]).message)))
      && (d == |models| ==> r == Err(AllFailedMessage(LastRaised(respond, models, None))))
  {
    SelectModelsSpec(CapableNames(listed));
    TryModelsSpec(respond, SelectModels(CapableNames(listed)), None);
  }
}

/**
 * The reviewer's configuration: the constants of `Config` and the settings it
 * reads from the environment once, at start-up, passed here as a value.
 */
module Config {
  import opened Wrappers
  import opened Text

  /** Prefix of the diff that goes into a prompt. */
  const MAX_DIFF_LENGTH: nat := 12000
  /** GitHub allows 65,536 characters per comment; the reviewer stays under 60,000. */
  const MAX_COMMENT_LENGTH: nat := 60000
  const COMMENT_HEADER: string := "\U{1F916} **AI Code Review - Flutter (Gemini)**\n\n"

  /** Gemini model name patterns, best first. */
  const PREFERRED_MODEL_PATTERNS: seq<string> :=
    ["flash-latest", "2.5-flash", "2.0-flash", "flash", "pro-latest", "pro"]
  /** Models tried when none of the listed ones qualifies. */
  const FALLBACK_MODELS: seq<string> :=
    ["models/gemini-flash-latest", "models/gemini-2.5-flash", "models/gemini-2.0-flash", "models/gemini-pro-latest"]
  /** Special-purpose models that are never tried. */
  const EXCLUDED_MODEL_KEYWORDS: seq<string> := ["thinking", "tts", "image", "gemma", "learnlm"]

  /** The integer entries of the generation settings (the two floating-point ones are not modelled). */
  const TOP_K: nat := 40
  const MAX_OUTPUT_TOKENS: nat := 8192

  const MAX_RETRIES: nat := 2
  const INITIAL_RETRY_DELAY: nat := 5
  const RETRY_BACKOFF_MULTIPLIER: nat := 2

  function Pow(b: nat, e: nat): nat {
    if e == 0 then 1 else b * Pow(b, e - 1)
  }

  /**
   * The waits, in seconds, before retries 1 to `n` of a retry loop that starts
   * from `INITIAL_RETRY_DELAY` and multiplies the delay before each retry.
   */
  function Backoff(n: nat): (r: seq<nat>)
    ensures |r| == n
  {
    if n == 0 then [] else Backoff(n - 1) + [INITIAL_RETRY_DELAY * Pow(RETRY_BACKOFF_MULTIPLIER, n)]
  }

  const LANGUAGES: seq<string> := ["vietnamese", "english"]

  /** The environment variables read at start-up; `None` when a variable is missing. */
  datatype Environment = Environment(
    geminiApiKey: Option<string>,
    githubToken: Option<string>,
    githubRepository: Option<string>,
    githubRef: Option<string>,
    reviewLanguage: Option<string>)

  /** The settings `Config` derives from the environment. */
  datatype Settings = Settings(
    geminiApiKey: Option<string>,
    githubToken: Option<string>,
    githubRepository: Option<string>,
    githubRef: string,
    reviewLanguage: string)

  /** `REVIEW_LANGUAGE` defaults to "vietnamese" and is lower-cased; `GITHUB_REF` defaults to "". */
  function FromEnvironment(env: Environment): (c: Settings)
    ensures c.geminiApiKey == env.geminiApiKey
    ensures c.githubToken == env.githubToken
    ensures c.githubRepository == env.githubRepository
    ensures env.githubRef.None? ==> c.githubRef == ""
    ensures env.githubRef.Some? ==> c.githubRef == env.githubRef.value
    ensures env.reviewLanguage.None? ==> c.reviewLanguage == "vietnamese"
    ensures |c.reviewLanguage| == (if env.reviewLanguage.None? then 10 else |env.reviewLanguage.value|)
    ensures forall i :: 0 <= i < |c.reviewLanguage| ==> !('A' <= c.reviewLanguage[i] <= 'Z')
    ensures env.reviewLanguage.Some? ==>
      forall i :: 0 <= i < |c.reviewLanguage| ==> c.reviewLanguage[i] == LowerChar(env.reviewLanguage.value[i])
  {
    Settings(
      env.geminiApiKey,
      env.githubToken,
      env.githubRepository,
      match env.githubRef case Some(r) => r case None => "",
      Lower(match env.reviewLanguage case Some(l) => l case None => "vietnamese"))
  }

  /** Python's truth test on an optional string: unset and empty are alike. */
  predicate IsSet(v: Option<string>) {
    v.Some? && v.value != ""
  }

  const GEMINI_KEY_UNSET: string := "GEMINI_API_KEY is not set"
  const TOKEN_UNSET: string := "GITHUB_TOKEN is not set"
  const REPOSITORY_UNSET: string := "GITHUB_REPOSITORY is not set"

  function InvalidLanguage(language: string): string {
    "Invalid REVIEW_LANGUAGE: " + language + ". Must be 'vietnamese' or 'english'"
  }

  /** The messages `Config.validate` reports, one per failing check, in the order of the checks. */
  function ValidationErrors(c: Settings): seq<string> {
    (if IsSet(c.geminiApiKey) then [] else [GEMINI_KEY_UNSET])
    + (if IsSet(c.githubToken) then [] else [TOKEN_UNSET])
    + (if IsSet(c.githubRepository) then [] else [REPOSITORY_UNSET])
    + (if c.reviewLanguage in LANGUAGES then [] else [InvalidLanguage(c.reviewLanguage)])
  }

  /** `Config.validate`: builds the list of messages by successive appends. */
  method Validate(c: Settings) returns (errors: seq<string>)
    ensures errors == ValidationErrors(c)
    ensures errors == [] <==>
      IsSet(c.geminiApiKey) && IsSet(c.githubToken) && IsSet(c.githubRepository) && c.reviewLanguage in LANGUAGES
  {
    errors := [];
    if !IsSet(c.geminiApiKey) {
      errors := errors + [GEMINI_KEY_UNSET];
    }
    if !IsSet(c.githubToken) {
      errors := errors + [TOKEN_UNSET];
    }
    if !IsSet(c.githubRepository) {
      errors := errors + [REPOSITORY_UNSET];
    }
    if c.reviewLanguage !in LANGUAGES {
      errors := errors + [InvalidLanguage(c.reviewLanguage)];
    }
  }

  /** The four messages differ from each other, whatever the language. */
  lemma MessagesDistinct(language: string)
    ensures GEMINI_KEY_UNSET != TOKEN_UNSET && GEMINI_KEY_UNSET != REPOSITORY_UNSET && TOKEN_UNSET != REPOSITORY_UNSET
    ensures InvalidLanguage(language) !in [GEMINI_KEY_UNSET, TOKEN_UNSET, REPOSITORY_UNSET]
  {
    assert GEMINI_KEY_UNSET[1] == 'E' && TOKEN_UNSET[1] == 'I';
    assert REPOSITORY_UNSET[7] == 'R' && TOKEN_UNSET[7] == 'T';
    assert InvalidLanguage(language)[0] == 'I';
  }

  /** There is one message per failing check. */
  lemma ValidationCount(c: Settings)
    ensures |ValidationErrors(c)| ==
      (if IsSet(c.geminiApiKey) then 0 else 1) + (if IsSet(c.githubToken) then 0 else 1)
      + (if IsSet(c.githubRepository) then 0 else 1) + (if c.reviewLanguage in LANGUAGES then 0 else 1)
  {
  }

  /** Each message is reported exactly when its check fails. */
  lemma ValidationMessages(c: Settings)
    ensures GEMINI_KEY_UNSET in ValidationErrors(c) <==> !IsSet(c.geminiApiKey)
    ensures TOKEN_UNSET in ValidationErrors(c) <==> !IsSet(c.githubToken)
    ensures REPOSITORY_UNSET in ValidationErrors(c) <==> !IsSet(c.githubRepository)
    ensures InvalidLanguage(c.reviewLanguage) in ValidationErrors(c) <==> c.reviewLanguage !in LANGUAGES
  {
    MessagesDistinct(c.reviewLanguage);
  }

  /** The language message, when there is one, comes last and quotes the rejected value. */
  lemma InvalidLanguageQuoted(c: Settings)
    requires c.reviewLanguage !in LANGUAGES
    ensures ValidationErrors(c)[|ValidationErrors(c)| - 1] == InvalidLanguage(c.reviewLanguage)
    ensures Contains(InvalidLanguage(c.reviewLanguage), c.reviewLanguage)
  {
    ContainsInfix("Invalid REVIEW_LANGUAGE: ", c.reviewLanguage, ". Must be 'vietnamese' or 'english'");
  }

  /** An empty variable fails validation exactly like a missing one. */
  lemma EmptyIsUnset(c: Settings)
    ensures ValidationErrors(c.(geminiApiKey := Some(""))) == ValidationErrors(c.(geminiApiKey := None))
    ensures ValidationErrors(c.(githubToken := Some(""))) == ValidationErrors(c.(githubToken := None))
    ensures ValidationErrors(c.(githubRepository := Some(""))) == ValidationErrors(c.(githubRepository := None))
  {
  }

  /** An unset `REVIEW_LANGUAGE`, or any capitalisation of a supported one, passes the language check. */
  lemma {:induction false} LanguageCheckAcceptsDefaultsAndCase(env: Environment)
    requires env.reviewLanguage.None? || Lower(env.reviewLanguage.value) in LANGUAGES
    ensures InvalidLanguage(FromEnvironment(env).reviewLanguage) !in ValidationErrors(FromEnvironment(env))
  {
    var c := FromEnvironment(env);
    if env.reviewLanguage.None? {
      assert Lower("vietnamese") == "vietnamese";
    }
    assert c.reviewLanguage in LANGUAGES;
    ValidationMessages(c);
  }

  /** "English" is accepted: it lowers to "english". */
  lemma CapitalisedEnglishAccepted(env: Environment)
    requires env.reviewLanguage == Some("English")
    ensures FromEnvironment(env).reviewLanguage == "english"
  {
    assert Lower("English") == "english";
  }
}

/** The small helpers of the reviewer: the PR number in a Git ref, and two messages. */
module Utils {
  import opened Wrappers
  import opened Text

  /** `get_pr_number_from_ref`: the third `/`-separated component of `refs/pull/<PR>/...`. */
  function PrNumberFromRef(ref: string): (r: Option<string>)
    ensures r.Some? <==> |Split(ref, '/')| >= 3 && Split(ref, '/')[1] == "pull"
    ensures r.Some? ==> r.value == Split(ref, '/')[2] && '/' !in r.value
  {
    var parts := Split(ref, '/');
    if |parts| >= 3 && parts[1] == "pull" then Some(parts[2]) else None
  }

  /** The first two components of `a/b/rest`. */
  lemma {:induction false} SplitTwoComponents(a: string, b: string, rest: string)
    requires '/' !in a && '/' !in b
    ensures Split(a + "/" + b + "/" + rest, '/') == [a, b] + Split(rest, '/')
  {
    var tail := Split(rest, '/');
    var s1 := "/" + rest;
    assert s1[1..] == rest;
    assert Split(s1, '/') == [""] + tail;
    var s2 := b + s1;
    SplitAfterPiece(b, s1, '/');
    assert b + "" == b;
    assert Split(s2, '/') == [b] + tail;
    var s3 := "/" + s2;
    assert s3[1..] == s2;
    assert Split(s3, '/') == ["", b] + tail;
    var s4 := a + s3;
    SplitAfterPiece(a, s3, '/');
    assert a + "" == a;
    assert (["", b] + tail)[1..] == [b] + tail;
    assert a + "/" + b + "/" + rest == s4;
  }

  /** The number comes back out of any ref built as `refs/pull/<n>/<rest>`. */
  lemma PrNumberRoundTrip(n: string, rest: string)
    requires '/' !in n
    ensures PrNumberFromRef("refs/pull/" + n + "/" + rest) == Some(n)
  {
    var tail := n + "/" + rest;
    assert Split(tail, '/')[0] == n by {
      assert tail == n + ("/" + rest);
      assert ("/" + rest)[1..] == rest;
      assert Split("/" + rest, '/')[0] == "";
      SplitAfterPiece(n, "/" + rest, '/');
      assert n + "" == n;
    }
    assert Split("refs" + "/" + "pull" + "/" + tail, '/') == ["refs", "pull"] + Split(tail, '/') by {
      SplitTwoComponents("refs", "pull", tail);
    }
    assert "refs/pull/" + n + "/" + rest == "refs" + "/" + "pull" + "/" + tail;
  }

  /** A ref whose second component is not "pull" has no PR number. */
  lemma NoPrNumberUnlessPull(a: string, b: string, rest: string)
    requires '/' !in a && '/' !in b && b != "pull"
    ensures PrNumberFromRef(a + "/" + b + "/" + rest) == None
  {
    SplitTwoComponents(a, b, rest);
  }

  /** The documented examples. */
  lemma PrNumberOfMergeRef()
    ensures PrNumberFromRef("refs/pull/123/merge") == Some("123")
  {
    PrNumberRoundTrip("123", "merge");
    assert "refs/pull/" + "123" + "/" + "merge" == "refs/pull/123/merge";
  }

  lemma PrNumberOfHeadRef()
    ensures PrNumberFromRef("refs/pull/456/head") == Some("456")
  {
    PrNumberRoundTrip("456", "head");
    assert "refs/pull/" + "456" + "/" + "head" == "refs/pull/456/head";
  }

  lemma NoPrNumberInBranchRef()
    ensures PrNumberFromRef("refs/heads/main") == None
  {
    NoPrNumberUnlessPull("refs", "heads", "main");
    assert "refs" + "/" + "heads" + "/" + "main" == "refs/heads/main";
  }

  const VALIDATION_HEADER: string := "\U{201A}\U{F9}\U{E5} Configuration validation failed:"

  function Bullets(errors: seq<string>): (lines: seq<string>)
    ensures |lines| == |errors|
    ensures forall i :: 0 <= i < |errors| ==> lines[i] == "   - " + errors[i]
  {
    seq(|errors|, i requires 0 <= i < |errors| => "   - " + errors[i])
  }

  /** `format_validation_errors` */
  function FormatValidationErrors(errors: seq<string>): (r: string)
    ensures r == "" <==> errors == []
  {
    if errors == [] then "" else VALIDATION_HEADER + "\n" + Join(Bullets(errors), "\n")
  }

  /** Read line by line, the message is the header and then one bulleted line per error, in order. */
  lemma FormatValidationErrorsLines(errors: seq<string>)
    requires errors != []
    requires forall i :: 0 <= i < |errors| ==> '\n' !in errors[i]
    ensures Split(FormatValidationErrors(errors), '\n') == [VALIDATION_HEADER] + Bullets(errors)
  {
    var lines := [VALIDATION_HEADER] + Bullets(errors);
    assert lines[1..] == Bullets(errors);
    assert Join(lines, "\n") == FormatValidationErrors(errors);
    forall i | 0 <= i < |lines| ensures '\n' !in lines[i] {
      if i > 0 {
        assert lines[i] == "   - " + errors[i - 1];
      }
    }
    SplitJoin(lines, '\n');
  }

  /** The warning sign (as it appears in the source, mis-decoded) and the words both fallback texts open with. */
  const FALLBACK_OPENING: string := "\U{201A}\U{F6}\U{2020}\U{D4}\U{220F}\U{E8} AI review "
  const ENGLISH_OPENING: string := FALLBACK_OPENING + "could"
  const VIETNAMESE_OPENING: string := FALLBACK_OPENING + "kh\U{221A}\U{A5}ng"
  const ENGLISH_BODY: string :=
    " not be generated due to configuration or API error.\n\n"
    + "Please ensure OPENROUTER_API_KEY is set correctly.\n\nError details:\n"
  const VIETNAMESE_BODY: string :=
    " th\U{B7}\U{AA}\U{C9} t\U{B7}\U{222B}\U{B0}o "
    + "\U{192}\U{EB}\U{2206}\U{221E}\U{B7}\U{AA}\U{A3}c do l\U{B7}\U{AA}\U{F3}i c\U{B7}\U{222B}\U{2022}u h\U{221A}\U{A8}nh "
    + "ho\U{B7}\U{222B}\U{2211}c API.\n\n\U{192}\U{EA}\U{B7}\U{222B}\U{A3}m b\U{B7}\U{222B}\U{A3}o OPENROUTER_API_KEY "
    + "\U{192}\U{EB}\U{221A}\U{A3} \U{192}\U{EB}\U{2206}\U{221E}\U{B7}\U{AA}\U{A3}c set \U{192}\U{EB}\U{221A}\U{222B}ng."
    + "\n\nChi ti\U{B7}\U{222B}\U{F8}t l\U{B7}\U{AA}\U{F3}i:\n"
  const FENCE_OPEN: string := "```\n"
  const FENCE_CLOSE: string := "\n```"

  /** `create_fallback_comment`: English only for exactly "english"; the error text sits verbatim in a code fence at the end. */
  function CreateFallbackComment(language: string, errorMessage: string): (r: string)
    ensures EndsWith(r, FENCE_OPEN + errorMessage + FENCE_CLOSE)
    ensures StartsWith(r, ENGLISH_OPENING) <==> language == "english"
    ensures language != "english" ==> StartsWith(r, VIETNAMESE_OPENING)
  {
    var opening := if language == "english" then ENGLISH_OPENING else VIETNAMESE_OPENING;
    var body := if language == "english" then ENGLISH_BODY else VIETNAMESE_BODY;
    var fenced := FENCE_OPEN + errorMessage + FENCE_CLOSE;
    var r := opening + (body + fenced);
    assert r[|r| - |fenced|..] == fenced;
    assert |ENGLISH_OPENING| <= |opening|;
    assert r[..|ENGLISH_OPENING|] == opening[..|ENGLISH_OPENING|];
    assert opening[..|ENGLISH_OPENING|][|FALLBACK_OPENING|] == (if language == "english" then 'c' else 'k');
    r
  }
}

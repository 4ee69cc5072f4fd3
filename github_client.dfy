/**
 * The text side of `GitHubClient`: how a long review is cut into comment-sized
 * chunks at line boundaries (`_split_review_into_chunks`), and which comment
 * bodies `post_review_chunked` posts, in order. The HTTP calls are not modelled.
 */
module GitHubClient {
  import opened Text
  import opened Config

  /** The split markers of the source, mis-decoded emoji included, code point by code point. */
  const RED_CIRCLE: string := "\U{F0}\U{178}\U{201D}\U{B4}"
  const WARNING_SIGN: string := "\U{E2}\U{161}\U{A0}\U{EF}\U{B8}"
  const LIGHT_BULB: string := "\U{F0}\U{178}\U{2019}\U{A1}"
  const CHECK_MARK: string := "\U{E2}\U{153}\U{2026}"
  const BOUNDARY_MARKERS: seq<string> := ["##", "###", RED_CIRCLE, WARNING_SIGN, LIGHT_BULB, CHECK_MARK, "---"]

  /** `s.startswith(prefixes)` for a tuple of prefixes. */
  predicate StartsWithAny(s: string, prefixes: seq<string>)
    decreases |prefixes|
  {
    prefixes != [] && (StartsWith(s, prefixes[0]) || StartsWithAny(s, prefixes[1..]))
  }

  /** Lines, each followed by a newline, as the splitter accumulates them. */
  function LinesText(lines: seq<string>): string
    decreases |lines|
  {
    if lines == [] then "" else lines[0] + "\n" + LinesText(lines[1..])
  }

  /** The splitter's state between two lines: the closed chunks and the current one. */
  datatype Pending = Pending(chunks: seq<string>, current: string)

  /** The closed chunks, plus the stripped current chunk when it is not blank. */
  function Close(p: Pending): seq<string> {
    if Strip(p.current) != "" then p.chunks + [Strip(p.current)] else p.chunks
  }

  /**
   * One line of `_split_review_into_chunks`. Within the limit the line is
   * appended. Over it, a marker line closes the current chunk and starts the
   * next; any other line does the same unless the current chunk is blank, in
   * which case the line is skipped.
   */
  function Step(p: Pending, line: string, limit: int): Pending {
    if |p.current| > limit then
      if StartsWithAny(Strip(line), BOUNDARY_MARKERS) then
        Pending(Close(p), line + "\n")
      else if Strip(p.current) != "" then
        Pending(p.chunks + [Strip(p.current)], line + "\n")
      else
        p
    else
      Pending(p.chunks, p.current + line + "\n")
  }

  function Fold(p: Pending, lines: seq<string>, limit: int): Pending
    decreases |lines|
  {
    if lines == [] then p else Fold(Step(p, lines[0], limit), lines[1..], limit)
  }

  /** The chunks `_split_review_into_chunks(text, limit)` returns. */
  function SplitReview(text: string, limit: int): seq<string> {
    Close(Fold(Pending([], ""), Split(text, '\n'), limit))
  }

  /** `_split_review_into_chunks`: one pass over the lines. */
  method SplitReviewIntoChunks(text: string, safeLimit: int) returns (chunks: seq<string>)
    ensures chunks == SplitReview(text, safeLimit)
    ensures forall k :: 0 <= k < |chunks| ==> chunks[k] != "" && Strip(chunks[k]) == chunks[k]
  {
    chunks := [];
    var currentChunk := "";
    var lines := Split(text, '\n');
    ghost var goal := Fold(Pending([], ""), lines, safeLimit);
    assert lines[0..] == lines;
    for i := 0 to |lines|
      invariant Fold(Pending(chunks, currentChunk), lines[i..], safeLimit) == goal
    {
      var line := lines[i];
      ghost var before := Pending(chunks, currentChunk);
      var testChunk := currentChunk + line + "\n";
      if |currentChunk| > safeLimit {
        if StartsWithAny(Strip(line), BOUNDARY_MARKERS) {
          if Strip(currentChunk) != "" {
            chunks := chunks + [Strip(currentChunk)];
          }
          currentChunk := line + "\n";
        } else if Strip(currentChunk) != "" {
          chunks := chunks + [Strip(currentChunk)];
          currentChunk := line + "\n";
        }
      } else {
        currentChunk := testChunk;
      }
      assert Pending(chunks, currentChunk) == Step(before, line, safeLimit);
      assert lines[i..] == [line] + lines[i + 1..];
    }
    assert lines[|lines|..] == [];
    if Strip(currentChunk) != "" {
      chunks := chunks + [Strip(currentChunk)];
    }
    SplitStripped(text, safeLimit);
  }

  /** Every chunk is stripped and not empty. */
  predicate AllStripped(chunks: seq<string>) {
    forall k :: 0 <= k < |chunks| ==> chunks[k] != "" && Strip(chunks[k]) == chunks[k]
  }

  lemma CloseStripped(p: Pending)
    requires AllStripped(p.chunks)
    ensures AllStripped(Close(p))
  {
    if Strip(p.current) != "" {
      StripIdempotent(p.current);
    }
  }

  lemma {:induction false} FoldStripped(p: Pending, lines: seq<string>, limit: int)
    requires AllStripped(p.chunks)
    ensures AllStripped(Fold(p, lines, limit).chunks)
    decreases |lines|
  {
    if lines != [] {
      CloseStripped(p);
      FoldStripped(Step(p, lines[0], limit), lines[1..], limit);
    }
  }

  /** The chunks of a split are stripped and never empty. */
  lemma SplitStripped(text: string, limit: int)
    ensures AllStripped(SplitReview(text, limit))
  {
    var p := Fold(Pending([], ""), Split(text, '\n'), limit);
    FoldStripped(Pending([], ""), Split(text, '\n'), limit);
    CloseStripped(p);
  }

  /**
   * Once the current chunk has content, a marker line is treated like any
   * other: over the limit the chunk is closed before the line whatever the line says.
   */
  lemma MarkersOnlyMatterAfterBlank(p: Pending, line: string, other: string, limit: int)
    requires Strip(p.current) != ""
    requires StartsWithAny(Strip(line), BOUNDARY_MARKERS) && !StartsWithAny(Strip(other), BOUNDARY_MARKERS)
    ensures Step(p, line, limit).chunks == Step(p, other, limit).chunks
    ensures |p.current| > limit ==> Step(p, line, limit).current == line + "\n" && Step(p, other, limit).current == other + "\n"
  {
  }

  lemma {:induction false} LinesTextSnoc(lines: seq<string>, x: string)
    ensures LinesText(lines + [x]) == LinesText(lines) + x + "\n"
    decreases |lines|
  {
    if lines == [] {
      assert [x][1..] == [];
    } else {
      assert (lines + [x])[1..] == lines[1..] + [x];
      LinesTextSnoc(lines[1..], x);
    }
  }

  lemma {:induction false} LinesTextJoin(lines: seq<string>)
    requires lines != []
    ensures LinesText(lines) == Join(lines, "\n") + "\n"
    decreases |lines|
  {
    if |lines| > 1 {
      LinesTextJoin(lines[1..]);
    }
  }

  /** While the current chunk stays within the limit, the lines are only appended to it. */
  lemma {:induction false} FoldWithin(p: Pending, lines: seq<string>, limit: int)
    requires lines != [] ==> |p.current| + |LinesText(lines[..|lines| - 1])| <= limit
    ensures Fold(p, lines, limit) == Pending(p.chunks, p.current + LinesText(lines))
    decreases |lines|
  {
    if lines != [] {
      var q := Step(p, lines[0], limit);
      var rest := lines[1..];
      assert q == Pending(p.chunks, p.current + lines[0] + "\n");
      if rest != [] {
        assert lines[..|lines| - 1] == [lines[0]] + rest[..|rest| - 1];
        assert LinesText(lines[..|lines| - 1]) == lines[0] + "\n" + LinesText(rest[..|rest| - 1]);
      }
      FoldWithin(q, rest, limit);
      assert q.current + LinesText(rest) == p.current + LinesText(lines);
    }
  }

  /** A text no longer than the limit is one chunk, stripped, or none when it is blank. */
  lemma ShortTextOneChunk(text: string, limit: int)
    requires |text| <= limit
    ensures SplitReview(text, limit) == if Strip(text) == "" then [] else [Strip(text)]
  {
    var lines := Split(text, '\n');
    var init := lines[..|lines| - 1];
    JoinSplit(text, '\n');
    LinesTextJoin(lines);
    assert init + [lines[|lines| - 1]] == lines;
    LinesTextSnoc(init, lines[|lines| - 1]);
    FoldWithin(Pending([], ""), lines, limit);
    assert "" + LinesText(lines) == text + ['\n'];
    StripTrailingSpace(text, '\n');
  }

  /** A run of lines `lines[first..end]`. */
  datatype Span = Span(first: nat, end: nat)

  function SpanText(lines: seq<string>, s: Span): string
    requires s.first <= s.end <= |lines|
  {
    LinesText(lines[s.first..s.end])
  }

  /**
   * A closed chunk and the run it came from: the run is not empty, the text
   * before its last line stays within `limit`, the whole run goes over it,
   * and the chunk is the run's text stripped.
   */
  predicate SpanClosed(lines: seq<string>, limit: int, s: Span, chunk: string) {
    SpanFits(lines, limit, s, chunk) && |SpanText(lines, s)| > limit
  }

  /** The same without the last condition, which the final chunk need not meet. */
  predicate SpanFits(lines: seq<string>, limit: int, s: Span, chunk: string) {
    s.first < s.end <= |lines|
    && |LinesText(lines[s.first..s.end - 1])| <= limit
    && chunk == Strip(SpanText(lines, s))
  }

  predicate AllClosed(lines: seq<string>, limit: int, spans: seq<Span>, chunks: seq<string>) {
    |spans| == |chunks| && forall k :: 0 <= k < |spans| ==> SpanClosed(lines, limit, spans[k], chunks[k])
  }

  /** Runs in input order, without overlap. */
  predicate InOrder(spans: seq<Span>) {
    forall k :: 0 <= k < |spans| - 1 ==> spans[k].end <= spans[k + 1].first
  }

  /** The current chunk is the run `lines[start..end]`, which may take more lines only while it is within `limit`. */
  predicate Current(lines: seq<string>, limit: int, i: nat, current: string, start: nat, end: nat) {
    start <= end <= i <= |lines|
    && current == LinesText(lines[start..end])
    && (end < i ==> |current| > limit)
    && (start < end ==> |LinesText(lines[start..end - 1])| <= limit)
  }

  /**
   * What the splitter has done after `i` lines: the closed chunks come from
   * runs in order, all before the current chunk's run.
   */
  predicate Tracks(lines: seq<string>, limit: int, i: nat, p: Pending, spans: seq<Span>, start: nat, end: nat) {
    Current(lines, limit, i, p.current, start, end)
    && AllClosed(lines, limit, spans, p.chunks)
    && InOrder(spans)
    && (spans != [] ==> spans[|spans| - 1].end <= start)
  }

  lemma CloseSpan(lines: seq<string>, limit: int, spans: seq<Span>, chunks: seq<string>, s: Span, chunk: string)
    requires AllClosed(lines, limit, spans, chunks) && InOrder(spans)
    requires SpanClosed(lines, limit, s, chunk)
    requires spans != [] ==> spans[|spans| - 1].end <= s.first
    ensures AllClosed(lines, limit, spans + [s], chunks + [chunk]) && InOrder(spans + [s])
  {
    var spans', chunks' := spans + [s], chunks + [chunk];
    forall k | 0 <= k < |spans'| ensures SpanClosed(lines, limit, spans'[k], chunks'[k]) {
      if k < |spans| {
        assert spans'[k] == spans[k] && chunks'[k] == chunks[k];
      }
    }
    forall k | 0 <= k < |spans'| - 1 ensures spans'[k].end <= spans'[k + 1].first {
      if k < |spans| - 1 {
        assert spans'[k] == spans[k] && spans'[k + 1] == spans[k + 1];
      }
    }
  }

  /** A current run with visible text is not empty. */
  lemma NonBlankRun(lines: seq<string>, start: nat, end: nat)
    requires start <= end <= |lines| && Strip(LinesText(lines[start..end])) != ""
    ensures start < end
  {
  }

  /** A run of one line. */
  lemma OneLineRun(lines: seq<string>, i: nat)
    requires i < |lines|
    ensures LinesText(lines[i..i + 1]) == lines[i] + "\n"
    ensures lines[i..i] == [] && LinesText(lines[i..i]) == ""
  {
    assert lines[i..i + 1] == [lines[i]];
    assert lines[i..i + 1][1..] == [];
  }

  /** Appending a line within the limit extends the current run. */
  lemma ExtendRun(lines: seq<string>, limit: int, i: nat, current: string, start: nat)
    requires Current(lines, limit, i, current, start, i) && i < |lines| && |current| <= limit
    ensures Current(lines, limit, i + 1, current + lines[i] + "\n", start, i + 1)
  {
    assert lines[start..i + 1] == lines[start..i] + [lines[i]];
    LinesTextSnoc(lines[start..i], lines[i]);
    assert lines[start..i + 1][..i - start] == lines[start..i];
  }

  /** A current run over the limit is a closed run. */
  lemma CurrentCloses(lines: seq<string>, limit: int, i: nat, current: string, start: nat, end: nat)
    requires Current(lines, limit, i, current, start, end) && start < end && |current| > limit
    ensures SpanClosed(lines, limit, Span(start, end), Strip(current))
  {
  }

  /** Over the limit, a line either is skipped or closes the current chunk and starts the next. */
  lemma StepOver(p: Pending, line: string, limit: int)
    requires |p.current| > limit
    ensures Step(p, line, limit) == p || Step(p, line, limit) == Pending(Close(p), line + "\n")
  {
  }

  /** A skipped line leaves the current run as it is. */
  lemma SkipLine(lines: seq<string>, limit: int, i: nat, current: string, start: nat, end: nat)
    requires Current(lines, limit, i, current, start, end) && i < |lines| && |current| > limit
    ensures Current(lines, limit, i + 1, current, start, end)
  {
  }

  /** A line appended within the limit keeps `Tracks`. */
  lemma ExtendTracks(lines: seq<string>, limit: nat, i: nat, p: Pending, spans: seq<Span>, start: nat, end: nat)
    requires i < |lines| && Tracks(lines, limit, i, p, spans, start, end) && |p.current| <= limit
    ensures Tracks(lines, limit, i + 1, Pending(p.chunks, p.current + lines[i] + "\n"), spans, start, i + 1)
  {
    ExtendRun(lines, limit, i, p.current, start);
  }

  /** A skipped line keeps `Tracks`. */
  lemma SkipTracks(lines: seq<string>, limit: nat, i: nat, p: Pending, spans: seq<Span>, start: nat, end: nat)
    requires i < |lines| && Tracks(lines, limit, i, p, spans, start, end) && |p.current| > limit
    ensures Tracks(lines, limit, i + 1, p, spans, start, end)
  {
    SkipLine(lines, limit, i, p.current, start, end);
  }

  /** Closing the current chunk over the limit and starting the next keeps `Tracks`. */
  lemma CloseTracks(lines: seq<string>, limit: nat, i: nat, p: Pending, spans: seq<Span>, start: nat, end: nat)
    returns (spans': seq<Span>)
    requires i < |lines| && Tracks(lines, limit, i, p, spans, start, end) && |p.current| > limit
    ensures Tracks(lines, limit, i + 1, Pending(Close(p), lines[i] + "\n"), spans', i, i + 1)
  {
    OneLineRun(lines, i);
    assert Current(lines, limit, i + 1, lines[i] + "\n", i, i + 1);
    if Strip(p.current) != "" {
      NonBlankRun(lines, start, end);
      CurrentCloses(lines, limit, i, p.current, start, end);
      CloseSpan(lines, limit, spans, p.chunks, Span(start, end), Strip(p.current));
      spans' := spans + [Span(start, end)];
    } else {
      spans' := spans;
    }
  }

  /** One line of the splitter keeps `Tracks`. */
  lemma StepTracks(lines: seq<string>, limit: nat, i: nat, p: Pending, spans: seq<Span>, start: nat, end: nat)
    returns (spans': seq<Span>, start': nat, end': nat)
    requires i < |lines| && Tracks(lines, limit, i, p, spans, start, end)
    ensures Tracks(lines, limit, i + 1, Step(p, lines[i], limit), spans', start', end')
  {
    if |p.current| <= limit {
      ExtendTracks(lines, limit, i, p, spans, start, end);
      spans', start', end' := spans, start, i + 1;
    } else {
      StepOver(p, lines[i], limit);
      if Step(p, lines[i], limit) == p {
        SkipTracks(lines, limit, i, p, spans, start, end);
        spans', start', end' := spans, start, end;
      } else {
        spans' := CloseTracks(lines, limit, i, p, spans, start, end);
        start', end' := i, i + 1;
      }
    }
  }

  lemma {:induction false} FoldTracks(lines: seq<string>, limit: nat, i: nat, p: Pending, spans: seq<Span>, start: nat, end: nat)
    returns (spans': seq<Span>, start': nat, end': nat)
    requires Tracks(lines, limit, i, p, spans, start, end)
    ensures Tracks(lines, limit, |lines|, Fold(p, lines[i..], limit), spans', start', end')
    decreases |lines| - i
  {
    if i == |lines| {
      assert lines[i..] == [];
      spans', start', end' := spans, start, end;
    } else {
      assert lines[i..][0] == lines[i] && lines[i..][1..] == lines[i + 1..];
      var s1, a1, b1 := StepTracks(lines, limit, i, p, spans, start, end);
      spans', start', end' := FoldTracks(lines, limit, i + 1, Step(p, lines[i], limit), s1, a1, b1);
    }
  }

  /**
   * The chunks come from runs of consecutive lines, in input order and
   * without overlap. A run takes lines only while the chunk before each is
   * within the limit, and every chunk but the last was closed because it had
   * gone over the limit.
   */
  lemma SplitSpans(text: string, limit: nat) returns (spans: seq<Span>)
    ensures var lines := Split(text, '\n'); var chunks := SplitReview(text, limit);
      |spans| == |chunks| && InOrder(spans)
      && (forall k :: 0 <= k < |spans| ==> SpanFits(lines, limit, spans[k], chunks[k]))
      && (forall k :: 0 <= k < |spans| - 1 ==> |SpanText(lines, spans[k])| > limit)
  {
    var lines := Split(text, '\n');
    assert lines[0..0] == [] && lines[0..] == lines;
    var s, a, b := FoldTracks(lines, limit, 0, Pending([], ""), [], 0, 0);
    var p := Fold(Pending([], ""), lines, limit);
    if Strip(p.current) != "" {
      NonBlankRun(lines, a, b);
      LastSpan(lines, limit, s, p.chunks, Span(a, b), Strip(p.current));
      spans := s + [Span(a, b)];
    } else {
      spans := s;
    }
  }

  /** The chunks closed on the way and the last one, closed at the end of the text. */
  lemma LastSpan(lines: seq<string>, limit: int, spans: seq<Span>, chunks: seq<string>, s: Span, chunk: string)
    requires AllClosed(lines, limit, spans, chunks) && InOrder(spans)
    requires SpanFits(lines, limit, s, chunk)
    requires spans != [] ==> spans[|spans| - 1].end <= s.first
    ensures InOrder(spans + [s])
    ensures forall k :: 0 <= k < |spans| + 1 ==> SpanFits(lines, limit, (spans + [s])[k], (chunks + [chunk])[k])
    ensures forall k :: 0 <= k < |spans| ==> |SpanText(lines, (spans + [s])[k])| > limit
  {
    var spans', chunks' := spans + [s], chunks + [chunk];
    forall k | 0 <= k < |spans'| - 1 ensures spans'[k].end <= spans'[k + 1].first {
      if k < |spans| - 1 {
        assert spans'[k] == spans[k] && spans'[k + 1] == spans[k + 1];
      }
    }
    forall k | 0 <= k < |spans| ensures spans'[k] == spans[k] && chunks'[k] == chunks[k] {
    }
  }

  /** A string starts with none of the prefixes when its first character starts none of them. */
  lemma {:induction false} FirstCharRulesOut(s: string, prefixes: seq<string>)
    requires s != []
    requires forall k :: 0 <= k < |prefixes| ==> prefixes[k] != [] && prefixes[k][0] != s[0]
    ensures !StartsWithAny(s, prefixes)
    decreases |prefixes|
  {
    if prefixes != [] {
      forall k | 0 <= k < |prefixes| - 1
        ensures prefixes[1..][k] != [] && prefixes[1..][k][0] != s[0]
      {
        assert prefixes[1..][k] == prefixes[k + 1];
      }
      FirstCharRulesOut(s, prefixes[1..]);
    }
  }

  /** The markers begin with '#', '-' or the first code point of a mis-decoded emoji. */
  lemma NotMarkerLine(s: string)
    requires s != [] && s[0] != '#' && s[0] != '-' && s[0] != '\U{F0}' && s[0] != '\U{E2}'
    ensures !StartsWithAny(s, BOUNDARY_MARKERS)
  {
    forall k | 0 <= k < |BOUNDARY_MARKERS|
      ensures BOUNDARY_MARKERS[k] != [] && BOUNDARY_MARKERS[k][0] in {'#', '-', '\U{F0}', '\U{E2}'}
    {
    }
    FirstCharRulesOut(s, BOUNDARY_MARKERS);
  }

  /**
   * A line that arrives when the current chunk is over the limit but blank is
   * lost: with a limit of 0, the blank first line already fills the chunk, and
   * "hello" never reaches one.
   */
  lemma BlankOverflowLosesLine()
    ensures SplitReview("\nhello", 0) == []
  {
    var lines := ["", "hello"];
    var p1 := Pending([], "\n");
    TwoLines();
    assert Step(Pending([], ""), lines[0], 0) == p1;
    HelloSkipped();
    assert Fold(p1, lines[1..], 0) == p1 by {
      assert lines[1..][0] == lines[1] && lines[1..][1..] == [];
    }
    NewlineStrips();
  }

  lemma NewlineStrips()
    ensures Strip("\n") == ""
  {
  }

  lemma WordStrips()
    ensures Strip("hello") == "hello"
  {
  }

  lemma TwoLines()
    ensures Split("\nhello", '\n') == ["", "hello"]
  {
    SplitJoin(["", "hello"], '\n');
    assert Join(["", "hello"], "\n") == "\nhello";
  }

  lemma HelloSkipped()
    ensures Step(Pending([], "\n"), "hello", 0) == Pending([], "\n")
  {
    WordStrips();
    NotMarkerLine("hello");
    NewlineStrips();
  }

  /** The room a review has in a single comment, and the size of each part when it is split. */
  const SINGLE_COMMENT_ROOM: int := MAX_COMMENT_LENGTH - |COMMENT_HEADER|
  const SAFE_LIMIT: int := MAX_COMMENT_LENGTH - |COMMENT_HEADER| - 500

  const PART_LABEL_OPEN: string := "**Part "
  const PART_LABEL_CLOSE: string := "**\n\n"

  /** `f"**Part {i}/{n}**\n\n"` */
  function PartLabel(i: nat, n: nat): string {
    PART_LABEL_OPEN + (NatToString(i) + ("/" + (NatToString(n) + PART_LABEL_CLOSE)))
  }

  /** The body of part `i` (from 0) of `chunks`: the header, a part label when there are several, then the chunk. */
  function PartBody(chunks: seq<string>, i: nat): string
    requires i < |chunks|
  {
    COMMENT_HEADER + (if |chunks| > 1 then PartLabel(i + 1, |chunks|) else "") + chunks[i]
  }

  /** The bodies of all the parts, in order. */
  function PartBodies(chunks: seq<string>): (bodies: seq<string>)
    ensures |bodies| == |chunks|
    ensures forall i :: 0 <= i < |chunks| ==> bodies[i] == PartBody(chunks, i)
  {
    seq(|chunks|, i requires 0 <= i < |chunks| => PartBody(chunks, i))
  }

  /** The comment bodies `post_review_chunked` posts, in order. */
  function ReviewBodies(reviewText: string): seq<string> {
    if |reviewText| <= SINGLE_COMMENT_ROOM then [COMMENT_HEADER + reviewText]
    else PartBodies(SplitReview(reviewText, SAFE_LIMIT))
  }

  /** What `post_review_chunked` does, in order: post a comment body, or wait a number of seconds. */
  datatype Action = Post(body: string) | Sleep(seconds: nat)

  /** The actions for the first `i` bodies: each is posted, and a one-second wait follows every body but the last. */
  function PostingsUpTo(bodies: seq<string>, i: nat): seq<Action>
    requires i <= |bodies|
    decreases i
  {
    if i == 0 then []
    else PostingsUpTo(bodies, i - 1) + [Post(bodies[i - 1])] + (if i < |bodies| then [Sleep(1)] else [])
  }

  function Postings(bodies: seq<string>): seq<Action> {
    PostingsUpTo(bodies, |bodies|)
  }

  /** Posts and waits alternate: even places post the bodies in order, odd places wait one second. */
  lemma {:induction false} PostingsUpToShape(bodies: seq<string>, i: nat)
    requires i <= |bodies|
    ensures |PostingsUpTo(bodies, i)| == if i == 0 then 0 else if i < |bodies| then 2 * i else 2 * i - 1
    ensures forall j :: 0 <= j < |PostingsUpTo(bodies, i)| ==>
      PostingsUpTo(bodies, i)[j] == if j % 2 == 0 then Post(bodies[j / 2]) else Sleep(1)
    decreases i
  {
    if i > 0 {
      PostingsUpToShape(bodies, i - 1);
      var before := PostingsUpTo(bodies, i - 1);
      var r := PostingsUpTo(bodies, i);
      assert |before| == 2 * (i - 1);
      forall j | 0 <= j < |r|
        ensures r[j] == if j % 2 == 0 then Post(bodies[j / 2]) else Sleep(1)
      {
        if j < |before| {
          assert r[j] == before[j];
        } else if j == |before| {
          assert r[j] == Post(bodies[i - 1]);
          assert j / 2 == i - 1;
        } else {
          assert r[j] == Sleep(1);
        }
      }
    }
  }

  /**
   * `n` bodies give `2n - 1` actions: the bodies are posted in order, with a
   * wait of one second between two posts and none after the last.
   */
  lemma PostingsShape(bodies: seq<string>)
    ensures |Postings(bodies)| == if bodies == [] then 0 else 2 * |bodies| - 1
    ensures forall j :: 0 <= j < |Postings(bodies)| ==>
      Postings(bodies)[j] == if j % 2 == 0 then Post(bodies[j / 2]) else Sleep(1)
  {
    PostingsUpToShape(bodies, |bodies|);
  }

  /** `post_review_chunked` with the posts and waits as its result: the loop over the parts posts them in order. */
  method PostReviewChunked(reviewText: string) returns (actions: seq<Action>)
    ensures actions == Postings(ReviewBodies(reviewText))
    ensures |reviewText| <= SINGLE_COMMENT_ROOM ==> actions == [Post(COMMENT_HEADER + reviewText)]
  {
    var header := COMMENT_HEADER;
    var maxLength := MAX_COMMENT_LENGTH;
    if |reviewText| <= maxLength - |header| {
      var fullComment := header + reviewText;
      actions := [Post(fullComment)];
      assert actions == PostingsUpTo([fullComment], 1);
      return;
    }
    var chunks := SplitReviewIntoChunks(reviewText, maxLength - |header| - 500);
    ghost var bodies := PartBodies(chunks);
    actions := [];
    for i := 0 to |chunks|
      invariant actions == PostingsUpTo(bodies, i)
    {
      var partHeader := header;
      if |chunks| > 1 {
        partHeader := partHeader + PartLabel(i + 1, |chunks|);
      }
      var commentBody := partHeader + chunks[i];
      assert commentBody == bodies[i] by {
        assert COMMENT_HEADER + "" == COMMENT_HEADER;
      }
      actions := actions + [Post(commentBody)];
      if i + 1 < |chunks| {
        actions := actions + [Sleep(1)];
      }
    }
  }

  /** Each body opens with the header and ends with its chunk; between them is the part label when there are several parts. */
  lemma PartBodyShape(chunks: seq<string>, i: nat)
    requires i < |chunks|
    ensures StartsWith(PartBody(chunks, i), COMMENT_HEADER) && EndsWith(PartBody(chunks, i), chunks[i])
    ensures |chunks| == 1 ==> PartBody(chunks, i) == COMMENT_HEADER + chunks[i]
    ensures |chunks| > 1 ==> PartBody(chunks, i)[|COMMENT_HEADER|..] == PartLabel(i + 1, |chunks|) + chunks[i]
  {
    var partLabel := if |chunks| > 1 then PartLabel(i + 1, |chunks|) else "";
    var body := PartBody(chunks, i);
    assert body == COMMENT_HEADER + (partLabel + chunks[i]);
    assert body[..|COMMENT_HEADER|] == COMMENT_HEADER;
    assert body[|COMMENT_HEADER|..] == partLabel + chunks[i];
    assert body[|body| - |chunks[i]|..] == chunks[i];
    if |chunks| == 1 {
      assert partLabel + chunks[i] == chunks[i];
    }
  }

  /** A review that fits is posted as one comment of at most `MAX_COMMENT_LENGTH` characters. */
  lemma ShortReviewOneComment(reviewText: string)
    requires |reviewText| <= SINGLE_COMMENT_ROOM
    ensures ReviewBodies(reviewText) == [COMMENT_HEADER + reviewText]
    ensures |COMMENT_HEADER + reviewText| <= MAX_COMMENT_LENGTH
  {
  }

  /**
   * A long review: one body per chunk, each the header, then the part label
   * when there are several, then the chunk; the chunks are stripped and not empty.
   */
  lemma LongReviewBodies(reviewText: string)
    requires |reviewText| > SINGLE_COMMENT_ROOM
    ensures var chunks := SplitReview(reviewText, SAFE_LIMIT); var bodies := ReviewBodies(reviewText);
      |bodies| == |chunks| && AllStripped(chunks)
      && (forall i :: 0 <= i < |bodies| ==> StartsWith(bodies[i], COMMENT_HEADER) && EndsWith(bodies[i], chunks[i]))
      && (|chunks| == 1 ==> bodies == [COMMENT_HEADER + chunks[0]])
      && (|chunks| > 1 ==> forall i :: 0 <= i < |bodies| ==>
            bodies[i][|COMMENT_HEADER|..] == PartLabel(i + 1, |chunks|) + chunks[i])
  {
    var chunks := SplitReview(reviewText, SAFE_LIMIT);
    var bodies := PartBodies(chunks);
    SplitStripped(reviewText, SAFE_LIMIT);
    forall i | 0 <= i < |bodies|
      ensures StartsWith(bodies[i], COMMENT_HEADER) && EndsWith(bodies[i], chunks[i])
      ensures |chunks| == 1 ==> bodies[i] == COMMENT_HEADER + chunks[i]
      ensures |chunks| > 1 ==> bodies[i][|COMMENT_HEADER|..] == PartLabel(i + 1, |chunks|) + chunks[i]
    {
      PartBodyShape(chunks, i);
    }
  }

  /** The part labels of one review name their parts: equal labels mean the same part of the same count. */
  lemma PartLabelUnique(i1: nat, n1: nat, i2: nat, n2: nat)
    requires PartLabel(i1, n1) == PartLabel(i2, n2)
    ensures i1 == i2 && n1 == n2
  {
    var t1 := NatToString(i1) + ("/" + (NatToString(n1) + PART_LABEL_CLOSE));
    var t2 := NatToString(i2) + ("/" + (NatToString(n2) + PART_LABEL_CLOSE));
    assert PartLabel(i1, n1)[|PART_LABEL_OPEN|..] == t1;
    assert PartLabel(i2, n2)[|PART_LABEL_OPEN|..] == t2;
    NumberPairUnique(NatToString(i1), NatToString(n1), PART_LABEL_CLOSE,
                     NatToString(i2), NatToString(n2), PART_LABEL_CLOSE);
    NatToStringRoundTrip(i1);
    NatToStringRoundTrip(i2);
    NatToStringRoundTrip(n1);
    NatToStringRoundTrip(n2);
  }
}

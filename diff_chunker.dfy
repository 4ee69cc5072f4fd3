/**
 * The diff chunker: finds the `diff --git ` line of every file in a unified
 * diff, decides whether the diff is large enough to be reviewed in parts, and
 * packs whole files greedily into chunks of at most 40,000 characters.
 */
module DiffChunker {
  import opened Text

  const SINGLE_PASS_FILE_THRESHOLD: nat := 5
  const SINGLE_PASS_CHAR_THRESHOLD: nat := 30000
  const MAX_CHUNK_SIZE: nat := 40000

  /** The line that opens each file's section of a unified diff. */
  const FILE_MARKER: string := "diff --git "

  /** Where a file's section starts: character offset, line number, and the path after `b/`. */
  datatype FileBoundary = FileBoundary(position: nat, lineNum: nat, filePath: string)

  /** The path named on a `diff --git a/x b/x` line: the fourth space-separated word, less one leading `b/`. */
  function PathOf(line: string): string {
    var parts := Split(line, ' ');
    var candidate := if |parts| >= 4 then parts[3] else "unknown";
    if StartsWith(candidate, "b/") then candidate[2..] else candidate
  }

  /** The path has no space; it is "unknown" for a line of fewer than four words, else the fourth word less at most one `b/`. */
  lemma PathOfFacts(line: string)
    ensures ' ' !in PathOf(line)
    ensures |Split(line, ' ')| < 4 ==> PathOf(line) == "unknown"
    ensures |Split(line, ' ')| >= 4 ==>
      Split(line, ' ')[3] == PathOf(line) || Split(line, ' ')[3] == "b/" + PathOf(line)
  {
    var parts := Split(line, ' ');
    assert !StartsWith("unknown", "b/") by {
      assert "unknown"[..2][0] == 'u';
    }
    if |parts| >= 4 && StartsWith(parts[3], "b/") {
      assert parts[3] == parts[3][..2] + parts[3][2..];
    }
  }

  /** The path comes back out of the line git writes for it. */
  lemma PathOfGitLine(a: string, path: string)
    requires ' ' !in a && ' ' !in path
    ensures PathOf(FILE_MARKER + "a/" + a + " b/" + path) == path
  {
    var words := ["diff", "--git", "a/" + a, "b/" + path];
    forall i | 0 <= i < |words| ensures ' ' !in words[i] {
    }
    SplitJoin(words, ' ');
    assert Join(words, " ") == FILE_MARKER + "a/" + a + " b/" + path by {
      assert words[1..][1..][1..] == ["b/" + path];
      assert words[1..][1..] == ["a/" + a, "b/" + path];
      assert words[1..] == ["--git", "a/" + a, "b/" + path];
      assert Join(words[1..][1..], " ") == ("a/" + a) + " " + ("b/" + path);
      assert Join(words[1..], " ") == "--git" + " " + (("a/" + a) + " " + ("b/" + path));
      assert Join(words, " ") == "diff" + " " + ("--git" + " " + (("a/" + a) + " " + ("b/" + path)));
      assert "diff" + " " + "--git" + " " == FILE_MARKER;
    }
    assert ("b/" + path)[..2] == "b/";
    assert ("b/" + path)[2..] == path;
  }

  /** The boundaries among `lines`, the first of which starts at offset `pos` and has number `lineNum`. */
  function ScanLines(lines: seq<string>, pos: nat, lineNum: nat): seq<FileBoundary>
    decreases |lines|
  {
    if lines == [] then []
    else
      (if StartsWith(lines[0], FILE_MARKER) then [FileBoundary(pos, lineNum, PathOf(lines[0]))] else [])
      + ScanLines(lines[1..], pos + |lines[0]| + 1, lineNum + 1)
  }

  /** The file boundaries of a diff, read line by line. */
  function Boundaries(text: string): seq<FileBoundary> {
    ScanLines(Split(text, '\n'), 0, 0)
  }

  /** `_extract_file_boundaries`: one pass over the lines, keeping a running character offset. */
  method ExtractFileBoundaries(text: string) returns (files: seq<FileBoundary>)
    ensures files == Boundaries(text)
  {
    files := [];
    var lines := Split(text, '\n');
    ghost var goal := ScanLines(lines, 0, 0);
    assert lines[0..] == lines;
    var currentPos: nat := 0;
    var i := 0;
    while i < |lines|
      invariant 0 <= i <= |lines|
      invariant files + ScanLines(lines[i..], currentPos, i) == goal
    {
      var line := lines[i];
      ghost var before := files;
      if StartsWith(line, FILE_MARKER) {
        files := files + [FileBoundary(currentPos, i, PathOf(line))];
      }
      assert files + ScanLines(lines[i + 1..], currentPos + |line| + 1, i + 1) == goal by {
        ScanAdvance(before, lines, i, currentPos);
      }
      currentPos := currentPos + |line| + 1;
      i := i + 1;
    }
    assert lines[i..] == [];
  }

  /** One step of the scan, appended to the boundaries found so far. */
  lemma ScanAdvance(found: seq<FileBoundary>, lines: seq<string>, i: nat, pos: nat)
    requires i < |lines|
    ensures (if StartsWith(lines[i], FILE_MARKER) then found + [FileBoundary(pos, i, PathOf(lines[i]))] else found)
      + ScanLines(lines[i + 1..], pos + |lines[i]| + 1, i + 1)
      == found + ScanLines(lines[i..], pos, i)
  {
    ScanStep(lines, i, pos);
    var later := ScanLines(lines[i + 1..], pos + |lines[i]| + 1, i + 1);
    if StartsWith(lines[i], FILE_MARKER) {
      assert (found + [FileBoundary(pos, i, PathOf(lines[i]))]) + later
        == found + ([FileBoundary(pos, i, PathOf(lines[i]))] + later);
    } else {
      assert [] + later == later;
    }
  }

  /** One step of the scan: line `i` contributes a boundary exactly when it starts with the marker. */
  lemma ScanStep(lines: seq<string>, i: nat, pos: nat)
    requires i < |lines|
    ensures ScanLines(lines[i..], pos, i) ==
      (if StartsWith(lines[i], FILE_MARKER) then [FileBoundary(pos, i, PathOf(lines[i]))] else [])
      + ScanLines(lines[i + 1..], pos + |lines[i]| + 1, i + 1)
  {
    assert lines[i..][0] == lines[i];
    assert lines[i..][1..] == lines[i + 1..];
  }

  /** The boundaries of `lines` have line numbers inside them. */
  predicate InRange(b: seq<FileBoundary>, n: nat, count: nat) {
    forall k :: 0 <= k < |b| ==> n <= b[k].lineNum < n + count
  }

  lemma {:induction false} ScanLinesRange(lines: seq<string>, pos: nat, n: nat)
    ensures InRange(ScanLines(lines, pos, n), n, |lines|)
    decreases |lines|
  {
    if lines != [] {
      var pos' := pos + |lines[0]| + 1;
      ScanLinesRange(lines[1..], pos', n + 1);
    }
  }

  /** Boundary `f` names a line of `lines` that starts with the marker, sits at that line's offset and carries its path. */
  predicate Marks(f: FileBoundary, lines: seq<string>, pos: nat, n: nat) {
    n <= f.lineNum < n + |lines|
    && f.position == pos + LineOffset(lines, f.lineNum - n)
    && StartsWith(lines[f.lineNum - n], FILE_MARKER)
    && f.filePath == PathOf(lines[f.lineNum - n])
  }

  predicate MarksLines(b: seq<FileBoundary>, lines: seq<string>, pos: nat, n: nat) {
    forall k :: 0 <= k < |b| ==> Marks(b[k], lines, pos, n)
  }

  lemma {:induction false} ScanLinesSound(lines: seq<string>, pos: nat, n: nat)
    ensures MarksLines(ScanLines(lines, pos, n), lines, pos, n)
    decreases |lines|
  {
    if lines != [] {
      var b := ScanLines(lines, pos, n);
      var pos' := pos + |lines[0]| + 1;
      var tail := ScanLines(lines[1..], pos', n + 1);
      ScanLinesSound(lines[1..], pos', n + 1);
      var d := if StartsWith(lines[0], FILE_MARKER) then 1 else 0;
      assert b == (if d == 1 then [FileBoundary(pos, n, PathOf(lines[0]))] else []) + tail;
      forall k | 0 <= k < |b| ensures Marks(b[k], lines, pos, n) {
        if k < d {
          assert b[k] == FileBoundary(pos, n, PathOf(lines[0]));
        } else {
          assert b[k] == tail[k - d];
          MarkFromTail(lines, pos, n, tail[k - d]);
        }
      }
    }
  }

  /** A boundary of the lines after the first, seen from the whole of `lines`. */
  lemma MarkFromTail(lines: seq<string>, pos: nat, n: nat, t: FileBoundary)
    requires lines != []
    requires Marks(t, lines[1..], pos + |lines[0]| + 1, n + 1)
    ensures Marks(t, lines, pos, n)
  {
    assert lines[1..][t.lineNum - (n + 1)] == lines[t.lineNum - n];
  }

  /** Line numbers of boundaries strictly increase. */
  predicate Ascending(b: seq<FileBoundary>) {
    forall k, j :: 0 <= k < j < |b| ==> b[k].lineNum < b[j].lineNum
  }

  lemma {:induction false} ScanLinesOrdered(lines: seq<string>, pos: nat, n: nat)
    ensures Ascending(ScanLines(lines, pos, n))
    decreases |lines|
  {
    if lines != [] {
      var b := ScanLines(lines, pos, n);
      var pos' := pos + |lines[0]| + 1;
      var tail := ScanLines(lines[1..], pos', n + 1);
      ScanLinesOrdered(lines[1..], pos', n + 1);
      ScanLinesRange(lines[1..], pos', n + 1);
      var head := if StartsWith(lines[0], FILE_MARKER) then [FileBoundary(pos, n, PathOf(lines[0]))] else [];
      assert b == head + tail;
      forall k, j | 0 <= k < j < |b| ensures b[k].lineNum < b[j].lineNum {
        assert b[j] == tail[j - |head|];
        assert n + 1 <= tail[j - |head|].lineNum;
        if k >= |head| {
          assert b[k] == tail[k - |head|];
        }
      }
    }
  }

  /** No line that starts with the marker is missed. */
  predicate CoversMarkers(b: seq<FileBoundary>, lines: seq<string>, n: nat) {
    forall i :: 0 <= i < |lines| && StartsWith(lines[i], FILE_MARKER) ==>
      exists k :: 0 <= k < |b| && b[k].lineNum == n + i
  }

  lemma {:induction false} ScanLinesComplete(lines: seq<string>, pos: nat, n: nat)
    ensures CoversMarkers(ScanLines(lines, pos, n), lines, n)
    decreases |lines|
  {
    if lines != [] {
      var b := ScanLines(lines, pos, n);
      var pos' := pos + |lines[0]| + 1;
      var tail := ScanLines(lines[1..], pos', n + 1);
      ScanLinesComplete(lines[1..], pos', n + 1);
      var head := if StartsWith(lines[0], FILE_MARKER) then [FileBoundary(pos, n, PathOf(lines[0]))] else [];
      assert b == head + tail;
      forall i | 0 <= i < |lines| && StartsWith(lines[i], FILE_MARKER)
        ensures exists k :: 0 <= k < |b| && b[k].lineNum == n + i
      {
        if i == 0 {
          assert b[0].lineNum == n;
        } else {
          assert lines[1..][i - 1] == lines[i];
          var k :| 0 <= k < |tail| && tail[k].lineNum == n + 1 + (i - 1);
          assert b[|head| + k] == tail[k];
        }
      }
    }
  }

  /**
   * Boundaries are exactly the marker lines of the diff, in order: each one
   * names a line that starts with the marker, sits at that line's offset and
   * carries the line's path; line numbers strictly increase; and no marker line
   * is missed. (The lines are `Split(text, "\n")`.)
   */
  lemma BoundaryLines(text: string)
    ensures var lines := Split(text, '\n'); var b := Boundaries(text);
      (forall k :: 0 <= k < |b| ==>
        b[k].lineNum < |lines|
        && b[k].position == LineOffset(lines, b[k].lineNum)
        && StartsWith(lines[b[k].lineNum], FILE_MARKER)
        && b[k].filePath == PathOf(lines[b[k].lineNum]))
      && (forall k, j :: 0 <= k < j < |b| ==> b[k].lineNum < b[j].lineNum)
      && (forall i :: 0 <= i < |lines| && StartsWith(lines[i], FILE_MARKER) ==>
            exists k :: 0 <= k < |b| && b[k].lineNum == i)
  {
    var lines := Split(text, '\n');
    ScanLinesSound(lines, 0, 0);
    ScanLinesOrdered(lines, 0, 0);
    ScanLinesComplete(lines, 0, 0);
  }

  /** A marker line of joined lines sits at its offset in the joined text. */
  lemma MarkerAtOffset(lines: seq<string>, ln: nat)
    requires ln < |lines| && StartsWith(lines[ln], FILE_MARKER)
    ensures var off := LineOffset(lines, ln);
      off + |FILE_MARKER| <= |Join(lines, "\n")| && StartsWith(Join(lines, "\n")[off..], FILE_MARKER)
  {
    var text := Join(lines, "\n");
    LineAtOffset(lines, '\n', ln);
    var off := LineOffset(lines, ln);
    assert text[off..off + |lines[ln]|] == lines[ln];
    assert text[off..][..|FILE_MARKER|] == lines[ln][..|FILE_MARKER|];
  }

  /** Every boundary's offset points at the marker in the diff itself, and offsets strictly increase. */
  lemma BoundariesInText(text: string)
    ensures var b := Boundaries(text);
      forall k :: 0 <= k < |b| ==>
        b[k].position + |FILE_MARKER| <= |text| && StartsWith(text[b[k].position..], FILE_MARKER)
    ensures var b := Boundaries(text);
      forall k, j :: 0 <= k < j < |b| ==> b[k].position < b[j].position
  {
    var lines := Split(text, '\n');
    var b := ScanLines(lines, 0, 0);
    ScanLinesSound(lines, 0, 0);
    ScanLinesOrdered(lines, 0, 0);
    assert MarksLines(b, lines, 0, 0) && Ascending(b);
    JoinSplit(text, '\n');
    forall k | 0 <= k < |b|
      ensures b[k].position + |FILE_MARKER| <= |text| && StartsWith(text[b[k].position..], FILE_MARKER)
    {
      MarkerAtOffset(lines, b[k].lineNum);
    }
    forall k, j | 0 <= k < j < |b|
      ensures b[k].position < b[j].position
    {
      LineOffsetIncreasing(lines, b[k].lineNum, b[j].lineNum);
    }
  }

  /**
   * `should_chunk`: only a diff of more than five files and more than 30,000
   * characters is reviewed in parts.
   */
  function ShouldChunk(text: string): (b: bool)
    ensures b <==> |Boundaries(text)| > SINGLE_PASS_FILE_THRESHOLD && |text| > SINGLE_PASS_CHAR_THRESHOLD
  {
    if |Boundaries(text)| <= SINGLE_PASS_FILE_THRESHOLD then false
    else if |text| <= SINGLE_PASS_CHAR_THRESHOLD then false
    else true
  }

  /** One file's section of the diff, and its path. */
  datatype Segment = Segment(content: string, path: string)

  /** Each file's section runs from its boundary to the next boundary, the last one to the end of the diff. */
  function Pieces(text: string, files: seq<FileBoundary>): seq<Segment>
    decreases |files|
  {
    if files == [] then []
    else
      var end := if |files| > 1 then files[1].position else |text|;
      [Segment(Slice(text, files[0].position, end), files[0].filePath)] + Pieces(text, files[1..])
  }

  function PieceText(segs: seq<Segment>): string
    decreases |segs|
  {
    if segs == [] then "" else segs[0].content + PieceText(segs[1..])
  }

  function PiecePaths(segs: seq<Segment>): seq<string>
    decreases |segs|
  {
    if segs == [] then [] else [segs[0].path] + PiecePaths(segs[1..])
  }

  function Paths(files: seq<FileBoundary>): (paths: seq<string>)
    ensures |paths| == |files|
    ensures forall i :: 0 <= i < |files| ==> paths[i] == files[i].filePath
  {
    seq(|files|, i requires 0 <= i < |files| => files[i].filePath)
  }

  /** Boundaries inside the diff, in strictly increasing order. */
  predicate Increasing(text: string, files: seq<FileBoundary>) {
    (forall k :: 0 <= k < |files| ==> files[k].position < |text|)
    && (forall k, j :: 0 <= k < j < |files| ==> files[k].position < files[j].position)
  }

  lemma IncreasingTail(text: string, files: seq<FileBoundary>)
    requires files != [] && Increasing(text, files)
    ensures Increasing(text, files[1..])
  {
    forall k, j | 0 <= k < j < |files[1..]| ensures files[1..][k].position < files[1..][j].position {
      assert files[1..][k] == files[k + 1] && files[1..][j] == files[j + 1];
    }
  }

  /** The sections cover the diff from the first boundary on. */
  lemma {:induction false} PiecesCover(text: string, files: seq<FileBoundary>)
    requires files != [] && Increasing(text, files)
    ensures PieceText(Pieces(text, files)) == text[files[0].position..]
    decreases |files|
  {
    var p := files[0].position;
    var segs := Pieces(text, files);
    if |files| == 1 {
      assert files[1..] == [];
      assert Slice(text, p, |text|) == text[p..];
      assert segs == [Segment(text[p..], files[0].filePath)] + Pieces(text, files[1..]);
      assert PieceText(segs) == text[p..] + "";
    } else {
      var q := files[1].position;
      IncreasingTail(text, files);
      PiecesCover(text, files[1..]);
      assert segs == [Segment(text[p..q], files[0].filePath)] + Pieces(text, files[1..]);
      assert text[p..] == text[p..q] + text[q..];
    }
  }

  /** The sections carry the boundaries' paths, in order. */
  lemma {:induction false} PiecesPaths(text: string, files: seq<FileBoundary>)
    ensures PiecePaths(Pieces(text, files)) == Paths(files)
    decreases |files|
  {
    if files != [] {
      PiecesPaths(text, files[1..]);
      assert Paths(files) == [files[0].filePath] + Paths(files[1..]);
    }
  }

  /** No section is empty: each reaches at least to the next boundary. */
  lemma {:induction false} PiecesNonEmpty(text: string, files: seq<FileBoundary>)
    requires Increasing(text, files)
    ensures NonEmptySections(Pieces(text, files))
    decreases |files|
  {
    if files != [] {
      var segs := Pieces(text, files);
      var rest := Pieces(text, files[1..]);
      IncreasingTail(text, files);
      PiecesNonEmpty(text, files[1..]);
      assert segs[1..] == rest;
      forall i | 0 <= i < |segs| ensures segs[i].content != "" {
        if i > 0 {
          assert segs[i] == rest[i - 1];
        }
      }
    }
  }

  /** A chunk under construction or finished: its text and the paths of its files. */
  datatype Group = Group(content: string, files: seq<string>)

  /**
   * The greedy packing of `chunk_diff`: a file goes into the current chunk
   * unless the chunk already holds something and the file would take it over
   * the maximum; then the chunk is closed and the file starts the next one.
   */
  function Pack(done: seq<Group>, cur: Group, segs: seq<Segment>): seq<Group>
    decreases |segs|
  {
    if segs == [] then
      (if cur.content != "" then done + [cur] else done)
    else if cur.content != "" && |cur.content| + |segs[0].content| > MAX_CHUNK_SIZE then
      Pack(done + [cur], Group(segs[0].content, [segs[0].path]), segs[1..])
    else
      Pack(done, Group(cur.content + segs[0].content, cur.files + [segs[0].path]), segs[1..])
  }

  function GroupText(gs: seq<Group>): string
    decreases |gs|
  {
    if gs == [] then "" else gs[0].content + GroupText(gs[1..])
  }

  function GroupPaths(gs: seq<Group>): seq<string>
    decreases |gs|
  {
    if gs == [] then [] else gs[0].files + GroupPaths(gs[1..])
  }

  lemma {:induction false} GroupAppend(gs: seq<Group>, g: Group)
    ensures GroupText(gs + [g]) == GroupText(gs) + g.content
    ensures GroupPaths(gs + [g]) == GroupPaths(gs) + g.files
    decreases |gs|
  {
    if gs == [] {
      assert [g][1..] == [];
      assert GroupText([g]) == g.content + "";
      assert GroupPaths([g]) == g.files + [];
    } else {
      assert (gs + [g])[1..] == gs[1..] + [g];
      GroupAppend(gs[1..], g);
    }
  }

  predicate NonEmptySections(segs: seq<Segment>) {
    forall i :: 0 <= i < |segs| ==> segs[i].content != ""
  }

  /** Packing loses and reorders nothing: the chunks' texts and paths, in order, are the sections'. */
  lemma {:induction false} PackPreservesText(done: seq<Group>, cur: Group, segs: seq<Segment>)
    ensures GroupText(Pack(done, cur, segs)) == GroupText(done) + cur.content + PieceText(segs)
    decreases |segs|
  {
    if segs == [] {
      GroupAppend(done, cur);
    } else {
      var s := segs[0];
      var rest := segs[1..];
      var out := Pack(done, cur, segs);
      assert PieceText(segs) == s.content + PieceText(rest);
      if cur.content != "" && |cur.content| + |s.content| > MAX_CHUNK_SIZE {
        PackPreservesText(done + [cur], Group(s.content, [s.path]), rest);
        GroupAppend(done, cur);
        assert GroupText(out) == GroupText(done) + cur.content + s.content + PieceText(rest);
      } else {
        PackPreservesText(done, Group(cur.content + s.content, cur.files + [s.path]), rest);
        assert GroupText(out) == GroupText(done) + (cur.content + s.content) + PieceText(rest);
      }
    }
  }

  lemma {:induction false} PackPreservesPaths(done: seq<Group>, cur: Group, segs: seq<Segment>)
    requires NonEmptySections(segs)
    requires cur.content == "" ==> cur.files == []
    ensures GroupPaths(Pack(done, cur, segs)) == GroupPaths(done) + cur.files + PiecePaths(segs)
    decreases |segs|
  {
    if segs == [] {
      GroupAppend(done, cur);
    } else {
      var s := segs[0];
      var rest := segs[1..];
      assert NonEmptySections(rest) by {
        forall i | 0 <= i < |rest| ensures rest[i].content != "" {
          assert rest[i] == segs[i + 1];
        }
      }
      var out := Pack(done, cur, segs);
      assert PiecePaths(segs) == [s.path] + PiecePaths(rest);
      if cur.content != "" && |cur.content| + |s.content| > MAX_CHUNK_SIZE {
        PackPreservesPaths(done + [cur], Group(s.content, [s.path]), rest);
        GroupAppend(done, cur);
        assert GroupPaths(out) == GroupPaths(done) + cur.files + [s.path] + PiecePaths(rest);
      } else {
        PackPreservesPaths(done, Group(cur.content + s.content, cur.files + [s.path]), rest);
        assert GroupPaths(out) == GroupPaths(done) + (cur.files + [s.path]) + PiecePaths(rest);
      }
    }
  }

  /** A chunk is non-empty, and holds either a single file or at most the maximum number of characters. */
  predicate WellSized(g: Group) {
    g.content != "" && g.files != [] && (|g.files| == 1 || |g.content| <= MAX_CHUNK_SIZE)
  }

  /** No two neighbouring chunks would have fitted into one. */
  predicate Greedy(gs: seq<Group>) {
    forall k :: 0 < k < |gs| ==> |gs[k - 1].content| + |gs[k].content| > MAX_CHUNK_SIZE
  }

  predicate PackState(done: seq<Group>, cur: Group) {
    (forall k :: 0 <= k < |done| ==> WellSized(done[k]))
    && Greedy(done)
    && (cur.content == "" <==> cur.files == [])
    && (cur.content == "" ==> done == [])
    && (cur.content != "" ==> WellSized(cur))
    && (cur.content != "" && done != [] ==> |done[|done| - 1].content| + |cur.content| > MAX_CHUNK_SIZE)
  }

  /** Every chunk is well sized, and a chunk is closed only when the next file would overflow it. */
  lemma {:induction false} PackShape(done: seq<Group>, cur: Group, segs: seq<Segment>)
    requires NonEmptySections(segs)
    requires PackState(done, cur)
    ensures var r := Pack(done, cur, segs); forall k :: 0 <= k < |r| ==> WellSized(r[k])
    ensures Greedy(Pack(done, cur, segs))
    ensures segs != [] ==> Pack(done, cur, segs) != []
    decreases |segs|
  {
    if segs != [] {
      var s := segs[0];
      assert NonEmptySections(segs[1..]) by {
        forall i | 0 <= i < |segs[1..]| ensures segs[1..][i].content != "" {
          assert segs[1..][i] == segs[i + 1];
        }
      }
      if cur.content != "" && |cur.content| + |s.content| > MAX_CHUNK_SIZE {
        var done' := done + [cur];
        assert Greedy(done') by {
          forall k | 0 < k < |done'| ensures |done'[k - 1].content| + |done'[k].content| > MAX_CHUNK_SIZE {
            if k < |done| {
              assert done'[k - 1] == done[k - 1] && done'[k] == done[k];
            }
          }
        }
        assert PackState(done', Group(s.content, [s.path]));
        PackShape(done', Group(s.content, [s.path]), segs[1..]);
      } else {
        var next := Group(cur.content + s.content, cur.files + [s.path]);
        assert PackState(done, next);
        PackShape(done, next, segs[1..]);
      }
    }
  }

  /** A chunk that `chunk_diff` produces, as a value. */
  datatype ChunkValue = ChunkValue(content: string, files: seq<string>, chunkIndex: nat, totalChunks: nat)

  /** The packed groups, each told its place and the number of chunks. */
  function Numbered(gs: seq<Group>): (cs: seq<ChunkValue>)
    ensures |cs| == |gs|
    ensures forall k :: 0 <= k < |gs| ==>
      cs[k] == ChunkValue(gs[k].content, gs[k].files, k, |gs|)
  {
    seq(|gs|, k requires 0 <= k < |gs| => ChunkValue(gs[k].content, gs[k].files, k, |gs|))
  }

  /** What `chunk_diff` returns, as values. */
  function ChunkDiffSpec(text: string): seq<ChunkValue> {
    var files := Boundaries(text);
    if files == [] then [ChunkValue(text, ["unknown"], 0, 1)]
    else if !ShouldChunk(text) then [ChunkValue(text, Paths(files), 0, 1)]
    else Numbered(Pack([], Group("", []), Pieces(text, files)))
  }

  function ChunkText(cs: seq<ChunkValue>): string
    decreases |cs|
  {
    if cs == [] then "" else cs[0].content + ChunkText(cs[1..])
  }

  function ChunkPaths(cs: seq<ChunkValue>): seq<string>
    decreases |cs|
  {
    if cs == [] then [] else cs[0].files + ChunkPaths(cs[1..])
  }

  lemma {:induction false} NumberedKeepsText(gs: seq<Group>, total: nat)
    ensures var cs := seq(|gs|, k requires 0 <= k < |gs| => ChunkValue(gs[k].content, gs[k].files, k, total));
      ChunkText(cs) == GroupText(gs) && ChunkPaths(cs) == GroupPaths(gs)
    decreases |gs|
  {
    if gs != [] {
      var cs := seq(|gs|, k requires 0 <= k < |gs| => ChunkValue(gs[k].content, gs[k].files, k, total));
      var cs' := seq(|gs[1..]|, k requires 0 <= k < |gs[1..]| => ChunkValue(gs[1..][k].content, gs[1..][k].files, k, total));
      NumberedKeepsText(gs[1..], total);
      assert ChunkText(cs[1..]) == ChunkText(cs') && ChunkPaths(cs[1..]) == ChunkPaths(cs') by {
        ChunkTextFields(cs[1..], cs');
      }
    }
  }

  /** Only the content and files of chunks matter to their text and paths. */
  lemma {:induction false} ChunkTextFields(a: seq<ChunkValue>, b: seq<ChunkValue>)
    requires |a| == |b|
    requires forall k :: 0 <= k < |a| ==> a[k].content == b[k].content && a[k].files == b[k].files
    ensures ChunkText(a) == ChunkText(b) && ChunkPaths(a) == ChunkPaths(b)
    decreases |a|
  {
    if a != [] {
      ChunkTextFields(a[1..], b[1..]);
    }
  }

  /**
   * `chunk_diff` as a whole: there is at least one chunk, and each knows its
   * place and the number of chunks. A diff without boundaries is one chunk
   * for "unknown"; a diff not worth chunking is one chunk with every path.
   */
  lemma ChunkDiffShape(text: string)
    ensures var cs := ChunkDiffSpec(text);
      |cs| >= 1 && forall k :: 0 <= k < |cs| ==> cs[k].chunkIndex == k && cs[k].totalChunks == |cs|
    ensures Boundaries(text) == [] ==> ChunkDiffSpec(text) == [ChunkValue(text, ["unknown"], 0, 1)]
    ensures Boundaries(text) != [] && !ShouldChunk(text) ==>
      ChunkDiffSpec(text) == [ChunkValue(text, Paths(Boundaries(text)), 0, 1)]
  {
    var files := Boundaries(text);
    if files != [] && ShouldChunk(text) {
      ChunkedSections(text);
      var segs := Pieces(text, files);
      PackShape([], Group("", []), segs);
    }
  }

  /** The sections of a diff that is chunked: non-empty, covering the diff from its first boundary. */
  lemma ChunkedSections(text: string)
    requires Boundaries(text) != []
    ensures Boundaries(text)[0].position < |text|
    ensures var segs := Pieces(text, Boundaries(text));
      segs != [] && NonEmptySections(segs)
      && PieceText(segs) == text[Boundaries(text)[0].position..]
      && PiecePaths(segs) == Paths(Boundaries(text))
  {
    var files := Boundaries(text);
    assert Increasing(text, files) by {
      BoundariesIncreasing(text);
    }
    var segs := Pieces(text, files);
    assert segs != [] by {
      assert segs == [segs[0]] + Pieces(text, files[1..]);
    }
    PiecesCover(text, files);
    PiecesPaths(text, files);
    PiecesNonEmpty(text, files);
  }

  /** The boundaries' offsets lie inside the diff and strictly increase. */
  lemma BoundariesIncreasing(text: string)
    ensures Increasing(text, Boundaries(text))
  {
    BoundariesInText(text);
  }

  /**
   * A chunked diff: the chunks' texts, read in order, are the diff from the
   * first boundary on (anything before it is dropped), their paths are the
   * boundaries' paths in order, each chunk is non-empty and holds one file or
   * at most the maximum, and no two neighbours would have fitted the maximum
   * together.
   */
  lemma ChunkedDiffFacts(text: string)
    requires Boundaries(text) != [] && ShouldChunk(text)
    ensures Boundaries(text)[0].position < |text|
    ensures ChunkText(ChunkDiffSpec(text)) == text[Boundaries(text)[0].position..]
    ensures ChunkPaths(ChunkDiffSpec(text)) == Paths(Boundaries(text))
    ensures var cs := ChunkDiffSpec(text);
      forall k :: 0 <= k < |cs| ==> cs[k].content != "" && (|cs[k].files| == 1 || |cs[k].content| <= MAX_CHUNK_SIZE)
    ensures var cs := ChunkDiffSpec(text);
      forall k :: 0 < k < |cs| ==> |cs[k - 1].content| + |cs[k].content| > MAX_CHUNK_SIZE
  {
    var files := Boundaries(text);
    ChunkedSections(text);
    var segs := Pieces(text, files);
    var gs := Pack([], Group("", []), segs);
    PackPreservesText([], Group("", []), segs);
    PackPreservesPaths([], Group("", []), segs);
    PackShape([], Group("", []), segs);
    NumberedKeepsText(gs, |gs|);
    assert Numbered(gs) == seq(|gs|, k requires 0 <= k < |gs| => ChunkValue(gs[k].content, gs[k].files, k, |gs|));
    assert GroupText([]) + "" + PieceText(segs) == PieceText(segs);
    assert GroupPaths([]) + [] + PiecePaths(segs) == PiecePaths(segs);
  }

  // ---------------------------------------------------------------------------
  // Chunks follow file boundaries
  // ---------------------------------------------------------------------------

  lemma {:induction false} PiecePathsLength(segs: seq<Segment>)
    ensures |PiecePaths(segs)| == |segs|
    decreases |segs|
  {
    if segs != [] {
      PiecePathsLength(segs[1..]);
    }
  }

  lemma {:induction false} PieceTextAppend(a: seq<Segment>, b: seq<Segment>)
    ensures PieceText(a + b) == PieceText(a) + PieceText(b)
    decreases |a|
  {
    if a == [] {
      assert a + b == b;
    } else {
      PieceTextAppend(a[1..], b);
      assert (a + b)[1..] == a[1..] + b;
    }
  }

  lemma {:induction false} PiecePathsAppend(a: seq<Segment>, b: seq<Segment>)
    ensures PiecePaths(a + b) == PiecePaths(a) + PiecePaths(b)
    decreases |a|
  {
    if a == [] {
      assert a + b == b;
    } else {
      PiecePathsAppend(a[1..], b);
      assert (a + b)[1..] == a[1..] + b;
    }
  }

  /**
   * `gs` cuts `segs` into consecutive runs: the first group is exactly the
   * first `n` sections, text and paths, where `n` is its number of files,
   * and the other groups cut the sections after those.
   */
  predicate Partition(gs: seq<Group>, segs: seq<Segment>)
    decreases |gs|
  {
    if gs == [] then segs == []
    else
      var n := |gs[0].files|;
      0 < n <= |segs| && gs[0].content == PieceText(segs[..n]) && gs[0].files == PiecePaths(segs[..n])
      && Partition(gs[1..], segs[n..])
  }

  lemma {:induction false} PartitionAppend(gs: seq<Group>, s: seq<Segment>, t: seq<Segment>)
    requires Partition(gs, s) && t != []
    ensures Partition(gs + [Group(PieceText(t), PiecePaths(t))], s + t)
    decreases |gs|
  {
    var g := Group(PieceText(t), PiecePaths(t));
    PiecePathsLength(t);
    if gs == [] {
      assert gs + [g] == [g] && [g][1..] == [];
      assert s + t == t && t[..|t|] == t && t[|t|..] == [];
    } else {
      var n := |gs[0].files|;
      PartitionAppend(gs[1..], s[n..], t);
      assert (gs + [g])[0] == gs[0] && (gs + [g])[1..] == gs[1..] + [g];
      assert (s + t)[..n] == s[..n] && (s + t)[n..] == s[n..] + t;
    }
  }

  /** Greedy packing cuts the sections into consecutive runs, one per chunk. */
  lemma {:induction false} PackPartition(done: seq<Group>, cur: Group, segs: seq<Segment>,
                                         before: seq<Segment>, curSegs: seq<Segment>)
    requires NonEmptySections(segs)
    requires Partition(done, before)
    requires cur.content == PieceText(curSegs) && cur.files == PiecePaths(curSegs)
    requires cur.content == "" ==> curSegs == []
    ensures Partition(Pack(done, cur, segs), before + curSegs + segs)
    decreases |segs|
  {
    if segs == [] {
      assert before + curSegs + segs == before + curSegs;
      if cur.content != "" {
        PartitionAppend(done, before, curSegs);
      } else {
        assert before + curSegs == before;
      }
    } else {
      var s := segs[0];
      var rest := segs[1..];
      assert NonEmptySections(rest) by {
        forall i | 0 <= i < |rest| ensures rest[i].content != "" {
          assert rest[i] == segs[i + 1];
        }
      }
      assert before + curSegs + segs == (before + curSegs) + [s] + rest;
      if cur.content != "" && |cur.content| + |s.content| > MAX_CHUNK_SIZE {
        PartitionAppend(done, before, curSegs);
        assert [s][1..] == [];
        PackPartition(done + [cur], Group(s.content, [s.path]), rest, before + curSegs, [s]);
      } else {
        PieceTextAppend(curSegs, [s]);
        PiecePathsAppend(curSegs, [s]);
        assert [s][1..] == [];
        assert before + (curSegs + [s]) + rest == (before + curSegs) + [s] + rest;
        PackPartition(done, Group(cur.content + s.content, cur.files + [s.path]), rest, before, curSegs + [s]);
      }
    }
  }

  /** Group `k` is the run of sections from the number of files before it to the number up to and including it. */
  predicate GroupCut(gs: seq<Group>, segs: seq<Segment>, k: nat)
    requires k < |gs|
  {
    var a := |GroupPaths(gs[..k])|;
    var b := |GroupPaths(gs[..k + 1])|;
    a < b <= |segs| && gs[k].content == PieceText(segs[a..b]) && gs[k].files == PiecePaths(segs[a..b])
  }

  lemma GroupPathsPrefix(gs: seq<Group>, k: nat)
    requires 0 < k <= |gs|
    ensures GroupPaths(gs[..k]) == gs[0].files + GroupPaths(gs[1..][..k - 1])
  {
    assert gs[..k][0] == gs[0] && gs[..k][1..] == gs[1..][..k - 1];
  }

  lemma PartitionCutStep(gs: seq<Group>, segs: seq<Segment>, k: nat)
    requires gs != [] && Partition(gs, segs) && 0 < k < |gs|
    requires GroupCut(gs[1..], segs[|gs[0].files|..], k - 1)
    ensures GroupCut(gs, segs, k)
  {
    var n := |gs[0].files|;
    var a' := |GroupPaths(gs[1..][..k - 1])|;
    var b' := |GroupPaths(gs[1..][..k])|;
    assert |GroupPaths(gs[..k])| == n + a' by {
      GroupPathsPrefix(gs, k);
    }
    assert |GroupPaths(gs[..k + 1])| == n + b' by {
      GroupPathsPrefix(gs, k + 1);
    }
    assert segs[n + a'..n + b'] == segs[n..][a'..b'];
    assert gs[k] == gs[1..][k - 1];
  }

  lemma {:induction false} PartitionIndexed(gs: seq<Group>, segs: seq<Segment>)
    requires Partition(gs, segs)
    ensures |GroupPaths(gs)| == |segs|
    ensures forall k :: 0 <= k < |gs| ==> GroupCut(gs, segs, k)
    decreases |gs|
  {
    if gs != [] {
      var n := |gs[0].files|;
      PartitionIndexed(gs[1..], segs[n..]);
      forall k | 0 <= k < |gs| ensures GroupCut(gs, segs, k) {
        if k == 0 {
          GroupPathsPrefix(gs, 1);
          assert gs[1..][..0] == [] && gs[..0] == [];
          assert segs[0..n] == segs[..n];
        } else {
          PartitionCutStep(gs, segs, k);
        }
      }
    }
  }

  /** Where the section of boundary `i - 1` ends: at boundary `i`, or at the end of the diff. */
  function SectionEnd(text: string, files: seq<FileBoundary>, i: nat): nat {
    if i < |files| then files[i].position else |text|
  }

  lemma {:induction false} PiecesLength(text: string, files: seq<FileBoundary>)
    ensures |Pieces(text, files)| == |files|
    decreases |files|
  {
    if files != [] {
      PiecesLength(text, files[1..]);
    }
  }

  /** Section `i` runs from boundary `i` to where it ends, and carries that boundary's path. */
  lemma {:induction false} PieceAt(text: string, files: seq<FileBoundary>, i: nat)
    requires i < |files|
    ensures |Pieces(text, files)| == |files|
    ensures Pieces(text, files)[i] == Segment(Slice(text, files[i].position, SectionEnd(text, files, i + 1)), files[i].filePath)
    decreases i
  {
    PiecesLength(text, files);
    if i > 0 {
      var tail := files[1..];
      PieceAt(text, tail, i - 1);
      assert Pieces(text, files)[i] == Pieces(text, tail)[i - 1];
      assert tail[i - 1] == files[i] && SectionEnd(text, tail, i) == SectionEnd(text, files, i + 1);
    }
  }

  /** Inside the diff, the sections from boundary `a` end at or after the next boundary, and no later than the diff. */
  lemma SectionBounds(text: string, files: seq<FileBoundary>, a: nat, b: nat)
    requires Increasing(text, files) && a < b <= |files|
    ensures files[a].position < SectionEnd(text, files, a + 1) <= SectionEnd(text, files, b) <= |text|
  {
    if a + 1 < |files| {
      assert files[a].position < files[a + 1].position;
    }
    if a + 1 < b && b < |files| {
      assert files[a + 1].position < files[b].position;
    }
    if b < |files| {
      assert files[b].position < |text|;
    }
  }

  /** The sections of boundaries `a` up to `b` are the diff from boundary `a` to where section `b - 1` ends. */
  lemma {:induction false} PiecesRangeText(text: string, files: seq<FileBoundary>, a: nat, b: nat)
    requires Increasing(text, files) && a < b <= |files|
    ensures |Pieces(text, files)| == |files|
    ensures files[a].position <= SectionEnd(text, files, b) <= |text|
    ensures PieceText(Pieces(text, files)[a..b]) == text[files[a].position..SectionEnd(text, files, b)]
    decreases b - a
  {
    var segs := Pieces(text, files);
    var p := files[a].position;
    var e := SectionEnd(text, files, a + 1);
    var end := SectionEnd(text, files, b);
    PiecesLength(text, files);
    SectionBounds(text, files, a, b);
    assert segs[a].content == text[p..e] by {
      PieceAt(text, files, a);
    }
    assert PieceText(segs[a..b]) == text[p..e] + PieceText(segs[a + 1..b]) by {
      assert segs[a..b][0] == segs[a] && segs[a..b][1..] == segs[a + 1..b];
    }
    if a + 1 == b {
      assert segs[a + 1..b] == [];
    } else {
      PiecesRangeText(text, files, a + 1, b);
      assert text[p..end] == text[p..e] + text[e..end];
    }
  }

  lemma {:induction false} PiecePathsAt(segs: seq<Segment>)
    ensures |PiecePaths(segs)| == |segs|
    ensures forall i :: 0 <= i < |segs| ==> PiecePaths(segs)[i] == segs[i].path
    decreases |segs|
  {
    if segs != [] {
      PiecePathsAt(segs[1..]);
      forall i | 0 < i < |segs| ensures PiecePaths(segs)[i] == segs[i].path {
        assert PiecePaths(segs)[i] == PiecePaths(segs[1..])[i - 1];
      }
    }
  }

  /** The sections of boundaries `a` up to `b` carry those boundaries' paths. */
  lemma PiecesRangePaths(text: string, files: seq<FileBoundary>, a: nat, b: nat)
    requires a < b <= |files|
    ensures |Pieces(text, files)| == |files|
    ensures PiecePaths(Pieces(text, files)[a..b]) == Paths(files[a..b])
  {
    var segs := Pieces(text, files);
    PiecesLength(text, files);
    PiecesPaths(text, files);
    PiecePathsAt(segs);
    PiecePathsAt(segs[a..b]);
    forall i | 0 <= i < b - a ensures PiecePaths(segs[a..b])[i] == Paths(files[a..b])[i] {
      assert PiecePaths(segs[a..b])[i] == segs[a + i].path == PiecePaths(segs)[a + i];
    }
  }

  /** The number of files in the chunks before chunk `k`. */
  function FilesBefore(cs: seq<ChunkValue>, k: nat): nat
    requires k <= |cs|
  {
    |ChunkPaths(cs[..k])|
  }

  /**
   * Chunk `k` holds exactly the files from the `FilesBefore(cs, k)`-th
   * boundary up to the `FilesBefore(cs, k + 1)`-th: their paths, and the
   * diff from the first of those boundaries to the next boundary after the
   * last (or the end of the diff).
   */
  predicate ChunkCut(text: string, files: seq<FileBoundary>, cs: seq<ChunkValue>, k: nat)
    requires k < |cs|
  {
    var a := FilesBefore(cs, k);
    var b := FilesBefore(cs, k + 1);
    a < b <= |files| && files[a].position <= SectionEnd(text, files, b) <= |text|
    && cs[k].content == text[files[a].position..SectionEnd(text, files, b)]
    && cs[k].files == Paths(files[a..b])
  }

  lemma NumberedPrefixPaths(gs: seq<Group>, k: nat)
    requires k <= |gs|
    ensures FilesBefore(Numbered(gs), k) == |GroupPaths(gs[..k])|
  {
    var pre := gs[..k];
    NumberedKeepsText(pre, |gs|);
    assert Numbered(gs)[..k]
      == seq(|pre|, j requires 0 <= j < |pre| => ChunkValue(pre[j].content, pre[j].files, j, |gs|));
  }

  lemma ChunkCutOfGroup(text: string, files: seq<FileBoundary>, gs: seq<Group>, k: nat)
    requires Increasing(text, files) && k < |gs|
    requires GroupCut(gs, Pieces(text, files), k)
    requires |Pieces(text, files)| == |files|
    ensures ChunkCut(text, files, Numbered(gs), k)
  {
    NumberedPrefixPaths(gs, k);
    NumberedPrefixPaths(gs, k + 1);
    var a := |GroupPaths(gs[..k])|;
    var b := |GroupPaths(gs[..k + 1])|;
    PiecesRangeText(text, files, a, b);
    PiecesRangePaths(text, files, a, b);
  }

  /**
   * A chunked diff is cut only at file boundaries: the chunks take the
   * boundaries in consecutive runs, from the first to the last, and each
   * chunk is exactly the sections of its own files.
   */
  lemma ChunksFollowFiles(text: string)
    requires Boundaries(text) != [] && ShouldChunk(text)
    ensures var cs := ChunkDiffSpec(text);
      FilesBefore(cs, 0) == 0 && FilesBefore(cs, |cs|) == |Boundaries(text)|
    ensures var cs := ChunkDiffSpec(text);
      forall k :: 0 <= k < |cs| ==> ChunkCut(text, Boundaries(text), cs, k)
  {
    var files := Boundaries(text);
    ChunkedSections(text);
    BoundariesIncreasing(text);
    var segs := Pieces(text, files);
    var gs := Pack([], Group("", []), segs);
    PackPartition([], Group("", []), segs, [], []);
    assert [] + [] + segs == segs;
    PartitionIndexed(gs, segs);
    PiecesLength(text, files);
    var cs := Numbered(gs);
    assert cs == ChunkDiffSpec(text);
    forall k | 0 <= k < |cs| ensures ChunkCut(text, files, cs, k) {
      ChunkCutOfGroup(text, files, gs, k);
    }
    NumberedPrefixPaths(gs, |gs|);
    assert gs[..|gs|] == gs;
    assert cs[..0] == [];
  }

  const CHUNK_LABEL_ENGLISH: string := "**Chunk "
  /** The Vietnamese word for "part", mis-decoded as it appears in the source. */
  const CHUNK_LABEL_VIETNAMESE: string := "**Ph\U{E1}\U{BA}\U{A7}n "
  const FILES_LABEL: string := "** - Files: "

  function HeaderLabel(language: string): string {
    if language == "english" then CHUNK_LABEL_ENGLISH else CHUNK_LABEL_VIETNAMESE
  }

  /**
   * `DiffChunk.get_header` on a chunk value: nothing for a single chunk;
   * otherwise "part i/N", one-based, and the chunk's files, then a blank line.
   */
  function Header(c: ChunkValue, language: string): (h: string)
    ensures h == "" <==> c.totalChunks == 1
    ensures c.totalChunks != 1 ==> StartsWith(h, HeaderLabel(language)) && EndsWith(h, "\n\n")
    ensures c.totalChunks != 1 ==> (StartsWith(h, CHUNK_LABEL_ENGLISH) <==> language == "english")
  {
    if c.totalChunks == 1 then ""
    else
      var lead := HeaderLabel(language);
      var files := FILES_LABEL + Join(c.files, ", ") + "\n\n";
      var h := lead + (NatToString(c.chunkIndex + 1) + ("/" + (NatToString(c.totalChunks) + files)));
      assert h[..|lead|] == lead;
      assert h[|h| - 2..] == files[|files| - 2..] == "\n\n";
      assert CHUNK_LABEL_ENGLISH[2] != CHUNK_LABEL_VIETNAMESE[2];
      assert h[..|CHUNK_LABEL_ENGLISH|][2] == lead[2];
      h
  }

  /** A header of several chunks after its label: index, "/", count and the files. */
  lemma HeaderAfterLabel(c: ChunkValue, language: string)
    requires c.totalChunks != 1
    ensures |HeaderLabel(language)| <= |Header(c, language)|
    ensures Header(c, language)[|HeaderLabel(language)|..] == NatToString(c.chunkIndex + 1)
      + ("/" + (NatToString(c.totalChunks) + (FILES_LABEL + Join(c.files, ", ") + "\n\n")))
  {
    var lead := HeaderLabel(language);
    var t := NatToString(c.chunkIndex + 1) + ("/" + (NatToString(c.totalChunks) + (FILES_LABEL + Join(c.files, ", ") + "\n\n")));
    assert Header(c, language) == lead + t;
    assert (lead + t)[|lead|..] == t;
  }

  /** The header of a chunk of several names it: equal headers mean the same place among the same number of chunks. */
  lemma HeaderIdentifiesChunk(c1: ChunkValue, c2: ChunkValue, language: string)
    requires c1.totalChunks != 1 && c2.totalChunks != 1
    requires Header(c1, language) == Header(c2, language)
    ensures c1.chunkIndex == c2.chunkIndex && c1.totalChunks == c2.totalChunks
  {
    HeaderAfterLabel(c1, language);
    HeaderAfterLabel(c2, language);
    var r1 := FILES_LABEL + Join(c1.files, ", ") + "\n\n";
    var r2 := FILES_LABEL + Join(c2.files, ", ") + "\n\n";
    assert r1[0] == FILES_LABEL[0] && r2[0] == FILES_LABEL[0];
    NumberPairUnique(NatToString(c1.chunkIndex + 1), NatToString(c1.totalChunks), r1,
                      NatToString(c2.chunkIndex + 1), NatToString(c2.totalChunks), r2);
    NatToStringRoundTrip(c1.chunkIndex + 1);
    NatToStringRoundTrip(c2.chunkIndex + 1);
    NatToStringRoundTrip(c1.totalChunks);
    NatToStringRoundTrip(c2.totalChunks);
  }

  /** A single chunk has no header; when there are several, no two chunks' headers are alike. */
  lemma ChunkHeaders(text: string, language: string)
    ensures var cs := ChunkDiffSpec(text);
      |cs| == 1 ==> Header(cs[0], language) == ""
    ensures var cs := ChunkDiffSpec(text);
      |cs| > 1 ==> forall k :: 0 <= k < |cs| ==> Header(cs[k], language) != ""
    ensures var cs := ChunkDiffSpec(text);
      forall k, j :: 0 <= k < j < |cs| ==> Header(cs[k], language) != Header(cs[j], language)
  {
    var cs := ChunkDiffSpec(text);
    ChunkDiffShape(text);
    forall k, j | 0 <= k < j < |cs| ensures Header(cs[k], language) != Header(cs[j], language) {
      if Header(cs[k], language) == Header(cs[j], language) {
        HeaderIdentifiesChunk(cs[k], cs[j], language);
      }
    }
  }

  /** `DiffChunk`: a chunk whose `total_chunks` `chunk_diff` fills in once all chunks exist. */
  class DiffChunk {
    var content: string
    var files: seq<string>
    var chunkIndex: nat
    var totalChunks: nat

    constructor (content: string, files: seq<string>, chunkIndex: nat, totalChunks: nat)
      ensures View() == ChunkValue(content, files, chunkIndex, totalChunks)
    {
      this.content := content;
      this.files := files;
      this.chunkIndex := chunkIndex;
      this.totalChunks := totalChunks;
    }

    function View(): ChunkValue
      reads this
    {
      ChunkValue(content, files, chunkIndex, totalChunks)
    }

    /** `get_header` */
    function GetHeader(language: string): (h: string)
      reads this
      ensures h == "" <==> totalChunks == 1
      ensures totalChunks != 1 ==> StartsWith(h, HeaderLabel(language))
    {
      Header(View(), language)
    }
  }

  function Views(chunks: seq<DiffChunk>): (vs: seq<ChunkValue>)
    reads chunks
    ensures |vs| == |chunks|
    ensures forall k :: 0 <= k < |chunks| ==> vs[k] == chunks[k].View()
    decreases |chunks|
  {
    if chunks == [] then [] else [chunks[0].View()] + Views(chunks[1..])
  }

  /** One file of the greedy packing, when it closes the current chunk ... */
  lemma PackClose(done: seq<Group>, cur: Group, s: Segment, rest: seq<Segment>)
    requires cur.content != "" && |cur.content| + |s.content| > MAX_CHUNK_SIZE
    ensures Pack(done, cur, [s] + rest) == Pack(done + [cur], Group("" + s.content, [] + [s.path]), rest)
  {
    assert ([s] + rest)[0] == s && ([s] + rest)[1..] == rest;
    assert "" + s.content == s.content && [] + [s.path] == [s.path];
  }

  /** ... and when it joins it. */
  lemma PackAdd(done: seq<Group>, cur: Group, s: Segment, rest: seq<Segment>)
    requires !(cur.content != "" && |cur.content| + |s.content| > MAX_CHUNK_SIZE)
    ensures Pack(done, cur, [s] + rest) == Pack(done, Group(cur.content + s.content, cur.files + [s.path]), rest)
  {
    assert ([s] + rest)[0] == s && ([s] + rest)[1..] == rest;
  }

  /** Chunk `k` holds group `k`, is numbered `k`, and has no count yet. */
  predicate Holds(chunks: seq<DiffChunk>, groups: seq<Group>)
    reads set c | c in chunks
  {
    |chunks| == |groups|
    && forall k :: 0 <= k < |chunks| ==>
      chunks[k].content == groups[k].content && chunks[k].files == groups[k].files
      && chunks[k].chunkIndex == k && chunks[k].totalChunks == 0
  }

  /** A new chunk for group `g`, appended after the existing ones. */
  method Emit(chunks: seq<DiffChunk>, ghost groups: seq<Group>, g: Group) returns (chunks': seq<DiffChunk>)
    requires Holds(chunks, groups)
    ensures Holds(chunks', groups + [g])
    ensures chunks'[..|chunks|] == chunks && fresh(chunks'[|chunks|])
  {
    var c := new DiffChunk(g.content, g.files, |chunks|, 0);
    chunks' := chunks + [c];
    assert chunks'[..|chunks|] == chunks;
  }

  /**
   * One file of the greedy loop of `chunk_diff`: the current chunk is closed
   * when it is non-empty and the file would take it over the maximum, then the
   * file joins the current chunk.
   */
  method AddFile(chunks: seq<DiffChunk>, ghost groups: seq<Group>, content: string, paths: seq<string>,
                 fileDiff: string, path: string, ghost rest: seq<Segment>)
    returns (chunks': seq<DiffChunk>, ghost groups': seq<Group>, content': string, paths': seq<string>)
    requires Holds(chunks, groups)
    ensures Holds(chunks', groups')
    ensures |chunks| <= |chunks'| && chunks'[..|chunks|] == chunks
    ensures forall k :: |chunks| <= k < |chunks'| ==> fresh(chunks'[k])
    ensures Pack(groups', Group(content', paths'), rest) == Pack(groups, Group(content, paths), [Segment(fileDiff, path)] + rest)
  {
    chunks', groups', content', paths' := chunks, groups, content, paths;
    if content != "" && |content| + |fileDiff| > MAX_CHUNK_SIZE {
      PackClose(groups, Group(content, paths), Segment(fileDiff, path), rest);
      chunks' := Emit(chunks, groups, Group(content, paths));
      groups' := groups + [Group(content, paths)];
      content' := "";
      paths' := [];
    } else {
      PackAdd(groups, Group(content, paths), Segment(fileDiff, path), rest);
    }
    content' := content' + fileDiff;
    paths' := paths' + [path];
  }

  /** The sections from boundary `i` on: the section of file `i`, then those after it. */
  lemma PiecesStep(text: string, files: seq<FileBoundary>, i: nat)
    requires i < |files|
    ensures Pieces(text, files[i..]) ==
      [Segment(Slice(text, files[i].position, if i + 1 < |files| then files[i + 1].position else |text|), files[i].filePath)]
      + Pieces(text, files[i + 1..])
  {
    var tail := files[i..];
    assert tail[0] == files[i] && tail[1..] == files[i + 1..];
    if i + 1 < |files| {
      assert tail[1] == files[i + 1];
    }
  }

  /**
   * The greedy loop of `chunk_diff`: whole files, in order, go into chunks
   * whose count is not yet filled in (0). The chunks are new, and hold the groups of `Pack`, numbered from 0.
   */
  method PackFiles(text: string, files: seq<FileBoundary>) returns (chunks: seq<DiffChunk>, ghost groups: seq<Group>)
    ensures groups == Pack([], Group("", []), Pieces(text, files))
    ensures forall k :: 0 <= k < |chunks| ==> fresh(chunks[k])
    ensures Holds(chunks, groups)
  {
    ghost var made: set<DiffChunk> := {};
    ghost var goal := Pack([], Group("", []), Pieces(text, files));
    groups := [];
    chunks := [];
    var currentContent := "";
    var currentFiles: seq<string> := [];
    assert files[0..] == files;
    for i := 0 to |files|
      invariant fresh(made) && forall k :: 0 <= k < |chunks| ==> chunks[k] in made
      invariant Holds(chunks, groups)
      invariant Pack(groups, Group(currentContent, currentFiles), Pieces(text, files[i..])) == goal
    {
      var startPos := files[i].position;
      var endPos := if i + 1 < |files| then files[i + 1].position else |text|;
      var fileDiff := Slice(text, startPos, endPos);
      ghost var rest := Pieces(text, files[i + 1..]);
      PiecesStep(text, files, i);
      ghost var before := chunks;
      chunks, groups, currentContent, currentFiles :=
        AddFile(chunks, groups, currentContent, currentFiles, fileDiff, files[i].filePath, rest);
      made := made + set k | |before| <= k < |chunks| :: chunks[k];
      forall k | 0 <= k < |chunks| ensures chunks[k] in made {
        if k < |before| {
          assert chunks[k] == before[k];
        }
      }
    }
    assert files[|files|..] == [];
    ghost var before := chunks;
    chunks, groups := CloseLast(chunks, groups, currentContent, currentFiles);
    forall k | 0 <= k < |chunks| ensures fresh(chunks[k]) {
      if k < |before| {
        assert chunks[k] == before[k] && before[k] in made;
      }
    }
  }

  /** After the last file, the current chunk is closed unless it is empty. */
  method CloseLast(chunks: seq<DiffChunk>, ghost groups: seq<Group>, content: string, paths: seq<string>)
    returns (chunks': seq<DiffChunk>, ghost groups': seq<Group>)
    requires Holds(chunks, groups)
    ensures Holds(chunks', groups')
    ensures groups' == Pack(groups, Group(content, paths), [])
    ensures |chunks| <= |chunks'| && chunks'[..|chunks|] == chunks
    ensures forall k :: |chunks| <= k < |chunks'| ==> fresh(chunks'[k])
  {
    chunks', groups' := chunks, groups;
    if content != "" {
      chunks' := Emit(chunks, groups, Group(content, paths));
      groups' := groups + [Group(content, paths)];
    }
  }

  /** The last pass of `chunk_diff`: every chunk is told how many chunks there are, and nothing else changes. */
  method SetTotals(chunks: seq<DiffChunk>, total: nat)
    modifies set c | c in chunks
    ensures forall j :: 0 <= j < |chunks| ==> chunks[j].totalChunks == total
    ensures forall j :: 0 <= j < |chunks| ==>
      chunks[j].content == old(chunks[j].content) && chunks[j].files == old(chunks[j].files)
      && chunks[j].chunkIndex == old(chunks[j].chunkIndex)
  {
    for k := 0 to |chunks|
      invariant forall j :: 0 <= j < k ==> chunks[j].totalChunks == total
      invariant forall j :: 0 <= j < |chunks| ==>
        chunks[j].content == old(chunks[j].content) && chunks[j].files == old(chunks[j].files)
        && chunks[j].chunkIndex == old(chunks[j].chunkIndex)
    {
      chunks[k].totalChunks := total;
    }
  }

  /**
   * `chunk_diff`: a single chunk when there are no boundaries or the diff is
   * small; otherwise the greedy loop, then a second pass that tells every
   * chunk how many there are. The chunks are new, and their
   * values are those of `ChunkDiffSpec`.
   */
  method ChunkDiff(text: string) returns (chunks: seq<DiffChunk>)
    ensures Views(chunks) == ChunkDiffSpec(text)
    ensures forall k :: 0 <= k < |chunks| ==> fresh(chunks[k])
  {
    var files := ExtractFileBoundaries(text);
    if files == [] {
      var only := new DiffChunk(text, ["unknown"], 0, 1);
      return [only];
    }
    if !ShouldChunk(text) {
      var only := new DiffChunk(text, Paths(files), 0, 1);
      return [only];
    }
    ghost var groups;
    chunks, groups := PackFiles(text, files);
    var total := |chunks|;
    SetTotals(chunks, total);
    assert |Views(chunks)| == |Numbered(groups)|;
    forall j | 0 <= j < |chunks| ensures Views(chunks)[j] == Numbered(groups)[j] {
      assert chunks[j].View() == ChunkValue(groups[j].content, groups[j].files, j, total);
    }
  }
}

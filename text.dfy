/**
 * The few operations on Python `str` values that the reviewer scripts use,
 * stated over Dafny strings (`seq<char>`, one element per Unicode code point,
 * which is also what Python's `len` counts).
 */
module Text {

  /** `s.startswith(prefix)` */
  predicate StartsWith(s: string, prefix: string) {
    |prefix| <= |s| && s[..|prefix|] == prefix
  }

  /** A string starts with whatever is put in front of it. */
  lemma StartsWithAppend(prefix: string, rest: string)
    ensures StartsWith(prefix + rest, prefix)
  {
    assert (prefix + rest)[..|prefix|] == prefix;
  }

  /** A prefix stays a prefix when text is appended. */
  lemma StartsWithLonger(s: string, rest: string, prefix: string)
    requires StartsWith(s, prefix)
    ensures StartsWith(s + rest, prefix)
  {
    assert (s + rest)[..|prefix|] == s[..|prefix|];
  }

  /** `s.endswith(suffix)` */
  predicate EndsWith(s: string, suffix: string) {
    |suffix| <= |s| && s[|s| - |suffix|..] == suffix
  }

  /** `sub in s` for two strings */
  predicate Contains(s: string, sub: string)
    decreases |s|
  {
    StartsWith(s, sub) || (s != [] && Contains(s[1..], sub))
  }

  /** A string containing a non-empty `sub` contains the first character of `sub`. */
  lemma {:induction false} ContainsFirstChar(s: string, sub: string)
    requires |sub| > 0 && Contains(s, sub)
    ensures sub[0] in s
  {
    if StartsWith(s, sub) {
      assert s[0] == sub[0];
    } else {
      ContainsFirstChar(s[1..], sub);
    }
  }

  /** A string contains every one of its substrings. */
  lemma {:induction false} ContainsInfix(a: string, sub: string, b: string)
    ensures Contains(a + sub + b, sub)
  {
    if a == [] {
      assert (a + sub + b)[..|sub|] == sub;
    } else {
      assert (a + sub + b)[1..] == a[1..] + sub + b;
      ContainsInfix(a[1..], sub, b);
    }
  }

  /** Text appended after a string keeps its substrings. */
  lemma {:induction false} ContainsExtend(t: string, u: string, r: string)
    requires Contains(t, u)
    ensures Contains(t + r, u)
    decreases |t|
  {
    if StartsWith(t, u) {
      assert (t + r)[..|u|] == t[..|u|];
    } else {
      assert (t + r)[1..] == t[1..] + r;
      ContainsExtend(t[1..], u, r);
    }
  }

  /** A substring of a substring is a substring. */
  lemma {:induction false} ContainsTransitive(s: string, t: string, u: string)
    requires Contains(s, t) && Contains(t, u)
    ensures Contains(s, u)
    decreases |s|
  {
    if StartsWith(s, t) {
      assert s == t + s[|t|..];
      ContainsExtend(t, u, s[|t|..]);
    } else {
      ContainsTransitive(s[1..], t, u);
    }
  }

  /** `s[lo:hi]` for non-negative bounds: Python clamps both bounds to the string. */
  function Slice(s: string, lo: nat, hi: nat): (r: string)
    ensures |r| <= |s|
    ensures lo <= hi <= |s| ==> r == s[lo..hi]
    ensures hi <= lo || |s| <= lo ==> r == []
    ensures |s| <= hi ==> r == s[if lo <= |s| then lo else |s|..]
  {
    var h := if hi <= |s| then hi else |s|;
    var l := if lo <= h then lo else h;
    s[l..h]
  }

  /** `''.join(xs)`, and the concatenation of any sequence of sequences */
  function Flatten<T>(xs: seq<seq<T>>): seq<T>
    decreases |xs|
  {
    if xs == [] then [] else xs[0] + Flatten(xs[1..])
  }

  lemma {:induction false} FlattenAppend<T>(xs: seq<seq<T>>, ys: seq<seq<T>>)
    ensures Flatten(xs + ys) == Flatten(xs) + Flatten(ys)
  {
    if xs == [] {
      assert xs + ys == ys;
    } else {
      assert (xs + ys)[1..] == xs[1..] + ys;
      FlattenAppend(xs[1..], ys);
    }
  }

  /** `sep.join(xs)` */
  function Join(xs: seq<string>, sep: string): string
    decreases |xs|
  {
    if |xs| == 0 then ""
    else if |xs| == 1 then xs[0]
    else xs[0] + sep + Join(xs[1..], sep)
  }

  /** `s.split(sep)` for a one-character separator: never empty, and no piece holds the separator. */
  function Split(s: string, sep: char): (parts: seq<string>)
    ensures |parts| >= 1
    ensures forall i :: 0 <= i < |parts| ==> sep !in parts[i]
    decreases |s|
  {
    if s == [] then [""]
    else
      var rest := Split(s[1..], sep);
      if s[0] == sep then [""] + rest
      else [[s[0]] + rest[0]] + rest[1..]
  }

  /** Joining the pieces of a split with the separator gives the string back. */
  lemma {:induction false} JoinSplit(s: string, sep: char)
    ensures Join(Split(s, sep), [sep]) == s
  {
    if s != [] {
      var rest := Split(s[1..], sep);
      JoinSplit(s[1..], sep);
      if s[0] == sep {
        assert Split(s, sep) == [""] + rest;
        assert ([""] + rest)[1..] == rest;
      } else {
        var parts := [[s[0]] + rest[0]] + rest[1..];
        assert Split(s, sep) == parts;
        if |rest| > 1 {
          assert parts[1..] == rest[1..];
        }
      }
    }
  }

  /** Splitting a string whose first piece `p` has no separator. */
  lemma {:induction false} SplitAfterPiece(p: string, t: string, sep: char)
    requires sep !in p
    ensures Split(p + t, sep) == [p + Split(t, sep)[0]] + Split(t, sep)[1..]
  {
    if p != [] {
      assert (p + t)[1..] == p[1..] + t;
      SplitAfterPiece(p[1..], t, sep);
      assert [p[0]] + (p[1..] + Split(t, sep)[0]) == p + Split(t, sep)[0];
    } else {
      assert p + t == t;
      assert p + Split(t, sep)[0] == Split(t, sep)[0];
      assert [Split(t, sep)[0]] + Split(t, sep)[1..] == Split(t, sep);
    }
  }

  /** Splitting a join of separator-free pieces gives the pieces back. */
  lemma {:induction false} SplitJoin(xs: seq<string>, sep: char)
    requires |xs| >= 1
    requires forall i :: 0 <= i < |xs| ==> sep !in xs[i]
    ensures Split(Join(xs, [sep]), sep) == xs
  {
    if |xs| == 1 {
      SplitAfterPiece(xs[0], "", sep);
      assert xs[0] + "" == xs[0];
    } else {
      var rest := Join(xs[1..], [sep]);
      SplitJoin(xs[1..], sep);
      assert Join(xs, [sep]) == xs[0] + ([sep] + rest);
      SplitAfterPiece(xs[0], [sep] + rest, sep);
      assert ([sep] + rest)[1..] == rest;
      assert Split([sep] + rest, sep) == [""] + xs[1..];
      assert xs[0] + "" == xs[0];
      assert [xs[0]] + xs[1..] == xs;
    }
  }

  /** Where line `i` starts in `Join(lines, "\n")`: each earlier line and its newline. */
  function LineOffset(lines: seq<string>, i: nat): nat
    requires i <= |lines|
    decreases i
  {
    if i == 0 then 0 else |lines[0]| + 1 + LineOffset(lines[1..], i - 1)
  }

  /** Line `i` sits unchanged at its offset in the joined text. */
  lemma {:induction false} LineAtOffset(lines: seq<string>, sep: char, i: nat)
    requires i < |lines|
    ensures LineOffset(lines, i) + |lines[i]| <= |Join(lines, [sep])|
    ensures Join(lines, [sep])[LineOffset(lines, i)..LineOffset(lines, i) + |lines[i]|] == lines[i]
  {
    var text := Join(lines, [sep]);
    if i == 0 {
      if |lines| > 1 {
        assert text == lines[0] + ([sep] + Join(lines[1..], [sep]));
      }
    } else {
      LineAtOffset(lines[1..], sep, i - 1);
      var tail := Join(lines[1..], [sep]);
      assert text == (lines[0] + [sep]) + tail;
      var off := LineOffset(lines[1..], i - 1);
      assert text[|lines[0]| + 1 + off..|lines[0]| + 1 + off + |lines[i]|] == tail[off..off + |lines[i]|];
    }
  }

  /** Offsets grow strictly from one line to the next. */
  lemma {:induction false} LineOffsetIncreasing(lines: seq<string>, i: nat, j: nat)
    requires i < j <= |lines|
    ensures LineOffset(lines, i) + |lines[i]| < LineOffset(lines, j)
  {
    if i > 0 {
      LineOffsetIncreasing(lines[1..], i - 1, j - 1);
    } else if j > 1 {
      LineOffsetIncreasing(lines[1..], 0, j - 1);
    }
  }

  /** Python's `str.lower()` on ASCII letters (other characters are left as they are). */
  function LowerChar(c: char): char {
    if 'A' <= c <= 'Z' then (c as int + 32) as char else c
  }

  function Lower(s: string): (r: string)
    ensures |r| == |s|
    ensures forall i :: 0 <= i < |s| ==> r[i] == LowerChar(s[i])
    ensures forall i :: 0 <= i < |r| ==> !('A' <= r[i] <= 'Z')
  {
    seq(|s|, i requires 0 <= i < |s| => LowerChar(s[i]))
  }

  /** A lowered string never contains a pattern that starts with an upper-case letter. */
  lemma LowerNeverContainsUpper(s: string, pattern: string)
    requires |pattern| > 0 && 'A' <= pattern[0] <= 'Z'
    ensures !Contains(Lower(s), pattern)
  {
    if Contains(Lower(s), pattern) {
      ContainsFirstChar(Lower(s), pattern);
      assert false;
    }
  }

  /** The characters for which Python's `str.isspace()` holds; `str.strip()` removes these. */
  predicate IsSpace(c: char) {
    ('\t' <= c <= '\r') || ('\U{1C}' <= c <= ' ') || c == '\U{85}' || c == '\U{A0}' || c == '\U{1680}'
    || ('\U{2000}' <= c <= '\U{200A}') || c == '\U{2028}' || c == '\U{2029}' || c == '\U{202F}'
    || c == '\U{205F}' || c == '\U{3000}'
  }

  /** `s.lstrip()` */
  function LStrip(s: string): string
    decreases |s|
  {
    if s != [] && IsSpace(s[0]) then LStrip(s[1..]) else s
  }

  /** `lstrip` keeps a suffix and cuts away whitespace only, up to a character that is not whitespace. */
  lemma {:induction false} LStripSpaces(s: string)
    ensures |LStrip(s)| <= |s| && LStrip(s) == s[|s| - |LStrip(s)|..]
    ensures LStrip(s) == [] || !IsSpace(LStrip(s)[0])
    ensures forall i :: 0 <= i < |s| - |LStrip(s)| ==> IsSpace(s[i])
    decreases |s|
  {
    if s != [] && IsSpace(s[0]) {
      LStripSpaces(s[1..]);
      forall i | 1 <= i < |s| - |LStrip(s)| ensures IsSpace(s[i]) {
        assert s[i] == s[1..][i - 1];
      }
    }
  }

  /** `s.rstrip()` */
  function RStrip(s: string): string
    decreases |s|
  {
    if s != [] && IsSpace(s[|s| - 1]) then RStrip(s[..|s| - 1]) else s
  }

  /** `rstrip` keeps a prefix and cuts away whitespace only, back to a character that is not whitespace. */
  lemma {:induction false} RStripSpaces(s: string)
    ensures |RStrip(s)| <= |s| && RStrip(s) == s[..|RStrip(s)|]
    ensures RStrip(s) == [] || !IsSpace(RStrip(s)[|RStrip(s)| - 1])
    ensures forall i :: |RStrip(s)| <= i < |s| ==> IsSpace(s[i])
    decreases |s|
  {
    if s != [] && IsSpace(s[|s| - 1]) {
      RStripSpaces(s[..|s| - 1]);
      forall i | |RStrip(s)| <= i < |s| - 1 ensures IsSpace(s[i]) {
        assert s[i] == s[..|s| - 1][i];
      }
    }
  }

  /** `s.strip()` */
  function Strip(s: string): string {
    RStrip(LStrip(s))
  }

  /** A stripped string neither starts nor ends with whitespace. */
  lemma StripEnds(s: string)
    ensures Strip(s) == [] || (!IsSpace(Strip(s)[0]) && !IsSpace(Strip(s)[|Strip(s)| - 1]))
  {
    var l := LStrip(s);
    LStripSpaces(s);
    RStripSpaces(l);
    if Strip(s) != [] {
      assert Strip(s)[0] == l[0];
    }
  }

  /** The stripped string is the piece of `s` starting at `lo`, and everything cut away is whitespace. */
  lemma StripPiece(s: string) returns (lo: nat)
    ensures lo + |Strip(s)| <= |s| && Strip(s) == s[lo..lo + |Strip(s)|]
    ensures forall i :: 0 <= i < lo ==> IsSpace(s[i])
    ensures forall i :: lo + |Strip(s)| <= i < |s| ==> IsSpace(s[i])
  {
    var l := LStrip(s);
    var r := RStrip(l);
    LStripSpaces(s);
    RStripSpaces(l);
    lo := |s| - |l|;
    assert Strip(s) == r;
    assert l == s[lo..] && r == l[..|r|];
    SpaceAfterPrefix(s, lo, |r|);
  }

  /** Within the suffix `s[lo..]`: its prefix of length `n`, and the spaces after it, seen from `s`. */
  lemma SpaceAfterPrefix(s: string, lo: nat, n: nat)
    requires lo + n <= |s|
    requires forall i :: n <= i < |s| - lo ==> IsSpace(s[lo..][i])
    ensures s[lo..][..n] == s[lo..lo + n]
    ensures forall i :: lo + n <= i < |s| ==> IsSpace(s[i])
  {
    forall i | lo + n <= i < |s| ensures IsSpace(s[i]) {
      assert s[i] == s[lo..][i - lo];
    }
  }

  /** A string strips to nothing exactly when it is all whitespace. */
  lemma StripEmpty(s: string)
    ensures Strip(s) == [] <==> forall i :: 0 <= i < |s| ==> IsSpace(s[i])
  {
    var lo := StripPiece(s);
    StripEnds(s);
    if Strip(s) != [] {
      assert Strip(s)[0] == s[lo];
    }
  }

  /** Stripping twice is stripping once. */
  lemma StripIdempotent(s: string)
    ensures Strip(Strip(s)) == Strip(s)
  {
    var r := Strip(s);
    StripEnds(s);
    if r != [] {
      assert LStrip(r) == r;
      assert RStrip(r) == r;
    }
  }

  /** Left-stripping a concatenation: the second part only matters when the first is all whitespace. */
  lemma {:induction false} LStripAppend(s: string, t: string)
    ensures LStrip(s + t) == if LStrip(s) == [] then LStrip(t) else LStrip(s) + t
    decreases |s|
  {
    if s == [] {
      assert s + t == t;
    } else {
      assert (s + t)[0] == s[0] && (s + t)[1..] == s[1..] + t;
      if IsSpace(s[0]) {
        LStripAppend(s[1..], t);
      }
    }
  }

  /** A trailing whitespace character changes nothing once the string is stripped. */
  lemma StripTrailingSpace(s: string, c: char)
    requires IsSpace(c)
    ensures Strip(s + [c]) == Strip(s)
  {
    LStripAppend(s, [c]);
    var l := LStrip(s);
    if l == [] {
      assert [c][1..] == [];
      assert LStrip([c]) == [];
    } else {
      assert (l + [c])[..|l|] == l;
    }
  }

  /** `str(n)` for a non-negative integer: at least one decimal digit. */
  function NatToString(n: nat): (r: string)
    ensures r != []
    ensures forall i :: 0 <= i < |r| ==> '0' <= r[i] <= '9'
    decreases n
  {
    if n < 10 then [DigitChar(n)] else NatToString(n / 10) + [DigitChar(n % 10)]
  }

  function DigitChar(d: nat): (c: char)
    requires d < 10
    ensures '0' <= c <= '9'
  {
    ('0' as int + d) as char
  }

  /** Two digit strings each followed by a non-digit: equal wholes mean equal digits and equal rests. */
  lemma {:induction false} DigitsPrefixUnique(d1: string, x1: string, d2: string, x2: string)
    requires forall i :: 0 <= i < |d1| ==> '0' <= d1[i] <= '9'
    requires forall i :: 0 <= i < |d2| ==> '0' <= d2[i] <= '9'
    requires x1 != [] && !('0' <= x1[0] <= '9') && x2 != [] && !('0' <= x2[0] <= '9')
    requires d1 + x1 == d2 + x2
    ensures d1 == d2 && x1 == x2
    decreases |d1|
  {
    var w := d1 + x1;
    assert (d2 + x2)[0] == w[0];
    if d1 == [] {
      assert w[0] == x1[0];
      assert d2 == [];
      assert w == x1 && d2 + x2 == x2;
    } else {
      assert w[0] == d1[0];
      assert d2 != [];
      assert (d2 + x2)[0] == d2[0];
      assert (d1 + x1)[1..] == d1[1..] + x1;
      assert (d2 + x2)[1..] == d2[1..] + x2;
      DigitsPrefixUnique(d1[1..], x1, d2[1..], x2);
      assert d1 == [d1[0]] + d1[1..] && d2 == [d2[0]] + d2[1..];
    }
  }

  /** Two numbers written as digits "/" digits, each pair followed by a non-digit: equal texts mean equal numbers. */
  lemma NumberPairUnique(d1: string, e1: string, r1: string, d2: string, e2: string, r2: string)
    requires forall i :: 0 <= i < |d1| ==> '0' <= d1[i] <= '9'
    requires forall i :: 0 <= i < |d2| ==> '0' <= d2[i] <= '9'
    requires forall i :: 0 <= i < |e1| ==> '0' <= e1[i] <= '9'
    requires forall i :: 0 <= i < |e2| ==> '0' <= e2[i] <= '9'
    requires r1 != [] && !('0' <= r1[0] <= '9') && r2 != [] && !('0' <= r2[0] <= '9')
    requires d1 + ("/" + (e1 + r1)) == d2 + ("/" + (e2 + r2))
    ensures d1 == d2 && e1 == e2
  {
    DigitsPrefixUnique(d1, "/" + (e1 + r1), d2, "/" + (e2 + r2));
    assert ("/" + (e1 + r1))[1..] == e1 + r1;
    assert ("/" + (e2 + r2))[1..] == e2 + r2;
    DigitsPrefixUnique(e1, r1, e2, r2);
  }

  /** The value a string of decimal digits denotes (`int(s)` for digit strings). */
  function DigitsValue(s: string): nat
    decreases |s|
  {
    if s == [] then 0
    else
      var c := s[|s| - 1];
      DigitsValue(s[..|s| - 1]) * 10 + (if '0' <= c <= '9' then c as int - '0' as int else 0)
  }

  /** `int(str(n)) == n` */
  lemma {:induction false} NatToStringRoundTrip(n: nat)
    ensures DigitsValue(NatToString(n)) == n
  {
    var r := NatToString(n);
    if n >= 10 {
      NatToStringRoundTrip(n / 10);
      assert r[..|r| - 1] == NatToString(n / 10);
    }
  }
}

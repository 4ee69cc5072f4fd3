/**
 * `PromptBuilder`: the prompt sent to the model is a template whose two
 * placeholders receive the project's coding rules and the (cut) diff. The
 * rule directory and the template files are passed in as data.
 */
module PromptBuilder {
  import opened Text
  import opened Config

  // ---------------------------------------------------------------------------
  // `sorted` on file names: Python orders strings by code point, lexicographically
  // ---------------------------------------------------------------------------

  predicate NameLess(a: string, b: string)
    decreases |a|
  {
    b != [] && (a == [] || a[0] < b[0] || (a[0] == b[0] && NameLess(a[1..], b[1..])))
  }

  lemma {:induction false} NameLessIrreflexive(a: string)
    ensures !NameLess(a, a)
    decreases |a|
  {
    if a != [] {
      NameLessIrreflexive(a[1..]);
    }
  }

  lemma {:induction false} NameLessTotal(a: string, b: string)
    ensures NameLess(a, b) || a == b || NameLess(b, a)
    decreases |a|
  {
    if a != [] && b != [] && a[0] == b[0] {
      NameLessTotal(a[1..], b[1..]);
      if a[1..] == b[1..] {
        assert a == [a[0]] + a[1..] && b == [b[0]] + b[1..];
      }
    }
  }

  lemma {:induction false} NameLessTransitive(a: string, b: string, c: string)
    requires NameLess(a, b) && NameLess(b, c)
    ensures NameLess(a, c)
    decreases |a|
  {
    if a != [] && a[0] == b[0] && b[0] == c[0] {
      NameLessTransitive(a[1..], b[1..], c[1..]);
    }
  }

  predicate SortedNames(s: seq<string>) {
    forall i, j :: 0 <= i < j < |s| ==> !NameLess(s[j], s[i])
  }

  /** Puts `x` before the first name not below it. */
  function Insert(x: string, s: seq<string>): seq<string>
    decreases |s|
  {
    if s == [] then [x] else if !NameLess(s[0], x) then [x] + s else [s[0]] + Insert(x, s[1..])
  }

  /** `sorted(names)`. */
  function Sort(names: seq<string>): seq<string>
    decreases |names|
  {
    if names == [] then [] else Insert(names[0], Sort(names[1..]))
  }

  /** "Not below" is transitive. */
  lemma NotBelowTransitive(a: string, b: string, c: string)
    requires !NameLess(b, a) && !NameLess(c, b)
    ensures !NameLess(c, a)
  {
    NameLessTotal(c, b);
    if NameLess(c, a) && NameLess(b, c) {
      NameLessTransitive(b, c, a);
    }
  }

  lemma SortedTail(s: seq<string>)
    requires s != [] && SortedNames(s)
    ensures SortedNames(s[1..])
  {
    var t := s[1..];
    forall i, j | 0 <= i < j < |t| ensures !NameLess(t[j], t[i]) {
      assert t[i] == s[i + 1] && t[j] == s[j + 1];
    }
  }

  /** A name not above the head of a sorted list goes in front of it. */
  lemma InsertInFront(x: string, s: seq<string>)
    requires s != [] && SortedNames(s) && !NameLess(s[0], x)
    ensures SortedNames([x] + s)
  {
    var r := [x] + s;
    forall i, j | 0 <= i < j < |r| ensures !NameLess(r[j], r[i]) {
      if i == 0 {
        assert r[j] == s[j - 1];
        if j > 1 {
          assert !NameLess(s[j - 1], s[0]);
          NotBelowTransitive(x, s[0], s[j - 1]);
        }
      } else {
        assert r[i] == s[i - 1] && r[j] == s[j - 1];
      }
    }
  }

  lemma NameLessAsymmetric(a: string, b: string)
    requires NameLess(a, b)
    ensures !NameLess(b, a)
  {
    NameLessIrreflexive(a);
    if NameLess(b, a) {
      NameLessTransitive(a, b, a);
    }
  }

  /** Every name in the tail of a sorted list is not below its head. */
  lemma HeadNotAbove(s: seq<string>, y: string)
    requires s != [] && SortedNames(s) && y in s[1..]
    ensures !NameLess(y, s[0])
  {
    var k :| 0 <= k < |s[1..]| && s[1..][k] == y;
    assert s[k + 1] == y;
  }

  /** A head not above any element of a sorted list keeps the list sorted. */
  lemma ConsSorted(h: string, u: seq<string>)
    requires SortedNames(u) && forall k :: 0 <= k < |u| ==> !NameLess(u[k], h)
    ensures SortedNames([h] + u)
  {
    var r := [h] + u;
    forall i, j | 0 <= i < j < |r| ensures !NameLess(r[j], r[i]) {
      assert r[j] == u[j - 1];
      if i > 0 {
        assert r[i] == u[i - 1];
      }
    }
  }

  /** Inserting a name above the head into the tail leaves nothing below the head. */
  lemma InsertedNotBelowHead(x: string, s: seq<string>, u: seq<string>)
    requires s != [] && SortedNames(s) && NameLess(s[0], x)
    requires multiset(u) == multiset(s[1..]) + multiset{x}
    ensures forall k :: 0 <= k < |u| ==> !NameLess(u[k], s[0])
  {
    NameLessAsymmetric(s[0], x);
    forall k | 0 <= k < |u| ensures !NameLess(u[k], s[0]) {
      var y := u[k];
      assert y in multiset(u);
      if y != x {
        assert y in multiset(s[1..]);
        HeadNotAbove(s, y);
      }
    }
  }

  /** A name above the head of a sorted list goes into its tail, behind the head. */
  lemma InsertBehindHead(x: string, s: seq<string>)
    requires s != [] && SortedNames(s) && NameLess(s[0], x)
    requires SortedNames(Insert(x, s[1..])) && multiset(Insert(x, s[1..])) == multiset(s[1..]) + multiset{x}
    ensures SortedNames([s[0]] + Insert(x, s[1..]))
  {
    var u := Insert(x, s[1..]);
    InsertedNotBelowHead(x, s, u);
    ConsSorted(s[0], u);
  }

  lemma {:induction false} InsertSpec(x: string, s: seq<string>)
    requires SortedNames(s)
    ensures multiset(Insert(x, s)) == multiset(s) + multiset{x}
    ensures SortedNames(Insert(x, s))
    decreases |s|
  {
    if s != [] {
      assert s == [s[0]] + s[1..];
      if !NameLess(s[0], x) {
        InsertInFront(x, s);
      } else {
        SortedTail(s);
        InsertSpec(x, s[1..]);
        InsertBehindHead(x, s);
      }
    }
  }

  /** `sorted` returns the same names, in order. */
  lemma {:induction false} SortSpec(names: seq<string>)
    ensures multiset(Sort(names)) == multiset(names)
    ensures SortedNames(Sort(names))
    decreases |names|
  {
    if names != [] {
      SortSpec(names[1..]);
      InsertSpec(names[0], Sort(names[1..]));
      assert names == [names[0]] + names[1..];
    }
  }

  // ---------------------------------------------------------------------------
  // `_load_coding_rules`
  // ---------------------------------------------------------------------------

  const RULE_SEPARATOR: string := "\n\n---\n\n"

  /** `textwrap.dedent` applied to the built-in rules, written out. */
  const FALLBACK_RULES: string :=
    "\n## Key Flutter Review Rules:\n"
    + "- Clean Architecture: Domain must NOT import Data/Presentation layers\n"
    + "- GetX: Use init: only at root widget, Get.find() in children\n"
    + "- Assets: Use Assets.icons.iconBack (NOT hardcoded paths)\n"
    + "- i18n: Use context.tr() (NOT hardcoded strings)\n"
    + "- Error Handling: Return Either<Failure, T> in repositories\n"

  /**
   * The `rule/` directory: `Inaccessible` when it cannot be listed; otherwise
   * the names it lists and the contents of the files that can be read.
   */
  datatype RulesDir = Inaccessible | Directory(names: seq<string>, readable: map<string, string>)

  /** The names ending in `.md`, in listing order. */
  function MarkdownNames(names: seq<string>): seq<string>
    decreases |names|
  {
    if names == [] then []
    else (if EndsWith(names[0], ".md") then [names[0]] else []) + MarkdownNames(names[1..])
  }

  lemma {:induction false} MarkdownNamesSpec(names: seq<string>)
    ensures forall x :: x in MarkdownNames(names) <==> x in names && EndsWith(x, ".md")
    decreases |names|
  {
    if names != [] {
      MarkdownNamesSpec(names[1..]);
      assert names == [names[0]] + names[1..];
    }
  }

  /** The contents of the readable files among `files`, in order: an unreadable file is skipped. */
  function ReadableContents(files: seq<string>, readable: map<string, string>): seq<string>
    decreases |files|
  {
    if files == [] then []
    else
      var last := files[|files| - 1];
      ReadableContents(files[..|files| - 1], readable) + (if last in readable then [readable[last]] else [])
  }

  /** The contents of two runs of files are those of each run, one after the other. */
  lemma {:induction false} ReadableContentsAppend(a: seq<string>, b: seq<string>, readable: map<string, string>)
    ensures ReadableContents(a + b, readable) == ReadableContents(a, readable) + ReadableContents(b, readable)
    decreases |b|
  {
    if b == [] {
      assert a + b == a;
    } else {
      var b' := b[..|b| - 1];
      assert (a + b)[..|a + b| - 1] == a + b' && (a + b)[|a + b| - 1] == b[|b| - 1];
      ReadableContentsAppend(a, b', readable);
    }
  }

  /** Nothing is read exactly when no file is readable. */
  lemma {:induction false} ReadableContentsEmpty(files: seq<string>, readable: map<string, string>)
    ensures ReadableContents(files, readable) == [] <==> forall f :: f in files ==> f !in readable
    decreases |files|
  {
    if files != [] {
      var init := files[..|files| - 1];
      ReadableContentsEmpty(init, readable);
      assert files == init + [files[|files| - 1]];
    }
  }

  /** What `_load_coding_rules` returns. */
  function CodingRules(dir: RulesDir): string {
    match dir
    case Inaccessible => FALLBACK_RULES
    case Directory(names, readable) =>
      var ruleFiles := Sort(MarkdownNames(names));
      var allRules := ReadableContents(ruleFiles, readable);
      if ruleFiles == [] || allRules == [] then FALLBACK_RULES else Join(allRules, RULE_SEPARATOR)
  }

  /** `_load_coding_rules`: reads the sorted `.md` files one by one, skipping those that fail. */
  method LoadCodingRules(dir: RulesDir) returns (codingRules: string)
    ensures codingRules == CodingRules(dir)
  {
    match dir
    case Inaccessible =>
      return FALLBACK_RULES;
    case Directory(names, readable) =>
      var ruleFiles := Sort(MarkdownNames(names));
      if ruleFiles == [] {
        return FALLBACK_RULES;
      }
      var allRules: seq<string> := [];
      for i := 0 to |ruleFiles|
        invariant allRules == ReadableContents(ruleFiles[..i], readable)
      {
        var ruleFile := ruleFiles[i];
        assert ruleFiles[..i + 1][..i] == ruleFiles[..i];
        if ruleFile in readable {
          allRules := allRules + [readable[ruleFile]];
        }
      }
      assert ruleFiles[..|ruleFiles|] == ruleFiles;
      if allRules == [] {
        return FALLBACK_RULES;
      }
      return Join(allRules, RULE_SEPARATOR);
  }

  /** A rule file is used: its name ends in `.md` and it can be read. */
  ghost predicate HasReadableRule(names: seq<string>, readable: map<string, string>) {
    exists f :: f in names && EndsWith(f, ".md") && f in readable
  }

  /**
   * The rules are the contents of the readable `.md` files, sorted by name and
   * joined by the separator; the fallback rules are used when the directory
   * cannot be listed or no `.md` file in it can be read.
   */
  lemma CodingRulesSpec(dir: RulesDir)
    ensures dir.Inaccessible? ==> CodingRules(dir) == FALLBACK_RULES
    ensures dir.Directory? && !HasReadableRule(dir.names, dir.readable) ==> CodingRules(dir) == FALLBACK_RULES
    ensures dir.Directory? && HasReadableRule(dir.names, dir.readable) ==>
      var ruleFiles := Sort(MarkdownNames(dir.names));
      SortedNames(ruleFiles)
      && multiset(ruleFiles) == multiset(MarkdownNames(dir.names))
      && ReadableContents(ruleFiles, dir.readable) != []
      && CodingRules(dir) == Join(ReadableContents(ruleFiles, dir.readable), RULE_SEPARATOR)
  {
    if dir.Directory? {
      var ruleFiles := Sort(MarkdownNames(dir.names));
      SortSpec(MarkdownNames(dir.names));
      MarkdownNamesSpec(dir.names);
      ReadableContentsEmpty(ruleFiles, dir.readable);
      if HasReadableRule(dir.names, dir.readable) {
        var f :| f in dir.names && EndsWith(f, ".md") && f in dir.readable;
        assert f in multiset(ruleFiles);
      } else {
        forall g | g in ruleFiles ensures g !in dir.readable {
          assert g in multiset(MarkdownNames(dir.names));
        }
      }
    }
  }

  /** An unreadable file between two runs of rule files contributes nothing. */
  lemma UnreadableSkipped(a: seq<string>, f: string, b: seq<string>, readable: map<string, string>)
    requires f !in readable
    ensures ReadableContents(a + [f] + b, readable) == ReadableContents(a + b, readable)
  {
    ReadableContentsAppend(a + [f], b, readable);
    ReadableContentsAppend(a, [f], readable);
    ReadableContentsAppend(a, b, readable);
    assert [f][..0] == [];
  }

  // ---------------------------------------------------------------------------
  // `_load_prompt_template` and the built-in template
  // ---------------------------------------------------------------------------

  const CODING_RULES_FIELD: string := "{coding_rules}"
  const CODE_DIFF_FIELD: string := "{code_diff}"

  // The fixed text of the built-in template, in pieces short enough for the brace checks below.
  const TEMPLATE_INTRO: string :=
    "Bạn là một senior "
    + "Flutter/Dart engineer. "
    + "Hãy review code changes "
    + "dưới đây theo coding "
    + "standards của dự án.\n\n=== "
    + "QUY TẮC & CHUẨN MỰC LẬP "
    + "TRÌNH ===\n"
  const TEMPLATE_MIDDLE: string :=
    "\n\n=== NHIỆM VỤ CỦA BẠN "
    + "===\nHãy phân tích code "
    + "diff và CHỈ liệt kê những "
    + "vấn đề/vi phạm thực sự "
    + "tìm thấy.\n\nYÊU CẦU QUAN "
    + "TRỌNG:\n- Trả lời HOÀN "
    + "TOÀN BẰNG TIẾNG VIỆT\n- "
    + "Format: Markdown với "
    + "emoji (🔴 lỗi nghiêm "
    + "trọng, ⚠️ cảnh báo, 💡 gợi "
    + "ý)\n\n=== CODE DIFF CẦN "
    + "REVIEW ===\n"
  const TEMPLATE_END: string := "\n"

  /** The built-in Vietnamese template. */
  const FALLBACK_TEMPLATE: string :=
    TEMPLATE_INTRO + CODING_RULES_FIELD + TEMPLATE_MIDDLE + CODE_DIFF_FIELD + TEMPLATE_END

  const ENGLISH_TEMPLATE_FILE: string := "review_prompt_en.txt"
  const VIETNAMESE_TEMPLATE_FILE: string := "review_prompt_vi.txt"

  /** The template file for a language. */
  function TemplateFile(language: string): string {
    if language == "english" then ENGLISH_TEMPLATE_FILE else VIETNAMESE_TEMPLATE_FILE
  }

  /** `_load_prompt_template`; `templates` holds the readable files of `prompts/`. */
  function LoadPromptTemplate(language: string, templates: map<string, string>): string {
    var promptFile := TemplateFile(language);
    if promptFile in templates then templates[promptFile] else FALLBACK_TEMPLATE
  }

  /**
   * Only exactly "english" selects the English template; every other value,
   * "English" included, selects the Vietnamese one. A template file that
   * cannot be read gives the built-in template.
   */
  lemma TemplateChoice(language: string, templates: map<string, string>)
    ensures TemplateFile(language) == ENGLISH_TEMPLATE_FILE <==> language == "english"
    ensures TemplateFile(language) == VIETNAMESE_TEMPLATE_FILE <==> language != "english"
    ensures TemplateFile(language) in templates ==> LoadPromptTemplate(language, templates) == templates[TemplateFile(language)]
    ensures TemplateFile(language) !in templates ==> LoadPromptTemplate(language, templates) == FALLBACK_TEMPLATE
  {
    assert ENGLISH_TEMPLATE_FILE[14] != VIETNAMESE_TEMPLATE_FILE[14];
  }

  /** The occurrences of `p` in `s`, overlapping ones included. */
  function Occurrences(s: string, p: string): nat
    decreases |s|
  {
    if s == [] then 0 else (if StartsWith(s, p) then 1 else 0) + Occurrences(s[1..], p)
  }

  predicate NoBrace(s: string) {
    '{' !in s
  }

  /** Text without a brace holds no place-holder. */
  lemma {:induction false} NoBraceNoOccurrence(a: string, rest: string, p: string)
    requires NoBrace(a) && p != [] && p[0] == '{'
    ensures Occurrences(a + rest, p) == Occurrences(rest, p)
    decreases |a|
  {
    if a != [] {
      assert (a + rest)[1..] == a[1..] + rest;
      assert a[0] == (a + rest)[0] && a[0] in a;
      assert a == [a[0]] + a[1..];
      assert |p| <= |a + rest| ==> (a + rest)[..|p|][0] == (a + rest)[0];
      NoBraceNoOccurrence(a[1..], rest, p);
    } else {
      assert a + rest == rest;
    }
  }

  lemma FieldsBraceOnlyFirst()
    ensures NoBrace(CODING_RULES_FIELD[1..]) && NoBrace(CODE_DIFF_FIELD[1..])
    ensures forall k :: 1 <= k < |CODING_RULES_FIELD| ==> CODING_RULES_FIELD[k] != '{'
    ensures forall k :: 1 <= k < |CODE_DIFF_FIELD| ==> CODE_DIFF_FIELD[k] != '{'
    ensures NoBrace(TEMPLATE_END)
  {
  }

  /** The place-holders differ in their fifth character. */
  lemma FieldChar(t: string)
    ensures StartsWith(t, CODING_RULES_FIELD) ==> t[4] == 'i'
    ensures StartsWith(t, CODE_DIFF_FIELD) ==> t[4] == 'e'
  {
    if StartsWith(t, CODING_RULES_FIELD) {
      assert t[..|CODING_RULES_FIELD|][4] == t[4];
    }
    if StartsWith(t, CODE_DIFF_FIELD) {
      assert t[..|CODE_DIFF_FIELD|][4] == t[4];
    }
  }

  lemma IntroPiece0() ensures NoBrace("Bạn là một senior ") {}
  lemma IntroPiece1() ensures NoBrace("Flutter/Dart engineer. ") {}
  lemma IntroPiece2() ensures NoBrace("Hãy review code changes ") {}
  lemma IntroPiece3() ensures NoBrace("dưới đây theo coding ") {}
  lemma IntroPiece4() ensures NoBrace("standards của dự án.\n\n=== ") {}
  lemma IntroPiece5() ensures NoBrace("QUY TẮC & CHUẨN MỰC LẬP ") {}
  lemma IntroPiece6() ensures NoBrace("TRÌNH ===\n") {}
  lemma MiddlePiece0() ensures NoBrace("\n\n=== NHIỆM VỤ CỦA BẠN ") {}
  lemma MiddlePiece1() ensures NoBrace("===\nHãy phân tích code ") {}
  lemma MiddlePiece2() ensures NoBrace("diff và CHỈ liệt kê những ") {}
  lemma MiddlePiece3() ensures NoBrace("vấn đề/vi phạm thực sự ") {}
  lemma MiddlePiece4() ensures NoBrace("tìm thấy.\n\nYÊU CẦU QUAN ") {}
  lemma MiddlePiece5() ensures NoBrace("TRỌNG:\n- Trả lời HOÀN ") {}
  lemma MiddlePiece6() ensures NoBrace("TOÀN BẰNG TIẾNG VIỆT\n- ") {}
  lemma MiddlePiece7() ensures NoBrace("Format: Markdown với ") {}
  lemma MiddlePiece8() ensures NoBrace("emoji (🔴 lỗi nghiêm ") {}
  lemma MiddlePiece9() ensures NoBrace("trọng, ⚠️ cảnh báo, 💡 gợi ") {}
  lemma MiddlePiece10() ensures NoBrace("ý)\n\n=== CODE DIFF CẦN ") {}
  lemma MiddlePiece11() ensures NoBrace("REVIEW ===\n") {}

  /** The fixed text of the built-in template has no brace. */
  lemma TemplateTextNoBrace()
    ensures NoBrace(TEMPLATE_INTRO) && NoBrace(TEMPLATE_MIDDLE)
  {
    IntroPiece0();
    IntroPiece1();
    IntroPiece2();
    IntroPiece3();
    IntroPiece4();
    IntroPiece5();
    IntroPiece6();
    MiddlePiece0();
    MiddlePiece1();
    MiddlePiece2();
    MiddlePiece3();
    MiddlePiece4();
    MiddlePiece5();
    MiddlePiece6();
    MiddlePiece7();
    MiddlePiece8();
    MiddlePiece9();
    MiddlePiece10();
    MiddlePiece11();
  }

  /** A place-holder followed by brace-free text and then `rest` occurs once more than in `rest` if it is `p`, else as often. */
  lemma FieldOccurrences(field: string, a: string, rest: string, p: string)
    requires field == CODING_RULES_FIELD || field == CODE_DIFF_FIELD
    requires p == CODING_RULES_FIELD || p == CODE_DIFF_FIELD
    requires NoBrace(a)
    ensures Occurrences(field + a + rest, p) == (if field == p then 1 else 0) + Occurrences(rest, p)
  {
    FieldsBraceOnlyFirst();
    var s := field + a + rest;
    assert s[1..] == field[1..] + (a + rest);
    NoBraceNoOccurrence(field[1..], a + rest, p);
    NoBraceNoOccurrence(a, rest, p);
    if field != p {
      assert CODING_RULES_FIELD[5] != CODE_DIFF_FIELD[5];
      assert s[5] == field[5];
    }
  }

  /** The built-in template holds each place-holder exactly once. */
  lemma FallbackTemplateFields()
    ensures Occurrences(FALLBACK_TEMPLATE, CODING_RULES_FIELD) == 1
    ensures Occurrences(FALLBACK_TEMPLATE, CODE_DIFF_FIELD) == 1
  {
    TemplateTextNoBrace();
    FieldsBraceOnlyFirst();
    TemplateFieldsOnce(TEMPLATE_INTRO, TEMPLATE_MIDDLE, TEMPLATE_END);
  }

  /** A template of brace-free text around one place-holder of each kind holds each exactly once. */
  lemma TemplateFieldsOnce(a: string, m: string, e: string)
    requires NoBrace(a) && NoBrace(m) && NoBrace(e)
    ensures Occurrences(a + CODING_RULES_FIELD + m + CODE_DIFF_FIELD + e, CODING_RULES_FIELD) == 1
    ensures Occurrences(a + CODING_RULES_FIELD + m + CODE_DIFF_FIELD + e, CODE_DIFF_FIELD) == 1
  {
    var tail := CODE_DIFF_FIELD + e + [];
    var rest := CODING_RULES_FIELD + m + tail;
    assert e + [] == e;
    assert a + CODING_RULES_FIELD + m + CODE_DIFF_FIELD + e == a + rest;
    var p := CODING_RULES_FIELD;
    NoBraceNoOccurrence(a, rest, p);
    FieldOccurrences(CODING_RULES_FIELD, m, tail, p);
    FieldOccurrences(CODE_DIFF_FIELD, e, [], p);
    var q := CODE_DIFF_FIELD;
    NoBraceNoOccurrence(a, rest, q);
    FieldOccurrences(CODING_RULES_FIELD, m, tail, q);
    FieldOccurrences(CODE_DIFF_FIELD, e, [], q);
  }

  // ---------------------------------------------------------------------------
  // `build_prompt`
  // ---------------------------------------------------------------------------

  /** `template.format(coding_rules=..., code_diff=...)` for the two named place-holders. */
  function Substitute(template: string, codingRules: string, codeDiff: string): string
    decreases |template|
  {
    if template == [] then ""
    else if template[0] != '{' then [template[0]] + Substitute(template[1..], codingRules, codeDiff)
    else if StartsWith(template, CODING_RULES_FIELD) then
      codingRules + Substitute(template[|CODING_RULES_FIELD|..], codingRules, codeDiff)
    else if StartsWith(template, CODE_DIFF_FIELD) then
      codeDiff + Substitute(template[|CODE_DIFF_FIELD|..], codingRules, codeDiff)
    else
      [template[0]] + Substitute(template[1..], codingRules, codeDiff)
  }

  /** Text without braces is left as it is. */
  lemma {:induction false} SubstituteNoBrace(a: string, codingRules: string, codeDiff: string)
    requires NoBrace(a)
    ensures Substitute(a, codingRules, codeDiff) == a
    decreases |a|
  {
    if a != [] {
      assert a[0] != '{';
      SubstituteNoBrace(a[1..], codingRules, codeDiff);
    }
  }

  /** The character of a prefix found past the end of `a` comes from `b`. */
  lemma PrefixIndex(a: string, b: string, field: string)
    requires StartsWith(a + b, field) && b != [] && |a| < |field|
    ensures field[|a|] == b[0]
  {
    assert (a + b)[..|field|][|a|] == (a + b)[|a|];
  }

  /** A place-holder in front of `a + b`, where `b` starts with a brace, lies within `a`. */
  lemma FieldWithin(field: string, a: string, b: string)
    requires field == CODING_RULES_FIELD || field == CODE_DIFF_FIELD
    requires b == [] || b[0] == '{'
    requires a != [] && StartsWith(a + b, field)
    ensures StartsWith(a, field) && (a + b)[|field|..] == a[|field|..] + b
  {
    FieldsBraceOnlyFirst();
    if |a| < |field| {
      PrefixIndex(a, b, field);
      assert false;
    }
    assert (a + b)[..|field|] == a[..|field|];
  }

  /** `a + b` starts with a place-holder only if `a` does, when `b` starts with a brace; the reverse always holds. */
  lemma FieldFront(field: string, a: string, b: string)
    requires field == CODING_RULES_FIELD || field == CODE_DIFF_FIELD
    requires b == [] || b[0] == '{'
    requires a != []
    ensures StartsWith(a + b, field) <==> StartsWith(a, field)
    ensures StartsWith(a, field) ==> (a + b)[|field|..] == a[|field|..] + b
  {
    if StartsWith(a + b, field) {
      FieldWithin(field, a, b);
    }
    if StartsWith(a, field) {
      assert (a + b)[..|field|] == a[..|field|];
    }
  }

  /** One step of `Substitute` at a `{coding_rules}` place-holder. */
  lemma SubstituteAtRules(t: string, codingRules: string, codeDiff: string)
    requires StartsWith(t, CODING_RULES_FIELD)
    ensures Substitute(t, codingRules, codeDiff) == codingRules + Substitute(t[|CODING_RULES_FIELD|..], codingRules, codeDiff)
  {
    assert t[..|CODING_RULES_FIELD|][0] == t[0];
  }

  /** One step of `Substitute` at a `{code_diff}` place-holder. */
  lemma SubstituteAtDiff(t: string, codingRules: string, codeDiff: string)
    requires StartsWith(t, CODE_DIFF_FIELD)
    ensures Substitute(t, codingRules, codeDiff) == codeDiff + Substitute(t[|CODE_DIFF_FIELD|..], codingRules, codeDiff)
  {
    assert t[..|CODE_DIFF_FIELD|][0] == t[0];
    FieldChar(t);
  }

  /** Concatenation is associative. */
  lemma AppendAssoc(r: string, x: string, y: string)
    ensures r + (x + y) == (r + x) + y
  {
  }

  /** One step of `Substitute` at a character that starts no place-holder. */
  lemma SubstituteAtChar(t: string, codingRules: string, codeDiff: string)
    requires t != [] && !StartsWith(t, CODING_RULES_FIELD) && !StartsWith(t, CODE_DIFF_FIELD)
    ensures Substitute(t, codingRules, codeDiff) == [t[0]] + Substitute(t[1..], codingRules, codeDiff)
  {
  }

  /** `SubstituteSplit` past a `{coding_rules}` at the front of `a`. */
  lemma SplitAfterRules(a: string, b: string, codingRules: string, codeDiff: string)
    requires b == [] || b[0] == '{'
    requires StartsWith(a, CODING_RULES_FIELD)
    requires Substitute(a[|CODING_RULES_FIELD|..] + b, codingRules, codeDiff)
      == Substitute(a[|CODING_RULES_FIELD|..], codingRules, codeDiff) + Substitute(b, codingRules, codeDiff)
    ensures Substitute(a + b, codingRules, codeDiff) == Substitute(a, codingRules, codeDiff) + Substitute(b, codingRules, codeDiff)
  {
    assert StartsWith(a + b, CODING_RULES_FIELD) && (a + b)[|CODING_RULES_FIELD|..] == a[|CODING_RULES_FIELD|..] + b by {
      FieldFront(CODING_RULES_FIELD, a, b);
    }
    SubstituteAtRules(a + b, codingRules, codeDiff);
    SubstituteAtRules(a, codingRules, codeDiff);
    var x := Substitute(a[|CODING_RULES_FIELD|..], codingRules, codeDiff);
    var y := Substitute(b, codingRules, codeDiff);
    calc {
      Substitute(a + b, codingRules, codeDiff);
      codingRules + Substitute((a + b)[|CODING_RULES_FIELD|..], codingRules, codeDiff);
      { assert (a + b)[|CODING_RULES_FIELD|..] == a[|CODING_RULES_FIELD|..] + b; }
      codingRules + Substitute(a[|CODING_RULES_FIELD|..] + b, codingRules, codeDiff);
      codingRules + (x + y);
      { AppendAssoc(codingRules, x, y); }
      (codingRules + x) + y;
      Substitute(a, codingRules, codeDiff) + y;
    }
  }

  /** `SubstituteSplit` past a `{code_diff}` at the front of `a`. */
  lemma SplitAfterDiff(a: string, b: string, codingRules: string, codeDiff: string)
    requires b == [] || b[0] == '{'
    requires StartsWith(a, CODE_DIFF_FIELD)
    requires Substitute(a[|CODE_DIFF_FIELD|..] + b, codingRules, codeDiff)
      == Substitute(a[|CODE_DIFF_FIELD|..], codingRules, codeDiff) + Substitute(b, codingRules, codeDiff)
    ensures Substitute(a + b, codingRules, codeDiff) == Substitute(a, codingRules, codeDiff) + Substitute(b, codingRules, codeDiff)
  {
    assert StartsWith(a + b, CODE_DIFF_FIELD) && (a + b)[|CODE_DIFF_FIELD|..] == a[|CODE_DIFF_FIELD|..] + b by {
      FieldFront(CODE_DIFF_FIELD, a, b);
    }
    SubstituteAtDiff(a + b, codingRules, codeDiff);
    SubstituteAtDiff(a, codingRules, codeDiff);
    var x := Substitute(a[|CODE_DIFF_FIELD|..], codingRules, codeDiff);
    var y := Substitute(b, codingRules, codeDiff);
    calc {
      Substitute(a + b, codingRules, codeDiff);
      codeDiff + Substitute((a + b)[|CODE_DIFF_FIELD|..], codingRules, codeDiff);
      { assert (a + b)[|CODE_DIFF_FIELD|..] == a[|CODE_DIFF_FIELD|..] + b; }
      codeDiff + Substitute(a[|CODE_DIFF_FIELD|..] + b, codingRules, codeDiff);
      codeDiff + (x + y);
      { AppendAssoc(codeDiff, x, y); }
      (codeDiff + x) + y;
      Substitute(a, codingRules, codeDiff) + y;
    }
  }

  /** Appending text that starts with a brace keeps a character that starts no place-holder so. */
  lemma CharFront(a: string, b: string)
    requires b == [] || b[0] == '{'
    requires a != [] && !StartsWith(a, CODING_RULES_FIELD) && !StartsWith(a, CODE_DIFF_FIELD)
    ensures !StartsWith(a + b, CODING_RULES_FIELD) && !StartsWith(a + b, CODE_DIFF_FIELD)
    ensures [(a + b)[0]] == [a[0]] && (a + b)[1..] == a[1..] + b
  {
    FieldFront(CODING_RULES_FIELD, a, b);
    FieldFront(CODE_DIFF_FIELD, a, b);
  }

  /** `SubstituteSplit` past a character of `a` that starts no place-holder. */
  lemma SplitAfterChar(a: string, b: string, codingRules: string, codeDiff: string)
    requires b == [] || b[0] == '{'
    requires a != [] && !StartsWith(a, CODING_RULES_FIELD) && !StartsWith(a, CODE_DIFF_FIELD)
    requires Substitute(a[1..] + b, codingRules, codeDiff)
      == Substitute(a[1..], codingRules, codeDiff) + Substitute(b, codingRules, codeDiff)
    ensures Substitute(a + b, codingRules, codeDiff) == Substitute(a, codingRules, codeDiff) + Substitute(b, codingRules, codeDiff)
  {
    CharFront(a, b);
    SubstituteAtChar(a + b, codingRules, codeDiff);
    SubstituteAtChar(a, codingRules, codeDiff);
    var c := [a[0]];
    var x := Substitute(a[1..], codingRules, codeDiff);
    var y := Substitute(b, codingRules, codeDiff);
    calc {
      Substitute(a + b, codingRules, codeDiff);
      c + Substitute((a + b)[1..], codingRules, codeDiff);
      c + Substitute(a[1..] + b, codingRules, codeDiff);
      c + (x + y);
      { AppendAssoc(c, x, y); }
      (c + x) + y;
      Substitute(a, codingRules, codeDiff) + y;
    }
  }

  /** No place-holder straddles a boundary followed by a brace: each holds a brace only at its start. */
  lemma {:induction false} SubstituteSplit(a: string, b: string, codingRules: string, codeDiff: string)
    requires b == [] || b[0] == '{'
    ensures Substitute(a + b, codingRules, codeDiff) == Substitute(a, codingRules, codeDiff) + Substitute(b, codingRules, codeDiff)
    decreases |a|
  {
    if a == [] {
      assert a + b == b;
    } else if StartsWith(a, CODING_RULES_FIELD) {
      SubstituteSplit(a[|CODING_RULES_FIELD|..], b, codingRules, codeDiff);
      SplitAfterRules(a, b, codingRules, codeDiff);
    } else if StartsWith(a, CODE_DIFF_FIELD) {
      SubstituteSplit(a[|CODE_DIFF_FIELD|..], b, codingRules, codeDiff);
      SplitAfterDiff(a, b, codingRules, codeDiff);
    } else {
      SubstituteSplit(a[1..], b, codingRules, codeDiff);
      SplitAfterChar(a, b, codingRules, codeDiff);
    }
  }

  /**
   * Wherever a place-holder stands in a template, the prompt holds its value
   * there, between the substituted text before and after it.
   */
  lemma FieldReplaced(a: string, b: string, codingRules: string, codeDiff: string)
    ensures Substitute(a + CODING_RULES_FIELD + b, codingRules, codeDiff)
      == Substitute(a, codingRules, codeDiff) + codingRules + Substitute(b, codingRules, codeDiff)
    ensures Substitute(a + CODE_DIFF_FIELD + b, codingRules, codeDiff)
      == Substitute(a, codingRules, codeDiff) + codeDiff + Substitute(b, codingRules, codeDiff)
  {
    var r := CODING_RULES_FIELD + b;
    assert a + CODING_RULES_FIELD + b == a + r;
    SubstituteSplit(a, r, codingRules, codeDiff);
    assert StartsWith(r, CODING_RULES_FIELD) && r[|CODING_RULES_FIELD|..] == b;
    var d := CODE_DIFF_FIELD + b;
    assert a + CODE_DIFF_FIELD + b == a + d;
    SubstituteSplit(a, d, codingRules, codeDiff);
    assert StartsWith(d, CODE_DIFF_FIELD) && d[|CODE_DIFF_FIELD|..] == b;
    assert !StartsWith(d, CODING_RULES_FIELD) by {
      assert CODING_RULES_FIELD[5] != CODE_DIFF_FIELD[5];
    }
  }

  /** With the built-in template, the prompt is its fixed text with the rules and the diff in their places. */
  lemma FallbackPrompt(codingRules: string, codeDiff: string)
    ensures Substitute(FALLBACK_TEMPLATE, codingRules, codeDiff)
      == TEMPLATE_INTRO + codingRules + TEMPLATE_MIDDLE + codeDiff + TEMPLATE_END
  {
    TemplateTextNoBrace();
    FieldsBraceOnlyFirst();
    TemplateFilled(TEMPLATE_INTRO, TEMPLATE_MIDDLE, TEMPLATE_END, codingRules, codeDiff);
  }

  /** Brace-free text around the two place-holders comes out unchanged around the rules and the diff. */
  lemma TemplateFilled(a: string, m: string, e: string, codingRules: string, codeDiff: string)
    requires NoBrace(a) && NoBrace(m) && NoBrace(e)
    ensures Substitute(a + CODING_RULES_FIELD + m + CODE_DIFF_FIELD + e, codingRules, codeDiff)
      == a + codingRules + m + codeDiff + e
  {
    var tail := m + CODE_DIFF_FIELD + e;
    assert a + CODING_RULES_FIELD + m + CODE_DIFF_FIELD + e == a + CODING_RULES_FIELD + tail;
    FieldReplaced(a, tail, codingRules, codeDiff);
    FieldReplaced(m, e, codingRules, codeDiff);
    SubstituteNoBrace(a, codingRules, codeDiff);
    SubstituteNoBrace(m, codingRules, codeDiff);
    SubstituteNoBrace(e, codingRules, codeDiff);
  }

  /** `diff_text[:MAX_DIFF_LENGTH]`. */
  function CutDiff(diffText: string): (r: string)
    ensures |r| == if |diffText| <= MAX_DIFF_LENGTH then |diffText| else MAX_DIFF_LENGTH
    ensures StartsWith(diffText, r)
    ensures |diffText| <= MAX_DIFF_LENGTH ==> r == diffText
  {
    Slice(diffText, 0, MAX_DIFF_LENGTH)
  }

  /** `PromptBuilder(language).build_prompt(diff_text)`. */
  function BuildPrompt(language: string, diffText: string, dir: RulesDir, templates: map<string, string>): string {
    Substitute(LoadPromptTemplate(language, templates), CodingRules(dir), CutDiff(diffText))
  }

  /** When no template file can be read, the prompt is the built-in text around the rules and the cut diff. */
  lemma BuildPromptFallback(language: string, diffText: string, dir: RulesDir, templates: map<string, string>)
    requires TemplateFile(language) !in templates
    ensures BuildPrompt(language, diffText, dir, templates)
      == TEMPLATE_INTRO + CodingRules(dir) + TEMPLATE_MIDDLE + CutDiff(diffText) + TEMPLATE_END
  {
    FallbackPrompt(CodingRules(dir), CutDiff(diffText));
  }

  /**
   * With a readable template of brace-free text around the two place-holders,
   * the prompt is that text with the rules and the cut diff in their places.
   */
  lemma BuildPromptFromTemplate(language: string, diffText: string, dir: RulesDir, templates: map<string, string>,
                                a: string, m: string, e: string)
    requires NoBrace(a) && NoBrace(m) && NoBrace(e)
    requires TemplateFile(language) in templates
    requires templates[TemplateFile(language)] == a + CODING_RULES_FIELD + m + CODE_DIFF_FIELD + e
    ensures BuildPrompt(language, diffText, dir, templates) == a + CodingRules(dir) + m + CutDiff(diffText) + e
  {
    TemplateFilled(a, m, e, CodingRules(dir), CutDiff(diffText));
  }
}

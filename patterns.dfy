/**
 * The heading tables of document_structure.py and the fragment of Python's
 * regular expressions they are written in: literal words, single characters
 * of a class, `+` and `*` repetitions of a class, and `$`. Every pattern is
 * tried with `re.match(pattern, line, re.IGNORECASE)`, i.e. anchored at the
 * start of an already stripped line and ignoring case.
 */
module Patterns {
  import opened TextUtil

  /** A character class, matched ignoring case. */
  datatype CharClass =
    | Digit                      // `\d`
    | Space                      // `\s`
    | AnyOf(chars: string)       // `[abc]`
    | Range(lo: char, hi: char)  // `[a-z]`

  /** One element of a pattern. */
  datatype Item =
    | Word(w: string)            // literal text (escaped where the source escapes it)
    | One(cls: CharClass)        // exactly one character of the class
    | Plus(cls: CharClass)       // `cls+`
    | Star(cls: CharClass)       // `cls*`
    | End                        // `$`

  type Pattern = seq<Item>

  function Upper(c: char): char
  {
    if 'a' <= c <= 'z' then (c as int - 32) as char else c
  }

  predicate InClass(cls: CharClass, c: char)
  {
    match cls
    case Digit => '0' <= c <= '9'
    case Space => IsSpace(c)
    case AnyOf(cs) => exists k :: 0 <= k < |cs| && Lower(cs[k]) == Lower(c)
    case Range(lo, hi) => lo <= c <= hi || lo <= Lower(c) <= hi || lo <= Upper(c) <= hi
  }

  /** `re.match`: the pattern matches some prefix of `s`. The alternatives of
      `Star` are the backtracking the regex engine performs. */
  predicate MatchPrefix(p: Pattern, s: string)
    decreases |s|, |p|
  {
    if p == [] then true
    else match p[0]
      case Word(w) => OccursAt(s, w, 0) && MatchPrefix(p[1..], s[|w|..])
      case One(c) => |s| > 0 && InClass(c, s[0]) && MatchPrefix(p[1..], s[1..])
      case Plus(c) => |s| > 0 && InClass(c, s[0]) && MatchPrefix([Star(c)] + p[1..], s[1..])
      case Star(c) =>
        MatchPrefix(p[1..], s) || (|s| > 0 && InClass(c, s[0]) && MatchPrefix(p, s[1..]))
      case End => (s == [] || s == "\n") && MatchPrefix(p[1..], s)
  }

  /** Some pattern of the table, from the `q`-th on, matches the line: the
      patterns are tried in table order and the first match ends the scan. */
  predicate MatchesFrom(table: seq<Pattern>, line: string, q: nat)
    decreases |table| - q
  {
    q < |table| && (MatchPrefix(table[q], line) || MatchesFrom(table, line, q + 1))
  }

  predicate MatchesAny(table: seq<Pattern>, line: string)
  {
    MatchesFrom(table, line, 0)
  }

  /** The scan succeeds exactly when some pattern at or after `from` matches. */
  lemma {:induction false} MatchesFromExists(table: seq<Pattern>, line: string, from: nat)
    decreases |table| - from
    ensures MatchesFrom(table, line, from) <==>
      exists q :: from <= q < |table| && MatchPrefix(table[q], line)
  {
    if from < |table| {
      MatchesFromExists(table, line, from + 1);
    }
  }

  /** A line the scans stop at: not blank once stripped, and its stripped
      form matches a pattern of the table. */
  predicate IsHeading(line: string, table: seq<Pattern>)
  {
    var t := Strip(line);
    t != [] && MatchesAny(table, t)
  }

  /** A heading line is a line that is not all whitespace and whose
      stripped form some pattern of the table matches. */
  lemma HeadingLineIff(line: string, table: seq<Pattern>)
    ensures IsHeading(line, table) <==>
      !AllSpace(line) && exists q :: 0 <= q < |table| && MatchPrefix(table[q], Strip(line))
  {
    StripEmptyIffBlank(line);
    MatchesFromExists(table, Strip(line), 0);
  }

  const CjkNumerals: string := "一二三四五六七八九十百千0123456789"

  /** `CHAPTER_PATTERNS`, in the source's order. */
  const ChapterPatterns: seq<Pattern> := [
    [Word("chapter"), Plus(Space), Plus(Digit)],
    [Word("chapter"), Plus(Space), Plus(AnyOf("ivxlcdm"))],
    [Word("chapter"), Plus(Space), Word("one")],
    [Word("ch."), Star(Space), Plus(Digit)],
    [Word("part"), Plus(Space), Plus(Digit)],
    [Word("part"), Plus(Space), Plus(AnyOf("ivxlcdm"))],
    [Word("book"), Plus(Space), Plus(Digit)],
    [Word("book"), Plus(Space), Plus(AnyOf("ivxlcdm"))],
    [Plus(Digit), Word("."), Plus(Space), One(Range('A', 'Z'))],
    [Word("section"), Plus(Space), Plus(Digit)],
    [Word("prologue")],
    [Word("epilogue")],
    [Word("introduction"), End],
    [Word("preface"), End],
    [Word("第"), Plus(AnyOf(CjkNumerals)), Word("章")],
    [Word("第"), Plus(AnyOf(CjkNumerals)), Word("节")],
    [Word("第"), Plus(AnyOf(CjkNumerals)), Word("部分")],
    [Word("第"), Plus(AnyOf(CjkNumerals)), Word("卷")],
    [Word("第"), Plus(AnyOf(CjkNumerals)), Word("回")],
    [Word("卷"), Plus(AnyOf(CjkNumerals))],
    [Word("篇"), Plus(AnyOf(CjkNumerals))],
    [Word("序章")],
    [Word("终章")],
    [Word("引言")],
    [Word("前言")],
    [Word("楔子")],
    [Plus(Range('0', '9')), Star(Space), One(AnyOf(".、")), Star(Space), One(Range('\U{4e00}', '\U{9fff}'))],
    [Plus(AnyOf("一二三四五六七八九十")), One(AnyOf(".、"))]
  ]

  /** The back-matter table of `detect_main_text_end`, in the source's order. */
  const BackMatterPatterns: seq<Pattern> := [
    [Word("appendix")],
    [Word("bibliography")],
    [Word("references")],
    [Word("index"), End],
    [Word("glossary")],
    [Word("notes"), End],
    [Word("acknowledgements")],
    [Word("afterword")],
    [Word("about the author")],
    [Word("附录")],
    [Word("参考文献")],
    [Word("索引")],
    [Word("词汇表")],
    [Word("注释")],
    [Word("后记")],
    [Word("致谢")]
  ]

  /** The two tables hold the source's 28 chapter patterns and 16
      back-matter patterns, none of them empty. */
  lemma TableSizes()
    ensures |ChapterPatterns| == 28 && |BackMatterPatterns| == 16
    ensures forall q :: 0 <= q < |ChapterPatterns| ==> ChapterPatterns[q] != []
    ensures forall q :: 0 <= q < |BackMatterPatterns| ==> BackMatterPatterns[q] != []
  {
  }

  /** No `$` in the pattern. */
  predicate NoEnd(p: Pattern)
  {
    forall k :: 0 <= k < |p| ==> !p[k].End?
  }

  /** `re.match` only looks at a prefix: a pattern without `$` that matches
      a line still matches whatever follows it. */
  lemma {:induction false} MatchPrefixExtends(p: Pattern, s: string, t: string)
    requires NoEnd(p) && MatchPrefix(p, s)
    ensures MatchPrefix(p, s + t)
    decreases |s|, |p|
  {
    if p != [] {
      assert NoEnd(p[1..]);
      match p[0]
      case Word(w) =>
        assert (s + t)[..|w|] == s[..|w|];
        assert (s + t)[|w|..] == s[|w|..] + t;
        MatchPrefixExtends(p[1..], s[|w|..], t);
      case One(c) =>
        assert (s + t)[1..] == s[1..] + t;
        MatchPrefixExtends(p[1..], s[1..], t);
      case Plus(c) =>
        assert (s + t)[1..] == s[1..] + t;
        assert NoEnd([Star(c)] + p[1..]);
        MatchPrefixExtends([Star(c)] + p[1..], s[1..], t);
      case Star(c) =>
        if MatchPrefix(p[1..], s) {
          MatchPrefixExtends(p[1..], s, t);
        } else {
          assert (s + t)[1..] == s[1..] + t;
          MatchPrefixExtends(p, s[1..], t);
        }
    }
  }

  /** A trimmed, non-empty line that some pattern of the table matches is a
      heading of that table. */
  lemma TrimmedHeading(line: string, table: seq<Pattern>, q: nat)
    requires IsTrimmed(line) && line != []
    requires q < |table| && MatchPrefix(table[q], line)
    ensures IsHeading(line, table)
  {
    StripTrimmed(line);
    MatchesFromExists(table, line, 0);
  }

  lemma ChapterOneMatches()
    ensures MatchPrefix(ChapterPatterns[0], "Chapter 1")
  {
    assert MatchPrefix([Star(Digit)], []);
    assert MatchPrefix([Plus(Digit)], "1");
    assert MatchPrefix([Star(Space), Plus(Digit)], "1");
    assert MatchPrefix([Plus(Space), Plus(Digit)], " 1");
    assert OccursAt("Chapter 1", "chapter", 0);
    assert "Chapter 1"[7..] == " 1";
  }

  lemma ChineseChapterMatches()
    ensures MatchPrefix(ChapterPatterns[14], "第一章")
  {
    assert MatchPrefix([Word("章")], "章");
    assert MatchPrefix([Star(AnyOf(CjkNumerals)), Word("章")], "章");
    assert InClass(AnyOf(CjkNumerals), '一') by { assert CjkNumerals[0] == '一'; }
    assert MatchPrefix([Plus(AnyOf(CjkNumerals)), Word("章")], "一章");
    assert OccursAt("第一章", "第", 0);
    assert "第一章"[1..] == "一章";
  }

  /** The headings the unit tests rely on are recognised. */
  lemma ChapterOneIsHeading()
    ensures IsHeading("Chapter 1", ChapterPatterns)
  {
    ChapterOneMatches();
    TrimmedHeading("Chapter 1", ChapterPatterns, 0);
  }

  lemma ChineseChapterIsHeading()
    ensures IsHeading("第一章", ChapterPatterns)
  {
    ChineseChapterMatches();
    TrimmedHeading("第一章", ChapterPatterns, 14);
  }

  lemma AppendixIsBackMatter()
    ensures IsHeading("Appendix A", BackMatterPatterns)
  {
    assert OccursAt("Appendix A", "appendix", 0);
    assert MatchPrefix(BackMatterPatterns[0], "Appendix A");
    TrimmedHeading("Appendix A", BackMatterPatterns, 0);
  }

  lemma ChineseAppendixIsBackMatter()
    ensures IsHeading("附录", BackMatterPatterns)
  {
    assert OccursAt("附录", "附录", 0);
    assert MatchPrefix(BackMatterPatterns[9], "附录");
    TrimmedHeading("附录", BackMatterPatterns, 9);
  }

  /** `^introduction$` accepts the bare word and nothing that goes on after it. */
  lemma IntroductionMustStandAlone()
    ensures MatchPrefix(ChapterPatterns[12], "Introduction")
    ensures !MatchPrefix(ChapterPatterns[12], "Introduction to Dafny")
  {
    assert OccursAt("Introduction", "introduction", 0);
    assert "Introduction"[12..] == [];
    var longer := "Introduction to Dafny";
    assert longer[12..] != [] && longer[12..] != "\n";
  }
}

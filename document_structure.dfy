/**
 * document_structure.py: finding where the main text of a book starts and
 * where its back matter starts, cutting the text into the three sections,
 * and listing the chapter headings with their offsets.
 *
 * Lines are the pieces of `text.split('\n')`; a line's offset is the sum of
 * `len(line) + 1` over the lines before it. A heading is a line that is not
 * blank once stripped and whose stripped form matches a pattern of a table.
 */
module DocumentStructure {
  import opened Wrappers
  import opened TextUtil
  import opened Patterns
  import opened LineScan

  /** Front matter, main text and back matter of one book. */
  datatype DocumentSection = DocumentSection(frontMatter: string := "", mainText: string := "", backMatter: string := "")

  // ---------------------------------------------------------------------------
  // Specification of the line scans
  // ---------------------------------------------------------------------------

  /** For each line, whether it is a heading of the table. */
  function HeadingFlags(ls: seq<string>, table: seq<Pattern>): (f: seq<bool>)
    ensures |f| == |ls|
    ensures forall k {:trigger f[k]} :: 0 <= k < |ls| ==> f[k] == IsHeading(ls[k], table)
  {
    seq(|ls|, k requires 0 <= k < |ls| => IsHeading(ls[k], table))
  }

  /** The first heading line, if any. */
  function FirstHeading(ls: seq<string>, table: seq<Pattern>): Option<nat>
  {
    FirstFrom(HeadingFlags(ls, table), 0)
  }

  /** The first heading line is the one no earlier heading line precedes. */
  lemma FirstHeadingIs(ls: seq<string>, table: seq<Pattern>, i: nat)
    requires i < |ls| && IsHeading(ls[i], table)
    requires forall j :: 0 <= j < i ==> !IsHeading(ls[j], table)
    ensures FirstHeading(ls, table) == Some(i)
  {
    FirstFromIs(HeadingFlags(ls, table), 0, i);
  }

  /** The heading offset is that of the first heading line; for
      `detect_main_text_end` the text is `text[startPos:]` and `Shift` adds
      `startPos`. */
  lemma HeadingOffsetAt(text: string, table: seq<Pattern>, i: nat)
    requires i < |Lines(text)| && IsHeading(Lines(text)[i], table)
    requires forall j :: 0 <= j < i ==> !IsHeading(Lines(text)[j], table)
    ensures HeadingOffset(text, table) == Some(LineStart(Lines(text), i))
  {
    FirstHeadingIs(Lines(text), table, i);
  }

  /** A heading line found by the scan starts the text or follows a newline. */
  lemma HeadingOffsetAtLineStart(text: string, table: seq<Pattern>)
    requires HeadingOffset(text, table).Some?
    ensures var p := HeadingOffset(text, table).value; p == 0 || text[p - 1] == '\n'
  {
    LineAt(text, FirstHeading(Lines(text), table).value);
  }

  /** A case-insensitive hit of a non-empty marker; the source treats an
      empty marker as no marker at all. */
  function MarkerHit(text: string, marker: Option<string>): Option<nat>
  {
    if marker.Some? && marker.value != [] then FindIgnoreCase(text, marker.value) else None
  }

  /** The offset of the first heading line of the table, if any. */
  function HeadingOffset(text: string, table: seq<Pattern>): (r: Option<nat>)
    ensures r.Some? ==> r.value <= |text|
  {
    match FirstHeading(Lines(text), table)
    case Some(i) => LineStartWithin(text, i); Some(LineStart(Lines(text), i))
    case None => None
  }

  /** `detect_main_text_start`: the first case-insensitive occurrence of the
      marker; failing that, the offset of the first chapter heading line;
      failing that, 0. */
  function MainTextStart(text: string, marker: Option<string>): (pos: nat)
    ensures pos <= |text|
  {
    match MarkerHit(text, marker)
    case Some(p) => p
    case None =>
      match HeadingOffset(text, ChapterPatterns)
      case Some(p) => p
      case None => 0
  }

  /** A slice bound as Python applies it: one past the end is the end. */
  function Clamp(p: nat, text: string): (q: nat)
    ensures q <= |text| && (p <= |text| ==> q == p) && (p > |text| ==> q == |text|)
  {
    if p <= |text| then p else |text|
  }

  /** The empty text has no heading line. */
  lemma NoHeadingInEmpty(table: seq<Pattern>)
    ensures HeadingOffset([], table) == None
  {
    var f := HeadingFlags(Lines([]), table);
    assert Lines([]) == [[]] && Strip([]) == [];
    assert !f[0];
    assert FirstFrom(f, 1) == None;
  }

  /** `detect_main_text_end`: the absolute offset of the first back-matter
      heading line of `text[startPos:]`, or nothing when there is none. */
  function MainTextEnd(text: string, startPos: nat): (r: Option<nat>)
    ensures r.Some? ==> startPos <= r.value <= |text|
  {
    NoHeadingInEmpty(BackMatterPatterns);
    Shift(HeadingOffset(text[Clamp(startPos, text)..], BackMatterPatterns), startPos)
  }

  /** An offset into `text[startPos:]` as an offset into `text`. */
  function Shift(h: Option<nat>, startPos: nat): Option<nat>
  {
    match h
    case Some(p) => Some(startPos + p)
    case None => None
  }

  // ---------------------------------------------------------------------------
  // The scans as the source runs them
  // ---------------------------------------------------------------------------

  /** The inner loop of the scans: the patterns of the table tried in order
      against a stripped line, stopping at the first that matches. */
  method MatchTable(table: seq<Pattern>, stripped: string) returns (hit: bool)
    ensures hit == MatchesAny(table, stripped)
  {
    var k := 0;
    while k < |table|
      invariant k <= |table|
      invariant MatchesFrom(table, stripped, k) == MatchesAny(table, stripped)
    {
      if MatchPrefix(table[k], stripped) {
        return true;
      }
      k := k + 1;
    }
    return false;
  }

  /** One line of a scan: the line stripped, and whether it is a heading. A
      blank line is skipped without trying the patterns. */
  method TestLine(line: string, table: seq<Pattern>) returns (stripped: string, hit: bool)
    ensures stripped == Strip(line) && hit == IsHeading(line, table)
  {
    stripped := Strip(line);
    hit := false;
    if stripped != [] {
      hit := MatchTable(table, stripped);
    }
  }

  /** The nested loop of both detectors: lines top to bottom, skipping blank
      ones, and for each line the patterns in table order. */
  method FindHeadingLine(lines: seq<string>, table: seq<Pattern>) returns (found: Option<nat>)
    ensures found == FirstHeading(lines, table)
  {
    ghost var flags := HeadingFlags(lines, table);
    var i := 0;
    while i < |lines|
      invariant i <= |lines|
      invariant forall j :: 0 <= j < i ==> !flags[j]
    {
      var stripped, hit := TestLine(lines[i], table);
      if hit {
        FirstFromIs(flags, 0, i);
        return Some(i);
      }
      i := i + 1;
    }
    return None;
  }

  /** The heading scan of both detectors, with the offset of the line it
      stops at. */
  method FindHeadingOffset(text: string, table: seq<Pattern>) returns (r: Option<nat>)
    ensures r == HeadingOffset(text, table)
  {
    var lines := Lines(text);
    var found := FindHeadingLine(lines, table);
    if found.Some? {
      return Some(LineStart(lines, found.value));
    }
    return None;
  }

  /** The heading scan of `detect_main_text_end`: over `text[startPos:]`,
      with the offset shifted back into `text`. */
  method FindHeadingOffsetFrom(text: string, startPos: nat, table: seq<Pattern>) returns (r: Option<nat>)
    ensures r == Shift(HeadingOffset(text[Clamp(startPos, text)..], table), startPos)
  {
    var h := FindHeadingOffset(text[Clamp(startPos, text)..], table);
    if h.Some? {
      return Some(startPos + h.value);
    }
    return None;
  }

  method DetectMainTextStart(text: string, customMarker: Option<string> := None) returns (pos: nat)
    ensures pos == MainTextStart(text, customMarker)
  {
    if customMarker.Some? && customMarker.value != [] {
      var hit := FindIgnoreCase(text, customMarker.value);
      if hit.Some? {
        return hit.value;
      }
    }
    var h := FindHeadingOffset(text, ChapterPatterns);
    if h.Some? {
      return h.value;
    }
    return 0;
  }

  method DetectMainTextEnd(text: string, startPos: nat := 0) returns (r: Option<nat>)
    ensures r == MainTextEnd(text, startPos)
  {
    r := FindHeadingOffsetFrom(text, startPos, BackMatterPatterns);
  }

  // ---------------------------------------------------------------------------
  // What the detectors return
  // ---------------------------------------------------------------------------

  /** A non-empty marker that occurs decides the start: the offset of its
      first occurrence, ignoring case. */
  lemma StartAtMarker(text: string, m: string, p: nat)
    requires m != [] && OccursAt(text, m, p)
    requires forall j: nat :: j < p ==> !OccursAt(text, m, j)
    ensures MainTextStart(text, Some(m)) == p
  {
    FindIs(text, m, p);
  }

  /** A marker that is absent, empty or nowhere in the text does not give 0:
      detection goes on to the heading scan. */
  lemma MissingMarkerFallsThrough(text: string, marker: Option<string>)
    requires marker.Some? && marker.value != [] ==> forall j: nat :: !OccursAt(text, marker.value, j)
    ensures MainTextStart(text, marker) == MainTextStart(text, None)
  {
  }

  /** Without a marker hit the start is the offset of the first chapter
      heading line (where that line sits in the text is `LineAt`). */
  lemma StartAtFirstHeading(text: string, i: nat)
    requires i < |Lines(text)| && IsHeading(Lines(text)[i], ChapterPatterns)
    requires forall j :: 0 <= j < i ==> !IsHeading(Lines(text)[j], ChapterPatterns)
    ensures MainTextStart(text, None) == LineStart(Lines(text), i)
  {
    FirstFromIs(HeadingFlags(Lines(text), ChapterPatterns), 0, i);
  }

  /** Without a marker the start is 0 or sits just after a newline, and a
      non-zero start is the offset of a whole chapter heading line of the
      text, which the text from there on begins with. */
  lemma StartAtLineStart(text: string)
    ensures var p := MainTextStart(text, None);
      p == 0 || text[p - 1] == '\n'
    ensures var p := MainTextStart(text, None); var ls := Lines(text);
      p > 0 ==> exists i :: (0 <= i < |ls| && IsHeading(ls[i], ChapterPatterns)
        && p == LineStart(ls, i) && p + |ls[i]| <= |text| && text[p..][..|ls[i]|] == ls[i])
  {
    var ls := Lines(text);
    var f := HeadingFlags(ls, ChapterPatterns);
    if FirstFrom(f, 0).Some? {
      var i := FirstFrom(f, 0).value;
      LineAt(text, i);
      assert IsHeading(ls[i], ChapterPatterns);
    }
  }

  /** With no marker hit and no heading line anywhere, the start is 0. */
  lemma StartWithoutHeading(text: string)
    requires forall j :: 0 <= j < |Lines(text)| ==> !IsHeading(Lines(text)[j], ChapterPatterns)
    ensures MainTextStart(text, None) == 0
  {
    var f := HeadingFlags(Lines(text), ChapterPatterns);
    assert forall j :: 0 <= j < |f| ==> !f[j];
  }

  /** With no back-matter heading line in `text[startPos:]` there is no
      back matter. */
  lemma EndMissingWithoutBackMatter(text: string, startPos: nat)
    requires startPos <= |text|
    requires forall j :: 0 <= j < |Lines(text[startPos..])| ==> !IsHeading(Lines(text[startPos..])[j], BackMatterPatterns)
    ensures MainTextEnd(text, startPos) == None
  {
    var ls := Lines(text[startPos..]);
    var f := HeadingFlags(ls, BackMatterPatterns);
    assert forall j :: 0 <= j < |f| ==> !f[j];
    assert FirstFrom(f, 0) == None;
  }

  /** Back matter that is found starts at a back-matter heading line. */
  lemma EndFoundAtBackMatter(text: string, startPos: nat)
    requires startPos <= |text| && MainTextEnd(text, startPos).Some?
    ensures exists j :: (0 <= j < |Lines(text[startPos..])| && IsHeading(Lines(text[startPos..])[j], BackMatterPatterns)
      && MainTextEnd(text, startPos).value == startPos + LineStart(Lines(text[startPos..]), j))
  {
    var ls := Lines(text[startPos..]);
    var f := HeadingFlags(ls, BackMatterPatterns);
    var i := FirstFrom(f, 0).value;
    assert IsHeading(ls[i], BackMatterPatterns);
  }

  /** The back matter starts at a line start: at `startPos` itself or just
      after a newline. */
  lemma EndAtLineStart(text: string, startPos: nat)
    requires startPos <= |text| && MainTextEnd(text, startPos).Some?
    ensures var e := MainTextEnd(text, startPos).value;
      e == startPos || text[e - 1] == '\n'
  {
    var rest := text[startPos..];
    assert MainTextEnd(text, startPos) == Shift(HeadingOffset(rest, BackMatterPatterns), startPos);
    HeadingOffsetAtLineStart(rest, BackMatterPatterns);
    var p := HeadingOffset(rest, BackMatterPatterns).value;
    if p > 0 {
      assert text[startPos + p - 1] == rest[p - 1];
    }
  }

  // ---------------------------------------------------------------------------
  // split_document
  // ---------------------------------------------------------------------------

  /** Where the main text starts: the manual position, else detection. */
  function ResolveStart(text: string, startMarker: Option<string>, startPosition: Option<nat>): (s: nat)
    ensures startPosition.None? ==> s <= |text|
  {
    if startPosition.Some? then startPosition.value else MainTextStart(text, startMarker)
  }

  /** Where the back matter starts: the manual position; else the first
      occurrence of a non-empty end marker in `text[mainStart:]`, shifted by
      `mainStart`, or the end of the text when it does not occur; else
      detection, or the end of the text when there is no back matter. */
  function ResolveEnd(text: string, mainStart: nat, endMarker: Option<string>, endPosition: Option<nat>): (e: nat)
    ensures endPosition.None? ==> e <= |text|
    ensures endPosition.None? && mainStart <= |text| ==> mainStart <= e
  {
    if endPosition.Some? then endPosition.value
    else if endMarker.Some? && endMarker.value != [] then
      match FindIgnoreCase(text[Clamp(mainStart, text)..], endMarker.value)
      case Some(k) => mainStart + k
      case None => |text|
    else
      match MainTextEnd(text, mainStart)
      case Some(e) => e
      case None => |text|
  }

  /** The three trimmed slices at the given boundaries, with Python's slice
      rules: bounds past the end stop at the end, and a start beyond the end
      leaves an empty main text. */
  function Sections(text: string, s: nat, e: nat): (d: DocumentSection)
    ensures IsTrimmed(d.frontMatter) && IsTrimmed(d.mainText) && IsTrimmed(d.backMatter)
    ensures e >= |text| ==> d.backMatter == []
  {
    var s', e' := Clamp(s, text), Clamp(e, text);
    DocumentSection(
      Strip(text[..s']),
      if s' <= e' then Strip(text[s'..e']) else [],
      if e < |text| then Strip(text[e..]) else [])
  }

  /** `split_document`: every section comes back stripped, and an end at
      or past the end of the text leaves no back matter. */
  function SplitDocument(text: string, startMarker: Option<string> := None, endMarker: Option<string> := None,
                         startPosition: Option<nat> := None, endPosition: Option<nat> := None): (d: DocumentSection)
    ensures IsTrimmed(d.frontMatter) && IsTrimmed(d.mainText) && IsTrimmed(d.backMatter)
    ensures endPosition.Some? && endPosition.value >= |text| ==> d.backMatter == []
  {
    var s := ResolveStart(text, startMarker, startPosition);
    var e := ResolveEnd(text, s, endMarker, endPosition);
    Sections(text, s, e)
  }

  /** A manual start position overrides the start marker and detection; a
      manual end position overrides the end marker and detection. */
  lemma ManualPositionsWin(text: string, sm1: Option<string>, sm2: Option<string>,
                           em1: Option<string>, em2: Option<string>, s: nat, e: nat)
    ensures SplitDocument(text, sm1, em1, Some(s), Some(e)) == Sections(text, s, e)
    ensures SplitDocument(text, sm1, em1, Some(s), Some(e)) == SplitDocument(text, sm2, em2, Some(s), Some(e))
    ensures ResolveStart(text, sm1, Some(s)) == s
    ensures forall ms: nat :: ResolveEnd(text, ms, em1, Some(e)) == e
  {
  }

  /** Manual positions past the end of the text act as the end of the text. */
  lemma PositionsPastEndClamp(text: string, s: nat, e: nat)
    ensures Sections(text, s, e) == Sections(text, Clamp(s, text), Clamp(e, text))
  {
  }

  /** An end marker that does not occur after the main start puts the end at
      the end of the text, with no fallback to detection: no back matter. */
  lemma EndMarkerMissed(text: string, startMarker: Option<string>, m: string, startPosition: Option<nat>)
    requires m != []
    requires var s := ResolveStart(text, startMarker, startPosition);
      forall j: nat :: !OccursAt(text[Clamp(s, text)..], m, j)
    ensures SplitDocument(text, startMarker, Some(m), startPosition, None).backMatter == []
    ensures var s := ResolveStart(text, startMarker, startPosition);
      ResolveEnd(text, s, Some(m), None) == |text|
  {
  }

  /** Between ordered boundaries the three raw spans are consecutive and
      rebuild the text, and each section is its span with the surrounding
      whitespace removed. */
  lemma SectionsPartition(text: string, s: nat, e: nat)
    requires s <= e <= |text|
    ensures text[..s] + text[s..e] + text[e..] == text
    ensures var d := Sections(text, s, e);
      && d.frontMatter == Strip(text[..s])
      && d.mainText == Strip(text[s..e])
      && d.backMatter == (if e < |text| then Strip(text[e..]) else [])
  {
    assert text[..s] + text[s..e] == text[..e];
  }

  /** With neither manual position, the boundaries come out ordered, so the
      three spans are ordered and do not overlap. */
  lemma DetectedBoundariesOrdered(text: string, startMarker: Option<string>, endMarker: Option<string>)
    ensures var s := ResolveStart(text, startMarker, None);
      s <= ResolveEnd(text, s, endMarker, None) <= |text|
  {
  }

  /** The unit test with manual positions 10 and 20. */
  lemma SplitAtManualPositionsExample()
    ensures SplitDocument("0123456789ABCDEFGHIJKLMNOP", None, None, Some(10), Some(20))
      == DocumentSection("0123456789", "ABCDEFGHIJ", "KLMNOP")
  {
    var text := "0123456789ABCDEFGHIJKLMNOP";
    assert text[..10] == "0123456789";
    assert text[10..20] == "ABCDEFGHIJ";
    assert text[20..] == "KLMNOP";
    StripTrimmed("0123456789");
    StripTrimmed("ABCDEFGHIJ");
    StripTrimmed("KLMNOP");
  }

  // ---------------------------------------------------------------------------
  // get_chapter_info
  // ---------------------------------------------------------------------------

  /** The heading lines among the first `n` lines, in order. */
  function HeadingLinesBefore(ls: seq<string>, table: seq<Pattern>, n: nat): (idx: seq<nat>)
    requires n <= |ls|
    ensures forall k :: 0 <= k < |idx| ==> idx[k] < n
  {
    SetBefore(HeadingFlags(ls, table), n)
  }

  /** One `(offset, stripped line)` entry per listed line. */
  function Entries(ls: seq<string>, idx: seq<nat>): (r: seq<(nat, string)>)
    requires forall k :: 0 <= k < |idx| ==> idx[k] < |ls|
    ensures |r| == |idx|
    ensures forall k :: 0 <= k < |idx| ==> r[k] == (LineStart(ls, idx[k]), Strip(ls[idx[k]]))
  {
    if idx == [] then []
    else Entries(ls, idx[..|idx| - 1]) + [(LineStart(ls, idx[|idx| - 1]), Strip(ls[idx[|idx| - 1]]))]
  }

  lemma EntriesSnoc(ls: seq<string>, idx: seq<nat>, i: nat)
    requires i < |ls| && forall k :: 0 <= k < |idx| ==> idx[k] < |ls|
    ensures Entries(ls, idx + [i]) == Entries(ls, idx) + [(LineStart(ls, i), Strip(ls[i]))]
  {
    assert (idx + [i])[..|idx|] == idx;
  }

  /** What `get_chapter_info` returns: every title is a non-empty, stripped
      line. */
  function ChapterInfo(text: string): (r: seq<(nat, string)>)
    ensures forall k :: 0 <= k < |r| ==> r[k].1 != [] && IsTrimmed(r[k].1)
  {
    var ls := Lines(text);
    Entries(ls, HeadingLinesBefore(ls, ChapterPatterns, |ls|))
  }

  /** One step of the listing: line `i` adds its entry, the offset reached so
      far and the stripped line, exactly when it is a heading; the offset
      then moves past the line and its newline. */
  lemma HeadingListStep(ls: seq<string>, table: seq<Pattern>, i: nat,
                        listed: seq<(nat, string)>, offset: nat, hit: bool)
    requires i < |ls| && offset == LineStart(ls, i) && hit == IsHeading(ls[i], table)
    requires listed == Entries(ls, HeadingLinesBefore(ls, table, i))
    ensures Entries(ls, HeadingLinesBefore(ls, table, i + 1))
      == if hit then listed + [(offset, Strip(ls[i]))] else listed
    ensures LineStart(ls, i + 1) == offset + |ls[i]| + 1
  {
    var f := HeadingFlags(ls, table);
    var before := SetBefore(f, i);
    if f[i] {
      assert SetBefore(f, i + 1) == before + [i];
      EntriesSnoc(ls, before, i);
    } else {
      assert SetBefore(f, i + 1) == before + [];
    }
  }

  /** The loop of `get_chapter_info` over the lines of the text, for any
      pattern table: every line that matches is listed with its offset. */
  method ListHeadings(lines: seq<string>, table: seq<Pattern>) returns (chapters: seq<(nat, string)>)
    ensures chapters == Entries(lines, HeadingLinesBefore(lines, table, |lines|))
  {
    chapters := [];
    var charPosition: nat := 0;
    var i := 0;
    while i < |lines|
      invariant i <= |lines| && charPosition == LineStart(lines, i)
      invariant chapters == Entries(lines, HeadingLinesBefore(lines, table, i))
    {
      var stripped, hit := TestLine(lines[i], table);
      HeadingListStep(lines, table, i, chapters, charPosition, hit);
      if hit {
        chapters := chapters + [(charPosition, stripped)];
      }
      charPosition := charPosition + |lines[i]| + 1;
      i := i + 1;
    }
  }

  method GetChapterInfo(text: string) returns (chapters: seq<(nat, string)>)
    ensures chapters == ChapterInfo(text)
  {
    chapters := ListHeadings(Lines(text), ChapterPatterns);
  }

  /** Every entry of `get_chapter_info` is a heading line with its offset,
      and that offset is a line start of the text. */
  lemma ChapterInfoSound(text: string, k: nat)
    requires k < |ChapterInfo(text)|
    ensures var ls := Lines(text); var ci := ChapterInfo(text);
      exists i :: (0 <= i < |ls| && IsHeading(ls[i], ChapterPatterns)
        && ci[k] == (LineStart(ls, i), Strip(ls[i])))
    ensures var p := ChapterInfo(text)[k].0;
      p <= |text| && (p == 0 || text[p - 1] == '\n')
  {
    var ls := Lines(text);
    var f := HeadingFlags(ls, ChapterPatterns);
    var idx := SetBefore(f, |ls|);
    assert f[idx[k]];
    LineAt(text, idx[k]);
  }

  /** Every heading line of the text is listed, with its offset. */
  lemma ChapterInfoComplete(text: string, i: nat)
    requires i < |Lines(text)| && IsHeading(Lines(text)[i], ChapterPatterns)
    ensures var ls := Lines(text); var ci := ChapterInfo(text);
      exists k :: 0 <= k < |ci| && ci[k] == (LineStart(ls, i), Strip(ls[i]))
  {
    var ls := Lines(text);
    var f := HeadingFlags(ls, ChapterPatterns);
    var idx := SetBefore(f, |ls|);
    SetBeforeComplete(f, |ls|, i);
    var k :| 0 <= k < |idx| && idx[k] == i;
    assert ChapterInfo(text)[k] == (LineStart(ls, i), Strip(ls[i]));
  }

  /** The offsets of the entries strictly increase. */
  lemma ChapterInfoIncreasing(text: string)
    ensures var ci := ChapterInfo(text);
      forall k, l :: 0 <= k < l < |ci| ==> ci[k].0 < ci[l].0
  {
    var ls := Lines(text);
    var idx := HeadingLinesBefore(ls, ChapterPatterns, |ls|);
    SetBeforeIncreasing(HeadingFlags(ls, ChapterPatterns), |ls|);
    forall k, l | 0 <= k < l < |idx| ensures LineStart(ls, idx[k]) < LineStart(ls, idx[l]) {
      LineStartIncreasing(ls, idx[k], idx[l]);
    }
  }

  /** The first chapter listed is where `detect_main_text_start` without a
      marker puts the main text, and an empty list means that start is 0. */
  lemma ChapterInfoAgreesWithStart(text: string)
    ensures var ci := ChapterInfo(text);
      ci != [] ==> ci[0].0 == MainTextStart(text, None)
    ensures ChapterInfo(text) == [] <==> FirstHeading(Lines(text), ChapterPatterns).None?
    ensures ChapterInfo(text) == [] ==> MainTextStart(text, None) == 0
  {
    SetBeforeAgreesWithFirst(HeadingFlags(Lines(text), ChapterPatterns));
  }
}

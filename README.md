# Bilingual reader core, modelled in Dafny

The bilingual reader turns two editions of a book (an English one and a
Chinese one) into a side-by-side PDF. This project models the logic at the
centre of that pipeline and proves properties of it:

- **Document structure** (`bilingual_reader/document_structure.py`). The
  `DocumentSection` record and the two heading tables. Where the main text
  starts: a custom marker, else the first chapter heading line, else 0.
  Where the back matter starts: the first back-matter heading line after
  that start, if there is one. `split_document`, which cuts a book into
  front matter, main text and back matter. `get_chapter_info`, which lists
  the chapter heading lines with their character offsets.
- **Paragraph alignment** (`bilingual_reader/aligner.py`). The
  `BilingualAligner` class. `_split_paragraphs` groups runs of non-blank
  lines into paragraphs. `align_texts` pairs the segments of the two texts
  by position, pads the shorter list with empty strings, and drops pairs
  that are blank on both sides.
- **Image matching** (`bilingual_reader/image_extractor.py`). The
  `ImageBlock` record and the three strategies that pair the images of two
  documents: by index, greedily by relative page position with a 0.1
  threshold, and by proximity.
- **PDF text sanitising** (`bilingual_reader/pdf_generator.py`).
  `_sanitize_text` escapes `&`, `<` and `>`, drops control characters and
  strips the result.

Files:

- `wrappers.dfy`: `Option` and `Result`.
- `text_util.dfy`: Python's `str.strip()`, `str.split('\n')` with line
  offsets, `sep.join`, and case-insensitive literal search.
- `line_scan.dfy`: first-true and all-true scans over flag sequences.
- `patterns.dfy`: the regular-expression fragment the heading tables use,
  and the two tables themselves.
- `document_structure.dfy`, `aligner.dfy`, `image_matching.dfy` and
  `pdf_text.dfy`: the four core files.

Imperative code stays imperative:

- The scanning loops of the detectors and of `get_chapter_info` are
  methods with loop invariants.
- So are the paragraph loop and the pairing loop of the aligner, and the
  nested greedy loop of `match_images_by_page`.
- `BilingualAligner` is a class.

The records are datatypes with the source's defaults:

- `DocumentStructure.DocumentSection` is document_structure.py:8-26.
- `ImageMatching.ImageBlock` is image_extractor.py:20-43.

The two heading tables are constants in `Patterns`:

- `ChapterPatterns` is document_structure.py:30-64.
- `BackMatterPatterns` is document_structure.py:114-131.

Each method is proved equal to a specification function. The lemmas state
what the source promises about those functions.

## Model

| member | source | states |
|---|---|---|
| DocumentStructure.DetectMainTextStart | bilingual_reader/document_structure.py:67-100 | the marker search, then the nested line/pattern loop, return exactly `MainTextStart` |
| DocumentStructure.MainTextStart | bilingual_reader/document_structure.py:67-100 | the start position always lies within the text |
| DocumentStructure.StartAtMarker | bilingual_reader/document_structure.py:77-81 | a non-empty marker whose first case-insensitive occurrence is at `p` makes the start `p` |
| DocumentStructure.MissingMarkerFallsThrough | bilingual_reader/document_structure.py:77-84 | an absent, empty or unfound marker gives the same start as no marker |
| DocumentStructure.StartAtFirstHeading | bilingual_reader/document_structure.py:84-97 | without a marker hit, the start is the offset `sum(len(line)+1)` of the first chapter heading line |
| DocumentStructure.StartAtLineStart | bilingual_reader/document_structure.py:84-97 | without a marker, the start is 0 or follows a newline; a non-zero start is the `sum(len+1)` offset of a whole chapter heading line, which the text there begins with |
| DocumentStructure.StartWithoutHeading | bilingual_reader/document_structure.py:99-100 | with no marker hit and no heading line, the start is 0 |
| DocumentStructure.MatchTable | bilingual_reader/document_structure.py:93-94 | trying the patterns in table order reports a hit exactly when some pattern matches the stripped line |
| DocumentStructure.TestLine | bilingual_reader/document_structure.py:86-94 | a line is stripped, skipped when blank, and otherwise tested against the table |
| DocumentStructure.FindHeadingLine | bilingual_reader/document_structure.py:85-97 | the line loop stops at the first heading line, or finds none |
| DocumentStructure.FirstHeadingIs | bilingual_reader/document_structure.py:85-97 | the first heading line is the heading line that no earlier heading line precedes |
| DocumentStructure.FindHeadingOffset | bilingual_reader/document_structure.py:84-97 | the scan returns the offset of the first heading line |
| DocumentStructure.HeadingOffset | bilingual_reader/document_structure.py:84-97 | the offset of the first heading line lies within the text |
| DocumentStructure.HeadingOffsetAt | bilingual_reader/document_structure.py:96 | the returned offset is the line start of the first heading line |
| DocumentStructure.HeadingOffsetAtLineStart | bilingual_reader/document_structure.py:96 | a found heading offset is 0 or follows a newline |
| DocumentStructure.FindHeadingOffsetFrom | bilingual_reader/document_structure.py:133-148 | the back-matter scan runs over `text[start_pos:]` and adds `start_pos` to the offset it finds |
| DocumentStructure.DetectMainTextEnd | bilingual_reader/document_structure.py:103-151 | the back-matter detector returns exactly `MainTextEnd` |
| DocumentStructure.MainTextEnd | bilingual_reader/document_structure.py:103-151 | a back-matter offset lies between `start_pos` and the end of the text |
| DocumentStructure.NoHeadingInEmpty | bilingual_reader/document_structure.py:133-141 | an empty remainder, for example a start past the end, has no heading line |
| DocumentStructure.EndMissingWithoutBackMatter | bilingual_reader/document_structure.py:136-151 | with no back-matter heading line after the start, the result is `None` |
| DocumentStructure.EndFoundAtBackMatter | bilingual_reader/document_structure.py:136-148 | a found end is `start_pos` plus the line start of a back-matter heading line of the remainder |
| DocumentStructure.EndAtLineStart | bilingual_reader/document_structure.py:133-148 | a found end is `start_pos` itself or follows a newline |
| DocumentStructure.ResolveStart | bilingual_reader/document_structure.py:174-177 | without a manual position, the start lies within the text |
| DocumentStructure.ResolveEnd | bilingual_reader/document_structure.py:179-191 | without a manual position, the end lies within the text and not before a start within the text |
| DocumentStructure.Sections | bilingual_reader/document_structure.py:193-196 | all three sections are stripped, and the back matter is empty when the end is at or past the end of the text |
| DocumentStructure.SplitDocument | bilingual_reader/document_structure.py:154-202 | all three sections come back stripped, and an end position at or past the end of the text leaves no back matter; markers and positions default to `None` |
| DocumentStructure.ManualPositionsWin | bilingual_reader/document_structure.py:174-180 | manual positions override the markers and detection, whatever the markers are |
| DocumentStructure.PositionsPastEndClamp | bilingual_reader/document_structure.py:193-196 | positions past the end of the text act as the end of the text |
| DocumentStructure.EndMarkerMissed | bilingual_reader/document_structure.py:181-187 | an end marker that does not occur after the start puts the end at `len(text)`, with no fallback to detection, so the back matter is empty |
| DocumentStructure.SectionsPartition | bilingual_reader/document_structure.py:193-196 | between ordered boundaries, the three spans rebuild the text and each section is its span stripped |
| DocumentStructure.DetectedBoundariesOrdered | bilingual_reader/document_structure.py:174-191 | without manual positions, `start <= end <= len(text)` |
| DocumentStructure.SplitAtManualPositionsExample | tests/test_document_structure.py:182-194 | positions 10 and 20 split the 26-character test text into `0123456789`, `ABCDEFGHIJ` and `KLMNOP` |
| DocumentStructure.HeadingLinesBefore | bilingual_reader/document_structure.py:218-226 | the listed heading lines all come before line `n` |
| DocumentStructure.Entries | bilingual_reader/document_structure.py:225 | each listed line gives one `(offset, stripped line)` entry |
| DocumentStructure.HeadingListStep | bilingual_reader/document_structure.py:218-228 | one loop step appends an entry exactly for a heading line, and the offset advances by `len(line) + 1` |
| DocumentStructure.ListHeadings | bilingual_reader/document_structure.py:214-230 | the loop lists every heading line, in order, with its offset |
| DocumentStructure.ChapterInfo | bilingual_reader/document_structure.py:205-230 | every listed title is the non-empty, stripped line |
| DocumentStructure.GetChapterInfo | bilingual_reader/document_structure.py:205-230 | `get_chapter_info` returns exactly `ChapterInfo` |
| DocumentStructure.ChapterInfoSound | bilingual_reader/document_structure.py:218-228 | every entry is a chapter heading line, stripped, with its offset, and that offset is a line start of the text |
| DocumentStructure.ChapterInfoComplete | bilingual_reader/document_structure.py:218-228 | every chapter heading line of the text is listed |
| DocumentStructure.ChapterInfoIncreasing | bilingual_reader/document_structure.py:217-228 | the entry offsets strictly increase |
| DocumentStructure.ChapterInfoAgreesWithStart | bilingual_reader/document_structure.py:84-100 | the first entry is the detected start without a marker; the list is empty exactly when there is no heading line, and then the start is 0 |
| Patterns.MatchesFromExists | bilingual_reader/document_structure.py:93-94 | the ordered pattern scan succeeds exactly when some pattern of the table matches |
| Patterns.TrimmedHeading | bilingual_reader/document_structure.py:86-94 | a trimmed, non-blank line that a pattern matches is a heading line |
| Patterns.HeadingLineIff | bilingual_reader/document_structure.py:86-94 | a line is a heading line exactly when it is not all whitespace and some pattern of the table matches its stripped form |
| Patterns.MatchPrefixExtends | bilingual_reader/document_structure.py:94 | `re.match` only looks at a prefix: a pattern without `$` that matches a line still matches whatever follows |
| Patterns.TableSizes | bilingual_reader/document_structure.py:30-64 | the chapter table holds the 28 patterns of `CHAPTER_PATTERNS` and the back-matter table the 16 of lines 114-131, none empty |
| Patterns.ChapterOneMatches | bilingual_reader/document_structure.py:32 | `^chapter\s+\d+` matches "Chapter 1" |
| Patterns.ChineseChapterMatches | bilingual_reader/document_structure.py:48 | `^第[…]+章` matches "第一章" |
| Patterns.ChapterOneIsHeading | bilingual_reader/document_structure.py:30-64 | "Chapter 1" is a chapter heading line |
| Patterns.ChineseChapterIsHeading | bilingual_reader/document_structure.py:30-64 | "第一章" is a chapter heading line |
| Patterns.AppendixIsBackMatter | bilingual_reader/document_structure.py:114-131 | "Appendix A" is a back-matter heading line |
| Patterns.ChineseAppendixIsBackMatter | bilingual_reader/document_structure.py:114-131 | "附录" is a back-matter heading line |
| Patterns.IntroductionMustStandAlone | bilingual_reader/document_structure.py:44 | `^introduction$` accepts the bare word and rejects "Introduction to Dafny" |
| TextUtil.Strip | bilingual_reader/document_structure.py:86 | `strip()` returns a trimmed string no longer than its input |
| TextUtil.StripInfix | bilingual_reader/aligner.py:86 | what `strip()` keeps is a contiguous infix of the line |
| TextUtil.StripLeading | bilingual_reader/aligner.py:86 | only whitespace is removed before the kept infix |
| TextUtil.StripTrailing | bilingual_reader/aligner.py:86 | only whitespace is removed after the kept infix |
| TextUtil.StripEmptyIffBlank | bilingual_reader/document_structure.py:88-90 | a line strips to nothing exactly when it is all whitespace |
| TextUtil.StripUnique | bilingual_reader/pdf_generator.py:144 | whitespace, then a trimmed core, then whitespace strips to that core |
| TextUtil.StripTrimmed | bilingual_reader/aligner.py:86 | stripping a trimmed string leaves it unchanged |
| TextUtil.Lines | bilingual_reader/document_structure.py:84 | `split('\n')` gives at least one piece, and no piece holds a newline |
| TextUtil.JoinOfLines | bilingual_reader/document_structure.py:84 | joining the pieces with newlines gives the text back |
| TextUtil.LinesOfJoin | bilingual_reader/aligner.py:85 | splitting newline-free lines joined with newlines gives the lines back |
| TextUtil.LineAt | bilingual_reader/document_structure.py:96 | line `i` sits in the text at offset `sum(len(line)+1)`, preceded by a newline when `i > 0` |
| TextUtil.LineStartIncreasing | bilingual_reader/document_structure.py:228 | line offsets strictly increase |
| TextUtil.FindIgnoreCase | bilingual_reader/document_structure.py:79-81 | the search returns the first case-insensitive occurrence, and `None` exactly when there is none |
| TextUtil.FindIs | bilingual_reader/document_structure.py:79-81 | a first occurrence at `p` is what the search returns |
| LineScan.FirstFromIs | bilingual_reader/document_structure.py:85-97 | a scan that stops at the first hit returns exactly that index |
| LineScan.SetBeforeComplete | bilingual_reader/document_structure.py:218-226 | a scan that collects every hit misses none |
| LineScan.SetBeforeIncreasing | bilingual_reader/document_structure.py:218-226 | the collected hits come in increasing order |
| LineScan.SetBeforeAgreesWithFirst | bilingual_reader/document_structure.py:84-100 | the first collected hit is the first-hit scan's answer, and nothing is collected exactly when that scan finds nothing |
| Aligner.BilingualAligner.constructor | bilingual_reader/aligner.py:14-22 | the aligner keeps both language codes, `en` and `zh` by default |
| Aligner.BilingualAligner.SplitParagraphs | bilingual_reader/aligner.py:72-97 | `_split_paragraphs` returns exactly `Paragraphs(text)` |
| Aligner.StrippedLinesClean | bilingual_reader/aligner.py:85-86 | every stripped line is trimmed and holds no newline |
| Aligner.CollectParagraphs | bilingual_reader/aligner.py:82-95 | the loop emits each run of non-blank lines joined by single spaces, including the last run |
| Aligner.DropEmpty | bilingual_reader/aligner.py:97 | the comprehension keeps exactly the non-empty paragraphs, in order |
| Aligner.GroupParagraphs | bilingual_reader/aligner.py:82-97 | grouping the stripped lines gives `ParagraphsOf` |
| Aligner.RunsNonBlankStep | bilingual_reader/aligner.py:87-88 | a non-blank line extends the open run, or opens one after a blank line |
| Aligner.RunsAreMaximal | bilingual_reader/aligner.py:85-95 | the runs are exactly the maximal runs of non-blank lines, one per run start, in order and disjoint |
| Aligner.JoinedRunIsParagraph | bilingual_reader/aligner.py:90-95 | a joined run of stripped non-blank lines is non-empty, newline-free and trimmed |
| Aligner.ParagraphsOfAreJoinedRuns | bilingual_reader/aligner.py:85-97 | paragraph `j` is maximal run `j` joined with spaces, and the final filter drops nothing |
| Aligner.ParagraphsWellFormed | bilingual_reader/aligner.py:72-97 | there is one paragraph per maximal run (any number of blank lines separates like one); each is non-empty, newline-free and trimmed |
| Aligner.ParagraphsOfEmptyText | bilingual_reader/aligner.py:85-97 | the empty text has no paragraphs |
| Aligner.Paragraphs | bilingual_reader/aligner.py:72-97 | no paragraph is empty, holds a newline or has surrounding whitespace |
| Aligner.SplitOfBlankJoin | bilingual_reader/aligner.py:72-97 | clean paragraphs joined with blank lines split back into themselves |
| Aligner.ParagraphsIdempotent | bilingual_reader/aligner.py:72-97 | re-splitting the blank-line join of the paragraphs gives the same paragraphs |
| Aligner.PairSegments | bilingual_reader/aligner.py:58-69 | the padding loop returns exactly `Pairs`: the i-th segments of both lists, `""` past the shorter one, stripped, skipping pairs where both sides are blank |
| Aligner.BilingualAligner.AlignTexts | bilingual_reader/aligner.py:24-70 | paragraph mode pairs the paragraphs; any other mode needs the sentence splitter, fails with the source's message without one, and otherwise pairs the split sentences |
| Aligner.Pairs | bilingual_reader/aligner.py:57-70 | never more pairs than the longer list has segments |
| Aligner.PairsPositional | bilingual_reader/aligner.py:57-70 | the pairs are exactly the positions below the longer length with a non-blank side, in increasing order, each pair being the stripped padded segments |
| Aligner.PairsBound | bilingual_reader/aligner.py:59-69 | there are never more pairs than positions |
| Aligner.PairsWellFormed | bilingual_reader/aligner.py:66-68 | every pair has a non-blank side, and both sides are stripped |
| Aligner.PairsOfNonBlank | bilingual_reader/aligner.py:59-68 | with no blank segment there is one pair per position, padded with `""` past the shorter list |
| Aligner.PairsOfBlank | bilingual_reader/aligner.py:66-68 | lists of blank segments, empty lists included, give no pairs |
| Aligner.ParagraphPairsFull | bilingual_reader/aligner.py:45-70 | in paragraph mode, pair `i` is exactly the `i`-th paragraphs, padded, and there are as many pairs as the longer text has paragraphs |
| Aligner.EmptyTextsAlignToNothing | bilingual_reader/aligner.py:45-70 | two empty texts align to nothing in paragraph mode |
| Aligner.ThreeParagraphsAlign | tests/test_aligner.py:17-53 | the test paragraphs split back into themselves and give three pairs |
| ImageMatching.IndexMatchProperties | bilingual_reader/image_extractor.py:307-318 | index matching pairs the `i`-th images below the shorter length, leaves the tails unmatched in order, and partitions both inputs |
| ImageMatching.IndexMatch | bilingual_reader/image_extractor.py:307-318 | as many pairs as the shorter list has images, each side's pairs and leftovers add up to its length, and one side has nothing left over |
| ImageMatching.MatchImagesByPosition | bilingual_reader/image_extractor.py:294-318 | the loop returns exactly `IndexMatch` |
| ImageMatching.MatchImagesByProximity | bilingual_reader/image_extractor.py:365-382 | proximity matching ignores the text positions and is index matching |
| ImageMatching.NearestIsFirstClosest | bilingual_reader/image_extractor.py:347-354 | the inner scan finds a candidate exactly when there is one; that candidate is as close as any and strictly closer than every earlier one |
| ImageMatching.Nearest | bilingual_reader/image_extractor.py:347-354 | no candidate exactly when the list is empty; otherwise one at least as close as every candidate and strictly closer than every earlier one |
| ImageMatching.RemoveOne | bilingual_reader/image_extractor.py:359-360 | `list.remove` of a present image takes exactly one copy away |
| ImageMatching.RemoveKeepsOrder | bilingual_reader/image_extractor.py:359-360 | `list.remove` keeps the remaining images in order |
| ImageMatching.Remove | bilingual_reader/image_extractor.py:359-360 | `list.remove` of a present image shortens the list by one, and a missing image leaves it unchanged |
| ImageMatching.SubseqTrans | bilingual_reader/image_extractor.py:359-360 | "kept in order" is transitive across successive removals |
| ImageMatching.NextStillUnmatched | bilingual_reader/image_extractor.py:346-359 | the image being processed is still unmatched, so `unmatched1.remove(img1)` never raises |
| ImageMatching.MatchKeepsPartition | bilingual_reader/image_extractor.py:357-360 | recording a pair and removing both images keeps both inputs partitioned |
| ImageMatching.MatchKeepsOrder | bilingual_reader/image_extractor.py:359-360 | recording a pair keeps both unmatched lists in input order |
| ImageMatching.MatchKeepsClose | bilingual_reader/image_extractor.py:357-358 | every recorded pair stays closer than 0.1 |
| ImageMatching.GreedyStepKeeps | bilingual_reader/image_extractor.py:346-360 | one greedy step preserves the matching invariant |
| ImageMatching.GreedyUpToInvariant | bilingual_reader/image_extractor.py:341-362 | the invariant holds after every prefix of the first list |
| ImageMatching.PageMatchProperties | bilingual_reader/image_extractor.py:321-362 | page matching partitions both inputs, so no image is matched twice; without fallback, every pair is closer than 0.1 and the unmatched lists keep input order |
| ImageMatching.GreedyChoosesNearest | bilingual_reader/image_extractor.py:346-360 | a matched image gets the nearest remaining candidate, the earliest on a tie, closer than 0.1 |
| ImageMatching.GreedyAccepts | bilingual_reader/image_extractor.py:346-360 | an image is matched exactly when its nearest remaining candidate is closer than 0.1, and then to that candidate; otherwise nothing changes |
| ImageMatching.GreedyStep | bilingual_reader/image_extractor.py:346-360 | one image adds at most one pair and keeps the earlier pairs |
| ImageMatching.ScanNearest | bilingual_reader/image_extractor.py:347-354 | the scan over the remaining images returns the first one at the smallest distance and that distance, or nothing when none remain |
| ImageMatching.MatchImagesByPage | bilingual_reader/image_extractor.py:321-362 | the nested loop returns exactly `PageMatch`, falling back to index matching when a list is empty or a first image has no page |
| ImageMatching.PageMatch | bilingual_reader/image_extractor.py:321-362 | every image of either list ends up exactly once, matched or unmatched |
| ImageMatching.PageMatchPairsClose | bilingual_reader/image_extractor.py:341-362 | two images on page 1 at positions 0.5 and 0.55 are paired, with nothing left unmatched |
| PdfText.Replace | bilingual_reader/pdf_generator.py:137-139 | a replacement pass leaves no occurrence of a character that the replacement text does not contain, and brings in no character other than those of the input and the replacement |
| PdfText.Escape | bilingual_reader/pdf_generator.py:137-139 | after the three passes no `<` or `>` is left |
| PdfText.EscapeAppend | bilingual_reader/pdf_generator.py:137-139 | the three passes distribute over concatenation |
| PdfText.EscapeIsPerCharacter | bilingual_reader/pdf_generator.py:137-139 | the three sequential passes escape each character on its own, `&` never twice |
| PdfText.UnescapeEscape | bilingual_reader/pdf_generator.py:137-139 | decoding the three entities undoes the escape |
| PdfText.EscapeEachLength | bilingual_reader/pdf_generator.py:137-139 | escaping never shortens a text, and strictly lengthens any text with something to escape |
| PdfText.DropControls | bilingual_reader/pdf_generator.py:142 | the filter leaves only code points from 32 up, newlines and tabs, and never lengthens the text |
| PdfText.DropControlsKeepsKept | bilingual_reader/pdf_generator.py:142 | the filter keeps every kept character, as often as it occurs |
| PdfText.DropControlsAllKept | bilingual_reader/pdf_generator.py:142 | a text without control characters passes unchanged |
| PdfText.DropControlsEscapeCommute | bilingual_reader/pdf_generator.py:137-142 | escaping and then filtering equals filtering and then escaping |
| PdfText.StripEscapeCommute | bilingual_reader/pdf_generator.py:137-144 | escaping and then stripping equals stripping and then escaping |
| PdfText.SanitizeIsEscapedStrip | bilingual_reader/pdf_generator.py:127-144 | `_sanitize_text` is the escape of the stripped, control-free text |
| PdfText.Sanitize | bilingual_reader/pdf_generator.py:127-144 | the result has no `<` or `>`, no dropped control character, and no surrounding whitespace |
| PdfText.SanitizeSafe | bilingual_reader/pdf_generator.py:127-144 | the result has no `<` or `>`; every `&` starts `&amp;`, `&lt;` or `&gt;`; it has no control character; it is stripped |
| PdfText.SanitizeRoundTrip | bilingual_reader/pdf_generator.py:127-144 | decoding the result gives exactly the stripped, control-free input |
| PdfText.CleanTextUnchanged | bilingual_reader/pdf_generator.py:127-144 | a stripped text without special or control characters is returned unchanged |
| PdfText.SanitizeKeptTrimmed | bilingual_reader/pdf_generator.py:127-144 | a stripped text without control characters is just escaped |
| PdfText.SanitizeEscapesInPlace | tests/test_pdf_generator.py:31-39 | in a text shaped like "Text with <tags> & special chars", each special character is escaped once and in place |
| PdfText.SanitizeIdempotentIff | bilingual_reader/pdf_generator.py:127-144 | sanitising twice re-escapes the entities; the result is unchanged exactly when the first result holds no `&`, `<` or `>` |

## Left out

- File and PDF I/O are not modelled: text and image extraction, `optimize_image`, PDF building (`generate_pdf`, the styles) and the command line. Only the pure and in-memory logic named above is modelled.
- The regular expressions are modelled as a small fragment: literals, one character of a class, `+`, `*` and `$`. That fragment is enough for both heading tables.
- `re.IGNORECASE` is modelled as ASCII case folding only, for the heading tables and for the custom start and end markers alike. Python also matches some non-ASCII letters against the tables' ASCII letters, and the model rejects those lines: "ſection 2" (long s), "BOO\u212A 1" (Kelvin sign), "Introductıon" (dotless i) and "İNTRODUCTION" (dotted capital I). The same holds for a marker that differs from the text only in such letters.
- `\d` is modelled as the ASCII digits only. Python's `\d` also accepts other Unicode decimal digits.
- `ImageBlock.position` and the distances are modelled as exact reals rather than floats. Rounding is not modelled, and neither is `float('inf')`: the inner scan starts from "no best yet" instead.
- The picture held by an `ImageBlock` is an opaque type compared by equality. `list.remove` compares images with the dataclass's field-wise equality, and the model keeps that.
- The sentence splitter (`lingtrain_aligner`) is not modelled. It is a parameter of `AlignTexts`: either unavailable, which gives the `ImportError` message as a `Failure`, or an arbitrary function of a text and a language code.
- Aligner.ThreeParagraphsAlign covers only the paragraph-mode tests. The sentence-mode tests depend on the external splitter's output.
- ImageMatching.MatchImagesByProximity follows the code, which delegates to index matching and ignores `aligned_text_positions`. Its docstring (image_extractor.py:370) promises matching by proximity to aligned text segments. The comment at image_extractor.py:380 says position-based matching is used for now.
- DocumentStructure.SplitDocument takes positions as natural numbers. Negative positions, which Python would count from the end, are not modelled. Positions past the end are clamped as Python slices clamp them.
- `_sanitize_text` works on Python strings, which may hold lone surrogate code points. Dafny characters are Unicode scalar values, so such code points are not modelled.
- PdfText.SanitizeEscapesInPlace is stated for every text of the test string's shape, not for that literal string alone.

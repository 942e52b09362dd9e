/**
 * Paragraph splitting and positional pairing of two texts
 * (bilingual_reader/aligner.py).
 *
 * `BilingualAligner.SplitParagraphs` walks the lines of a text, trims each,
 * gathers runs of non-blank lines and joins each run with single spaces;
 * `BilingualAligner.AlignTexts` pairs the segments of two texts by position,
 * padding the shorter list with empty strings and dropping pairs that are
 * blank on both sides. Both are proved against the specification functions
 * `Paragraphs` and `Pairs` below, whose properties are the lemmas.
 */
module Aligner {
  import opened Wrappers
  import opened TextUtil
  import opened LineScan

  // ---------------------------------------------------------------------------
  // Paragraphs: maximal runs of non-blank lines
  // ---------------------------------------------------------------------------

  /** The lines of `text` after `strip()`; `[]` stands for a blank line. */
  function StrippedLines(text: string): (ts: seq<string>)
    ensures |ts| == |Lines(text)|
    ensures forall k :: 0 <= k < |ts| ==> ts[k] == Strip(Lines(text)[k])
  {
    var ls := Lines(text);
    seq(|ls|, k requires 0 <= k < |ls| => Strip(ls[k]))
  }

  /** The runs of non-blank lines among the first `n` trimmed lines: a
      non-blank line extends the last run when the line before it was
      non-blank, and opens a new run otherwise; a blank line closes. */
  function RunsUpTo(ts: seq<string>, n: nat): (rs: seq<seq<string>>)
    requires n <= |ts|
    ensures n > 0 && ts[n - 1] != [] ==> rs != []
  {
    if n == 0 then []
    else
      var rs := RunsUpTo(ts, n - 1);
      if ts[n - 1] == [] then rs
      else if n >= 2 && ts[n - 2] != [] then rs[..|rs| - 1] + [rs[|rs| - 1] + [ts[n - 1]]]
      else rs + [[ts[n - 1]]]
  }

  /** A non-blank line opens a run after a blank line and extends the open
      run otherwise. */
  lemma RunsNonBlankStep(ts: seq<string>, n: nat, closed: seq<seq<string>>, current: seq<string>)
    requires 1 <= n <= |ts| && ts[n - 1] != []
    requires current == [] <==> (n == 1 || ts[n - 2] == [])
    requires RunsUpTo(ts, n - 1) == if current == [] then closed else closed + [current]
    ensures RunsUpTo(ts, n) == closed + [current + [ts[n - 1]]]
  {
    if current != [] {
      var rs := closed + [current];
      assert RunsUpTo(ts, n) == rs[..|rs| - 1] + [rs[|rs| - 1] + [ts[n - 1]]];
      assert rs[..|rs| - 1] == closed && rs[|rs| - 1] == current;
    } else {
      assert RunsUpTo(ts, n) == closed + [[ts[n - 1]]];
      assert current + [ts[n - 1]] == [ts[n - 1]];
    }
  }

  lemma JoinRunsSnoc(rs: seq<seq<string>>, r: seq<string>)
    ensures JoinRuns(rs + [r]) == JoinRuns(rs) + [JoinWith(" ", r)]
  {
  }

  /** Each run joined with single spaces. */
  function JoinRuns(rs: seq<seq<string>>): (ps: seq<string>)
    ensures |ps| == |rs|
    ensures forall j :: 0 <= j < |rs| ==> ps[j] == JoinWith(" ", rs[j])
  {
    seq(|rs|, j requires 0 <= j < |rs| => JoinWith(" ", rs[j]))
  }

  /** `[p for p in ps if p]`. */
  function NonEmpty(ps: seq<string>): seq<string>
  {
    if ps == [] then []
    else NonEmpty(ps[..|ps| - 1]) + (if ps[|ps| - 1] != [] then [ps[|ps| - 1]] else [])
  }

  /** The paragraphs made of the trimmed lines `ts`. */
  function ParagraphsOf(ts: seq<string>): seq<string>
  {
    NonEmpty(JoinRuns(RunsUpTo(ts, |ts|)))
  }

  /** The paragraphs `_split_paragraphs` returns for `text`: none is empty,
      holds a newline or has surrounding whitespace. */
  function Paragraphs(text: string): (ps: seq<string>)
    ensures forall j :: 0 <= j < |ps| ==> ps[j] != [] && NoNewline(ps[j]) && IsTrimmed(ps[j])
  {
    StrippedLinesClean(text);
    ParagraphsOfAreJoinedRuns(StrippedLines(text));
    ParagraphsOf(StrippedLines(text))
  }

  /** Lines as trimming leaves them: trimmed and free of newlines. */
  predicate CleanLines(ts: seq<string>)
  {
    forall k :: 0 <= k < |ts| ==> IsTrimmed(ts[k]) && NoNewline(ts[k])
  }

  /** Where the maximal runs of non-blank lines begin: a non-blank line that
      is first or follows a blank one. */
  function RunStartFlags(ts: seq<string>): (f: seq<bool>)
    ensures |f| == |ts|
    ensures forall k :: 0 <= k < |ts| ==> f[k] == (ts[k] != [] && (k == 0 || ts[k - 1] == []))
  {
    seq(|ts|, k requires 0 <= k < |ts| => ts[k] != [] && (k == 0 || ts[k - 1] == []))
  }

  /** `rs` are the maximal runs of non-blank lines among the first `n` lines
      of `ts`, and `starts` where they begin: one run per start; run `j`
      holds the lines from its start on, up to the next blank line or line
      `n`; none of its lines is blank; and when line `n - 1` is not blank the
      last run reaches it. */
  predicate MaximalRuns(ts: seq<string>, rs: seq<seq<string>>, starts: seq<nat>, n: nat)
    requires n <= |ts|
  {
    |rs| == |starts|
    && (forall j :: 0 <= j < |rs| ==> rs[j] != [] && starts[j] + |rs[j]| <= n)
    && (forall j, m :: 0 <= j < |rs| && 0 <= m < |rs[j]| ==> starts[j] + m < n && rs[j][m] == ts[starts[j] + m] != [])
    && (forall j :: 0 <= j < |rs| ==> starts[j] + |rs[j]| == n || ts[starts[j] + |rs[j]|] == [])
    && (forall j, k :: 0 <= j < k < |rs| ==> starts[j] + |rs[j]| < starts[k])
    && (n > 0 && ts[n - 1] != [] ==> |rs| > 0 && starts[|rs| - 1] + |rs[|rs| - 1]| == n)
  }

  lemma MaximalAfterBlank(ts: seq<string>, rs: seq<seq<string>>, starts: seq<nat>, n: nat,
                           rs': seq<seq<string>>, starts': seq<nat>)
    requires 1 <= n <= |ts| && ts[n - 1] == []
    requires MaximalRuns(ts, rs, starts, n - 1)
    requires rs' == rs && starts' == starts
    ensures MaximalRuns(ts, rs', starts', n)
  {
    forall j | 0 <= j < |rs| ensures rs[j] != [] && starts[j] + |rs[j]| <= n {
    }
    forall j, m | 0 <= j < |rs| && 0 <= m < |rs[j]|
      ensures starts[j] + m < n && rs[j][m] == ts[starts[j] + m] != []
    {
    }
    forall j | 0 <= j < |rs| ensures starts[j] + |rs[j]| == n || ts[starts[j] + |rs[j]|] == [] {
      if starts[j] + |rs[j]| == n - 1 {
        assert ts[n - 1] == [];
      }
    }
    forall j, k | 0 <= j < k < |rs| ensures starts[j] + |rs[j]| < starts[k] {
    }
  }

  lemma MaximalExtend(ts: seq<string>, rs: seq<seq<string>>, starts: seq<nat>, n: nat,
                       rs': seq<seq<string>>)
    requires 2 <= n <= |ts| && ts[n - 1] != [] && ts[n - 2] != []
    requires MaximalRuns(ts, rs, starts, n - 1)
    requires rs' == rs[..|rs| - 1] + [rs[|rs| - 1] + [ts[n - 1]]]
    ensures MaximalRuns(ts, rs', starts, n)
  {
    var last := |rs| - 1;
    assert |rs'| == |rs| && rs'[last] == rs[last] + [ts[n - 1]];
    assert forall j :: 0 <= j < last ==> rs'[j] == rs[j];
    assert starts[last] + |rs[last]| == n - 1;
    forall j | 0 <= j < |rs'|
      ensures rs'[j] != [] && starts[j] + |rs'[j]| <= n
    {
    }
    forall j, m | 0 <= j < |rs'| && 0 <= m < |rs'[j]|
      ensures starts[j] + m < n && rs'[j][m] == ts[starts[j] + m] != []
    {
      if j == last && m < |rs[last]| {
        assert rs'[j][m] == rs[j][m];
      }
    }
    forall j | 0 <= j < |rs'|
      ensures starts[j] + |rs'[j]| == n || ts[starts[j] + |rs'[j]|] == []
    {
      if j < last {
        assert starts[j] + |rs[j]| < starts[last];
      }
    }
    forall j, k | 0 <= j < k < |rs'|
      ensures starts[j] + |rs'[j]| < starts[k]
    {
    }
  }

  lemma MaximalOpen(ts: seq<string>, rs: seq<seq<string>>, starts: seq<nat>, n: nat,
                     rs': seq<seq<string>>, starts': seq<nat>)
    requires 1 <= n <= |ts| && ts[n - 1] != [] && (n == 1 || ts[n - 2] == [])
    requires MaximalRuns(ts, rs, starts, n - 1)
    requires rs' == rs + [[ts[n - 1]]] && starts' == starts + [n - 1]
    ensures MaximalRuns(ts, rs', starts', n)
  {
    forall j, m | 0 <= j < |rs'| && 0 <= m < |rs'[j]|
      ensures starts'[j] + m < n && rs'[j][m] == ts[starts'[j] + m] != []
    {
      if j < |rs| {
        assert rs'[j] == rs[j];
      } else {
        assert rs'[j] == [ts[n - 1]];
      }
    }
    forall j | 0 <= j < |rs'|
      ensures starts'[j] + |rs'[j]| == n || ts[starts'[j] + |rs'[j]|] == []
    {
      if j < |rs| {
        assert rs'[j] == rs[j];
        var e := starts[j] + |rs[j]|;
        assert rs[j][|rs[j]| - 1] == ts[e - 1] != [];
      }
    }
    forall j | 0 <= j < |rs'|
      ensures rs'[j] != [] && starts'[j] + |rs'[j]| <= n
    {
      if j < |rs| {
        assert rs'[j] == rs[j];
      }
    }
    forall j, k | 0 <= j < k < |rs'|
      ensures starts'[j] + |rs'[j]| < starts'[k]
    {
      assert rs'[j] == rs[j];
      var e := starts[j] + |rs[j]|;
      assert rs[j][|rs[j]| - 1] == ts[e - 1] != [];
    }
  }

  /** The runs are exactly the maximal runs of non-blank lines, one per run
      start. */
  lemma {:induction false} RunsAreMaximal(ts: seq<string>, n: nat)
    requires n <= |ts|
    ensures MaximalRuns(ts, RunsUpTo(ts, n), SetBefore(RunStartFlags(ts), n), n)
  {
    if n > 0 {
      RunsAreMaximal(ts, n - 1);
      var f := RunStartFlags(ts);
      var starts := SetBefore(f, n - 1);
      var prev := RunsUpTo(ts, n - 1);
      assert f[n - 1] == (ts[n - 1] != [] && (n == 1 || ts[n - 2] == []));
      var rs := RunsUpTo(ts, n);
      var starts' := SetBefore(f, n);
      if ts[n - 1] == [] {
        assert rs == prev && starts' == starts;
        MaximalAfterBlank(ts, prev, starts, n, prev, starts);
      } else if n >= 2 && ts[n - 2] != [] {
        var ext := prev[..|prev| - 1] + [prev[|prev| - 1] + [ts[n - 1]]];
        assert rs == ext && starts' == starts;
        MaximalExtend(ts, prev, starts, n, ext);
      } else {
        assert rs == prev + [[ts[n - 1]]] && starts' == starts + [n - 1];
        MaximalOpen(ts, prev, starts, n, prev + [[ts[n - 1]]], starts + [n - 1]);
      }
    }
  }

  // ---------------------------------------------------------------------------
  // What a joined run looks like
  // ---------------------------------------------------------------------------

  /** The first character of a join is that of its first part. */
  lemma {:induction false} JoinWithFirst(sep: string, parts: seq<string>)
    requires parts != [] && parts[0] != []
    ensures JoinWith(sep, parts) != [] && JoinWith(sep, parts)[0] == parts[0][0]
  {
  }

  /** The last character of a join is that of its last part. */
  lemma {:induction false} JoinWithLast(sep: string, parts: seq<string>)
    requires parts != [] && parts[|parts| - 1] != []
    ensures var r := JoinWith(sep, parts);
      r != [] && r[|r| - 1] == parts[|parts| - 1][|parts[|parts| - 1]| - 1]
  {
    if |parts| > 1 {
      JoinWithLast(sep, parts[1..]);
    }
  }

  /** Joining newline-free parts with a newline-free separator gives a
      newline-free string. */
  lemma {:induction false} JoinWithNoNewline(sep: string, parts: seq<string>)
    requires NoNewline(sep)
    requires forall k :: 0 <= k < |parts| ==> NoNewline(parts[k])
    ensures NoNewline(JoinWith(sep, parts))
  {
    if |parts| > 1 {
      JoinWithNoNewline(sep, parts[1..]);
      var rest := JoinWith(sep, parts[1..]);
      var r := parts[0] + sep + rest;
      forall k | 0 <= k < |r|
        ensures r[k] != '\n'
      {
        if k < |parts[0]| {
          assert r[k] == parts[0][k];
        } else if k < |parts[0]| + |sep| {
          assert r[k] == sep[k - |parts[0]|];
        } else {
          assert r[k] == rest[k - |parts[0]| - |sep|];
        }
      }
    }
  }

  /** Trimming keeps no character the line did not have. */
  lemma StripNoNewline(s: string)
    requires NoNewline(s)
    ensures NoNewline(Strip(s))
  {
    StripInfix(s);
  }

  /** A run of non-blank trimmed lines joined with spaces is a non-empty,
      newline-free, trimmed paragraph. */
  lemma JoinedRunIsParagraph(run: seq<string>)
    requires run != []
    requires forall m :: 0 <= m < |run| ==> run[m] != [] && IsTrimmed(run[m]) && NoNewline(run[m])
    ensures var p := JoinWith(" ", run); p != [] && NoNewline(p) && IsTrimmed(p)
  {
    JoinWithFirst(" ", run);
    JoinWithLast(" ", run);
    JoinWithNoNewline(" ", run);
  }

  /** `NonEmpty` keeps a list whose entries are all non-empty as it is. */
  lemma {:induction false} NonEmptyKeepsAll(ps: seq<string>)
    requires forall j :: 0 <= j < |ps| ==> ps[j] != []
    ensures NonEmpty(ps) == ps
  {
    if ps != [] {
      NonEmptyKeepsAll(ps[..|ps| - 1]);
    }
  }

  /** The lines of a text, trimmed, are clean. */
  lemma StrippedLinesClean(text: string)
    ensures CleanLines(StrippedLines(text))
  {
    var ts := StrippedLines(text);
    forall k | 0 <= k < |ts|
      ensures IsTrimmed(ts[k]) && NoNewline(ts[k])
    {
      StripNoNewline(Lines(text)[k]);
    }
  }

  /** Over clean lines, the paragraphs are the maximal runs of non-blank
      lines, one per run start, each joined by single spaces; every one is
      non-empty, newline-free and trimmed, so the final filter drops
      nothing. */
  lemma ParagraphsOfAreJoinedRuns(ts: seq<string>)
    requires CleanLines(ts)
    ensures MaximalRuns(ts, RunsUpTo(ts, |ts|), SetBefore(RunStartFlags(ts), |ts|), |ts|)
    ensures |ParagraphsOf(ts)| == |RunsUpTo(ts, |ts|)|
    ensures forall j :: 0 <= j < |ParagraphsOf(ts)| ==>
      ParagraphsOf(ts)[j] == JoinWith(" ", RunsUpTo(ts, |ts|)[j])
    ensures forall j :: 0 <= j < |ParagraphsOf(ts)| ==>
      ParagraphsOf(ts)[j] != [] && NoNewline(ParagraphsOf(ts)[j]) && IsTrimmed(ParagraphsOf(ts)[j])
  {
    var rs := RunsUpTo(ts, |ts|);
    RunsAreMaximal(ts, |ts|);
    var ps := JoinRuns(rs);
    forall j | 0 <= j < |rs|
      ensures ps[j] != [] && NoNewline(ps[j]) && IsTrimmed(ps[j])
    {
      var s := SetBefore(RunStartFlags(ts), |ts|)[j];
      assert forall m :: 0 <= m < |rs[j]| ==> rs[j][m] == ts[s + m];
      JoinedRunIsParagraph(rs[j]);
    }
    NonEmptyKeepsAll(ps);
  }

  /** Every paragraph of a text is non-empty, holds no newline and is
      trimmed, and there is one per maximal run of non-blank lines, so any
      number of blank lines separates like one. */
  lemma ParagraphsWellFormed(text: string)
    ensures |Paragraphs(text)| == |SetBefore(RunStartFlags(StrippedLines(text)), |StrippedLines(text)|)|
    ensures forall j :: 0 <= j < |Paragraphs(text)| ==>
      Paragraphs(text)[j] != [] && NoNewline(Paragraphs(text)[j]) && IsTrimmed(Paragraphs(text)[j])
  {
    StrippedLinesClean(text);
    ParagraphsOfAreJoinedRuns(StrippedLines(text));
  }

  // ---------------------------------------------------------------------------
  // Idempotence: splitting the blank-line join of paragraphs gives them back
  // ---------------------------------------------------------------------------

  /** The lines of `"\n\n".join(ps)`: each paragraph, with a blank line
      between neighbours. */
  function Spread(ps: seq<string>): (sp: seq<string>)
    requires ps != []
    ensures |sp| == 2 * |ps| - 1
  {
    if |ps| == 1 then [ps[0]] else [ps[0], ""] + Spread(ps[1..])
  }

  lemma {:induction false} JoinBlankSeparated(ps: seq<string>)
    requires ps != []
    ensures JoinWith("\n\n", ps) == JoinLines(Spread(ps))
  {
    if |ps| > 1 {
      JoinBlankSeparated(ps[1..]);
      var sp := Spread(ps);
      assert sp[2..] == Spread(ps[1..]);
      assert sp[1..][1..] == sp[2..];
      calc {
        JoinLines(sp);
        sp[0] + "\n" + JoinLines(sp[1..]);
        ps[0] + "\n" + ("" + "\n" + JoinLines(sp[2..]));
        { assert ps[0] + "\n" + ("" + "\n" + JoinLines(sp[2..])) == ps[0] + "\n\n" + JoinLines(sp[2..]); }
        ps[0] + "\n\n" + JoinWith("\n\n", ps[1..]);
      }
    }
  }

  /** A non-blank line after a blank one opens a run of its own. */
  lemma RunsOpenAfterBlank(ts: seq<string>, n: nat)
    requires 2 <= n <= |ts| && ts[n - 1] != [] && ts[n - 2] == []
    ensures RunsUpTo(ts, n) == RunsUpTo(ts, n - 2) + [[ts[n - 1]]]
  {
    assert RunsUpTo(ts, n - 1) == RunsUpTo(ts, n - 2);
  }

  /** The spread of `ps` is the spread of all but the last paragraph, a
      blank line, and the last paragraph. */
  lemma {:induction false} SpreadSnoc(ps: seq<string>)
    requires |ps| > 1
    ensures Spread(ps) == Spread(ps[..|ps| - 1]) + ["", ps[|ps| - 1]]
  {
    var q := ps[..|ps| - 1];
    if |ps| > 2 {
      SpreadSnoc(ps[1..]);
      assert ps[1..][..|ps| - 2] == q[1..];
      assert Spread(ps) == [ps[0], ""] + (Spread(q[1..]) + ["", ps[|ps| - 1]]);
    }
  }

  /** Runs over the first `n` lines depend on those lines alone. */
  lemma {:induction false} RunsPrefix(ts: seq<string>, us: seq<string>, n: nat)
    requires n <= |ts| && n <= |us| && ts[..n] == us[..n]
    ensures RunsUpTo(ts, n) == RunsUpTo(us, n)
  {
    if n > 0 {
      assert ts[n - 1] == ts[..n][n - 1] && us[n - 1] == us[..n][n - 1];
      assert ts[..n - 1] == ts[..n][..n - 1] && us[..n - 1] == us[..n][..n - 1];
      RunsPrefix(ts, us, n - 1);
      if n >= 2 {
        assert ts[n - 2] == ts[..n][n - 2] && us[n - 2] == us[..n][n - 2];
      }
    }
  }

  /** The last paragraph of a spread opens one more run. */
  lemma RunsOfSpreadSnoc(ps: seq<string>)
    requires |ps| > 1 && ps[|ps| - 1] != []
    ensures var sp, a := Spread(ps), Spread(ps[..|ps| - 1]);
      RunsUpTo(sp, |sp|) == RunsUpTo(a, |a|) + [[ps[|ps| - 1]]]
  {
    var sp, a := Spread(ps), Spread(ps[..|ps| - 1]);
    SpreadSnoc(ps);
    assert sp[..|a|] == a[..|a|] && |sp| == |a| + 2;
    RunsPrefix(sp, a, |a|);
    RunsOpenAfterBlank(sp, |sp|);
  }

  /** Singleton runs of all but the last part, plus a singleton run of the
      last part, are singleton runs of all parts. */
  lemma SingletonsSnoc(ps: seq<string>, prev: seq<seq<string>>, rs: seq<seq<string>>)
    requires |ps| > 1 && |prev| == |ps| - 1
    requires forall j :: 0 <= j < |prev| ==> prev[j] == [ps[j]]
    requires rs == prev + [[ps[|ps| - 1]]]
    ensures |rs| == |ps| && forall j :: 0 <= j < |ps| ==> rs[j] == [ps[j]]
  {
  }

  /** Each paragraph of the spread is a run of its own. */
  lemma {:induction false} RunsOfSpread(ps: seq<string>)
    requires ps != []
    requires forall j :: 0 <= j < |ps| ==> ps[j] != []
    ensures var sp := Spread(ps); var rs := RunsUpTo(sp, |sp|);
      |rs| == |ps| && forall j :: 0 <= j < |ps| ==> rs[j] == [ps[j]]
  {
    var sp := Spread(ps);
    if |ps| > 1 {
      var q := ps[..|ps| - 1];
      var a := Spread(q);
      RunsOfSpread(q);
      RunsOfSpreadSnoc(ps);
      SingletonsSnoc(ps, RunsUpTo(a, |a|), RunsUpTo(sp, |sp|));
    } else {
      assert sp == [ps[0]];
    }
  }

  /** Trimming the lines of `'\n'.join(ls)`, for clean lines `ls`, gives
      `ls` back. */
  lemma StrippedLinesOfJoin(ls: seq<string>)
    requires |ls| >= 1 && CleanLines(ls)
    ensures StrippedLines(JoinLines(ls)) == ls
  {
    LinesOfJoin(ls);
    forall k | 0 <= k < |ls|
      ensures Strip(ls[k]) == ls[k]
    {
      StripTrimmed(ls[k]);
    }
  }

  /** The paragraphs of the lines of a blank-line join are the parts. */
  lemma ParagraphsOfSpread(ps: seq<string>)
    requires ps != []
    requires forall j :: 0 <= j < |ps| ==> ps[j] != []
    ensures ParagraphsOf(Spread(ps)) == ps
  {
    var sp := Spread(ps);
    RunsOfSpread(ps);
    assert JoinRuns(RunsUpTo(sp, |sp|)) == ps;
    NonEmptyKeepsAll(ps);
  }

  lemma {:induction false} SpreadClean(ps: seq<string>)
    requires ps != []
    requires forall j :: 0 <= j < |ps| ==> NoNewline(ps[j]) && IsTrimmed(ps[j])
    ensures CleanLines(Spread(ps))
  {
    if |ps| > 1 {
      SpreadClean(ps[1..]);
      StripTrimmed("");
    }
  }

  /** The empty text has no paragraphs. */
  lemma ParagraphsOfEmptyText()
    ensures Paragraphs("") == []
  {
    assert Lines([]) == [[]];
    assert StrippedLines([]) == [[]];
  }

  /** Paragraphs joined with blank lines split back into themselves. */
  lemma SplitOfBlankJoin(ps: seq<string>)
    requires forall j :: 0 <= j < |ps| ==> ps[j] != [] && NoNewline(ps[j]) && IsTrimmed(ps[j])
    ensures Paragraphs(JoinWith("\n\n", ps)) == ps
  {
    if ps == [] {
      ParagraphsOfEmptyText();
    } else {
      var sp := Spread(ps);
      var t := JoinWith("\n\n", ps);
      JoinBlankSeparated(ps);
      SpreadClean(ps);
      StrippedLinesOfJoin(sp);
      assert StrippedLines(t) == sp;
      ParagraphsOfSpread(ps);
    }
  }

  /** Splitting is idempotent. */
  lemma ParagraphsIdempotent(text: string)
    ensures Paragraphs(JoinWith("\n\n", Paragraphs(text))) == Paragraphs(text)
  {
    ParagraphsWellFormed(text);
    SplitOfBlankJoin(Paragraphs(text));
  }

  // ---------------------------------------------------------------------------
  // Positional pairing
  // ---------------------------------------------------------------------------

  /** `segs[i] if i < len(segs) else ""`. */
  function Padded(segs: seq<string>, i: nat): string
  {
    if i < |segs| then segs[i] else ""
  }

  /** Whether pair `i` is emitted: one of its sides is not blank. */
  predicate Kept(segs1: seq<string>, segs2: seq<string>, i: nat)
  {
    Strip(Padded(segs1, i)) != [] || Strip(Padded(segs2, i)) != []
  }

  /** The pair emitted at position `i`, both sides trimmed. */
  function PairAt(segs1: seq<string>, segs2: seq<string>, i: nat): (string, string)
  {
    (Strip(Padded(segs1, i)), Strip(Padded(segs2, i)))
  }

  function Longer(segs1: seq<string>, segs2: seq<string>): nat
  {
    if |segs1| >= |segs2| then |segs1| else |segs2|
  }

  /** The pairs emitted for the first `n` positions. */
  function PairsUpTo(segs1: seq<string>, segs2: seq<string>, n: nat): seq<(string, string)>
  {
    if n == 0 then []
    else PairsUpTo(segs1, segs2, n - 1) + (if Kept(segs1, segs2, n - 1) then [PairAt(segs1, segs2, n - 1)] else [])
  }

  /** The pairing `align_texts` returns for two segment lists: never more
      pairs than the longer list has segments. */
  function Pairs(segs1: seq<string>, segs2: seq<string>): (ps: seq<(string, string)>)
    ensures |ps| <= Longer(segs1, segs2)
  {
    PairsBound(segs1, segs2, Longer(segs1, segs2));
    PairsUpTo(segs1, segs2, Longer(segs1, segs2))
  }

  function KeptFlags(segs1: seq<string>, segs2: seq<string>): (f: seq<bool>)
    ensures |f| == Longer(segs1, segs2)
    ensures forall i :: 0 <= i < |f| ==> f[i] == Kept(segs1, segs2, i)
  {
    seq(Longer(segs1, segs2), i requires 0 <= i < Longer(segs1, segs2) => Kept(segs1, segs2, i))
  }

  lemma {:induction false} PairsUpToPositional(segs1: seq<string>, segs2: seq<string>, n: nat)
    requires n <= Longer(segs1, segs2)
    ensures |PairsUpTo(segs1, segs2, n)| == |SetBefore(KeptFlags(segs1, segs2), n)|
    ensures forall k :: 0 <= k < |PairsUpTo(segs1, segs2, n)| ==>
      PairsUpTo(segs1, segs2, n)[k] == PairAt(segs1, segs2, SetBefore(KeptFlags(segs1, segs2), n)[k])
  {
    if n > 0 {
      PairsUpToPositional(segs1, segs2, n - 1);
      var f := KeptFlags(segs1, segs2);
      var prev, idx := PairsUpTo(segs1, segs2, n - 1), SetBefore(f, n - 1);
      var ps, idx' := PairsUpTo(segs1, segs2, n), SetBefore(f, n);
      if Kept(segs1, segs2, n - 1) {
        assert ps == prev + [PairAt(segs1, segs2, n - 1)] && idx' == idx + [n - 1];
        forall k | 0 <= k < |ps| ensures ps[k] == PairAt(segs1, segs2, idx'[k]) {
          if k < |prev| {
            assert ps[k] == prev[k] && idx'[k] == idx[k];
          }
        }
      } else {
        assert ps == prev && idx' == idx;
      }
    }
  }

  /** Pairing is positional: the pairs are those of the positions below the
      longer length with a non-blank side, in increasing position order, and
      every such position yields one. */
  lemma PairsPositional(segs1: seq<string>, segs2: seq<string>)
    ensures var idx := SetBefore(KeptFlags(segs1, segs2), Longer(segs1, segs2));
      |Pairs(segs1, segs2)| == |idx|
      && (forall k :: 0 <= k < |idx| ==> Pairs(segs1, segs2)[k] == PairAt(segs1, segs2, idx[k]))
      && (forall k, l :: 0 <= k < l < |idx| ==> idx[k] < idx[l])
      && (forall i :: 0 <= i < Longer(segs1, segs2) && Kept(segs1, segs2, i) ==> i in idx)
  {
    var f := KeptFlags(segs1, segs2);
    var n := Longer(segs1, segs2);
    PairsUpToPositional(segs1, segs2, n);
    SetBeforeIncreasing(f, n);
    forall i | 0 <= i < n && Kept(segs1, segs2, i)
      ensures i in SetBefore(f, n)
    {
      SetBeforeComplete(f, n, i);
    }
  }

  /** No more pairs than the longer list has segments. */
  lemma {:induction false} PairsBound(segs1: seq<string>, segs2: seq<string>, n: nat)
    ensures |PairsUpTo(segs1, segs2, n)| <= n
  {
    if n > 0 {
      PairsBound(segs1, segs2, n - 1);
    }
  }

  /** Every emitted pair has a non-blank side, and both sides are trimmed. */
  lemma PairsWellFormed(segs1: seq<string>, segs2: seq<string>)
    ensures forall k :: 0 <= k < |Pairs(segs1, segs2)| ==>
      var (a, b) := Pairs(segs1, segs2)[k];
      (a != [] || b != []) && IsTrimmed(a) && IsTrimmed(b)
  {
    PairsPositional(segs1, segs2);
  }

  /** When no segment is blank every position is kept: there are exactly as
      many pairs as the longer list has segments, and pair `i` holds the
      trimmed `i`-th segments, `""` past the end of the shorter list. */
  lemma PairsOfNonBlank(segs1: seq<string>, segs2: seq<string>)
    requires forall i :: 0 <= i < |segs1| ==> Strip(segs1[i]) != []
    requires forall i :: 0 <= i < |segs2| ==> Strip(segs2[i]) != []
    ensures |Pairs(segs1, segs2)| == Longer(segs1, segs2)
    ensures forall i :: 0 <= i < Longer(segs1, segs2) ==> Pairs(segs1, segs2)[i] == PairAt(segs1, segs2, i)
  {
    var f := KeptFlags(segs1, segs2);
    var n := Longer(segs1, segs2);
    forall i | 0 <= i < n
      ensures f[i]
    {
      if i < |segs1| {
        assert Strip(Padded(segs1, i)) != [];
      } else {
        assert Strip(Padded(segs2, i)) != [];
      }
    }
    SetBeforeAll(f, n);
    PairsUpToPositional(segs1, segs2, n);
  }

  /** Lists of blank segments, the empty lists among them, pair to nothing. */
  lemma {:induction false} PairsOfBlank(segs1: seq<string>, segs2: seq<string>, n: nat)
    requires forall i :: 0 <= i < |segs1| ==> Strip(segs1[i]) == []
    requires forall i :: 0 <= i < |segs2| ==> Strip(segs2[i]) == []
    ensures PairsUpTo(segs1, segs2, n) == []
  {
    if n > 0 {
      PairsOfBlank(segs1, segs2, n - 1);
      assert Strip([]) == [];
    }
  }

  /** In paragraph mode there are exactly as many pairs as the longer text
      has paragraphs, and pair `i` is the `i`-th paragraphs themselves. */
  lemma ParagraphPairsFull(text1: string, text2: string)
    ensures var p1 := Paragraphs(text1); var p2 := Paragraphs(text2);
      |Pairs(p1, p2)| == Longer(p1, p2)
      && forall i :: 0 <= i < Longer(p1, p2) ==> Pairs(p1, p2)[i] == (Padded(p1, i), Padded(p2, i))
  {
    var p1 := Paragraphs(text1);
    var p2 := Paragraphs(text2);
    ParagraphsWellFormed(text1);
    ParagraphsWellFormed(text2);
    forall i | 0 <= i < |p1|
      ensures Strip(p1[i]) == p1[i]
    {
      StripTrimmed(p1[i]);
    }
    forall i | 0 <= i < |p2|
      ensures Strip(p2[i]) == p2[i]
    {
      StripTrimmed(p2[i]);
    }
    PairsOfNonBlank(p1, p2);
    assert Strip([]) == [];
  }

  // ---------------------------------------------------------------------------
  // The aligner
  // ---------------------------------------------------------------------------

  /** The external sentence splitter: absent, or a function of a text and a
      language code. */
  datatype SentenceSplitter =
    | Unavailable
    | Available(split: (string, string) -> seq<string>)

  const MissingSplitter: string :=
    "lingtrain-aligner is required for sentence-level alignment. Install it with: pip install lingtrain-aligner"

  /** The loop of `_split_paragraphs` over trimmed lines: collect the
      current run of non-blank lines, flush it at a blank line and at the
      end. */
  method CollectParagraphs(ts: seq<string>) returns (paragraphs: seq<string>)
    ensures paragraphs == JoinRuns(RunsUpTo(ts, |ts|))
  {
    paragraphs := [];
    var current: seq<string> := [];
    ghost var closed: seq<seq<string>> := [];
    var i := 0;
    while i < |ts|
      invariant 0 <= i <= |ts|
      invariant paragraphs == JoinRuns(closed)
      invariant i == 0 ==> current == []
      invariant i > 0 ==> (current == [] <==> ts[i - 1] == [])
      invariant RunsUpTo(ts, i) == if current == [] then closed else closed + [current]
    {
      var line := ts[i];
      if line != [] {
        RunsNonBlankStep(ts, i + 1, closed, current);
        current := current + [line];
      } else if current != [] {
        JoinRunsSnoc(closed, current);
        paragraphs := paragraphs + [JoinWith(" ", current)];
        closed := closed + [current];
        current := [];
      }
      i := i + 1;
    }
    if current != [] {
      JoinRunsSnoc(closed, current);
      paragraphs := paragraphs + [JoinWith(" ", current)];
      closed := closed + [current];
    }
  }

  /** `[p for p in paragraphs if p]`. */
  method DropEmpty(paragraphs: seq<string>) returns (paras: seq<string>)
    ensures paras == NonEmpty(paragraphs)
  {
    paras := [];
    var j := 0;
    while j < |paragraphs|
      invariant 0 <= j <= |paragraphs|
      invariant paras == NonEmpty(paragraphs[..j])
    {
      if paragraphs[j] != [] {
        paras := paras + [paragraphs[j]];
      }
      assert paragraphs[..j + 1][..j] == paragraphs[..j];
      j := j + 1;
    }
    assert paragraphs[..j] == paragraphs;
  }

  /** `_split_paragraphs` after the lines are trimmed. */
  method GroupParagraphs(ts: seq<string>) returns (paras: seq<string>)
    ensures paras == ParagraphsOf(ts)
  {
    var paragraphs := CollectParagraphs(ts);
    paras := DropEmpty(paragraphs);
  }

  /** The pairing loop of `align_texts`: pad the shorter list with `""`,
      strip both sides, keep the pairs with a non-blank side. */
  method PairSegments(segs1: seq<string>, segs2: seq<string>) returns (result: seq<(string, string)>)
    ensures result == Pairs(segs1, segs2)
  {
    var maxLen := if |segs1| >= |segs2| then |segs1| else |segs2|;
    result := [];
    for i := 0 to maxLen
      invariant result == PairsUpTo(segs1, segs2, i)
    {
      var seg1 := if i < |segs1| then segs1[i] else "";
      var seg2 := if i < |segs2| then segs2[i] else "";
      if Strip(seg1) != [] || Strip(seg2) != [] {
        result := result + [(Strip(seg1), Strip(seg2))];
      }
    }
  }

  class BilingualAligner {
    const lang1: string
    const lang2: string

    constructor(lang1: string := "en", lang2: string := "zh")
      ensures this.lang1 == lang1 && this.lang2 == lang2
    {
      this.lang1 := lang1;
      this.lang2 := lang2;
    }

    /** `_split_paragraphs`: trim every line of `text`, then group. */
    method SplitParagraphs(text: string) returns (paras: seq<string>)
      ensures paras == Paragraphs(text)
    {
      paras := GroupParagraphs(StrippedLines(text));
    }

    /** `align_texts`: split both texts by `mode` ("paragraph", anything else
        meaning sentences), then pair the segments by position. */
    method AlignTexts(text1: string, text2: string, mode: string := "sentence",
                      splitter: SentenceSplitter := Unavailable)
      returns (r: Result<seq<(string, string)>, string>)
      ensures mode == "paragraph" ==> r == Success(Pairs(Paragraphs(text1), Paragraphs(text2)))
      ensures mode != "paragraph" && splitter.Unavailable? ==> r == Failure(MissingSplitter)
      ensures mode != "paragraph" && splitter.Available? ==>
        r == Success(Pairs(splitter.split(text1, lang1), splitter.split(text2, lang2)))
    {
      var segs1: seq<string>;
      var segs2: seq<string>;
      if mode == "paragraph" {
        segs1 := SplitParagraphs(text1);
        segs2 := SplitParagraphs(text2);
      } else {
        if splitter.Unavailable? {
          return Failure(MissingSplitter);
        }
        segs1 := splitter.split(text1, lang1);
        segs2 := splitter.split(text2, lang2);
      }
      var result := PairSegments(segs1, segs2);
      return Success(result);
    }
  }

  /** Two empty texts align to nothing in paragraph mode. */
  lemma EmptyTextsAlignToNothing()
    ensures Pairs(Paragraphs(""), Paragraphs("")) == []
  {
    ParagraphsOfEmptyText();
  }

  const EnglishParagraphs: seq<string> := ["First paragraph.", "Second paragraph.", "Third paragraph."]
  const ChineseParagraphs: seq<string> := ["第一段。", "第二段。", "第三段。"]

  lemma ExampleParagraphsClean(ps: seq<string>)
    requires ps == EnglishParagraphs || ps == ChineseParagraphs
    ensures forall j :: 0 <= j < |ps| ==> ps[j] != [] && NoNewline(ps[j]) && IsTrimmed(ps[j])
  {
  }

  /** The paragraph-mode example: three paragraphs separated by blank lines
      on each side split back into themselves and give three pairs. */
  lemma ThreeParagraphsAlign()
    ensures Paragraphs(JoinWith("\n\n", EnglishParagraphs)) == EnglishParagraphs
    ensures Paragraphs(JoinWith("\n\n", ChineseParagraphs)) == ChineseParagraphs
    ensures |Pairs(Paragraphs(JoinWith("\n\n", EnglishParagraphs)),
                   Paragraphs(JoinWith("\n\n", ChineseParagraphs)))| == 3
  {
    ExampleParagraphsClean(EnglishParagraphs);
    ExampleParagraphsClean(ChineseParagraphs);
    SplitOfBlankJoin(EnglishParagraphs);
    SplitOfBlankJoin(ChineseParagraphs);
    ParagraphPairsFull(JoinWith("\n\n", EnglishParagraphs), JoinWith("\n\n", ChineseParagraphs));
  }
}

/**
 * The few Python string operations the reader is built from: `str.strip()`,
 * `str.split('\n')` with the running line offsets computed from it,
 * `sep.join(parts)`, and a case-insensitive literal search
 * (`re.search(re.escape(m), text, re.IGNORECASE)`).
 */
module TextUtil {
  import opened Wrappers

  // ---------------------------------------------------------------------------
  // Whitespace and str.strip()
  // ---------------------------------------------------------------------------

  /** The characters for which Python's `str.isspace()` holds; `str.strip()`
      with no argument and the regex class `\s` both use this set. */
  predicate IsSpace(c: char)
  {
    ('\t' <= c <= '\r') || ('\U{1c}' <= c <= ' ')
    || c == '\U{85}' || c == '\U{a0}' || c == '\U{1680}'
    || ('\U{2000}' <= c <= '\U{200a}') || c == '\U{2028}' || c == '\U{2029}'
    || c == '\U{202f}' || c == '\U{205f}' || c == '\U{3000}'
  }

  predicate AllSpace(s: string)
  {
    forall k :: 0 <= k < |s| ==> IsSpace(s[k])
  }

  /** Neither begins nor ends with whitespace: what `str.strip()` returns. */
  predicate IsTrimmed(s: string)
  {
    s == [] || (!IsSpace(s[0]) && !IsSpace(s[|s| - 1]))
  }

  /** Python's `s.strip()`: leading and trailing whitespace removed. */
  function Strip(s: string): (r: string)
    decreases |s|
    ensures IsTrimmed(r) && |r| <= |s|
  {
    if s != [] && IsSpace(s[0]) then Strip(s[1..])
    else if s != [] && IsSpace(s[|s| - 1]) then Strip(s[..|s| - 1])
    else s
  }

  /** Where the part `Strip` keeps begins: the length of the leading run of
      whitespace (all of `s` when it is blank). */
  function StripOffset(s: string): (i: nat)
    decreases |s|
    ensures i + |Strip(s)| <= |s|
  {
    if s != [] && IsSpace(s[0]) then StripOffset(s[1..]) + 1
    else if s != [] && IsSpace(s[|s| - 1]) then StripOffset(s[..|s| - 1])
    else 0
  }

  /** What `Strip` keeps is the infix of `s` at `StripOffset(s)`. */
  lemma {:induction false} StripInfix(s: string)
    decreases |s|
    ensures forall k :: 0 <= k < |Strip(s)| ==> s[StripOffset(s) + k] == Strip(s)[k]
  {
    if s != [] && IsSpace(s[0]) {
      StripInfix(s[1..]);
    } else if s != [] && IsSpace(s[|s| - 1]) {
      StripInfix(s[..|s| - 1]);
    }
  }

  /** Only whitespace comes before the kept infix. */
  lemma {:induction false} StripLeading(s: string)
    decreases |s|
    ensures forall k :: 0 <= k < StripOffset(s) ==> IsSpace(s[k])
  {
    if s != [] && IsSpace(s[0]) {
      StripLeading(s[1..]);
    } else if s != [] && IsSpace(s[|s| - 1]) {
      StripLeading(s[..|s| - 1]);
    }
  }

  /** Only whitespace comes after the kept infix. */
  lemma {:induction false} StripTrailing(s: string)
    decreases |s|
    ensures forall k :: StripOffset(s) + |Strip(s)| <= k < |s| ==> IsSpace(s[k])
  {
    if s != [] && IsSpace(s[0]) {
      StripTrailing(s[1..]);
    } else if s != [] && IsSpace(s[|s| - 1]) {
      StripTrailing(s[..|s| - 1]);
    }
  }

  /** A string is all whitespace exactly when stripping it leaves nothing. */
  lemma {:induction false} StripEmptyIffBlank(s: string)
    ensures Strip(s) == [] <==> AllSpace(s)
  {
    StripLeading(s);
    StripTrailing(s);
    if Strip(s) != [] {
      StripInfix(s);
      assert s[StripOffset(s)] == Strip(s)[0];
    }
  }

  /** Stripping is determined by the decomposition: whitespace, a trimmed
      core, whitespace. */
  lemma {:induction false} StripUnique(a: string, t: string, b: string)
    requires AllSpace(a) && AllSpace(b) && IsTrimmed(t)
    decreases |a| + |b|
    ensures Strip(a + t + b) == t
  {
    var s := a + t + b;
    if a != [] {
      assert s[0] == a[0];
      assert s[1..] == a[1..] + t + b;
      StripUnique(a[1..], t, b);
    } else if b != [] {
      assert s[|s| - 1] == b[|b| - 1];
      if t == [] {
        assert s == b;
        assert s[1..] == [] + [] + b[1..];
        StripUnique([], [], b[1..]);
      } else {
        assert s[0] == t[0];
        assert s[..|s| - 1] == [] + t + b[..|b| - 1];
        StripUnique([], t, b[..|b| - 1]);
      }
    } else {
      assert s == t;
    }
  }

  /** What is already trimmed is left unchanged, so stripping is idempotent. */
  lemma StripTrimmed(s: string)
    requires IsTrimmed(s)
    ensures Strip(s) == s
  {
    StripUnique([], s, []);
    assert [] + s + [] == s;
  }

  // ---------------------------------------------------------------------------
  // str.split('\n') and the offsets of the lines it produces
  // ---------------------------------------------------------------------------

  predicate NoNewline(s: string)
  {
    forall k :: 0 <= k < |s| ==> s[k] != '\n'
  }

  /** `'\n'.join(ls)`, the inverse of `Lines`. */
  function JoinLines(ls: seq<string>): string
    requires |ls| >= 1
  {
    if |ls| == 1 then ls[0] else ls[0] + "\n" + JoinLines(ls[1..])
  }

  /** Python's `s.split('\n')`: at least one piece, none holding a newline. */
  function Lines(s: string): (ls: seq<string>)
    ensures |ls| >= 1
    ensures forall k :: 0 <= k < |ls| ==> NoNewline(ls[k])
  {
    if s == [] then
      [[]]
    else
      var rest := Lines(s[1..]);
      if s[0] == '\n' then [[]] + rest
      else [[s[0]] + rest[0]] + rest[1..]
  }

  /** Joining the pieces with newlines gives back `s`. */
  lemma {:induction false} JoinOfLines(s: string)
    ensures JoinLines(Lines(s)) == s
  {
    if s != [] {
      var rest := Lines(s[1..]);
      JoinOfLines(s[1..]);
      if s[0] == '\n' {
        assert ([[]] + rest)[1..] == rest;
      } else {
        var ls := [[s[0]] + rest[0]] + rest[1..];
        if |rest| > 1 { assert ls[1..] == rest[1..]; }
        assert JoinLines(ls) == [s[0]] + JoinLines(rest);
        assert [s[0]] + s[1..] == s;
      }
    }
  }

  lemma {:induction false} LinesOfLine(a: string)
    requires NoNewline(a)
    ensures Lines(a) == [a]
  {
    if a != [] {
      LinesOfLine(a[1..]);
      assert [a[0]] + a[1..] == a;
    }
  }

  lemma {:induction false} LinesOfLineThenRest(a: string, b: string)
    requires NoNewline(a)
    ensures Lines(a + "\n" + b) == [a] + Lines(b)
  {
    var s := a + "\n" + b;
    if a == [] {
      assert s[1..] == b;
    } else {
      assert s[1..] == a[1..] + "\n" + b;
      LinesOfLineThenRest(a[1..], b);
      assert [a[0]] + a[1..] == a;
    }
  }

  /** Splitting newline-free lines joined with newlines gives them back. */
  lemma {:induction false} LinesOfJoin(ls: seq<string>)
    requires |ls| >= 1
    requires forall k :: 0 <= k < |ls| ==> NoNewline(ls[k])
    ensures Lines(JoinLines(ls)) == ls
  {
    if |ls| == 1 {
      LinesOfLine(ls[0]);
    } else {
      LinesOfJoin(ls[1..]);
      LinesOfLineThenRest(ls[0], JoinLines(ls[1..]));
    }
  }

  /** The offset of line `i`: the sum of `len(line) + 1` over the lines
      before it, as the source computes it. */
  function LineStart(ls: seq<string>, i: nat): nat
    requires i <= |ls|
  {
    if i == 0 then 0 else LineStart(ls, i - 1) + |ls[i - 1]| + 1
  }

  lemma {:induction false} LineStartShift(ls: seq<string>, i: nat)
    requires 1 <= i <= |ls|
    ensures LineStart(ls, i) == |ls[0]| + 1 + LineStart(ls[1..], i - 1)
  {
    if i > 1 {
      LineStartShift(ls, i - 1);
    }
  }

  /** Line starts strictly increase with the line number. */
  lemma {:induction false} LineStartIncreasing(ls: seq<string>, i: nat, j: nat)
    requires i < j <= |ls|
    ensures LineStart(ls, i) < LineStart(ls, j)
  {
    if i < j - 1 {
      LineStartIncreasing(ls, i, j - 1);
    }
  }

  lemma {:induction false} JoinFrom(ls: seq<string>, i: nat)
    requires i < |ls|
    ensures LineStart(ls, i) <= |JoinLines(ls)|
    ensures JoinLines(ls)[LineStart(ls, i)..] == JoinLines(ls[i..])
    ensures i > 0 ==> JoinLines(ls)[LineStart(ls, i) - 1] == '\n'
  {
    if i > 0 {
      LineStartShift(ls, i);
      JoinFrom(ls[1..], i - 1);
      assert ls[1..][i - 1..] == ls[i..];
      var tail := JoinLines(ls[1..]);
      assert JoinLines(ls) == ls[0] + "\n" + tail;
      var p := LineStart(ls[1..], i - 1);
      assert JoinLines(ls)[|ls[0]| + 1 + p..] == tail[p..];
      if i > 1 {
        assert JoinLines(ls)[|ls[0]| + 1 + p - 1] == tail[p - 1];
      }
    }
  }

  lemma JoinStartsWithFirst(ls: seq<string>)
    requires |ls| >= 1
    ensures |ls[0]| <= |JoinLines(ls)| && JoinLines(ls)[..|ls[0]|] == ls[0]
  {
    if |ls| > 1 {
      assert JoinLines(ls) == ls[0] + ("\n" + JoinLines(ls[1..]));
    }
  }

  /** Line `i` of any text the lines join back to sits at its `LineStart`. */
  lemma LineOfJoin(text: string, ls: seq<string>, i: nat)
    requires i < |ls| && JoinLines(ls) == text
    ensures var p := LineStart(ls, i);
      && p + |ls[i]| <= |text|
      && text[p..][..|ls[i]|] == ls[i]
      && text[p..] == JoinLines(ls[i..])
      && (p > 0 <==> i > 0)
      && (i > 0 ==> text[p - 1] == '\n')
  {
    JoinFrom(ls, i);
    JoinStartsWithFirst(ls[i..]);
    if i > 0 {
      LineStartIncreasing(ls, 0, i);
    }
  }

  /** Line `i` of `text` sits at its `LineStart`: the text from there on is
      that line followed by the rest, and a positive start follows a newline. */
  lemma LineAt(text: string, i: nat)
    requires i < |Lines(text)|
    ensures LineStart(Lines(text), i) + |Lines(text)[i]| <= |text|
    ensures text[LineStart(Lines(text), i)..][..|Lines(text)[i]|] == Lines(text)[i]
    ensures text[LineStart(Lines(text), i)..] == JoinLines(Lines(text)[i..])
    ensures LineStart(Lines(text), i) > 0 <==> i > 0
    ensures i > 0 ==> text[LineStart(Lines(text), i) - 1] == '\n'
  {
    JoinOfLines(text);
    LineOfJoin(text, Lines(text), i);
  }

  /** A line's offset lies within the text. */
  lemma LineStartWithin(text: string, i: nat)
    requires i < |Lines(text)|
    ensures LineStart(Lines(text), i) <= |text|
  {
    LineAt(text, i);
  }

  // ---------------------------------------------------------------------------
  // sep.join(parts)
  // ---------------------------------------------------------------------------

  /** Python's `sep.join(parts)`. */
  function JoinWith(sep: string, parts: seq<string>): string
  {
    if parts == [] then []
    else if |parts| == 1 then parts[0]
    else parts[0] + sep + JoinWith(sep, parts[1..])
  }

  // ---------------------------------------------------------------------------
  // Case-insensitive literal search
  // ---------------------------------------------------------------------------

  /** Case folding for `re.IGNORECASE`, on ASCII letters. */
  function Lower(c: char): char
  {
    if 'A' <= c <= 'Z' then (c as int + 32) as char else c
  }

  /** `m` occurs in `text` at offset `i`, ignoring case. */
  predicate OccursAt(text: string, m: string, i: nat)
  {
    i + |m| <= |text| && forall k :: 0 <= k < |m| ==> Lower(text[i + k]) == Lower(m[k])
  }

  function FindFrom(text: string, m: string, i: nat): (r: Option<nat>)
    decreases |text| - i
    ensures r.Some? ==> i <= r.value && OccursAt(text, m, r.value)
    ensures r.Some? ==> forall j: nat :: i <= j < r.value ==> !OccursAt(text, m, j)
    ensures r.None? ==> forall j: nat :: i <= j ==> !OccursAt(text, m, j)
  {
    if i + |m| > |text| then None
    else if OccursAt(text, m, i) then Some(i)
    else FindFrom(text, m, i + 1)
  }

  /** The first case-insensitive occurrence of `m` in `text`, if any. */
  function FindIgnoreCase(text: string, m: string): (r: Option<nat>)
    ensures r.Some? ==> r.value + |m| <= |text| && OccursAt(text, m, r.value)
    ensures r.Some? ==> forall j: nat :: j < r.value ==> !OccursAt(text, m, j)
    ensures r.None? ==> forall j: nat :: !OccursAt(text, m, j)
  {
    FindFrom(text, m, 0)
  }

  /** A first occurrence at or after `from` is what the search returns. */
  lemma {:induction false} FindFromIs(text: string, m: string, from: nat, p: nat)
    requires from <= p && OccursAt(text, m, p)
    requires forall j: nat :: from <= j < p ==> !OccursAt(text, m, j)
    decreases p - from
    ensures FindFrom(text, m, from) == Some(p)
  {
    if from < p {
      assert !OccursAt(text, m, from);
      FindFromIs(text, m, from + 1, p);
    }
  }

  /** The first occurrence of `m` in `text` is what the search returns. */
  lemma FindIs(text: string, m: string, p: nat)
    requires OccursAt(text, m, p)
    requires forall j: nat :: j < p ==> !OccursAt(text, m, j)
    ensures FindIgnoreCase(text, m) == Some(p)
  {
    FindFromIs(text, m, 0, p);
  }
}

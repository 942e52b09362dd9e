/**
 * Text made safe for the PDF generator's paragraph markup
 * (`PDFGenerator._sanitize_text`). The markup reads `&`, `<` and `>` as the
 * start of entities and tags, so those three are escaped, one replacement
 * pass each; control characters other than newline and tab are then
 * dropped, and surrounding whitespace is stripped.
 *
 * The three passes are related to a per-character escape, `EscapeEach`,
 * and the whole sanitiser to "escape the stripped, control-free text", from
 * which the safety properties and the round trip through `Unescape` follow.
 */
module PdfText {
  import opened TextUtil

  // ---------------------------------------------------------------------------
  // The sanitiser as the generator writes it
  // ---------------------------------------------------------------------------

  /** Python's `s.replace(c, rep)` for a one-character pattern. */
  function Replace(s: string, c: char, rep: string): (r: string)
    ensures c !in rep ==> c !in r
    ensures forall d :: d in r ==> d in s || d in rep
  {
    if s == [] then [] else (if s[0] == c then rep else [s[0]]) + Replace(s[1..], c, rep)
  }

  /** The three replacements, in the order the generator makes them:
      `&` first, so the `&` of the later entities is not escaped again. */
  function Escape(s: string): (r: string)
    ensures '<' !in r && '>' !in r
  {
    Replace(Replace(Replace(s, '&', "&amp;"), '<', "&lt;"), '>', "&gt;")
  }

  /** A character the control-character filter keeps: code 32 and above,
      newline and tab. */
  predicate Kept(c: char)
  {
    c as int >= 32 || c == '\n' || c == '\t'
  }

  predicate AllKept(s: string)
  {
    forall k :: 0 <= k < |s| ==> Kept(s[k])
  }

  /** `''.join(ch for ch in s if Kept(ch))`. */
  function DropControls(s: string): (r: string)
    ensures AllKept(r) && |r| <= |s|
  {
    if s == [] then [] else (if Kept(s[0]) then [s[0]] else []) + DropControls(s[1..])
  }

  /** `_sanitize_text`: escape, drop control characters, strip. No angle
      bracket and no dropped control character is left, and the result is
      stripped. */
  function Sanitize(text: string): (r: string)
    ensures '<' !in r && '>' !in r
    ensures AllKept(r) && IsTrimmed(r)
  {
    var d := DropControls(Escape(text));
    StripAllKept(d);
    DropControlsSubset(Escape(text));
    StripSubset(d);
    Strip(d)
  }

  // ---------------------------------------------------------------------------
  // Reference definitions: per-character escape and its inverse
  // ---------------------------------------------------------------------------

  function EscapeChar(c: char): string
  {
    if c == '&' then "&amp;" else if c == '<' then "&lt;" else if c == '>' then "&gt;" else [c]
  }

  function EscapeEach(s: string): string
  {
    if s == [] then [] else EscapeChar(s[0]) + EscapeEach(s[1..])
  }

  /** Decodes the three entities left to right; anything else is copied. */
  function Unescape(s: string): string
    decreases |s|
  {
    if s == [] then []
    else if "&amp;" <= s then "&" + Unescape(s[5..])
    else if "&lt;" <= s then "<" + Unescape(s[4..])
    else if "&gt;" <= s then ">" + Unescape(s[4..])
    else [s[0]] + Unescape(s[1..])
  }

  /** None of the three characters the escape rewrites. */
  predicate Plain(s: string)
  {
    forall k :: 0 <= k < |s| ==> s[k] != '&' && s[k] != '<' && s[k] != '>'
  }

  predicate NoAngles(s: string)
  {
    forall k :: 0 <= k < |s| ==> s[k] != '<' && s[k] != '>'
  }

  /** Every `&` begins one of the three entities the escape produces. */
  predicate AmpsEscaped(s: string)
  {
    forall k :: 0 <= k < |s| && s[k] == '&' ==>
      "&amp;" <= s[k..] || "&lt;" <= s[k..] || "&gt;" <= s[k..]
  }

  // ---------------------------------------------------------------------------
  // The three passes are the per-character escape
  // ---------------------------------------------------------------------------

  lemma {:induction false} ReplaceAppend(a: string, b: string, c: char, rep: string)
    ensures Replace(a + b, c, rep) == Replace(a, c, rep) + Replace(b, c, rep)
  {
    if a != [] {
      assert (a + b)[0] == a[0] && (a + b)[1..] == a[1..] + b;
      ReplaceAppend(a[1..], b, c, rep);
      var h := if a[0] == c then rep else [a[0]];
      assert Replace(a + b, c, rep) == h + (Replace(a[1..], c, rep) + Replace(b, c, rep));
    } else {
      assert a + b == b;
    }
  }

  lemma EscapeAppend(a: string, b: string)
    ensures Escape(a + b) == Escape(a) + Escape(b)
  {
    var a1, b1 := Replace(a, '&', "&amp;"), Replace(b, '&', "&amp;");
    ReplaceAppend(a, b, '&', "&amp;");
    var a2, b2 := Replace(a1, '<', "&lt;"), Replace(b1, '<', "&lt;");
    ReplaceAppend(a1, b1, '<', "&lt;");
    ReplaceAppend(a2, b2, '>', "&gt;");
  }

  /** A string none of whose characters is `c` is left alone by the pass. */
  lemma {:induction false} ReplaceAbsent(s: string, c: char, rep: string)
    requires c !in s
    ensures Replace(s, c, rep) == s
  {
    if s != [] {
      assert s[0] in s;
      assert c !in s[1..] by { forall k | 0 <= k < |s[1..]| ensures s[1..][k] != c { assert s[1..][k] == s[k + 1]; } }
      ReplaceAbsent(s[1..], c, rep);
    }
  }

  lemma ReplaceSingle(x: char, c: char, rep: string)
    ensures Replace([x], c, rep) == if x == c then rep else [x]
  {
    assert [x][1..] == [];
  }

  lemma EscapeOneChar(c: char)
    ensures Escape([c]) == EscapeChar(c)
  {
    ReplaceSingle(c, '&', "&amp;");
    if c == '&' {
      ReplaceAbsent("&amp;", '<', "&lt;");
      ReplaceAbsent("&amp;", '>', "&gt;");
    } else {
      ReplaceSingle(c, '<', "&lt;");
      if c == '<' {
        ReplaceAbsent("&lt;", '>', "&gt;");
      } else {
        ReplaceSingle(c, '>', "&gt;");
      }
    }
  }

  /** The generator's three sequential passes escape each character on its
      own: an `&` produced by a later pass is never rewritten. */
  lemma {:induction false} EscapeIsPerCharacter(s: string)
    ensures Escape(s) == EscapeEach(s)
  {
    if s != [] {
      assert s == [s[0]] + s[1..];
      EscapeAppend([s[0]], s[1..]);
      EscapeOneChar(s[0]);
      EscapeIsPerCharacter(s[1..]);
    }
  }

  lemma {:induction false} EscapeEachAppend(a: string, b: string)
    ensures EscapeEach(a + b) == EscapeEach(a) + EscapeEach(b)
  {
    if a != [] {
      assert (a + b)[0] == a[0] && (a + b)[1..] == a[1..] + b;
      EscapeEachAppend(a[1..], b);
      assert EscapeEach(a + b) == EscapeChar(a[0]) + (EscapeEach(a[1..]) + EscapeEach(b));
    } else {
      assert a + b == b;
    }
  }

  lemma {:induction false} EscapeEachPlain(s: string)
    requires Plain(s)
    ensures EscapeEach(s) == s
  {
    if s != [] {
      EscapeEachPlain(s[1..]);
    }
  }

  // ---------------------------------------------------------------------------
  // What the escape guarantees
  // ---------------------------------------------------------------------------

  lemma SafeAppend(a: string, b: string)
    ensures NoAngles(a) && NoAngles(b) ==> NoAngles(a + b)
    ensures AmpsEscaped(a) && AmpsEscaped(b) ==> AmpsEscaped(a + b)
    ensures AllKept(a) && AllKept(b) ==> AllKept(a + b)
  {
    var s := a + b;
    if AmpsEscaped(a) && AmpsEscaped(b) {
      forall k | 0 <= k < |s| && s[k] == '&'
        ensures "&amp;" <= s[k..] || "&lt;" <= s[k..] || "&gt;" <= s[k..]
      {
        if k < |a| {
          assert a[k] == '&';
          assert s[k..] == a[k..] + b;
        } else {
          assert b[k - |a|] == '&';
          assert s[k..] == b[k - |a|..];
        }
      }
    }
  }

  lemma EscapeCharSafe(c: char)
    ensures NoAngles(EscapeChar(c)) && AmpsEscaped(EscapeChar(c))
    ensures Kept(c) ==> AllKept(EscapeChar(c))
  {
    var e := EscapeChar(c);
    if c == '&' || c == '<' || c == '>' {
      assert e[0] == '&' && e[0..] == e;
      forall k | 1 <= k < |e| ensures e[k] != '&' { }
    }
  }

  /** The escaped text has no angle brackets, every `&` starts an entity,
      and it adds no control character. */
  lemma {:induction false} EscapeEachSafe(s: string)
    ensures NoAngles(EscapeEach(s)) && AmpsEscaped(EscapeEach(s))
    ensures AllKept(s) ==> AllKept(EscapeEach(s))
  {
    if s != [] {
      EscapeCharSafe(s[0]);
      EscapeEachSafe(s[1..]);
      SafeAppend(EscapeChar(s[0]), EscapeEach(s[1..]));
    }
  }

  lemma EscapeCharUnescape(c: char, rest: string)
    ensures Unescape(EscapeChar(c) + rest) == [c] + Unescape(rest)
  {
    var s := EscapeChar(c) + rest;
    if c == '&' {
      assert "&amp;" <= s && s[5..] == rest;
    } else if c == '<' {
      assert !("&amp;" <= s) by { assert s[1] == 'l'; }
      assert "&lt;" <= s && s[4..] == rest;
    } else if c == '>' {
      assert !("&amp;" <= s) by { assert s[1] == 'g'; }
      assert !("&lt;" <= s) by { assert s[1] == 'g'; }
      assert "&gt;" <= s && s[4..] == rest;
    } else {
      assert s[0] == c && s[1..] == rest;
    }
  }

  /** The escape loses nothing: decoding it gives the text back. */
  lemma {:induction false} UnescapeEscape(s: string)
    ensures Unescape(EscapeEach(s)) == s
  {
    if s != [] {
      EscapeCharUnescape(s[0], EscapeEach(s[1..]));
      UnescapeEscape(s[1..]);
      assert s == [s[0]] + s[1..];
    }
  }

  // ---------------------------------------------------------------------------
  // The filter and the strip commute with the escape
  // ---------------------------------------------------------------------------

  lemma {:induction false} DropControlsAppend(a: string, b: string)
    ensures DropControls(a + b) == DropControls(a) + DropControls(b)
  {
    if a != [] {
      assert (a + b)[0] == a[0] && (a + b)[1..] == a[1..] + b;
      DropControlsAppend(a[1..], b);
      var h := if Kept(a[0]) then [a[0]] else [];
      assert DropControls(a + b) == h + (DropControls(a[1..]) + DropControls(b));
    } else {
      assert a + b == b;
    }
  }

  /** The filter keeps every kept character as often as it occurs, and
      nothing else. */
  lemma {:induction false} DropControlsKeepsKept(s: string)
    ensures forall c :: Kept(c) ==> multiset(DropControls(s))[c] == multiset(s)[c]
  {
    if s != [] {
      assert s == [s[0]] + s[1..];
      DropControlsKeepsKept(s[1..]);
    }
  }

  lemma {:induction false} DropControlsAllKept(s: string)
    requires AllKept(s)
    ensures DropControls(s) == s
  {
    if s != [] {
      DropControlsAllKept(s[1..]);
    }
  }

  lemma DropControlsEscapeChar(c: char)
    ensures DropControls(EscapeChar(c)) == EscapeEach(DropControls([c]))
  {
    assert [c][1..] == [];
    if Kept(c) {
      EscapeCharSafe(c);
      DropControlsAllKept(EscapeChar(c));
      assert DropControls([c]) == [c];
    } else {
      assert DropControls([c]) == [];
    }
  }

  /** Escaping only writes kept characters and rewrites only kept ones, so
      filtering before or after escaping gives the same text. */
  lemma {:induction false} DropControlsEscapeCommute(s: string)
    ensures DropControls(EscapeEach(s)) == EscapeEach(DropControls(s))
  {
    if s != [] {
      var c := s[0];
      assert s == [c] + s[1..];
      DropControlsAppend(EscapeChar(c), EscapeEach(s[1..]));
      DropControlsEscapeChar(c);
      DropControlsEscapeCommute(s[1..]);
      DropControlsAppend([c], s[1..]);
      EscapeEachAppend(DropControls([c]), DropControls(s[1..]));
    }
  }

  /** The escape of a character begins with it or with `&`, and ends with
      it or with `;`. */
  lemma EscapeCharEnds(c: char)
    ensures |EscapeChar(c)| > 0
    ensures EscapeChar(c)[0] == c || EscapeChar(c)[0] == '&'
    ensures EscapeChar(c)[|EscapeChar(c)| - 1] == c || EscapeChar(c)[|EscapeChar(c)| - 1] == ';'
  {
  }

  lemma EscapeEachTrimmed(t: string)
    requires IsTrimmed(t)
    ensures IsTrimmed(EscapeEach(t))
  {
    if t != [] {
      var n := |t|;
      assert t == t[..n - 1] + [t[n - 1]];
      EscapeEachAppend(t[..n - 1], [t[n - 1]]);
      assert [t[n - 1]][1..] == [];
      var e := EscapeEach(t);
      var first, last := EscapeChar(t[0]), EscapeChar(t[n - 1]);
      EscapeCharEnds(t[0]);
      EscapeCharEnds(t[n - 1]);
      assert e[0] == first[0];
      assert e[|e| - 1] == last[|last| - 1];
      assert !IsSpace('&') && !IsSpace(';');
    }
  }

  lemma AllSpacePlain(s: string)
    requires AllSpace(s)
    ensures Plain(s)
  {
  }

  /** Whitespace is never escaped and an escaped trimmed text is trimmed,
      so stripping before or after escaping gives the same text. */
  lemma StripEscapeCommute(y: string)
    ensures Strip(EscapeEach(y)) == EscapeEach(Strip(y))
  {
    var o, n := StripOffset(y), |Strip(y)|;
    StripInfix(y);
    StripLeading(y);
    StripTrailing(y);
    var a, t, b := y[..o], y[o..o + n], y[o + n..];
    assert t == Strip(y);
    assert y == a + t + b;
    assert AllSpace(a) && AllSpace(b);
    AllSpacePlain(a);
    AllSpacePlain(b);
    EscapeEachAppend(a + t, b);
    EscapeEachAppend(a, t);
    EscapeEachPlain(a);
    EscapeEachPlain(b);
    EscapeEachTrimmed(t);
    StripUnique(a, EscapeEach(t), b);
  }

  // ---------------------------------------------------------------------------
  // What the sanitiser promises
  // ---------------------------------------------------------------------------

  /** The sanitised text is the escape of the stripped, control-free text. */
  lemma SanitizeIsEscapedStrip(text: string)
    ensures Sanitize(text) == EscapeEach(Strip(DropControls(text)))
  {
    EscapeIsPerCharacter(text);
    DropControlsEscapeCommute(text);
    StripEscapeCommute(DropControls(text));
  }

  /** The filter adds no character. */
  lemma {:induction false} DropControlsSubset(s: string)
    ensures forall c :: c in DropControls(s) ==> c in s
  {
    if s != [] {
      DropControlsSubset(s[1..]);
    }
  }

  /** Stripping adds no character. */
  lemma StripSubset(s: string)
    ensures forall c :: c in Strip(s) ==> c in s
  {
    StripInfix(s);
    forall c | c in Strip(s) ensures c in s {
      var k :| 0 <= k < |Strip(s)| && Strip(s)[k] == c;
      assert s[StripOffset(s) + k] == c;
    }
  }

  /** Stripping keeps a text free of dropped characters. */
  lemma StripAllKept(s: string)
    requires AllKept(s)
    ensures AllKept(Strip(s))
  {
    StripInfix(s);
    forall k | 0 <= k < |Strip(s)| ensures Kept(Strip(s)[k]) {
      assert Strip(s)[k] == s[StripOffset(s) + k];
    }
  }

  /** No `<` or `>` survives; every `&` begins `&amp;`, `&lt;` or `&gt;`;
      no character below code 32 other than newline and tab survives; and
      there is no leading or trailing whitespace. */
  lemma SanitizeSafe(text: string)
    ensures NoAngles(Sanitize(text))
    ensures AmpsEscaped(Sanitize(text))
    ensures AllKept(Sanitize(text))
    ensures IsTrimmed(Sanitize(text))
  {
    var d := DropControls(text);
    SanitizeIsEscapedStrip(text);
    StripAllKept(d);
    EscapeEachSafe(Strip(d));
  }

  /** Decoding the entities of the sanitised text gives exactly the input
      with control characters dropped and whitespace stripped. */
  lemma SanitizeRoundTrip(text: string)
    ensures Unescape(Sanitize(text)) == Strip(DropControls(text))
  {
    SanitizeIsEscapedStrip(text);
    UnescapeEscape(Strip(DropControls(text)));
  }

  /** Text with nothing to escape, no control characters and no surrounding
      whitespace comes back unchanged. */
  lemma CleanTextUnchanged(text: string)
    requires Plain(text) && AllKept(text) && IsTrimmed(text)
    ensures Sanitize(text) == text
  {
    SanitizeIsEscapedStrip(text);
    DropControlsAllKept(text);
    StripTrimmed(text);
    EscapeEachPlain(text);
  }

  /** Text with only kept characters and no surrounding whitespace is just
      escaped. */
  lemma SanitizeKeptTrimmed(text: string)
    requires AllKept(text) && IsTrimmed(text)
    ensures Sanitize(text) == EscapeEach(text)
  {
    SanitizeIsEscapedStrip(text);
    DropControlsAllKept(text);
    StripTrimmed(text);
  }

  /** Escaping around one character: the parts on either side are escaped
      on their own. */
  lemma EscapeEachAround(x: string, ch: char, y: string)
    ensures EscapeEach(x + [ch] + y) == EscapeEach(x) + EscapeChar(ch) + EscapeEach(y)
  {
    EscapeEachAppend(x + [ch], y);
    EscapeEachAppend(x, [ch]);
    assert [ch][1..] == [];
  }

  lemma EscapeEachShape(a: string, b: string, c: string)
    requires Plain(a) && Plain(b) && Plain(c)
    ensures EscapeEach(a + "<" + b + ">" + " " + "&" + c)
         == a + "&lt;" + b + "&gt;" + " " + "&amp;" + c
  {
    var w := a + "<" + b;
    var x := w + ">" + " ";
    EscapeEachAround(x, '&', c);
    EscapeEachAround(w, '>', " ");
    EscapeEachAround(a, '<', b);
    EscapeEachPlain(a);
    EscapeEachPlain(b);
    EscapeEachPlain(c);
    assert EscapeEach(" ") == " " by { assert " "[1..] == []; }
  }

  /** The shape of "Text with <tags> & special chars": each of the three
      characters is escaped once, in place, and the rest is kept. */
  lemma SanitizeEscapesInPlace(a: string, b: string, c: string)
    requires Plain(a) && Plain(b) && Plain(c)
    requires AllKept(a) && AllKept(b) && AllKept(c)
    requires a != [] && !IsSpace(a[0]) && c != [] && !IsSpace(c[|c| - 1])
    ensures Sanitize(a + "<" + b + ">" + " " + "&" + c)
         == a + "&lt;" + b + "&gt;" + " " + "&amp;" + c
  {
    var x := a + "<" + b + ">" + " ";
    var text := x + "&" + c;
    assert AllKept(text) by {
      forall k | 0 <= k < |text| ensures Kept(text[k]) {
        if k < |a| { assert text[k] == a[k]; }
        else if |a| < k < |a| + 1 + |b| { assert text[k] == b[k - |a| - 1]; }
        else if k >= |x| + 1 { assert text[k] == c[k - |x| - 1]; }
      }
    }
    assert text[0] == a[0] && text[|text| - 1] == c[|c| - 1];
    SanitizeKeptTrimmed(text);
    EscapeEachShape(a, b, c);
  }

  /** Escaping never shortens a text, and lengthens every text that has
      something to escape. */
  lemma {:induction false} EscapeEachLength(x: string)
    ensures |EscapeEach(x)| >= |x|
    ensures !Plain(x) ==> |EscapeEach(x)| > |x|
  {
    if x != [] {
      EscapeEachLength(x[1..]);
      if !Plain(x) && Plain(x[1..]) {
        assert x[0] == '&' || x[0] == '<' || x[0] == '>' by {
          var k :| 0 <= k < |x| && (x[k] == '&' || x[k] == '<' || x[k] == '>');
          if k > 0 { assert x[1..][k - 1] == x[k]; }
        }
      }
    }
  }

  /** Sanitising twice gives the same text exactly when the first result has
      nothing left to escape; otherwise its entities are escaped again. */
  lemma SanitizeIdempotentIff(text: string)
    ensures Sanitize(Sanitize(text)) == EscapeEach(Sanitize(text))
    ensures Sanitize(Sanitize(text)) == Sanitize(text) <==> Plain(Sanitize(text))
  {
    var once := Sanitize(text);
    SanitizeSafe(text);
    SanitizeKeptTrimmed(once);
    EscapeEachLength(once);
    if Plain(once) {
      EscapeEachPlain(once);
    }
  }
}

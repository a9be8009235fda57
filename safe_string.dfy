/**
 * `isSafeString` (`src/lib/security.ts`): a value is safe when it is a
 * string that none of six case-insensitive patterns matches: a script
 * block, `javascript:`, an `on…=` handler assignment, and the openings of
 * `iframe`, `object` and `embed` tags.
 */
module SafeString {
  import opened JsText
  import opened JsonTree
  import InputSanitizer

  /** `<script`, lower case. */
  const SCRIPT_OPEN: JsString := [0x3C, 0x73, 0x63, 0x72, 0x69, 0x70, 0x74]
  /** `</script>`, lower case. */
  const SCRIPT_CLOSE: JsString := [0x3C, 0x2F, 0x73, 0x63, 0x72, 0x69, 0x70, 0x74, 0x3E]
  /** `<iframe`. */
  const IFRAME_OPEN: JsString := [0x3C, 0x69, 0x66, 0x72, 0x61, 0x6D, 0x65]
  /** `<object`. */
  const OBJECT_OPEN: JsString := [0x3C, 0x6F, 0x62, 0x6A, 0x65, 0x63, 0x74]
  /** `<embed`. */
  const EMBED_OPEN: JsString := [0x3C, 0x65, 0x6D, 0x62, 0x65, 0x64]
  const COLON: CodeUnit := 0x3A

  /** `\b` right after a word character: the end of the text or a non-word unit. */
  predicate WordEndsAt(s: JsString, n: int)
    requires 0 <= n <= |s|
  {
    n == |s| || !IsWordChar(s[n])
  }

  /**
   * The script-block expression matches from `i` to a closing tag at `j`:
   * `<script` at `i` ending on a word boundary, and `</script>` at some
   * `j` at or after the end of the opening. The middle part of the
   * expression accepts any text in which no `<` begins `</script>`, so the
   * expression finds a match exactly when such a pair exists (the first
   * closing tag after the opening is one).
   */
  predicate ScriptBlockAt(s: JsString, i: int, j: int)
  {
    MatchesAt(s, i, SCRIPT_OPEN) && WordEndsAt(s, i + |SCRIPT_OPEN|)
    && i + |SCRIPT_OPEN| <= j && MatchesAt(s, j, SCRIPT_CLOSE)
  }

  /**
   * `on\w+\s*=` matches at `i`: `on`, a non-empty run of word characters,
   * a run of whitespace, then `=`. The greedy runs never need to give back
   * a unit, since neither class contains the unit that ends the other.
   */
  predicate HandlerAt(s: JsString, i: int)
  {
    0 <= i && MatchesAt(s, i, ON) && WordRun(s[i + 2..]) >= 1
    && var t := AfterName(s, i) + SpaceRun(s[AfterName(s, i)..]);
    t < |s| && s[t] == EQUALS
  }

  /** Where the run of word characters after an `on` at `i` ends. */
  function AfterName(s: JsString, i: int): (n: int)
    requires 0 <= i && i + 2 <= |s|
    ensures i + 2 <= n <= |s|
  {
    i + 2 + WordRun(s[i + 2..])
  }

  /** The six expressions, in the order they are tried. */
  datatype Danger = ScriptBlock | Text(pat: JsString) | HandlerAssign

  const DANGEROUS_PATTERNS: seq<Danger> :=
    [ScriptBlock, Text(JAVASCRIPT), HandlerAssign, Text(IFRAME_OPEN), Text(OBJECT_OPEN), Text(EMBED_OPEN)]

  /**
   * `pattern.test(value)`: whether the expression matches anywhere in `s`. A
   * match needs at least the expression's shortest text: sixteen units for a
   * script block, the literal for a fixed text, four units for a handler.
   */
  predicate Test(p: Danger, s: JsString): (r: bool)
    ensures r && p.ScriptBlock? ==> |s| >= |SCRIPT_OPEN| + |SCRIPT_CLOSE|
    ensures r && p.Text? ==> |s| >= |p.pat|
    ensures r && p.HandlerAssign? ==> |s| >= 4
  {
    match p
    case ScriptBlock => exists i, j :: 0 <= i <= j < |s| && ScriptBlockAt(s, i, j)
    case Text(pat) => ContainsAt(s, pat)
    case HandlerAssign => exists i :: 0 <= i < |s| && HandlerAt(s, i)
  }

  /** `dangerousPatterns.some(pattern => pattern.test(value))`. */
  function AnyMatches(patterns: seq<Danger>, s: JsString): (r: bool)
    ensures r <==> exists k :: 0 <= k < |patterns| && Test(patterns[k], s)
  {
    if patterns == [] then false
    else Test(patterns[0], s) || AnyMatches(patterns[1..], s)
  }

  /**
   * `isSafeString`: false for anything that is not a string, otherwise
   * true exactly when no dangerous expression matches.
   */
  function IsSafeString(value: Json): (r: bool)
    ensures !value.JString? ==> !r
    ensures r <==> value.JString? && forall k :: 0 <= k < |DANGEROUS_PATTERNS| ==> !Test(DANGEROUS_PATTERNS[k], value.s)
  {
    value.JString? && !AnyMatches(DANGEROUS_PATTERNS, value.s)
  }

  /** A case-insensitive match of a pattern that starts with `u` starts with `u` itself, unless `u` is a lower-case letter. */
  lemma FoldedNonLetter(u: CodeUnit, c: CodeUnit)
    requires !(0x61 <= c <= 0x7A) && Fold(u) == c
    ensures u == c
  {
  }

  /** A match found in `s` is found at the shifted place in any text that contains `s`. */
  lemma MatchesInContext(a: JsString, s: JsString, b: JsString, i: int, pat: JsString)
    requires MatchesAt(s, i, pat)
    ensures MatchesAt(a + s + b, |a| + i, pat)
  {
    var t := a + s + b;
    forall k | 0 <= k < |pat|
      ensures Fold(t[|a| + i + k]) == pat[k]
    {
      assert t[|a| + i + k] == s[i + k];
    }
  }

  lemma ConcatEmbeds(a: JsString, s: JsString, b: JsString)
    ensures Embedded(a + s + b, |a|, s)
  {
    var t := a + s + b;
    assert t[|a|..|a| + |s|] == s;
  }

  /** `s` occurs in `t` at offset `o`. */
  predicate Embedded(t: JsString, o: int, s: JsString)
  {
    0 <= o && o + |s| <= |t| && t[o..o + |s|] == s
  }

  /** A handler assignment in `s` stays one, shifted by `o`, in any text `t` where `s` occurs at `o`. */
  lemma HandlerAtOffset(t: JsString, o: int, s: JsString, i: int, j: int)
    requires Embedded(t, o, s) && HandlerAt(s, i) && j == o + i
    ensures HandlerAt(t, j)
  {
    var e, sp := PartsAtOffset(t, o, s, i, j);
    HandlerFromParts(t, j, e, sp);
  }

  /** The parts of a handler assignment in `s`, found again at the shifted place in `t`. */
  lemma PartsAtOffset(t: JsString, o: int, s: JsString, i: int, j: int) returns (e': int, sp: nat)
    requires Embedded(t, o, s) && HandlerAt(s, i) && j == o + i
    ensures 0 <= j && MatchesAt(t, j, ON) && WordRun(t[j + 2..]) >= 1
    ensures e' == AfterName(t, j) && sp == SpaceRun(t[e'..])
    ensures e' + sp < |t| && t[e' + sp] == EQUALS
  {
    var e;
    e, sp := HandlerParts(s, i);
    e' := o + e;
    MatchAtOffset(t, o, s, i, ON);
    WordRunAtOffset(t, o, s, i + 2, j + 2);
    assert AfterName(t, j) == e';
    SpaceRunAtOffset(t, o, s, e, e');
    assert t[e' + sp] == t[o..o + |s|][e + sp];
  }

  /** The name end `e` and the whitespace run `sp` before the `=` of a handler assignment at `i`. */
  lemma HandlerParts(s: JsString, i: int) returns (e: int, sp: nat)
    requires HandlerAt(s, i)
    ensures MatchesAt(s, i, ON) && 0 <= i && i + 2 <= e && WordRun(s[i + 2..]) >= 1
    ensures e == AfterName(s, i) && sp == SpaceRun(s[e..])
    ensures e + sp < |s| && s[e + sp] == EQUALS
  {
    e := AfterName(s, i);
    sp := SpaceRun(s[e..]);
  }

  lemma HandlerFromParts(t: JsString, j: int, e: int, sp: nat)
    requires 0 <= j && MatchesAt(t, j, ON) && WordRun(t[j + 2..]) >= 1
    requires e == AfterName(t, j) && sp == SpaceRun(t[e..])
    requires e + sp < |t| && t[e + sp] == EQUALS
    ensures HandlerAt(t, j)
  {
  }

  lemma MatchAtOffset(t: JsString, o: int, s: JsString, i: int, pat: JsString)
    requires Embedded(t, o, s) && MatchesAt(s, i, pat)
    ensures MatchesAt(t, o + i, pat)
  {
    forall k | 0 <= k < |pat|
      ensures Fold(t[o + i + k]) == pat[k]
    {
      assert t[o + i + k] == t[o..o + |s|][i + k];
    }
  }

  /** A run of word characters that stops inside `s` is the same run where `s` occurs in `t`. */
  lemma WordRunAtOffset(t: JsString, o: int, s: JsString, x: int, y: int)
    requires Embedded(t, o, s) && y == o + x
    requires 0 <= x <= |s| && x + WordRun(s[x..]) < |s|
    ensures WordRun(t[y..]) == WordRun(s[x..])
  {
    var u, u' := s[x..], t[y..];
    var n := WordRun(u);
    forall k | 0 <= k <= n
      ensures u'[k] == u[k]
    {
      assert u[k] == s[x + k] == t[o..o + |s|][x + k];
    }
    WordRunUnique(u', n);
  }

  /** A run of whitespace that stops inside `s` is the same run where `s` occurs in `t`. */
  lemma SpaceRunAtOffset(t: JsString, o: int, s: JsString, x: int, y: int)
    requires Embedded(t, o, s) && y == o + x
    requires 0 <= x <= |s| && x + SpaceRun(s[x..]) < |s|
    ensures SpaceRun(t[y..]) == SpaceRun(s[x..])
  {
    var u, u' := s[x..], t[y..];
    var n := SpaceRun(u);
    forall k | 0 <= k <= n
      ensures u'[k] == u[k]
    {
      assert u[k] == s[x + k] == t[o..o + |s|][x + k];
    }
    SpaceRunUnique(u', n);
  }

  /** What one expression finds in `s` it finds in every text that contains `s`. */
  lemma TestInContext(p: Danger, a: JsString, s: JsString, b: JsString)
    requires Test(p, s)
    ensures Test(p, a + s + b)
  {
    match p
    case ScriptBlock =>
      var i, j :| 0 <= i <= j < |s| && ScriptBlockAt(s, i, j);
      MatchesInContext(a, s, b, i, SCRIPT_OPEN);
      MatchesInContext(a, s, b, j, SCRIPT_CLOSE);
      var n := i + |SCRIPT_OPEN|;
      assert n < |s|;
      assert (a + s + b)[|a| + n] == s[n];
      assert ScriptBlockAt(a + s + b, |a| + i, |a| + j);
    case Text(pat) =>
      var i :| 0 <= i <= |s| - |pat| && MatchesAt(s, i, pat);
      MatchesInContext(a, s, b, i, pat);
    case HandlerAssign =>
      var i :| 0 <= i < |s| && HandlerAt(s, i);
      ConcatEmbeds(a, s, b);
      HandlerAtOffset(a + s + b, |a|, s, i, |a| + i);
  }

  /**
   * Unsafe text stays unsafe inside longer text, so every piece of a safe
   * string is itself safe.
   */
  lemma SafeStringPieces(a: JsString, s: JsString, b: JsString)
    requires IsSafeString(JString(a + s + b))
    ensures IsSafeString(JString(s))
  {
    forall k | 0 <= k < |DANGEROUS_PATTERNS|
      ensures !Test(DANGEROUS_PATTERNS[k], s)
    {
      if Test(DANGEROUS_PATTERNS[k], s) {
        TestInContext(DANGEROUS_PATTERNS[k], a, s, b);
      }
    }
  }

  /** A string with no `<`, no `:` and no `=` is safe: every expression needs one of them. */
  lemma SafeWithoutMarkers(s: JsString)
    requires forall k :: 0 <= k < |s| ==> s[k] != LT && s[k] != COLON && s[k] != EQUALS
    ensures IsSafeString(JString(s))
  {
    forall i, j | ScriptBlockAt(s, i, j)
      ensures false
    {
      assert Fold(s[i + 0]) == SCRIPT_OPEN[0];
      FoldedNonLetter(s[i], LT);
    }
    forall pat, i | pat in {JAVASCRIPT, IFRAME_OPEN, OBJECT_OPEN, EMBED_OPEN} && MatchesAt(s, i, pat)
      ensures false
    {
      var k := if pat == JAVASCRIPT then 10 else 0;
      assert Fold(s[i + k]) == pat[k];
      FoldedNonLetter(s[i + k], pat[k]);
    }
    forall i | HandlerAt(s, i)
      ensures false
    {
    }
  }

  /** Text with no `<` matches none of the tag expressions. */
  lemma NoTagsWithoutAngle(s: JsString)
    requires forall k :: 0 <= k < |s| ==> s[k] != LT
    ensures !Test(ScriptBlock, s)
    ensures !Test(Text(IFRAME_OPEN), s) && !Test(Text(OBJECT_OPEN), s) && !Test(Text(EMBED_OPEN), s)
  {
    forall i, j | ScriptBlockAt(s, i, j)
      ensures false
    {
      assert Fold(s[i + 0]) == SCRIPT_OPEN[0];
      FoldedNonLetter(s[i], LT);
    }
    forall pat, i | pat in {IFRAME_OPEN, OBJECT_OPEN, EMBED_OPEN} && MatchesAt(s, i, pat)
      ensures false
    {
      assert Fold(s[i + 0]) == pat[0];
      FoldedNonLetter(s[i], LT);
    }
  }

  /** The output of `sanitizeInput` matches none of the tag expressions, whatever DOMPurify returned. */
  lemma SanitizedHasNoTags(input: JsString, purify: JsString -> JsString)
    ensures var r := InputSanitizer.SanitizeInput(input, purify);
      !Test(ScriptBlock, r)
      && !Test(Text(IFRAME_OPEN), r) && !Test(Text(OBJECT_OPEN), r) && !Test(Text(EMBED_OPEN), r)
  {
    NoTagsWithoutAngle(InputSanitizer.SanitizeInput(input, purify));
  }

  /** A `javascript:` match found by the expression is a match of the sanitizer's pattern at the same place. */
  lemma JavascriptMatchAt(r: JsString, i: int)
    requires 0 <= i <= |r| - |JAVASCRIPT| && MatchesAt(r, i, JAVASCRIPT)
    ensures InputSanitizer.MatchLength(InputSanitizer.Literal(JAVASCRIPT), r[i..]) > 0
  {
    var tail := r[i..];
    forall k | 0 <= k < |JAVASCRIPT|
      ensures Fold(tail[k]) == JAVASCRIPT[k]
    {
      assert tail[k] == r[i + k];
    }
  }

  /** Where the sanitizer's `javascript:` pattern does not occur, the `javascript:` expression does not match. */
  lemma NoJavascriptWithoutOccurrence(r: JsString)
    requires !InputSanitizer.Occurs(InputSanitizer.Literal(JAVASCRIPT), r)
    ensures !Test(Text(JAVASCRIPT), r)
  {
    forall i | 0 <= i <= |r| - |JAVASCRIPT| && MatchesAt(r, i, JAVASCRIPT)
      ensures false
    {
      JavascriptMatchAt(r, i);
    }
  }

  /** A handler name followed directly by `=` is a match of the sanitizer's `on\w+=` at the same place. */
  lemma DirectHandlerMatchAt(r: JsString, i: int)
    requires HandlerAt(r, i) && r[AfterName(r, i)] == EQUALS
    ensures InputSanitizer.MatchLength(InputSanitizer.EventHandler, r[i..]) > 0
  {
    var tail := r[i..];
    assert tail[2..] == r[i + 2..];
    forall k | 0 <= k < |ON|
      ensures Fold(tail[k]) == ON[k]
    {
      assert tail[k] == r[i + k];
    }
  }

  /**
   * After the repeated stage, only the handler expression can still match,
   * and only with whitespace between the name and the `=`, which the
   * sanitizer's own `on\w+=` does not cover.
   */
  lemma ScrubbedLeavesOnlySpacedHandlers(s: JsString)
    ensures var r := InputSanitizer.ScrubbedStage(s);
      !Test(ScriptBlock, r) && !Test(Text(JAVASCRIPT), r)
      && !Test(Text(IFRAME_OPEN), r) && !Test(Text(OBJECT_OPEN), r) && !Test(Text(EMBED_OPEN), r)
      && forall i :: HandlerAt(r, i) ==> r[AfterName(r, i)] != EQUALS
  {
    var r := InputSanitizer.ScrubbedStage(s);
    NoTagsWithoutAngle(r);
    NoJavascriptWithoutOccurrence(r);
    forall i | HandlerAt(r, i)
      ensures r[AfterName(r, i)] != EQUALS
    {
      if r[AfterName(r, i)] == EQUALS {
        DirectHandlerMatchAt(r, i);
        assert false;
      }
    }
  }
}

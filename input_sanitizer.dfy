/**
 * The manual stage of `sanitizeInput` (`src/lib/security.ts`), which runs on
 * DOMPurify's output: strip angle brackets, delete `javascript:` and
 * `on\w+=` case-insensitively in one left-to-right pass each, replace each
 * backslash by a backslash, and trim. DOMPurify itself is a parameter.
 */
module InputSanitizer {
  import opened JsText

  /** The two patterns the stage deletes: a literal text, and `on\w+=`. */
  datatype Pattern = Literal(text: JsString) | EventHandler

  /** The length of an `on\w+=` match at the start of `s`, or 0. The greedy `\w+` never backtracks, since `=` is not a word character. */
  function HandlerLength(s: JsString): (n: nat)
    ensures n <= |s|
    ensures n > 0 ==> n >= 4 && MatchesAt(s, 0, ON) && s[n - 1] == EQUALS
    ensures n > 0 ==> forall k :: 2 <= k < n - 1 ==> IsWordChar(s[k])
    ensures forall m :: (3 <= m < |s| && MatchesAt(s, 0, ON) && s[m] == EQUALS
                         && forall k :: 2 <= k < m ==> IsWordChar(s[k])) ==> n == m + 1
  {
    if MatchesAt(s, 0, ON) then
      var w := WordRun(s[2..]);
      if w >= 1 && 2 + w < |s| && s[2 + w] == EQUALS then 3 + w else 0
    else 0
  }

  /** The length of the match of `p` at the start of `s`, or 0 when there is none. */
  function MatchLength(p: Pattern, s: JsString): (n: nat)
    ensures n <= |s|
  {
    match p
    case Literal(t) => if |t| > 0 && MatchesAt(s, 0, t) then |t| else 0
    case EventHandler => HandlerLength(s)
  }

  /** Whether `p` matches somewhere in `s`. */
  predicate Occurs(p: Pattern, s: JsString)
  {
    exists i :: 0 <= i <= |s| && MatchLength(p, s[i..]) > 0
  }

  /** `.replace(/[<>]/g, '')`. */
  function StripAngles(s: JsString): (r: JsString)
    ensures forall x :: x in r <==> x in s && x != LT && x != GT
    ensures |r| <= |s| && (|r| == |s| ==> r == s)
  {
    if s == [] then []
    else if s[0] == LT || s[0] == GT then StripAngles(s[1..])
    else [s[0]] + StripAngles(s[1..])
  }

  /**
   * A global `replace(pattern, '')`: scanning left to right, each match is
   * deleted and the scan resumes after it; elsewhere one unit is kept.
   */
  function DeleteAll(p: Pattern, s: JsString): (r: JsString)
    ensures |r| <= |s| && (|r| == |s| ==> r == s)
    decreases |s|
  {
    if s == [] then []
    else
      var n := MatchLength(p, s);
      if n > 0 then DeleteAll(p, s[n..]) else [s[0]] + DeleteAll(p, s[1..])
  }

  /** A global deletion keeps only units of its input. */
  lemma {:induction false} DeleteAllUnits(p: Pattern, s: JsString)
    ensures forall x :: x in DeleteAll(p, s) ==> x in s
    decreases |s|
  {
    if s != [] {
      var n := MatchLength(p, s);
      if n > 0 {
        DeleteAllUnits(p, s[n..]);
        assert forall x :: x in s[n..] ==> x in s;
      } else {
        DeleteAllUnits(p, s[1..]);
        assert forall x :: x in s[1..] ==> x in s;
      }
    }
  }

  /**
   * `.replace(/\\/g, '\\')`: the replacement text is a single backslash, so
   * the line changes nothing.
   */
  function ReplaceBackslashes(s: JsString): (r: JsString)
    ensures r == s
  {
    if s == [] then [] else (if s[0] == BACKSLASH then [BACKSLASH] else [s[0]]) + ReplaceBackslashes(s[1..])
  }

  /** The length of the whitespace run that ends `s`. */
  function TrailingSpace(s: JsString): (n: nat)
    ensures n <= |s|
    ensures forall k :: |s| - n <= k < |s| ==> IsJsWhitespace(s[k])
    ensures n < |s| ==> !IsJsWhitespace(s[|s| - n - 1])
  {
    if s != [] && IsJsWhitespace(s[|s| - 1]) then 1 + TrailingSpace(s[..|s| - 1]) else 0
  }

  /** `.trim()`: the slice of `s` left when the leading and trailing whitespace is cut off. */
  function Trim(s: JsString): (r: JsString)
    ensures r != [] ==> !IsJsWhitespace(r[0]) && !IsJsWhitespace(r[|r| - 1])
    ensures SpaceRun(s) + |r| <= |s| && r == s[SpaceRun(s)..SpaceRun(s) + |r|]
    ensures forall k :: SpaceRun(s) + |r| <= k < |s| ==> IsJsWhitespace(s[k])
  {
    var a := SpaceRun(s);
    var t := s[a..];
    var r := t[..|t| - TrailingSpace(t)];
    assert r == s[a..a + |r|];
    assert forall k :: 0 <= k < |r| ==> r[k] == s[a + k];
    r
  }

  /** The three deleting steps of lines 21-23, in order. */
  function Pass(s: JsString): (r: JsString)
    ensures |r| <= |s| && (|r| == |s| ==> r == s)
    ensures forall x :: x in r ==> x in s && x != LT && x != GT
  {
    var stripped := StripAngles(s);
    var once := DeleteAll(Literal(JAVASCRIPT), stripped);
    var r := DeleteAll(EventHandler, once);
    DeleteAllUnits(Literal(JAVASCRIPT), stripped);
    DeleteAllUnits(EventHandler, once);
    r
  }

  /**
   * The replace chain of lines 20-25, applied to DOMPurify's output: the
   * result has no angle bracket, no leading or trailing whitespace, and only
   * code units of its input.
   */
  function ManualStage(s: JsString): (r: JsString)
    ensures forall k :: 0 <= k < |r| ==> r[k] != LT && r[k] != GT
    ensures r != [] ==> !IsJsWhitespace(r[0]) && !IsJsWhitespace(r[|r| - 1])
    ensures forall x :: x in r ==> x in s
  {
    var deleted := Pass(s);
    TrimKeepsUnits(deleted, s);
    Trim(ReplaceBackslashes(deleted))
  }

  /** Trimming a text free of angle brackets whose units come from `s` gives such a text again. */
  lemma TrimKeepsUnits(c: JsString, s: JsString)
    requires forall x :: x in c ==> x in s && x != LT && x != GT
    ensures forall k :: 0 <= k < |Trim(c)| ==> Trim(c)[k] != LT && Trim(c)[k] != GT
    ensures forall x :: x in Trim(c) ==> x in s
  {
    var r := Trim(c);
    forall k | 0 <= k < |r|
      ensures r[k] in c
    {
      assert r[k] == c[SpaceRun(c) + k];
    }
  }

  /**
   * `sanitizeInput`: the empty string gives the empty string without calling
   * DOMPurify; otherwise the manual stage runs on `purify(input)`.
   */
  function SanitizeInput(input: JsString, purify: JsString -> JsString): (r: JsString)
    ensures input == [] ==> r == []
    ensures forall k :: 0 <= k < |r| ==> r[k] != LT && r[k] != GT
    ensures r != [] ==> !IsJsWhitespace(r[0]) && !IsJsWhitespace(r[|r| - 1])
    ensures forall x :: x in r ==> x in purify(input)
  {
    if input == [] then [] else ManualStage(purify(input))
  }

  /** Deleting the matches of `p` leaves `s` unchanged exactly when `p` does not occur in `s`. */
  lemma DeleteAllUnchangedIff(p: Pattern, s: JsString)
    ensures DeleteAll(p, s) == s <==> !Occurs(p, s)
  {
    if Occurs(p, s) {
      DeleteShrinks(p, s);
    } else {
      DeleteWithoutMatch(p, s);
    }
  }

  lemma {:induction false} DeleteWithoutMatch(p: Pattern, s: JsString)
    requires !Occurs(p, s)
    ensures DeleteAll(p, s) == s
    decreases |s|
  {
    if s != [] {
      assert s[0..] == s;
      assert MatchLength(p, s[0..]) == 0;
      forall i | 0 <= i <= |s[1..]| ensures MatchLength(p, s[1..][i..]) == 0 {
        assert s[1..][i..] == s[i + 1..];
      }
      DeleteWithoutMatch(p, s[1..]);
    }
  }

  lemma {:induction false} DeleteShrinks(p: Pattern, s: JsString)
    requires Occurs(p, s)
    ensures |DeleteAll(p, s)| < |s|
    decreases |s|
  {
    var i :| 0 <= i <= |s| && MatchLength(p, s[i..]) > 0;
    if i == 0 || MatchLength(p, s) > 0 {
      assert s[0..] == s;
    } else {
      assert s[1..][i - 1..] == s[i..];
      DeleteShrinks(p, s[1..]);
    }
  }

  /** Without any angle bracket, the first step changes nothing. */
  lemma {:induction false} StripAnglesWithoutAngles(s: JsString)
    requires forall k :: 0 <= k < |s| ==> s[k] != LT && s[k] != GT
    ensures StripAngles(s) == s
  {
    if s != [] {
      StripAnglesWithoutAngles(s[1..]);
    }
  }

  lemma NoMatchAtHead(t: JsString, pat: JsString, k: nat)
    requires k < |pat| && k < |t| && Fold(t[k]) != pat[k]
    ensures !MatchesAt(t, 0, pat)
  {
  }

  /** A literal pattern that starts with no unit of `t` occurs nowhere in `t`. */
  lemma {:induction false} LiteralAbsent(t: JsString, pat: JsString)
    requires pat != []
    requires forall k :: 0 <= k < |t| ==> Fold(t[k]) != pat[0]
    ensures DeleteAll(Literal(pat), t) == t
  {
    forall i | 0 <= i <= |t| ensures MatchLength(Literal(pat), t[i..]) == 0 {
      if i < |t| {
        NoMatchAtHead(t[i..], pat, 0);
      }
    }
    DeleteWithoutMatch(Literal(pat), t);
  }

  lemma KeepHead(p: Pattern, s: JsString)
    requires s != [] && MatchLength(p, s) == 0
    ensures DeleteAll(p, s) == [s[0]] + DeleteAll(p, s[1..])
  {
  }

  /** `javajavascript:script:`: a `javascript:` with another one inserted after its fourth unit. */
  function NestedJavascript(): JsString
  {
    JAVASCRIPT[..4] + (JAVASCRIPT + JAVASCRIPT[4..])
  }

  /** The pattern's units are lower-case and none is an angle bracket, whitespace or `o`. */
  lemma JavascriptUnits(j: JsString)
    requires j == JAVASCRIPT
    ensures forall k :: 0 <= k < |j| ==> j[k] != LT && j[k] != GT
    ensures forall k :: 0 <= k < |j| ==> !IsJsWhitespace(j[k]) && Fold(j[k]) != ON[0]
  {
  }

  /** Units at which no match starts are copied through. */
  lemma {:induction false} KeepPrefix(p: Pattern, a: JsString, t: JsString)
    requires forall i :: 0 <= i < |a| ==> MatchLength(p, (a + t)[i..]) == 0
    ensures DeleteAll(p, a + t) == a + DeleteAll(p, t)
  {
    assert (a + t)[..|a|] == a && (a + t)[|a|..] == t;
    KeepFrom(p, a + t, |a|);
  }

  lemma ConsSlices(s: JsString, j: nat, d: JsString)
    requires 0 < j <= |s|
    ensures [s[0]] + (s[1..][..j - 1] + d) == s[..j] + d
  {
    assert [s[0]] + s[1..][..j - 1] == s[..j];
  }

  lemma {:induction false} KeepFrom(p: Pattern, s: JsString, j: nat)
    requires j <= |s|
    requires forall i :: 0 <= i < j ==> MatchLength(p, s[i..]) == 0
    ensures DeleteAll(p, s) == s[..j] + DeleteAll(p, s[j..])
  {
    if j > 0 {
      var rest := s[1..];
      assert s[0..] == s;
      KeepHead(p, s);
      forall i | 0 <= i < j - 1
        ensures MatchLength(p, rest[i..]) == 0
      {
        assert rest[i..] == s[i + 1..];
      }
      KeepFrom(p, rest, j - 1);
      assert rest[j - 1..] == s[j..];
      var head, d := rest[..j - 1], DeleteAll(p, s[j..]);
      ConsSlices(s, j, d);
    } else {
      assert s[..0] == [] && s[0..] == s;
    }
  }

  lemma NestedHasNoAngles(j: JsString)
    requires |j| > 4
    requires forall k :: 0 <= k < |j| ==> j[k] != LT && j[k] != GT
    ensures StripAngles(j[..4] + (j + j[4..])) == j[..4] + (j + j[4..])
  {
    var s := j[..4] + (j + j[4..]);
    forall k | 0 <= k < |s| ensures s[k] != LT && s[k] != GT {
      if k < 4 {
        assert s[k] == j[k];
      } else if k < 4 + |j| {
        assert s[k] == j[k - 4];
      } else {
        assert s[k] == j[k - |j|];
      }
    }
    StripAnglesWithoutAngles(s);
  }

  /** No match of `j` starts in the first four units of `j[..4] + (j + j[4..])`. */
  lemma NestedPrefixUnmatched(j: JsString)
    requires |j| > 4
    requires forall k :: 0 <= k < |j| ==> Fold(j[k]) == j[k]
    requires forall k :: 1 <= k < |j| ==> j[k] != j[0]
    ensures DeleteAll(Literal(j), j[..4] + (j + j[4..])) == j[..4] + DeleteAll(Literal(j), j + j[4..])
  {
    var a, t := j[..4], j + j[4..];
    forall i | 0 <= i < 4 ensures MatchLength(Literal(j), (a + t)[i..]) == 0 {
      var u := (a + t)[i..];
      if i == 0 {
        assert u[4] == j[0];
        NoMatchAtHead(u, j, 4);
      } else {
        assert u[0] == j[i];
        NoMatchAtHead(u, j, 0);
      }
    }
    KeepPrefix(Literal(j), a, t);
  }

  /** Deleting the match at the start of `j + j[4..]` leaves `j[4..]`, which holds no further match. */
  lemma NestedSuffixPass(j: JsString)
    requires |j| > 4
    requires forall k :: 0 <= k < |j| ==> Fold(j[k]) == j[k]
    requires forall k :: 1 <= k < |j| ==> j[k] != j[0]
    ensures DeleteAll(Literal(j), j + j[4..]) == j[4..]
  {
    var rest := j[4..];
    var t := j + rest;
    assert MatchesAt(t, 0, j);
    assert t[|j|..] == rest;
    LiteralAbsent(rest, j);
  }

  /**
   * Any lower-case pattern of more than four units whose first unit does not
   * recur is recreated by deleting a copy of it nested after its fourth unit.
   */
  lemma NestedPatternSurvives(j: JsString)
    requires |j| > 4
    requires forall k :: 0 <= k < |j| ==> Fold(j[k]) == j[k]
    requires forall k :: 1 <= k < |j| ==> j[k] != j[0]
    ensures DeleteAll(Literal(j), j[..4] + (j + j[4..])) == j
  {
    NestedSuffixPass(j);
    NestedPrefixUnmatched(j);
    SplitJoin(j, 4);
  }

  lemma SplitJoin(j: JsString, n: nat)
    requires n <= |j|
    ensures j[..n] + j[n..] == j
  {
  }

  lemma JavascriptUnitsDistinct()
    ensures forall k :: 0 <= k < |JAVASCRIPT| ==> Fold(JAVASCRIPT[k]) == JAVASCRIPT[k]
    ensures forall k :: 1 <= k < |JAVASCRIPT| ==> JAVASCRIPT[k] != JAVASCRIPT[0]
  {
  }

  /** A non-empty lower-case pattern matches itself. */
  lemma SelfMatch(j: JsString)
    requires |j| > 0
    requires forall k :: 0 <= k < |j| ==> Fold(j[k]) == j[k]
    ensures Occurs(Literal(j), j)
  {
    assert j[0..] == j;
    assert MatchLength(Literal(j), j[0..]) == |j|;
  }

  /** A text without the unit `o` holds no event-handler attribute. */
  lemma {:induction false} HandlerAbsent(j: JsString)
    requires forall k :: 0 <= k < |j| ==> Fold(j[k]) != ON[0]
    ensures DeleteAll(EventHandler, j) == j
  {
    forall i | 0 <= i <= |j| ensures MatchLength(EventHandler, j[i..]) == 0 {
      if i < |j| {
        NoMatchAtHead(j[i..], ON, 0);
      }
    }
    DeleteWithoutMatch(EventHandler, j);
  }

  lemma TrimWithoutSpace(j: JsString)
    requires j != [] && !IsJsWhitespace(j[0]) && !IsJsWhitespace(j[|j| - 1])
    ensures Trim(j) == j
  {
    SpaceRunUnique(j, 0);
    assert j[0..] == j;
    assert TrailingSpace(j) == 0;
  }

  /**
   * One pass does not remove every `javascript:`: deleting the inner one
   * from `javajavascript:script:` joins the halves around it into a new one.
   */
  lemma JavascriptSurvives()
    ensures ManualStage(NestedJavascript()) == JAVASCRIPT
    ensures Occurs(Literal(JAVASCRIPT), ManualStage(NestedJavascript()))
  {
    var j := JAVASCRIPT;
    JavascriptUnitsDistinct();
    JavascriptUnits(j);
    NestedHasNoAngles(j);
    NestedPatternSurvives(j);
    HandlerAbsent(j);
    TrimWithoutSpace(j);
    SelfMatch(j);
  }

  /** The deleting steps repeated until a pass changes nothing. */
  function Scrub(s: JsString): (r: JsString)
    ensures Pass(r) == r
    ensures forall x :: x in r ==> x in s
    decreases |s|
  {
    var t := Pass(s);
    if t == s then s else Scrub(t)
  }

  /** A text that a pass leaves unchanged holds none of the three patterns. */
  lemma StablePassIsClean(r: JsString)
    requires Pass(r) == r
    ensures forall k :: 0 <= k < |r| ==> r[k] != LT && r[k] != GT
    ensures !Occurs(Literal(JAVASCRIPT), r) && !Occurs(EventHandler, r)
  {
    var a := StripAngles(r);
    var b := DeleteAll(Literal(JAVASCRIPT), a);
    assert |r| == |DeleteAll(EventHandler, b)| <= |b| <= |a| <= |r|;
    assert a == r && b == r;
    DeleteAllUnchangedIff(Literal(JAVASCRIPT), r);
    DeleteAllUnchangedIff(EventHandler, r);
    assert forall k :: 0 <= k < |r| ==> r[k] in a;
  }

  /** A match at the start of `u` is the same match at the start of any extension of `u`. */
  lemma MatchPrefixStable(p: Pattern, u: JsString, v: JsString)
    requires u <= v && MatchLength(p, u) > 0
    ensures MatchLength(p, v) == MatchLength(p, u)
  {
    if p.EventHandler? {
      var w := WordRun(u[2..]);
      assert u[2 + w] == EQUALS;
      WordRunUnique(v[2..], w);
    }
  }

  /** A match inside the slice `r == s[a..b]` is a match in `s`. */
  lemma OccursInSlice(p: Pattern, s: JsString, a: nat, b: nat, r: JsString)
    requires a <= b <= |s| && r == s[a..b] && Occurs(p, r)
    ensures Occurs(p, s)
  {
    var i :| 0 <= i <= |r| && MatchLength(p, r[i..]) > 0;
    assert r[i..] <= s[a + i..];
    MatchPrefixStable(p, r[i..], s[a + i..]);
  }

  /** Trimming cannot create a match: the trimmed text is a slice of the text. */
  lemma TrimKeepsAbsence(p: Pattern, c: JsString)
    requires !Occurs(p, c)
    ensures !Occurs(p, Trim(c))
  {
    var r := Trim(c);
    if Occurs(p, r) {
      OccursInSlice(p, c, SpaceRun(c), SpaceRun(c) + |r|, r);
    }
  }

  /**
   * The manual stage with its deleting steps repeated until nothing changes:
   * besides what the single pass promises, the result holds no
   * `javascript:` and no `on\w+=` at all.
   */
  function ScrubbedStage(s: JsString): (r: JsString)
    ensures forall k :: 0 <= k < |r| ==> r[k] != LT && r[k] != GT
    ensures !Occurs(Literal(JAVASCRIPT), r) && !Occurs(EventHandler, r)
    ensures r != [] ==> !IsJsWhitespace(r[0]) && !IsJsWhitespace(r[|r| - 1])
    ensures forall x :: x in r ==> x in s
  {
    var c := Scrub(s);
    StablePassIsClean(c);
    TrimKeepsUnits(c, s);
    TrimKeepsAbsence(Literal(JAVASCRIPT), c);
    TrimKeepsAbsence(EventHandler, c);
    Trim(c)
  }

  /** Where one pass already removes everything, the repeated stage and the single pass agree. */
  lemma ScrubbedAgreesWhenOnePassSuffices(s: JsString)
    requires Pass(Pass(s)) == Pass(s)
    ensures ScrubbedStage(s) == ManualStage(s)
  {
    assert Scrub(Pass(s)) == Pass(s);
    assert Scrub(s) == Pass(s);
  }
}

/**
 * `sanitizeForPDF` (`src/lib/security.ts`): delete C0 and C1 control code
 * units, put a backslash before each `(`, `)` and `\` (the escapes of a PDF
 * literal string, section 7.3.4.2 of ISO 32000-1), then keep the first 100
 * code units.
 */
module PdfSanitizer {
  import opened Wrappers
  import opened JsText

  const MAX_LENGTH: nat := 100

  /** The class `[\x00-\x1F\x7F-\x9F]`. */
  predicate IsControl(u: CodeUnit)
  {
    u <= 0x1F || (0x7F <= u <= 0x9F)
  }

  /** The class `[()\\]`: the units a PDF literal string needs escaped. */
  predicate IsSpecial(u: CodeUnit)
  {
    u == LPAREN || u == RPAREN || u == BACKSLASH
  }

  /** `.replace(/[\x00-\x1F\x7F-\x9F]/g, '')`. */
  function RemoveControls(s: JsString): (r: JsString)
    ensures forall k :: 0 <= k < |r| ==> !IsControl(r[k])
  {
    if s == [] then []
    else if IsControl(s[0]) then RemoveControls(s[1..])
    else [s[0]] + RemoveControls(s[1..])
  }

  /** The units left are exactly the input's units that are not control units. */
  lemma {:induction false} RemoveControlsUnits(s: JsString)
    ensures forall x :: x in RemoveControls(s) <==> x in s && !IsControl(x)
  {
    if s != [] {
      RemoveControlsUnits(s[1..]);
      assert forall x :: x in s <==> x == s[0] || x in s[1..];
    }
  }

  /** The replacement `\\$&` for one unit. */
  function EscapeUnit(u: CodeUnit): JsString
  {
    if IsSpecial(u) then [BACKSLASH, u] else [u]
  }

  /** `.replace(/[()\\]/g, '\\$&')`: each unit becomes itself or a backslash and itself, so the text at most doubles. */
  function Escape(s: JsString): (r: JsString)
    ensures |s| <= |r| <= 2 * |s|
  {
    if s == [] then [] else EscapeUnit(s[0]) + Escape(s[1..])
  }

  /** `.substring(0, n)` for a non-negative `n`. */
  function Take(s: JsString, n: nat): (r: JsString)
    ensures |r| <= n && r <= s
    ensures |s| <= n ==> r == s
  {
    if |s| <= n then s else s[..n]
  }

  /**
   * Reading back an escaped text: a backslash must be followed by one of the
   * three special units, which it stands for, and a parenthesis must not
   * stand alone. `None` marks a text that `Escape` cannot have produced.
   */
  function Unescape(r: JsString): (u: Option<JsString>)
  {
    if r == [] then Some([])
    else if r[0] == BACKSLASH then
      if |r| >= 2 && IsSpecial(r[1]) then
        match Unescape(r[2..])
        case Some(t) => Some([r[1]] + t)
        case None => None
      else None
    else if r[0] == LPAREN || r[0] == RPAREN then None
    else
      match Unescape(r[1..])
      case Some(t) => Some([r[0]] + t)
      case None => None
  }

  /**
   * `sanitizeForPDF`: the empty string gives the empty string; otherwise the
   * result is at most 100 units long, holds no control unit, has a backslash
   * before every parenthesis, and is the start of the escaped control-free
   * text, all of it when that fits.
   */
  function SanitizeForPdf(text: JsString): (r: JsString)
    ensures text == [] ==> r == []
    ensures |r| <= MAX_LENGTH
    ensures forall k :: 0 <= k < |r| ==> !IsControl(r[k])
    ensures ParensPreceded(r)
    ensures r <= Escape(RemoveControls(text))
    ensures |Escape(RemoveControls(text))| <= MAX_LENGTH ==> r == Escape(RemoveControls(text))
  {
    if text == [] then []
    else
      var clean := RemoveControls(text);
      var escaped := Escape(clean);
      EscapeKeepsUnits(clean);
      EscapedParensArePreceded(clean);
      var r := Take(escaped, MAX_LENGTH);
      PrefixParensPreceded(r, escaped);
      assert forall k :: 0 <= k < |r| ==> r[k] == escaped[k] && escaped[k] in escaped;
      r
  }

  /** Escaping adds only backslashes: its units are those of the input, plus backslash where one was special. */
  lemma {:induction false} EscapeKeepsUnits(s: JsString)
    ensures forall x :: x in Escape(s) ==> x in s || x == BACKSLASH
    ensures forall k :: 0 <= k < |Escape(s)| ==> Escape(s)[k] in Escape(s)
  {
    if s != [] {
      EscapeKeepsUnits(s[1..]);
    }
  }

  /** Every parenthesis of `e` comes straight after a backslash. */
  predicate ParensPreceded(e: JsString)
  {
    forall k :: 0 <= k < |e| && (e[k] == LPAREN || e[k] == RPAREN) ==> k > 0 && e[k - 1] == BACKSLASH
  }

  /** In an escaped text every parenthesis comes straight after a backslash. */
  lemma {:induction false} EscapedParensArePreceded(s: JsString)
    ensures ParensPreceded(Escape(s))
  {
    if s != [] {
      EscapedParensArePreceded(s[1..]);
      var u, e := EscapeUnit(s[0]), Escape(s[1..]);
      forall k | 0 <= k < |u + e| && ((u + e)[k] == LPAREN || (u + e)[k] == RPAREN)
        ensures k > 0 && (u + e)[k - 1] == BACKSLASH
      {
        if k >= |u| {
          assert (u + e)[k] == e[k - |u|];
          assert (u + e)[k - 1] == e[k - 1 - |u|];
        }
      }
    }
  }

  /** A start of a text whose parentheses are escaped has its parentheses escaped. */
  lemma PrefixParensPreceded(r: JsString, e: JsString)
    requires r <= e && ParensPreceded(e)
    ensures ParensPreceded(r)
  {
    assert forall k :: 0 <= k < |r| ==> r[k] == e[k];
  }

  /** Escaping is undone by reading back: the round trip gives the input. */
  lemma {:induction false} EscapeRoundTrip(s: JsString)
    ensures Unescape(Escape(s)) == Some(s)
  {
    if s != [] {
      EscapeRoundTrip(s[1..]);
      var u, e := EscapeUnit(s[0]), Escape(s[1..]);
      if IsSpecial(s[0]) {
        assert (u + e)[2..] == e;
      } else {
        assert (u + e)[1..] == e;
      }
      assert [s[0]] + s[1..] == s;
    }
  }

  /** Escaping distributes over concatenation. */
  lemma {:induction false} EscapeAppend(a: JsString, b: JsString)
    ensures Escape(a + b) == Escape(a) + Escape(b)
  {
    if a != [] {
      assert (a + b)[1..] == a[1..] + b;
      EscapeAppend(a[1..], b);
    } else {
      assert a + b == b;
    }
  }

  /** Whenever the escaped text fits, the output reads back as the control-free input. */
  lemma SanitizedReadsBack(text: JsString)
    requires |Escape(RemoveControls(text))| <= MAX_LENGTH
    ensures Unescape(SanitizeForPdf(text)) == Some(RemoveControls(text))
  {
    EscapeRoundTrip(RemoveControls(text));
  }

  /** 99 units `a` followed by `(`. */
  function ParenAtLimit(): JsString
  {
    seq(99, k => 0x61) + [LPAREN]
  }

  lemma {:induction false} PlainUnitsUnchanged(p: JsString)
    requires forall k :: 0 <= k < |p| ==> !IsControl(p[k]) && !IsSpecial(p[k])
    ensures RemoveControls(p) == p && Escape(p) == p
  {
    if p != [] {
      PlainUnitsUnchanged(p[1..]);
    }
  }

  /** Reading back a text that starts with plain units reads those units and then the rest. */
  lemma {:induction false} UnescapePlainPrefix(p: JsString, t: JsString)
    requires forall k :: 0 <= k < |p| ==> !IsSpecial(p[k])
    ensures Unescape(t).None? ==> Unescape(p + t).None?
  {
    if p != [] {
      assert (p + t)[1..] == p[1..] + t;
      UnescapePlainPrefix(p[1..], t);
    } else {
      assert p + t == t;
    }
  }

  /**
   * Truncating after escaping can split an escape: 99 units `a` and a `(`
   * come out as the 99 units and a lone backslash, which no escaped text ends
   * with and which, inside a PDF literal string, would escape its closing
   * parenthesis.
   */
  lemma TruncationSplitsEscape()
    ensures SanitizeForPdf(ParenAtLimit()) == seq(99, k => 0x61) + [BACKSLASH]
    ensures Unescape(SanitizeForPdf(ParenAtLimit())).None?
  {
    var p: JsString := seq(99, k => 0x61);
    var text := p + [LPAREN];
    PlainUnitsUnchanged(p);
    assert RemoveControls([LPAREN]) == [LPAREN];
    assert RemoveControls(text) == text by {
      assert text[0] == 0x61 && text[1..] == p[1..] + [LPAREN];
      RemoveControlsAppendPlain(p, [LPAREN]);
    }
    EscapeAppend(p, [LPAREN]);
    assert Escape([LPAREN]) == [BACKSLASH, LPAREN];
    var e := p + [BACKSLASH, LPAREN];
    assert e[..MAX_LENGTH] == p + [BACKSLASH];
    assert Unescape([BACKSLASH]).None?;
    UnescapePlainPrefix(p, [BACKSLASH]);
  }

  lemma {:induction false} RemoveControlsAppendPlain(p: JsString, t: JsString)
    requires forall k :: 0 <= k < |p| ==> !IsControl(p[k])
    ensures RemoveControls(p + t) == p + RemoveControls(t)
  {
    if p != [] {
      var q, rest := p + t, p[1..];
      assert q[1..] == rest + t;
      assert forall k :: 0 <= k < |rest| ==> rest[k] == p[k + 1];
      RemoveControlsAppendPlain(rest, t);
      assert RemoveControls(q) == [q[0]] + RemoveControls(q[1..]);
      assert [p[0]] + rest == p;
    } else {
      assert p + t == t;
    }
  }

  /**
   * How many leading units of `s` can be escaped whole within `budget`
   * units: the longest prefix whose escaped form fits.
   */
  function FitCount(s: JsString, budget: nat): (n: nat)
    ensures n <= |s|
    ensures |Escape(s[..n])| <= budget
    ensures n < |s| ==> |Escape(s[..n + 1])| > budget
  {
    if s == [] then 0
    else
      var w := |EscapeUnit(s[0])|;
      if w > budget then
        assert Escape(s[..1]) == EscapeUnit(s[0]) + Escape([]) by {
          assert s[..1][1..] == [];
        }
        0
      else
        var m := FitCount(s[1..], budget - w);
        assert s[..m + 1][1..] == s[1..][..m];
        assert m < |s[1..]| ==> s[..m + 2][1..] == s[1..][..m + 1];
        1 + m
  }

  /** The escaped fitting prefix reads back as that prefix and starts the whole escaped text. */
  lemma FitPrefixFacts(clean: JsString, n: nat)
    requires n <= |clean|
    ensures Unescape(Escape(clean[..n])) == Some(clean[..n])
    ensures Escape(clean[..n]) <= Escape(clean)
    ensures forall x :: x in Escape(clean[..n]) ==> x in clean || x == BACKSLASH
  {
    EscapeRoundTrip(clean[..n]);
    EscapePrefix(clean, n);
    EscapedPrefixUnits(clean, n);
  }

  lemma EscapedPrefixUnits(clean: JsString, n: nat)
    requires n <= |clean|
    ensures forall x :: x in Escape(clean[..n]) ==> x in clean || x == BACKSLASH
  {
    var p := clean[..n];
    EscapeKeepsUnits(p);
    forall x | x in p ensures x in clean {
      var i :| 0 <= i < |p| && p[i] == x;
      assert clean[i] == x;
    }
  }

  /** When the whole escaped text fits, every unit fits. */
  lemma FitAll(clean: JsString)
    requires |Escape(clean)| <= MAX_LENGTH
    ensures FitCount(clean, MAX_LENGTH) == |clean|
  {
    var n := FitCount(clean, MAX_LENGTH);
    if n < |clean| {
      EscapePrefix(clean, n + 1);
    }
  }

  /** Escaping a start of a text gives a start of the escaped text. */
  lemma EscapePrefix(s: JsString, m: nat)
    requires m <= |s|
    ensures Escape(s[..m]) <= Escape(s)
  {
    assert s[..m] + s[m..] == s;
    EscapeAppend(s[..m], s[m..]);
  }

  /**
   * `sanitizeForPDF` with the limit applied to whole escapes: the escaped
   * form of the longest control-free prefix that fits in 100 units. It reads
   * back as a start of the control-free text, is a start of the full escaped
   * text, and agrees with the original whenever the escaped text fits.
   */
  function SanitizeForPdfWhole(text: JsString): (r: JsString)
    ensures text == [] ==> r == []
    ensures |r| <= MAX_LENGTH
    ensures forall k :: 0 <= k < |r| ==> !IsControl(r[k])
    ensures Unescape(r).Some? && Unescape(r).value <= RemoveControls(text)
    ensures r <= Escape(RemoveControls(text))
    ensures |Escape(RemoveControls(text))| <= MAX_LENGTH ==> r == SanitizeForPdf(text)
  {
    if text == [] then []
    else
      var clean := RemoveControls(text);
      var n := FitCount(clean, MAX_LENGTH);
      var r := Escape(clean[..n]);
      FitPrefixFacts(clean, n);
      assert forall k :: 0 <= k < |r| ==> r[k] in r;
      if |Escape(clean)| <= MAX_LENGTH then
        FitAll(clean);
        assert clean[..n] == clean;
        r
      else
        r
  }
}

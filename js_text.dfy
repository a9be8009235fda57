/**
 * JavaScript strings as the security helpers see them: sequences of UTF-16
 * code units, with the character classes the helpers' regular expressions
 * use. The expressions are not Unicode-mode, so the case-insensitive flag
 * folds ASCII letters only and `\w` is `[A-Za-z0-9_]`.
 */
module JsText {
  /** A UTF-16 code unit, the element of a JavaScript string. */
  type CodeUnit = u: int | 0 <= u < 0x1_0000

  type JsString = seq<CodeUnit>

  const LT: CodeUnit := 0x3C
  const GT: CodeUnit := 0x3E
  const EQUALS: CodeUnit := 0x3D
  const BACKSLASH: CodeUnit := 0x5C
  const LPAREN: CodeUnit := 0x28
  const RPAREN: CodeUnit := 0x29

  /** The lower-case pattern `javascript:`. */
  const JAVASCRIPT: JsString := [0x6A, 0x61, 0x76, 0x61, 0x73, 0x63, 0x72, 0x69, 0x70, 0x74, 0x3A]
  /** The lower-case pattern `on`. */
  const ON: JsString := [0x6F, 0x6E]

  /** Case folding of a case-insensitive, non-Unicode expression, mapped to lower case. */
  function Fold(u: CodeUnit): CodeUnit
  {
    if 0x41 <= u <= 0x5A then u + 0x20 else u
  }

  /** `\w` outside Unicode mode. */
  predicate IsWordChar(u: CodeUnit)
  {
    (0x30 <= u <= 0x39) || (0x41 <= u <= 0x5A) || (0x61 <= u <= 0x7A) || u == 0x5F
  }

  /** The WhiteSpace and LineTerminator code points that `\s` and `trim` recognise. */
  predicate IsJsWhitespace(u: CodeUnit)
  {
    (0x09 <= u <= 0x0D) || u == 0x20 || u == 0xA0 || u == 0x1680 || (0x2000 <= u <= 0x200A)
    || u == 0x2028 || u == 0x2029 || u == 0x202F || u == 0x205F || u == 0x3000 || u == 0xFEFF
  }

  /** Whether the lower-case pattern `pat` matches `s` case-insensitively at index `i`. */
  predicate MatchesAt(s: JsString, i: int, pat: JsString)
  {
    0 <= i && i + |pat| <= |s| && forall k :: 0 <= k < |pat| ==> Fold(s[i + k]) == pat[k]
  }

  /** Whether `pat` occurs anywhere in `s`, case-insensitively. */
  predicate ContainsAt(s: JsString, pat: JsString)
  {
    exists i :: 0 <= i <= |s| - |pat| && MatchesAt(s, i, pat)
  }

  /** The length of the run of word characters that starts `s`: what a greedy `\w*` consumes. */
  function WordRun(s: JsString): (n: nat)
    ensures n <= |s|
    ensures forall k :: 0 <= k < n ==> IsWordChar(s[k])
    ensures n < |s| ==> !IsWordChar(s[n])
  {
    if s != [] && IsWordChar(s[0]) then 1 + WordRun(s[1..]) else 0
  }

  /** The length of the run of whitespace that starts `s`: what a greedy `\s*` consumes. */
  function SpaceRun(s: JsString): (n: nat)
    ensures n <= |s|
    ensures forall k :: 0 <= k < n ==> IsJsWhitespace(s[k])
    ensures n < |s| ==> !IsJsWhitespace(s[n])
  {
    if s != [] && IsJsWhitespace(s[0]) then 1 + SpaceRun(s[1..]) else 0
  }

  /** A run is fixed by its characters: any prefix of word characters bounded by a non-word character is the run. */
  lemma {:induction false} WordRunUnique(s: JsString, n: nat)
    requires n <= |s|
    requires forall k :: 0 <= k < n ==> IsWordChar(s[k])
    requires n < |s| ==> !IsWordChar(s[n])
    ensures WordRun(s) == n
  {
    if n > 0 {
      WordRunUnique(s[1..], n - 1);
    }
  }

  lemma {:induction false} SpaceRunUnique(s: JsString, n: nat)
    requires n <= |s|
    requires forall k :: 0 <= k < n ==> IsJsWhitespace(s[k])
    requires n < |s| ==> !IsJsWhitespace(s[n])
    ensures SpaceRun(s) == n
  {
    if n > 0 {
      SpaceRunUnique(s[1..], n - 1);
    }
  }
}

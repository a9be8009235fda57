/**
 * `generateSecureId` (`src/lib/security.ts`): a `randomUUID` when the
 * runtime offers one, otherwise sixteen random bytes written as lower-case
 * hexadecimal, two digits per byte. The random source is a parameter.
 */
module SecureId {
  import opened Wrappers
  import opened JsText

  /** An element of a `Uint8Array`. */
  type Byte = b: int | 0 <= b < 256

  /** The number of random bytes of the fallback identifier. */
  const ID_BYTES: nat := 16

  /** The digit `Number.prototype.toString(16)` writes for a value below sixteen. */
  function HexDigit(d: nat): (u: CodeUnit)
    requires d < 16
    ensures IsLowerHex(u)
  {
    if d < 10 then 0x30 + d else 0x61 + (d - 10)
  }

  predicate IsLowerHex(u: CodeUnit)
  {
    (0x30 <= u <= 0x39) || (0x61 <= u <= 0x66)
  }

  /** The value of a lower-case hexadecimal digit. */
  function DigitValue(u: CodeUnit): (d: nat)
    requires IsLowerHex(u)
    ensures d < 16 && HexDigit(d) == u
  {
    if u <= 0x39 then u - 0x30 else u - 0x61 + 10
  }

  /** `n.toString(16)`: the shortest lower-case hexadecimal numeral of `n`. */
  function ToRadix16(n: nat): (r: JsString)
    ensures 1 <= |r|
    ensures forall k :: 0 <= k < |r| ==> IsLowerHex(r[k])
    ensures n >= 16 ==> r[0] != 0x30
    decreases n
  {
    if n < 16 then [HexDigit(n)] else ToRadix16(n / 16) + [HexDigit(n % 16)]
  }

  /** The number a hexadecimal numeral denotes. */
  function NumeralValue(s: JsString): (r: nat)
    requires forall k :: 0 <= k < |s| ==> IsLowerHex(s[k])
  {
    if s == [] then 0 else NumeralValue(s[..|s| - 1]) * 16 + DigitValue(s[|s| - 1])
  }

  /** The numeral denotes the number it was written from. */
  lemma {:induction false} ToRadix16Value(n: nat)
    ensures NumeralValue(ToRadix16(n)) == n
    decreases n
  {
    var r := ToRadix16(n);
    if n >= 16 {
      ToRadix16Value(n / 16);
      assert r[..|r| - 1] == ToRadix16(n / 16);
    }
  }

  /** A byte's numeral has one digit below sixteen and two from sixteen on. */
  lemma ByteNumeral(b: Byte)
    ensures b < 16 ==> ToRadix16(b) == [HexDigit(b)]
    ensures b >= 16 ==> ToRadix16(b) == [HexDigit(b / 16), HexDigit(b % 16)]
  {
    if b >= 16 {
      assert b / 16 < 16;
      assert ToRadix16(b / 16) == [HexDigit(b / 16)];
    }
  }

  /** `s.padStart(width, '0')`. */
  function PadStart(s: JsString, width: nat): (r: JsString)
    ensures |r| == if |s| >= width then |s| else width
    ensures r[|r| - |s|..] == s
    ensures forall k :: 0 <= k < |r| - |s| ==> r[k] == 0x30
  {
    if |s| >= width then s else seq(width - |s|, _ => 0x30) + s
  }

  /** `byte.toString(16).padStart(2, '0')`: two lower-case digits that read back as the byte. */
  function ByteToHex(b: Byte): (r: JsString)
    ensures |r| == 2 && IsLowerHex(r[0]) && IsLowerHex(r[1])
    ensures DigitValue(r[0]) * 16 + DigitValue(r[1]) == b
  {
    ByteDigits(b);
    PadStart(ToRadix16(b), 2)
  }

  /** `Array.from(array, byte => …).join('')`: the bytes' digit pairs in order. */
  function HexId(bytes: seq<Byte>): (r: JsString)
    ensures |r| == 2 * |bytes|
    ensures AllLowerHex(r)
  {
    if bytes == [] then []
    else
      var pair, rest := ByteToHex(bytes[0]), HexId(bytes[1..]);
      LowerHexConcat(pair, rest);
      pair + rest
  }

  predicate AllLowerHex(s: JsString)
  {
    forall k :: 0 <= k < |s| ==> IsLowerHex(s[k])
  }

  lemma LowerHexConcat(a: JsString, b: JsString)
    requires AllLowerHex(a) && AllLowerHex(b)
    ensures AllLowerHex(a + b)
  {
    forall k | 0 <= k < |a + b|
      ensures IsLowerHex((a + b)[k])
    {
      if k < |a| {
        assert (a + b)[k] == a[k];
      } else {
        assert (a + b)[k] == b[k - |a|];
      }
    }
  }

  /** Reads back a string of digit pairs; `None` for an odd length or a unit that is not a lower-case digit. */
  function ParseHexId(s: JsString): (r: Option<seq<Byte>>)
    decreases |s|
  {
    if s == [] then Some([])
    else if |s| < 2 || !IsLowerHex(s[0]) || !IsLowerHex(s[1]) then None
    else
      match ParseHexId(s[2..])
      case None => None
      case Some(rest) => Some([DigitValue(s[0]) * 16 + DigitValue(s[1])] + rest)
  }

  /** Reading a digit gives the value it was written from. */
  lemma DigitRoundTrip(d: nat)
    requires d < 16
    ensures DigitValue(HexDigit(d)) == d
  {
  }

  /** The padded numeral of a byte is its high and then its low hexadecimal digit. */
  lemma ByteDigits(b: Byte)
    ensures var r := PadStart(ToRadix16(b), 2);
      r == [HexDigit(b / 16), HexDigit(b % 16)] && DigitValue(r[0]) * 16 + DigitValue(r[1]) == b
  {
    ByteNumeral(b);
    var hi, lo := b / 16, b % 16;
    assert b == hi * 16 + lo;
    DigitRoundTrip(hi);
    DigitRoundTrip(lo);
  }

  /** Reading a digit pair in front of more text that reads back. */
  lemma ParsePair(p: JsString, rest: JsString, b: Byte, tail: seq<Byte>)
    requires |p| == 2 && IsLowerHex(p[0]) && IsLowerHex(p[1])
    requires DigitValue(p[0]) * 16 + DigitValue(p[1]) == b
    requires ParseHexId(rest) == Some(tail)
    ensures ParseHexId(p + rest) == Some([b] + tail)
  {
    var s := p + rest;
    assert s[0] == p[0] && s[1] == p[1] && s[2..] == rest;
  }

  /** Reading the identifier back gives the bytes. */
  lemma {:induction false} HexIdRoundTrip(bytes: seq<Byte>)
    ensures ParseHexId(HexId(bytes)) == Some(bytes)
  {
    if bytes != [] {
      var b, tail := bytes[0], bytes[1..];
      var p, rest := ByteToHex(b), HexId(tail);
      assert HexId(bytes) == p + rest;
      HexIdRoundTrip(tail);
      ParsePair(p, rest, b, tail);
      ConsJoin(bytes);
    }
  }

  lemma ConsJoin(bytes: seq<Byte>)
    requires bytes != []
    ensures [bytes[0]] + bytes[1..] == bytes
  {
  }

  /** Distinct byte arrays give distinct identifiers. */
  lemma HexIdInjective(a: seq<Byte>, b: seq<Byte>)
    requires HexId(a) == HexId(b)
    ensures a == b
  {
    HexIdRoundTrip(a);
    HexIdRoundTrip(b);
  }

  /**
   * `generateSecureId`: the runtime's UUID when `randomUUID` exists,
   * otherwise the hexadecimal form of the sixteen bytes drawn.
   */
  function GenerateSecureId(randomUuid: Option<JsString>, drawn: seq<Byte>): (r: JsString)
    requires |drawn| == ID_BYTES
    ensures randomUuid.Some? ==> r == randomUuid.value
    ensures randomUuid.None? ==> |r| == 32 && ParseHexId(r) == Some(drawn)
  {
    match randomUuid
    case Some(uuid) => uuid
    case None =>
      HexIdRoundTrip(drawn);
      HexId(drawn)
  }
}

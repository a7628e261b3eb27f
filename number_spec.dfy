/** The text forms of numbers that the kernel's `atoi`, `itoa`, `utoa`,
    `hex_to_string`, `uint_to_hex_string` and `uint_to_dec_string` read and
    write, as functions on byte sequences, with their round trips. */
module NumberSpec {

  import opened Bytes
  import CType
  import opened Arith

  const Minus: byte := 0x2D
  const Plus: byte := 0x2B
  const Zero: byte := 0x30

  /** The range of the i386 `int` and `unsigned int`. */
  const IntMin: int := -0x8000_0000
  const IntMax: int := 0x7FFF_FFFF
  const UintModulus: int := 0x1_0000_0000

  function Pow(b: nat, k: nat): (r: nat)
    ensures b > 0 ==> r > 0
  {
    if k == 0 then 1 else b * Pow(b, k - 1)
  }

  predicate IsDigitByte(b: byte) {
    CType.IsDigit(b)
  }

  predicate AllDigits(ds: seq<byte>) {
    forall j :: 0 <= j < |ds| ==> IsDigitByte(ds[j])
  }

  // ---------------------------------------------------------------- atoi

  /** The whitespace `atoi` skips: only space, tab, newline and carriage
      return (form feed and vertical tab, which `isspace` accepts, stop it). */
  predicate IsAtoiSpace(b: byte) {
    b == 0x20 || b == 0x09 || b == 0x0A || b == 0x0D
  }

  /** `atoi` skips a subset of what `isspace` accepts, and not all of it. */
  lemma AtoiSpaceNarrowerThanIsSpace(b: byte)
    ensures IsAtoiSpace(b) ==> CType.IsSpace(b)
    ensures CType.IsSpace(0x0C) && !IsAtoiSpace(0x0C)
  {
  }

  /** The input after the leading whitespace `atoi` skips. */
  function SkipSpaces(s: seq<byte>): (r: seq<byte>)
    ensures |r| <= |s| && r == s[|s| - |r|..]
    ensures |r| > 0 ==> !IsAtoiSpace(r[0])
    ensures forall j :: 0 <= j < |s| - |r| ==> IsAtoiSpace(s[j])
  {
    if |s| > 0 && IsAtoiSpace(s[0]) then
      var rest := SkipSpaces(s[1..]);
      assert forall j :: 1 <= j < |s| - |rest| ==> s[j] == s[1..][j - 1];
      rest
    else s
  }

  /** The longest prefix of decimal digits. */
  function LeadingDigits(s: seq<byte>): (r: seq<byte>)
    ensures |r| <= |s| && r == s[..|r|]
    ensures AllDigits(r)
    ensures |r| < |s| ==> !IsDigitByte(s[|r|])
  {
    if |s| > 0 && IsDigitByte(s[0]) then [s[0]] + LeadingDigits(s[1..]) else []
  }

  /** The value of a run of decimal digits, accumulated left to right as
      `result = result * 10 + (c - '0')`. */
  function DecValue(ds: seq<byte>): nat
    requires AllDigits(ds)
  {
    if ds == [] then 0 else DecValue(ds[..|ds| - 1]) * 10 + (ds[|ds| - 1] - Zero)
  }

  /** The input after the whitespace and an optional sign. */
  function AfterSign(s: seq<byte>): seq<byte> {
    var t := SkipSpaces(s);
    if |t| > 0 && (t[0] == Minus || t[0] == Plus) then t[1..] else t
  }

  /** The magnitude `atoi` accumulates before applying the sign. */
  function AtoiMagnitude(s: seq<byte>): nat {
    DecValue(LeadingDigits(AfterSign(s)))
  }

  /** `atoi`: skip whitespace, take an optional sign, read digits up to the
      first non-digit. */
  function AtoiOf(s: seq<byte>): int {
    var t := SkipSpaces(s);
    if |t| > 0 && t[0] == Minus then -(AtoiMagnitude(s) as int) else AtoiMagnitude(s)
  }

  /** `atoi` never has to accumulate a magnitude beyond `INT_MAX` (the C code
      overflows a signed `int` otherwise). */
  predicate AtoiDefined(s: seq<byte>) {
    AtoiMagnitude(s) <= IntMax
  }

  // ------------------------------------------------------- itoa and utoa

  /** Digit `d` of `"0123456789abcdefghijklmnopqrstuvwxyz"`. */
  function DigitChar(d: nat): (c: byte)
    requires d < 36
  {
    if d < 10 then Zero + d else 0x61 + (d - 10)
  }

  /** The value of a digit character, the inverse of `DigitChar`. */
  function DigitValue(c: byte): int {
    if c <= 0x39 then c - Zero else c - 0x61 + 10
  }

  lemma DigitCharValue(d: nat)
    requires d < 36
    ensures DigitValue(DigitChar(d)) == d
    ensures (DigitChar(d) == Zero) == (d == 0)
    ensures d < 10 <==> IsDigitByte(DigitChar(d))
    ensures d >= 10 ==> CType.IsLower(DigitChar(d))
  {
  }

  /** The digits of `v` in `base`, most significant first. */
  function Digits(v: nat, base: nat): (r: seq<byte>)
    requires 2 <= base <= 36
    ensures |r| >= 1
    decreases v
  {
    if v < base then [DigitChar(v)]
    else
      DivShrinks(v, base);
      Digits(v / base, base) + [DigitChar(v % base)]
  }

  /** The digits are lower-case digits below the base, and there are no
      leading zeros: the first digit is '0' only for the value 0. */
  lemma {:induction false} DigitsWellFormed(v: nat, base: nat)
    requires 2 <= base <= 36
    ensures forall j :: 0 <= j < |Digits(v, base)| ==>
              0 <= DigitValue(Digits(v, base)[j]) < base
              && (IsDigitByte(Digits(v, base)[j]) || CType.IsLower(Digits(v, base)[j]))
    ensures (Digits(v, base)[0] == Zero) == (v == 0)
    decreases v
  {
    if v < base {
      DigitCharValue(v);
    } else {
      DivShrinks(v, base);
      DigitsWellFormed(v / base, base);
      DigitCharValue(v % base);
      assert Digits(v, base)[0] == Digits(v / base, base)[0];
    }
  }

  /** A value below `base^k` has at most `k` digits. */
  lemma {:induction false} DigitsLength(v: nat, base: nat, k: nat)
    requires 2 <= base <= 36 && 1 <= k && v < Pow(base, k)
    ensures |Digits(v, base)| <= k
    decreases k
  {
    if v >= base {
      if k > 1 {
        assert Pow(base, k) == base * Pow(base, k - 1);
        DivBelow(v, base, Pow(base, k - 1));
        DigitsLength(v / base, base, k - 1);
      }
    }
  }

  /** The value of a digit string in `base`, read most significant first. */
  function ValueOf(ds: seq<byte>, base: nat): int {
    if ds == [] then 0 else ValueOf(ds[..|ds| - 1], base) * base + DigitValue(ds[|ds| - 1])
  }

  lemma ValueOfSnoc(ds: seq<byte>, c: byte, base: nat)
    ensures ValueOf(ds + [c], base) == ValueOf(ds, base) * base + DigitValue(c)
  {
    assert (ds + [c])[..|ds|] == ds;
  }

  /** Reading the digits back in the same base gives the value. */
  lemma {:induction false} DigitsRoundTrip(v: nat, base: nat)
    requires 2 <= base <= 36
    ensures ValueOf(Digits(v, base), base) == v
    decreases v
  {
    if v < base {
      DigitCharValue(v);
      assert Digits(v, base)[..0] == [];
    } else {
      var q, d := v / base, v % base;
      var ds := Digits(q, base);
      assert Digits(v, base) == ds + [DigitChar(d)];
      DivShrinks(v, base);
      DigitsRoundTrip(q, base);
      DigitCharValue(d);
      ValueOfSnoc(ds, DigitChar(d), base);
      DivMod(v, base);
      Rebuild(ValueOf(ds, base), q, base, d, v);
    }
  }

  lemma Rebuild(x: int, q: int, base: int, d: int, v: int)
    requires x == q && q * base + d == v
    ensures x * base + d == v
  {
  }

  /** Decimal digits read by `atoi`'s accumulation give the same value. */
  lemma {:induction false} DecValueIsValueOf(ds: seq<byte>)
    requires AllDigits(ds)
    ensures DecValue(ds) == ValueOf(ds, 10)
  {
    if ds != [] {
      DecValueIsValueOf(ds[..|ds| - 1]);
    }
  }

  /** `itoa` is defined in C for these arguments: an `int` value, and a
      negative value only in base 10 and never `INT_MIN` (whose negation
      overflows) when the base is supported. */
  predicate ItoaDefined(value: int, base: int) {
    IntMin <= value <= IntMax
    && (2 <= base <= 36 && value < 0 ==> base == 10 && value != IntMin)
  }

  /** The text `itoa` writes (without its NUL): nothing for an unsupported
      base, a '-' only for negative base-10 values, then the digits. */
  function ItoaString(value: int, base: int): seq<byte>
    requires ItoaDefined(value, base)
  {
    if base < 2 || base > 36 then []
    else if value < 0 then [Minus] + Digits(-value, 10)
    else Digits(value, base)
  }

  /** The text `utoa` writes (without its NUL). */
  function UtoaString(value: nat, base: int): seq<byte> {
    if base < 2 || base > 36 then [] else Digits(value, base)
  }

  /** The sign rule of `itoa`: a '-' appears exactly for negative base-10
      values, and nothing is written for an unsupported base. */
  lemma ItoaSign(value: int, base: int)
    requires ItoaDefined(value, base)
    ensures (base < 2 || base > 36) <==> ItoaString(value, base) == []
    ensures ItoaString(value, base) != [] ==>
              (ItoaString(value, base)[0] == Minus <==> value < 0 && base == 10)
  {
    if 2 <= base <= 36 && value >= 0 {
      DigitsWellFormed(value, base);
      DigitCharValue(0);
      assert DigitValue(Minus) < 0;
    }
  }

  /** A digit run followed by a non-digit is exactly what `LeadingDigits`
      picks out. */
  lemma {:induction false} LeadingDigitsOf(ds: seq<byte>, rest: seq<byte>)
    requires AllDigits(ds)
    requires |rest| > 0 && !IsDigitByte(rest[0])
    ensures LeadingDigits(ds + rest) == ds
  {
    if ds != [] {
      assert (ds + rest)[1..] == ds[1..] + rest;
      LeadingDigitsOf(ds[1..], rest);
    }
  }

  /** The decimal digits of `v` are all decimal digits. */
  lemma DecimalDigitsAreDigits(v: nat)
    ensures AllDigits(Digits(v, 10))
  {
    DigitsWellFormed(v, 10);
    var ds := Digits(v, 10);
    forall j | 0 <= j < |ds|
      ensures IsDigitByte(ds[j])
    {
      assert 0 <= DigitValue(ds[j]) < 10;
    }
  }

  /** `atoi` reads back the magnitude written in decimal. */
  lemma AtoiReadsDigits(v: nat, sign: seq<byte>)
    requires sign == [] || sign == [Minus]
    ensures AfterSign(sign + Digits(v, 10) + [0]) == Digits(v, 10) + [0]
    ensures AtoiMagnitude(sign + Digits(v, 10) + [0]) == v
    ensures SkipSpaces(sign + Digits(v, 10) + [0]) == sign + Digits(v, 10) + [0]
  {
    var ds := Digits(v, 10);
    DecimalDigitsAreDigits(v);
    DigitsWellFormed(v, 10);
    SignThenDigits(ds, sign);
    LeadingDigitsOf(ds, [0]);
    DecValueIsValueOf(ds);
    DigitsRoundTrip(v, 10);
  }

  /** No whitespace precedes an optional '-' and a nonempty digit run, and
      the sign is what `atoi` skips. */
  lemma SignThenDigits(ds: seq<byte>, sign: seq<byte>)
    requires sign == [] || sign == [Minus]
    requires AllDigits(ds) && |ds| > 0
    ensures SkipSpaces(sign + ds + [0]) == sign + ds + [0]
    ensures AfterSign(sign + ds + [0]) == ds + [0]
  {
    var s := sign + ds + [0];
    assert s[0] == if sign == [] then ds[0] else Minus;
    assert !IsAtoiSpace(s[0]);
    if sign == [] {
      assert s == ds + [0];
    } else {
      assert s[1..] == ds + [0];
    }
  }

  /** `atoi` applied to what `itoa` writes in base 10 gives the value back. */
  lemma ItoaAtoiRoundTrip(value: int)
    requires ItoaDefined(value, 10)
    ensures AtoiDefined(ItoaString(value, 10) + [0])
    ensures AtoiOf(ItoaString(value, 10) + [0]) == value
  {
    if value < 0 {
      AtoiReadsDigits(-value, [Minus]);
    } else {
      AtoiReadsDigits(value, []);
      DigitsWellFormed(value, 10);
      DigitCharValue(0);
      assert DigitValue(Minus) < 0;
    }
  }

  /** `atoi` applied to what `utoa` writes in base 10 gives the value back,
      for every value that fits an `int`. */
  lemma UtoaAtoiRoundTrip(value: nat)
    requires value <= IntMax
    ensures AtoiOf(UtoaString(value, 10) + [0]) == value
  {
    AtoiReadsDigits(value, []);
    DigitsWellFormed(value, 10);
    DigitCharValue(0);
    assert DigitValue(Minus) < 0;
  }

  // ------------------------------------------------------------ hexadecimal

  /** Nibble `k` of `v`: `(v >> (k * 4)) & 0xF`. */
  function Nibble(v: nat, k: nat): (d: nat)
    ensures d < 16
  {
    (v / Pow(16, k)) % 16
  }

  /** Character `d` of `"0123456789ABCDEF"` or `"0123456789abcdef"`. */
  function HexChar(d: nat, upper: bool): byte
    requires d < 16
  {
    if d < 10 then Zero + d else (if upper then 0x41 else 0x61) + (d - 10)
  }

  /** The value of a hexadecimal digit of either case. */
  function HexValue(c: byte): int {
    if c <= 0x39 then c - Zero else if c <= 0x46 then c - 0x41 + 10 else c - 0x61 + 10
  }

  /** The eight hexadecimal digits of a 32-bit value, most significant
      nibble first. */
  function HexDigits(v: nat, upper: bool): (r: seq<byte>)
    ensures |r| == 8
  {
    seq(8, i requires 0 <= i < 8 => HexChar(Nibble(v, 7 - i), upper))
  }

  /** The eleven bytes written by `hex_to_string` and `uint_to_hex_string`:
      "0x", eight digits, NUL. */
  function HexString(v: nat, upper: bool): (r: seq<byte>)
    ensures |r| == 11 && r[0] == Zero && r[1] == 'x' as int && r[10] == 0
    ensures r[2..10] == HexDigits(v, upper)
  {
    [Zero, 'x' as int] + HexDigits(v, upper) + [0]
  }

  /** The value of a string of hexadecimal digits, most significant first. */
  function ParseHex(ds: seq<byte>): int {
    if ds == [] then 0 else ParseHex(ds[..|ds| - 1]) * 16 + HexValue(ds[|ds| - 1])
  }

  lemma HexCharValue(d: nat, upper: bool)
    requires d < 16
    ensures HexValue(HexChar(d, upper)) == d
  {
  }

  /** The digits are upper-case exactly when asked for. */
  lemma HexDigitsCase(v: nat, upper: bool, i: nat)
    requires i < 8
    ensures CType.IsDigit(HexDigits(v, upper)[i])
            || (upper && CType.IsUpper(HexDigits(v, upper)[i]))
            || (!upper && CType.IsLower(HexDigits(v, upper)[i]))
  {
  }

  /** Reading the first `k` hexadecimal digits gives the value shifted right
      by the remaining `8 - k` nibbles. */
  lemma {:induction false} ParseHexPrefix(v: nat, upper: bool, k: nat)
    requires v < UintModulus && k <= 8
    ensures ParseHex(HexDigits(v, upper)[..k]) == v / Pow(16, 8 - k)
  {
    var ds := HexDigits(v, upper);
    if k == 0 {
      assert Pow(16, 8) == UintModulus;
    } else {
      ParseHexPrefix(v, upper, k - 1);
      var a := Pow(16, 8 - k);
      PowStep(8 - k);
      ParseHexPrefixSnoc(ds, k);
      HexDigitValue(v, upper, k - 1);
      ShiftInNibble(v, a);
    }
  }

  lemma PowStep(n: nat)
    ensures Pow(16, n + 1) == Pow(16, n) * 16
  {
  }

  lemma ParseHexPrefixSnoc(ds: seq<byte>, k: nat)
    requires 1 <= k <= |ds|
    ensures ParseHex(ds[..k]) == ParseHex(ds[..k - 1]) * 16 + HexValue(ds[k - 1])
  {
    assert ds[..k] == ds[..k - 1] + [ds[k - 1]];
    ParseHexSnoc(ds[..k - 1], ds[k - 1]);
  }

  /** Digit `i` of `HexDigits` has the value of nibble `7 - i`. */
  lemma HexDigitValue(v: nat, upper: bool, i: nat)
    requires i < 8
    ensures HexValue(HexDigits(v, upper)[i]) == (v / Pow(16, 7 - i)) % 16
  {
    HexCharValue(Nibble(v, 7 - i), upper);
  }

  /** Shifting the value above a nibble back in and adding the nibble. */
  lemma ShiftInNibble(v: nat, a: nat)
    requires a > 0
    ensures v / (a * 16) * 16 + (v / a) % 16 == v / a
  {
    DivDiv(v, a, 16);
    DivMod(v / a, 16);
  }

  lemma ParseHexSnoc(ds: seq<byte>, c: byte)
    ensures ParseHex(ds + [c]) == ParseHex(ds) * 16 + HexValue(c)
  {
    assert (ds + [c])[..|ds|] == ds;
  }

  /** Parsing the digits of `hex_to_string` gives the value back. */
  lemma HexRoundTrip(v: nat, upper: bool)
    requires v < UintModulus
    ensures ParseHex(HexDigits(v, upper)) == v
  {
    ParseHexPrefix(v, upper, 8);
    assert HexDigits(v, upper)[..8] == HexDigits(v, upper);
  }
}

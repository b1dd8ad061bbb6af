/** The byte layer of the framework's colour helpers: the 24-bit key that
    identifies a scene object (`GG.rgbToInt`) and the `#rrggbb` text form
    used by the colour pickers (`GG.rgb2Hex`, `GG.hex2Rgb`). Colours are
    byte triples; the float channels of the source are the bytes divided
    by 255, a scaling this model leaves out. */
module Colour {
  import opened Common

  datatype Rgb = Rgb(r: Byte, g: Byte, b: Byte)

  const KEY_SPACE: int := 0x100_0000

  /** JavaScript `x << 8` and `x << 16`: ToInt32 of the operand, shifted,
      wrapped to 32 bits again. */
  function Shl8(x: int): int {
    Int32(Int32(x) * 256)
  }

  function Shl16(x: int): int {
    Int32(Int32(x) * 65536)
  }

  /** `GG.rgbToInt`: `((r << 8) + g << 8) + b` with JavaScript's 32-bit
      shifts and unbounded (float) additions. On bytes nothing wraps, so
      the key is the plain base-256 number r g b. */
  function RgbToInt(r: Byte, g: Byte, b: Byte): (k: int)
    ensures k == r as int * 65536 + g as int * 256 + b as int
    ensures 0 <= k < KEY_SPACE
  {
    Shl8(Shl8(r as int) + g as int) + b as int
  }

  /** The key a colour is registered under in a scene. */
  function Key(c: Rgb): int {
    RgbToInt(c.r, c.g, c.b)
  }

  /** The byte triple a key in [0, 2^24) stands for. */
  function KeyToRgb(k: int): (c: Rgb)
    requires 0 <= k < KEY_SPACE
  {
    Rgb((k / 65536) as Byte, (k / 256 % 256) as Byte, (k % 256) as Byte)
  }

  lemma {:induction false} KeyRoundTrip(c: Rgb)
    ensures KeyToRgb(Key(c)) == c
  {
    var k := Key(c);
    DivModUnique(k, 65536, c.r as int, c.g as int * 256 + c.b as int);
    DivModUnique(k, 256, c.r as int * 256 + c.g as int, c.b as int);
    DivModUnique(c.r as int * 256 + c.g as int, 256, c.r as int, c.g as int);
  }

  /** Distinct byte triples get distinct keys, so a key identifies a colour. */
  lemma KeyInjective(c1: Rgb, c2: Rgb)
    ensures Key(c1) == Key(c2) <==> c1 == c2
  {
    KeyRoundTrip(c1);
    KeyRoundTrip(c2);
  }

  // ---------------------------------------------------------------- hex text

  predicate IsHexChar(ch: char) {
    '0' <= ch <= '9' || 'a' <= ch <= 'f' || 'A' <= ch <= 'F'
  }

  function HexValue(ch: char): (v: nat)
    requires IsHexChar(ch)
    ensures v < 16
  {
    if '0' <= ch <= '9' then (ch - '0') as nat
    else if 'a' <= ch <= 'f' then (ch - 'a') as nat + 10
    else (ch - 'A') as nat + 10
  }

  predicate AllHex(s: string) {
    forall i :: 0 <= i < |s| ==> IsHexChar(s[i])
  }

  /** The digit `Number.prototype.toString(16)` writes: lower case. */
  function HexDigit(d: nat): (ch: char)
    requires d < 16
    ensures IsHexChar(ch) && HexValue(ch) == d
    ensures !('A' <= ch <= 'F')
  {
    if d < 10 then ('0' as int + d) as char else ('a' as int + d - 10) as char
  }

  /** `n.toString(16)` for a non-negative integer: no leading zeros. */
  function ToHexString(n: nat): (s: string)
    ensures |s| >= 1
    ensures AllHex(s)
    decreases n
  {
    if n < 16 then [HexDigit(n)] else ToHexString(n / 16) + [HexDigit(n % 16)]
  }

  /** `parseInt(s, 16)` on a non-empty string of hex digits, most
      significant digit first. */
  function ParseHex(s: string): (v: nat)
    requires AllHex(s)
    decreases |s|
  {
    if |s| == 0 then 0 else ParseHex(s[..|s| - 1]) * 16 + HexValue(s[|s| - 1])
  }

  /** `GG.rgb2Hex`: pack with `b | g << 8 | r << 16` (32-bit bitwise), add
      0x1000000 so that `toString(16)` always writes seven digits, and drop
      the leading `1` with `slice(1)`. */
  function Rgb2Hex(red: Byte, green: Byte, blue: Byte): string {
    var rgb := BitOr(BitOr(blue as nat, Shl8(green as int) as nat), Shl16(red as int) as nat);
    var s := ToHexString(0x100_0000 + rgb);
    "#" + s[1..]
  }

  /** What survives `hex.replace(/[^0-9A-F]/gi, '')`. */
  function StripNonHex(s: string): (t: string)
    ensures AllHex(t)
    ensures |t| <= |s|
  {
    if |s| == 0 then []
    else if IsHexChar(s[0]) then [s[0]] + StripNonHex(s[1..])
    else StripNonHex(s[1..])
  }

  // ------------------------------------------------------ JavaScript numbers

  /** 2^53: every integer below it is exactly a JavaScript number. */
  const TWO_53: nat := 0x20_0000_0000_0000

  /** 2^1024: a number that rounds to this or beyond is `Infinity`. */
  const DOUBLE_OVERFLOW: nat := TWO_53 * Pow(2, 971)

  /** The spacing of the doubles around `n`: the least power of two, from
      `u` upwards, whose 2^53 multiples pass `n`. */
  function Spacing(n: nat, u: nat): (v: nat)
    requires u > 0
    ensures u <= v && n < TWO_53 * v
    decreases n - u
  {
    if n < TWO_53 * u then u else Spacing(n, 2 * u)
  }

  /** `n` rounded to 53 significant bits, to nearest with ties to even, as
      the conversion of an exact integer to a JavaScript number does. */
  function RoundToDouble(n: nat): nat {
    var u := Spacing(n, 1);
    var q, r := n / u, n % u;
    var up := 2 * r > u || (2 * r == u && q % 2 == 1);
    (if up then q + 1 else q) * u
  }

  /** The JavaScript number `parseInt` returns for the exact value `n` of
      its digits: the rounded value, or `None` for `Infinity`. */
  function NumberOf(n: nat): Option<nat> {
    var d := RoundToDouble(n);
    if d < DOUBLE_OVERFLOW then Some(d) else None
  }

  /** `GG.hex2Rgb` at the byte level. `parseInt(hex, 16)` reads the digits
      exactly and rounds the value to a number; an empty digit string gives
      NaN. `>>` and `&` apply ToInt32, which maps NaN and `Infinity` to 0;
      `>>` is then an arithmetic shift (floor division by a power of two)
      and `& 255` keeps the low eight bits of the two's complement value
      (Euclidean `% 256`). */
  function Hex2Rgb(hex: string): Rgb {
    LowBytes(HexInt32(StripNonHex(hex)))
  }

  /** ToInt32 of `parseInt(digits, 16)`. */
  function HexInt32(digits: string): int
    requires AllHex(digits)
  {
    if |digits| == 0 then 0
    else match NumberOf(ParseHex(digits))
         case None => 0
         case Some(d) => Int32(d)
  }

  /** `(v >> 16) & 255`, `(v >> 8) & 255` and `v & 255`. */
  function LowBytes(v: int): Rgb {
    Rgb((v / 65536 % 256) as Byte, (v / 256 % 256) as Byte, (v % 256) as Byte)
  }

  /** Integers below 2^53 are numbers exactly. */
  lemma NumberExact(n: nat)
    requires n < TWO_53
    ensures NumberOf(n) == Some(n)
  {
    assert Spacing(n, 1) == 1;
    PowPositive(2, 971);
    MulLe(1, Pow(2, 971), TWO_53);
  }

  /** The rounding is to a multiple of the spacing, at most half a spacing
      away from the exact value. */
  lemma RoundNearest(n: nat)
    ensures var u, d := Spacing(n, 1), RoundToDouble(n);
            d % u == 0 && 2 * (d as int - n) <= u && 2 * (n - d as int) <= u
  {
    var u := Spacing(n, 1);
    var q, r := n / u, n % u;
    var up := 2 * r > u || (2 * r == u && q % 2 == 1);
    var q' := if up then q + 1 else q;
    DivModUnique(q' * u, u, q', 0);
    assert n == q * u + r;
    assert q' * u == q * u + (if up then u else 0);
  }

  /** Above 2^53 digits are lost: 2^53 + 1 lies halfway between the numbers
      2^53 and 2^53 + 2 and rounds to the even one, 2^53. */
  lemma NumberAboveTwo53()
    ensures NumberOf(TWO_53 + 1) == Some(TWO_53)
  {
    assert Spacing(TWO_53 + 1, 2) == 2;
    assert Spacing(TWO_53 + 1, 1) == 2;
    DivModUnique(TWO_53 + 1, 2, TWO_53 / 2, 1);
    PowPositive(2, 971);
    MulLe(2, Pow(2, 971), TWO_53);
  }

  /** So a hex string whose digits are worth 2^53 + 1, such as
      `"20000000000001"`, decodes to black although the low byte of its
      exact value is 1. */
  lemma Hex2RgbLosesDigits(hex: string)
    requires ParseHex(StripNonHex(hex)) == TWO_53 + 1
    ensures Hex2Rgb(hex) == Rgb(0, 0, 0)
    ensures (TWO_53 + 1) % KEY_SPACE == 1
  {
    HexInt32Above(StripNonHex(hex));
    DivModUnique(TWO_53 + 1, KEY_SPACE, TWO_53 / KEY_SPACE, 1);
  }

  lemma HexInt32Above(digits: string)
    requires AllHex(digits) && ParseHex(digits) == TWO_53 + 1
    ensures HexInt32(digits) == 0
  {
    NumberAboveTwo53();
    Int32TwoFiftyThree();
  }

  lemma Int32TwoFiftyThree()
    ensures Int32(TWO_53) == 0
  {
    DivModUnique(TWO_53 + TWO_31, TWO_32, 0x20_0000, TWO_31);
  }

  /** Up to 13 digits the value is exact, and the colour is the low 24 bits
      of the digits' value. */
  lemma Hex2RgbShort(hex: string)
    requires |StripNonHex(hex)| <= 13
    ensures |StripNonHex(hex)| == 0 ==> Hex2Rgb(hex) == Rgb(0, 0, 0)
    ensures Key(Hex2Rgb(hex)) == ParseHex(StripNonHex(hex)) % KEY_SPACE
  {
    var digits := StripNonHex(hex);
    assert Hex2Rgb(hex) == LowBytes(HexInt32(digits));
    HexKeyShort(digits);
  }

  lemma HexKeyShort(digits: string)
    requires AllHex(digits) && |digits| <= 13
    ensures Key(LowBytes(HexInt32(digits))) == ParseHex(digits) % KEY_SPACE
  {
    var n, i := ParseHex(digits), HexInt32(digits);
    HexInt32Short(digits);
    LowBytesKey(i);
    CongruentLow24(i, n);
  }

  /** Up to 13 digits ToInt32 only wraps the exact value. */
  lemma HexInt32Short(digits: string)
    requires AllHex(digits) && |digits| <= 13
    ensures (HexInt32(digits) - ParseHex(digits)) % TWO_32 == 0
  {
    if |digits| > 0 {
      ParseHexBound(digits);
      PowMono(16, |digits|, 13);
      PowThirteen();
      HexInt32Exact(digits);
    }
  }

  lemma PowThirteen()
    ensures Pow(16, 13) < TWO_53
  {
    assert Pow(16, 13) == 0x10_0000_0000_0000;
  }

  lemma HexInt32Exact(digits: string)
    requires AllHex(digits) && |digits| > 0 && ParseHex(digits) < TWO_53
    ensures HexInt32(digits) == Int32(ParseHex(digits))
  {
    NumberExact(ParseHex(digits));
  }

  /** The three masked shifts of `hex2Rgb` keep the low 24 bits. */
  lemma LowBytesKey(v: int)
    ensures Key(LowBytes(v)) == v % KEY_SPACE
  {
    BytesOfLow24(v);
  }

  lemma {:induction false} ParseHexBound(s: string)
    requires AllHex(s)
    ensures ParseHex(s) < Pow(16, |s|)
    decreases |s|
  {
    if |s| > 0 {
      AllHexSlice(s, 0, |s| - 1);
      ParseHexBound(s[..|s| - 1]);
      MulLe(ParseHex(s[..|s| - 1]) + 1, Pow(16, |s| - 1), 16);
    }
  }

  lemma {:induction false} PowMono(b: nat, i: nat, j: nat)
    requires b > 0 && i <= j
    ensures Pow(b, i) <= Pow(b, j)
    decreases j
  {
    if i < j {
      PowMono(b, i, j - 1);
      MulLe(1, b, Pow(b, j - 1));
    }
  }

  /** The three masked shifts of `hex2Rgb` read the low 24 bits of a
      32-bit value. */
  lemma BytesOfLow24(i: int)
    ensures (i / 65536 % 256) * 65536 + (i / 256 % 256) * 256 + i % 256 == i % KEY_SPACE
  {
    var q, low := i / KEY_SPACE, i % KEY_SPACE;
    var a, rest := low / 65536, low % 65536;
    var b, c := rest / 256, rest % 256;
    DivModUnique(i, 65536, q * 256 + a, rest);
    DivModUnique(q * 256 + a, 256, q, a);
    DivModUnique(i, 256, q * 65536 + a * 256 + b, c);
    DivModUnique(q * 65536 + a * 256 + b, 256, q * 256 + a, b);
  }

  /** Values that agree modulo 2^32 agree modulo 2^24. */
  lemma CongruentLow24(i: int, n: int)
    requires (i - n) % TWO_32 == 0
    ensures i % KEY_SPACE == n % KEY_SPACE
  {
    var t := (i - n) / TWO_32;
    assert i == n + t * 256 * KEY_SPACE;
    DivModUnique(i, KEY_SPACE, n / KEY_SPACE + t * 256, n % KEY_SPACE);
  }

  /** On bytes the bitwise OR in `GG.rgb2Hex` packs the same number as
      `GG.rgbToInt`: the three shifted fields do not overlap. */
  lemma PackBits(red: Byte, green: Byte, blue: Byte)
    ensures BitOr(BitOr(blue as nat, Shl8(green as int) as nat), Shl16(red as int) as nat)
            == RgbToInt(red, green, blue)
  {
    assert Pow(2, 8) == 256 && Pow(2, 16) == 65536;
    BitOrDisjoint(blue as nat, green as nat, 8);
    BitOrDisjoint(blue as nat + green as nat * 256, red as nat, 16);
  }

  lemma {:induction false} ParseToHexString(n: nat)
    ensures ParseHex(ToHexString(n)) == n
    decreases n
  {
    if n >= 16 {
      ParseToHexString(n / 16);
      var s := ToHexString(n);
      assert s[..|s| - 1] == ToHexString(n / 16);
    }
  }

  lemma {:induction false} ToHexStringLength(n: nat, k: nat)
    requires Pow(16, k) <= n < Pow(16, k + 1)
    ensures |ToHexString(n)| == k + 1
    ensures HexValue(ToHexString(n)[0]) == n / Pow(16, k)
    decreases k
  {
    if k > 0 {
      var p, p1 := Pow(16, k - 1), Pow(16, k);
      assert p1 == 16 * p;
      assert Pow(16, k + 1) == 16 * p1;
      PowPositive(16, k - 1);
      DivBounds(n, 16, p, p1);
      ToHexStringLength(n / 16, k - 1);
      DivDiv(n, 16, p);
      assert ToHexString(n)[0] == ToHexString(n / 16)[0];
    }
  }

  lemma DivDiv(n: nat, a: nat, b: nat)
    requires a > 0 && b > 0
    ensures n / a / b == n / (a * b)
  {
    var q, r := n / a, n % a;
    var q2, r2 := q / b, q % b;
    assert n == q * a + r;
    assert q == q2 * b + r2;
    DivDivStep(n, a, b, q2, r2, r);
  }

  lemma DivDivStep(n: nat, a: nat, b: nat, q2: nat, r2: nat, r: nat)
    requires a > 0 && b > 0 && r < a && r2 < b && n == (q2 * b + r2) * a + r
    ensures n / (a * b) == q2
  {
    Regroup(q2, b, r2, a);
    RemainderBelow(r2, b, r, a);
    DivModUnique(n, a * b, q2, r2 * a + r);
  }

  lemma Regroup(q: int, b: int, r: int, a: int)
    ensures (q * b + r) * a == q * (a * b) + r * a
  {
  }

  lemma RemainderBelow(r2: nat, b: nat, r: nat, a: nat)
    requires r2 < b && r < a
    ensures r2 * a + r < a * b
  {
    MulLe(r2, b - 1, a);
  }

  lemma AllHexConcat(a: string, b: string)
    requires AllHex(a) && AllHex(b)
    ensures AllHex(a + b)
  {
    var ab := a + b;
    forall i | 0 <= i < |ab| ensures IsHexChar(ab[i]) {
      if i < |a| { assert ab[i] == a[i]; } else { assert ab[i] == b[i - |a|]; }
    }
  }

  lemma AllHexSlice(s: string, i: nat, j: nat)
    requires AllHex(s) && i <= j <= |s|
    ensures AllHex(s[i..j])
  {
    var t := s[i..j];
    forall k | 0 <= k < |t| ensures IsHexChar(t[k]) { assert t[k] == s[i + k]; }
  }

  /** Parsing a concatenation: the left part is worth 16^|b| times more. */
  lemma {:induction false} ParseHexAppend(a: string, b: string)
    requires AllHex(a) && AllHex(b)
    ensures AllHex(a + b)
    ensures ParseHex(a + b) == ParseHex(a) * Pow(16, |b|) + ParseHex(b)
    decreases |b|
  {
    AllHexConcat(a, b);
    var ab := a + b;
    if |b| == 0 {
      assert ab == a;
    } else {
      var b0 := b[..|b| - 1];
      AllHexSlice(b, 0, |b| - 1);
      ParseHexAppend(a, b0);
      assert ab[..|ab| - 1] == a + b0;
      assert ab[|ab| - 1] == b[|b| - 1];
      var l := HexValue(b[|b| - 1]);
      var pa, pb0 := ParseHex(a), ParseHex(b0);
      var q := Pow(16, |b0|);
      calc {
        ParseHex(ab);
        ParseHex(a + b0) * 16 + l;
        (pa * q + pb0) * 16 + l;
        { ShiftDigit(pa, q, pb0, l); }
        pa * (16 * q) + (pb0 * 16 + l);
        pa * Pow(16, |b|) + ParseHex(b);
      }
    }
  }

  lemma ShiftDigit(pa: int, q: int, pb: int, l: int)
    ensures (pa * q + pb) * 16 + l == pa * (16 * q) + (pb * 16 + l)
  {
  }

  /** Reading the leading digit off a hex string. */
  lemma ParseHexHead(s: string)
    requires |s| >= 1 && AllHex(s)
    ensures AllHex(s[1..])
    ensures ParseHex(s) == HexValue(s[0]) * Pow(16, |s| - 1) + ParseHex(s[1..])
  {
    var a, b := s[..1], s[1..];
    AllHexSlice(s, 0, 1);
    AllHexSlice(s, 1, |s|);
    assert s == a + b;
    ParseHexAppend(a, b);
    assert ParseHex(a) == HexValue(s[0]) by {
      assert a[..0] == [];
    }
  }

  lemma {:induction false} StripKeepsHex(t: string)
    requires AllHex(t)
    ensures StripNonHex(t) == t
    decreases |t|
  {
    if |t| > 0 {
      StripKeepsHex(t[1..]);
    }
  }

  /** `GG.rgb2Hex` always yields `#` and exactly six lower-case hex digits:
      adding 0x1000000 before `toString(16)` and slicing off the `1` keeps
      the leading zeros of small channels. The digits read back as the
      24-bit key. */
  lemma Rgb2HexFormat(red: Byte, green: Byte, blue: Byte)
    ensures |Rgb2Hex(red, green, blue)| == 7
    ensures Rgb2Hex(red, green, blue)[0] == '#'
    ensures forall i :: 1 <= i < 7 ==>
              IsHexChar(Rgb2Hex(red, green, blue)[i]) && !('A' <= Rgb2Hex(red, green, blue)[i] <= 'F')
    ensures ParseHex(Rgb2Hex(red, green, blue)[1..]) == RgbToInt(red, green, blue)
  {
    PackBits(red, green, blue);
    var k := RgbToInt(red, green, blue);
    var n := 0x100_0000 + k;
    assert Pow(16, 6) == 0x100_0000 && Pow(16, 7) == 0x1000_0000;
    ToHexStringLength(n, 6);
    var s := ToHexString(n);
    assert n / Pow(16, 6) == 1;
    assert HexValue(s[0]) == 1;
    ParseToHexString(n);
    ParseHexHead(s);
    var h := Rgb2Hex(red, green, blue);
    assert h == "#" + s[1..];
    assert h[1..] == s[1..];
    forall i | 1 <= i < 7
      ensures IsHexChar(h[i]) && !('A' <= h[i] <= 'F')
    {
      assert h[i] == s[i];
      HexStringLower(n, i);
    }
  }

  lemma {:induction false} HexStringLower(n: nat, i: nat)
    requires i < |ToHexString(n)|
    ensures !('A' <= ToHexString(n)[i] <= 'F')
    decreases n
  {
    if n >= 16 && i < |ToHexString(n)| - 1 {
      HexStringLower(n / 16, i);
    }
  }

  /** The hex round trip at the byte level: `hex2Rgb(rgb2Hex(r, g, b))`
      recovers the same three bytes. */
  lemma Hex2RgbRoundTrip(red: Byte, green: Byte, blue: Byte)
    ensures Hex2Rgb(Rgb2Hex(red, green, blue)) == Rgb(red, green, blue)
  {
    Rgb2HexFormat(red, green, blue);
    var h := Rgb2Hex(red, green, blue);
    var t := h[1..];
    assert h == [h[0]] + t;
    assert !IsHexChar(h[0]);
    StripKeepsHex(t);
    assert StripNonHex(h) == t;
    HexInt32Exact(t);
    LowBytesOfKey(Rgb(red, green, blue));
  }

  lemma LowBytesOfKey(c: Rgb)
    ensures LowBytes(Key(c)) == c
  {
    KeyRoundTrip(c);
  }
}

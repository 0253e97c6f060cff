/**
 Hexadecimal, fixed-width and two's-complement encodings of integers
 (packages/common/src/utils.ts).
 */
module HexCodec {
  import opened Results
  import opened Bytes

  const DIGITS := "0123456789abcdef"

  function HexChar(d: nat): char
    requires d < 16
  {
    DIGITS[d]
  }

  /** The digits that parseInt and BigInt accept in base 16. */
  function DigitValue(ch: char): Option<nat> {
    if '0' <= ch <= '9' then Some(ch as int - '0' as int)
    else if 'a' <= ch <= 'f' then Some(ch as int - 'a' as int + 10)
    else if 'A' <= ch <= 'F' then Some(ch as int - 'A' as int + 10)
    else None
  }

  predicate IsHex(s: string) {
    forall i :: 0 <= i < |s| ==> DigitValue(s[i]).Some?
  }

  /** The number that BigInt reads from the digits after "0x". */
  function HexValue(s: string): nat
    requires IsHex(s)
  {
    if s == "" then 0
    else HexValue(s[..|s| - 1]) * 16 + DigitValue(s[|s| - 1]).value
  }

  /** `v.toString(16)`. */
  function ToHex(v: nat): string {
    if v < 16 then [HexChar(v)] else ToHex(v / 16) + [HexChar(v % 16)]
  }

  function PadStart(s: string, n: nat): string
    decreases n - |s|
  {
    if |s| >= n then s else PadStart("0" + s, n)
  }

  function IntToHex(v: nat, byteLength: nat): string {
    PadStart(ToHex(v), byteLength * 2)
  }

  function HexPair(u: byte): string {
    [HexChar(u / 16), HexChar(u % 16)]
  }

  function HexOf(b: bytes): string {
    if b == [] then "" else HexOf(b[..|b| - 1]) + HexPair(b[|b| - 1])
  }

  method BytesToHex(b: array<byte>) returns (hex: string)
    ensures hex == HexOf(b[..])
  {
    hex := "";
    for i := 0 to b.Length
      invariant hex == HexOf(b[..i])
    {
      assert b[..i + 1][..i] == b[..i];
      hex := hex + HexPair(b[i]);
    }
    assert b[..b.Length] == b[..];
  }

  predicate IsJsSpace(ch: char) {
    var u := ch as int;
    || 0x09 <= u <= 0x0D || u == 0x20 || u == 0xA0 || u == 0x1680 || 0x2000 <= u <= 0x200A
    || u == 0x2028 || u == 0x2029 || u == 0x202F || u == 0x205F || u == 0x3000 || u == 0xFEFF
  }

  /**
   `Number.parseInt` on two characters, with the NaN and negative results that
   make hexToBytes throw mapped to None. A leading blank or sign is skipped, a
   trailing non-digit is ignored, and "0x" is a prefix without digits.
   */
  function ParsePair(c0: char, c1: char): Option<byte> {
    match (DigitValue(c0), DigitValue(c1))
    case (Some(d0), Some(d1)) => Some(16 * d0 + d1)
    case (Some(d0), None) => if c0 == '0' && (c1 == 'x' || c1 == 'X') then None else Some(d0)
    case (None, Some(d1)) =>
      if c0 == '+' || IsJsSpace(c0) then Some(d1)
      else if c0 == '-' && d1 == 0 then Some(0)
      else None
    case (None, None) => None
  }

  function ParsePairs(h: string): Option<bytes>
    requires |h| % 2 == 0
  {
    if h == "" then Some([])
    else
      var front := ParsePairs(h[..|h| - 2]);
      var last := ParsePair(h[|h| - 2], h[|h| - 1]);
      if front.Some? && last.Some? then Some(front.value + [last.value]) else None
  }

  function Without0x(s: string): string {
    if |s| >= 2 && s[0] == '0' && (s[1] == 'x' || s[1] == 'X') then s[2..] else s
  }

  /** The digits hexToBytes works on: no "0x", and an even number of them. */
  function Normalized(hex: string): (h: string)
    ensures |h| % 2 == 0
  {
    var h := Without0x(hex);
    if |h| % 2 == 1 then "0" + h else h
  }

  function ParseHex(hex: string): Option<bytes> {
    ParsePairs(Normalized(hex))
  }

  method HexToBytes(hex: string) returns (r: Option<array<byte>>)
    ensures r.Some? <==> ParseHex(hex).Some?
    ensures r.Some? ==> fresh(r.value) && r.value[..] == ParseHex(hex).value
  {
    hide ParsePair, Normalized;
    var h := Normalized(hex);
    var a := new byte[|h| / 2];
    for i := 0 to a.Length
      invariant ParsePairs(h[..2 * i]) == Some(a[..i])
    {
      var j := i * 2;
      var byte := ParsePair(h[j], h[j + 1]);
      ParseOneMore(h, j);
      if byte.None? {
        FailureSpreads(h, j + 2);
        return None;
      }
      ghost var front := a[..i];
      a[i] := byte.value;
      assert a[..i + 1] == front + [byte.value];
    }
    assert h[..2 * a.Length] == h && a[..a.Length] == a[..];
    r := Some(a);
  }

  lemma ParseOneMore(h: string, j: nat)
    requires j % 2 == 0 && j + 2 <= |h| && ParsePairs(h[..j]).Some?
    ensures var u := ParsePair(h[j], h[j + 1]);
            ParsePairs(h[..j + 2]) == if u.None? then None else Some(ParsePairs(h[..j]).value + [u.value])
  {
    assert h[..j + 2][..j] == h[..j];
  }

  lemma {:induction false} FailureSpreads(h: string, n: nat)
    requires |h| % 2 == 0 && n % 2 == 0 && n <= |h|
    requires ParsePairs(h[..n]).None?
    ensures ParsePairs(h).None?
  {
    if n == |h| {
      assert h[..n] == h;
    } else {
      assert h[..|h| - 2][..n] == h[..n];
      FailureSpreads(h[..|h| - 2], n);
    }
  }

  /** bigIntToBytes, for the non-negative numbers it is called with. */
  function IntToBytes(v: nat, length: nat): bytes {
    IntToHexIsHex(v, length);
    ParseHexValue(IntToHex(v, length));
    ParseHex(IntToHex(v, length)).value
  }

  // ----- values of digit strings

  lemma {:induction false} HexValuePrependZero(s: string)
    requires IsHex(s)
    ensures IsHex("0" + s) && HexValue("0" + s) == HexValue(s)
  {
    var t := "0" + s;
    if s != "" {
      assert t[..|t| - 1] == "0" + s[..|s| - 1];
      HexValuePrependZero(s[..|s| - 1]);
    } else {
      assert t[..0] == "";
    }
  }

  lemma {:induction false} PadStartValue(s: string, n: nat)
    requires IsHex(s)
    ensures IsHex(PadStart(s, n)) && HexValue(PadStart(s, n)) == HexValue(s)
    ensures |PadStart(s, n)| == if |s| >= n then |s| else n
    decreases n - |s|
  {
    if |s| < n {
      HexValuePrependZero(s);
      PadStartValue("0" + s, n);
    }
  }

  lemma {:induction false} ToHexValue(v: nat)
    ensures IsHex(ToHex(v)) && HexValue(ToHex(v)) == v
  {
    if v >= 16 {
      ToHexValue(v / 16);
      HexAppend(ToHex(v / 16), v % 16);
    } else {
      HexAppend("", v);
      assert ToHex(v) == "" + [HexChar(v)];
    }
  }

  /** `toString(16)` writes no leading zero. */
  lemma {:induction false} ToHexIsShort(v: nat, k: nat)
    requires k >= 1 && v < Pow(16, k)
    ensures |ToHex(v)| <= k
  {
    if v >= 16 {
      assert Pow(16, 1) == 16 * Pow(16, 0);
      assert v / 16 < Pow(16, k - 1);
      ToHexIsShort(v / 16, k - 1);
    }
  }

  lemma IntToHexIsHex(v: nat, length: nat)
    ensures IsHex(IntToHex(v, length)) && HexValue(IntToHex(v, length)) == v
    ensures |IntToHex(v, length)| >= 2 * length
  {
    ToHexValue(v);
    PadStartValue(ToHex(v), length * 2);
  }

  lemma {:induction false} ParsePairsValue(h: string)
    requires IsHex(h) && |h| % 2 == 0
    ensures ParsePairs(h).Some?
    ensures |ParsePairs(h).value| * 2 == |h| && FromBE(ParsePairs(h).value) == HexValue(h)
  {
    if h != "" {
      var front := h[..|h| - 2];
      ParsePairsValue(front);
      var b := ParsePairs(h).value;
      assert b[..|b| - 1] == ParsePairs(front).value;
      assert h[..|h| - 1][..|h| - 2] == front;
    }
  }

  /** On hexadecimal digits hexToBytes agrees with BigInt, and rounds the length up. */
  lemma ParseHexValue(h: string)
    requires IsHex(h)
    ensures ParseHex(h).Some?
    ensures |ParseHex(h).value| == (|h| + 1) / 2 && FromBE(ParseHex(h).value) == HexValue(h)
  {
    if |h| >= 2 {
      assert DigitValue(h[1]).Some?;
    }
    assert Without0x(h) == h;
    HexValuePrependZero(h);
    ParsePairsValue(Normalized(h));
  }

  lemma HexAppend(s: string, d: nat)
    requires IsHex(s) && d < 16
    ensures IsHex(s + [HexChar(d)]) && HexValue(s + [HexChar(d)]) == HexValue(s) * 16 + d
  {
    assert DigitValue(HexChar(d)) == Some(d);
    var t := s + [HexChar(d)];
    assert t[..|t| - 1] == s;
  }

  lemma {:induction false} HexOfValue(b: bytes)
    ensures IsHex(HexOf(b)) && |HexOf(b)| == 2 * |b| && HexValue(HexOf(b)) == FromBE(b)
  {
    if b != [] {
      var front, u := b[..|b| - 1], b[|b| - 1];
      HexOfValue(front);
      HexAppend(HexOf(front), u / 16);
      HexAppend(HexOf(front) + [HexChar(u / 16)], u % 16);
      assert HexOf(b) == HexOf(front) + [HexChar(u / 16)] + [HexChar(u % 16)];
    }
  }

  // ----- round trips

  lemma HexRoundTrip(b: bytes)
    ensures ParseHex(HexOf(b)) == Some(b)
  {
    HexOfValue(b);
    ParseHexValue(HexOf(b));
    var c := ParseHex(HexOf(b)).value;
    assert |c| == |b| && FromBE(c) == FromBE(b);
    ToFromBE(b);
    ToFromBE(c);
  }

  /** A leading "0x" makes no difference, in either case. */
  lemma PrefixIsIgnored(h: string)
    requires IsHex(h)
    ensures ParseHex("0x" + h) == ParseHex(h) && ParseHex("0X" + h) == ParseHex(h)
  {
    if |h| >= 2 {
      assert DigitValue(h[1]).Some?;
    }
    assert Without0x(h) == h;
    assert ("0x" + h)[2..] == h && ("0X" + h)[2..] == h;
  }

  lemma PowSquares(n: nat)
    ensures Pow(16, 2 * n) == Pow(256, n)
  {
  }

  /**
   bigIntToBytes never truncates: it returns `length` octets exactly when the value
   fits in them, and more octets of the same value when it does not.
   */
  lemma IntToBytesExact(v: nat, length: nat)
    requires length >= 1
    ensures FromBE(IntToBytes(v, length)) == v
    ensures |IntToBytes(v, length)| >= length
    ensures |IntToBytes(v, length)| == length <==> v < Pow(256, length)
    ensures v < Pow(256, length) ==> IntToBytes(v, length) == ToBE(v, length)
  {
    var h := IntToHex(v, length);
    IntToHexIsHex(v, length);
    ParseHexValue(h);
    PowSquares(length);
    FromBEBound(IntToBytes(v, length));
    ToHexValue(v);
    PadStartValue(ToHex(v), length * 2);
    if v < Pow(256, length) {
      ToHexIsShort(v, 2 * length);
      ToFromBE(IntToBytes(v, length));
    }
  }

  /** BigInt over the hexadecimal form of the octets, as readBigUIntBE does it; None is a SyntaxError. */
  function BigIntOf(b: bytes): Option<nat> {
    HexOfValue(b);
    if b == [] then None else Some(HexValue(HexOf(b)))
  }

  lemma ReadBackInt(v: nat, length: nat)
    requires length >= 1
    ensures BigIntOf(IntToBytes(v, length)) == Some(v)
  {
    IntToBytesExact(v, length);
    HexOfValue(IntToBytes(v, length));
  }

  // ----- two's complement

  /** `1n << (width - 1n)`, where shifting by a negative count shifts right. */
  function SignBit(width: nat): int {
    if width == 0 then 0 else Pow(2, width - 1)
  }

  /** The residue of v modulo 2^width, for the numbers in the signed range. */
  function ToTwos(v: int, width: nat): (r: Option<nat>)
    ensures r.Some? <==> -SignBit(width) <= v < SignBit(width)
    ensures r.Some? ==> r.value < Pow(2, width) && (r.value - v) % Pow(2, width) == 0
  {
    if v < -SignBit(width) || SignBit(width) - 1 < v then None
    else if v >= 0 then Some(v)
    else Some(v + Pow(2, width))
  }

  /** nthBit masks one bit of a non-negative number. */
  predicate NthBitSet(v: nat, n: nat) {
    v / Pow(2, n) % 2 == 1
  }

  function FromTwos(v: nat, width: nat): int
    requires width >= 1
  {
    if NthBitSet(v, width - 1) then v - Pow(2, width) else v
  }

  function BytesToTwosBigInt(b: bytes): Option<int> {
    match BigIntOf(b)
    case None => None
    case Some(v) => Some(FromTwos(v, |b| * 8))
  }

  lemma PowBits(n: nat)
    ensures Pow(2, 8 * n) == Pow(256, n)
  {
    if n > 0 {
      PowBits(n - 1);
      PowSum(2, 8, 8 * (n - 1));
      assert Pow(2, 8) == 256 by {
        PowSum(2, 4, 4);
      }
    }
  }

  lemma QuotientByHalf(u: nat, p: int)
    requires p > 0 && u < 2 * p
    ensures u / p == if u < p then 0 else 1
  {
  }

  lemma FromToTwos(v: int, width: nat)
    requires width >= 1 && -SignBit(width) <= v < SignBit(width)
    ensures FromTwos(ToTwos(v, width).value, width) == v
    ensures ToTwos(v, width).value < Pow(2, width)
  {
    QuotientByHalf(ToTwos(v, width).value, Pow(2, width - 1));
  }

  lemma TwosThroughBytes(v: int, n: nat, width: nat)
    requires n >= 1 && width == n * 8 && Pow(2, width) == Pow(256, n)
    requires ToTwos(v, width).Some?
    ensures |IntToBytes(ToTwos(v, width).value, n)| == n
    ensures BytesToTwosBigInt(IntToBytes(ToTwos(v, width).value, n)) == Some(v)
  {
    FromToTwos(v, width);
    var u := ToTwos(v, width).value;
    IntToBytesExact(u, n);
    ReadBackInt(u, n);
  }

  /** Every signed number that fits in n octets survives the trip through their hexadecimal form. */
  lemma TwosRoundTrip(v: int, n: nat, width: nat)
    requires n >= 1 && width == n * 8
    requires -SignBit(width) <= v < SignBit(width)
    ensures ToTwos(v, width).Some?
    ensures |IntToBytes(ToTwos(v, width).value, n)| == n
    ensures BytesToTwosBigInt(IntToBytes(ToTwos(v, width).value, n)) == Some(v)
  {
    PowBits(n);
    TwosThroughBytes(v, n, width);
  }
}

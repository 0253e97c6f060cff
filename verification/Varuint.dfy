/** Variable-length integers (packages/encryption/src/varuint.ts). */
module Varuint {
  import opened Results
  import opened Bytes
  import opened JsBits
  import opened ByteBuffer

  const MAX_SAFE_INTEGER := 9_007_199_254_740_991

  datatype RangeError = ValueOutOfRange

  predicate IsUInt53(n: int) {
    0 <= n <= MAX_SAFE_INTEGER
  }

  function EncodingLength(n: int): Result<nat, RangeError> {
    if !IsUInt53(n) then Err(ValueOutOfRange)
    else Ok(if n < 0xfd then 1 else if n <= 0xffff then 3 else if n <= 0xffff_ffff then 5 else 9)
  }

  // ----- writing

  /** The octets that `encode` writes for a number in range. */
  function Encoding(n: nat): bytes {
    if n < 0xfd then [n]
    else if n <= 0xffff then [0xfd] + Word16(n)
    else if n <= 0xffff_ffff then [0xfe] + Word32(n)
    else [0xff] + (Word32(ToUint32(n)) + Word32(ToUint32(ToInt32(n / TWO_32))))
  }

  /** The branches of `encode`, writing into a given buffer. */
  method EncodeInto(number: nat, dest: array<byte>, offset: nat)
    requires IsUInt53(number)
    modifies dest
    ensures dest[..] == Overlay(old(dest[..]), offset, Encoding(number))
  {
    ghost var before := dest[..];
    if number < 0xfd {
      Store(dest, offset, number);
    } else if number <= 0xffff {
      Store(dest, offset, 0xfd);
      WriteUInt16LE(dest, number, offset + 1);
      OverlayConcat(before, offset, [0xfd], Word16(number));
      assert dest[..] == Overlay(before, offset, [0xfd] + Word16(number));
    } else if number <= 0xffff_ffff {
      Store(dest, offset, 0xfe);
      WriteUInt32LE(dest, number, offset + 1);
      OverlayConcat(before, offset, [0xfe], Word32(number));
      assert dest[..] == Overlay(before, offset, [0xfe] + Word32(number));
    } else {
      ghost var lo, hi := Word32(ToUint32(number)), Word32(ToUint32(ToInt32(number / TWO_32)));
      Store(dest, offset, 0xff);
      WriteUInt32LE(dest, ToUint32(number), offset + 1);
      OverlayConcat(before, offset, [0xff], lo);
      WriteUInt32LE(dest, ToUint32(ToInt32(number / TWO_32)), offset + 5);
      OverlayConcat(before, offset, [0xff] + lo, hi);
      assert [0xff] + lo + hi == Encoding(number);
    }
  }

  /** With no buffer given, a fresh zeroed one of the right length is used. */
  method Encode(number: int, buffer: array?<byte>, offset: nat) returns (r: Result<array<byte>, RangeError>)
    modifies if buffer == null then {} else {buffer}
    ensures r.Ok? <==> IsUInt53(number)
    ensures r.Err? && buffer != null ==> buffer[..] == old(buffer[..])
    ensures r.Ok? && buffer != null ==>
              r.value == buffer && buffer[..] == Overlay(old(buffer[..]), offset, Encoding(number))
    ensures r.Ok? && buffer == null ==> fresh(r.value) && r.value.Length == EncodingLength(number).value
    ensures r.Ok? && buffer == null ==>
              r.value[..] == Overlay(Zeros(EncodingLength(number).value), offset, Encoding(number))
    ensures r.Ok? && buffer == null && offset == 0 ==> r.value[..] == Encoding(number)
  {
    if !IsUInt53(number) {
      return Err(ValueOutOfRange);
    }
    if buffer != null {
      EncodeInto(number, buffer, offset);
      return Ok(buffer);
    }
    hide Encoding, Overlay;
    var dest := new byte[EncodingLength(number).value](_ => 0);
    EncodingHasEncodingLength(number);
    ghost var zeros := Zeros(dest.Length);
    forall i | 0 <= i < dest.Length
      ensures dest[i] == zeros[i]
    {
      ZerosAt(dest.Length, i);
    }
    assert dest[..] == zeros;
    EncodeInto(number, dest, offset);
    if offset == 0 {
      OverlayAtEnd(zeros, 0, Encoding(number));
      assert zeros[..0] + Encoding(number) == Encoding(number);
    }
    r := Ok(dest);
  }

  /** encodingLength is the number of octets that encode writes. */
  lemma EncodingHasEncodingLength(n: int)
    requires IsUInt53(n)
    ensures EncodingLength(n) == Ok(|Encoding(n)|)
  {
  }

  /** Four octets as a number, the lowest first. */
  function Little(b: bytes): int
    requires |b| == 4
  {
    b[0] as int + 256 * b[1] as int + 65536 * b[2] as int + 16777216 * b[3] as int
  }

  lemma WordInOctets(v: nat)
    requires v < TWO_32
    ensures Little(Word32(v)) == v
  {
  }

  /** The format: one octet below 253, or 253, 254 or 255 before two, four or eight octets, the lowest first. */
  lemma EncodingLayout(n: nat)
    requires IsUInt53(n)
    ensures var e := Encoding(n);
            && (n < 253 ==> e == [n])
            && (253 <= n < 65536 ==> |e| == 3 && e[0] == 253 && e[1] as int + 256 * e[2] as int == n)
            && (65536 <= n < 4294967296 ==> |e| == 5 && e[0] == 254 && Little(e[1..]) == n)
            && (4294967296 <= n ==>
                  |e| == 9 && e[0] == 255 && Little(e[1..5]) + 4294967296 * Little(e[5..]) == n)
  {
    hide Little, Word32;
    WordsOf(n);
    var e := Encoding(n);
    if 65536 <= n < 4294967296 {
      WordInOctets(n);
      assert e[1..] == Word32(n);
    } else if n >= 4294967296 {
      WordInOctets(ToUint32(n));
      WordInOctets(n / TWO_32);
      assert e[1..5] == Word32(ToUint32(n)) && e[5..] == Word32(ToUint32(ToInt32(n / TWO_32)));
    }
  }

  // ----- reading

  /** The branches of `decode`; `half` and `word` follow the first octet, `high` follows `word`. */
  function Interpret(first: Option<byte>, half: int, word: int, high: int): Result<int, RangeError> {
    if first.Some? && first.value < 0xfd then Ok(first.value)
    else if first == Some(0xfd) then Ok(half)
    else if first == Some(0xfe) then Ok(word)
    else
      var number := high * TWO_32 + word;
      if IsUInt53(number) then Ok(number) else Err(ValueOutOfRange)
  }

  function Decode(s: bytes, offset: nat): Result<int, RangeError> {
    Interpret(if offset < |s| then Some(s[offset]) else None,
              ReadUInt16LE(s, offset + 1), ReadUInt32LE(s, offset + 1), ReadUInt32LE(s, offset + 5))
  }

  /** Four octets read as a signed number, the lowest first; beyond the end they count as zero. */
  function SignedLittle(s: bytes, o: nat): int {
    At(s, o) as int + 256 * At(s, o + 1) as int + 65536 * At(s, o + 2) as int + 16777216 * At(s, o + 3) as int
    - (if At(s, o + 3) >= 128 then 4294967296 else 0)
  }

  /** What is read from any octets, also from forms that are longer than the number needs. */
  lemma DecodingLayout(s: bytes, o: nat)
    requires o < |s|
    ensures s[o] < 253 ==> Decode(s, o) == Ok(s[o])
    ensures s[o] == 253 ==> Decode(s, o) == Ok(At(s, o + 1) as int + 256 * At(s, o + 2) as int)
    ensures s[o] == 254 ==> Decode(s, o) == Ok(SignedLittle(s, o + 1))
    ensures s[o] == 255 ==>
              var n := SignedLittle(s, o + 5) * 4294967296 + SignedLittle(s, o + 1);
              Decode(s, o) == if 0 <= n < 9007199254740992 then Ok(n) else Err(ValueOutOfRange)
  {
    hide ReadUInt32LE, ReadUInt16LE;
    SignedWordAt(s, o + 1);
    SignedWordAt(s, o + 5);
    HalfAt(s, o + 1);
  }

  lemma SignedWordAt(s: bytes, o: nat)
    ensures ReadUInt32LE(s, o) == SignedLittle(s, o)
  {
    hide At, ReadUInt32LE, ToInt32;
    ReadUInt32LEIsSigned(s, o);
    SignOfWord(At(s, o), At(s, o + 1), At(s, o + 2), At(s, o + 3));
  }

  lemma SignOfWord(b0: byte, b1: byte, b2: byte, b3: byte)
    ensures var v := b0 as int + 256 * b1 as int + 65536 * b2 as int + 16777216 * b3 as int;
            ToInt32(v) == v - if b3 >= 128 then 4294967296 else 0
  {
  }

  lemma HalfAt(s: bytes, o: nat)
    ensures ReadUInt16LE(s, o) == At(s, o) as int + 256 * At(s, o + 1) as int
  {
    OrBytes(At(s, o), At(s, o + 1));
  }

  predicate Bit31Set(n: nat) {
    n / TWO_31 % 2 == 1
  }

  lemma WordsOf(n: nat)
    requires IsUInt53(n)
    ensures n == n / TWO_32 * TWO_32 + ToUint32(n)
    ensures ToInt32(ToUint32(n)) == if Bit31Set(n) then ToUint32(n) - TWO_32 else ToUint32(n)
    ensures ToInt32(n / TWO_32) == ToUint32(n / TWO_32) == n / TWO_32
  {
    var q, r := n / TWO_31, n % TWO_31;
    assert n / TWO_32 == q / 2;
    assert ToUint32(n) == q % 2 * TWO_31 + r;
  }

  lemma SignedWord(n: nat)
    requires n < TWO_32
    ensures ToInt32(n) == if Bit31Set(n) then n - TWO_32 else n
  {
  }

  lemma InterpretLong(n: nat, half: int)
    requires 0xffff_ffff < n && IsUInt53(n)
    ensures Interpret(Some(0xff), half, ToInt32(ToUint32(n)), n / TWO_32) == Ok(if Bit31Set(n) then n - TWO_32 else n)
  {
  }

  lemma ReadsOfEncoding(n: nat, s: bytes, o: nat)
    requires IsUInt53(n) && o + |Encoding(n)| <= |s| && s[o..o + |Encoding(n)|] == Encoding(n)
    ensures s[o] == Encoding(n)[0]
    ensures 0xfd <= n <= 0xffff ==> o + 3 <= |s| && s[o + 1..o + 3] == Word16(n)
    ensures 0xffff < n ==> o + 5 <= |s| && s[o + 1..o + 5] == Word32(ToUint32(n))
    ensures 0xffff_ffff < n ==> o + 9 <= |s| && s[o + 5..o + 9] == Word32(ToUint32(ToInt32(n / TWO_32)))
  {
    hide Word16, Word32;
    var e := Encoding(n);
    PartOf(s, o, e, 0, 1);
    if 0xfd <= n <= 0xffff {
      PartOf(s, o, e, 1, 3);
    } else if 0xffff < n <= 0xffff_ffff {
      PartOf(s, o, e, 1, 5);
    } else if 0xffff_ffff < n {
      var low, high := Word32(ToUint32(n)), Word32(ToUint32(ToInt32(n / TWO_32)));
      PartOf(s, o, e, 1, 5);
      PartOf(s, o, e, 5, 9);
      assert ([0xff] + (low + high))[1..5] == low && ([0xff] + (low + high))[5..9] == high;
    }
  }

  lemma PartOf(s: bytes, o: nat, t: bytes, i: nat, j: nat)
    requires o + |t| <= |s| && s[o..o + |t|] == t && i <= j <= |t|
    ensures s[o + i..o + j] == t[i..j]
    ensures i < j ==> s[o + i] == t[i]
  {
    assert forall k | 0 <= k < |t| :: s[o..o + |t|][k] == s[o + k] == t[k];
    forall k | 0 <= k < j - i
      ensures s[o + i..o + j][k] == t[i..j][k]
    {
      assert s[o + (i + k)] == t[i + k];
    }
  }

  lemma DecodeWords(n: nat, s: bytes, o: nat)
    requires 0xffff_ffff < n && IsUInt53(n) && o + 9 <= |s| && s[o] == 0xff
    requires s[o + 1..o + 5] == Word32(ToUint32(n)) && s[o + 5..o + 9] == Word32(n / TWO_32)
    ensures Decode(s, o) == Ok(if Bit31Set(n) then n - TWO_32 else n)
  {
    ReadBackWord(s, o + 1, ToUint32(n));
    ReadBackWord(s, o + 5, n / TWO_32);
    WordsOf(n);
    InterpretLong(n, ReadUInt16LE(s, o + 1));
  }

  lemma DecodeWord(n: nat, s: bytes, o: nat)
    requires 0xffff < n <= 0xffff_ffff && o + 5 <= |s| && s[o] == 0xfe
    requires s[o + 1..o + 5] == Word32(n)
    ensures Decode(s, o) == Ok(if Bit31Set(n) then n - TWO_32 else n)
  {
    ReadBackWord(s, o + 1, n);
    SignedWord(n);
  }

  lemma DecodeHalf(n: nat, s: bytes, o: nat)
    requires 0xfd <= n <= 0xffff && o + 3 <= |s| && s[o] == 0xfd
    requires s[o + 1..o + 3] == Word16(n)
    ensures Decode(s, o) == Ok(n) && !Bit31Set(n)
  {
    SignedWord(n);
    ReadBackHalf(s, o + 1, n);
  }

  lemma DecodeOctet(n: nat, s: bytes, o: nat)
    requires n < 0xfd && o < |s| && s[o] == n
    ensures Decode(s, o) == Ok(n) && !Bit31Set(n)
  {
    SignedWord(n);
  }

  /**
   `decode` after `encode`, at any offset and for every safe integer, is off by exactly
   2^32 whenever bit 31 of the number is set, and right otherwise.
   */
  lemma DecodeAfterEncode(n: nat, before: bytes, after: bytes)
    requires IsUInt53(n)
    ensures Decode(before + Encoding(n) + after, |before|) == Ok(if Bit31Set(n) then n - TWO_32 else n)
  {
    hide Decode, Interpret, Word16, Word32, Bit31Set;
    var s, o := before + Encoding(n) + after, |before|;
    assert s[o..o + |Encoding(n)|] == Encoding(n);
    ReadsOfEncoding(n, s, o);
    if n <= 0xfc {
      DecodeOctet(n, s, o);
    } else if n <= 0xffff {
      DecodeHalf(n, s, o);
    } else if n <= 0xffff_ffff {
      DecodeWord(n, s, o);
    } else {
      WordsOf(n);
      DecodeWords(n, s, o);
    }
  }
}

/** Reading and writing integers in byte arrays (packages/common/src/buffer.ts). */
module ByteBuffer {
  import opened Bytes
  import opened JsBits

  // ----- writing

  /** The octets of `w` laid over `s` from `offset` on; what falls off the end is lost. */
  function Overlay(s: bytes, offset: nat, w: bytes): (r: bytes)
    ensures |r| == |s|
  {
    seq(|s|, i requires 0 <= i < |s| => if offset <= i < offset + |w| then w[i - offset] else s[i])
  }

  lemma OverlayConcat(s: bytes, offset: nat, v: bytes, w: bytes)
    ensures Overlay(Overlay(s, offset, v), offset + |v|, w) == Overlay(s, offset, v + w)
  {
  }

  lemma OverlayAtEnd(s: bytes, offset: nat, w: bytes)
    requires |s| == offset + |w|
    ensures Overlay(s, offset, w) == s[..offset] + w
  {
  }

  function Word16(v: nat): (w: bytes)
    ensures |w| == 2
  {
    [v % 256, v / 256 % 256]
  }

  function Word32(v: nat): (w: bytes)
    ensures |w| == 4
  {
    [v % 256, v / 256 % 256, v / 256 / 256 % 256, v / 256 / 256 / 256 % 256]
  }

  /** The octets that writeUInt32BE stores: the number modulo 2^32. */
  function UInt32BE(v: nat): (b: bytes)
    ensures |b| == 4
  {
    [v / 256 / 256 / 256 % 256, v / 256 / 256 % 256, v / 256 % 256, v % 256]
  }

  /** A store to a typed array: the value is reduced modulo 256, and ignored outside the array. */
  method Store(dest: array<byte>, i: nat, value: nat)
    modifies dest
    ensures dest[..] == Overlay(old(dest[..]), i, [value % 256])
  {
    if i < dest.Length {
      dest[i] := value % 256;
    }
  }

  /** `value >>>= 8`. */
  function ShiftOctet(v: nat): nat {
    ToUint32(v) / 256
  }

  lemma AddedMultiple(x: nat, m: nat)
    ensures (256 * m + x) % 256 == x % 256 && (256 * m + x) / 256 == m + x / 256
  {
  }

  lemma ShiftedOctets(v: nat)
    ensures ShiftOctet(v) % 256 == v / 256 % 256
    ensures ShiftOctet(ShiftOctet(v)) % 256 == v / 256 / 256 % 256
    ensures ShiftOctet(ShiftOctet(ShiftOctet(v))) % 256 == v / 256 / 256 / 256 % 256
  {
    var q, u := v / TWO_32, ToUint32(v);
    assert v == 256 * (q * 0x100_0000) + u;
    AddedMultiple(u, q * 0x100_0000);
    AddedMultiple(u / 256, q * 0x1_0000);
    AddedMultiple(u / 256 / 256, q * 0x100);
    AddedMultiple(u / 256 / 256 / 256, q);
    assert ShiftOctet(v) == u / 256 < 0x100_0000;
    assert ShiftOctet(u / 256) == u / 256 / 256 < 0x1_0000;
  }

  method WriteUInt16LE(dest: array<byte>, value: nat, offset: nat)
    modifies dest
    ensures dest[..] == Overlay(old(dest[..]), offset, Word16(value))
  {
    ghost var before := dest[..];
    ShiftedOctets(value);
    Store(dest, offset, value % 256);
    Store(dest, offset + 1, ShiftOctet(value) % 256);
    OverlayConcat(before, offset, [value % 256], [value / 256 % 256]);
  }

  method WriteUInt32LE(dest: array<byte>, value: nat, offset: nat)
    modifies dest
    ensures dest[..] == Overlay(old(dest[..]), offset, Word32(value))
  {
    hide ShiftOctet, Overlay;
    ghost var before := dest[..];
    ShiftedOctets(value);
    var v := value;
    Store(dest, offset, v % 256);
    v := ShiftOctet(v);
    Store(dest, offset + 1, v % 256);
    v := ShiftOctet(v);
    Store(dest, offset + 2, v % 256);
    v := ShiftOctet(v);
    Store(dest, offset + 3, v % 256);
    FourOverlays(before, offset, value % 256, value / 256 % 256, value / 256 / 256 % 256,
                 value / 256 / 256 / 256 % 256);
  }

  lemma FourOverlays(s: bytes, o: nat, a: byte, b: byte, c: byte, d: byte)
    ensures Overlay(Overlay(Overlay(Overlay(s, o, [a]), o + 1, [b]), o + 2, [c]), o + 3, [d]) ==
            Overlay(s, o, [a, b, c, d])
    ensures Overlay(Overlay(Overlay(Overlay(s, o + 3, [d]), o + 2, [c]), o + 1, [b]), o, [a]) ==
            Overlay(s, o, [a, b, c, d])
  {
  }

  method WriteUInt32BE(destination: array<byte>, value: nat, offset: nat)
    modifies destination
    ensures destination[..] == Overlay(old(destination[..]), offset, UInt32BE(value))
  {
    hide ShiftOctet, Overlay;
    ghost var before := destination[..];
    ShiftedOctets(value);
    var v := value;
    Store(destination, offset + 3, v);
    v := ShiftOctet(v);
    Store(destination, offset + 2, v);
    v := ShiftOctet(v);
    Store(destination, offset + 1, v);
    v := ShiftOctet(v);
    Store(destination, offset, v);
    FourOverlays(before, offset, value / 256 / 256 / 256 % 256, value / 256 / 256 % 256, value / 256 % 256,
                 value % 256);
  }

  // ----- reading

  /** An octet as the shift operators see it: `undefined` beyond the end counts as zero. */
  function At(s: bytes, i: nat): byte {
    if i < |s| then s[i] else 0
  }

  const SHIFT_8 := 0x100
  const SHIFT_16 := 0x1_0000
  const SHIFT_24 := 0x100_0000

  function ReadUInt16LE(s: bytes, offset: nat): int {
    Or(ShiftLeftUnsigned(At(s, offset), 1), ShiftLeftUnsigned(At(s, offset + 1), SHIFT_8))
  }

  function ReadUInt32LE(s: bytes, offset: nat): int {
    Or(Or(Or(ShiftLeftUnsigned(At(s, offset), 1), ShiftLeftUnsigned(At(s, offset + 1), SHIFT_8)),
          ShiftLeftUnsigned(At(s, offset + 2), SHIFT_16)),
       ShiftLeftUnsigned(At(s, offset + 3), SHIFT_24))
  }

  lemma OrBytes(b0: byte, b1: byte)
    ensures Or(ShiftLeftUnsigned(b0, 1), ShiftLeftUnsigned(b1, SHIFT_8)) == b0 + 0x100 * b1
  {
    ShiftScales();
    UnsignedAgain(b0);
    OrDisjoint(b0, b1, SHIFT_8, 0x100 * b1);
    FitsInt32(b0 + 0x100 * b1);
  }

  lemma OrThirdByte(x: nat, b2: byte)
    requires x < 0x1_0000
    ensures Or(x, ShiftLeftUnsigned(b2, SHIFT_16)) == x + 0x1_0000 * b2
  {
    ShiftScales();
    OrDisjoint(x, b2, SHIFT_16, 0x1_0000 * b2);
    FitsInt32(x + 0x1_0000 * b2);
  }

  /** The last "|" makes the word signed. */
  lemma OrFourthByte(x: nat, b3: byte)
    requires x < 0x100_0000
    ensures Or(x, ShiftLeftUnsigned(b3, SHIFT_24)) == ToInt32(x + 0x100_0000 * b3)
  {
    ShiftScales();
    OrDisjoint(x, b3, SHIFT_24, 0x100_0000 * b3);
  }

  lemma ReadUInt32LEIsSigned(s: bytes, offset: nat)
    ensures ReadUInt32LE(s, offset) ==
            ToInt32(At(s, offset) + 0x100 * At(s, offset + 1) + 0x1_0000 * At(s, offset + 2) +
                    0x100_0000 * At(s, offset + 3))
  {
    OrBytes(At(s, offset), At(s, offset + 1));
    var x: nat := At(s, offset) + 0x100 * At(s, offset + 1);
    OrThirdByte(x, At(s, offset + 2));
    OrFourthByte(x + 0x1_0000 * At(s, offset + 2), At(s, offset + 3));
  }

  lemma Word32Value(v: nat, b0: byte, b1: byte, b2: byte, b3: byte)
    requires v < TWO_32 && [b0, b1, b2, b3] == Word32(v)
    ensures b0 + 0x100 * b1 + 0x1_0000 * b2 + 0x100_0000 * b3 == v
  {
  }

  /** A 32-bit word comes back as the signed number with the same bits. */
  lemma ReadBackWord(s: bytes, offset: nat, v: nat)
    requires v < TWO_32
    requires offset + 4 <= |s| && s[offset..offset + 4] == Word32(v)
    ensures ReadUInt32LE(s, offset) == ToInt32(v)
  {
    assert s[offset..offset + 4] == [s[offset], s[offset + 1], s[offset + 2], s[offset + 3]];
    Word32Value(v, s[offset], s[offset + 1], s[offset + 2], s[offset + 3]);
    ReadUInt32LEIsSigned(s, offset);
  }

  lemma ReadBackHalf(s: bytes, offset: nat, v: nat)
    requires v < 0x1_0000
    requires offset + 2 <= |s| && s[offset..offset + 2] == Word16(v)
    ensures ReadUInt16LE(s, offset) == v
  {
    var w := s[offset..offset + 2];
    assert w[0] == s[offset] && w[1] == s[offset + 1];
    assert v == v / 256 * 256 + v % 256 && v / 256 % 256 == v / 256;
    OrBytes(s[offset], s[offset + 1]);
  }
}

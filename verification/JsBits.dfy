/** JavaScript's 32-bit bitwise operators, on integers. */
module JsBits {
  import opened Bytes

  const TWO_31 := 0x8000_0000
  const TWO_32 := 0x1_0000_0000

  function ToUint32(x: int): nat {
    x % TWO_32
  }

  function ToInt32(x: int): int {
    var u := ToUint32(x);
    if u >= TWO_31 then u - TWO_32 else u
  }

  /** Bitwise "or" of two non-negative integers, bit by bit. */
  function BitOr(a: nat, b: nat): nat {
    if a == 0 && b == 0 then 0
    else (if a % 2 == 1 || b % 2 == 1 then 1 else 0) + 2 * BitOr(a / 2, b / 2)
  }

  /** Bitwise "exclusive or" of two non-negative integers, bit by bit. */
  function BitXor(a: nat, b: nat): nat {
    if a == 0 && b == 0 then 0
    else (if a % 2 != b % 2 then 1 else 0) + 2 * BitXor(a / 2, b / 2)
  }

  /** `a | b`: the operands become unsigned words, the result a signed one. */
  function Or(a: int, b: int): int {
    ToInt32(BitOr(ToUint32(a), ToUint32(b)))
  }

  /** `(u << n) >>> 0`, a left shift whose result is read as unsigned; scale is 2^n. */
  function ShiftLeftUnsigned(u: nat, scale: nat): nat {
    ToUint32(ToInt32(u * scale))
  }

  lemma {:induction false} BitOrZero(b: nat)
    ensures BitOr(0, b) == b
  {
    if b > 0 {
      BitOrZero(b / 2);
    }
  }

  ghost predicate IsPowerOfTwo(p: nat) {
    exists k: nat :: Pow(2, k) == p
  }

  /** Operands without a common bit position add up. */
  lemma {:induction false} BitOrDisjoint(a: nat, m: nat, k: nat, b: nat)
    requires a < Pow(2, k) && b == m * Pow(2, k)
    ensures BitOr(a, b) == a + b
  {
    if k == 0 {
      BitOrZero(b);
    } else {
      var q := Pow(2, k - 1);
      assert b == 2 * (m * q) by {
        assert Pow(2, k) == 2 * q;
      }
      BitOrDisjoint(a / 2, m, k - 1, m * q);
    }
  }

  lemma {:induction false} BitXorBound(a: nat, b: nat, k: nat)
    requires a < Pow(2, k) && b < Pow(2, k)
    ensures BitXor(a, b) < Pow(2, k)
  {
    if k > 0 {
      BitXorBound(a / 2, b / 2, k - 1);
    }
  }

  lemma {:induction false} BitXorZero(a: nat, b: nat)
    ensures BitXor(a, b) == 0 <==> a == b
  {
    if a != 0 || b != 0 {
      BitXorZero(a / 2, b / 2);
    }
  }

  /** Bit i of a number, counted from the low end. */
  predicate Bit(v: nat, i: nat) {
    if i == 0 then v % 2 == 1 else Bit(v / 2, i - 1)
  }

  /** A bit of the exclusive or is set where exactly one operand's is, and of the or where one is or both are. */
  lemma {:induction false} BitsOfXorAndOr(a: nat, b: nat, i: nat)
    ensures Bit(BitXor(a, b), i) <==> (Bit(a, i) <==> !Bit(b, i))
    ensures Bit(BitOr(a, b), i) <==> Bit(a, i) || Bit(b, i)
  {
    if a == 0 && b == 0 {
      NoBits(i);
    } else if i > 0 {
      BitsOfXorAndOr(a / 2, b / 2, i - 1);
    }
  }

  lemma {:induction false} NoBits(i: nat)
    ensures !Bit(0, i)
  {
    if i > 0 {
      NoBits(i - 1);
    }
  }

  lemma {:induction false} BitOrBound(a: nat, b: nat, k: nat)
    requires a < Pow(2, k) && b < Pow(2, k)
    ensures BitOr(a, b) < Pow(2, k)
    ensures BitOr(a, b) == 0 <==> a == 0 && b == 0
  {
    if k > 0 {
      BitOrBound(a / 2, b / 2, k - 1);
    }
  }

  /** On octets "|" is zero only for zeros. */
  lemma OrOctets(a: byte, b: byte)
    ensures 0 <= Or(a, b) < 256
    ensures Or(a, b) == 0 <==> a == 0 && b == 0
  {
    hide BitOr;
    PowTwo8();
    BitOrBound(a, b, 8);
    UnsignedAgain(a);
    UnsignedAgain(b);
    FitsInt32(BitOr(a, b));
  }

  /** `a ^ b` on octets, as stored back into a byte array. */
  function XorByte(a: byte, b: byte): byte {
    PowTwo8();
    BitXorBound(a, b, 8);
    BitXor(a, b)
  }

  lemma PowTwo8()
    ensures Pow(2, 8) == 0x100
  {
  }

  lemma ShiftScales()
    ensures IsPowerOfTwo(0x100) && IsPowerOfTwo(0x1_0000) && IsPowerOfTwo(0x100_0000)
  {
    PowTwo8();
    PowSum(2, 8, 8);
    PowSum(2, 8, 16);
  }

  lemma UnsignedAgain(b: nat)
    requires b < TWO_32
    ensures ToUint32(b) == b && ToUint32(ToInt32(b)) == b
  {
  }

  lemma FitsInt32(x: nat)
    requires x < TWO_31
    ensures ToInt32(x) == x
  {
  }

  lemma OrDisjoint(a: nat, u: byte, scale: nat, b: nat)
    requires IsPowerOfTwo(scale) && a < scale && b == u * scale && b < TWO_32
    requires a < TWO_32
    ensures Or(a, ShiftLeftUnsigned(u, scale)) == ToInt32(a + b)
  {
    var k: nat :| Pow(2, k) == scale;
    BitOrDisjoint(a, u, k, b);
    UnsignedAgain(a);
    UnsignedAgain(b);
  }
}

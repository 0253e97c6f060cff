/** Octets and the big-endian reading of octet strings. */
module Bytes {

  type byte = x: int | 0 <= x < 256

  type bytes = seq<byte>

  /** b to the power n. */
  function Pow(b: nat, n: nat): (p: int)
    ensures p >= 0
    ensures b > 0 ==> p > 0
  {
    if n == 0 then 1 else b * Pow(b, n - 1)
  }

  function Zeros(n: nat): (b: bytes)
    ensures |b| == n
  {
    if n == 0 then [] else [0] + Zeros(n - 1)
  }

  lemma {:induction false} ZerosAt(n: nat, i: nat)
    requires i < n
    ensures Zeros(n)[i] == 0
  {
    if i > 0 {
      ZerosAt(n - 1, i - 1);
    }
  }

  /** The number an octet string denotes, most significant octet first. */
  function FromBE(b: bytes): nat {
    if b == [] then 0 else FromBE(b[..|b| - 1]) * 256 + b[|b| - 1]
  }

  /** The n low-order octets of v, most significant first. */
  function ToBE(v: nat, n: nat): (b: bytes)
    ensures |b| == n
  {
    if n == 0 then [] else ToBE(v / 256, n - 1) + [v % 256]
  }

  lemma {:induction false} PowSum(b: nat, m: nat, n: nat)
    ensures Pow(b, m + n) == Pow(b, m) * Pow(b, n)
  {
    if m > 0 {
      PowSum(b, m - 1, n);
      var p, q := Pow(b, m - 1), Pow(b, n);
      assert b * (p * q) == (b * p) * q;
    }
  }

  lemma {:induction false} FromBEBound(b: bytes)
    ensures FromBE(b) < Pow(256, |b|)
  {
    if b != [] {
      FromBEBound(b[..|b| - 1]);
    }
  }

  /** n octets hold every number below 256^n. */
  lemma {:induction false} FromToBE(v: nat, n: nat)
    requires v < Pow(256, n)
    ensures FromBE(ToBE(v, n)) == v
  {
    if n > 0 {
      assert v / 256 < Pow(256, n - 1);
      FromToBE(v / 256, n - 1);
      assert ToBE(v, n)[..n - 1] == ToBE(v / 256, n - 1);
    }
  }

  lemma {:induction false} ToFromBE(b: bytes)
    ensures ToBE(FromBE(b), |b|) == b
  {
    if b != [] {
      ToFromBE(b[..|b| - 1]);
      assert b == b[..|b| - 1] + [b[|b| - 1]];
    }
  }
}

/**
 The PBKDF2 fallback for browsers that only offer HMAC (packages/encryption/src/pbkdf2.ts),
 against section 5.2 of RFC 8018.
 */
module Pbkdf2 {
  import opened Bytes
  import opened JsBits
  import opened ByteBuffer

  datatype Digest = Sha256 | Sha512 {
    function Length(): nat {
      if Sha512? then 64 else 32
    }
  }

  /** HMAC of a key and some data, as a function; its output has the digest's length. */
  type Hmac = (bytes, bytes) -> bytes

  ghost predicate OutputsLength(hmac: Hmac, hLen: nat) {
    forall k: bytes, d: bytes :: |hmac(k, d)| == hLen
  }

  // ----- RFC 8018, section 5.2

  function Xor(a: bytes, b: bytes): (r: bytes)
    requires |a| == |b|
    ensures |r| == |a|
  {
    seq(|a|, k requires 0 <= k < |a| => XorByte(a[k], b[k]))
  }

  /** U_j of block i. */
  function Iterate(hmac: Hmac, password: bytes, saltAndIndex: bytes, j: nat): bytes
    requires j >= 1
  {
    if j == 1 then hmac(password, saltAndIndex) else hmac(password, Iterate(hmac, password, saltAndIndex, j - 1))
  }

  /** U_1 xor U_2 xor ... xor U_c. */
  function XorOfIterates(hmac: Hmac, hLen: nat, password: bytes, saltAndIndex: bytes, c: nat): (t: bytes)
    requires c >= 1 && OutputsLength(hmac, hLen)
    ensures |t| == hLen
  {
    if c == 1 then Iterate(hmac, password, saltAndIndex, 1)
    else
      var u := Iterate(hmac, password, saltAndIndex, c);
      assert |u| == hLen;
      Xor(XorOfIterates(hmac, hLen, password, saltAndIndex, c - 1), u)
  }

  /** The octets in l blocks, by addition so that proofs stay linear. */
  function Octets(l: nat, hLen: nat): nat {
    if l == 0 then 0 else Octets(l - 1, hLen) + hLen
  }

  lemma {:induction false} OctetsIsProduct(l: nat, hLen: nat)
    ensures Octets(l, hLen) == l * hLen
  {
    if l > 0 {
      OctetsIsProduct(l - 1, hLen);
      assert l * hLen == (l - 1) * hLen + hLen;
    }
  }

  /** T_1 || T_2 || ... || T_l, with `index` giving the four octets of a block number. */
  function Blocks(hmac: Hmac, hLen: nat, password: bytes, salt: bytes, c: nat, l: nat, index: nat -> bytes): (b: bytes)
    requires c >= 1 && OutputsLength(hmac, hLen)
    ensures |b| == Octets(l, hLen)
  {
    if l == 0 then []
    else Blocks(hmac, hLen, password, salt, c, l - 1, index) + XorOfIterates(hmac, hLen, password, salt + index(l), c)
  }

  function Ceiling(n: nat, d: nat): (q: nat)
    requires d > 0
  {
    (n + d - 1) / d
  }

  /** A key of n octets has a block j, counted from 0, exactly when octets are still missing before it. */
  lemma BlockIsNeeded(n: nat, d: nat, j: nat)
    requires d > 0
    ensures j < Ceiling(n, d) <==> Octets(j, d) < n
  {
    OctetsIsProduct(j, d);
    DivisionBounds(n + d - 1, d, j);
  }

  lemma DivisionBounds(n: nat, d: nat, j: nat)
    requires d > 0
    ensures j < n / d <==> j * d + d <= n
  {
    var q := n / d;
    assert q * d <= n < q * d + d;
    if j < q {
      assert q * d == j * d + d + (q - j - 1) * d;
    } else {
      assert j * d == q * d + (j - q) * d;
    }
  }

  /** The derived key of the standard, which limits it to 2^32 - 1 blocks. */
  function Rfc8018(hmac: Hmac, hLen: nat, password: bytes, salt: bytes, c: nat, dkLen: nat): (dk: bytes)
    requires c >= 1 && hLen > 0 && OutputsLength(hmac, hLen)
    requires dkLen <= (TWO_32 - 1) * hLen
    ensures |dk| == dkLen
  {
    BlockIsNeeded(dkLen, hLen, Ceiling(dkLen, hLen));
    Blocks(hmac, hLen, password, salt, c, Ceiling(dkLen, hLen), i => ToBE(i, 4))[..dkLen]
  }

  // ----- the implementation

  method HmacDigest(hmac: Hmac, key: bytes, data: array<byte>) returns (r: array<byte>)
    ensures fresh(r) && r[..] == hmac(key, data[..])
  {
    var out := hmac(key, data[..]);
    r := new byte[|out|](i requires 0 <= i < |out| => out[i]);
  }

  /** `T[k] ^= U[k]` for all k. */
  method XorInto(T: array<byte>, U: array<byte>)
    requires T != U && T.Length == U.Length
    modifies T
    ensures T[..] == Xor(old(T[..]), U[..])
  {
    for k := 0 to T.Length
      invariant forall i :: 0 <= i < k ==> T[i] == XorByte(old(T[i]), U[i])
      invariant forall i :: k <= i < T.Length ==> T[i] == old(T[i])
    {
      T[k] := XorByte(T[k], U[k]);
    }
  }

  /** The loop over iterations always leaves the first digest. */
  function Rounds(iterations: int): nat {
    if iterations < 1 then 1 else iterations
  }

  /** One block. At first U is the same array as T, yet each digest is taken before T changes. */
  method DeriveBlock(hmac: Hmac, hLen: nat, password: bytes, block1: array<byte>, iterations: int)
    returns (T: array<byte>)
    requires OutputsLength(hmac, hLen)
    ensures fresh(T)
    ensures T[..] == XorOfIterates(hmac, hLen, password, block1[..], Rounds(iterations))
  {
    T := HmacDigest(hmac, password, block1);
    var U := T;
    ghost var s := block1[..];
    var j := 1;
    while j < iterations
      invariant 1 <= j && (j == 1 || j <= iterations)
      invariant fresh(T) && fresh(U) && (U == T ==> j == 1)
      invariant block1[..] == s
      invariant U[..] == Iterate(hmac, password, s, j)
      invariant T[..] == XorOfIterates(hmac, hLen, password, s, j)
      decreases iterations - j
    {
      U := HmacDigest(hmac, password, U);
      assert U.Length == |U[..]| && T.Length == |T[..]|;
      XorInto(T, U);
      j := j + 1;
    }
  }

  /** `destination.set(source.subarray(0, destination.length - at), at)`. */
  method SetClamped(destination: array<byte>, source: array<byte>, at: nat)
    requires at <= destination.Length && destination != source
    modifies destination
    ensures var n := if source.Length < destination.Length - at then source.Length else destination.Length - at;
            destination[..] == old(destination[..at]) + source[..n] + old(destination[at + n..])
  {
    var n := if source.Length < destination.Length - at then source.Length else destination.Length - at;
    forall i | 0 <= i < n {
      destination[at + i] := source[i];
    }
  }

  /** What the fallback derives, for every length: the standard's blocks, numbered modulo 2^32. */
  function Derived(hmac: Hmac, hLen: nat, password: bytes, salt: bytes, iterations: int, keyLength: nat): (dk: bytes)
    requires hLen > 0 && OutputsLength(hmac, hLen)
    ensures |dk| == keyLength
  {
    BlockIsNeeded(keyLength, hLen, Ceiling(keyLength, hLen));
    Blocks(hmac, hLen, password, salt, Rounds(iterations), Ceiling(keyLength, hLen),
           i => UInt32BE(i))[..keyLength]
  }

  method Derive(hmac: Hmac, password: bytes, salt: bytes, iterations: int, keyLength: nat, digest: Digest)
    returns (DK: array<byte>)
    requires OutputsLength(hmac, digest.Length())
    ensures fresh(DK) && DK[..] == Derived(hmac, digest.Length(), password, salt, iterations, keyLength)
  {
    hide Blocks, XorOfIterates, UInt32BE, Overlay, Ceiling;
    ghost var index: nat -> bytes := i => UInt32BE(i);
    ghost var c := Rounds(iterations);
    DK := new byte[keyLength](_ => 0);
    var block1 := new byte[|salt| + 4](i requires 0 <= i < |salt| + 4 => if i < |salt| then salt[i] else 0);
    assert block1[..|salt|] == salt;
    var destPos, hLen := 0, digest.Length();
    var l := Ceiling(keyLength, hLen);
    BlockIsNeeded(keyLength, hLen, l);
    BlockIsNeeded(keyLength, hLen, 0);
    for i := 1 to l + 1
      invariant fresh(DK) && fresh(block1) && DK != block1
      invariant destPos == Octets(i - 1, hLen)
      invariant i <= l ==> destPos < keyLength
      invariant block1[..|salt|] == salt
      invariant var n := if destPos < keyLength then destPos else keyLength;
                DK[..n] == Blocks(hmac, hLen, password, salt, c, i - 1, index)[..n]
    {
      BlockIsNeeded(keyLength, hLen, i);
      OverlayAtEnd(block1[..], |salt|, UInt32BE(i));
      WriteUInt32BE(block1, i, |salt|);
      assert block1[..] == salt + index(i);
      var T := DeriveBlock(hmac, hLen, password, block1, iterations);
      ghost var before := DK[..];
      SetClamped(DK, T, destPos);
      BlockAppended(hmac, hLen, password, salt, c, i, index, before, DK[..], T[..]);
      destPos := destPos + hLen;
    }
    assert DK[..keyLength] == DK[..];
  }

  lemma BlockAppended(hmac: Hmac, hLen: nat, password: bytes, salt: bytes, c: nat, i: nat, index: nat -> bytes,
                      before: bytes, after: bytes, t: bytes)
    requires c >= 1 && OutputsLength(hmac, hLen) && i >= 1
    requires t == XorOfIterates(hmac, hLen, password, salt + index(i), c)
    requires Octets(i - 1, hLen) <= |before| == |after|
    requires before[..Octets(i - 1, hLen)] == Blocks(hmac, hLen, password, salt, c, i - 1, index)
    requires var at := Octets(i - 1, hLen);
             var n := if |t| < |after| - at then |t| else |after| - at;
             after == before[..at] + t[..n] + before[at + n..]
    ensures var m := if Octets(i, hLen) < |after| then Octets(i, hLen) else |after|;
            after[..m] == Blocks(hmac, hLen, password, salt, c, i, index)[..m]
  {
  }

  lemma {:induction false} BlocksAgree(hmac: Hmac, hLen: nat, password: bytes, salt: bytes, c: nat, l: nat,
                                       f: nat -> bytes, g: nat -> bytes)
    requires c >= 1 && OutputsLength(hmac, hLen)
    requires forall i :: 1 <= i <= l ==> f(i) == g(i)
    ensures Blocks(hmac, hLen, password, salt, c, l, f) == Blocks(hmac, hLen, password, salt, c, l, g)
  {
    if l > 0 {
      BlocksAgree(hmac, hLen, password, salt, c, l - 1, f, g);
    }
  }

  lemma UInt32BEIsINT(i: nat)
    requires i < TWO_32
    ensures UInt32BE(i) == ToBE(i, 4)
  {
    assert ToBE(i / 256 / 256 / 256 / 256, 0) == [];
    assert ToBE(i / 256 / 256 / 256, 1) == [i / 256 / 256 / 256 % 256];
    assert ToBE(i / 256 / 256, 2) == [i / 256 / 256 / 256 % 256, i / 256 / 256 % 256];
    assert ToBE(i / 256, 3) == [i / 256 / 256 / 256 % 256, i / 256 / 256 % 256, i / 256 % 256];
  }

  lemma LimitBoundsBlocks(keyLength: nat, hLen: nat)
    requires hLen > 0 && keyLength <= (TWO_32 - 1) * hLen
    ensures Ceiling(keyLength, hLen) < TWO_32
  {
  }

  /** Within the standard's length limit the fallback computes the standard's key. */
  lemma DerivesStandardKey(hmac: Hmac, hLen: nat, password: bytes, salt: bytes, iterations: nat, keyLength: nat)
    requires hLen > 0 && OutputsLength(hmac, hLen) && iterations >= 1
    requires keyLength <= (TWO_32 - 1) * hLen
    ensures Derived(hmac, hLen, password, salt, iterations, keyLength) ==
            Rfc8018(hmac, hLen, password, salt, iterations, keyLength)
  {
    var l := Ceiling(keyLength, hLen);
    LimitBoundsBlocks(keyLength, hLen);
    forall i | 1 <= i <= l
      ensures UInt32BE(i) == ToBE(i, 4)
    {
      UInt32BEIsINT(i);
    }
    BlocksAgree(hmac, hLen, password, salt, iterations, l, i => UInt32BE(i), i => ToBE(i, 4));
  }

  lemma {:induction false} FewerBlocks(hmac: Hmac, hLen: nat, password: bytes, salt: bytes, c: nat, m: nat, n: nat,
                                       index: nat -> bytes)
    requires c >= 1 && OutputsLength(hmac, hLen) && m <= n
    ensures Octets(m, hLen) <= Octets(n, hLen)
    ensures Blocks(hmac, hLen, password, salt, c, n, index)[..Octets(m, hLen)] ==
            Blocks(hmac, hLen, password, salt, c, m, index)
  {
    if m < n {
      FewerBlocks(hmac, hLen, password, salt, c, m, n - 1, index);
    }
  }

  /** Shorter keys are prefixes of longer ones. */
  lemma ShorterKeyIsPrefix(hmac: Hmac, hLen: nat, password: bytes, salt: bytes, iterations: int, short: nat, long: nat)
    requires hLen > 0 && OutputsLength(hmac, hLen) && short <= long
    ensures Derived(hmac, hLen, password, salt, iterations, short) ==
            Derived(hmac, hLen, password, salt, iterations, long)[..short]
  {
    hide Blocks, Ceiling;
    var c := Rounds(iterations);
    var m, n := Ceiling(short, hLen), Ceiling(long, hLen);
    BlockIsNeeded(short, hLen, m);
    BlockIsNeeded(long, hLen, n);
    CeilingMonotone(short, long, hLen);
    FewerBlocks(hmac, hLen, password, salt, c, m, n, i => UInt32BE(i));
    PrefixOfPrefix(Blocks(hmac, hLen, password, salt, c, n, i => UInt32BE(i)), Octets(m, hLen), long, short);
  }

  lemma CeilingMonotone(a: nat, b: nat, d: nat)
    requires d > 0 && a <= b
    ensures Ceiling(a, d) <= Ceiling(b, d)
  {
    BlockIsNeeded(a, d, Ceiling(b, d));
    BlockIsNeeded(b, d, Ceiling(b, d));
  }

  lemma PrefixOfPrefix<T>(s: seq<T>, k: nat, long: nat, short: nat)
    requires short <= k <= |s| && short <= long <= |s|
    ensures s[..k][..short] == s[..long][..short]
  {
  }
}

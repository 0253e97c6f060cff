/**
 Addresses and redeem scripts octet by octet, as the network expects them
 (packages/transactions/src/utils.ts and wire/helpers.ts).
 */
module Addresses {
  import opened Results
  import opened Bytes
  import opened Keys

  // ----- one key

  predicate StartsWith04(key: bytes) {
    key != [] && key[0] == 4
  }

  /** `w` is a witness program: version 0, the length of the digest, the digest. */
  predicate IsWitnessProgram(w: bytes, digest: bytes) {
    && |w| == 2 + |digest|
    && w[0] == 0 && w[1] == |digest|
    && w[2..] == digest
  }

  lemma WitnessProgramIs(w: bytes, digest: bytes)
    requires IsWitnessProgram(w, digest)
    ensures w == [0, |digest|] + digest
  {
    assert w == [w[0], w[1]] + w[2..];
  }

  /**
   The address of one key: its hash160, or for P2WPKH the hash160 of the witness program over
   that, which an uncompressed key (one that starts with 04) does not have.
   */
  lemma OneKeyAddress(c: Crypto, key: bytes, w: bytes)
    ensures AddressHash(c, P2PKH, 1, [key]) == Ok(c.hash160(key))
    ensures StartsWith04(key) ==> AddressHash(c, P2WPKH, 1, [key]) == Err(KeysMustBeCompressed)
    ensures !StartsWith04(key) && IsWitnessProgram(w, c.hash160(key)) ==>
              AddressHash(c, P2WPKH, 1, [key]) == Ok(c.hash160(w))
  {
    assert key in [key];
    if IsWitnessProgram(w, c.hash160(key)) {
      WitnessProgramIs(w, c.hash160(key));
    }
  }

  // ----- scripts of several keys

  /** Where the push of key i starts, when those before it take an octet each for their length. */
  function PushOffset(keys: seq<bytes>, i: nat): nat
    requires i <= |keys|
  {
    if i == 0 then 0 else 1 + |keys[0]| + PushOffset(keys[1..], i - 1)
  }

  /** Key i is pushed at position p: its length in one octet, then the key. */
  predicate PushedAt(s: bytes, p: nat, key: bytes) {
    p + 1 + |key| <= |s| && s[p] == |key| && s[p + 1..p + 1 + |key|] == key
  }

  predicate ArePushes(s: bytes, keys: seq<bytes>) {
    && |s| == PushOffset(keys, |keys|)
    && forall i :: 0 <= i < |keys| ==> PushedAt(s, PushOffset(keys, i), keys[i])
  }

  lemma PushesFromSecond(s: bytes, keys: seq<bytes>)
    requires keys != [] && |s| >= 1 + |keys[0]|
    ensures ArePushes(s, keys) <==> PushedAt(s, 0, keys[0]) && ArePushes(s[1 + |keys[0]|..], keys[1..])
  {
    var n, rest := 1 + |keys[0]|, keys[1..];
    var t := s[n..];
    forall i | 0 < i < |keys|
      ensures PushedAt(s, PushOffset(keys, i), keys[i]) <==> PushedAt(t, PushOffset(rest, i - 1), rest[i - 1])
    {
      var p := PushOffset(rest, i - 1);
      if p + 1 + |keys[i]| <= |t| {
        assert t[p + 1..p + 1 + |keys[i]|] == s[n + p + 1..n + p + 1 + |keys[i]|];
      }
    }
    assert forall j :: 0 <= j < |rest| ==> rest[j] == keys[j + 1];
  }

  lemma FirstPush(s: bytes, key: bytes, rest: bytes)
    requires |key| <= 255
    ensures s == [|key|] + key + rest <==> PushedAt(s, 0, key) && s[1 + |key|..] == rest
  {
    if PushedAt(s, 0, key) && s[1 + |key|..] == rest {
      assert s == [s[0]] + s[1..1 + |key|] + s[1 + |key|..];
    }
  }

  lemma {:induction false} PushesAre(s: bytes, keys: seq<bytes>)
    ensures KeyPushes(keys) == Ok(s) <==> ArePushes(s, keys)
  {
    if keys != [] {
      var n := 1 + |keys[0]|;
      if |s| >= n {
        hide PushedAt, PushOffset;
        PushesFromSecond(s, keys);
        PushesAre(s[n..], keys[1..]);
        var rest := KeyPushes(keys[1..]);
        if |keys[0]| <= 255 && rest.Ok? {
          FirstPush(s, keys[0], rest.value);
        } else {
          TooLongToPush(s, 0, keys[0]);
        }
      } else {
        TooShortForPushes(s, keys);
      }
    }
  }

  lemma TooShortForPushes(s: bytes, keys: seq<bytes>)
    requires keys != [] && |s| < 1 + |keys[0]|
    ensures !ArePushes(s, keys)
  {
  }

  lemma TooLongToPush(s: bytes, p: nat, key: bytes)
    ensures PushedAt(s, p, key) ==> |key| <= 255
  {
  }

  /**
   The script of m signatures out of n keys: the octet 80 + m, every key after its length, the
   octets 80 + n and 174.
   */
  predicate IsMultiSigScript(s: bytes, m: nat, keys: seq<bytes>) {
    var end := 1 + PushOffset(keys, |keys|);
    && m <= 15 && |keys| <= 15
    && |s| == end + 2
    && s[0] == 80 + m && s[end] == 80 + |keys| && s[end + 1] == 174
    && forall i :: 0 <= i < |keys| ==> PushedAt(s, 1 + PushOffset(keys, i), keys[i])
  }

  lemma PushedInside(s: bytes, p: nat, key: bytes)
    requires p + 1 + |key| <= |s| - 3
    ensures PushedAt(s[1..|s| - 2], p, key) <==> PushedAt(s, 1 + p, key)
  {
    var t := s[1..|s| - 2];
    var a, b := t[p + 1..p + 1 + |key|], s[p + 2..p + 2 + |key|];
    assert forall i :: 0 <= i < |key| ==> a[i] == t[p + 1 + i] == s[p + 2 + i] == b[i];
    assert a == b;
  }

  lemma InnerPushes(s: bytes, m: nat, keys: seq<bytes>)
    requires |s| >= 3 && |s| - 3 == PushOffset(keys, |keys|)
    ensures ArePushes(s[1..|s| - 2], keys) <==>
            forall i :: 0 <= i < |keys| ==> PushedAt(s, 1 + PushOffset(keys, i), keys[i])
  {
    hide PushedAt;
    var t := s[1..|s| - 2];
    forall i | 0 <= i < |keys|
      ensures PushedAt(t, PushOffset(keys, i), keys[i]) <==> PushedAt(s, 1 + PushOffset(keys, i), keys[i])
    {
      OffsetsGrow(keys, i);
      PushedInside(s, PushOffset(keys, i), keys[i]);
    }
  }

  lemma {:induction false} OffsetsGrow(keys: seq<bytes>, i: nat)
    requires i < |keys|
    ensures PushOffset(keys, i) + 1 + |keys[i]| <= PushOffset(keys, |keys|)
  {
    if i > 0 {
      OffsetsGrow(keys[1..], i - 1);
    }
  }

  /** There is exactly one such script, and it is the one the code builds; with longer lists or keys there is none. */
  lemma ScriptLayout(s: bytes, m: nat, keys: seq<bytes>)
    ensures RedeemScript(m, keys) == Ok(s) <==> IsMultiSigScript(s, m, keys)
  {
    hide KeyPushes, PushOffset, PushedAt;
    if m <= 15 && |keys| <= 15 {
      if |s| >= 3 {
        var inner := s[1..|s| - 2];
        PushesAre(inner, keys);
        if |s| - 3 == PushOffset(keys, |keys|) {
          InnerPushes(s, m, keys);
        }
        assert s == [s[0]] + inner + [s[|s| - 2], s[|s| - 1]];
        if KeyPushes(keys).Ok? && s == [80 + m] + KeyPushes(keys).value + [80 + |keys|, 174] {
          assert inner == KeyPushes(keys).value;
        }
      }
    }
  }

  /**
   The address of several keys is the hash160 of their script, or in the P2WSH modes that of the
   witness program over the script's sha256, for which every key must be compressed.
   */
  lemma SeveralKeysAddress(c: Crypto, mode: HashMode, m: nat, keys: seq<bytes>, script: bytes, w: bytes)
    requires keys != [] && IsMultiSigScript(script, m, keys)
    ensures mode == P2SH || mode == P2SHNonSequential ==> AddressHash(c, mode, m, keys) == Ok(c.hash160(script))
    ensures mode == P2WSH || mode == P2WSHNonSequential ==>
              (if exists k :: k in keys && StartsWith04(k) then
                 AddressHash(c, mode, m, keys) == Err(KeysMustBeCompressed)
               else
                 IsWitnessProgram(w, c.sha256(script)) ==> AddressHash(c, mode, m, keys) == Ok(c.hash160(w)))
  {
    hide IsMultiSigScript, RedeemScript;
    ScriptLayout(script, m, keys);
    assert forall k :: k in keys ==> (StartsWith04(k) <==> !PublicKeyIsCompressed(k));
    if IsWitnessProgram(w, c.sha256(script)) {
      WitnessProgramIs(w, c.sha256(script));
    }
  }

  /** Lists that have no address, and why. */
  lemma NoAddress(c: Crypto, mode: HashMode, m: nat, keys: seq<bytes>)
    ensures keys == [] ==> AddressHash(c, mode, m, keys) == Err(InvalidNumberOfKeys)
    ensures (mode == P2PKH || mode == P2WPKH) && !(m == 1 && |keys| == 1) ==>
              AddressHash(c, mode, m, keys) == Err(InvalidNumberOfKeys)
    ensures mode != P2PKH && mode != P2WPKH && keys != [] && (m > 15 || |keys| > 15)
            && (mode == P2SH || mode == P2SHNonSequential || forall k :: k in keys ==> !StartsWith04(k)) ==>
              AddressHash(c, mode, m, keys) == Err(TooManyKeysForAddress)
  {
  }
}

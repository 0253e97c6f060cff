/**
 What a successful verification proves: the keys shown are those of the account, enough of
 them signed, and each signature covers the hash, type, fee and nonce it was made for
 (authorization.ts, utils.ts and wire/helpers.ts). Hash functions are abstract, so wherever
 equal hashes are compared the alternative is a collision of two named inputs.
 */
module Soundness {
  import opened Results
  import opened Bytes
  import opened HexCodec
  import opened Keys
  import opened Authorization
  import opened AuthorizationWire
  import opened Transactions
  import opened Signing
  import opened Cosigning

  // ----- an address commits to the keys

  /** Each key is preceded by its length, so a list of pushes can be read in one way only. */
  lemma {:induction false} PushesDetermineKeys(a: seq<bytes>, b: seq<bytes>)
    requires KeyPushes(a).Ok? && KeyPushes(a) == KeyPushes(b)
    ensures a == b
  {
    if a != [] && b != [] {
      var p, q := KeyPushes(a[1..]).value, KeyPushes(b[1..]).value;
      var s, t := [|a[0]|] + a[0] + p, [|b[0]|] + b[0] + q;
      assert s[0] == |a[0]| && t[0] == |b[0]|;
      assert s[1..1 + |a[0]|] == a[0] && t[1..1 + |b[0]|] == b[0];
      assert s[1 + |a[0]|..] == p && t[1 + |b[0]|..] == q;
      PushesDetermineKeys(a[1..], b[1..]);
      assert a == [a[0]] + a[1..] && b == [b[0]] + b[1..];
    }
  }

  lemma ScriptDeterminesKeys(m: nat, a: seq<bytes>, n: nat, b: seq<bytes>)
    requires RedeemScript(m, a).Ok? && RedeemScript(m, a) == RedeemScript(n, b)
    ensures m == n && a == b
  {
    hide KeyPushes;
    var p, q := KeyPushes(a).value, KeyPushes(b).value;
    var s, t := [80 + m] + p + [80 + |a|, 174], [80 + n] + q + [80 + |b|, 174];
    assert s == t && s[0] == 80 + m && t[0] == 80 + n;
    assert s[1..|s| - 2] == p && t[1..|t| - 2] == q;
    PushesDetermineKeys(a, b);
  }

  ghost predicate CollidesUnder(hash: bytes -> bytes, a: bytes, b: bytes) {
    a != b && hash(a) == hash(b)
  }

  /** The script of an account, and in the P2WSH modes what is hashed over its digest. */
  function WitnessProgram(c: Crypto, script: bytes): bytes {
    var digest := c.sha256(script);
    [0, |digest| % 256] + digest
  }

  ghost predicate ScriptsCollide(c: Crypto, mode: HashMode, s: bytes, t: bytes) {
    if mode.P2SH? || mode.P2SHNonSequential? then CollidesUnder(c.hash160, s, t)
    else CollidesUnder(c.sha256, s, t) || CollidesUnder(c.hash160, WitnessProgram(c, s), WitnessProgram(c, t))
  }

  /** The scripts of two accounts of the same kind, if there are such, do not collide. */
  ghost predicate AccountsApart(c: Crypto, mode: HashMode, m: nat, a: seq<bytes>, n: nat, b: seq<bytes>) {
    RedeemScript(m, a).Ok? && RedeemScript(n, b).Ok? ==>
      !ScriptsCollide(c, mode, RedeemScript(m, a).value, RedeemScript(n, b).value)
  }

  /** Without collisions an address determines the number of signatures and the keys, in order. */
  lemma AddressDeterminesAccount(c: Crypto, mode: HashMode, m: nat, a: seq<bytes>, n: nat, b: seq<bytes>)
    requires mode.IsMultiSig() && AccountsApart(c, mode, m, a, n, b)
    requires AddressHash(c, mode, m, a).Ok? && AddressHash(c, mode, m, a) == AddressHash(c, mode, n, b)
    ensures m == n && a == b
  {
    hide RedeemScript;
    var s, t := RedeemScript(m, a).value, RedeemScript(n, b).value;
    if mode.P2WSH? || mode.P2WSHNonSequential? {
      var u, v := WitnessProgram(c, s), WitnessProgram(c, t);
      assert u[2..] == c.sha256(s) && v[2..] == c.sha256(t);
    }
    ScriptDeterminesKeys(m, a, n, b);
  }

  // ----- what the fields prove

  /** Every signature recovers the key in its place from the hash that the fields before it lead to. */
  ghost predicate SignersShown(step: VerificationStep, sequential: bool, fields: seq<Field>, initial: bytes,
                               numSigs: nat, keys: seq<bytes>)
  {
    && |fields| == |keys|
    && forall i | 0 <= i < |fields| && fields[i].SignatureField? ::
         SignedAt(step, sequential, fields, initial, numSigs, i, keys[i])
  }

  predicate SignedAt(step: VerificationStep, sequential: bool, fields: seq<Field>, initial: bytes, numSigs: nat,
                     i: nat, key: bytes)
    requires i < |fields| && fields[i].SignatureField?
  {
    var before := Replay(step, sequential, fields[..i], initial, numSigs);
    before.Ok?
    && var v := step(before.value.sigHash, fields[i].encoding, fields[i].signature);
       v.Ok? && v.value.publicKey == key
  }

  lemma {:induction false} ReplayShowsSigners(step: VerificationStep, sequential: bool, fields: seq<Field>,
                                              initial: bytes, numSigs: nat)
    requires Replay(step, sequential, fields, initial, numSigs).Ok?
    ensures SignersShown(step, sequential, fields, initial, numSigs,
                         Replay(step, sequential, fields, initial, numSigs).value.publicKeys)
    decreases |fields|
  {
    if fields != [] {
      var f, rest := fields[0], fields[1..];
      var keys := Replay(step, sequential, fields, initial, numSigs).value.publicKeys;
      var next, n := initial, numSigs;
      if f.SignatureField? {
        var v := step(initial, f.encoding, f.signature).value;
        next, n := if sequential then v.nextSigHash else initial, numSigs + 1;
      }
      ReplayShowsSigners(step, sequential, rest, next, n);
      forall i | 0 <= i < |fields| && fields[i].SignatureField?
        ensures SignedAt(step, sequential, fields, initial, numSigs, i, keys[i])
      {
        if i > 0 {
          assert fields[..i][1..] == rest[..i - 1];
          assert SignedAt(step, sequential, rest, next, n, i - 1, keys[i]);
        }
      }
    }
  }

  /** A step recovers keys in the encoding it is given. */
  ghost predicate KeepsEncoding(step: VerificationStep) {
    forall h: bytes, e: KeyEncoding, sig: bytes :: step(h, e, sig).Ok? ==>
      (PublicKeyIsCompressed(step(h, e, sig).value.publicKey) <==> e == Compressed)
  }

  lemma {:induction false} UncompressedFieldsShowUncompressedKeys(step: VerificationStep, sequential: bool,
                                                                  fields: seq<Field>, sigHash: bytes, numSigs: nat)
    requires KeepsEncoding(step) && Replay(step, sequential, fields, sigHash, numSigs).Ok?
    ensures HaveUncompressed(fields) <==>
            AnyUncompressed(Replay(step, sequential, fields, sigHash, numSigs).value.publicKeys)
    decreases |fields|
  {
    hide HaveUncompressed, AnyUncompressed;
    if fields == [] {
      NoneUncompressed();
    } else {
      var f, rest := fields[0], fields[1..];
      var keys := Replay(step, sequential, fields, sigHash, numSigs).value.publicKeys;
      if f.PublicKeyField? {
        UncompressedFieldsShowUncompressedKeys(step, sequential, rest, sigHash, numSigs);
      } else {
        var v := step(sigHash, f.encoding, f.signature).value;
        UncompressedFieldsShowUncompressedKeys(step, sequential, rest,
                                               if sequential then v.nextSigHash else sigHash, numSigs + 1);
      }
      UncompressedCons(f, rest, keys[0], keys[1..]);
      assert fields == [f] + rest && keys == [keys[0]] + keys[1..];
    }
  }

  lemma NoneUncompressed()
    ensures !HaveUncompressed([]) && !AnyUncompressed([])
  {
  }

  lemma LawfulStepKeepsEncoding(c: Crypto, cond: Condition, at: AuthType)
    requires c.Lawful()
    ensures KeepsEncoding(VerificationStepOf(c, cond, at))
  {
  }

  /** What a condition must show to spend from the account of m and `keys`. */
  predicate Authorizes(c: Crypto, cond: Condition, initial: bytes, at: AuthType, m: nat, keys: seq<bytes>)
    requires cond.MultiSig?
  {
    var r := Replay(VerificationStepOf(c, cond, at), cond.mode.IsSequentialMultiSig(), cond.fields, initial, 0);
    && r.Ok? && r.value.publicKeys == keys && cond.signaturesRequired == m
    && Enough(cond, CountSignatures(cond.fields))
  }

  /**
   A condition on the account of m and `keys` verifies if its fields replay, show exactly these
   keys in order and hold enough signatures for m; and only if, unless the script of the keys
   it shows collides with that of the account.
   */
  lemma VerificationIsSound(c: Crypto, cond: Condition, initial: bytes, at: AuthType, m: nat, keys: seq<bytes>)
    requires c.Lawful() && cond.MultiSig? && cond.mode.IsMultiSig()
    requires AddressHash(c, cond.mode, m, keys) == Ok(cond.signer)
    ensures var step, sequential := VerificationStepOf(c, cond, at), cond.mode.IsSequentialMultiSig();
            var r := Replay(step, sequential, cond.fields, initial, 0);
            var verdict := MultiSigVerdict(c, cond, initial, at);
            && (Authorizes(c, cond, initial, at, m, keys) ==> verdict.Ok?)
            && (verdict.Ok? ==>
                  && r.Ok? && verdict == Ok(r.value.sigHash)
                  && SignersShown(step, sequential, cond.fields, initial, 0, r.value.publicKeys)
                  && (|| Authorizes(c, cond, initial, at, m, keys)
                      || !AccountsApart(c, cond.mode, cond.signaturesRequired, r.value.publicKeys, m, keys)))
  {
    hide AddressHash, AccountsApart, Replay, VerificationStepOf, HaveUncompressed, SignersShown, Crypto.Lawful;
    var step, sequential := VerificationStepOf(c, cond, at), cond.mode.IsSequentialMultiSig();
    var r := Replay(step, sequential, cond.fields, initial, 0);
    if r.Ok? {
      ReplayCounts(step, sequential, cond.fields, initial, 0);
      ReplayShowsSigners(step, sequential, cond.fields, initial, 0);
      LawfulStepKeepsEncoding(c, cond, at);
      UncompressedFieldsShowUncompressedKeys(step, sequential, cond.fields, initial, 0);
      AddressKeysAreFew(c, cond.mode, m, keys);
      var shown, n := r.value.publicKeys, cond.signaturesRequired;
      if AddressHash(c, cond.mode, n, shown) == Ok(cond.signer) && AccountsApart(c, cond.mode, n, shown, m, keys) {
        AddressDeterminesAccount(c, cond.mode, n, shown, m, keys);
      }
    }
  }

  /**
   What one verification of the chain checks: the key is the one that the signature recovers from the
   hash that binds type, fee and nonce to the current one, and the next hash binds the signature.
   */
  lemma StepChecksSignature(c: Crypto, cond: Condition, at: AuthType, sigHash: bytes, encoding: KeyEncoding,
                            signature: bytes, key: bytes)
    requires c.Lawful() && |sigHash| == 32
    ensures var pre := c.txHash(PreInput(sigHash, at, cond.fee, cond.nonce));
            var step := VerificationStepOf(c, cond, at)(sigHash, encoding, signature);
            && (step.Ok? && step.value.publicKey == key
                <==> && Fits(cond.fee) && Fits(cond.nonce) && |signature| <= 65
                     && c.recover(pre, signature, encoding) == Some(key))
            && (step.Ok? ==> step.value.nextSigHash == c.txHash(PostInput(pre, encoding, signature)))
  {
    hide PreInput, SigHashPreSign, PostInput, SigHashPostSign, Fits;
    PreSignLayout(c, sigHash, at, cond.fee, cond.nonce);
    var pre := c.txHash(PreInput(sigHash, at, cond.fee, cond.nonce));
    var recovered := c.recover(pre, signature, encoding);
    if recovered.Some? {
      PostSignLayout(c, pre, recovered.value, signature);
      assert EncodingOfPublicKey(recovered.value) == encoding;
    }
  }

  /**
   Why a multi-signature condition is refused: the first thing wrong among its fields, the number of
   signatures, uncompressed keys in the P2WSH modes, and the address of the keys shown.
   */
  lemma WhyRefused(c: Crypto, cond: Condition, initial: bytes, at: AuthType)
    requires cond.MultiSig? && cond.mode.IsMultiSig()
    ensures var r := Replay(VerificationStepOf(c, cond, at), cond.mode.IsSequentialMultiSig(), cond.fields, initial, 0);
            var verdict := MultiSigVerdict(c, cond, initial, at);
            && (r.Err? ==> verdict == Err(r.error))
            && (r.Ok? ==>
                  var numSigs, address := CountSignatures(cond.fields),
                                          AddressHash(c, cond.mode, cond.signaturesRequired, r.value.publicKeys);
                  if !Enough(cond, numSigs) then verdict == Err(IncorrectNumberOfSignatures)
                  else if (cond.mode == P2WSH || cond.mode == P2WSHNonSequential) && HaveUncompressed(cond.fields) then
                    verdict == Err(UncompressedKeysNotAllowed)
                  else if address.Err? then verdict == Err(address.error)
                  else verdict == if address.value == cond.signer then Ok(r.value.sigHash) else Err(SignerHashMismatch))
  {
    hide AddressHash, Replay, VerificationStepOf, HaveUncompressed;
    ReplayCounts(VerificationStepOf(c, cond, at), cond.mode.IsSequentialMultiSig(), cond.fields, initial, 0);
  }

  // ----- single signatures

  /** What is hashed last to make the P2WPKH address of a key. */
  function KeyProgram(c: Crypto, key: bytes): bytes {
    var keyHash := c.hash160(key);
    [0, |keyHash| % 256] + keyHash
  }

  /** Neither the two keys nor, where they are hashed once more, their witness programs collide. */
  ghost predicate KeysApart(c: Crypto, mode: HashMode, a: bytes, b: bytes) {
    if mode.IsMultiSig() then AccountsApart(c, mode, 1, [a], 1, [b])
    else
      && !CollidesUnder(c.hash160, a, b)
      && (mode.P2WPKH? ==> !CollidesUnder(c.hash160, KeyProgram(c, a), KeyProgram(c, b)))
  }

  /** Without collisions an address of one key determines the key. */
  lemma AddressDeterminesKey(c: Crypto, mode: HashMode, a: bytes, b: bytes)
    requires KeysApart(c, mode, a, b)
    requires AddressHash(c, mode, 1, [a]).Ok? && AddressHash(c, mode, 1, [a]) == AddressHash(c, mode, 1, [b])
    ensures a == b
  {
    hide AccountsApart, RedeemScript;
    if mode.IsMultiSig() {
      assert mode.IsMultiSig() && AccountsApart(c, mode, 1, [a], 1, [b]);
      AddressDeterminesAccount(c, mode, 1, [a], 1, [b]);
      assert [a][0] == [b][0];
    } else if mode.P2WPKH? {
      var u, v := KeyProgram(c, a), KeyProgram(c, b);
      assert u[2..] == c.hash160(a) && v[2..] == c.hash160(b);
    }
  }

  /** The condition's signature recovers `key` from the hash that binds type, fee and nonce to `initial`. */
  predicate SignedBy(c: Crypto, cond: Condition, initial: bytes, at: AuthType, key: bytes)
    requires cond.SingleSig?
  {
    var pre := PreInput(initial, at, cond.fee, cond.nonce);
    && Fits(cond.fee) && Fits(cond.nonce) && |cond.signature| <= SIGNATURE_LENGTH
    && c.recover(c.txHash(pre), cond.signature, cond.keyEncoding) == Some(key)
  }

  /**
   A condition on the account of `key` verifies if its signature recovers this key; and only if,
   unless the key it recovers collides with that of the account. The verdict is the hash of
   what the signature was checked against, the kind of key, and the signature.
   */
  lemma SingleVerificationIsSound(c: Crypto, cond: Condition, initial: bytes, at: AuthType, key: bytes)
    requires c.Lawful() && cond.SingleSig? && |initial| == 32
    requires AddressHash(c, cond.mode, 1, [key]) == Ok(cond.signer)
    ensures var pre := c.txHash(PreInput(initial, at, cond.fee, cond.nonce));
            var verdict := Verify(c, cond, initial, at);
            && (SignedBy(c, cond, initial, at, key) ==> verdict.Ok?)
            && (verdict.Ok? ==>
                  && verdict == Ok(c.txHash(PostInput(pre, cond.keyEncoding, cond.signature)))
                  && var recovered := c.recover(pre, cond.signature, cond.keyEncoding);
                  && recovered.Some? && SignedBy(c, cond, initial, at, recovered.value)
                  && (recovered == Some(key) || !KeysApart(c, cond.mode, recovered.value, key)))
            && (verdict.Err? ==>
                  var recovered := c.recover(pre, cond.signature, cond.keyEncoding);
                  if !Fits(cond.fee) || !Fits(cond.nonce) then verdict == Err(InvalidSignatureHashLength)
                  else if recovered.None? then verdict == Err(InvalidSignature)
                  else if |cond.signature| > 65 then verdict == Err(InvalidSignatureHashLength)
                  else if AddressHash(c, cond.mode, 1, [recovered.value]).Ok? then verdict == Err(SignerHashMismatch)
                  else verdict == Err(AddressHash(c, cond.mode, 1, [recovered.value]).error))
  {
    hide AddressHash, KeysApart, PreInput, SigHashPreSign, PostInput, SigHashPostSign, Fits;
    PreSignLayout(c, initial, at, cond.fee, cond.nonce);
    var pre := c.txHash(PreInput(initial, at, cond.fee, cond.nonce));
    var recovered := c.recover(pre, cond.signature, cond.keyEncoding);
    if recovered.Some? {
      PostSignLayout(c, pre, recovered.value, cond.signature);
      var shown := recovered.value;
      assert EncodingOfPublicKey(shown) == cond.keyEncoding;
      if AddressHash(c, cond.mode, 1, [shown]) == Ok(cond.signer) && KeysApart(c, cond.mode, shown, key) {
        AddressDeterminesKey(c, cond.mode, shown, key);
      }
    }
  }

  // ----- what a signature covers

  /** Where hash, type, fee and nonce stand in what is signed; it can be built iff fee and nonce fit. */
  lemma PreSignLayout(c: Crypto, sigHash: bytes, at: AuthType, fee: nat, nonce: nat)
    requires |sigHash| == 32
    ensures SigHashPreSign(c, sigHash, at, fee, nonce).Ok? <==> Fits(fee) && Fits(nonce)
    ensures !(Fits(fee) && Fits(nonce)) ==>
              SigHashPreSign(c, sigHash, at, fee, nonce) == Err(InvalidSignatureHashLength)
    ensures Fits(fee) && Fits(nonce) ==>
              var d := PreInput(sigHash, at, fee, nonce);
              && SigHashPreSign(c, sigHash, at, fee, nonce) == Ok(c.txHash(d))
              && |d| == 49 && d[..32] == sigHash && d[32] == (if at == Standard then 4 else 5)
              && FromBE(d[33..41]) == fee && FromBE(d[41..]) == nonce
  {
    hide IntToBytes, Pow, FromBE;
    IntToBytesExact(fee, 8);
    IntToBytesExact(nonce, 8);
    var d := PreInput(sigHash, at, fee, nonce);
    var f, n := IntToBytes(fee, 8), IntToBytes(nonce, 8);
    if Fits(fee) && Fits(nonce) {
      assert d[33..41] == f && d[41..] == n;
    }
  }

  /** Where the hash, the kind of key and the signature stand in what the next hash is made of. */
  lemma PostSignLayout(c: Crypto, sigHash: bytes, publicKey: bytes, signature: bytes)
    requires |sigHash| == 32
    ensures SigHashPostSign(c, sigHash, publicKey, signature).Ok? <==> |signature| <= 65
    ensures |signature| > 65 ==> SigHashPostSign(c, sigHash, publicKey, signature) == Err(InvalidSignatureHashLength)
    ensures |signature| <= SIGNATURE_LENGTH ==>
              var d := PostInput(sigHash, EncodingOfPublicKey(publicKey), signature);
              && SigHashPostSign(c, sigHash, publicKey, signature) == Ok(c.txHash(d))
              && |d| == 33 + |signature| && d[..32] == sigHash && d[33..] == signature
              && d[32] == (if publicKey != [] && publicKey[0] == 4 then 1 else 0)
  {
  }

  /** Two pre-signing hashes are equal only for the same chain, type, fee and nonce. */
  lemma SignatureCoversFeeAndNonce(c: Crypto, h1: bytes, at1: AuthType, fee1: nat, nonce1: nat,
                                   h2: bytes, at2: AuthType, fee2: nat, nonce2: nat)
    requires |h1| == 32 && |h2| == 32 && Fits(fee1) && Fits(nonce1) && Fits(fee2) && Fits(nonce2)
    ensures !Collides(c, PreInput(h1, at1, fee1, nonce1), PreInput(h2, at2, fee2, nonce2)) ==>
              (SigHashPreSign(c, h1, at1, fee1, nonce1) == SigHashPreSign(c, h2, at2, fee2, nonce2)
               <==> h1 == h2 && at1 == at2 && fee1 == fee2 && nonce1 == nonce2)
  {
    hide PreInput, SigHashPreSign;
    PreSignLayout(c, h1, at1, fee1, nonce1);
    PreSignLayout(c, h2, at2, fee2, nonce2);
  }

  /** The octets that the initial hash is made of: the transaction with its authorization cleared. */
  function InitialOctets(c: Crypto, env: Envelope, auth: Authorization): bytes {
    SignBeginSucceeds(c, env, auth);
    env.head + EncodeAuthorization(c, InitialAuthorization(auth)).value + env.tail
  }

  /** The same type of transaction, charging the same account, with the number of signatures as it is written. */
  predicate SameInWriting(a: Authorization, b: Authorization) {
    a.Type() == b.Type() && SameAccount(Carried(a.origin), Carried(b.origin))
  }

  lemma CarriedFormIsTheAccount(a: Authorization, b: Authorization)
    ensures CarriedAuthorization(InitialAuthorization(a)) == CarriedAuthorization(InitialAuthorization(b))
            <==> SameInWriting(a, b)
  {
  }

  /** Clearing keeps an authorization well-formed, whatever it was cleared of. */
  lemma ClearedIsWellFormed(c: Crypto, auth: Authorization)
    requires WellFormedCondition(c, auth.origin)
    ensures WellFormed(c, InitialAuthorization(auth))
  {
    assert |EmptySignature()| == SIGNATURE_LENGTH;
  }

  lemma SameMiddle(h1: bytes, m1: bytes, t1: bytes, h2: bytes, m2: bytes, t2: bytes)
    requires |h1| == |h2|
    ensures h1 + m1 + t1 == h2 + m2 + t2 <==> h1 == h2 && m1 + t1 == m2 + t2
  {
    var a, b := h1 + m1 + t1, h2 + m2 + t2;
    assert a == h1 + (m1 + t1) && b == h2 + (m2 + t2);
    assert a[..|h1|] == h1 && b[..|h2|] == h2 && a[|h1|..] == m1 + t1 && b[|h2|..] == m2 + t2;
  }

  /**
   What the initial hash covers. Two transactions start from the same octets exactly when
   everything around their authorizations is the same, their type and the account charged;
   and from the same hash only then, unless these octets collide.
   */
  lemma InitialHashCovers(c: Crypto, e1: Envelope, a1: Authorization, e2: Envelope, a2: Authorization)
    requires |e1.head| == |e2.head|
    requires WellFormed(c, InitialAuthorization(a1)) && WellFormed(c, InitialAuthorization(a2))
    ensures InitialOctets(c, e1, a1) == InitialOctets(c, e2, a2) <==> e1 == e2 && SameInWriting(a1, a2)
    ensures !Collides(c, InitialOctets(c, e1, a1), InitialOctets(c, e2, a2)) ==>
              (SignBegin(c, e1, a1) == SignBegin(c, e2, a2) <==> e1 == e2 && SameInWriting(a1, a2))
  {
    hide EncodeAuthorization, InitialAuthorization, WellFormed, CarriedAuthorization, SameInWriting;
    var b1, b2 := InitialAuthorization(a1), InitialAuthorization(a2);
    EncodingIsPrefixFree(c, b1, b2, e1.tail, e2.tail);
    CarriedFormIsTheAccount(a1, a2);
    SameMiddle(e1.head, EncodeAuthorization(c, b1).value, e1.tail, e2.head, EncodeAuthorization(c, b2).value, e2.tail);
  }

  /** What the first signature of an origin is made over. */
  function FirstPreSign(c: Crypto, env: Envelope, auth: Authorization): Result<bytes, Error> {
    var initial :- SignBegin(c, env, auth);
    SigHashPreSign(c, initial, Standard, auth.origin.fee, auth.origin.nonce)
  }

  /**
   The first signature, and in the non-sequential modes every one, is made over the same hash in
   two transactions exactly when these agree in all that surrounds the authorization, in type
   and account, and in fee and nonce, unless two inputs of the hash collide.
   */
  lemma SignatureCoversTransaction(c: Crypto, e1: Envelope, a1: Authorization, e2: Envelope, a2: Authorization)
    requires c.Lawful() && |e1.head| == |e2.head|
    requires WellFormedCondition(c, a1.origin) && WellFormedCondition(c, a2.origin)
    ensures var o1, o2 := InitialOctets(c, e1, a1), InitialOctets(c, e2, a2);
            var p1 := PreInput(c.txHash(o1), Standard, a1.origin.fee, a1.origin.nonce);
            var p2 := PreInput(c.txHash(o2), Standard, a2.origin.fee, a2.origin.nonce);
            !Collides(c, o1, o2) && !Collides(c, p1, p2) ==>
              (FirstPreSign(c, e1, a1) == FirstPreSign(c, e2, a2)
               <==> && e1 == e2 && SameInWriting(a1, a2)
                    && a1.origin.fee == a2.origin.fee && a1.origin.nonce == a2.origin.nonce)
  {
    hide InitialOctets, PreInput, SigHashPreSign, InitialAuthorization, WellFormed, SameInWriting, EncodeAuthorization;
    ClearedIsWellFormed(c, a1);
    ClearedIsWellFormed(c, a2);
    InitialHashIs(c, e1, a1);
    InitialHashIs(c, e2, a2);
    InitialHashCovers(c, e1, a1, e2, a2);
    SignatureCoversFeeAndNonce(c, c.txHash(InitialOctets(c, e1, a1)), Standard, a1.origin.fee, a1.origin.nonce,
                               c.txHash(InitialOctets(c, e2, a2)), Standard, a2.origin.fee, a2.origin.nonce);
  }

  lemma InitialHashIs(c: Crypto, env: Envelope, auth: Authorization)
    ensures SignBegin(c, env, auth) == Ok(c.txHash(InitialOctets(c, env, auth)))
  {
    SignBeginSucceeds(c, env, auth);
  }

  // ----- whole transactions

  /** The origin of a transaction is authorized by the account of m and `keys`. */
  predicate Authorized(c: Crypto, env: Envelope, auth: Authorization, m: nat, keys: seq<bytes>) {
    var initial := c.txHash(InitialOctets(c, env, auth));
    if auth.origin.MultiSig? then Authorizes(c, auth.origin, initial, Standard, m, keys)
    else m == 1 && |keys| == 1 && SignedBy(c, auth.origin, initial, Standard, keys[0])
  }

  /**
   A transaction verifies if the keys of the account it charges authorize it, each signature being
   checked against the hash of the whole transaction; and only if, unless the keys it shows
   are others whose address collides with that of the account.
   */
  lemma VerifiedIsAuthorized(c: Crypto, env: Envelope, auth: Authorization, m: nat, keys: seq<bytes>)
    requires c.Lawful() && (if auth.origin.MultiSig? then auth.origin.mode.IsMultiSig() else m == 1 && |keys| == 1)
    requires AddressHash(c, auth.origin.mode, m, keys) == Ok(auth.origin.signer)
    ensures Authorized(c, env, auth, m, keys) ==> VerifyTransaction(c, env, auth).Ok?
    ensures VerifyTransaction(c, env, auth).Ok? ==>
              exists n, shown :: Authorized(c, env, auth, n, shown)
                && (|| (n == m && shown == keys)
                    || (if auth.origin.MultiSig? then !AccountsApart(c, auth.origin.mode, n, shown, m, keys)
                        else |shown| == 1 && !KeysApart(c, auth.origin.mode, shown[0], keys[0])))
  {
    hide InitialOctets, PreInput, AddressHash, KeysApart, AccountsApart, Replay, SignersShown, SignedBy;
    InitialHashIs(c, env, auth);
    var cond, initial := auth.origin, c.txHash(InitialOctets(c, env, auth));
    if cond.MultiSig? {
      VerificationIsSound(c, cond, initial, Standard, m, keys);
      if VerifyTransaction(c, env, auth).Ok? {
        var step, sequential := VerificationStepOf(c, cond, Standard), cond.mode.IsSequentialMultiSig();
        var r := Replay(step, sequential, cond.fields, initial, 0).value;
        ReplayCounts(step, sequential, cond.fields, initial, 0);
        assert Authorized(c, env, auth, cond.signaturesRequired, r.publicKeys);
      }
    } else {
      assert keys == [keys[0]];
      SingleVerificationIsSound(c, cond, initial, Standard, keys[0]);
      if VerifyTransaction(c, env, auth).Ok? {
        var pre := c.txHash(PreInput(initial, Standard, cond.fee, cond.nonce));
        var shown := [c.recover(pre, cond.signature, cond.keyEncoding).value];
        assert Authorized(c, env, auth, 1, shown);
        assert shown[0] == keys[0] ==> shown == keys;
      }
    }
  }
}

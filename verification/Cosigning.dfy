/**
 Signing in several sittings: late signatures in the non-sequential modes, resuming a
 partly signed transaction, and the sponsor's signature on top of the origin's
 (signer.ts and authorization.ts).
 */
module Cosigning {
  import opened Results
  import opened Bytes
  import opened HexCodec
  import opened Keys
  import opened Authorization
  import opened Transactions
  import opened Signing

  // ----- late signatures

  lemma {:induction false} CountAfterReplacing(fields: seq<Field>, i: nat, f: Field)
    requires i < |fields| && fields[i].PublicKeyField? && f.SignatureField?
    ensures CountSignatures(fields[i := f]) == CountSignatures(fields) + 1
  {
    if i > 0 {
      CountAfterReplacing(fields[1..], i - 1, f);
      assert fields[i := f][1..] == fields[1..][i - 1 := f];
    } else {
      assert fields[i := f][1..] == fields[1..];
    }
  }

  lemma ReplacingKeepsCompression(fields: seq<Field>, i: nat, f: Field)
    requires i < |fields| && (f.IsUncompressed() <==> fields[i].IsUncompressed())
    ensures HaveUncompressed(fields[i := f]) <==> HaveUncompressed(fields)
  {
    var after := fields[i := f];
    assert forall j :: 0 <= j < |fields| ==> (after[j].IsUncompressed() <==> fields[j].IsUncompressed());
    if x :| x in after && x.IsUncompressed() {
      var j :| 0 <= j < |after| && after[j] == x;
      assert fields[j] in fields;
    }
    if x :| x in fields && x.IsUncompressed() {
      var j :| 0 <= j < |fields| && fields[j] == x;
      assert after[j] in after;
    }
  }

  lemma ReplacingKeepsReplay(step: VerificationStep, fields: seq<Field>, i: nat, f: Field, initial: bytes)
    requires i < |fields| && fields[i].PublicKeyField? && f.SignatureField?
    requires KeyShown(step, f, initial) == Ok(fields[i].key)
    requires Replay(step, false, fields, initial, 0).Ok? && CountSignatures(fields) + 1 < SIGNATURE_LIMIT
    ensures Replay(step, false, fields[i := f], initial, 0) ==
            Ok(Replay(step, false, fields, initial, 0).value.(numSigs := CountSignatures(fields) + 1))
  {
    var after := fields[i := f];
    SignaturesAreIndependent(step, fields, initial, 0);
    CountAfterReplacing(fields, i, f);
    assert forall j :: 0 <= j < |fields| ==> KeyShown(step, after[j], initial) == KeyShown(step, fields[j], initial);
    SignaturesAreIndependent(step, after, initial, 0);
    var r, r' := Replay(step, false, fields, initial, 0).value, Replay(step, false, after, initial, 0).value;
    assert r.publicKeys == r'.publicKeys;
  }

  /**
   In the non-sequential modes any key that is only shown may sign later: putting its
   signature in its place keeps a condition valid, with the same verdict.
   */
  lemma LateSignatureKeepsVerdict(c: Crypto, cond: Condition, initial: bytes, at: AuthType, i: nat, key: bytes)
    requires c.Lawful() && |initial| == 32
    requires cond.MultiSig? && cond.mode.IsNonSequentialMultiSig() && Fits(cond.fee) && Fits(cond.nonce)
    requires i < |cond.fields| && cond.fields[i].PublicKeyField?
    requires PrivateKeyToPublic(c, key) == Ok(cond.fields[i].key)
    requires MultiSigVerdict(c, cond, initial, at).Ok?
    ensures var signed := NextSignature(c, initial, at, cond.fee, cond.nonce, key);
            && signed.Ok?
            && var field := SignatureField(EncodingOfPrivateKey(key), signed.value.signature);
            && var after := cond.(fields := cond.fields[i := field]);
            && MultiSigVerdict(c, after, initial, at) == MultiSigVerdict(c, cond, initial, at)
  {
    hide Fits, NextSignature, NextVerification, PrivateKeyToPublic, AddressHash, Replay, HaveUncompressed;
    var step := VerificationStepOf(c, cond, at);
    LawfulStepsAgree(c, cond, at);
    assert PublicKeyFunctionOf(c)(key) == Ok(cond.fields[i].key);
    var signed := SigningStepOf(c, cond, at)(initial, key);
    assert signed == NextSignature(c, initial, at, cond.fee, cond.nonce, key);
    var field := SignatureField(EncodingOfPrivateKey(key), signed.value.signature);
    var after := cond.(fields := cond.fields[i := field]);
    SameStep(c, cond, after, at);
    var r := Replay(step, false, cond.fields, initial, 0).value;
    SignaturesAreIndependent(step, cond.fields, initial, 0);
    AddressKeysAreFew(c, cond.mode, cond.signaturesRequired, r.publicKeys);
    ReplacingKeepsReplay(step, cond.fields, i, field, initial);
    ReplacingKeepsCompression(cond.fields, i, field);
  }

  // ----- resuming a partly signed transaction

  predicate AllSignaturesCompressed(fields: seq<Field>) {
    forall f :: f in fields && f.SignatureField? ==> f.encoding == Compressed
  }

  ghost predicate Collides(c: Crypto, a: bytes, b: bytes) {
    a != b && c.txHash(a) == c.txHash(b)
  }

  /** Two verifications of one signature, from two hashes, run into no collision of the transaction hash. */
  ghost predicate NoCollision(c: Crypto, cond: Condition, at: AuthType, f: Field, h1: bytes, h2: bytes)
    requires f.SignatureField?
  {
    var a, b := PreInput(h1, Standard, cond.fee, cond.nonce), PreInput(h2, at, cond.fee, cond.nonce);
    && !Collides(c, a, b)
    && !Collides(c, PostInput(c.txHash(a), f.encoding, f.signature), PostInput(c.txHash(b), Compressed, f.signature))
  }

  /** The same for all signatures of a list, along the verifier's chain and the resumed one. */
  ghost predicate NoCollisions(c: Crypto, cond: Condition, at: AuthType, fields: seq<Field>, h1: bytes, h2: bytes) {
    if fields == [] then true
    else if fields[0].PublicKeyField? then NoCollisions(c, cond, at, fields[1..], h1, h2)
    else
      && NoCollision(c, cond, at, fields[0], h1, h2)
      && var v1 := VerificationStepOf(c, cond, Standard)(h1, fields[0].encoding, fields[0].signature);
         var v2 := VerificationStepOf(c, cond, at)(h2, Compressed, fields[0].signature);
         v1.Ok? && v2.Ok? ==> NoCollisions(c, cond, at, fields[1..], v1.value.nextSigHash, v2.value.nextSigHash)
  }

  lemma InputsDetermine(h1: bytes, h2: bytes, x: byte, y: byte, rest: bytes)
    requires |h1| == |h2|
    ensures h1 + [x] + rest == h2 + [y] + rest <==> h1 == h2 && x == y
  {
    var a, b := h1 + [x] + rest, h2 + [y] + rest;
    if a == b {
      assert h1 == a[..|h1|] == b[..|h1|] == h2;
      assert x == a[|h1|] == b[|h1|] == y;
    }
  }

  /** Without collisions, two verifications of one signature agree only if they agree in everything. */
  lemma StepsMeet(c: Crypto, cond: Condition, at: AuthType, f: Field, h1: bytes, h2: bytes)
    requires c.Lawful() && |h1| == 32 && |h2| == 32 && f.SignatureField?
    requires NoCollision(c, cond, at, f, h1, h2)
    requires VerificationStepOf(c, cond, Standard)(h1, f.encoding, f.signature).Ok?
    requires VerificationStepOf(c, cond, at)(h2, Compressed, f.signature).Ok?
    ensures var v1 := VerificationStepOf(c, cond, Standard)(h1, f.encoding, f.signature).value;
            var v2 := VerificationStepOf(c, cond, at)(h2, Compressed, f.signature).value;
            && |v1.nextSigHash| == 32 && |v2.nextSigHash| == 32
            && (v1.nextSigHash == v2.nextSigHash <==> h1 == h2 && at == Standard && f.encoding == Compressed)
  {
    hide IntToBytes;
    var rest := IntToBytes(cond.fee, 8) + IntToBytes(cond.nonce, 8);
    var a, b := PreInput(h1, Standard, cond.fee, cond.nonce), PreInput(h2, at, cond.fee, cond.nonce);
    assert a == h1 + [Standard.Code()] + rest && b == h2 + [at.Code()] + rest;
    InputsDetermine(h1, h2, Standard.Code(), at.Code(), rest);
    InputsDetermine(c.txHash(a), c.txHash(b), f.encoding.Code(), Compressed.Code(), f.signature);
  }

  lemma {:induction false} NoSignatureToCompress(fields: seq<Field>)
    requires CountSignatures(fields) == 0
    ensures AllSignaturesCompressed(fields)
  {
    if fields != [] {
      NoSignatureToCompress(fields[1..]);
      assert fields == [fields[0]] + fields[1..];
    }
  }

  lemma {:induction false} ResumeMeetsChain(c: Crypto, cond: Condition, at: AuthType, fields: seq<Field>, h1: bytes,
                                            h2: bytes, numSigs: nat)
    requires c.Lawful() && |h1| == 32 && |h2| == 32
    requires NoCollisions(c, cond, at, fields, h1, h2)
    requires Replay(VerificationStepOf(c, cond, Standard), true, fields, h1, numSigs).Ok?
    ensures Resume(VerificationStepOf(c, cond, at), true, fields, h2) ==
            Ok(Replay(VerificationStepOf(c, cond, Standard), true, fields, h1, numSigs).value.sigHash)
            <==> h1 == h2 && (CountSignatures(fields) == 0 || (at == Standard && AllSignaturesCompressed(fields)))
    decreases |fields|
  {
    hide VerificationStepOf, NoCollision, Crypto.Lawful;
    if fields != [] {
      var f, rest := fields[0], fields[1..];
      assert fields == [f] + rest;
      assert AllSignaturesCompressed(fields) <==>
             (f.SignatureField? ==> f.encoding == Compressed) && AllSignaturesCompressed(rest);
      if f.PublicKeyField? {
        ResumeMeetsChain(c, cond, at, rest, h1, h2, numSigs);
      } else {
        var v1 := VerificationStepOf(c, cond, Standard)(h1, f.encoding, f.signature);
        var v2 := VerificationStepOf(c, cond, at)(h2, Compressed, f.signature);
        if v2.Ok? {
          if CountSignatures(rest) == 0 {
            NoSignatureToCompress(rest);
          }
          StepsMeet(c, cond, at, f, h1, h2);
          ResumeMeetsChain(c, cond, at, rest, v1.value.nextSigHash, v2.value.nextSigHash, numSigs + 1);
        }
      }
    }
  }

  /** Nothing has been signed yet, or the signatures there can be replayed as a new signer does it. */
  predicate Resumable(auth: Authorization)
    requires auth.origin.MultiSig?
  {
    || CountSignatures(auth.origin.fields) == 0
    || (auth.StandardAuth? && AllSignaturesCompressed(auth.origin.fields))
  }

  lemma {:induction false} KeysOnlyKeepHash(replayed: VerificationStep, resumed: VerificationStep, sequential: bool,
                                            fields: seq<Field>, sigHash: bytes, numSigs: nat)
    requires CountSignatures(fields) == 0
    ensures Resume(resumed, sequential, fields, sigHash) == Ok(sigHash)
    ensures var r := Replay(replayed, sequential, fields, sigHash, numSigs); r.Ok? && r.value.sigHash == sigHash
    decreases |fields|
  {
    if fields != [] {
      KeysOnlyKeepHash(replayed, resumed, sequential, fields[1..], sigHash, numSigs);
    }
  }

  lemma {:induction false} ResumeFollowsReplay(step: VerificationStep, sequential: bool, fields: seq<Field>,
                                               sigHash: bytes, numSigs: nat)
    requires Replay(step, sequential, fields, sigHash, numSigs).Ok? && AllSignaturesCompressed(fields)
    ensures Resume(step, sequential, fields, sigHash) ==
            Ok(Replay(step, sequential, fields, sigHash, numSigs).value.sigHash)
    decreases |fields|
  {
    if fields != [] {
      var f, rest := fields[0], fields[1..];
      assert fields == [f] + rest;
      if f.PublicKeyField? {
        ResumeFollowsReplay(step, sequential, rest, sigHash, numSigs);
      } else {
        assert f.encoding == Compressed;
        var v := step(sigHash, f.encoding, f.signature).value;
        ResumeFollowsReplay(step, sequential, rest, if sequential then v.nextSigHash else sigHash, numSigs + 1);
      }
    }
  }

  /** Every signature recovers some key from this one hash, read as a compressed one. */
  predicate AllRecover(step: VerificationStep, fields: seq<Field>, sigHash: bytes) {
    forall f <- fields :: f.SignatureField? ==> step(sigHash, Compressed, f.signature).Ok?
  }

  lemma {:induction false} UnchainedResume(step: VerificationStep, fields: seq<Field>, sigHash: bytes)
    ensures Resume(step, false, fields, sigHash).Ok? <==> AllRecover(step, fields, sigHash)
    ensures Resume(step, false, fields, sigHash).Ok? ==> Resume(step, false, fields, sigHash) == Ok(sigHash)
  {
    if fields != [] {
      UnchainedResume(step, fields[1..], sigHash);
      assert fields == [fields[0]] + fields[1..];
    }
  }

  /** A new signer can replay the signatures from the initial hash, under the transaction's type. */
  predicate Recoverable(c: Crypto, env: Envelope, auth: Authorization)
    requires auth.origin.MultiSig?
  {
    var initial := SignBegin(c, env, auth);
    initial.Ok? && AllRecover(VerificationStepOf(c, auth.origin, auth.Type()), auth.origin.fields, initial.value)
  }

  /**
   In the non-sequential modes a signer over a partly signed transaction never starts from a
   wrong hash: it starts from the initial one if every signature recovers some key, and
   otherwise throws.
   */
  lemma NonSequentialResuming(c: Crypto, env: Envelope, auth: Authorization)
    requires auth.origin.MultiSig? && auth.origin.mode.IsNonSequentialMultiSig() && SignBegin(c, env, auth).Ok?
    ensures SignerStart(c, env, auth).Ok? <==>
            && CountSignatures(auth.origin.fields) < auth.origin.signaturesRequired
            && Recoverable(c, env, auth)
    ensures SignerStart(c, env, auth).Ok? ==> SignerStart(c, env, auth) == SignBegin(c, env, auth)
  {
    hide VerificationStepOf, SignBegin, Resume, AllRecover, CountSignatures;
    UnchainedResume(VerificationStepOf(c, auth.origin, auth.Type()), auth.origin.fields, SignBegin(c, env, auth).value);
  }

  /**
   In every mode, a signer over a resumable transaction starts from the hash its fields lead to;
   in the non-sequential modes it is enough that every signature recovers some key.
   */
  lemma ResumableIsResumed(c: Crypto, env: Envelope, auth: Authorization)
    requires auth.origin.MultiSig? && auth.origin.mode.IsMultiSig() && SignBegin(c, env, auth).Ok?
    requires Resumable(auth) || (auth.origin.mode.IsNonSequentialMultiSig() && Recoverable(c, env, auth))
    requires CountSignatures(auth.origin.fields) < auth.origin.signaturesRequired
    requires Replay(VerificationStepOf(c, auth.origin, Standard), auth.origin.mode.IsSequentialMultiSig(),
                    auth.origin.fields, SignBegin(c, env, auth).value, 0).Ok?
    ensures SignerStart(c, env, auth) ==
            Ok(Replay(VerificationStepOf(c, auth.origin, Standard), auth.origin.mode.IsSequentialMultiSig(),
                      auth.origin.fields, SignBegin(c, env, auth).value, 0).value.sigHash)
  {
    hide VerificationStepOf, SignBegin, Replay, Resume, AllSignaturesCompressed, CountSignatures, Recoverable;
    var cond, initial := auth.origin, SignBegin(c, env, auth).value;
    var step, sequential := VerificationStepOf(c, cond, Standard), cond.mode.IsSequentialMultiSig();
    if CountSignatures(cond.fields) == 0 {
      KeysOnlyKeepHash(step, VerificationStepOf(c, cond, auth.Type()), sequential, cond.fields, initial, 0);
    } else if Resumable(auth) {
      ResumeFollowsReplay(step, sequential, cond.fields, initial, 0);
    } else {
      NonSequentialResuming(c, env, auth);
      SignaturesAreIndependent(step, cond.fields, initial, 0);
    }
  }

  /**
   A signer constructed over a partly signed transaction picks up the verifier's chain if no
   chained signature is there yet, or the transaction is standard and all its signatures are of
   compressed keys; and only if, unless two of the hashes compared collide.
   */
  lemma ResumingIsFaithful(c: Crypto, env: Envelope, auth: Authorization)
    requires c.Lawful()
    requires auth.origin.MultiSig? && auth.origin.mode.IsSequentialMultiSig()
    requires CountSignatures(auth.origin.fields) < auth.origin.signaturesRequired
    requires var initial := SignBegin(c, env, auth);
             && initial.Ok?
             && Replay(VerificationStepOf(c, auth.origin, Standard), true, auth.origin.fields, initial.value, 0).Ok?
    ensures var initial := SignBegin(c, env, auth).value;
            var chain :=
              Replay(VerificationStepOf(c, auth.origin, Standard), true, auth.origin.fields, initial, 0).value.sigHash;
            && (Resumable(auth) ==> SignerStart(c, env, auth) == Ok(chain))
            && (SignerStart(c, env, auth) == Ok(chain) ==>
                  Resumable(auth) || !NoCollisions(c, auth.origin, auth.Type(), auth.origin.fields, initial, initial))
  {
    hide VerificationStepOf, NoCollisions, SignBegin, Replay, Resume, AllSignaturesCompressed;
    SignBeginSucceeds(c, env, auth);
    var initial := SignBegin(c, env, auth).value;
    if Resumable(auth) {
      ResumableIsResumed(c, env, auth);
    } else if NoCollisions(c, auth.origin, auth.Type(), auth.origin.fields, initial, initial) {
      ResumeMeetsChain(c, auth.origin, auth.Type(), auth.origin.fields, initial, initial, 0);
    }
  }

  // ----- single signatures and sponsors

  /** createSingleSigSpendingCondition. */
  function CreateSingleSig(c: Crypto, mode: HashMode, publicKey: bytes, nonce: nat, fee: nat)
    : Result<Condition, Error>
  {
    var signer :- AddressHash(c, mode, 1, [publicKey]);
    Ok(SingleSig(mode, signer, nonce, fee, EncodingOfPublicKey(publicKey), EmptySignature()))
  }

  /** signAndAppend on a single-signature condition. */
  function SignSingle(c: Crypto, cond: Condition, sigHash: bytes, at: AuthType, key: bytes)
    : Result<(Condition, bytes), Error>
    requires cond.SingleSig?
  {
    var signed :- NextSignature(c, sigHash, at, cond.fee, cond.nonce, key);
    if |signed.signature| != SIGNATURE_LENGTH then Err(InvalidSignature)
    else Ok((cond.(signature := signed.signature), signed.nextSigHash))
  }

  /** A single-signature account's own key signs verifiably exactly when fee and nonce fit. */
  lemma SingleSignatureVerifies(c: Crypto, mode: HashMode, nonce: nat, fee: nat, key: bytes, sigHash: bytes,
                                at: AuthType)
    requires c.Lawful() && |sigHash| == 32 && PrivateKeyToPublic(c, key).Ok?
    requires CreateSingleSig(c, mode, PrivateKeyToPublic(c, key).value, nonce, fee).Ok?
    ensures var cond := CreateSingleSig(c, mode, PrivateKeyToPublic(c, key).value, nonce, fee).value;
            var signed := SignSingle(c, cond, sigHash, at, key);
            && cond.mode == mode && cond.nonce == nonce && cond.fee == fee
            && (signed.Ok? <==> Fits(fee) && Fits(nonce))
            && (signed.Ok? ==>
                  && signed.value.0 == cond.(signature := signed.value.0.signature)
                  && Verify(c, signed.value.0, sigHash, at) == Ok(signed.value.1) && |signed.value.1| == 32)
  {
    hide Fits, AddressHash, NextSignature, NextVerification;
    var cond := CreateSingleSig(c, mode, PrivateKeyToPublic(c, key).value, nonce, fee).value;
    LawfulStepsAgree(c, cond, at);
    assert PublicKeyFunctionOf(c)(key) == PrivateKeyToPublic(c, key);
    var signed := SigningStepOf(c, cond, at)(sigHash, key);
    assert signed == NextSignature(c, sigHash, at, fee, nonce, key);
    if signed.Ok? {
      assert VerificationStepOf(c, cond, at)(sigHash, cond.keyEncoding, signed.value.signature) ==
             NextVerification(c, sigHash, at, fee, nonce, cond.keyEncoding, signed.value.signature);
    }
  }

  /** A single-signature transaction that its own key signs, from where a new signer starts, verifies. */
  lemma SingleTransactionVerifies(c: Crypto, env: Envelope, auth: Authorization, mode: HashMode, nonce: nat, fee: nat,
                                  key: bytes)
    requires c.Lawful() && PrivateKeyToPublic(c, key).Ok?
    requires CreateSingleSig(c, mode, PrivateKeyToPublic(c, key).value, nonce, fee) == Ok(auth.origin)
    ensures var start := SignerStart(c, env, auth);
            && start.Ok? && |start.value| == 32
            && var signed := SignSingle(c, auth.origin, start.value, Standard, key);
            && (signed.Ok? <==> Fits(fee) && Fits(nonce))
            && (signed.Ok? ==> VerifyTransaction(c, env, auth.(origin := signed.value.0)) == Ok(signed.value.1))
  {
    hide Fits, SignSingle, Verify, SignBegin, PrivateKeyToPublic, AddressHash;
    SignBeginSucceeds(c, env, auth);
    var initial := SignBegin(c, env, auth).value;
    SingleSignatureVerifies(c, mode, nonce, fee, key, initial, Standard);
    var signed := SignSingle(c, auth.origin, initial, Standard, key);
    if signed.Ok? {
      SameStart(c, env, auth, auth.(origin := signed.value.0));
    }
  }

  /**
   sponsorTransaction from createSponsorSigner on: set the sponsor, verify the origin, construct a
   signer (which may refuse the transaction), and sign after the origin's hash.
   */
  function SponsorAndSign(c: Crypto, env: Envelope, auth: Authorization, sponsor: Condition, key: bytes)
    : Result<SignedTransaction, Error>
    requires sponsor.SingleSig?
  {
    if auth.StandardAuth? then Err(SponsorOfStandardTransaction)
    else
      var tx := SetSponsor(auth, sponsor);
      var originHash :- VerifyTransaction(c, env, tx);
      var _ :- SignerStart(c, env, tx);
      var signed :- SignSingle(c, sponsor, originHash, Sponsored, key);
      Ok(SignedTransaction(SetSponsor(tx, signed.0), signed.1))
  }

  lemma {:induction false} ReplayCounts(step: VerificationStep, sequential: bool, fields: seq<Field>, sigHash: bytes,
                                        numSigs: nat)
    ensures var r := Replay(step, sequential, fields, sigHash, numSigs);
            r.Ok? ==> r.value.numSigs == numSigs + CountSignatures(fields)
    decreases |fields|
  {
    if fields != [] {
      if fields[0].PublicKeyField? {
        ReplayCounts(step, sequential, fields[1..], sigHash, numSigs);
      } else {
        var v := step(sigHash, fields[0].encoding, fields[0].signature);
        if v.Ok? {
          ReplayCounts(step, sequential, fields[1..], if sequential then v.value.nextSigHash else sigHash, numSigs + 1);
        }
      }
    }
  }

  /** An origin that verifies is one a new signer refuses, if it takes several signatures. */
  lemma VerifiedMultiSigIsRefused(c: Crypto, env: Envelope, auth: Authorization)
    requires VerifyTransaction(c, env, auth).Ok?
    requires auth.origin.MultiSig? ==> auth.origin.mode.IsMultiSig()
    ensures SignerStart(c, env, auth).Ok? <==> auth.origin.SingleSig?
  {
    hide SignBegin, AddressHash, Resume, NextVerification, HaveUncompressed;
    if auth.origin.MultiSig? {
      ReplayCounts(VerificationStepOf(c, auth.origin, Standard), auth.origin.mode.IsSequentialMultiSig(),
                   auth.origin.fields, SignBegin(c, env, auth).value, 0);
    }
  }

  lemma {:induction false} ReplayEndsOnAHash(step: VerificationStep, sequential: bool, fields: seq<Field>,
                                             sigHash: bytes, numSigs: nat)
    requires |sigHash| == 32
    requires forall h: bytes, e: KeyEncoding, sig: bytes ::
               step(h, e, sig).Ok? ==> |step(h, e, sig).value.nextSigHash| == 32
    ensures var r := Replay(step, sequential, fields, sigHash, numSigs); r.Ok? ==> |r.value.sigHash| == 32
    decreases |fields|
  {
    if fields != [] {
      if fields[0].PublicKeyField? {
        ReplayEndsOnAHash(step, sequential, fields[1..], sigHash, numSigs);
      } else {
        var v := step(sigHash, fields[0].encoding, fields[0].signature);
        if v.Ok? {
          var next := if sequential then v.value.nextSigHash else sigHash;
          ReplayEndsOnAHash(step, sequential, fields[1..], next, numSigs + 1);
        }
      }
    }
  }

  lemma VerdictIsAHash(c: Crypto, env: Envelope, auth: Authorization)
    requires c.Lawful() && VerifyTransaction(c, env, auth).Ok?
    ensures |VerifyTransaction(c, env, auth).value| == 32
  {
    hide SignBegin, AddressHash, IntToBytes;
    SignBeginSucceeds(c, env, auth);
    if auth.origin.MultiSig? {
      ReplayEndsOnAHash(VerificationStepOf(c, auth.origin, Standard), auth.origin.mode.IsSequentialMultiSig(),
                        auth.origin.fields, SignBegin(c, env, auth).value, 0);
    }
  }

  lemma SettingASponsorKeepsVerdict(c: Crypto, env: Envelope, auth: Authorization, sponsor: Condition)
    requires auth.SponsoredAuth?
    ensures VerifyTransaction(c, env, SetSponsor(auth, sponsor)) == VerifyTransaction(c, env, auth)
  {
  }

  /**
   A sponsor can sign exactly the transactions with a single-signature origin that verifies (when
   its own fee and nonce fit): a signer refuses an origin that already has the several
   signatures it needs. The result still verifies for the origin, with the same hash, and the
   sponsor's signature verifies on top of that hash.
   */
  lemma SponsorSignsOnTop(c: Crypto, env: Envelope, auth: Authorization, sponsor: Condition, mode: HashMode,
                          nonce: nat, fee: nat, key: bytes)
    requires c.Lawful() && auth.SponsoredAuth? && PrivateKeyToPublic(c, key).Ok?
    requires auth.origin.MultiSig? ==> auth.origin.mode.IsMultiSig()
    requires CreateSingleSig(c, mode, PrivateKeyToPublic(c, key).value, nonce, fee) == Ok(sponsor)
    ensures var r := SponsorAndSign(c, env, auth, sponsor, key);
            var origin := VerifyTransaction(c, env, auth);
            && (r.Ok? <==> origin.Ok? && auth.origin.SingleSig? && Fits(fee) && Fits(nonce))
            && (r.Ok? ==>
                  && VerifyTransaction(c, env, r.value.auth) == origin
                  && Verify(c, r.value.auth.sponsor, origin.value, Sponsored) == Ok(r.value.sigHash))
  {
    hide Fits, VerifyTransaction, Verify, SignSingle, SignerStart, AddressHash, PrivateKeyToPublic;
    SettingASponsorKeepsVerdict(c, env, auth, sponsor);
    var origin := VerifyTransaction(c, env, auth);
    if origin.Ok? {
      VerdictIsAHash(c, env, auth);
      VerifiedMultiSigIsRefused(c, env, SetSponsor(auth, sponsor));
      SingleSignatureVerifies(c, mode, nonce, fee, key, origin.value, Sponsored);
      var signed := SignSingle(c, sponsor, origin.value, Sponsored, key);
      if signed.Ok? {
        SettingASponsorKeepsVerdict(c, env, auth, signed.value.0);
        assert SetSponsor(SetSponsor(auth, sponsor), signed.value.0) == SetSponsor(auth, signed.value.0);
      }
    }
  }
}

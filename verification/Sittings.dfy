/**
 Signing in any number of sittings: each one constructs a new signer over what the previous
 ones left and goes through some more of the account's keys (builders.ts and signer.ts).
 */
module Sittings {
  import opened Results
  import opened Bytes
  import opened HexCodec
  import opened Keys
  import opened Authorization
  import opened Transactions
  import opened Signing
  import opened Cosigning

  /** The transaction's fields show these keys, n of them by signatures, and lead to this hash. */
  ghost predicate Shows(c: Crypto, env: Envelope, auth: Authorization, keys: seq<bytes>, sigHash: bytes, n: nat) {
    && auth.origin.MultiSig? && auth.origin.mode.IsMultiSig()
    && SignBegin(c, env, auth).Ok?
    && Replay(VerificationStepOf(c, auth.origin, Standard), auth.origin.mode.IsSequentialMultiSig(),
              auth.origin.fields, SignBegin(c, env, auth).value, 0) == Ok(Replayed(keys, sigHash, n))
    && (HaveUncompressed(auth.origin.fields) <==> AnyUncompressed(keys))
    && |sigHash| == 32 && CountSignatures(auth.origin.fields) == n
  }

  lemma UntouchedShowsNothing(c: Crypto, env: Envelope, auth: Authorization)
    requires c.Lawful() && auth.origin.MultiSig? && auth.origin.mode.IsMultiSig() && auth.origin.fields == []
    ensures SignBegin(c, env, auth).Ok? && Shows(c, env, auth, [], SignBegin(c, env, auth).value, 0)
  {
    hide SignBegin;
    SignBeginSucceeds(c, env, auth);
  }

  /** A transaction that shows the keys of its account verifies if and only if enough of them signed. */
  lemma VerdictOfShown(c: Crypto, env: Envelope, auth: Authorization, keys: seq<bytes>, sigHash: bytes, n: nat)
    requires Shows(c, env, auth, keys, sigHash, n)
    requires AddressHash(c, auth.origin.mode, auth.origin.signaturesRequired, keys) == Ok(auth.origin.signer)
    ensures VerifyTransaction(c, env, auth).Ok? <==> Enough(auth.origin, n)
    ensures VerifyTransaction(c, env, auth).Ok? ==> VerifyTransaction(c, env, auth) == Ok(sigHash)
  {
    hide SignBegin, Replay, AddressHash, HaveUncompressed, VerificationStepOf;
    AddressKeysAreFew(c, auth.origin.mode, auth.origin.signaturesRequired, keys);
  }

  lemma {:induction false} ReplayAppends(step: VerificationStep, sequential: bool, a: seq<Field>, b: seq<Field>,
                                         sigHash: bytes, numSigs: nat, keys: seq<bytes>)
    requires Replay(step, sequential, a, sigHash, numSigs).Ok?
    ensures var r := Replay(step, sequential, a, sigHash, numSigs).value;
            WithKeysBefore(keys, Replay(step, sequential, a + b, sigHash, numSigs)) ==
            WithKeysBefore(keys + r.publicKeys, Replay(step, sequential, b, r.sigHash, r.numSigs))
    decreases |a|
  {
    hide WithKeysBefore;
    if a == [] {
      assert a + b == b && keys + [] == keys;
    } else {
      var f, rest := a[0], a[1..];
      assert (a + b)[1..] == rest + b && (a + b)[0] == f;
      ReplayStep(step, sequential, a + b, sigHash, numSigs, keys);
      var shown := Replay(step, sequential, a, sigHash, numSigs).value.publicKeys;
      assert shown == [shown[0]] + shown[1..] && keys + [shown[0]] + shown[1..] == keys + shown;
      if f.PublicKeyField? {
        ReplayAppends(step, sequential, rest, b, sigHash, numSigs, keys + [f.key]);
      } else {
        var v := step(sigHash, f.encoding, f.signature).value;
        ReplayAppends(step, sequential, rest, b, if sequential then v.nextSigHash else sigHash, numSigs + 1,
                      keys + [v.publicKey]);
      }
    }
  }

  lemma UncompressedAppend(a: seq<Field>, b: seq<Field>, keys: seq<bytes>, more: seq<bytes>)
    requires HaveUncompressed(a) <==> AnyUncompressed(keys)
    requires HaveUncompressed(b) <==> AnyUncompressed(more)
    ensures HaveUncompressed(a + b) <==> AnyUncompressed(keys + more)
  {
    assert (forall f :: f in a + b <==> f in a || f in b) && (forall k :: k in keys + more <==> k in keys || k in more);
  }

  // ----- one sitting

  predicate Able(cond: Condition) {
    Fits(cond.fee) && Fits(cond.nonce)
  }

  lemma LawfulStepEndsOnAHash(c: Crypto, cond: Condition, at: AuthType)
    requires c.Lawful()
    ensures var step := VerificationStepOf(c, cond, at);
            forall h: bytes, e: KeyEncoding, sig: bytes ::
              step(h, e, sig).Ok? ==> |step(h, e, sig).value.nextSigHash| == 32
  {
    hide IntToBytes;
  }

  lemma ShownAppends(c: Crypto, env: Envelope, auth: Authorization, after: Authorization, keys: seq<bytes>,
                     sigHash: bytes, n: nat, p: Progress, more: seq<bytes>, held: nat)
    requires c.Lawful() && Shows(c, env, auth, keys, sigHash, n)
    requires PassesFor(VerificationStepOf(c, auth.origin, Standard), auth.origin.mode.IsSequentialMultiSig(), p, more,
                       sigHash, n, held)
    requires after == auth.(origin := auth.origin.(fields := auth.origin.fields + p.fields))
    ensures after.Type() == auth.Type() && SameAccount(after.origin, auth.origin)
    ensures Shows(c, env, after, keys + more, p.sigHash, n + held)
  {
    hide SignBegin, VerificationStepOf, Replay, HaveUncompressed, AnyUncompressed, CountSignatures, Crypto.Lawful;
    var cond, verify := auth.origin, VerificationStepOf(c, auth.origin, Standard);
    var sequential := cond.mode.IsSequentialMultiSig();
    SameStart(c, env, auth, after);
    SameStep(c, cond, after.origin, Standard);
    ReplayAppends(verify, sequential, cond.fields, p.fields, SignBegin(c, env, auth).value, 0, []);
    NothingBefore(Replay(verify, sequential, cond.fields + p.fields, SignBegin(c, env, auth).value, 0));
    assert [] + keys == keys;
    UncompressedAppend(cond.fields, p.fields, keys, more);
    CountAppended(cond.fields, p.fields);
    LawfulStepEndsOnAHash(c, cond, Standard);
    ReplayEndsOnAHash(verify, sequential, p.fields, sigHash, n);
  }

  /** A new signer over a transaction that shows some keys starts from the hash they lead to, or is refused. */
  lemma StartOfShown(c: Crypto, env: Envelope, auth: Authorization, keys: seq<bytes>, sigHash: bytes, n: nat)
    requires Shows(c, env, auth, keys, sigHash, n)
    requires auth.origin.mode.IsSequentialMultiSig() ==> Resumable(auth)
    ensures SignerStart(c, env, auth).Ok? <==>
            && n < auth.origin.signaturesRequired
            && (auth.origin.mode.IsNonSequentialMultiSig() ==> Recoverable(c, env, auth))
    ensures SignerStart(c, env, auth).Ok? ==> SignerStart(c, env, auth) == Ok(sigHash)
  {
    hide VerificationStepOf, SignBegin, Replay, Resume, Resumable, Recoverable, CountSignatures, HaveUncompressed,
      AnyUncompressed;
    if auth.origin.mode.IsNonSequentialMultiSig() {
      NonSequentialResuming(c, env, auth);
      SignaturesAreIndependent(VerificationStepOf(c, auth.origin, Standard), auth.origin.fields,
                               SignBegin(c, env, auth).value, 0);
    } else if n < auth.origin.signaturesRequired {
      ResumableIsResumed(c, env, auth);
    }
  }

  /**
   A sitting succeeds exactly when not all signatures are there yet, those that are held can be
   made, in sequential mode none is too many, and in the other modes those already there can be
   replayed. The transaction then shows the new keys after the old ones. In sequential mode
   it has to be resumable.
   */
  lemma SittingContinues(c: Crypto, env: Envelope, auth: Authorization, keys: seq<bytes>, sigHash: bytes, n: nat,
                         more: seq<bytes>, signerKeys: seq<bytes>)
    requires c.Lawful() && AllValid(PublicKeyFunctionOf(c), signerKeys)
    requires Shows(c, env, auth, keys, sigHash, n) && n + |more| < SIGNATURE_LIMIT
    requires auth.origin.mode.IsSequentialMultiSig() ==> Resumable(auth)
    ensures var cond, held := auth.origin, CountHeld(PublicKeyFunctionOf(c), signerKeys, more);
            var r := SignAppend(c, env, auth, more, signerKeys, None);
            && (r.Ok? <==>
                  && n < cond.signaturesRequired && (held > 0 ==> Able(cond))
                  && (cond.mode.IsNonSequentialMultiSig() ==> Recoverable(c, env, auth))
                  && (cond.mode.IsSequentialMultiSig() ==> held > 0 ==> n + held <= cond.signaturesRequired))
            && (r.Ok? ==>
                  && r.value.auth.Type() == auth.Type() && SameAccount(r.value.auth.origin, cond)
                  && r.value.auth.origin.fee == cond.fee && r.value.auth.origin.nonce == cond.nonce
                  && Shows(c, env, r.value.auth, keys + more, r.value.sigHash, n + held))
  {
    hide SignBegin, StepsAgree, SigningStepOf, VerificationStepOf, PublicKeyFunctionOf, Replay, SignAll, SignerStart,
      Resumable, Recoverable, HaveUncompressed, AnyUncompressed, CountSignatures, CountHeld, Able, PassesFor,
      Crypto.Lawful;
    var cond := auth.origin;
    var s, verify := SessionOf(c, cond, signerKeys), VerificationStepOf(c, cond, Standard);
    AbleSteps(c, cond);
    StartOfShown(c, env, auth, keys, sigHash, n);
    PassReplays(s, verify, Able(cond), more, sigHash, n);
    var p := SignAll(s, more, sigHash, n);
    if p.Ok? {
      var after := auth.(origin := cond.(fields := cond.fields + p.value.fields));
      ShownAppends(c, env, auth, after, keys, sigHash, n, p.value, more,
                   CountHeld(PublicKeyFunctionOf(c), signerKeys, more));
    }
  }

  lemma AbleSteps(c: Crypto, cond: Condition)
    requires c.Lawful()
    ensures StepsAgree(SigningStepOf(c, cond, Standard), VerificationStepOf(c, cond, Standard), PublicKeyFunctionOf(c),
                       Able(cond))
  {
    hide Fits, StepsAgree;
    LawfulStepsAgree(c, cond, Standard);
  }

  // ----- any number of sittings

  datatype Sitting = Sitting(publicKeys: seq<bytes>, signerKeys: seq<bytes>)

  function SignInSittings(c: Crypto, env: Envelope, auth: Authorization, sittings: seq<Sitting>)
    : Result<SignedTransaction, Error>
    requires sittings != []
  {
    var last := sittings[|sittings| - 1];
    if |sittings| == 1 then SignAppend(c, env, auth, last.publicKeys, last.signerKeys, None)
    else
      var before :- SignInSittings(c, env, auth, sittings[..|sittings| - 1]);
      SignAppend(c, env, before.auth, last.publicKeys, last.signerKeys, None)
  }

  function AllKeys(sittings: seq<Sitting>): seq<bytes> {
    if sittings == [] then [] else AllKeys(sittings[..|sittings| - 1]) + sittings[|sittings| - 1].publicKeys
  }

  /** How many keys are held in the sitting in which their turn comes. */
  function HeldInTurn(c: Crypto, sittings: seq<Sitting>): (n: nat)
    ensures n <= |AllKeys(sittings)|
  {
    if sittings == [] then 0
    else
      var last := sittings[|sittings| - 1];
      HeldInTurn(c, sittings[..|sittings| - 1]) + CountHeld(PublicKeyFunctionOf(c), last.signerKeys, last.publicKeys)
  }

  predicate AllCompressed(signerKeys: seq<bytes>) {
    forall k <- signerKeys :: EncodingOfPrivateKey(k) == Compressed
  }

  ghost predicate ValidSitting(c: Crypto, sitting: Sitting) {
    AllValid(PublicKeyFunctionOf(c), sitting.signerKeys)
  }

  lemma {:induction false} FindSignerIsMember(publicOf: PublicKeyFunction, signerKeys: seq<bytes>, publicKey: bytes)
    ensures var r := FindSigner(publicOf, signerKeys, publicKey); r.Ok? && r.value.Some? ==> r.value.value in signerKeys
  {
    if signerKeys != [] {
      FindSignerIsMember(publicOf, signerKeys[1..], publicKey);
    }
  }

  lemma {:induction false} CompressedKeysSignCompressed(s: Session, publicKeys: seq<bytes>, sigHash: bytes,
                                                        numSigs: nat)
    requires AllCompressed(s.signerKeys) && SignAll(s, publicKeys, sigHash, numSigs).Ok?
    ensures AllSignaturesCompressed(SignAll(s, publicKeys, sigHash, numSigs).value.fields)
    decreases |publicKeys|
  {
    hide FindSigner, AllCompressed;
    if publicKeys != [] {
      FindSignerIsMember(s.publicOf, s.signerKeys, publicKeys[0]);
      var first := SignOrAppend(s, publicKeys[0], sigHash, numSigs).value;
      CompressedMember(s);
      CompressedKeysSignCompressed(s, publicKeys[1..], first.sigHash, numSigs + CountSignatures(first.fields));
    }
  }

  lemma CompressedMember(s: Session)
    requires AllCompressed(s.signerKeys)
    ensures forall k <- s.signerKeys :: EncodingOfPrivateKey(k) == Compressed
  {
  }

  lemma SittingStaysCompressed(c: Crypto, env: Envelope, auth: Authorization, sitting: Sitting)
    requires auth.origin.MultiSig? && AllSignaturesCompressed(auth.origin.fields) && AllCompressed(sitting.signerKeys)
    requires SignAppend(c, env, auth, sitting.publicKeys, sitting.signerKeys, None).Ok?
    ensures var after := SignAppend(c, env, auth, sitting.publicKeys, sitting.signerKeys, None).value.auth.origin;
            after.MultiSig? && AllSignaturesCompressed(after.fields)
  {
    hide SignAll, AllCompressed, SignerStart, SigningStepOf, PublicKeyFunctionOf;
    CompressedKeysSignCompressed(SessionOf(c, auth.origin, sitting.signerKeys), sitting.publicKeys,
                                 SignerStart(c, env, auth).value, CountSignatures(auth.origin.fields));
  }

  // ----- which signatures a later signer can replay, in the non-sequential modes

  /** If the key is held here, the signature made for it recovers some key when a new signer replays it. */
  predicate KeyRecovers(s: Session, resumed: VerificationStep, sigHash: bytes, publicKey: bytes) {
    var k := FindSigner(s.publicOf, s.signerKeys, publicKey);
    k.Ok? && k.value.Some? ==>
      var signed := s.sign(sigHash, k.value.value);
      signed.Ok? ==> resumed(sigHash, Compressed, signed.value.signature).Ok?
  }

  lemma {:induction false} PassRecovers(s: Session, resumed: VerificationStep, publicKeys: seq<bytes>, sigHash: bytes,
                                        numSigs: nat)
    requires !s.sequential && SignAll(s, publicKeys, sigHash, numSigs).Ok?
    ensures AllRecover(resumed, SignAll(s, publicKeys, sigHash, numSigs).value.fields, sigHash)
            <==> forall k <- publicKeys :: KeyRecovers(s, resumed, sigHash, k)
    decreases |publicKeys|
  {
    hide SignOrAppend, KeyRecovers, AllRecover, CountSignatures;
    if publicKeys == [] {
      assert AllRecover(resumed, [], sigHash) by {
        NothingToRecover(resumed, sigHash);
      }
    } else {
      var first := SignOrAppend(s, publicKeys[0], sigHash, numSigs).value;
      StepRecovers(s, resumed, publicKeys[0], sigHash, numSigs);
      var n := numSigs + CountSignatures(first.fields);
      var rest := SignAll(s, publicKeys[1..], sigHash, n).value;
      PassRecovers(s, resumed, publicKeys[1..], sigHash, n);
      assert publicKeys == [publicKeys[0]] + publicKeys[1..];
      AllRecoverAppend(resumed, first.fields, rest.fields, sigHash);
    }
  }

  lemma NothingToRecover(step: VerificationStep, sigHash: bytes)
    ensures AllRecover(step, [], sigHash)
  {
  }

  lemma StepRecovers(s: Session, resumed: VerificationStep, publicKey: bytes, sigHash: bytes, numSigs: nat)
    requires !s.sequential && SignOrAppend(s, publicKey, sigHash, numSigs).Ok?
    ensures SignOrAppend(s, publicKey, sigHash, numSigs).value.sigHash == sigHash
    ensures AllRecover(resumed, SignOrAppend(s, publicKey, sigHash, numSigs).value.fields, sigHash)
            <==> KeyRecovers(s, resumed, sigHash, publicKey)
  {
    hide FindSigner;
    var fields := SignOrAppend(s, publicKey, sigHash, numSigs).value.fields;
    assert fields == [fields[0]] && fields[0] in fields;
  }

  lemma AllRecoverAppend(step: VerificationStep, a: seq<Field>, b: seq<Field>, sigHash: bytes)
    ensures AllRecover(step, a + b, sigHash) <==> AllRecover(step, a, sigHash) && AllRecover(step, b, sigHash)
  {
    assert forall f :: f in a + b <==> f in a || f in b;
  }

  /** Every signature made in this sitting can be replayed by a later signer of the transaction. */
  predicate SittingRecovers(c: Crypto, env: Envelope, auth: Authorization, sitting: Sitting)
    requires auth.origin.MultiSig?
  {
    var initial := SignBegin(c, env, auth);
    && initial.Ok?
    && forall k <- sitting.publicKeys ::
         KeyRecovers(SessionOf(c, auth.origin, sitting.signerKeys), VerificationStepOf(c, auth.origin, auth.Type()),
                     initial.value, k)
  }

  /** A signature made for the standard type recovers a key, in whichever encoding it is asked for. */
  lemma StandardSignatureRecovers(c: Crypto, cond: Condition, sigHash: bytes, key: bytes)
    requires c.Lawful() && |sigHash| == 32 && PublicKeyFunctionOf(c)(key).Ok?
    requires SigningStepOf(c, cond, Standard)(sigHash, key).Ok?
    ensures var signed := SigningStepOf(c, cond, Standard)(sigHash, key).value;
            VerificationStepOf(c, cond, Standard)(sigHash, Compressed, signed.signature).Ok?
  {
    hide PreInput;
    var pre := SigHashPreSign(c, sigHash, Standard, cond.fee, cond.nonce).value;
    assert c.recover(pre, c.sign(key[..32], pre), Compressed).Some?;
  }

  /** So on a standard transaction every sitting recovers, whatever its keys. */
  lemma StandardSittingsRecover(c: Crypto, env: Envelope, auth: Authorization, sitting: Sitting)
    requires c.Lawful() && auth.StandardAuth? && auth.origin.MultiSig? && ValidSitting(c, sitting)
    ensures SittingRecovers(c, env, auth, sitting)
  {
    hide SignBegin, FindSigner, SigningStepOf, VerificationStepOf, PublicKeyFunctionOf, AllValid;
    SignBeginSucceeds(c, env, auth);
    var s, initial := SessionOf(c, auth.origin, sitting.signerKeys), SignBegin(c, env, auth).value;
    forall k | k in sitting.publicKeys
      ensures KeyRecovers(s, VerificationStepOf(c, auth.origin, Standard), initial, k)
    {
      FindSignerFinds(s.publicOf, s.signerKeys, k);
      var signer := FindSigner(s.publicOf, s.signerKeys, k).value;
      if signer.Some? && s.sign(initial, signer.value).Ok? {
        StandardSignatureRecovers(c, auth.origin, initial, signer.value);
      }
    }
  }

  lemma SameWork(c: Crypto, a: Condition, b: Condition, signerKeys: seq<bytes>)
    requires a.MultiSig? && b.MultiSig? && SameAccount(a, b) && a.fee == b.fee && a.nonce == b.nonce
    ensures SessionOf(c, a, signerKeys) == SessionOf(c, b, signerKeys)
    ensures forall at :: VerificationStepOf(c, a, at) == VerificationStepOf(c, b, at)
  {
  }

  /** A further sitting leaves only signatures that can be replayed if there were only such, and it adds only such. */
  lemma SittingKeepsRecoverable(c: Crypto, env: Envelope, auth: Authorization, before: Authorization, sitting: Sitting)
    requires auth.origin.MultiSig? && auth.origin.mode.IsNonSequentialMultiSig() && before.origin.MultiSig?
    requires before.Type() == auth.Type() && SameAccount(before.origin, auth.origin)
    requires before.origin.fee == auth.origin.fee && before.origin.nonce == auth.origin.nonce
    requires SignBegin(c, env, auth).Ok?
    requires SignAppend(c, env, before, sitting.publicKeys, sitting.signerKeys, None).Ok?
    ensures var after := SignAppend(c, env, before, sitting.publicKeys, sitting.signerKeys, None).value.auth;
            && after.origin.MultiSig?
            && (Recoverable(c, env, after) <==> Recoverable(c, env, before) && SittingRecovers(c, env, auth, sitting))
  {
    hide SignBegin, SignerStart, SignAll, AllRecover, SigningStepOf, VerificationStepOf, PublicKeyFunctionOf,
      CountSignatures, KeyRecovers;
    var s := SessionOf(c, before.origin, sitting.signerKeys);
    var resumed, initial := VerificationStepOf(c, before.origin, before.Type()), SignBegin(c, env, auth).value;
    SameStart(c, env, before, auth);
    NonSequentialResuming(c, env, before);
    var n := CountSignatures(before.origin.fields);
    var p := SignAll(s, sitting.publicKeys, initial, n).value;
    var after := before.(origin := before.origin.(fields := before.origin.fields + p.fields));
    SameStart(c, env, after, auth);
    SameWork(c, before.origin, auth.origin, sitting.signerKeys);
    SameWork(c, after.origin, before.origin, sitting.signerKeys);
    PassRecovers(s, resumed, sitting.publicKeys, initial, n);
    AllRecoverAppend(resumed, before.origin.fields, p.fields, initial);
  }

  // ----- all the sittings

  /**
   When the sittings succeed: signatures were missing before the last, can be made, are not too
   many in sequential mode, and in the other modes could be replayed up to the last.
   */
  predicate CanSit(c: Crypto, env: Envelope, auth: Authorization, sittings: seq<Sitting>)
    requires auth.origin.MultiSig? && sittings != []
  {
    var cond, init, total := auth.origin, sittings[..|sittings| - 1], HeldInTurn(c, sittings);
    && HeldInTurn(c, init) < cond.signaturesRequired
    && (total > 0 ==> Able(cond))
    && (cond.mode.IsSequentialMultiSig() ==> total <= cond.signaturesRequired)
    && (cond.mode.IsNonSequentialMultiSig() ==> AllRecoverIn(c, env, auth, init))
  }

  predicate AllRecoverIn(c: Crypto, env: Envelope, auth: Authorization, sittings: seq<Sitting>)
    requires auth.origin.MultiSig?
  {
    forall sitting <- sittings :: SittingRecovers(c, env, auth, sitting)
  }

  ghost predicate SatThrough(c: Crypto, env: Envelope, auth: Authorization, sittings: seq<Sitting>,
                             signed: SignedTransaction)
  {
    && signed.auth.Type() == auth.Type() && SameAccount(signed.auth.origin, auth.origin)
    && signed.auth.origin.fee == auth.origin.fee && signed.auth.origin.nonce == auth.origin.nonce
    && Shows(c, env, signed.auth, AllKeys(sittings), signed.sigHash, HeldInTurn(c, sittings))
  }

  /** The sittings succeed exactly when CanSit holds, and then show all the keys. */
  ghost predicate SitAsExpected(c: Crypto, env: Envelope, auth: Authorization, sittings: seq<Sitting>)
    requires auth.origin.MultiSig? && sittings != []
  {
    var r := SignInSittings(c, env, auth, sittings);
    && (r.Ok? <==> CanSit(c, env, auth, sittings))
    && (r.Ok? ==> SatThrough(c, env, auth, sittings, r.value))
  }

  /** What the next signer finds: signatures of compressed keys only, and signatures it can replay. */
  predicate LeftBehind(c: Crypto, env: Envelope, auth: Authorization, sittings: seq<Sitting>)
    requires auth.origin.MultiSig? && sittings != []
  {
    var r := SignInSittings(c, env, auth, sittings);
    r.Ok? && r.value.auth.origin.MultiSig? ==>
      && ((forall sitting <- sittings :: AllCompressed(sitting.signerKeys)) ==>
            AllSignaturesCompressed(r.value.auth.origin.fields))
      && (auth.origin.mode.IsNonSequentialMultiSig() ==>
            (Recoverable(c, env, r.value.auth) <==> AllRecoverIn(c, env, auth, sittings)))
  }

  lemma FirstSitting(c: Crypto, env: Envelope, auth: Authorization, sitting: Sitting)
    requires c.Lawful() && ValidSitting(c, sitting) && |sitting.publicKeys| < SIGNATURE_LIMIT
    requires auth.origin.MultiSig? && auth.origin.mode.IsMultiSig() && auth.origin.fields == []
    ensures SitAsExpected(c, env, auth, [sitting])
  {
    hide SignAppend, Shows, Able, CountHeld, PublicKeyFunctionOf, Resumable, Recoverable, SittingRecovers,
      Crypto.Lawful;
    UntouchedShowsNothing(c, env, auth);
    NothingSigned(c, env, auth);
    assert [sitting][..0] == [] && [] + sitting.publicKeys == sitting.publicKeys;
    SittingContinues(c, env, auth, [], SignBegin(c, env, auth).value, 0, sitting.publicKeys, sitting.signerKeys);
  }

  lemma FirstLeavesBehind(c: Crypto, env: Envelope, auth: Authorization, sitting: Sitting)
    requires auth.origin.MultiSig? && auth.origin.mode.IsMultiSig() && auth.origin.fields == []
    ensures LeftBehind(c, env, auth, [sitting])
  {
    hide SignAppend, AllCompressed, AllSignaturesCompressed, Recoverable, SittingRecovers, SignBegin;
    SignBeginSucceeds(c, env, auth);
    NothingSigned(c, env, auth);
    assert [sitting][..0] == [] && sitting in [sitting];
    if SignInSittings(c, env, auth, [sitting]).Ok? {
      if AllCompressed(sitting.signerKeys) {
        SittingStaysCompressed(c, env, auth, sitting);
      }
      if auth.origin.mode.IsNonSequentialMultiSig() {
        SittingKeepsRecoverable(c, env, auth, auth, sitting);
      }
    }
  }

  lemma NextSitting(c: Crypto, env: Envelope, auth: Authorization, before: SignedTransaction, sittings: seq<Sitting>,
                    next: Sitting)
    requires c.Lawful() && auth.origin.MultiSig? && auth.origin.mode.IsMultiSig()
    requires ValidSitting(c, next) && SatThrough(c, env, auth, sittings, before)
    requires auth.origin.mode.IsSequentialMultiSig() ==> Resumable(before.auth)
    requires HeldInTurn(c, sittings) + |next.publicKeys| < SIGNATURE_LIMIT
    ensures var r := SignAppend(c, env, before.auth, next.publicKeys, next.signerKeys, None);
            var held := CountHeld(PublicKeyFunctionOf(c), next.signerKeys, next.publicKeys);
            && (r.Ok? <==>
                  && HeldInTurn(c, sittings) < auth.origin.signaturesRequired && (held > 0 ==> Able(auth.origin))
                  && (auth.origin.mode.IsNonSequentialMultiSig() ==> Recoverable(c, env, before.auth))
                  && (auth.origin.mode.IsSequentialMultiSig() ==>
                        held > 0 ==> HeldInTurn(c, sittings) + held <= auth.origin.signaturesRequired))
            && (r.Ok? ==> SatThrough(c, env, auth, sittings + [next], r.value))
  {
    hide SignAppend, Shows, Able, CountHeld, PublicKeyFunctionOf, Resumable, Recoverable, AllKeys, HeldInTurn,
      Crypto.Lawful;
    OneSittingMore(c, sittings, next);
    SameAble(before.auth.origin, auth.origin);
    SittingContinues(c, env, before.auth, AllKeys(sittings), before.sigHash, HeldInTurn(c, sittings),
                     next.publicKeys, next.signerKeys);
  }

  lemma OneSittingMore(c: Crypto, sittings: seq<Sitting>, next: Sitting)
    ensures AllKeys(sittings + [next]) == AllKeys(sittings) + next.publicKeys
    ensures HeldInTurn(c, sittings + [next]) ==
            HeldInTurn(c, sittings) + CountHeld(PublicKeyFunctionOf(c), next.signerKeys, next.publicKeys)
  {
    hide CountHeld, PublicKeyFunctionOf;
    assert (sittings + [next])[..|sittings|] == sittings;
  }

  lemma LaterSitting(c: Crypto, env: Envelope, auth: Authorization, sittings: seq<Sitting>, next: Sitting)
    requires c.Lawful() && ValidSitting(c, next) && sittings != []
    requires auth.origin.MultiSig? && auth.origin.mode.IsMultiSig()
    requires SitAsExpected(c, env, auth, sittings) && LeftBehind(c, env, auth, sittings)
    requires var before := SignInSittings(c, env, auth, sittings);
             auth.origin.mode.IsSequentialMultiSig() && before.Ok? ==>
               before.value.auth.origin.MultiSig? && Resumable(before.value.auth)
    requires HeldInTurn(c, sittings) + |next.publicKeys| < SIGNATURE_LIMIT
    ensures SitAsExpected(c, env, auth, sittings + [next])
  {
    hide SignAppend, Shows, Able, AllCompressed, AllSignaturesCompressed, CountHeld, PublicKeyFunctionOf, AllKeys,
      Resumable, Recoverable, SittingRecovers, Crypto.Lawful;
    assert (sittings + [next])[..|sittings|] == sittings;
    var before := SignInSittings(c, env, auth, sittings);
    if before.Ok? {
      assert before.value.auth.origin.MultiSig?;
      NextSitting(c, env, auth, before.value, sittings, next);
    }
    assert forall sitting <- sittings[..|sittings| - 1] :: sitting in sittings;
  }

  lemma LaterLeavesBehind(c: Crypto, env: Envelope, auth: Authorization, sittings: seq<Sitting>, next: Sitting)
    requires auth.origin.MultiSig? && auth.origin.mode.IsMultiSig() && sittings != []
    requires SitAsExpected(c, env, auth, sittings) && LeftBehind(c, env, auth, sittings)
    ensures LeftBehind(c, env, auth, sittings + [next])
  {
    hide SignAppend, Shows, Able, AllCompressed, AllSignaturesCompressed, AllKeys, HeldInTurn, CanSit, Recoverable,
      SittingRecovers, SignBegin;
    var all := sittings + [next];
    assert all[..|sittings|] == sittings;
    assert forall sitting :: sitting in all <==> sitting in sittings || sitting == next;
    if SignInSittings(c, env, auth, all).Ok? {
      var before := SignInSittings(c, env, auth, sittings).value.auth;
      SignBeginSucceeds(c, env, auth);
      assert before.origin.MultiSig?;
      if forall sitting <- all :: AllCompressed(sitting.signerKeys) {
        SittingStaysCompressed(c, env, before, next);
      }
      if auth.origin.mode.IsNonSequentialMultiSig() {
        SittingKeepsRecoverable(c, env, auth, before, next);
      }
    }
  }

  /** In sequential mode, when every new signer starts from the right hash. */
  predicate KeepsChain(c: Crypto, auth: Authorization, sittings: seq<Sitting>)
    requires sittings != []
  {
    var init := sittings[..|sittings| - 1];
    HeldInTurn(c, init) == 0 || (auth.StandardAuth? && forall sitting <- init :: AllCompressed(sitting.signerKeys))
  }

  /**
   Sittings that each go through some more keys succeed exactly when CanSit holds, and then show
   all the keys. In sequential mode they have to keep the chain of hashes.
   */
  lemma {:induction false} SittingsShowKeys(c: Crypto, env: Envelope, auth: Authorization, sittings: seq<Sitting>)
    requires c.Lawful() && sittings != [] && forall sitting <- sittings :: ValidSitting(c, sitting)
    requires auth.origin.MultiSig? && auth.origin.mode.IsMultiSig() && auth.origin.fields == []
    requires auth.origin.mode.IsSequentialMultiSig() ==> KeepsChain(c, auth, sittings)
    requires |AllKeys(sittings)| < SIGNATURE_LIMIT
    ensures SitAsExpected(c, env, auth, sittings) && LeftBehind(c, env, auth, sittings)
    decreases |sittings|
  {
    hide SitAsExpected, LeftBehind, AllCompressed, ValidSitting, SignInSittings, Resumable, CountHeld,
      PublicKeyFunctionOf, Crypto.Lawful;
    var init, last := sittings[..|sittings| - 1], sittings[|sittings| - 1];
    assert sittings == init + [last] && last in sittings;
    if init == [] {
      FirstSitting(c, env, auth, last);
      FirstLeavesBehind(c, env, auth, last);
    } else {
      assert forall sitting <- init :: sitting in sittings;
      assert forall sitting <- init[..|init| - 1] :: sitting in init;
      SittingsShowKeys(c, env, auth, init);
      if auth.origin.mode.IsSequentialMultiSig() {
        ChainLeftResumable(c, env, auth, init);
      }
      LaterSitting(c, env, auth, init, last);
      LaterLeavesBehind(c, env, auth, init, last);
    }
  }

  lemma ChainLeftResumable(c: Crypto, env: Envelope, auth: Authorization, sittings: seq<Sitting>)
    requires auth.origin.MultiSig? && sittings != []
    requires SitAsExpected(c, env, auth, sittings) && LeftBehind(c, env, auth, sittings)
    requires HeldInTurn(c, sittings) == 0 ||
             (auth.StandardAuth? && forall sitting <- sittings :: AllCompressed(sitting.signerKeys))
    ensures var before := SignInSittings(c, env, auth, sittings);
            before.Ok? ==> before.value.auth.origin.MultiSig? && Resumable(before.value.auth)
  {
    hide SignInSittings, AllCompressed, AllSignaturesCompressed, CanSit, AllKeys, HeldInTurn, Recoverable,
      CountSignatures, VerificationStepOf, Replay, SignBegin;
  }

  lemma NothingSigned(c: Crypto, env: Envelope, auth: Authorization)
    requires auth.origin.MultiSig? && auth.origin.fields == []
    ensures Resumable(auth) && AllSignaturesCompressed(auth.origin.fields)
    ensures Recoverable(c, env, auth)
  {
    hide SignBegin;
    SignBeginSucceeds(c, env, auth);
  }

  lemma SameAble(a: Condition, b: Condition)
    requires a.fee == b.fee && a.nonce == b.nonce
    ensures Able(a) <==> Able(b)
  {
  }

  /**
   However the account's keys are spread over sittings, the result verifies if and only if a
   single pass over them would (see SigningIsComplete), a signature was still missing before
   the last sitting, and in the non-sequential modes the signatures made before it recover
   some key when they are replayed, which those of standard transactions do. In sequential
   mode the sittings have to keep the chain of hashes.
   */
  lemma SittingsComplete(c: Crypto, env: Envelope, auth: Authorization, sittings: seq<Sitting>)
    requires c.Lawful() && sittings != [] && forall sitting <- sittings :: ValidSitting(c, sitting)
    requires auth.origin.MultiSig? && auth.origin.mode.IsMultiSig() && auth.origin.fields == []
    requires auth.origin.mode.IsSequentialMultiSig() ==> KeepsChain(c, auth, sittings)
    requires AddressHash(c, auth.origin.mode, auth.origin.signaturesRequired, AllKeys(sittings)) ==
             Ok(auth.origin.signer)
    ensures var init, signed := sittings[..|sittings| - 1], SignInSittings(c, env, auth, sittings);
            && (signed.Ok? && VerifyTransaction(c, env, signed.value.auth).Ok? <==>
                  && CanComplete(auth.origin, HeldInTurn(c, sittings))
                  && HeldInTurn(c, init) < auth.origin.signaturesRequired
                  && (auth.origin.mode.IsNonSequentialMultiSig() ==> AllRecoverIn(c, env, auth, init)))
            && (signed.Ok? && VerifyTransaction(c, env, signed.value.auth).Ok? ==>
                  VerifyTransaction(c, env, signed.value.auth) == Ok(signed.value.sigHash))
    ensures auth.StandardAuth? ==> AllRecoverIn(c, env, auth, sittings)
  {
    hide SignInSittings, VerifyTransaction, Shows, AddressHash, AllKeys, HeldInTurn, Fits, ValidSitting, LeftBehind,
      KeepsChain, SittingRecovers, Crypto.Lawful;
    AddressKeysAreFew(c, auth.origin.mode, auth.origin.signaturesRequired, AllKeys(sittings));
    SittingsShowKeys(c, env, auth, sittings);
    var signed := SignInSittings(c, env, auth, sittings);
    if signed.Ok? {
      VerdictOfShown(c, env, signed.value.auth, AllKeys(sittings), signed.value.sigHash, HeldInTurn(c, sittings));
    }
    if auth.StandardAuth? {
      forall sitting | sitting in sittings
        ensures SittingRecovers(c, env, auth, sitting)
      {
        StandardSittingsRecover(c, env, auth, sitting);
      }
    }
  }
}

/**
 Signing a multi-signature transaction: one pass over the public keys of the account
 that signs or appends (builders.ts, signer.ts and transaction.ts), and the proof that
 what it produces is what verification accepts.
 */
module Signing {
  import opened Results
  import opened Bytes
  import opened HexCodec
  import opened Keys
  import opened Authorization
  import opened Transactions
  import opened PublicKeyOrder

  /** How one signature is made: from the current hash and a private key. */
  type SigningStep = (bytes, bytes) -> Result<Signed, Error>

  type PublicKeyFunction = bytes -> Result<bytes, Error>

  function SigningStepOf(c: Crypto, cond: Condition, at: AuthType): SigningStep {
    (sigHash, key) => NextSignature(c, sigHash, at, cond.fee, cond.nonce, key)
  }

  function PublicKeyFunctionOf(c: Crypto): PublicKeyFunction {
    key => PrivateKeyToPublic(c, key)
  }

  /** `signerKeys.find(key => privateKeyToPublic(key) === publicKey)`; a malformed key throws when it is tried. */
  function FindSigner(publicOf: PublicKeyFunction, signerKeys: seq<bytes>, publicKey: bytes)
    : Result<Option<bytes>, Error>
  {
    if signerKeys == [] then Ok(None)
    else
      var p :- publicOf(signerKeys[0]);
      if p == publicKey then Ok(Some(signerKeys[0])) else FindSigner(publicOf, signerKeys[1..], publicKey)
  }

  /** Everything that stays the same while the keys are gone through. */
  datatype Session = Session(
    sign: SigningStep,
    publicOf: PublicKeyFunction,
    sequential: bool,
    signaturesRequired: nat,
    signerKeys: seq<bytes>)

  datatype Progress = Progress(fields: seq<Field>, sigHash: bytes)

  /** The field for one public key and the hash after it, with numSigs signatures already there. */
  function SignOrAppend(s: Session, publicKey: bytes, sigHash: bytes, numSigs: nat): Result<Progress, Error> {
    var signer :- FindSigner(s.publicOf, s.signerKeys, publicKey);
    match signer
    case None => Ok(Progress([PublicKeyField(EncodingOfPublicKey(publicKey), publicKey)], sigHash))
    case Some(key) =>
      if s.sequential && numSigs >= s.signaturesRequired then Err(OriginWouldHaveTooManySignatures)
      else
        var signed :- s.sign(sigHash, key);
        if |signed.signature| != SIGNATURE_LENGTH then Err(InvalidSignature)
        else Ok(Progress([SignatureField(EncodingOfPrivateKey(key), signed.signature)],
                         if s.sequential then signed.nextSigHash else sigHash))
  }

  function SignAll(s: Session, publicKeys: seq<bytes>, sigHash: bytes, numSigs: nat): Result<Progress, Error> {
    if publicKeys == [] then Ok(Progress([], sigHash))
    else
      var first :- SignOrAppend(s, publicKeys[0], sigHash, numSigs);
      var rest :- SignAll(s, publicKeys[1..], first.sigHash, numSigs + CountSignatures(first.fields));
      Ok(Progress(first.fields + rest.fields, rest.sigHash))
  }

  // ----- resuming

  /**
   The hash a signer starts from when the condition already has fields. Whatever the
   transaction's type, it is the type given here that is hashed, and the recovered keys are
   always taken to be compressed.
   */
  function Resume(step: VerificationStep, chained: bool, fields: seq<Field>, sigHash: bytes): Result<bytes, Error> {
    if fields == [] then Ok(sigHash)
    else if fields[0].PublicKeyField? then Resume(step, chained, fields[1..], sigHash)
    else
      var v :- step(sigHash, Compressed, fields[0].signature);
      Resume(step, chained, fields[1..], if chained then v.nextSigHash else sigHash)
  }

  function SignerStart(c: Crypto, env: Envelope, auth: Authorization): Result<bytes, Error> {
    var initial :- SignBegin(c, env, auth);
    match auth.origin
    case SingleSig(_, _, _, _, _, _) => Ok(initial)
    case MultiSig(mode, _, _, _, fields, signaturesRequired) =>
      if CountSignatures(fields) >= signaturesRequired then Err(MoreSignaturesThanExpected)
      else Resume(VerificationStepOf(c, auth.origin, auth.Type()), !mode.IsNonSequentialMultiSig(), fields, initial)
  }

  // ----- choosing the order of the keys

  function SortPublicKeysForAddress(c: Crypto, publicKeys: seq<bytes>, numSigs: nat, mode: HashMode, hash: bytes)
    : Result<seq<bytes>, Error>
  {
    var unsorted :- AddressHash(c, mode, numSigs, publicKeys);
    if unsorted == hash then Ok(publicKeys)
    else
      var sorted := Sorted(publicKeys);
      var hashSorted :- AddressHash(c, mode, numSigs, sorted);
      if hashSorted == hash then Ok(sorted) else Err(NoMatchingAddress)
  }

  /**
   The order in which the keys make up the address: as given, if that hashes to it, or else their
   ascending order, if that does.
   */
  predicate MakesAddress(c: Crypto, publicKeys: seq<bytes>, numSigs: nat, mode: HashMode, hash: bytes,
                         pubs: seq<bytes>)
  {
    var given := AddressHash(c, mode, numSigs, publicKeys);
    && given.Ok?
    && if given.value == hash then pubs == publicKeys
       else Ascending(pubs) && multiset(pubs) == multiset(publicKeys) && AddressHash(c, mode, numSigs, pubs) == Ok(hash)
  }

  /** The order is found whenever there is one, and what is found is the order. */
  lemma OrderIsFound(c: Crypto, publicKeys: seq<bytes>, numSigs: nat, mode: HashMode, hash: bytes, pubs: seq<bytes>)
    ensures SortPublicKeysForAddress(c, publicKeys, numSigs, mode, hash) == Ok(pubs)
            <==> MakesAddress(c, publicKeys, numSigs, mode, hash, pubs)
  {
    hide AddressHash, Sorted, Ascending;
    SortedIsSorted(publicKeys);
    if Ascending(pubs) && multiset(pubs) == multiset(publicKeys) {
      AscendingIsUnique(pubs, Sorted(publicKeys));
    }
  }

  /**
   Over keys that have an address at all, in some ascending arrangement, an order is found exactly
   when the given order or that arrangement hashes to the address.
   */
  lemma OrderExists(c: Crypto, publicKeys: seq<bytes>, numSigs: nat, mode: HashMode, hash: bytes, s: seq<bytes>)
    requires Ascending(s) && multiset(s) == multiset(publicKeys)
    ensures SortPublicKeysForAddress(c, publicKeys, numSigs, mode, hash).Ok?
            <==> && AddressHash(c, mode, numSigs, publicKeys).Ok?
                 && (|| AddressHash(c, mode, numSigs, publicKeys) == Ok(hash)
                     || AddressHash(c, mode, numSigs, s) == Ok(hash))
  {
    hide AddressHash, Sorted, Ascending;
    SortedIsSorted(publicKeys);
    AscendingIsUnique(s, Sorted(publicKeys));
  }

  // ----- the whole pass

  datatype SignedTransaction = SignedTransaction(auth: Authorization, sigHash: bytes)

  function SessionOf(c: Crypto, cond: Condition, signerKeys: seq<bytes>): Session
    requires cond.MultiSig?
  {
    Session(SigningStepOf(c, cond, Standard), PublicKeyFunctionOf(c),
            cond.mode.IsSequentialMultiSig(), cond.signaturesRequired, signerKeys)
  }

  function PublicKeysToSign(c: Crypto, cond: Condition, publicKeys: seq<bytes>,
                            address: Option<bytes>): Result<seq<bytes>, Error>
    requires cond.MultiSig?
  {
    match address
    case None => Ok(publicKeys)
    case Some(hash) => SortPublicKeysForAddress(c, publicKeys, cond.signaturesRequired, cond.mode, hash)
  }

  /** What mutatingSignAppendMultiSig makes of an authorization, with the signer's last hash. */
  function SignAppend(c: Crypto, env: Envelope, auth: Authorization, publicKeys: seq<bytes>, signerKeys: seq<bytes>,
                      address: Option<bytes>): Result<SignedTransaction, Error>
  {
    var cond := auth.origin;
    if cond.SingleSig? then Err(NotMultiSig)
    else
      var start :- SignerStart(c, env, auth);
      var pubs :- PublicKeysToSign(c, cond, publicKeys, address);
      var p :- SignAll(SessionOf(c, cond, signerKeys), pubs, start, CountSignatures(cond.fields));
      Ok(SignedTransaction(auth.(origin := cond.(fields := cond.fields + p.fields)), p.sigHash))
  }

  /** An address given along with the keys only picks their order; without a matching order nothing is signed. */
  lemma AddressPicksTheOrder(c: Crypto, env: Envelope, auth: Authorization, publicKeys: seq<bytes>,
                             signerKeys: seq<bytes>, hash: bytes, pubs: seq<bytes>)
    requires auth.origin.MultiSig?
    ensures var cond := auth.origin;
            var signed := SignAppend(c, env, auth, publicKeys, signerKeys, Some(hash));
            && (MakesAddress(c, publicKeys, cond.signaturesRequired, cond.mode, hash, pubs) ==>
                  signed == SignAppend(c, env, auth, pubs, signerKeys, None))
            && (signed.Ok? ==>
                  exists order :: MakesAddress(c, publicKeys, cond.signaturesRequired, cond.mode, hash, order))
  {
    hide SortPublicKeysForAddress, MakesAddress, SignerStart, SignAll, CountSignatures;
    var cond := auth.origin;
    OrderIsFound(c, publicKeys, cond.signaturesRequired, cond.mode, hash, pubs);
    var chosen := SortPublicKeysForAddress(c, publicKeys, cond.signaturesRequired, cond.mode, hash);
    if chosen.Ok? {
      OrderIsFound(c, publicKeys, cond.signaturesRequired, cond.mode, hash, chosen.value);
    }
  }

  // ----- completeness

  /** The public keys of which somebody present holds the private key. */
  function CountHeld(publicOf: PublicKeyFunction, signerKeys: seq<bytes>, publicKeys: seq<bytes>): (n: nat)
    ensures n <= |publicKeys|
  {
    if publicKeys == [] then 0
    else (if Held(publicOf, signerKeys, publicKeys[0]) then 1 else 0) + CountHeld(publicOf, signerKeys, publicKeys[1..])
  }

  predicate Held(publicOf: PublicKeyFunction, signerKeys: seq<bytes>, publicKey: bytes) {
    exists k :: k in signerKeys && publicOf(k) == Ok(publicKey)
  }

  ghost predicate AllValid(publicOf: PublicKeyFunction, signerKeys: seq<bytes>) {
    forall k :: k in signerKeys ==> publicOf(k).Ok?
  }

  /**
   What the proof needs of a signing step and a verification step: signing from a full-size
   hash succeeds exactly when `able`, and verification recovers the signer's key and arrives
   at the same next hash.
   */
  ghost predicate StepsAgree(sign: SigningStep, verify: VerificationStep, publicOf: PublicKeyFunction, able: bool) {
    forall h: bytes, k: bytes :: |h| == 32 && publicOf(k).Ok? ==>
      && (sign(h, k).Ok? <==> able)
      && (able ==> SignatureVerifies(sign(h, k).value, verify, publicOf, h, k))
  }

  ghost predicate SignatureVerifies(signed: Signed, verify: VerificationStep, publicOf: PublicKeyFunction, h: bytes,
                                    k: bytes)
    requires publicOf(k).Ok?
  {
    && |signed.signature| == SIGNATURE_LENGTH
    && |signed.nextSigHash| == 32
    && verify(h, EncodingOfPrivateKey(k), signed.signature) == Ok(Verified(publicOf(k).value, signed.nextSigHash))
    && (EncodingOfPrivateKey(k) == Uncompressed <==> !PublicKeyIsCompressed(publicOf(k).value))
  }

  lemma {:induction false} FindSignerFinds(publicOf: PublicKeyFunction, signerKeys: seq<bytes>, publicKey: bytes)
    requires AllValid(publicOf, signerKeys)
    ensures var r := FindSigner(publicOf, signerKeys, publicKey);
            && r.Ok?
            && (r.value.Some? <==> Held(publicOf, signerKeys, publicKey))
            && (r.value.Some? ==> publicOf(r.value.value) == Ok(publicKey))
  {
    if signerKeys != [] {
      assert signerKeys[0] in signerKeys;
      FindSignerFinds(publicOf, signerKeys[1..], publicKey);
      assert signerKeys == [signerKeys[0]] + signerKeys[1..];
    }
  }

  predicate AnyUncompressed(keys: seq<bytes>) {
    exists k :: k in keys && !PublicKeyIsCompressed(k)
  }

  /** One key: the field added replays to that key and to the hash the signer moves to. */
  lemma OneKey(s: Session, verify: VerificationStep, able: bool, publicKey: bytes, sigHash: bytes, numSigs: nat)
    requires AllValid(s.publicOf, s.signerKeys) && StepsAgree(s.sign, verify, s.publicOf, able)
    requires |sigHash| == 32
    ensures var held := Held(s.publicOf, s.signerKeys, publicKey);
            var r := SignOrAppend(s, publicKey, sigHash, numSigs);
            && (r.Ok? <==> (held ==> able && (s.sequential ==> numSigs < s.signaturesRequired)))
            && (r.Ok? ==>
                  && |r.value.fields| == 1 && |r.value.sigHash| == 32
                  && (r.value.fields[0].IsUncompressed() <==> !PublicKeyIsCompressed(publicKey))
                  && (if held then
                        && r.value.fields[0].SignatureField?
                        && var v := verify(sigHash, r.value.fields[0].encoding, r.value.fields[0].signature);
                        && v.Ok? && v.value.publicKey == publicKey
                        && r.value.sigHash == (if s.sequential then v.value.nextSigHash else sigHash)
                      else
                        r.value.fields[0] == PublicKeyField(EncodingOfPublicKey(publicKey), publicKey)
                        && r.value.sigHash == sigHash))
  {
    FindSignerFinds(s.publicOf, s.signerKeys, publicKey);
  }

  /** What a pass promises about the fields it made for some keys. */
  ghost predicate PassesFor(verify: VerificationStep, sequential: bool, p: Progress, publicKeys: seq<bytes>,
                            sigHash: bytes, numSigs: nat, held: nat)
  {
    && CountSignatures(p.fields) == held
    && (HaveUncompressed(p.fields) <==> AnyUncompressed(publicKeys))
    && Replay(verify, sequential, p.fields, sigHash, numSigs) == Ok(Replayed(publicKeys, p.sigHash, numSigs + held))
  }

  lemma OneKeyMore(s: Session, verify: VerificationStep, able: bool, publicKey: bytes, sigHash: bytes, numSigs: nat,
                   rest: Progress, publicKeys: seq<bytes>, held: nat)
    requires AllValid(s.publicOf, s.signerKeys) && StepsAgree(s.sign, verify, s.publicOf, able)
    requires |sigHash| == 32 && SignOrAppend(s, publicKey, sigHash, numSigs).Ok?
    requires numSigs + 1 + held < SIGNATURE_LIMIT
    requires var first := SignOrAppend(s, publicKey, sigHash, numSigs).value;
             PassesFor(verify, s.sequential, rest, publicKeys, first.sigHash,
                       numSigs + CountSignatures(first.fields), held)
    ensures var first := SignOrAppend(s, publicKey, sigHash, numSigs).value;
            PassesFor(verify, s.sequential, Progress(first.fields + rest.fields, rest.sigHash),
                      [publicKey] + publicKeys, sigHash, numSigs, CountSignatures(first.fields) + held)
  {
    hide SignOrAppend, StepsAgree, Held, AllValid, HaveUncompressed, AnyUncompressed;
    OneKey(s, verify, able, publicKey, sigHash, numSigs);
    var first := SignOrAppend(s, publicKey, sigHash, numSigs).value;
    var f := first.fields[0];
    assert first.fields + rest.fields == [f] + rest.fields;
    assert ([f] + rest.fields)[1..] == rest.fields;
    UncompressedCons(f, rest.fields, publicKey, publicKeys);
  }

  lemma NoKeys(s: Session, verify: VerificationStep, sigHash: bytes, numSigs: nat)
    ensures PassesFor(verify, s.sequential, Progress([], sigHash), [], sigHash, numSigs, 0)
  {
  }

  /**
   A pass over the keys succeeds exactly when every signature it calls for can be made and, in
   sequential mode, none is beyond the required number. Replaying its fields then shows the
   keys in order and ends on the signer's own hash.
   */
  lemma {:induction false} PassReplays(s: Session, verify: VerificationStep, able: bool, publicKeys: seq<bytes>,
                                       sigHash: bytes, numSigs: nat)
    requires AllValid(s.publicOf, s.signerKeys) && StepsAgree(s.sign, verify, s.publicOf, able)
    requires |sigHash| == 32
    requires numSigs + |publicKeys| < SIGNATURE_LIMIT
    ensures var n := CountHeld(s.publicOf, s.signerKeys, publicKeys);
            var r := SignAll(s, publicKeys, sigHash, numSigs);
            && (r.Ok? <==> (n > 0 ==> able && (s.sequential ==> numSigs + n <= s.signaturesRequired)))
            && (r.Ok? ==> PassesFor(verify, s.sequential, r.value, publicKeys, sigHash, numSigs, n))
    decreases |publicKeys|
  {
    hide SignOrAppend, StepsAgree, Held, AllValid, PassesFor;
    if publicKeys == [] {
      NoKeys(s, verify, sigHash, numSigs);
    } else {
      var key, rest := publicKeys[0], publicKeys[1..];
      OneKey(s, verify, able, key, sigHash, numSigs);
      var first := SignOrAppend(s, key, sigHash, numSigs);
      if first.Ok? {
        assert first.value.fields == [first.value.fields[0]];
        var m := numSigs + CountSignatures(first.value.fields);
        PassReplays(s, verify, able, rest, first.value.sigHash, m);
        var tail := SignAll(s, rest, first.value.sigHash, m);
        if tail.Ok? {
          OneKeyMore(s, verify, able, key, sigHash, numSigs, tail.value, rest,
                     CountHeld(s.publicOf, s.signerKeys, rest));
          assert publicKeys == [key] + rest;
        }
      }
    }
  }

  lemma UncompressedCons(f: Field, fields: seq<Field>, key: bytes, keys: seq<bytes>)
    requires f.IsUncompressed() <==> !PublicKeyIsCompressed(key)
    requires HaveUncompressed(fields) <==> AnyUncompressed(keys)
    ensures HaveUncompressed([f] + fields) <==> AnyUncompressed([key] + keys)
  {
  }

  // ----- the concrete steps

  predicate Fits(v: nat) {
    v < Pow(256, 8)
  }

  lemma PreSignWorks(c: Crypto, sigHash: bytes, at: AuthType, fee: nat, nonce: nat)
    requires c.Lawful() && |sigHash| == 32
    ensures var pre := SigHashPreSign(c, sigHash, at, fee, nonce);
            (pre.Ok? <==> Fits(fee) && Fits(nonce)) && (pre.Ok? ==> |pre.value| == 32)
  {
    hide IntToBytes, Pow;
    IntToBytesExact(fee, 8);
    IntToBytesExact(nonce, 8);
  }

  /** A lawful signature scheme gives agreeing steps; they fail only when fee or nonce exceed 64 bits. */
  lemma LawfulStepsAgree(c: Crypto, cond: Condition, at: AuthType)
    requires c.Lawful()
    ensures StepsAgree(SigningStepOf(c, cond, at), VerificationStepOf(c, cond, at), PublicKeyFunctionOf(c),
                       Fits(cond.fee) && Fits(cond.nonce))
  {
    hide SigHashPreSign, Fits;
    var publicOf := PublicKeyFunctionOf(c);
    forall h: bytes, k: bytes | |h| == 32 && publicOf(k).Ok?
      ensures SigningStepOf(c, cond, at)(h, k).Ok? <==> Fits(cond.fee) && Fits(cond.nonce)
      ensures SigningStepOf(c, cond, at)(h, k).Ok? ==>
                SignatureVerifies(SigningStepOf(c, cond, at)(h, k).value, VerificationStepOf(c, cond, at), publicOf,
                                  h, k)
    {
      PreSignWorks(c, h, at, cond.fee, cond.nonce);
    }
  }

  lemma AddressKeysAreFew(c: Crypto, mode: HashMode, numSigs: nat, keys: seq<bytes>)
    requires AddressHash(c, mode, numSigs, keys).Ok? && mode.IsMultiSig()
    ensures |keys| <= 15
    ensures mode.P2WSH? || mode.P2WSHNonSequential? ==> !AnyUncompressed(keys)
  {
  }

  /** Exactly the required number of signatures in sequential mode, at least as many in the others. */
  predicate Enough(cond: Condition, numSigs: nat)
    requires cond.MultiSig?
  {
    if cond.mode.IsSequentialMultiSig() then numSigs == cond.signaturesRequired
    else numSigs >= cond.signaturesRequired
  }

  /** When a pass over an untouched account's keys ends in a transaction that verifies. */
  predicate CanComplete(cond: Condition, held: nat)
    requires cond.MultiSig?
  {
    && cond.signaturesRequired >= 1
    && Fits(cond.fee) && Fits(cond.nonce)
    && Enough(cond, held)
  }

  /**
   Signing is complete, and no more than complete. For any account whose address is that of the
   keys, as given or in the order that makes up the given address, and any valid signer keys, the
   signed transaction verifies exactly when enough of the keys are held (precisely enough in
   sequential mode), at least one signature is required, and fee and nonce fit in 64 bits.
   Verification then shows the keys in their order and returns the signer's last hash.
   */
  lemma SigningIsComplete(c: Crypto, env: Envelope, auth: Authorization, publicKeys: seq<bytes>, signerKeys: seq<bytes>,
                          address: Option<bytes>, pubs: seq<bytes>)
    requires c.Lawful() && AllValid(PublicKeyFunctionOf(c), signerKeys)
    requires auth.origin.MultiSig? && auth.origin.mode.IsMultiSig() && auth.origin.fields == []
    requires match address
             case None => pubs == publicKeys
             case Some(hash) =>
               MakesAddress(c, publicKeys, auth.origin.signaturesRequired, auth.origin.mode, hash, pubs)
    requires AddressHash(c, auth.origin.mode, auth.origin.signaturesRequired, pubs) == Ok(auth.origin.signer)
    ensures var held := CountHeld(PublicKeyFunctionOf(c), signerKeys, pubs);
            var signed := SignAppend(c, env, auth, publicKeys, signerKeys, address);
            && (CanComplete(auth.origin, held) <==> signed.Ok? && VerifyTransaction(c, env, signed.value.auth).Ok?)
            && (CanComplete(auth.origin, held) ==>
                  && VerifyTransaction(c, env, signed.value.auth) == Ok(signed.value.sigHash)
                  && ShowsKeys(c, env, signed.value.auth, pubs))
  {
    hide Fits, AddressHash, SignBegin, StepsAgree, SigningStepOf, VerificationStepOf, PublicKeyFunctionOf, Replay,
      SignAll, SortPublicKeysForAddress, MakesAddress;
    if address.Some? {
      OrderIsFound(c, publicKeys, auth.origin.signaturesRequired, auth.origin.mode, address.value, pubs);
    }
    var cond := auth.origin;
    var s, verify := SessionOf(c, cond, signerKeys), VerificationStepOf(c, cond, Standard);
    var able := Fits(cond.fee) && Fits(cond.nonce);
    LawfulStepsAgree(c, cond, Standard);
    AddressKeysAreFew(c, cond.mode, cond.signaturesRequired, pubs);
    SignBeginSucceeds(c, env, auth);
    var initial := SignBegin(c, env, auth).value;
    PassReplays(s, verify, able, pubs, initial, 0);
    var p := SignAll(s, pubs, initial, 0);
    if cond.signaturesRequired >= 1 && p.Ok? {
      var after := auth.(origin := cond.(fields := p.value.fields));
      assert [] + p.value.fields == p.value.fields;
      SameStart(c, env, auth, after);
      SameStep(c, cond, after.origin, Standard);
    }
  }

  /** The keys that a transaction's fields show, from its own starting hash. */
  predicate ShowsKeys(c: Crypto, env: Envelope, auth: Authorization, publicKeys: seq<bytes>) {
    var initial := SignBegin(c, env, auth);
    && auth.origin.MultiSig? && initial.Ok?
    && var r := Replay(VerificationStepOf(c, auth.origin, Standard), auth.origin.mode.IsSequentialMultiSig(),
                       auth.origin.fields, initial.value, 0);
    && r.Ok? && r.value.publicKeys == publicKeys
  }

  lemma SameStart(c: Crypto, env: Envelope, a: Authorization, b: Authorization)
    requires a.Type() == b.Type() && SameAccount(a.origin, b.origin)
    ensures SignBegin(c, env, a) == SignBegin(c, env, b)
  {
  }

  lemma SameStep(c: Crypto, a: Condition, b: Condition, at: AuthType)
    requires a.fee == b.fee && a.nonce == b.nonce
    ensures VerificationStepOf(c, a, at) == VerificationStepOf(c, b, at)
  {
  }
}

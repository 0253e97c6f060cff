/**
 Spending conditions and transaction authorizations: the signature hash chain, its
 verification, and the sponsor overlay (packages/transactions/src/authorization.ts).
 */
module Authorization {
  import opened Results
  import opened Bytes
  import opened HexCodec
  import opened Keys

  datatype AuthType = Standard | Sponsored {
    function Code(): byte {
      if Standard? then 4 else 5
    }
  }

  datatype Field =
    | PublicKeyField(encoding: KeyEncoding, key: bytes)
    | SignatureField(encoding: KeyEncoding, signature: bytes)
  {
    predicate IsUncompressed() {
      match this
      case PublicKeyField(_, key) => !PublicKeyIsCompressed(key)
      case SignatureField(e, _) => e == Uncompressed
    }
  }

  datatype Condition =
    | SingleSig(mode: HashMode, signer: bytes, nonce: nat, fee: nat, keyEncoding: KeyEncoding, signature: bytes)
    | MultiSig(mode: HashMode, signer: bytes, nonce: nat, fee: nat, fields: seq<Field>, signaturesRequired: nat)

  datatype Authorization =
    | StandardAuth(origin: Condition)
    | SponsoredAuth(origin: Condition, sponsor: Condition)
  {
    function Type(): AuthType {
      if StandardAuth? then Standard else Sponsored
    }
  }

  const SIGNATURE_LENGTH := 65

  function EmptySignature(): bytes {
    Zeros(SIGNATURE_LENGTH)
  }

  // ----- the signature hash chain

  function PreInput(sigHash: bytes, at: AuthType, fee: nat, nonce: nat): bytes {
    sigHash + [at.Code()] + IntToBytes(fee, 8) + IntToBytes(nonce, 8)
  }

  function SigHashPreSign(c: Crypto, sigHash: bytes, at: AuthType, fee: nat, nonce: nat): Result<bytes, Error> {
    var input := PreInput(sigHash, at, fee, nonce);
    if |input| != 32 + 1 + 8 + 8 then Err(InvalidSignatureHashLength) else Ok(c.txHash(input))
  }

  function PostInput(sigHash: bytes, encoding: KeyEncoding, signature: bytes): bytes {
    sigHash + [encoding.Code()] + signature
  }

  function SigHashPostSign(c: Crypto, sigHash: bytes, publicKey: bytes, signature: bytes): Result<bytes, Error> {
    var input := PostInput(sigHash, EncodingOfPublicKey(publicKey), signature);
    if |input| > 32 + 1 + SIGNATURE_LENGTH then Err(InvalidSignatureHashLength) else Ok(c.txHash(input))
  }

  datatype Signed = Signed(signature: bytes, nextSigHash: bytes)

  function NextSignature(c: Crypto, sigHash: bytes, at: AuthType, fee: nat, nonce: nat, key: bytes)
    : Result<Signed, Error>
  {
    var pre :- SigHashPreSign(c, sigHash, at, fee, nonce);
    var publicKey :- PrivateKeyToPublic(c, key);
    var signature := c.sign(key[..32], pre);
    var post :- SigHashPostSign(c, pre, publicKey, signature);
    Ok(Signed(signature, post))
  }

  datatype Verified = Verified(publicKey: bytes, nextSigHash: bytes)

  function NextVerification(c: Crypto, sigHash: bytes, at: AuthType, fee: nat, nonce: nat,
                            encoding: KeyEncoding, signature: bytes): Result<Verified, Error>
  {
    var pre :- SigHashPreSign(c, sigHash, at, fee, nonce);
    var recovered := c.recover(pre, signature, encoding);
    if recovered.None? then Err(InvalidSignature)
    else
      var post :- SigHashPostSign(c, pre, recovered.value, signature);
      Ok(Verified(recovered.value, post))
  }

  // ----- verification

  function VerifySingleSig(c: Crypto, cond: Condition, initial: bytes, at: AuthType): Result<bytes, Error>
    requires cond.SingleSig?
  {
    var v :- NextVerification(c, initial, at, cond.fee, cond.nonce, cond.keyEncoding, cond.signature);
    var address :- AddressHash(c, cond.mode, 1, [v.publicKey]);
    if address != cond.signer then Err(SignerHashMismatch) else Ok(v.nextSigHash)
  }

  datatype Replayed = Replayed(publicKeys: seq<bytes>, sigHash: bytes, numSigs: nat)

  const SIGNATURE_LIMIT := 65536

  /** How one signature is verified: from the current hash, the key encoding and the signature. */
  type VerificationStep = (bytes, KeyEncoding, bytes) -> Result<Verified, Error>

  function VerificationStepOf(c: Crypto, cond: Condition, at: AuthType): VerificationStep {
    (sigHash, encoding, signature) => NextVerification(c, sigHash, at, cond.fee, cond.nonce, encoding, signature)
  }

  /**
   Reference definition of what a list of fields authorizes: the keys it shows, in order,
   and the hash its signatures lead to from `sigHash`.
   */
  function Replay(step: VerificationStep, sequential: bool, fields: seq<Field>, sigHash: bytes, numSigs: nat)
    : Result<Replayed, Error>
  {
    if fields == [] then Ok(Replayed([], sigHash, numSigs))
    else
      match fields[0]
      case PublicKeyField(_, key) =>
        var rest :- Replay(step, sequential, fields[1..], sigHash, numSigs);
        Ok(rest.(publicKeys := [key] + rest.publicKeys))
      case SignatureField(encoding, signature) =>
        var v :- step(sigHash, encoding, signature);
        if numSigs + 1 == SIGNATURE_LIMIT then Err(TooManySignatures)
        else
          var next := if sequential then v.nextSigHash else sigHash;
          var rest :- Replay(step, sequential, fields[1..], next, numSigs + 1);
          Ok(rest.(publicKeys := [v.publicKey] + rest.publicKeys))
  }

  /** The checks made once all fields have been read. */
  function Conclude(c: Crypto, cond: Condition, r: Replayed, haveUncompressed: bool): Result<bytes, Error>
    requires cond.MultiSig?
  {
    if || (cond.mode.IsSequentialMultiSig() && r.numSigs != cond.signaturesRequired)
       || (cond.mode.IsNonSequentialMultiSig() && r.numSigs < cond.signaturesRequired)
    then Err(IncorrectNumberOfSignatures)
    else if haveUncompressed && (cond.mode.P2WSH? || cond.mode.P2WSHNonSequential?) then
      Err(UncompressedKeysNotAllowed)
    else
      var address :- AddressHash(c, cond.mode, cond.signaturesRequired, r.publicKeys);
      if address != cond.signer then Err(SignerHashMismatch) else Ok(r.sigHash)
  }

  predicate HaveUncompressed(fields: seq<Field>) {
    exists f :: f in fields && f.IsUncompressed()
  }

  function MultiSigVerdict(c: Crypto, cond: Condition, initial: bytes, at: AuthType): Result<bytes, Error>
    requires cond.MultiSig?
  {
    var r :- Replay(VerificationStepOf(c, cond, at), cond.mode.IsSequentialMultiSig(), cond.fields, initial, 0);
    Conclude(c, cond, r, HaveUncompressed(cond.fields))
  }

  /** A replay whose first keys are already known. */
  function WithKeysBefore(keys: seq<bytes>, r: Result<Replayed, Error>): Result<Replayed, Error> {
    match r
    case Ok(value) => Ok(value.(publicKeys := keys + value.publicKeys))
    case Err(_) => r
  }

  lemma NothingBefore(r: Result<Replayed, Error>)
    ensures WithKeysBefore([], r) == r
  {
    if r.Ok? {
      assert [] + r.value.publicKeys == r.value.publicKeys;
    }
  }

  /** The loop of verifyMultiSig, which stops at the first field that throws. */
  method ReadFields(step: VerificationStep, sequential: bool, fields: seq<Field>, initial: bytes)
    returns (r: Result<Replayed, Error>, haveUncompressed: bool)
    ensures r == Replay(step, sequential, fields, initial, 0)
    ensures r.Ok? ==> (haveUncompressed <==> HaveUncompressed(fields))
  {
    var publicKeys: seq<bytes> := [];
    var curSigHash, numSigs := initial, 0;
    haveUncompressed := false;
    assert fields[0..] == fields;
    NothingBefore(Replay(step, sequential, fields, initial, 0));
    for i := 0 to |fields|
      invariant Replay(step, sequential, fields, initial, 0) ==
                WithKeysBefore(publicKeys, Replay(step, sequential, fields[i..], curSigHash, numSigs))
      invariant haveUncompressed <==> HaveUncompressed(fields[..i])
    {
      HaveUncompressedStep(fields, i);
      ReplayStep(step, sequential, fields[i..], curSigHash, numSigs, publicKeys);
      assert fields[i..][1..] == fields[i + 1..];
      match fields[i]
      case PublicKeyField(_, key) =>
        if !PublicKeyIsCompressed(key) {
          haveUncompressed := true;
        }
        publicKeys := publicKeys + [key];
      case SignatureField(encoding, signature) =>
        if encoding == Uncompressed {
          haveUncompressed := true;
        }
        var v := step(curSigHash, encoding, signature);
        if v.Err? {
          return Err(v.error), haveUncompressed;
        }
        if sequential {
          curSigHash := v.value.nextSigHash;
        }
        publicKeys := publicKeys + [v.value.publicKey];
        numSigs := numSigs + 1;
        if numSigs == SIGNATURE_LIMIT {
          return Err(TooManySignatures), haveUncompressed;
        }
    }
    assert fields[..|fields|] == fields;
    assert publicKeys + [] == publicKeys;
    r := Ok(Replayed(publicKeys, curSigHash, numSigs));
  }

  method VerifyMultiSig(c: Crypto, cond: Condition, initial: bytes, at: AuthType) returns (r: Result<bytes, Error>)
    requires cond.MultiSig?
    ensures r == MultiSigVerdict(c, cond, initial, at)
  {
    var fields, haveUncompressed :=
      ReadFields(VerificationStepOf(c, cond, at), cond.mode.IsSequentialMultiSig(), cond.fields, initial);
    if fields.Err? {
      return Err(fields.error);
    }
    r := Conclude(c, cond, fields.value, haveUncompressed);
  }

  lemma HaveUncompressedStep(fields: seq<Field>, i: nat)
    requires i < |fields|
    ensures HaveUncompressed(fields[..i + 1]) <==> HaveUncompressed(fields[..i]) || fields[i].IsUncompressed()
  {
  }

  /** One iteration, seen from the reference definition. */
  lemma ReplayStep(step: VerificationStep, sequential: bool, fields: seq<Field>, sigHash: bytes, numSigs: nat,
                   keys: seq<bytes>)
    requires fields != []
    ensures fields[0].PublicKeyField? ==>
              WithKeysBefore(keys, Replay(step, sequential, fields, sigHash, numSigs)) ==
              WithKeysBefore(keys + [fields[0].key], Replay(step, sequential, fields[1..], sigHash, numSigs))
    ensures fields[0].SignatureField? ==>
              var v := step(sigHash, fields[0].encoding, fields[0].signature);
              WithKeysBefore(keys, Replay(step, sequential, fields, sigHash, numSigs)) ==
              if v.Err? then Err(v.error)
              else if numSigs + 1 == SIGNATURE_LIMIT then Err(TooManySignatures)
              else
                var next := if sequential then v.value.nextSigHash else sigHash;
                WithKeysBefore(keys + [v.value.publicKey], Replay(step, sequential, fields[1..], next, numSigs + 1))
  {
    match fields[0]
    case PublicKeyField(_, key) =>
      var rest := Replay(step, sequential, fields[1..], sigHash, numSigs);
      if rest.Ok? {
        assert keys + ([key] + rest.value.publicKeys) == keys + [key] + rest.value.publicKeys;
      }
    case SignatureField(encoding, signature) =>
      var v := step(sigHash, encoding, signature);
      if v.Ok? && numSigs + 1 != SIGNATURE_LIMIT {
        var next := if sequential then v.value.nextSigHash else sigHash;
        var rest := Replay(step, sequential, fields[1..], next, numSigs + 1);
        if rest.Ok? {
          var shown := rest.value.publicKeys;
          assert keys + ([v.value.publicKey] + shown) == keys + [v.value.publicKey] + shown;
        }
      }
  }

  function Verify(c: Crypto, cond: Condition, initial: bytes, at: AuthType): Result<bytes, Error> {
    if cond.SingleSig? then VerifySingleSig(c, cond, initial, at) else MultiSigVerdict(c, cond, initial, at)
  }

  /** Origins are always verified as standard, also in sponsored transactions. */
  function VerifyOrigin(c: Crypto, auth: Authorization, initial: bytes): Result<bytes, Error> {
    Verify(c, auth.origin, initial, Standard)
  }

  // ----- what the chain depends on

  function SignatureFields(fields: seq<Field>): seq<Field> {
    if fields == [] then []
    else if fields[0].SignatureField? then [fields[0]] + SignatureFields(fields[1..])
    else SignatureFields(fields[1..])
  }

  function CountSignatures(fields: seq<Field>): (n: nat)
    ensures n <= |fields|
  {
    if fields == [] then 0
    else (if fields[0].SignatureField? then 1 else 0) + CountSignatures(fields[1..])
  }

  lemma {:induction false} CountAppended(a: seq<Field>, b: seq<Field>)
    ensures CountSignatures(a + b) == CountSignatures(a) + CountSignatures(b)
  {
    if a == [] {
      assert a + b == b;
    } else {
      assert (a + b)[1..] == a[1..] + b;
      CountAppended(a[1..], b);
    }
  }

  /** What a replay says about the hashes, without the keys. */
  function ChainOf(r: Result<Replayed, Error>): Result<(bytes, nat), Error> {
    match r
    case Ok(value) => Ok((value.sigHash, value.numSigs))
    case Err(e) => Err(e)
  }

  /** In every mode, fields that only show a public key leave the chain of hashes alone. */
  lemma {:induction false} KeysDoNotTouchTheChain(step: VerificationStep, sequential: bool, fields: seq<Field>,
                                                  sigHash: bytes, numSigs: nat)
    ensures ChainOf(Replay(step, sequential, fields, sigHash, numSigs)) ==
            ChainOf(Replay(step, sequential, SignatureFields(fields), sigHash, numSigs))
    decreases |fields|
  {
    if fields != [] {
      var rest := fields[1..];
      match fields[0]
      case PublicKeyField(_, _) =>
        KeysDoNotTouchTheChain(step, sequential, rest, sigHash, numSigs);
      case SignatureField(encoding, signature) =>
        assert SignatureFields(fields)[1..] == SignatureFields(rest);
        var v := step(sigHash, encoding, signature);
        if v.Ok? {
          var next := if sequential then v.value.nextSigHash else sigHash;
          KeysDoNotTouchTheChain(step, sequential, rest, next, numSigs + 1);
        }
    }
  }

  /** The key that a field shows or proves against `sigHash`. */
  function KeyShown(step: VerificationStep, field: Field, sigHash: bytes): Result<bytes, Error> {
    match field
    case PublicKeyField(_, key) => Ok(key)
    case SignatureField(encoding, signature) =>
      var v :- step(sigHash, encoding, signature);
      Ok(v.publicKey)
  }

  ghost predicate EachStandsAlone(step: VerificationStep, fields: seq<Field>, sigHash: bytes) {
    forall i :: 0 <= i < |fields| ==> KeyShown(step, fields[i], sigHash).Ok?
  }

  /**
   In the non-sequential modes a replay succeeds exactly when every field stands on its own
   against the initial hash; it then shows the fields' keys and ends where it began.
   */
  lemma {:induction false} SignaturesAreIndependent(step: VerificationStep, fields: seq<Field>, sigHash: bytes,
                                                    numSigs: nat)
    requires numSigs < SIGNATURE_LIMIT
    ensures var r := Replay(step, false, fields, sigHash, numSigs);
            && (r.Ok? <==> && EachStandsAlone(step, fields, sigHash)
                           && numSigs + CountSignatures(fields) < 65536)
            && (r.Ok? ==> && r.value.sigHash == sigHash
                          && r.value.numSigs == numSigs + CountSignatures(fields)
                          && |r.value.publicKeys| == |fields|
                          && forall i :: 0 <= i < |fields| ==>
                               KeyShown(step, fields[i], sigHash) == Ok(r.value.publicKeys[i]))
    decreases |fields|
  {
    if fields != [] {
      var rest := fields[1..];
      var n := if fields[0].SignatureField? then numSigs + 1 else numSigs;
      if n < SIGNATURE_LIMIT {
        SignaturesAreIndependent(step, rest, sigHash, n);
      }
      assert EachStandsAlone(step, fields, sigHash) <==>
             KeyShown(step, fields[0], sigHash).Ok? && EachStandsAlone(step, rest, sigHash) by {
        assert forall i :: 0 <= i < |rest| ==> rest[i] == fields[i + 1];
        assert forall i :: 0 < i < |fields| ==> fields[i] == rest[i - 1];
      }
    }
  }
}

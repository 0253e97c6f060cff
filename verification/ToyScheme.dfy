/**
 A signature scheme small enough to compute with. It shows that the laws asked of the
 cryptographic primitives can be met, and supplies concrete transactions where resuming a
 partly signed transaction goes wrong.
 */
module ToyScheme {
  import opened Results
  import opened Bytes
  import opened HexCodec
  import opened Keys
  import opened Authorization
  import opened AuthorizationWire
  import opened Transactions
  import opened Signing
  import opened Cosigning

  function OctetAt(d: bytes, i: nat): byte {
    if |d| > i then d[i] else 0
  }

  /** Remembers the octet after the first 32, where types and key flags are hashed, and the first one. */
  function ToyHash(d: bytes): (h: bytes)
    ensures |h| == 32
  {
    [OctetAt(d, 32), OctetAt(d, 0)] + Zeros(30)
  }

  function ToyPublicKey(secret: bytes, e: KeyEncoding): bytes {
    [if e == Compressed then 2 else 4] + secret
  }

  function ToySign(secret: bytes, h: bytes): bytes {
    secret + Zeros(33)
  }

  function ToyRecover(h: bytes, sig: bytes, e: KeyEncoding): Option<bytes> {
    if |sig| < 32 then None else Some(ToyPublicKey(sig[..32], e))
  }

  function Toy(): Crypto {
    Crypto(d => ToyHash(d), d => d, d => d, s => |s| == 32, (s, e) => ToyPublicKey(s, e), (s, h) => ToySign(s, h),
           (h, sig, e) => ToyRecover(h, sig, e), k => Some(k), k => Some(k))
  }

  lemma ToyIsLawful()
    ensures Toy().Lawful()
  {
  }

  /** An account that asks for two signatures and has one. */
  function HalfSigned(e: KeyEncoding): Condition {
    MultiSig(P2SH, Zeros(20), 0, 0, [SignatureField(e, Zeros(65))], 2)
  }

  const TOY_ENVELOPE := Envelope(Zeros(33), [])

  lemma ToyStep(cond: Condition, at: AuthType, e: KeyEncoding)
    requires cond.fee == 0 && cond.nonce == 0
    ensures VerificationStepOf(Toy(), cond, at)(Zeros(32), e, Zeros(65)) ==
            Ok(Verified(ToyPublicKey(Zeros(65)[..32], e), [e.Code(), at.Code()] + Zeros(30)))
  {
    hide IntToBytes, Zeros;
    IntToBytesExact(0, 8);
    PowPositive();
    var pre := SigHashPreSign(Toy(), Zeros(32), at, 0, 0);
    var input := PreInput(Zeros(32), at, 0, 0);
    assert input[32] == at.Code() && pre == Ok([at.Code(), OctetAt(input, 0)] + Zeros(30));
    var key := ToyPublicKey(Zeros(65)[..32], e);
    assert EncodingOfPublicKey(key) == e;
    var post := PostInput(pre.value, e, Zeros(65));
    assert post[32] == e.Code() && post[0] == at.Code();
  }

  lemma PowPositive()
    ensures Pow(256, 8) > 0
  {
  }

  lemma ToyStart(auth: Authorization)
    ensures SignBegin(Toy(), TOY_ENVELOPE, auth) == Ok(Zeros(32))
  {
    hide EncodeAuthorization;
    SignBeginSucceeds(Toy(), TOY_ENVELOPE, auth);
    var d := Zeros(33) + EncodeAuthorization(Toy(), InitialAuthorization(auth)).value + [];
    ZerosAt(33, 0);
    ZerosAt(33, 32);
    assert d[0] == Zeros(33)[0] && d[32] == Zeros(33)[32];
    assert Zeros(32) == [0] + Zeros(31) == [0, 0] + Zeros(30);
  }

  lemma ToyChain(auth: Authorization, e: KeyEncoding)
    requires auth.origin == HalfSigned(e)
    ensures Replay(VerificationStepOf(Toy(), auth.origin, Standard), true, auth.origin.fields, Zeros(32), 0) ==
            Ok(Replayed([ToyPublicKey(Zeros(65)[..32], e)], [e.Code(), Standard.Code()] + Zeros(30), 1))
    ensures SignerStart(Toy(), TOY_ENVELOPE, auth) == Ok([Compressed.Code(), auth.Type().Code()] + Zeros(30))
  {
    hide Zeros, SignBegin;
    var cond := auth.origin;
    var fields := cond.fields;
    ToyStart(auth);
    ToyStep(cond, Standard, e);
    ToyStep(cond, auth.Type(), Compressed);
    hide VerificationStepOf;
    assert fields[1..] == [] && CountSignatures(fields) == 1;
    var step, resumed := VerificationStepOf(Toy(), cond, Standard), VerificationStepOf(Toy(), cond, auth.Type());
    var h, g := [e.Code(), Standard.Code()] + Zeros(30), [Compressed.Code(), auth.Type().Code()] + Zeros(30);
    assert Replay(step, true, [], h, 1) == Ok(Replayed([], h, 1));
    var key := ToyPublicKey(Zeros(65)[..32], e);
    assert step(Zeros(32), e, fields[0].signature) == Ok(Verified(key, h));
    assert [key] + [] == [key];
    assert Replay(step, true, fields, Zeros(32), 0) == Ok(Replayed([key] + [], h, 1));
    assert Resume(resumed, true, [], g) == Ok(g);
  }

  /** A new signer over this transaction does not start from the hash its fields lead to. */
  ghost predicate ResumesWrongly(auth: Authorization)
    requires auth.origin.MultiSig?
  {
    var initial := SignBegin(Toy(), TOY_ENVELOPE, auth);
    && initial.Ok?
    && var chain := Replay(VerificationStepOf(Toy(), auth.origin, Standard), auth.origin.mode.IsSequentialMultiSig(),
                           auth.origin.fields, initial.value, 0);
       var start := SignerStart(Toy(), TOY_ENVELOPE, auth);
       chain.Ok? && start.Ok? && start.value != chain.value.sigHash
  }

  /** One signature of an uncompressed key is enough, and so is one on a sponsored transaction. */
  lemma ResumingGoesWrong()
    ensures Toy().Lawful()
    ensures ResumesWrongly(StandardAuth(HalfSigned(Uncompressed)))
    ensures ResumesWrongly(SponsoredAuth(HalfSigned(Compressed), NoSponsor()))
  {
    hide Zeros, SignBegin, SignerStart, Replay, VerificationStepOf;
    ToyIsLawful();
    var a, b := StandardAuth(HalfSigned(Uncompressed)), SponsoredAuth(HalfSigned(Compressed), NoSponsor());
    ToyStart(a);
    ToyStart(b);
    ToyChain(a, Uncompressed);
    ToyChain(b, Compressed);
    var h, g := [Uncompressed.Code(), Standard.Code()] + Zeros(30), [Compressed.Code(), Standard.Code()] + Zeros(30);
    var i := [Compressed.Code(), Sponsored.Code()] + Zeros(30);
    assert h[0] != g[0] && g[1] != i[1];
  }

  // ----- a scheme that only recovers from what was signed

  function Fit(h: bytes): (f: bytes)
    ensures |f| == 32
  {
    if |h| == 32 then h else Zeros(32)
  }

  function StrictSign(secret: bytes, h: bytes): bytes {
    secret + (Fit(h) + [0])
  }

  function StrictRecover(h: bytes, sig: bytes, e: KeyEncoding): Option<bytes> {
    if |sig| == 65 && sig[32..64] == Fit(h) then Some(ToyPublicKey(sig[..32], e)) else None
  }

  function Strict(): Crypto {
    Toy().(sign := (s, h) => StrictSign(s, h), recover := (h, sig, e) => StrictRecover(h, sig, e))
  }

  lemma StrictSignature(secret: bytes, h: bytes)
    requires |secret| == 32
    ensures var sig := StrictSign(secret, h); |sig| == 65 && sig[..32] == secret && sig[32..64] == Fit(h)
  {
  }

  lemma StrictIsLawful()
    ensures Strict().Lawful()
  {
    hide StrictSign, Fit;
    forall s: bytes, h: bytes | |s| == 32
      ensures |StrictSign(s, h)| == 65
      ensures forall e: KeyEncoding :: StrictRecover(h, StrictSign(s, h), e) == Some(ToyPublicKey(s, e))
    {
      StrictSignature(s, h);
    }
  }

  /** What the first signer of an untouched account with neither fee nor nonce signs. */
  function FirstHash(at: AuthType): bytes {
    [at.Code(), 0] + Zeros(30)
  }

  lemma StrictPre(at: AuthType)
    ensures SigHashPreSign(Strict(), Zeros(32), at, 0, 0) == Ok(FirstHash(at))
  {
    hide IntToBytes, Zeros;
    IntToBytesExact(0, 8);
    PowPositive();
    ZerosAt(32, 0);
    var input := PreInput(Zeros(32), at, 0, 0);
    assert input[32] == at.Code() && input[0] == Zeros(32)[0];
  }

  /** Half signed in a non-sequential mode, by a signature that verification accepts. */
  function HalfSignedApart(): Condition {
    var signature := StrictSign(Zeros(32), FirstHash(Standard));
    MultiSig(P2SHNonSequential, Zeros(20), 0, 0, [SignatureField(Compressed, signature)], 2)
  }

  lemma StrictSteps()
    ensures var cond := HalfSignedApart();
            && VerificationStepOf(Strict(), cond, Standard)(Zeros(32), Compressed, cond.fields[0].signature).Ok?
            && VerificationStepOf(Strict(), cond, Sponsored)(Zeros(32), Compressed, cond.fields[0].signature).Err?
  {
    hide SigHashPreSign, StrictSign, Zeros;
    StrictPre(Standard);
    StrictPre(Sponsored);
    StrictSignature(Zeros(32), FirstHash(Standard));
    assert FirstHash(Standard)[0] != FirstHash(Sponsored)[0];
  }

  /** On a sponsored transaction of a non-sequential account, a new signer may refuse a valid signature. */
  lemma SponsoredResumingMayFail()
    ensures Strict().Lawful()
    ensures var auth := SponsoredAuth(HalfSignedApart(), NoSponsor());
            && SignBegin(Strict(), TOY_ENVELOPE, auth) == Ok(Zeros(32))
            && Replay(VerificationStepOf(Strict(), auth.origin, Standard), false, auth.origin.fields, Zeros(32), 0).Ok?
            && SignerStart(Strict(), TOY_ENVELOPE, auth).Err?
  {
    hide Zeros, SignBegin, VerificationStepOf, StrictSign;
    StrictIsLawful();
    StrictSteps();
    var auth := SponsoredAuth(HalfSignedApart(), NoSponsor());
    StrictStart(auth);
    var fields := auth.origin.fields;
    assert fields[1..] == [] && fields[0] in fields && CountSignatures(fields) == 1;
    NonSequentialResuming(Strict(), TOY_ENVELOPE, auth);
  }

  lemma StrictStart(auth: Authorization)
    ensures SignBegin(Strict(), TOY_ENVELOPE, auth) == SignBegin(Toy(), TOY_ENVELOPE, auth) == Ok(Zeros(32))
  {
    hide Zeros, EncodeHeader;
    ToyStart(auth);
  }
}

/**
 Authorizations inside transactions: the cleared form that signatures start from, the
 setters, and the sponsor overlay (authorization.ts and transaction.ts).
 */
module Transactions {
  import opened Results
  import opened Bytes
  import opened HexCodec
  import opened Keys
  import opened Authorization
  import opened AuthorizationWire

  function ClearCondition(cond: Condition): Condition {
    match cond
    case SingleSig(_, _, _, _, _, _) => cond.(nonce := 0, fee := 0, signature := EmptySignature())
    case MultiSig(_, _, _, _, _, _) => cond.(nonce := 0, fee := 0, fields := [])
  }

  /** The sponsor condition that stands in for any sponsor (newInitialSigHash). */
  function NoSponsor(): Condition {
    SingleSig(P2PKH, Zeros(20), 0, 0, Compressed, EmptySignature())
  }

  /** intoInitialSighashAuth. */
  function InitialAuthorization(auth: Authorization): Authorization {
    match auth
    case StandardAuth(origin) => StandardAuth(ClearCondition(origin))
    case SponsoredAuth(origin, _) => SponsoredAuth(ClearCondition(origin), NoSponsor())
  }

  /** The octets of a serialized transaction before and after its authorization. */
  datatype Envelope = Envelope(head: bytes, tail: bytes)

  function Txid(c: Crypto, env: Envelope, auth: Authorization): Result<bytes, Error> {
    var encoded :- EncodeAuthorization(c, auth);
    Ok(c.txHash(env.head + encoded + env.tail))
  }

  /** The hash that signing and verification both start from. */
  function SignBegin(c: Crypto, env: Envelope, auth: Authorization): Result<bytes, Error> {
    Txid(c, env, InitialAuthorization(auth))
  }

  function VerifyTransaction(c: Crypto, env: Envelope, auth: Authorization): Result<bytes, Error> {
    var initial :- SignBegin(c, env, auth);
    VerifyOrigin(c, auth, initial)
  }

  function SetFee(auth: Authorization, amount: nat): Authorization {
    match auth
    case StandardAuth(origin) => StandardAuth(origin.(fee := amount))
    case SponsoredAuth(origin, sponsor) => SponsoredAuth(origin, sponsor.(fee := amount))
  }

  function GetFee(auth: Authorization): nat {
    match auth
    case StandardAuth(origin) => origin.fee
    case SponsoredAuth(_, sponsor) => sponsor.fee
  }

  function SetSponsorNonce(auth: Authorization, nonce: nat): Authorization
    requires auth.SponsoredAuth?
  {
    auth.(sponsor := auth.sponsor.(nonce := nonce))
  }

  function SetSponsor(auth: Authorization, sponsor: Condition): Authorization
    requires auth.SponsoredAuth?
  {
    auth.(sponsor := sponsor)
  }

  // ----- what the initial hash depends on

  /** The parts of a condition that are fixed before anyone signs. */
  predicate SameAccount(a: Condition, b: Condition) {
    match (a, b)
    case (SingleSig(m1, s1, _, _, e1, _), SingleSig(m2, s2, _, _, e2, _)) => m1 == m2 && s1 == s2 && e1 == e2
    case (MultiSig(m1, s1, _, _, _, r1), MultiSig(m2, s2, _, _, _, r2)) => m1 == m2 && s1 == s2 && r1 == r2
    case _ => false
  }

  /**
   Two authorizations start from the same cleared form exactly when they are of the same
   type and charge the same account; fees, nonces, signatures and sponsors play no part.
   */
  lemma InitialFormIsTheAccount(a: Authorization, b: Authorization)
    ensures InitialAuthorization(a) == InitialAuthorization(b)
            <==> a.Type() == b.Type() && SameAccount(a.origin, b.origin)
    ensures InitialAuthorization(InitialAuthorization(a)) == InitialAuthorization(a)
  {
  }

  /** The cleared form of an encodable transaction always has a hash, since no public key is left in it. */
  lemma SignBeginSucceeds(c: Crypto, env: Envelope, auth: Authorization)
    ensures SignBegin(c, env, auth).Ok?
    ensures c.Lawful() ==> |SignBegin(c, env, auth).value| == 32
  {
  }

  predicate AllZero(b: bytes) {
    forall i :: 0 <= i < |b| ==> b[i] == 0
  }

  lemma {:induction false} ZeroOctets(n: nat)
    ensures AllZero(Zeros(n)) && AllZero(ToBE(0, n)) && Pow(256, n) > 0
  {
    if n > 0 {
      ZeroOctets(n - 1);
    }
  }

  /** A header without fee and nonce is the mode, the signer and sixteen zeros. */
  lemma ClearedHeader(cond: Condition)
    requires |cond.signer| == 20 && cond.nonce == 0 && cond.fee == 0
    ensures var h := EncodeHeader(cond);
            |h| == 37 && h[0] == ModeCode(cond.mode) && h[1..21] == cond.signer && AllZero(h[21..])
  {
    hide IntToBytes, Pow, ToBE, ModeCode;
    ZeroOctets(8);
    IntToBytesExact(0, 8);
  }

  /**
   The octets of a cleared condition: mode and signer, zeros for nonce and fee, and then the kind of
   key and 65 zeros, or four zeros for the number of fields and the number of signatures.
   */
  lemma ClearedCondition(c: Crypto, cond: Condition)
    requires |cond.signer| == 20
    ensures var r := EncodeCondition(c, ClearCondition(cond));
            && r.Ok?
            && var e := r.value;
            && |e| == (if cond.SingleSig? then 103 else 43)
            && e[0] == ModeCode(cond.mode) && e[1..21] == cond.signer && AllZero(e[21..37])
            && (cond.SingleSig? ==> e[37] == (if cond.keyEncoding == Compressed then 0 else 1) && AllZero(e[38..]))
            && (cond.MultiSig? ==>
                  && AllZero(e[37..41])
                  && e[41] == cond.signaturesRequired / 256 % 256 && e[42] == cond.signaturesRequired % 256)
  {
    hide IntToBytes, Pow, ToBE, ModeCode, EncodeHeader, UInt16BE, Zeros;
    var cleared := ClearCondition(cond);
    ClearedHeader(cleared);
    ZeroOctets(SIGNATURE_LENGTH);
    ZeroOctets(4);
    IntToBytesExact(0, 4);
    var h, e := EncodeHeader(cleared), EncodeCondition(c, cleared).value;
    if cond.MultiSig? {
      RequiredOctets(cond.signaturesRequired);
      assert EncodeFields(c, []) == Ok([]);
      assert e == h + (IntToBytes(0, 4) + UInt16BE(cond.signaturesRequired));
    }
    assert e[1..21] == h[1..21] && e[21..37] == h[21..];
  }

  lemma RequiredOctets(required: nat)
    ensures UInt16BE(required) == [required / 256 % 256, required % 256]
  {
  }

  /** The sponsor that stands in for any other is 103 zeros. */
  lemma NoSponsorIsZeros(c: Crypto)
    ensures var r := EncodeCondition(c, NoSponsor()); r.Ok? && |r.value| == 103 && AllZero(r.value)
  {
    hide IntToBytes, Pow, ToBE, EncodeHeader, Zeros, EncodeCondition, AllZero;
    ClearedCondition(c, NoSponsor());
    assert ClearCondition(NoSponsor()) == NoSponsor();
    ZeroOctets(20);
    var e := EncodeCondition(c, NoSponsor()).value;
    ZeroParts(e);
  }

  lemma ZeroParts(e: bytes)
    requires |e| == 103 && e[0] == 0 && e[37] == 0
    ensures AllZero(e[1..21]) && AllZero(e[21..37]) && AllZero(e[38..]) ==> AllZero(e)
  {
    if AllZero(e[1..21]) && AllZero(e[21..37]) && AllZero(e[38..]) {
      forall i | 0 <= i < |e|
        ensures e[i] == 0
      {
        assert 1 <= i < 21 ==> e[i] == e[1..21][i - 1];
        assert 21 <= i < 37 ==> e[i] == e[21..37][i - 21];
        assert 38 <= i ==> e[i] == e[38..][i - 38];
      }
    }
  }

  // ----- setters

  /** The fee is the origin's, or the sponsor's in a sponsored transaction; setting it changes nothing else. */
  lemma FeeIsThePayers(auth: Authorization, amount: nat)
    ensures var after := SetFee(auth, amount);
            && GetFee(after) == amount
            && SetFee(after, GetFee(auth)) == auth
            && (auth.StandardAuth? ==> GetFee(auth) == auth.origin.fee)
            && (auth.SponsoredAuth? ==> after.SponsoredAuth? && after.origin == auth.origin)
  {
  }

  /** The sponsor's nonce and condition are set alone, and the last setting counts. */
  lemma SponsorIsSetAlone(auth: Authorization, sponsor: Condition, nonce: nat)
    requires auth.SponsoredAuth?
    ensures SetSponsor(auth, sponsor) == SponsoredAuth(auth.origin, sponsor)
    ensures var after := SetSponsorNonce(auth, nonce);
            after.sponsor.nonce == nonce && SetSponsorNonce(after, auth.sponsor.nonce) == auth
  {
  }

  // ----- the sponsor overlay

  datatype Update =
    | FeeUpdate(amount: nat)
    | SponsorUpdate(sponsor: Condition)
    | SponsorNonceUpdate(nonce: nat)

  function Apply(auth: Authorization, u: Update): (r: Authorization)
    requires auth.SponsoredAuth?
    ensures r.SponsoredAuth?
  {
    match u
    case FeeUpdate(amount) => SetFee(auth, amount)
    case SponsorUpdate(sponsor) => SetSponsor(auth, sponsor)
    case SponsorNonceUpdate(nonce) => SetSponsorNonce(auth, nonce)
  }

  function ApplyAll(auth: Authorization, updates: seq<Update>): (r: Authorization)
    requires auth.SponsoredAuth?
    ensures r.SponsoredAuth?
    decreases |updates|
  {
    if updates == [] then auth else ApplyAll(Apply(auth, updates[0]), updates[1..])
  }

  /**
   Whatever the sponsor sets, and however often, the origin keeps its condition, its
   initial hash and its verdict.
   */
  lemma {:induction false} SponsorNeverDisturbsOrigin(c: Crypto, env: Envelope, auth: Authorization,
                                                      updates: seq<Update>)
    requires auth.SponsoredAuth?
    ensures var after := ApplyAll(auth, updates);
            && after.origin == auth.origin
            && SignBegin(c, env, after) == SignBegin(c, env, auth)
            && VerifyTransaction(c, env, after) == VerifyTransaction(c, env, auth)
    decreases |updates|
  {
    hide EncodeAuthorization, Verify;
    if updates != [] {
      SponsorNeverDisturbsOrigin(c, env, Apply(auth, updates[0]), updates[1..]);
    }
  }
}

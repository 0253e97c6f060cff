/**
 The mutable side of signing: a transaction, the signer that walks over it keeping the
 current hash, and the pass of builders.ts that drives them. Each method is proved to do
 what the functions of module Signing say.
 */
module TransactionSigner {
  import opened Results
  import opened Bytes
  import opened Keys
  import opened Authorization
  import opened Transactions
  import opened Signing

  class FunaiTransaction {
    const env: Envelope
    var auth: Authorization

    constructor (env: Envelope, auth: Authorization)
      ensures this.env == env && this.auth == auth
    {
      this.env := env;
      this.auth := auth;
    }

    /** signAndAppend on a multi-signature origin. */
    method SignNextOrigin(c: Crypto, sigHash: bytes, key: bytes) returns (r: Result<bytes, Error>)
      requires auth.origin.MultiSig?
      modifies this`auth
      ensures var signed := SigningStepOf(c, old(auth).origin, Standard)(sigHash, key);
              if signed.Err? then r == Err(signed.error) && auth == old(auth)
              else if |signed.value.signature| != SIGNATURE_LENGTH then r == Err(InvalidSignature) && auth == old(auth)
              else && r == Ok(signed.value.nextSigHash)
                   && auth == WithField(old(auth), SignatureField(EncodingOfPrivateKey(key), signed.value.signature))
    {
      hide NextSignature;
      var signed := NextSignature(c, sigHash, Standard, auth.origin.fee, auth.origin.nonce, key);
      if signed.Err? {
        return Err(signed.error);
      }
      if |signed.value.signature| != SIGNATURE_LENGTH {
        return Err(InvalidSignature);
      }
      auth := WithField(auth, SignatureField(EncodingOfPrivateKey(key), signed.value.signature));
      r := Ok(signed.value.nextSigHash);
    }

    method AppendPubkey(publicKey: bytes)
      requires auth.origin.MultiSig?
      modifies this`auth
      ensures auth == WithField(old(auth), PublicKeyField(EncodingOfPublicKey(publicKey), publicKey))
    {
      auth := WithField(auth, PublicKeyField(EncodingOfPublicKey(publicKey), publicKey));
    }
  }

  function WithField(auth: Authorization, f: Field): Authorization
    requires auth.origin.MultiSig?
  {
    WithFields(auth, [f])
  }

  function WithFields(auth: Authorization, fields: seq<Field>): Authorization
    requires auth.origin.MultiSig?
  {
    auth.(origin := auth.origin.(fields := auth.origin.fields + fields))
  }

  class TransactionSigner {
    const transaction: FunaiTransaction
    var sigHash: bytes

    constructor (transaction: FunaiTransaction, sigHash: bytes)
      ensures this.transaction == transaction && this.sigHash == sigHash
    {
      this.transaction := transaction;
      this.sigHash := sigHash;
    }

    /** signOrigin or appendOrigin, according to whether somebody present holds the key. */
    method SignOrAppendOrigin(c: Crypto, signerKeys: seq<bytes>, publicKey: bytes) returns (r: Result<(), Error>)
      requires transaction.auth.origin.MultiSig?
      modifies this`sigHash, transaction`auth
      ensures var before := old(transaction.auth);
              var p := SignOrAppend(SessionOf(c, before.origin, signerKeys), publicKey, old(sigHash),
                                    CountSignatures(before.origin.fields));
              if p.Err? then r == Err(p.error) && transaction.auth == before && sigHash == old(sigHash)
              else r == Ok(()) && transaction.auth == WithFields(before, p.value.fields) && sigHash == p.value.sigHash
    {
      hide SigningStepOf, FindSigner, CountSignatures;
      var cond := transaction.auth.origin;
      var signerKey := FindSigner(PublicKeyFunctionOf(c), signerKeys, publicKey);
      if signerKey.Err? {
        return Err(signerKey.error);
      }
      match signerKey.value {
      case None =>
        transaction.AppendPubkey(publicKey);
      case Some(key) =>
        if cond.mode.IsSequentialMultiSig() && CountSignatures(cond.fields) >= cond.signaturesRequired {
          return Err(OriginWouldHaveTooManySignatures);
        }
        var next := transaction.SignNextOrigin(c, sigHash, key);
        if next.Err? {
          return Err(next.error);
        }
        if cond.mode.IsSequentialMultiSig() {
          sigHash := next.value;
        }
      }
      r := Ok(());
    }
  }

  /** The loop over existing fields in the signer's constructor. */
  method ReplaySigHash(step: VerificationStep, chained: bool, fields: seq<Field>, initial: bytes)
    returns (r: Result<bytes, Error>)
    ensures r == Resume(step, chained, fields, initial)
  {
    var sigHash := initial;
    assert fields[0..] == fields;
    for i := 0 to |fields|
      invariant Resume(step, chained, fields, initial) == Resume(step, chained, fields[i..], sigHash)
    {
      assert fields[i..][1..] == fields[i + 1..];
      if fields[i].SignatureField? {
        var v := step(sigHash, Compressed, fields[i].signature);
        if v.Err? {
          return Err(v.error);
        }
        if chained {
          sigHash := v.value.nextSigHash;
        }
      }
    }
    r := Ok(sigHash);
  }

  method NewSigner(c: Crypto, transaction: FunaiTransaction) returns (r: Result<TransactionSigner, Error>)
    ensures var start := SignerStart(c, transaction.env, transaction.auth);
            if start.Err? then r == Err(start.error)
            else r.Ok? && fresh(r.value) && r.value.transaction == transaction && r.value.sigHash == start.value
  {
    hide SignBegin, Resume, VerificationStepOf, CountSignatures;
    var auth := transaction.auth;
    var initial := SignBegin(c, transaction.env, auth);
    if initial.Err? {
      return Err(initial.error);
    }
    var sigHash := initial.value;
    if auth.origin.MultiSig? {
      if CountSignatures(auth.origin.fields) >= auth.origin.signaturesRequired {
        return Err(MoreSignaturesThanExpected);
      }
      var resumed := ReplaySigHash(VerificationStepOf(c, auth.origin, auth.Type()),
                                   !auth.origin.mode.IsNonSequentialMultiSig(), auth.origin.fields, sigHash);
      if resumed.Err? {
        return Err(resumed.error);
      }
      sigHash := resumed.value;
    }
    var signer := new TransactionSigner(transaction, sigHash);
    r := Ok(signer);
  }

  /** A pass whose first fields have already been added. */
  function AfterFields(fields: seq<Field>, r: Result<Progress, Error>): Result<Progress, Error> {
    match r
    case Ok(p) => Ok(p.(fields := fields + p.fields))
    case Err(_) => r
  }

  lemma OneStepOfPass(s: Session, publicKeys: seq<bytes>, sigHash: bytes, numSigs: nat, done: seq<Field>)
    requires publicKeys != []
    ensures var first := SignOrAppend(s, publicKeys[0], sigHash, numSigs);
            AfterFields(done, SignAll(s, publicKeys, sigHash, numSigs)) ==
            if first.Err? then Err(first.error)
            else AfterFields(done + first.value.fields,
                             SignAll(s, publicKeys[1..], first.value.sigHash,
                                     numSigs + CountSignatures(first.value.fields)))
  {
    hide SignOrAppend;
    var first := SignOrAppend(s, publicKeys[0], sigHash, numSigs);
    if first.Ok? {
      var rest := SignAll(s, publicKeys[1..], first.value.sigHash, numSigs + CountSignatures(first.value.fields));
      if rest.Ok? {
        assert done + (first.value.fields + rest.value.fields) == done + first.value.fields + rest.value.fields;
      }
    }
  }

  lemma NoFieldsYet(r: Result<Progress, Error>)
    ensures AfterFields([], r) == r
  {
    if r.Ok? {
      assert [] + r.value.fields == r.value.fields;
    }
  }

  /** The loop over the public keys: the transaction grows field by field. */
  method SignInOrder(c: Crypto, signer: TransactionSigner, pubs: seq<bytes>, signerKeys: seq<bytes>)
    returns (r: Result<(), Error>)
    requires signer.transaction.auth.origin.MultiSig?
    modifies signer`sigHash, signer.transaction`auth
    ensures var before := old(signer.transaction.auth);
            var p := SignAll(SessionOf(c, before.origin, signerKeys), pubs, old(signer.sigHash),
                             CountSignatures(before.origin.fields));
            && (p.Err? ==> r == Err(p.error))
            && (p.Ok? ==> && r == Ok(())
                          && signer.transaction.auth == WithFields(before, p.value.fields)
                          && signer.sigHash == p.value.sigHash)
    ensures exists added :: signer.transaction.auth == WithFields(old(signer.transaction.auth), added)
  {
    hide SignAll, SignOrAppend, SigningStepOf, CountSignatures;
    ghost var before := signer.transaction.auth;
    ghost var s := SessionOf(c, before.origin, signerKeys);
    ghost var all := SignAll(s, pubs, signer.sigHash, CountSignatures(before.origin.fields));
    ghost var done: seq<Field> := [];
    NoFieldsYet(all);
    assert pubs[0..] == pubs && before.origin.fields + done == before.origin.fields;
    for i := 0 to |pubs|
      invariant signer.transaction.auth == WithFields(before, done)
      invariant all == AfterFields(done, SignAll(s, pubs[i..], signer.sigHash,
                                                 CountSignatures(before.origin.fields + done)))
    {
      OneStepOfPass(s, pubs[i..], signer.sigHash, CountSignatures(before.origin.fields + done), done);
      assert pubs[i..][1..] == pubs[i + 1..];
      assert SessionOf(c, signer.transaction.auth.origin, signerKeys) == s by {
        SameSession(c, signer.transaction.auth.origin, before.origin, signerKeys);
      }
      ghost var p := SignOrAppend(s, pubs[i], signer.sigHash, CountSignatures(before.origin.fields + done));
      var step := signer.SignOrAppendOrigin(c, signerKeys, pubs[i]);
      if step.Err? {
        return Err(step.error);
      }
      CountAppended(before.origin.fields + done, p.value.fields);
      assert before.origin.fields + done + p.value.fields == before.origin.fields + (done + p.value.fields);
      done := done + p.value.fields;
    }
    NothingLeft(s, signer.sigHash, CountSignatures(before.origin.fields + done), done);
    r := Ok(());
  }

  lemma NothingLeft(s: Session, sigHash: bytes, numSigs: nat, done: seq<Field>)
    ensures AfterFields(done, SignAll(s, [], sigHash, numSigs)) == Ok(Progress(done, sigHash))
  {
    assert done + [] == done;
  }

  lemma SameSession(c: Crypto, a: Condition, b: Condition, signerKeys: seq<bytes>)
    requires a.MultiSig? && b.MultiSig? && a.(fields := []) == b.(fields := [])
    ensures SessionOf(c, a, signerKeys) == SessionOf(c, b, signerKeys)
  {
  }

  /**
   On success the transaction carries exactly the authorization that SignAppend describes. On
   failure it may have grown by some fields, and nothing else has changed.
   */
  method MutatingSignAppendMultiSig(c: Crypto, transaction: FunaiTransaction, publicKeys: seq<bytes>,
                                    signerKeys: seq<bytes>, address: Option<bytes>)
    returns (r: Result<bytes, Error>)
    modifies transaction`auth
    ensures var signed := SignAppend(c, transaction.env, old(transaction.auth), publicKeys, signerKeys, address);
            && (signed.Err? ==> r == Err(signed.error))
            && (signed.Ok? ==> r == Ok(signed.value.sigHash) && transaction.auth == signed.value.auth)
    ensures r.Err? ==> || transaction.auth == old(transaction.auth)
                       || (&& old(transaction.auth).origin.MultiSig?
                           && exists added :: transaction.auth == WithFields(old(transaction.auth), added))
  {
    hide SignerStart, PublicKeysToSign, SignAll, CountSignatures, SigningStepOf;
    if transaction.auth.origin.SingleSig? {
      return Err(NotMultiSig);
    }
    var signer := NewSigner(c, transaction);
    if signer.Err? {
      return Err(signer.error);
    }
    var pubs := PublicKeysToSign(c, transaction.auth.origin, publicKeys, address);
    if pubs.Err? {
      return Err(pubs.error);
    }
    var signed := SignInOrder(c, signer.value, pubs.value, signerKeys);
    if signed.Err? {
      return Err(signed.error);
    }
    r := Ok(signer.value.sigHash);
  }
}

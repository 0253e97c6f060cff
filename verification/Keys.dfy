/**
 Keys, addresses and the cryptographic primitives the transaction code calls
 (packages/transactions/src/keys.ts, utils.ts and wire/helpers.ts).
 */
module Keys {
  import opened Results
  import opened Bytes

  datatype KeyEncoding = Compressed | Uncompressed {
    function Code(): byte {
      if Compressed? then 0 else 1
    }
  }

  datatype HashMode = P2PKH | P2SH | P2WPKH | P2WSH | P2SHNonSequential | P2WSHNonSequential {
    predicate IsSequentialMultiSig() {
      P2SH? || P2WSH?
    }

    predicate IsNonSequentialMultiSig() {
      P2SHNonSequential? || P2WSHNonSequential?
    }

    predicate IsMultiSig() {
      IsSequentialMultiSig() || IsNonSequentialMultiSig()
    }

    predicate NeedsCompressedKeys() {
      P2WPKH? || P2WSH? || P2WSHNonSequential?
    }
  }

  datatype Error =
    | InvalidPrivateKey
    | InvalidSignature
    | InvalidSignatureHashLength
    | InvalidNumberOfKeys
    | KeysMustBeCompressed
    | TooManyKeysForAddress
    | InvalidBytes
    | TooManySignatures
    | IncorrectNumberOfSignatures
    | UncompressedKeysNotAllowed
    | SignerHashMismatch
    | NotMultiSig
    | MoreSignaturesThanExpected
    | OriginWouldHaveTooManySignatures
    | NoMatchingAddress
    | SponsorOfStandardTransaction
    | OriginAfterSponsor
    | InvalidPublicKey
    | ParseError

  /** The primitives, as total functions; `None` is an exception. */
  datatype Crypto = Crypto(
    txHash: bytes -> bytes,
    hash160: bytes -> bytes,
    sha256: bytes -> bytes,
    secretInRange: bytes -> bool,
    publicKeyOf: (bytes, KeyEncoding) -> bytes,
    sign: (bytes, bytes) -> bytes,
    recover: (bytes, bytes, KeyEncoding) -> Option<bytes>,
    compress: bytes -> Option<bytes>,
    uncompress: bytes -> Option<bytes>)
  {
    /** The signature scheme's laws: what is signed is recovered, in the key encoding asked for. */
    ghost predicate Lawful() {
      && (forall d: bytes :: |txHash(d)| == 32)
      && (forall s: bytes, h: bytes :: secretInRange(s) ==> |sign(s, h)| == 65)
      && (forall s: bytes, h: bytes, e: KeyEncoding :: secretInRange(s) ==>
            recover(h, sign(s, h), e) == Some(publicKeyOf(s, e)))
      && (forall s: bytes, e: KeyEncoding :: secretInRange(s) ==>
            (PublicKeyIsCompressed(publicKeyOf(s, e)) <==> e == Compressed))
      && (forall h: bytes, sig: bytes, e: KeyEncoding :: recover(h, sig, e).Some? ==>
            (PublicKeyIsCompressed(recover(h, sig, e).value) <==> e == Compressed))
    }
  }

  /** A key is taken to be compressed unless it starts with the octet 04. */
  predicate PublicKeyIsCompressed(key: bytes) {
    key == [] || key[0] != 4
  }

  function EncodingOfPublicKey(key: bytes): KeyEncoding {
    if PublicKeyIsCompressed(key) then Compressed else Uncompressed
  }

  /** Private keys are 32 octets, or 33 with a trailing 01 when the public key is to be compressed. */
  predicate IsPrivateKey(c: Crypto, key: bytes) {
    && (|key| == 32 || (|key| == 33 && key[32] == 1))
    && c.secretInRange(key[..32])
  }

  function EncodingOfPrivateKey(key: bytes): KeyEncoding {
    if |key| == 33 then Compressed else Uncompressed
  }

  function PrivateKeyToPublic(c: Crypto, key: bytes): Result<bytes, Error> {
    if IsPrivateKey(c, key) then Ok(c.publicKeyOf(key[..32], EncodingOfPrivateKey(key)))
    else Err(InvalidPrivateKey)
  }

  /** A secret stands for the uncompressed public key, and with an octet 01 after it for the compressed one. */
  lemma PrivateKeyForms(c: Crypto, secret: bytes)
    requires |secret| == 32
    ensures c.secretInRange(secret) ==>
              && PrivateKeyToPublic(c, secret) == Ok(c.publicKeyOf(secret, Uncompressed))
              && PrivateKeyToPublic(c, secret + [1]) == Ok(c.publicKeyOf(secret, Compressed))
    ensures !c.secretInRange(secret) ==>
              PrivateKeyToPublic(c, secret).Err? && PrivateKeyToPublic(c, secret + [1]).Err?
  {
    assert secret[..32] == secret && (secret + [1])[..32] == secret;
  }

  /** Nothing else is a private key. */
  lemma OnlyPrivateKeyForms(c: Crypto, key: bytes)
    requires PrivateKeyToPublic(c, key).Ok?
    ensures |key| == 32 || (|key| == 33 && key == key[..32] + [1])
  {
  }

  // ----- addresses

  function KeyPushes(keys: seq<bytes>): Result<bytes, Error> {
    if keys == [] then Ok([])
    else if |keys[0]| > 255 then Err(InvalidBytes)
    else
      var rest :- KeyPushes(keys[1..]);
      Ok([|keys[0]|] + keys[0] + rest)
  }

  function RedeemScript(numSigs: nat, keys: seq<bytes>): Result<bytes, Error> {
    if numSigs > 15 || |keys| > 15 then Err(TooManyKeysForAddress)
    else
      var pushes :- KeyPushes(keys);
      Ok([80 + numSigs] + pushes + [80 + |keys|, 174])
  }

  /** The hash160 of addressFromPublicKeys; the address version plays no part in it. */
  function AddressHash(c: Crypto, mode: HashMode, numSigs: nat, keys: seq<bytes>): Result<bytes, Error> {
    if keys == [] then Err(InvalidNumberOfKeys)
    else if (mode.P2PKH? || mode.P2WPKH?) && (|keys| != 1 || numSigs != 1) then Err(InvalidNumberOfKeys)
    else if mode.NeedsCompressedKeys() && exists k :: k in keys && !PublicKeyIsCompressed(k) then
      Err(KeysMustBeCompressed)
    else
      match mode
      case P2PKH => Ok(c.hash160(keys[0]))
      case P2WPKH =>
        var keyHash := c.hash160(keys[0]);
        Ok(c.hash160([0, |keyHash| % 256] + keyHash))
      case P2SH | P2SHNonSequential =>
        var script :- RedeemScript(numSigs, keys);
        Ok(c.hash160(script))
      case P2WSH | P2WSHNonSequential =>
        var script :- RedeemScript(numSigs, keys);
        var digest := c.sha256(script);
        if |digest| > 255 then Err(InvalidBytes) else Ok(c.hash160([0, |digest|] + digest))
  }
}

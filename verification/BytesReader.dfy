/**
 The cursor of BytesReader.ts and the deserializers that advance it
 (authorization.ts and wire/serialization.ts). Each one is proved to compute the
 decoding function of the same octets and to leave the cursor where that function says.
 */
module BytesReader {
  import opened Results
  import opened Bytes
  import opened HexCodec
  import opened Keys
  import opened Authorization
  import opened AuthorizationWire

  class BytesReader {
    const source: bytes
    var consumed: nat

    constructor (octets: bytes)
      ensures source == octets && consumed == 0
    {
      source := octets;
      consumed := 0;
    }

    /** Never fails: past the end the view is short, and the cursor advances all the same. */
    method ReadBytes(length: nat) returns (view: bytes)
      modifies this
      ensures view == Slice(source, old(consumed), length)
      ensures consumed == old(consumed) + length
    {
      view := source[Min(consumed, |source|)..Min(consumed + length, |source|)];
      consumed := consumed + length;
    }

    /** readBigUIntBE: a big-endian number of any width. */
    method ReadBigUIntBE(length: nat) returns (r: Result<nat, Error>)
      modifies this
      ensures r == DecodeInt(Slice(source, old(consumed), length))
      ensures consumed == old(consumed) + length
    {
      var view := ReadBytes(length);
      r := DecodeInt(view);
    }
  }

  /** The outcome of reading: the function's value and cursor, or its error. */
  ghost predicate Agrees<T>(spec: Result<Parsed<T>, Error>, r: Result<T, Error>, consumed: nat) {
    match spec
    case Ok(p) => r == Ok(p.value) && consumed == p.at
    case Err(e) => r == Err(e)
  }

  /** Writing a number in n octets and reading them back, wherever they stand. */
  method ReadBack(v: nat, n: nat, before: bytes, after: bytes) returns (r: Result<nat, Error>)
    requires n >= 1 && v < Pow(256, n)
    ensures r == Ok(v)
  {
    hide IntToBytes, BigIntOf, Pow;
    IntToBytesExact(v, n);
    ReadBackInt(v, n);
    StandsBetween(before, IntToBytes(v, n), after);
    var reader := new BytesReader(before + IntToBytes(v, n) + after);
    var skipped := reader.ReadBytes(|before|);
    r := reader.ReadBigUIntBE(n);
  }

  method DeserializeMessageSignature(reader: BytesReader) returns (r: Result<bytes, Error>)
    modifies reader
    ensures Agrees(DecodeSignature(reader.source, old(reader.consumed)), r, reader.consumed)
  {
    var b := reader.ReadBytes(SIGNATURE_LENGTH);
    r := if |b| != SIGNATURE_LENGTH then Err(InvalidSignature) else Ok(b);
  }

  method DeserializePublicKey(reader: BytesReader) returns (r: Result<bytes, Error>)
    modifies reader
    ensures Agrees(DecodePublicKey(reader.source, old(reader.consumed)), r, reader.consumed)
  {
    var id := reader.ReadBytes(1);
    var keyLength := if id == [4] then 64 else 32;
    var rest := reader.ReadBytes(keyLength);
    r := if id == [] then Err(ParseError) else Ok(id + rest);
  }

  method DeserializeAuthField(c: Crypto, reader: BytesReader) returns (r: Result<Field, Error>)
    modifies reader
    ensures Agrees(DecodeField(c, reader.source, old(reader.consumed)), r, reader.consumed)
  {
    var tag := reader.ReadBytes(1);
    if tag == [0] || tag == [1] {
      var k := DeserializePublicKey(reader);
      if k.Err? {
        return Err(k.error);
      }
      if tag == [0] {
        return Ok(PublicKeyField(Compressed, k.value));
      }
      var key := c.uncompress(k.value);
      return if key.None? then Err(InvalidPublicKey) else Ok(PublicKeyField(Uncompressed, key.value));
    }
    if tag == [2] || tag == [3] {
      var sig := DeserializeMessageSignature(reader);
      if sig.Err? {
        return Err(sig.error);
      }
      return Ok(SignatureField(if tag == [2] then Compressed else Uncompressed, sig.value));
    }
    r := Err(ParseError);
  }

  /** The loop of deserializeLPList over authorization fields. */
  method DeserializeFields(c: Crypto, reader: BytesReader, length: nat) returns (r: Result<seq<Field>, Error>)
    modifies reader
    ensures Agrees(DecodeFields(c, reader.source, old(reader.consumed), length), r, reader.consumed)
  {
    ghost var all := DecodeFields(c, reader.source, reader.consumed, length);
    var l: seq<Field> := [];
    NoFieldsBefore(all);
    for index := 0 to length
      invariant all == FieldsAfter(l, DecodeFields(c, reader.source, reader.consumed, length - index))
    {
      OneFieldMore(c, reader.source, reader.consumed, length - index, l);
      var field := DeserializeAuthField(c, reader);
      if field.Err? {
        return Err(field.error);
      }
      l := l + [field.value];
    }
    assert l + [] == l;
    r := Ok(l);
  }

  function FieldsAfter(l: seq<Field>, r: Result<Parsed<seq<Field>>, Error>): Result<Parsed<seq<Field>>, Error> {
    match r
    case Ok(p) => Ok(p.(value := l + p.value))
    case Err(_) => r
  }

  lemma NoFieldsBefore(r: Result<Parsed<seq<Field>>, Error>)
    ensures FieldsAfter([], r) == r
  {
    if r.Ok? {
      assert [] + r.value.value == r.value.value;
    }
  }

  lemma OneFieldMore(c: Crypto, s: bytes, p: nat, n: nat, l: seq<Field>)
    requires n > 0
    ensures var first := DecodeField(c, s, p);
            FieldsAfter(l, DecodeFields(c, s, p, n)) ==
            if first.Err? then Err(first.error)
            else FieldsAfter(l + [first.value.value], DecodeFields(c, s, first.value.at, n - 1))
  {
    hide DecodeField;
    var first := DecodeField(c, s, p);
    if first.Ok? {
      var rest := DecodeFields(c, s, first.value.at, n - 1);
      if rest.Ok? {
        assert l + ([first.value.value] + rest.value.value) == l + [first.value.value] + rest.value.value;
      }
    }
  }

  method DeserializeHeader(reader: BytesReader) returns (r: Result<Header, Error>)
    modifies reader
    ensures r == DecodeHeader(reader.source, old(reader.consumed))
    ensures r.Ok? ==> reader.consumed == old(reader.consumed) + HEADER_LENGTH
  {
    hide DecodeInt;
    var signer := reader.ReadBytes(20);
    var nonce := reader.ReadBigUIntBE(8);
    if nonce.Err? {
      return Err(nonce.error);
    }
    var fee := reader.ReadBigUIntBE(8);
    if fee.Err? {
      return Err(fee.error);
    }
    r := Ok(Header(signer, nonce.value, fee.value));
  }

  method DeserializeSingleSigSpendingCondition(mode: HashMode, reader: BytesReader)
    returns (r: Result<Condition, Error>)
    modifies reader
    ensures Agrees(DecodeSingleSig(mode, reader.source, old(reader.consumed)), r, reader.consumed)
  {
    hide DecodeHeader;
    var h := DeserializeHeader(reader);
    if h.Err? {
      return Err(h.error);
    }
    var code := reader.ReadBytes(1);
    var encoding := EncodingOf(code);
    if encoding.Err? {
      return Err(encoding.error);
    }
    if mode.P2WPKH? && encoding.value != Compressed {
      return Err(ParseError);
    }
    var sig := DeserializeMessageSignature(reader);
    if sig.Err? {
      return Err(sig.error);
    }
    r := Ok(SingleSig(mode, h.value.signer, h.value.nonce, h.value.fee, encoding.value, sig.value));
  }

  /** The loop that inspects the fields read; it throws at the 65536th signature. */
  method InspectFields(fields: seq<Field>) returns (haveUncompressed: bool, tooMany: bool)
    ensures tooMany <==> CountSignatures(fields) >= SIGNATURE_LIMIT
    ensures !tooMany ==> (haveUncompressed <==> HaveUncompressed(fields))
  {
    haveUncompressed, tooMany := false, false;
    var numSigs := 0;
    assert fields[0..] == fields;
    for i := 0 to |fields|
      invariant numSigs < SIGNATURE_LIMIT
      invariant numSigs + CountSignatures(fields[i..]) == CountSignatures(fields)
      invariant haveUncompressed <==> HaveUncompressed(fields[..i])
    {
      HaveUncompressedStep(fields, i);
      assert fields[i..][1..] == fields[i + 1..];
      match fields[i]
      case PublicKeyField(_, key) =>
        if !PublicKeyIsCompressed(key) {
          haveUncompressed := true;
        }
      case SignatureField(encoding, _) =>
        if encoding == Uncompressed {
          haveUncompressed := true;
        }
        numSigs := numSigs + 1;
        if numSigs == SIGNATURE_LIMIT {
          return haveUncompressed, true;
        }
    }
    assert fields[..|fields|] == fields;
  }

  method DeserializeMultiSigSpendingCondition(c: Crypto, mode: HashMode, reader: BytesReader)
    returns (r: Result<Condition, Error>)
    modifies reader
    ensures Agrees(DecodeMultiSig(c, mode, reader.source, old(reader.consumed)), r, reader.consumed)
  {
    hide DecodeHeader, DecodeFields, FromBE, HaveUncompressed, CountSignatures;
    var h := DeserializeHeader(reader);
    if h.Err? {
      return Err(h.error);
    }
    var count := reader.ReadBytes(4);
    var fields := DeserializeFields(c, reader, FromBE(count));
    if fields.Err? {
      return Err(fields.error);
    }
    var haveUncompressed, tooMany := InspectFields(fields.value);
    if tooMany {
      return Err(TooManySignatures);
    }
    var required := reader.ReadBytes(2);
    if haveUncompressed && (mode.P2WSH? || mode.P2WSHNonSequential?) {
      return Err(UncompressedKeysNotAllowed);
    }
    r := Ok(MultiSig(mode, h.value.signer, h.value.nonce, h.value.fee, fields.value, ReadUInt16BE(required)));
  }

  method DeserializeSpendingCondition(c: Crypto, reader: BytesReader) returns (r: Result<Condition, Error>)
    modifies reader
    ensures Agrees(DecodeCondition(c, reader.source, old(reader.consumed)), r, reader.consumed)
  {
    hide DecodeSingleSig, DecodeMultiSig, Slice;
    var code := reader.ReadBytes(1);
    var mode := ModeOf(code);
    if mode.Err? {
      return Err(mode.error);
    }
    if mode.value.P2PKH? || mode.value.P2WPKH? {
      r := DeserializeSingleSigSpendingCondition(mode.value, reader);
    } else {
      r := DeserializeMultiSigSpendingCondition(c, mode.value, reader);
    }
  }

  method DeserializeAuthorization(c: Crypto, reader: BytesReader) returns (r: Result<Authorization, Error>)
    modifies reader
    ensures Agrees(DecodeAuthorization(c, reader.source, old(reader.consumed)), r, reader.consumed)
  {
    hide DecodeCondition, Slice;
    var code := reader.ReadBytes(1);
    var at := AuthTypeOf(code);
    if at.Err? {
      return Err(at.error);
    }
    var origin := DeserializeSpendingCondition(c, reader);
    if origin.Err? {
      return Err(origin.error);
    }
    match at.value
    case Standard =>
      r := Ok(StandardAuth(origin.value));
    case Sponsored =>
      var sponsor := DeserializeSpendingCondition(c, reader);
      if sponsor.Err? {
        return Err(sponsor.error);
      }
      r := Ok(SponsoredAuth(origin.value, sponsor.value));
  }
}

/**
 The binary form of authorizations: serialization in authorization.ts and
 wire/serialization.ts, and deserialization over the cursor of BytesReader.ts.
 */
module AuthorizationWire {
  import opened Results
  import opened Bytes
  import opened HexCodec
  import opened Keys
  import opened Authorization

  // ----- serialization

  function ModeCode(mode: HashMode): byte {
    match mode
    case P2PKH => 0
    case P2SH => 1
    case P2WPKH => 2
    case P2WSH => 3
    case P2SHNonSequential => 5
    case P2WSHNonSequential => 7
  }

  function EncodeField(c: Crypto, f: Field): Result<bytes, Error> {
    match f
    case PublicKeyField(e, key) =>
      var compressed := c.compress(key);
      if compressed.None? then Err(InvalidPublicKey) else Ok([e.Code()] + compressed.value)
    case SignatureField(e, signature) =>
      Ok([2 + e.Code()] + signature)
  }

  function EncodeFields(c: Crypto, fields: seq<Field>): Result<bytes, Error> {
    if fields == [] then Ok([])
    else
      var first :- EncodeField(c, fields[0]);
      var rest :- EncodeFields(c, fields[1..]);
      Ok(first + rest)
  }

  /** What both kinds of condition start with. */
  function EncodeHeader(cond: Condition): bytes {
    [ModeCode(cond.mode)] + (cond.signer + (IntToBytes(cond.nonce, 8) + IntToBytes(cond.fee, 8)))
  }

  /** writeUInt16BE keeps the two low octets. */
  function UInt16BE(v: nat): bytes {
    [v / 256 % 256, v % 256]
  }

  function EncodeCondition(c: Crypto, cond: Condition): Result<bytes, Error> {
    match cond
    case SingleSig(_, _, _, _, keyEncoding, signature) =>
      Ok(EncodeHeader(cond) + ([keyEncoding.Code()] + signature))
    case MultiSig(_, _, _, _, fields, signaturesRequired) =>
      var encoded :- EncodeFields(c, fields);
      Ok(EncodeHeader(cond) + (IntToBytes(|fields|, 4) + (encoded + UInt16BE(signaturesRequired))))
  }

  function EncodeAuthorization(c: Crypto, auth: Authorization): Result<bytes, Error> {
    var origin :- EncodeCondition(c, auth.origin);
    match auth
    case StandardAuth(_) => Ok([auth.Type().Code()] + origin)
    case SponsoredAuth(_, sponsorCondition) =>
      var sponsor :- EncodeCondition(c, sponsorCondition);
      Ok([auth.Type().Code()] + (origin + sponsor))
  }

  // ----- deserialization, as a function of the octets and the cursor

  datatype Parsed<+T> = Parsed(value: T, at: nat)

  function Min(a: nat, b: nat): nat {
    if a < b then a else b
  }

  /** `subarray` clamps both ends to the source, so reads past the end are short. */
  function Slice(s: bytes, p: nat, n: nat): (b: bytes)
    ensures |b| <= n
  {
    s[Min(p, |s|)..Min(p + n, |s|)]
  }

  /** The octet of an enumeration, or no octet at the end of the source. */
  function AuthTypeOf(b: bytes): Result<AuthType, Error> {
    if b == [4] then Ok(Standard) else if b == [5] then Ok(Sponsored) else Err(ParseError)
  }

  function ModeOf(b: bytes): Result<HashMode, Error> {
    if b == [0] then Ok(P2PKH)
    else if b == [1] then Ok(P2SH)
    else if b == [2] then Ok(P2WPKH)
    else if b == [3] then Ok(P2WSH)
    else if b == [5] then Ok(P2SHNonSequential)
    else if b == [7] then Ok(P2WSHNonSequential)
    else Err(ParseError)
  }

  function EncodingOf(b: bytes): Result<KeyEncoding, Error> {
    if b == [0] then Ok(Compressed) else if b == [1] then Ok(Uncompressed) else Err(ParseError)
  }

  /** BigInt of no digits is a syntax error. */
  function DecodeInt(b: bytes): Result<nat, Error> {
    match BigIntOf(b)
    case Some(v) => Ok(v)
    case None => Err(ParseError)
  }

  function DecodePublicKey(s: bytes, p: nat): Result<Parsed<bytes>, Error> {
    var id := Slice(s, p, 1);
    if id == [] then Err(ParseError)
    else
      var n := if id[0] == 4 then 64 else 32;
      Ok(Parsed(id + Slice(s, p + 1, n), p + 1 + n))
  }

  function DecodeSignature(s: bytes, p: nat): Result<Parsed<bytes>, Error> {
    var b := Slice(s, p, SIGNATURE_LENGTH);
    if |b| != SIGNATURE_LENGTH then Err(InvalidSignature) else Ok(Parsed(b, p + SIGNATURE_LENGTH))
  }

  function DecodeField(c: Crypto, s: bytes, p: nat): Result<Parsed<Field>, Error> {
    var tag := Slice(s, p, 1);
    if tag == [0] then
      var k :- DecodePublicKey(s, p + 1);
      Ok(Parsed(PublicKeyField(Compressed, k.value), k.at))
    else if tag == [1] then
      var k :- DecodePublicKey(s, p + 1);
      var key := c.uncompress(k.value);
      if key.None? then Err(InvalidPublicKey) else Ok(Parsed(PublicKeyField(Uncompressed, key.value), k.at))
    else if tag == [2] || tag == [3] then
      var sig :- DecodeSignature(s, p + 1);
      Ok(Parsed(SignatureField(if tag == [2] then Compressed else Uncompressed, sig.value), sig.at))
    else Err(ParseError)
  }

  function DecodeFields(c: Crypto, s: bytes, p: nat, n: nat): Result<Parsed<seq<Field>>, Error>
    decreases n
  {
    if n == 0 then Ok(Parsed([], p))
    else
      var first :- DecodeField(c, s, p);
      var rest :- DecodeFields(c, s, first.at, n - 1);
      Ok(Parsed([first.value] + rest.value, rest.at))
  }

  datatype Header = Header(signer: bytes, nonce: nat, fee: nat)

  const HEADER_LENGTH := 20 + 8 + 8

  function DecodeHeader(s: bytes, p: nat): Result<Header, Error> {
    var nonce :- DecodeInt(Slice(s, p + 20, 8));
    var fee :- DecodeInt(Slice(s, p + 28, 8));
    Ok(Header(Slice(s, p, 20), nonce, fee))
  }

  function DecodeSingleSig(mode: HashMode, s: bytes, p: nat): Result<Parsed<Condition>, Error> {
    var h :- DecodeHeader(s, p);
    var encoding :- EncodingOf(Slice(s, p + HEADER_LENGTH, 1));
    if mode.P2WPKH? && encoding != Compressed then Err(ParseError)
    else
      var sig :- DecodeSignature(s, p + HEADER_LENGTH + 1);
      Ok(Parsed(SingleSig(mode, h.signer, h.nonce, h.fee, encoding, sig.value), sig.at))
  }

  /** readUInt16BE over a possibly short slice: a missing octet counts as zero. */
  function ReadUInt16BE(b: bytes): nat {
    (if |b| > 0 then 256 * b[0] as int else 0) + (if |b| > 1 then b[1] else 0)
  }

  function DecodeMultiSig(c: Crypto, mode: HashMode, s: bytes, p: nat): Result<Parsed<Condition>, Error> {
    var h :- DecodeHeader(s, p);
    var count := FromBE(Slice(s, p + HEADER_LENGTH, 4));
    var fields :- DecodeFields(c, s, p + HEADER_LENGTH + 4, count);
    if CountSignatures(fields.value) >= SIGNATURE_LIMIT then Err(TooManySignatures)
    else
      var required := ReadUInt16BE(Slice(s, fields.at, 2));
      if HaveUncompressed(fields.value) && (mode.P2WSH? || mode.P2WSHNonSequential?) then
        Err(UncompressedKeysNotAllowed)
      else Ok(Parsed(MultiSig(mode, h.signer, h.nonce, h.fee, fields.value, required), fields.at + 2))
  }

  function DecodeCondition(c: Crypto, s: bytes, p: nat): Result<Parsed<Condition>, Error> {
    var mode :- ModeOf(Slice(s, p, 1));
    if mode.P2PKH? || mode.P2WPKH? then DecodeSingleSig(mode, s, p + 1) else DecodeMultiSig(c, mode, s, p + 1)
  }

  function DecodeAuthorization(c: Crypto, s: bytes, p: nat): Result<Parsed<Authorization>, Error> {
    var at :- AuthTypeOf(Slice(s, p, 1));
    var origin :- DecodeCondition(c, s, p + 1);
    match at
    case Standard => Ok(Parsed(StandardAuth(origin.value), origin.at))
    case Sponsored =>
      var sponsor :- DecodeCondition(c, s, origin.at);
      Ok(Parsed(SponsoredAuth(origin.value, sponsor.value), sponsor.at))
  }

  // ----- the round trip

  /** The octets e stand in s at position p. */
  predicate StandsAt(s: bytes, p: nat, e: bytes) {
    p + |e| <= |s| && s[p..p + |e|] == e
  }

  lemma StandsApart(s: bytes, p: nat, a: bytes, b: bytes)
    requires StandsAt(s, p, a + b)
    ensures StandsAt(s, p, a) && StandsAt(s, p + |a|, b)
    ensures Slice(s, p, |a|) == a && Slice(s, p + |a|, |b|) == b
  {
    var ab := a + b;
    assert s[p..p + |ab|] == ab;
    assert s[p..p + |a|] == ab[..|a|] == a;
    assert s[p + |a|..p + |ab|] == ab[|a|..] == b;
  }

  predicate WellFormedField(c: Crypto, f: Field) {
    match f
    case PublicKeyField(e, key) =>
      var k := c.compress(key);
      && k.Some? && |k.value| == 33 && k.value[0] != 4
      && (e == Compressed ==> k.value == key)
      && (e == Uncompressed ==> c.uncompress(k.value) == Some(key))
    case SignatureField(_, signature) => |signature| == SIGNATURE_LENGTH
  }

  predicate WellFormedCondition(c: Crypto, cond: Condition) {
    && |cond.signer| == 20
    && cond.nonce < Pow(256, 8) && cond.fee < Pow(256, 8)
    && match cond
       case SingleSig(mode, _, _, _, keyEncoding, signature) =>
         && (mode.P2PKH? || (mode.P2WPKH? && keyEncoding == Compressed))
         && |signature| == SIGNATURE_LENGTH
       case MultiSig(mode, _, _, _, fields, _) =>
         && mode.IsMultiSig()
         && |fields| < Pow(256, 4) && CountSignatures(fields) < SIGNATURE_LIMIT
         && (forall f :: f in fields ==> WellFormedField(c, f))
         && (mode.P2WSH? || mode.P2WSHNonSequential? ==> !HaveUncompressed(fields))
  }

  predicate WellFormed(c: Crypto, auth: Authorization) {
    && WellFormedCondition(c, auth.origin)
    && (auth.SponsoredAuth? ==> WellFormedCondition(c, auth.sponsor))
  }

  /** What survives of a condition: two octets of the number of signatures. */
  function Carried(cond: Condition): Condition {
    match cond
    case SingleSig(_, _, _, _, _, _) => cond
    case MultiSig(_, _, _, _, _, required) => cond.(signaturesRequired := required % 0x1_0000)
  }

  function CarriedAuthorization(auth: Authorization): Authorization {
    match auth
    case StandardAuth(origin) => StandardAuth(Carried(origin))
    case SponsoredAuth(origin, sponsor) => SponsoredAuth(Carried(origin), Carried(sponsor))
  }

  lemma FieldRoundTrip(c: Crypto, f: Field, s: bytes, p: nat)
    requires WellFormedField(c, f)
    requires EncodeField(c, f).Ok? && StandsAt(s, p, EncodeField(c, f).value)
    ensures DecodeField(c, s, p) == Ok(Parsed(f, p + |EncodeField(c, f).value|))
  {
    var e := EncodeField(c, f).value;
    assert e == e[..1] + e[1..];
    StandsApart(s, p, e[..1], e[1..]);
    if f.PublicKeyField? {
      var k := e[1..];
      assert k == c.compress(f.key).value == [k[0]] + k[1..];
      StandsApart(s, p + 1, [k[0]], k[1..]);
    }
  }

  lemma {:induction false} FieldsRoundTrip(c: Crypto, fields: seq<Field>, s: bytes, p: nat)
    requires forall f :: f in fields ==> WellFormedField(c, f)
    requires EncodeFields(c, fields).Ok? && StandsAt(s, p, EncodeFields(c, fields).value)
    ensures DecodeFields(c, s, p, |fields|) == Ok(Parsed(fields, p + |EncodeFields(c, fields).value|))
  {
    hide EncodeField, DecodeField, WellFormedField;
    if fields != [] {
      assert WellFormedField(c, fields[0]);
      var first, rest := EncodeField(c, fields[0]).value, EncodeFields(c, fields[1..]).value;
      StandsApart(s, p, first, rest);
      FieldRoundTrip(c, fields[0], s, p);
      FieldsRoundTrip(c, fields[1..], s, p + |first|);
      assert fields == [fields[0]] + fields[1..];
    }
  }

  lemma HeaderSlices(s: bytes, p: nat, mode: byte, signer: bytes, nonce: bytes, fee: bytes)
    requires |signer| == 20 && |nonce| == 8 && |fee| == 8
    requires StandsAt(s, p, [mode] + (signer + (nonce + fee)))
    ensures Slice(s, p, 1) == [mode] && Slice(s, p + 1, 20) == signer
    ensures Slice(s, p + 21, 8) == nonce && Slice(s, p + 29, 8) == fee
  {
    StandsApart(s, p, [mode], signer + (nonce + fee));
    StandsApart(s, p + 1, signer, nonce + fee);
    StandsApart(s, p + 21, nonce, fee);
  }

  lemma ModeRoundTrip(mode: HashMode)
    ensures ModeOf([ModeCode(mode)]) == Ok(mode)
  {
  }

  lemma HeaderRoundTrip(cond: Condition, s: bytes, p: nat)
    requires |cond.signer| == 20 && cond.nonce < Pow(256, 8) && cond.fee < Pow(256, 8)
    requires StandsAt(s, p, EncodeHeader(cond))
    ensures |EncodeHeader(cond)| == 1 + HEADER_LENGTH
    ensures ModeOf(Slice(s, p, 1)) == Ok(cond.mode)
    ensures DecodeHeader(s, p + 1) == Ok(Header(cond.signer, cond.nonce, cond.fee))
  {
    hide IntToBytes, BigIntOf, Pow, ModeOf, ModeCode, Slice;
    ModeRoundTrip(cond.mode);
    IntToBytesExact(cond.nonce, 8);
    IntToBytesExact(cond.fee, 8);
    ReadBackInt(cond.nonce, 8);
    ReadBackInt(cond.fee, 8);
    HeaderSlices(s, p, ModeCode(cond.mode), cond.signer, IntToBytes(cond.nonce, 8), IntToBytes(cond.fee, 8));
  }

  /** Where mode, signer, nonce and fee stand in an encoded condition. */
  lemma HeaderLayout(cond: Condition)
    requires |cond.signer| == 20 && cond.nonce < Pow(256, 8) && cond.fee < Pow(256, 8)
    ensures var e := EncodeHeader(cond);
            && |e| == 37 && e[1..21] == cond.signer
            && e[0] == (if cond.mode == P2PKH || cond.mode == P2WPKH then 0 else 1)
                       + (if cond.mode in {P2WPKH, P2WSH, P2WSHNonSequential} then 2 else 0)
                       + (if cond.mode in {P2SHNonSequential, P2WSHNonSequential} then 4 else 0)
            && FromBE(e[21..29]) == cond.nonce && FromBE(e[29..]) == cond.fee
  {
    hide IntToBytes, Pow, FromBE;
    IntToBytesExact(cond.nonce, 8);
    IntToBytesExact(cond.fee, 8);
    var e := EncodeHeader(cond);
    assert e[0] == ModeCode(cond.mode);
    assert e[21..29] == IntToBytes(cond.nonce, 8) && e[29..] == IntToBytes(cond.fee, 8);
  }

  /** A field starts with 0 or 1 for a key, 2 or 3 for a signature; the odd ones are of uncompressed keys. */
  lemma FieldLayout(c: Crypto, f: Field)
    requires EncodeField(c, f).Ok?
    ensures var e := EncodeField(c, f).value;
            && e != []
            && e[0] == (if f.SignatureField? then 2 else 0) + (if f.encoding == Uncompressed then 1 else 0)
            && (if f.SignatureField? then e[1..] == f.signature else Some(e[1..]) == c.compress(f.key))
  {
  }

  /**
   What follows the header: the kind of key and the signature, or the number of fields in four
   octets, the fields, and the number of signatures in two.
   */
  lemma ConditionLayout(c: Crypto, cond: Condition)
    requires |cond.signer| == 20 && cond.nonce < Pow(256, 8) && cond.fee < Pow(256, 8)
    requires EncodeCondition(c, cond).Ok?
    ensures var e := EncodeCondition(c, cond).value;
            && |e| > 37 && e[..37] == EncodeHeader(cond)
            && (cond.SingleSig? ==>
                  && e[37] == (if cond.keyEncoding == Compressed then 0 else 1)
                  && e[38..] == cond.signature)
            && (cond.MultiSig? && |cond.fields| < Pow(256, 4) ==>
                  && |e| >= 43 && FromBE(e[37..41]) == |cond.fields|
                  && Ok(e[41..|e| - 2]) == EncodeFields(c, cond.fields)
                  && e[|e| - 2] == cond.signaturesRequired / 256 % 256 && e[|e| - 1] == cond.signaturesRequired % 256)
  {
    hide IntToBytes, Pow, FromBE, EncodeHeader, EncodeFields;
    HeaderLength(cond);
    var e, h := EncodeCondition(c, cond).value, EncodeHeader(cond);
    match cond
    case SingleSig(_, _, _, _, _, _) =>
      assert e[..37] == h && e[37..] == [cond.keyEncoding.Code()] + cond.signature;
    case MultiSig(_, _, _, _, fields, required) =>
      var count, body, n := IntToBytes(|fields|, 4), EncodeFields(c, fields).value, UInt16BE(required);
      IntToBytesExact(|fields|, 4);
      TwoOctets(required);
      assert e == h + (count + (body + n));
      if |count| == 4 {
        assert e[37..41] == count && e[41..|e| - 2] == body;
      }
      assert e[..37] == h;
  }

  lemma HeaderLength(cond: Condition)
    requires |cond.signer| == 20 && cond.nonce < Pow(256, 8) && cond.fee < Pow(256, 8)
    ensures |EncodeHeader(cond)| == 37
  {
    hide IntToBytes, Pow;
    IntToBytesExact(cond.nonce, 8);
    IntToBytesExact(cond.fee, 8);
  }

  /** An authorization is 4 and its origin, or 5, its origin and its sponsor. */
  lemma AuthorizationLayout(c: Crypto, auth: Authorization)
    requires EncodeAuthorization(c, auth).Ok?
    ensures var e := EncodeAuthorization(c, auth).value;
            && e != []
            && EncodeCondition(c, auth.origin).Ok?
            && (auth.StandardAuth? ==> e[0] == 4 && e[1..] == EncodeCondition(c, auth.origin).value)
            && (auth.SponsoredAuth? ==>
                  && e[0] == 5 && EncodeCondition(c, auth.sponsor).Ok?
                  && e[1..] == EncodeCondition(c, auth.origin).value + EncodeCondition(c, auth.sponsor).value)
  {
    hide EncodeCondition;
  }

  lemma SingleSigRoundTrip(c: Crypto, cond: Condition, s: bytes, p: nat)
    requires cond.SingleSig? && WellFormedCondition(c, cond)
    requires StandsAt(s, p, EncodeCondition(c, cond).value)
    ensures DecodeCondition(c, s, p) == Ok(Parsed(cond, p + |EncodeCondition(c, cond).value|))
  {
    hide IntToBytes, BigIntOf, Pow;
    StandsApart(s, p, EncodeHeader(cond), [cond.keyEncoding.Code()] + cond.signature);
    HeaderRoundTrip(cond, s, p);
    StandsApart(s, p + 1 + HEADER_LENGTH, [cond.keyEncoding.Code()], cond.signature);
  }

  lemma MultiSigRoundTrip(c: Crypto, cond: Condition, s: bytes, p: nat)
    requires cond.MultiSig? && WellFormedCondition(c, cond)
    requires EncodeCondition(c, cond).Ok? && StandsAt(s, p, EncodeCondition(c, cond).value)
    ensures DecodeCondition(c, s, p) == Ok(Parsed(Carried(cond), p + |EncodeCondition(c, cond).value|))
  {
    hide IntToBytes, BigIntOf, Pow, EncodeFields, DecodeFields, EncodeHeader, DecodeHeader, ModeOf, UInt16BE,
      ReadUInt16BE;
    var count, fields, required :=
      IntToBytes(|cond.fields|, 4), EncodeFields(c, cond.fields).value, UInt16BE(cond.signaturesRequired);
    StandsApart(s, p, EncodeHeader(cond), count + (fields + required));
    HeaderRoundTrip(cond, s, p);
    IntToBytesExact(|cond.fields|, 4);
    var q := p + 1 + HEADER_LENGTH;
    StandsApart(s, q, count, fields + required);
    StandsApart(s, q + 4, fields, required);
    TwoOctets(cond.signaturesRequired);
    FieldsRoundTrip(c, cond.fields, s, q + 4);
  }

  lemma TwoOctets(v: nat)
    ensures |UInt16BE(v)| == 2 && ReadUInt16BE(UInt16BE(v)) == v % 0x1_0000
  {
  }

  lemma ConditionRoundTrip(c: Crypto, cond: Condition, s: bytes, p: nat)
    requires WellFormedCondition(c, cond)
    requires EncodeCondition(c, cond).Ok? && StandsAt(s, p, EncodeCondition(c, cond).value)
    ensures DecodeCondition(c, s, p) == Ok(Parsed(Carried(cond), p + |EncodeCondition(c, cond).value|))
  {
    match cond
    case SingleSig(_, _, _, _, _, _) => SingleSigRoundTrip(c, cond, s, p);
    case MultiSig(_, _, _, _, _, _) => MultiSigRoundTrip(c, cond, s, p);
  }

  lemma {:induction false} WellFormedFieldsEncode(c: Crypto, fields: seq<Field>)
    requires forall f :: f in fields ==> WellFormedField(c, f)
    ensures EncodeFields(c, fields).Ok?
  {
    if fields != [] {
      assert WellFormedField(c, fields[0]);
      WellFormedFieldsEncode(c, fields[1..]);
    }
  }

  lemma WellFormedEncodes(c: Crypto, auth: Authorization)
    requires WellFormed(c, auth)
    ensures EncodeCondition(c, auth.origin).Ok?
    ensures auth.SponsoredAuth? ==> EncodeCondition(c, auth.sponsor).Ok?
    ensures EncodeAuthorization(c, auth).Ok?
  {
    hide IntToBytes, EncodeFields, WellFormedField, EncodeHeader;
    if auth.origin.MultiSig? {
      WellFormedFieldsEncode(c, auth.origin.fields);
    }
    if auth.SponsoredAuth? && auth.sponsor.MultiSig? {
      WellFormedFieldsEncode(c, auth.sponsor.fields);
    }
  }

  lemma AuthorizationStandsAt(c: Crypto, auth: Authorization, s: bytes, p: nat)
    requires WellFormed(c, auth)
    requires EncodeAuthorization(c, auth).Ok? && StandsAt(s, p, EncodeAuthorization(c, auth).value)
    ensures DecodeAuthorization(c, s, p) ==
            Ok(Parsed(CarriedAuthorization(auth), p + |EncodeAuthorization(c, auth).value|))
  {
    hide EncodeCondition, DecodeCondition, WellFormedCondition, Carried;
    WellFormedEncodes(c, auth);
    var origin := EncodeCondition(c, auth.origin).value;
    match auth
    case StandardAuth(_) =>
      StandsApart(s, p, [auth.Type().Code()], origin);
      ConditionRoundTrip(c, auth.origin, s, p + 1);
    case SponsoredAuth(_, sponsorCondition) =>
      var sponsor := EncodeCondition(c, sponsorCondition).value;
      StandsApart(s, p, [auth.Type().Code()], origin + sponsor);
      StandsApart(s, p + 1, origin, sponsor);
      ConditionRoundTrip(c, auth.origin, s, p + 1);
      ConditionRoundTrip(c, sponsorCondition, s, p + 1 + |origin|);
  }

  /**
   Decoding what was encoded, whatever follows it, gives the authorization back and leaves
   the cursor where the rest starts; only the numbers of required signatures lose what
   does not fit in two octets.
   */
  lemma AuthorizationRoundTrip(c: Crypto, auth: Authorization, before: bytes, after: bytes)
    requires WellFormed(c, auth)
    ensures EncodeAuthorization(c, auth).Ok?
    ensures var e := EncodeAuthorization(c, auth).value;
            DecodeAuthorization(c, before + e + after, |before|) ==
            Ok(Parsed(CarriedAuthorization(auth), |before| + |e|))
  {
    hide *;
    WellFormedEncodes(c, auth);
    var e := EncodeAuthorization(c, auth).value;
    StandsBetween(before, e, after);
    AuthorizationStandsAt(c, auth, before + e + after, |before|);
  }

  lemma StandsBetween(before: bytes, e: bytes, after: bytes)
    ensures StandsAt(before + e + after, |before|, e)
  {
  }

  lemma CarriedConditionEncodesAlike(c: Crypto, cond: Condition)
    ensures EncodeCondition(c, Carried(cond)) == EncodeCondition(c, cond)
  {
    hide IntToBytes, EncodeFields, UInt16BE;
    if cond.MultiSig? {
      OnlyTwoOctets(cond.signaturesRequired);
    }
  }

  lemma OnlyTwoOctets(v: nat)
    ensures UInt16BE(v % 0x1_0000) == UInt16BE(v)
  {
  }

  lemma CarriedEncodesAlike(c: Crypto, auth: Authorization)
    ensures EncodeAuthorization(c, CarriedAuthorization(auth)) == EncodeAuthorization(c, auth)
  {
    hide EncodeCondition, Carried;
    CarriedConditionEncodesAlike(c, auth.origin);
    if auth.SponsoredAuth? {
      CarriedConditionEncodesAlike(c, auth.sponsor);
    }
  }

  /** No encoding is a prefix of another, and only authorizations that differ in what is lost share one. */
  lemma EncodingIsPrefixFree(c: Crypto, a: Authorization, b: Authorization, x: bytes, y: bytes)
    requires WellFormed(c, a) && WellFormed(c, b)
    ensures EncodeAuthorization(c, a).Ok? && EncodeAuthorization(c, b).Ok?
    ensures EncodeAuthorization(c, a).value + x == EncodeAuthorization(c, b).value + y
            <==> CarriedAuthorization(a) == CarriedAuthorization(b) && x == y
  {
    hide *;
    AuthorizationRoundTrip(c, a, [], x);
    AuthorizationRoundTrip(c, b, [], y);
    CarriedEncodesAlike(c, a);
    CarriedEncodesAlike(c, b);
    var ea, eb := EncodeAuthorization(c, a).value, EncodeAuthorization(c, b).value;
    assert [] + ea + x == ea + x && [] + eb + y == eb + y;
    assert x == (ea + x)[|ea|..] && y == (eb + y)[|eb|..];
  }
}

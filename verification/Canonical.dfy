/**
 The other half of the round trip: octets that are read as an authorization, without running past
 their end, are the ones that serializing it writes. The one exception is a public key that
 stands in its 65-octet form, which is read but never written.
 */
module Canonical {
  import opened Results
  import opened Bytes
  import opened HexCodec
  import opened Keys
  import opened Authorization
  import opened AuthorizationWire

  /** Compressing gives 33 octets, and undoes uncompressing. */
  ghost predicate KeyFormsLawful(c: Crypto) {
    && (forall k: bytes :: c.compress(k).Some? ==> |c.compress(k).value| == 33)
    && (forall k: bytes :: c.uncompress(k).Some? ==>
          && c.compress(c.uncompress(k).value).Some?
          && (|k| == 33 ==> c.compress(c.uncompress(k).value) == Some(k)))
  }

  /** Keys that are shown as compressed ones are that. */
  predicate ShowsCompressedKeys(c: Crypto, fields: seq<Field>) {
    forall f <- fields :: f.PublicKeyField? && f.encoding == Compressed ==> c.compress(f.key) == Some(f.key)
  }

  predicate ProperKeys(c: Crypto, cond: Condition) {
    cond.MultiSig? ==> ShowsCompressedKeys(c, cond.fields)
  }

  // ----- fields

  /** The field at p is a key of 65 octets. */
  predicate LongKeyAt(s: bytes, p: nat) {
    Slice(s, p, 1) in {[0], [1]} && Slice(s, p + 1, 1) == [4]
  }

  /** None of the n fields from p on is. */
  predicate NoLongKeys(c: Crypto, s: bytes, p: nat, n: nat)
    decreases n
  {
    n == 0
    || (!LongKeyAt(s, p) && (DecodeField(c, s, p).Ok? ==> NoLongKeys(c, s, DecodeField(c, s, p).value.at, n - 1)))
  }

  lemma SliceWithin(s: bytes, p: nat, n: nat)
    requires p + n <= |s|
    ensures Slice(s, p, n) == s[p..p + n]
  {
  }

  lemma Joined(s: bytes, p: nat, q: nat, r: nat)
    requires p <= q <= r <= |s|
    ensures s[p..q] + s[q..r] == s[p..r]
  {
  }

  lemma JoinedLengths(a: bytes, b: bytes, s: bytes, p: nat, q: nat, r: nat)
    requires p <= q <= r <= |s| && |a| <= q - p && |b| <= r - q
    requires |a| == q - p ==> a == s[p..q]
    requires |b| == r - q ==> b == s[q..r]
    ensures |a + b| <= r - p
    ensures |a + b| == r - p <==> |a| == q - p && |b| == r - q
    ensures |a + b| == r - p ==> a + b == s[p..r]
  {
    Joined(s, p, q, r);
  }

  lemma FieldReencodes(c: Crypto, s: bytes, p: nat)
    requires KeyFormsLawful(c)
    requires var r := DecodeField(c, s, p);
             r.Ok? && r.value.at <= |s| && ShowsCompressedKeys(c, [r.value.value])
    ensures var f, at := DecodeField(c, s, p).value.value, DecodeField(c, s, p).value.at;
            && p < at && EncodeField(c, f).Ok?
            && var e := EncodeField(c, f).value;
            && |e| <= at - p
            && (|e| == at - p <==> !LongKeyAt(s, p))
            && (|e| == at - p ==> e == s[p..at])
  {
    var f, at := DecodeField(c, s, p).value.value, DecodeField(c, s, p).value.at;
    assert f in [f];
    SliceWithin(s, p, 1);
    SliceWithin(s, p + 1, 1);
    Joined(s, p, p + 1, at);
    if f.PublicKeyField? {
      SliceWithin(s, p + 2, at - p - 2);
      Joined(s, p + 1, p + 2, at);
    } else {
      SliceWithin(s, p + 1, SIGNATURE_LENGTH);
    }
  }

  lemma {:induction false} CursorAdvances(c: Crypto, s: bytes, p: nat, n: nat)
    requires DecodeFields(c, s, p, n).Ok?
    ensures p <= DecodeFields(c, s, p, n).value.at
    decreases n
  {
    if n > 0 {
      CursorAdvances(c, s, DecodeField(c, s, p).value.at, n - 1);
    }
  }

  lemma {:induction false} FieldsReencode(c: Crypto, s: bytes, p: nat, n: nat)
    requires KeyFormsLawful(c)
    requires var r := DecodeFields(c, s, p, n);
             r.Ok? && r.value.at <= |s| && ShowsCompressedKeys(c, r.value.value)
    ensures var fields, at := DecodeFields(c, s, p, n).value.value, DecodeFields(c, s, p, n).value.at;
            && p <= at && |fields| == n && EncodeFields(c, fields).Ok?
            && var e := EncodeFields(c, fields).value;
            && |e| <= at - p
            && (|e| == at - p <==> NoLongKeys(c, s, p, n))
            && (|e| == at - p ==> e == s[p..at])
    decreases n
  {
    hide KeyFormsLawful, DecodeField, EncodeField, LongKeyAt;
    if n > 0 {
      var first := DecodeField(c, s, p).value;
      var rest := DecodeFields(c, s, first.at, n - 1).value;
      var fields := [first.value] + rest.value;
      CursorAdvances(c, s, first.at, n - 1);
      assert first.value in fields && forall f <- rest.value :: f in fields;
      FieldReencodes(c, s, p);
      FieldsReencode(c, s, first.at, n - 1);
      assert fields[1..] == rest.value;
      JoinedLengths(EncodeField(c, first.value).value, EncodeFields(c, rest.value).value, s, p, first.at, rest.at);
    } else {
      assert s[p..p] == [];
    }
  }

  // ----- conditions

  lemma IntReencodes(b: bytes)
    requires |b| >= 1
    ensures DecodeInt(b) == Ok(FromBE(b)) && IntToBytes(FromBE(b), |b|) == b
  {
    HexOfValue(b);
    FromBEBound(b);
    IntToBytesExact(FromBE(b), |b|);
    ToFromBE(b);
  }

  lemma HeaderReencodes(mode: HashMode, s: bytes, p: nat, cond: Condition)
    requires p + 37 <= |s| && ModeOf(Slice(s, p, 1)) == Ok(mode)
    requires DecodeHeader(s, p + 1) == Ok(Header(cond.signer, cond.nonce, cond.fee)) && cond.mode == mode
    ensures EncodeHeader(cond) == s[p..p + 37]
  {
    hide IntToBytes, DecodeInt, FromBE;
    SliceWithin(s, p, 1);
    SliceWithin(s, p + 1, 20);
    SliceWithin(s, p + 21, 8);
    SliceWithin(s, p + 29, 8);
    IntReencodes(s[p + 21..p + 29]);
    IntReencodes(s[p + 29..p + 37]);
    Joined(s, p + 21, p + 29, p + 37);
    Joined(s, p + 1, p + 21, p + 37);
    Joined(s, p, p + 1, p + 37);
  }

  /** No key of the condition at p is in its 65-octet form. */
  predicate ConditionHasNoLongKeys(c: Crypto, s: bytes, p: nat) {
    ModeOf(Slice(s, p, 1)).Ok? && ModeOf(Slice(s, p, 1)).value.IsMultiSig() ==>
      NoLongKeys(c, s, p + 41, FromBE(Slice(s, p + 37, 4)))
  }

  lemma SingleSigReencodes(c: Crypto, s: bytes, p: nat)
    requires var r := DecodeCondition(c, s, p); r.Ok? && r.value.at <= |s| && r.value.value.SingleSig?
    ensures var cond, at := DecodeCondition(c, s, p).value.value, DecodeCondition(c, s, p).value.at;
            p <= at && EncodeCondition(c, cond) == Ok(s[p..at])
  {
    hide DecodeHeader, EncodeHeader, ModeOf;
    var cond := DecodeCondition(c, s, p).value.value;
    HeaderReencodes(cond.mode, s, p, cond);
    SliceWithin(s, p + 37, 1);
    SliceWithin(s, p + 38, 65);
    Joined(s, p + 37, p + 38, p + 103);
    Joined(s, p, p + 37, p + 103);
  }

  lemma MultiSigReencodes(c: Crypto, s: bytes, p: nat)
    requires KeyFormsLawful(c)
    requires var r := DecodeCondition(c, s, p);
             r.Ok? && r.value.at <= |s| && r.value.value.MultiSig? && ProperKeys(c, r.value.value)
    ensures var cond, at := DecodeCondition(c, s, p).value.value, DecodeCondition(c, s, p).value.at;
            && p <= at && EncodeCondition(c, cond).Ok?
            && var e := EncodeCondition(c, cond).value;
            && |e| <= at - p
            && (|e| == at - p <==> ConditionHasNoLongKeys(c, s, p))
            && (|e| == at - p ==> e == s[p..at])
  {
    hide DecodeHeader, EncodeHeader, ModeOf, KeyFormsLawful, ShowsCompressedKeys, DecodeFields, EncodeFields,
      NoLongKeys, IntToBytes, FromBE, DecodeInt, UInt16BE, ReadUInt16BE;
    var cond, at := DecodeCondition(c, s, p).value.value, DecodeCondition(c, s, p).value.at;
    var n := FromBE(Slice(s, p + 37, 4));
    var mid := at - 2;
    FieldsEnd(c, s, p);
    CursorAdvances(c, s, p + 41, n);
    FieldsReencode(c, s, p + 41, n);
    HeaderReencodes(cond.mode, s, p, cond);
    SliceWithin(s, p + 37, 4);
    IntReencodes(s[p + 37..p + 41]);
    SliceWithin(s, mid, 2);
    RequiredReencodes(s[mid..at]);
    var fields := EncodeFields(c, cond.fields).value;
    var required := UInt16BE(cond.signaturesRequired);
    JoinedLengths(fields, required, s, p + 41, mid, at);
    JoinedLengths(IntToBytes(n, 4), fields + required, s, p + 37, p + 41, at);
    JoinedLengths(EncodeHeader(cond), IntToBytes(n, 4) + (fields + required), s, p, p + 37, at);
  }

  lemma FieldsEnd(c: Crypto, s: bytes, p: nat)
    requires DecodeCondition(c, s, p).Ok? && DecodeCondition(c, s, p).value.value.MultiSig?
    ensures var cond, at := DecodeCondition(c, s, p).value.value, DecodeCondition(c, s, p).value.at;
            && at >= 2 && ModeOf(Slice(s, p, 1)) == Ok(cond.mode) && cond.mode.IsMultiSig()
            && DecodeFields(c, s, p + 41, FromBE(Slice(s, p + 37, 4))) == Ok(Parsed(cond.fields, at - 2))
            && cond.signaturesRequired == ReadUInt16BE(Slice(s, at - 2, 2))
            && DecodeHeader(s, p + 1) == Ok(Header(cond.signer, cond.nonce, cond.fee))
  {
    hide DecodeHeader, DecodeFields, ReadUInt16BE, FromBE, HaveUncompressed;
  }

  lemma RequiredReencodes(b: bytes)
    requires |b| == 2
    ensures UInt16BE(ReadUInt16BE(b)) == b
  {
  }

  lemma ConditionReencodes(c: Crypto, s: bytes, p: nat)
    requires KeyFormsLawful(c)
    requires var r := DecodeCondition(c, s, p); r.Ok? && r.value.at <= |s| && ProperKeys(c, r.value.value)
    ensures var cond, at := DecodeCondition(c, s, p).value.value, DecodeCondition(c, s, p).value.at;
            && p <= at && EncodeCondition(c, cond).Ok?
            && var e := EncodeCondition(c, cond).value;
            && |e| <= at - p
            && (|e| == at - p <==> ConditionHasNoLongKeys(c, s, p))
            && (|e| == at - p ==> e == s[p..at])
  {
    hide KeyFormsLawful, NoLongKeys, EncodeCondition, ProperKeys;
    if DecodeCondition(c, s, p).value.value.SingleSig? {
      SingleSigReencodes(c, s, p);
      SingleHasNoFields(c, s, p);
    } else {
      MultiSigReencodes(c, s, p);
    }
  }

  lemma SingleHasNoFields(c: Crypto, s: bytes, p: nat)
    requires DecodeCondition(c, s, p).Ok? && DecodeCondition(c, s, p).value.value.SingleSig?
    ensures ModeOf(Slice(s, p, 1)).Ok? && !ModeOf(Slice(s, p, 1)).value.IsMultiSig()
  {
  }

  // ----- authorizations

  predicate HasNoLongKeys(c: Crypto, s: bytes, p: nat)
    requires DecodeAuthorization(c, s, p).Ok?
  {
    && ConditionHasNoLongKeys(c, s, p + 1)
    && (DecodeAuthorization(c, s, p).value.value.SponsoredAuth? ==>
          ConditionHasNoLongKeys(c, s, DecodeCondition(c, s, p + 1).value.at))
  }

  /**
   What is read as an authorization within the octets is written again as the very same octets,
   if and only if no key among them stands in its 65-octet form.
   */
  lemma AcceptedOctetsAreCanonical(c: Crypto, s: bytes, p: nat)
    requires KeyFormsLawful(c)
    requires DecodeAuthorization(c, s, p).Ok? && DecodeAuthorization(c, s, p).value.at <= |s|
    requires var auth := DecodeAuthorization(c, s, p).value.value;
             ProperKeys(c, auth.origin) && (auth.SponsoredAuth? ==> ProperKeys(c, auth.sponsor))
    ensures var auth, at := DecodeAuthorization(c, s, p).value.value, DecodeAuthorization(c, s, p).value.at;
            && p <= at
            && EncodeAuthorization(c, auth).Ok?
            && (EncodeAuthorization(c, auth).value == s[p..at] <==> HasNoLongKeys(c, s, p))
  {
    hide KeyFormsLawful, DecodeCondition, EncodeCondition, ProperKeys, ConditionHasNoLongKeys, Slice;
    var auth, at := DecodeAuthorization(c, s, p).value.value, DecodeAuthorization(c, s, p).value.at;
    var origin := DecodeCondition(c, s, p + 1).value;
    TypeReencodes(s, p);
    if auth.SponsoredAuth? {
      ConditionReencodes(c, s, origin.at);
      ConditionReencodes(c, s, p + 1);
      var a, b := EncodeCondition(c, auth.origin).value, EncodeCondition(c, auth.sponsor).value;
      JoinedLengths(a, b, s, p + 1, origin.at, at);
      JoinedLengths([auth.Type().Code()], a + b, s, p, p + 1, at);
    } else {
      ConditionReencodes(c, s, p + 1);
      JoinedLengths([auth.Type().Code()], EncodeCondition(c, auth.origin).value, s, p, p + 1, at);
    }
  }

  lemma TypeReencodes(s: bytes, p: nat)
    ensures AuthTypeOf(Slice(s, p, 1)).Ok? ==>
              p + 1 <= |s| && s[p..p + 1] == [AuthTypeOf(Slice(s, p, 1)).value.Code()]
  {
    if p + 1 <= |s| {
      SliceWithin(s, p, 1);
    }
  }
}

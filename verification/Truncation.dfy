/**
 Reading an authorization that was cut off. A BytesReader does not fail past its end, so some
 prefixes of an encoding are accepted; this module says exactly which, and as what.
 */
module Truncation {
  import opened Results
  import opened Bytes
  import opened HexCodec
  import opened Keys
  import opened Authorization
  import opened AuthorizationWire

  // ----- octets that are cut off

  /** e starts in s at position p, and s ends before it does. */
  predicate CutAt(s: bytes, p: nat, e: bytes) {
    p <= |s| < p + |e| && s[p..] == e[..|s| - p]
  }

  lemma CutApart(s: bytes, p: nat, a: bytes, b: bytes)
    requires CutAt(s, p, a + b)
    ensures |s| < p + |a| ==> CutAt(s, p, a)
    ensures p + |a| <= |s| ==> StandsAt(s, p, a) && CutAt(s, p + |a|, b) && Slice(s, p, |a|) == a
  {
    var t, ab := |s| - p, a + b;
    if |s| < p + |a| {
      assert ab[..t] == a[..t];
    } else {
      assert s[p..p + |a|] == s[p..][..|a|] == ab[..t][..|a|] == a;
      assert s[p + |a|..] == s[p..][|a|..] == ab[..t][|a|..] == b[..t - |a|];
    }
  }

  lemma CutSlice(s: bytes, p: nat, e: bytes)
    requires CutAt(s, p, e)
    ensures Slice(s, p, |e|) == e[..|s| - p]
  {
    assert s[p..|s|] == s[p..];
  }

  lemma PastEnd(s: bytes, p: nat, n: nat)
    requires |s| <= p
    ensures Slice(s, p, n) == []
  {
  }

  // ----- numbers that are cut off

  /** A number without its last n octets. */
  function WithoutOctets(v: nat, n: nat): nat {
    if n == 0 then v else WithoutOctets(v / 256, n - 1)
  }

  /** The first i of n octets denote the number without its n - i last octets. */
  lemma {:induction false} LeadingOctets(v: nat, n: nat, i: nat)
    requires i <= n && v < Pow(256, n)
    ensures FromBE(ToBE(v, n)[..i]) == WithoutOctets(v, n - i)
  {
    if i == n {
      assert ToBE(v, n)[..n] == ToBE(v, n);
      FromToBE(v, n);
    } else {
      assert v / 256 < Pow(256, n - 1);
      LeadingOctets(v / 256, n - 1, i);
      assert ToBE(v, n)[..i] == ToBE(v / 256, n - 1)[..i];
    }
  }

  lemma LeadingOctetsOfInt(v: nat, n: nat, i: nat)
    requires n >= 1 && i <= n && v < Pow(256, n)
    ensures |IntToBytes(v, n)| == n && FromBE(IntToBytes(v, n)[..i]) == WithoutOctets(v, n - i)
  {
    hide IntToBytes;
    IntToBytesExact(v, n);
    LeadingOctets(v, n, i);
  }

  lemma {:induction false} WithoutAllOctets(v: nat, n: nat, k: nat)
    requires v < Pow(256, n) && n <= k
    ensures WithoutOctets(v, k) == 0
  {
    if n > 0 {
      assert v / 256 < Pow(256, n - 1);
      WithoutAllOctets(v / 256, n - 1, k - 1);
    } else if k > 0 {
      WithoutAllOctets(0, 0, k - 1);
    }
  }

  // ----- which cuts are accepted, and as what

  function LengthOf(r: Result<bytes, Error>): nat {
    if r.Ok? then |r.value| else 0
  }

  /** Where the last field starts among the octets of all the fields. */
  function LastStart(c: Crypto, fields: seq<Field>): int
    requires fields != []
  {
    LengthOf(EncodeFields(c, fields)) - LengthOf(EncodeField(c, fields[|fields| - 1]))
  }

  /** The octets of the last field's key that are left when t octets of the fields are. */
  function ShortKey(c: Crypto, fields: seq<Field>, t: nat): bytes
    requires fields != []
  {
    var e := EncodeField(c, fields[|fields| - 1]);
    var n := t - LastStart(c, fields);
    if e.Ok? && 1 <= n <= |e.value| then e.value[1..n] else []
  }

  /** The last field is a key that is still read: its first octet is there, and it can be uncompressed if need be. */
  predicate LastKeySurvives(c: Crypto, fields: seq<Field>, t: nat) {
    && fields != []
    && var last := fields[|fields| - 1];
       && last.PublicKeyField?
       && t >= LastStart(c, fields) + 2
       && (last.encoding == Uncompressed ==> c.uncompress(ShortKey(c, fields, t)).Some?)
  }

  function LastFieldRead(c: Crypto, fields: seq<Field>, t: nat): Field
    requires LastKeySurvives(c, fields, t)
  {
    var short := ShortKey(c, fields, t);
    if fields[|fields| - 1].encoding == Compressed then PublicKeyField(Compressed, short)
    else PublicKeyField(Uncompressed, c.uncompress(short).value)
  }

  function FieldsRead(c: Crypto, fields: seq<Field>, t: nat): seq<Field>
    requires LastKeySurvives(c, fields, t)
  {
    fields[..|fields| - 1] + [LastFieldRead(c, fields, t)]
  }

  const COUNT_END := 1 + HEADER_LENGTH + 4

  /**
   The first t octets of a condition's encoding are accepted: it is a multi-signature condition,
   some octet of its fee is left, and either what is left of the number of fields is zero, or
   all the fields are left, or all but the end of a last one that is a public key.
   */
  predicate SurvivesCut(c: Crypto, cond: Condition, t: nat) {
    && cond.MultiSig?
    && t > 1 + 20 + 8
    && if t <= COUNT_END then WithoutOctets(|cond.fields|, COUNT_END - t) == 0
       else if t >= COUNT_END + LengthOf(EncodeFields(c, cond.fields)) then true
       else
         && LastKeySurvives(c, cond.fields, t - COUNT_END)
         && (cond.mode.P2WSH? || cond.mode.P2WSHNonSequential? ==>
               !LastFieldRead(c, cond.fields, t - COUNT_END).IsUncompressed())
  }

  function FeeRead(cond: Condition, t: nat): nat {
    if t < 1 + HEADER_LENGTH then WithoutOctets(cond.fee, 1 + HEADER_LENGTH - t) else cond.fee
  }

  /** What it is accepted as. The missing octets of the required number count as zeros, and the fee's do not count. */
  function CutCondition(c: Crypto, cond: Condition, t: nat): Condition
    requires SurvivesCut(c, cond, t)
  {
    if t <= COUNT_END then
      cond.(fee := FeeRead(cond, t), fields := [], signaturesRequired := 0)
    else if t >= COUNT_END + LengthOf(EncodeFields(c, cond.fields)) then
      var all := t == COUNT_END + LengthOf(EncodeFields(c, cond.fields));
      cond.(signaturesRequired := if all then 0 else cond.signaturesRequired / 256 % 256 * 256)
    else cond.(fields := FieldsRead(c, cond.fields, t - COUNT_END), signaturesRequired := 0)
  }

  /** Where the cursor is left, counted from the start of the condition: always past the end. */
  function CutEnd(c: Crypto, cond: Condition, t: nat): nat {
    if t <= COUNT_END then COUNT_END + 2 else LengthOf(EncodeCondition(c, cond))
  }

  // ----- fields

  lemma FieldCut(c: Crypto, f: Field, s: bytes, p: nat)
    requires WellFormedField(c, f) && EncodeField(c, f).Ok? && CutAt(s, p, EncodeField(c, f).value)
    ensures DecodeField(c, s, p).Ok? <==> LastKeySurvives(c, [f], |s| - p)
    ensures DecodeField(c, s, p).Ok? ==>
              DecodeField(c, s, p) == Ok(Parsed(LastFieldRead(c, [f], |s| - p), p + |EncodeField(c, f).value|))
  {
    hide Slice;
    var e := EncodeField(c, f).value;
    var t := |s| - p;
    OneField(c, f);
    assert e == e[..1] + e[1..];
    CutApart(s, p, e[..1], e[1..]);
    if t == 0 {
      PastEnd(s, p, 1);
    } else {
      CutSlice(s, p + 1, e[1..]);
      if f.PublicKeyField? {
        KeyCut(s, p + 1, e[1..]);
        assert e[1..][..t - 1] == e[1..t];
      }
    }
  }

  lemma OneField(c: Crypto, f: Field)
    requires EncodeField(c, f).Ok?
    ensures EncodeFields(c, [f]) == EncodeField(c, f) && LastStart(c, [f]) == 0
  {
    assert [f][1..] == [];
    assert EncodeField(c, f).value + [] == EncodeField(c, f).value;
  }

  lemma KeyCut(s: bytes, p: nat, key: bytes)
    requires |key| == 33 && key[0] != 4 && CutAt(s, p, key)
    ensures DecodePublicKey(s, p) == if |s| == p then Err(ParseError) else Ok(Parsed(key[..|s| - p], p + 33))
  {
    if |s| == p {
      PastEnd(s, p, 1);
    } else {
      CutApart(s, p, key[..1], key[1..]);
      assert key == key[..1] + key[1..];
      CutSlice(s, p + 1, key[1..]);
      assert key[..1] + key[1..][..|s| - (p + 1)] == key[..|s| - p];
    }
  }

  lemma DecodePastEnd(c: Crypto, s: bytes, p: nat, n: nat)
    requires |s| <= p && n > 0
    ensures DecodeFields(c, s, p, n).Err?
  {
    PastEnd(s, p, 1);
  }

  lemma {:induction false} FieldsCut(c: Crypto, fields: seq<Field>, s: bytes, p: nat)
    requires forall f :: f in fields ==> WellFormedField(c, f)
    requires EncodeFields(c, fields).Ok? && CutAt(s, p, EncodeFields(c, fields).value)
    ensures DecodeFields(c, s, p, |fields|).Ok? <==> LastKeySurvives(c, fields, |s| - p)
    ensures DecodeFields(c, s, p, |fields|).Ok? ==>
              DecodeFields(c, s, p, |fields|) ==
              Ok(Parsed(FieldsRead(c, fields, |s| - p), p + |EncodeFields(c, fields).value|))
    decreases |fields|
  {
    hide EncodeField, DecodeField, WellFormedField, LastKeySurvives, LastFieldRead, Slice;
    var f, rest := fields[0], fields[1..];
    assert fields == [f] + rest;
    var e, r := EncodeField(c, f).value, EncodeFields(c, rest).value;
    CutApart(s, p, e, r);
    if |s| < p + |e| {
      FieldCut(c, f, s, p);
      if rest == [] {
        assert fields == [f] && e + [] == e;
        if DecodeField(c, s, p).Ok? {
          ReadOne(c, f, s, p);
        }
      } else {
        DecodePastEnd(c, s, p + |e|, |rest|);
        CutBeforeLast(c, f, rest, |s| - p);
      }
    } else {
      FieldRoundTrip(c, f, s, p);
      FieldsCut(c, rest, s, p + |e|);
      SameLast(c, f, rest, |s| - p);
    }
  }

  lemma ReadOne(c: Crypto, f: Field, s: bytes, p: nat)
    requires EncodeField(c, f).Ok? && CutAt(s, p, EncodeField(c, f).value)
    requires DecodeField(c, s, p).Ok? && LastKeySurvives(c, [f], |s| - p)
    ensures DecodeFields(c, s, p, 1) == Ok(Parsed([DecodeField(c, s, p).value.value], DecodeField(c, s, p).value.at))
    ensures FieldsRead(c, [f], |s| - p) == [LastFieldRead(c, [f], |s| - p)]
  {
    hide DecodeField, EncodeField, LastKeySurvives, LastFieldRead;
    var first := DecodeField(c, s, p).value;
    assert DecodeFields(c, s, first.at, 0) == Ok(Parsed([], first.at));
    assert [first.value] + [] == [first.value];
  }

  /** A cut in the first of several fields leaves nothing of the last. */
  lemma CutBeforeLast(c: Crypto, f: Field, rest: seq<Field>, t: nat)
    requires rest != [] && EncodeFields(c, [f] + rest).Ok? && t < |EncodeField(c, f).value|
    ensures !LastKeySurvives(c, [f] + rest, t)
  {
    hide EncodeField;
    assert ([f] + rest)[1..] == rest;
    LastIsPart(c, rest);
  }

  lemma {:induction false} LastIsPart(c: Crypto, fields: seq<Field>)
    requires fields != [] && EncodeFields(c, fields).Ok?
    ensures EncodeField(c, fields[|fields| - 1]).Ok? && LastStart(c, fields) >= 0
  {
    hide EncodeField;
    if |fields| > 1 {
      LastIsPart(c, fields[1..]);
    }
  }

  /** The last field is the same without the first, and starts that much earlier. */
  lemma SameLast(c: Crypto, f: Field, rest: seq<Field>, t: nat)
    requires rest != [] && EncodeFields(c, [f] + rest).Ok? && t >= |EncodeField(c, f).value|
    ensures var u := t - |EncodeField(c, f).value|;
            && (LastKeySurvives(c, [f] + rest, t) <==> LastKeySurvives(c, rest, u))
            && (LastKeySurvives(c, rest, u) ==> FieldsRead(c, [f] + rest, t) == [f] + FieldsRead(c, rest, u))
  {
    hide EncodeField;
    var fields := [f] + rest;
    assert fields[1..] == rest && fields[|fields| - 1] == rest[|rest| - 1];
    assert fields[..|fields| - 1] == [f] + rest[..|rest| - 1];
    LastIsPart(c, rest);
  }

  // ----- conditions

  lemma HeaderCut(cond: Condition, s: bytes, p: nat)
    requires |cond.signer| == 20 && cond.nonce < Pow(256, 8) && cond.fee < Pow(256, 8)
    requires CutAt(s, p, EncodeHeader(cond))
    ensures |s| < p + 37
    ensures ModeOf(Slice(s, p, 1)) == if |s| == p then Err(ParseError) else Ok(cond.mode)
    ensures DecodeHeader(s, p + 1).Ok? <==> |s| > p + 29
    ensures |s| > p + 29 ==>
              DecodeHeader(s, p + 1) == Ok(Header(cond.signer, cond.nonce, FeeRead(cond, |s| - p)))
  {
    hide IntToBytes, Pow, BigIntOf, Slice, FromBE, ModeOf;
    var t := |s| - p;
    var nonce, fee := IntToBytes(cond.nonce, 8), IntToBytes(cond.fee, 8);
    IntToBytesExact(cond.nonce, 8);
    IntToBytesExact(cond.fee, 8);
    ReadBackInt(cond.nonce, 8);
    ModeRoundTrip(cond.mode);
    CutApart(s, p, [ModeCode(cond.mode)], cond.signer + (nonce + fee));
    if t == 0 {
      PastEnd(s, p, 1);
      PastEnd(s, p + 21, 8);
      NoDigits();
    } else {
      CutApart(s, p + 1, cond.signer, nonce + fee);
      if t < 21 {
        PastEnd(s, p + 21, 8);
        NoDigits();
      } else {
        CutApart(s, p + 21, nonce, fee);
        if t < 29 {
          CutSlice(s, p + 21, nonce);
          PastEnd(s, p + 29, 8);
          NoDigits();
        } else {
          CutSlice(s, p + 29, fee);
          LeadingOctetsOfInt(cond.fee, 8, t - 29);
          BigIntIsFromBE(fee[..t - 29]);
        }
      }
    }
  }

  lemma NoDigits()
    ensures BigIntOf([]).None? && ModeOf([]) == Err(ParseError)
  {
  }

  lemma BigIntIsFromBE(b: bytes)
    ensures BigIntOf(b) == if b == [] then None else Some(FromBE(b))
  {
    HexOfValue(b);
  }

  lemma SingleSigCut(c: Crypto, cond: Condition, s: bytes, p: nat)
    requires cond.SingleSig? && WellFormedCondition(c, cond)
    requires CutAt(s, p, EncodeCondition(c, cond).value)
    ensures DecodeCondition(c, s, p).Err?
  {
    hide IntToBytes, BigIntOf, Pow, EncodeHeader, DecodeHeader, ModeOf, Slice;
    var rest := [cond.keyEncoding.Code()] + cond.signature;
    CutApart(s, p, EncodeHeader(cond), rest);
    HeaderIs37(cond);
    if |s| < p + 37 {
      HeaderCut(cond, s, p);
      PastEnd(s, p + 37, 1);
    } else {
      HeaderRoundTrip(cond, s, p);
      CutApart(s, p + 37, [cond.keyEncoding.Code()], cond.signature);
      if |s| == p + 37 {
        PastEnd(s, p + 37, 1);
      } else {
        CutSlice(s, p + 38, cond.signature);
      }
    }
  }

  lemma HeaderIs37(cond: Condition)
    requires |cond.signer| == 20 && cond.nonce < Pow(256, 8) && cond.fee < Pow(256, 8)
    ensures |EncodeHeader(cond)| == 37
  {
    hide Pow, IntToBytes;
    HeaderLayout(cond);
  }

  lemma MultiSigCutInHeader(c: Crypto, cond: Condition, s: bytes, p: nat)
    requires cond.MultiSig? && WellFormedCondition(c, cond) && CutAt(s, p, EncodeHeader(cond))
    ensures DecodesAsCut(c, cond, s, p)
  {
    hide IntToBytes, BigIntOf, Pow, EncodeHeader, DecodeHeader, ModeOf, Slice, EncodeCondition, WithoutOctets;
    HeaderCut(cond, s, p);
    PastEnd(s, p + 37, 4);
    PastEnd(s, p + 41, 2);
    WithoutAllOctets(|cond.fields|, 4, p + 41 - |s|);
  }

  lemma MultiSigCutInCount(c: Crypto, cond: Condition, s: bytes, p: nat)
    requires cond.MultiSig? && WellFormedCondition(c, cond)
    requires StandsAt(s, p, EncodeHeader(cond)) && CutAt(s, p + 37, IntToBytes(|cond.fields|, 4))
    ensures DecodesAsCut(c, cond, s, p)
  {
    hide IntToBytes, BigIntOf, Pow, EncodeHeader, DecodeHeader, ModeOf, Slice, FromBE, EncodeCondition, WithoutOctets;
    HeaderRoundTrip(cond, s, p);
    IntToBytesExact(|cond.fields|, 4);
    CutSlice(s, p + 37, IntToBytes(|cond.fields|, 4));
    LeadingOctetsOfInt(|cond.fields|, 4, |s| - (p + 37));
    var n := FromBE(Slice(s, p + 37, 4));
    if n == 0 {
      PastEnd(s, p + 41, 2);
    } else {
      DecodePastEnd(c, s, p + 41, n);
    }
  }

  lemma MultiSigCutInFields(c: Crypto, cond: Condition, s: bytes, p: nat)
    requires cond.MultiSig? && WellFormedCondition(c, cond) && EncodeFields(c, cond.fields).Ok?
    requires StandsAt(s, p, EncodeHeader(cond)) && StandsAt(s, p + 37, IntToBytes(|cond.fields|, 4))
    requires CutAt(s, p + 41, EncodeFields(c, cond.fields).value)
    ensures DecodesAsCut(c, cond, s, p)
  {
    hide IntToBytes, BigIntOf, Pow, EncodeHeader, DecodeHeader, ModeOf, Slice, FromBE, EncodeFields, DecodeFields,
      LastKeySurvives, HaveUncompressed, CountSignatures;
    var fields, t := cond.fields, |s| - (p + 41);
    HeaderRoundTrip(cond, s, p);
    StandsSlice(s, p + 37, IntToBytes(|fields|, 4));
    IntToBytesExact(|fields|, 4);
    FieldsCut(c, fields, s, p + 41);
    NoOctetsNoFields(c, fields);
    if LastKeySurvives(c, fields, t) {
      KeyInPlace(fields, LastFieldRead(c, fields, t));
      PastEnd(s, p + 41 + |EncodeFields(c, fields).value|, 2);
    }
  }

  lemma NoOctetsNoFields(c: Crypto, fields: seq<Field>)
    requires EncodeFields(c, fields).Ok?
    ensures EncodeFields(c, fields).value == [] <==> fields == []
    ensures fields != [] ==> !LastKeySurvives(c, fields, 0)
  {
    if fields != [] {
      LastIsPart(c, fields);
    }
  }

  lemma StandsSlice(s: bytes, p: nat, e: bytes)
    requires StandsAt(s, p, e)
    ensures Slice(s, p, |e|) == e
  {
  }

  /** A key in the place of the last field adds no signature, and decides about uncompressed keys if there were none. */
  lemma KeyInPlace(fields: seq<Field>, f: Field)
    requires fields != [] && f.PublicKeyField?
    ensures var after := fields[..|fields| - 1] + [f];
            && CountSignatures(after) <= CountSignatures(fields)
            && (!HaveUncompressed(fields) ==> (HaveUncompressed(after) <==> f.IsUncompressed()))
  {
    var init, last := fields[..|fields| - 1], fields[|fields| - 1];
    assert fields == init + [last];
    CountAppended(init, [last]);
    CountAppended(init, [f]);
    assert [f][1..] == [];
    assert f in init + [f] && forall g :: g in init ==> g in fields;
  }

  lemma MultiSigCutInRequired(c: Crypto, cond: Condition, s: bytes, p: nat)
    requires cond.MultiSig? && WellFormedCondition(c, cond) && EncodeFields(c, cond.fields).Ok?
    requires StandsAt(s, p, EncodeHeader(cond)) && StandsAt(s, p + 37, IntToBytes(|cond.fields|, 4))
    requires StandsAt(s, p + 41, EncodeFields(c, cond.fields).value)
    requires CutAt(s, p + 41 + |EncodeFields(c, cond.fields).value|, UInt16BE(cond.signaturesRequired))
    ensures DecodesAsCut(c, cond, s, p)
  {
    hide IntToBytes, BigIntOf, Pow, EncodeHeader, DecodeHeader, ModeOf, Slice, FromBE, EncodeFields, DecodeFields,
      HaveUncompressed, CountSignatures;
    var fields, e := cond.fields, EncodeFields(c, cond.fields).value;
    HeaderRoundTrip(cond, s, p);
    StandsSlice(s, p + 37, IntToBytes(|fields|, 4));
    IntToBytesExact(|fields|, 4);
    FieldsRoundTrip(c, fields, s, p + 41);
    CutSlice(s, p + 41 + |e|, UInt16BE(cond.signaturesRequired));
    NoOctetsNoFields(c, fields);
    var required := UInt16BE(cond.signaturesRequired);
    assert required[..0] == [] && required[..1] == [cond.signaturesRequired / 256 % 256];
  }

  /** Decoding at p what is left of a condition: accepted exactly when SurvivesCut says so, as CutCondition says. */
  ghost predicate DecodesAsCut(c: Crypto, cond: Condition, s: bytes, p: nat)
    requires p <= |s|
  {
    var t, r := |s| - p, DecodeCondition(c, s, p);
    && (r.Ok? <==> SurvivesCut(c, cond, t))
    && (r.Ok? ==> r == Ok(Parsed(CutCondition(c, cond, t), p + CutEnd(c, cond, t))) && r.value.at > |s|)
  }

  lemma ConditionCut(c: Crypto, cond: Condition, s: bytes, p: nat)
    requires WellFormedCondition(c, cond) && EncodeCondition(c, cond).Ok?
    requires CutAt(s, p, EncodeCondition(c, cond).value)
    ensures DecodesAsCut(c, cond, s, p)
  {
    hide IntToBytes, Pow, EncodeHeader, EncodeFields, UInt16BE, DecodesAsCut, DecodeCondition;
    if cond.SingleSig? {
      SingleSigCut(c, cond, s, p);
      RejectedAsCut(c, cond, s, p);
    } else {
      var count, fields, required :=
        IntToBytes(|cond.fields|, 4), EncodeFields(c, cond.fields).value, UInt16BE(cond.signaturesRequired);
      HeaderIs37(cond);
      IntToBytesExact(|cond.fields|, 4);
      CutApart(s, p, EncodeHeader(cond), count + (fields + required));
      if |s| < p + 37 {
        MultiSigCutInHeader(c, cond, s, p);
      } else {
        CutApart(s, p + 37, count, fields + required);
        if |s| < p + 41 {
          MultiSigCutInCount(c, cond, s, p);
        } else {
          CutApart(s, p + 41, fields, required);
          if |s| < p + 41 + |fields| {
            MultiSigCutInFields(c, cond, s, p);
          } else {
            MultiSigCutInRequired(c, cond, s, p);
          }
        }
      }
    }
  }

  lemma RejectedAsCut(c: Crypto, cond: Condition, s: bytes, p: nat)
    requires p <= |s| && cond.SingleSig? && DecodeCondition(c, s, p).Err?
    ensures DecodesAsCut(c, cond, s, p)
  {
  }

  // ----- authorizations

  function LastCondition(auth: Authorization): Condition {
    if auth.StandardAuth? then auth.origin else auth.sponsor
  }

  /** Where the last condition starts in the encoding. */
  function LastConditionStart(c: Crypto, auth: Authorization): nat {
    if auth.StandardAuth? then 1 else 1 + LengthOf(EncodeCondition(c, auth.origin))
  }

  /** The cut is in the last condition, and that survives it. */
  predicate AcceptsCut(c: Crypto, auth: Authorization, k: nat) {
    && k >= LastConditionStart(c, auth)
    && SurvivesCut(c, LastCondition(auth), k - LastConditionStart(c, auth))
  }

  function CutAuthorization(c: Crypto, auth: Authorization, k: nat): Authorization
    requires AcceptsCut(c, auth, k)
  {
    var last := CutCondition(c, LastCondition(auth), k - LastConditionStart(c, auth));
    if auth.StandardAuth? then StandardAuth(last) else SponsoredAuth(Carried(auth.origin), last)
  }

  predicate DecodesCut(c: Crypto, auth: Authorization, before: bytes, k: nat)
    requires EncodeAuthorization(c, auth).Ok? && k < |EncodeAuthorization(c, auth).value|
  {
    var e, start := EncodeAuthorization(c, auth).value, LastConditionStart(c, auth);
    var r := DecodeAuthorization(c, before + e[..k], |before|);
    && (r.Ok? <==> AcceptsCut(c, auth, k))
    && (r.Ok? ==>
          r == Ok(Parsed(CutAuthorization(c, auth, k),
                         |before| + start + CutEnd(c, LastCondition(auth), k - start))))
  }

  /**
   The first k octets of an encoding, short of all, are accepted exactly when AcceptsCut says
   so, and then as CutAuthorization, with the cursor past the end. Every other cut is rejected.
   */
  lemma CutsAccepted(c: Crypto, auth: Authorization, before: bytes, k: nat)
    requires WellFormed(c, auth)
    ensures EncodeAuthorization(c, auth).Ok?
    ensures k < |EncodeAuthorization(c, auth).value| ==> DecodesCut(c, auth, before, k)
  {
    hide EncodeAuthorization, DecodesCut;
    WellFormedEncodes(c, auth);
    if k < |EncodeAuthorization(c, auth).value| {
      CutDecodes(c, auth, before, k);
    }
  }

  lemma CutDecodes(c: Crypto, auth: Authorization, before: bytes, k: nat)
    requires WellFormed(c, auth) && EncodeAuthorization(c, auth).Ok? && k < |EncodeAuthorization(c, auth).value|
    ensures DecodesCut(c, auth, before, k)
  {
    hide EncodeCondition, DecodeCondition, WellFormedCondition, Carried, SurvivesCut, CutCondition, CutEnd, Slice;
    WellFormedEncodes(c, auth);
    var e, p := EncodeAuthorization(c, auth).value, |before|;
    var s := before + e[..k];
    assert CutAt(s, p, e);
    var tag, origin := [auth.Type().Code()], EncodeCondition(c, auth.origin).value;
    if k == 0 {
      PastEnd(s, p, 1);
    } else if auth.StandardAuth? {
      CutApart(s, p, tag, origin);
      ConditionCut(c, auth.origin, s, p + 1);
    } else {
      var sponsor := EncodeCondition(c, auth.sponsor).value;
      CutApart(s, p, tag, origin + sponsor);
      CutApart(s, p + 1, origin, sponsor);
      if k < 1 + |origin| {
        ConditionCut(c, auth.origin, s, p + 1);
        var first := DecodeCondition(c, s, p + 1);
        if first.Ok? {
          ConditionPastEnd(c, s, first.value.at);
        }
      } else {
        ConditionRoundTrip(c, auth.origin, s, p + 1);
        ConditionCut(c, auth.sponsor, s, p + 1 + |origin|);
      }
    }
  }

  lemma ConditionPastEnd(c: Crypto, s: bytes, p: nat)
    requires |s| <= p
    ensures DecodeCondition(c, s, p).Err?
  {
    PastEnd(s, p, 1);
  }

  /** An authorization that ends in a single-signature condition is never accepted when cut off. */
  lemma SingleSignatureRejectsCuts(c: Crypto, auth: Authorization, k: nat)
    requires WellFormed(c, auth) && LastCondition(auth).SingleSig?
    requires EncodeAuthorization(c, auth).Ok? && k < |EncodeAuthorization(c, auth).value|
    ensures DecodeAuthorization(c, EncodeAuthorization(c, auth).value[..k], 0).Err?
  {
    hide EncodeAuthorization, DecodeAuthorization, WellFormed;
    CutsAccepted(c, auth, [], k);
    assert [] + EncodeAuthorization(c, auth).value[..k] == EncodeAuthorization(c, auth).value[..k];
  }

  lemma MultiSigLength(c: Crypto, cond: Condition)
    requires cond.MultiSig? && WellFormedCondition(c, cond)
    ensures EncodeAuthorization(c, StandardAuth(cond)).Ok?
    ensures |EncodeAuthorization(c, StandardAuth(cond)).value| == COUNT_END + LengthOf(EncodeFields(c, cond.fields)) + 3
  {
    hide IntToBytes, Pow, EncodeFields, EncodeHeader;
    WellFormedEncodes(c, StandardAuth(cond));
    HeaderIs37(cond);
    IntToBytesExact(|cond.fields|, 4);
  }

  /** Without its last two octets a condition is accepted as asking for no signature at all. */
  lemma TruncatedCountReadsAsZero(c: Crypto, cond: Condition)
    requires cond.MultiSig? && WellFormedCondition(c, cond)
    ensures EncodeAuthorization(c, StandardAuth(cond)).Ok?
    ensures var e := EncodeAuthorization(c, StandardAuth(cond)).value;
            && |e| >= 2
            && DecodeAuthorization(c, e[..|e| - 2], 0) == Ok(Parsed(StandardAuth(cond.(signaturesRequired := 0)), |e|))
  {
    hide EncodeAuthorization, DecodeAuthorization, WellFormedCondition, EncodeCondition, EncodeFields, SurvivesCut,
      CutCondition, CutEnd;
    MultiSigLength(c, cond);
    var e := EncodeAuthorization(c, StandardAuth(cond)).value;
    CutBeforeRequired(c, cond);
    CutsAccepted(c, StandardAuth(cond), [], |e| - 2);
    assert [] + e[..|e| - 2] == e[..|e| - 2];
  }

  lemma CutBeforeRequired(c: Crypto, cond: Condition)
    requires cond.MultiSig? && WellFormedCondition(c, cond)
    ensures var t := COUNT_END + LengthOf(EncodeFields(c, cond.fields));
            && SurvivesCut(c, cond, t)
            && CutCondition(c, cond, t) == cond.(signaturesRequired := 0) && CutEnd(c, cond, t) == t + 2
  {
    hide WellFormedCondition, EncodeFields, EncodeCondition, WithoutOctets;
    NoOctetsNoFieldsLeft(c, cond);
  }

  lemma NoOctetsNoFieldsLeft(c: Crypto, cond: Condition)
    requires cond.MultiSig? && WellFormedCondition(c, cond)
    ensures EncodeCondition(c, cond).Ok?
    ensures LengthOf(EncodeCondition(c, cond)) == COUNT_END + LengthOf(EncodeFields(c, cond.fields)) + 2
    ensures LengthOf(EncodeFields(c, cond.fields)) == 0 ==> cond.fields == [] && WithoutOctets(|cond.fields|, 0) == 0
  {
    hide IntToBytes, Pow, EncodeHeader, EncodeFields;
    WellFormedFieldsEncode(c, cond.fields);
    HeaderIs37(cond);
    IntToBytesExact(|cond.fields|, 4);
    NoOctetsNoFields(c, cond.fields);
  }

  /** Cut right after its fee, a condition loses all its fields, and is accepted. */
  lemma HeaderAloneIsAccepted(c: Crypto, cond: Condition)
    requires cond.MultiSig? && WellFormedCondition(c, cond)
    ensures DecodeAuthorization(c, [Standard.Code()] + EncodeHeader(cond), 0) ==
            Ok(Parsed(StandardAuth(cond.(fields := [], signaturesRequired := 0)), 1 + COUNT_END + 2))
  {
    hide EncodeAuthorization, DecodeAuthorization, WellFormedCondition, EncodeFields, EncodeHeader, WithoutOctets, Pow;
    MultiSigLength(c, cond);
    var e := EncodeAuthorization(c, StandardAuth(cond)).value;
    FieldCountFits(c, cond);
    HeaderIsPrefix(c, cond);
    CutsAccepted(c, StandardAuth(cond), [], 38);
    assert [] + e[..38] == e[..38];
  }

  lemma FieldCountFits(c: Crypto, cond: Condition)
    requires cond.MultiSig? && WellFormedCondition(c, cond)
    ensures WithoutOctets(|cond.fields|, 4) == 0
  {
    WithoutAllOctets(|cond.fields|, 4, 4);
  }

  lemma HeaderIsPrefix(c: Crypto, cond: Condition)
    requires cond.MultiSig? && WellFormedCondition(c, cond) && EncodeAuthorization(c, StandardAuth(cond)).Ok?
    ensures |EncodeAuthorization(c, StandardAuth(cond)).value| >= 38
    ensures EncodeAuthorization(c, StandardAuth(cond)).value[..38] == [Standard.Code()] + EncodeHeader(cond)
  {
    hide IntToBytes, Pow, EncodeHeader, EncodeFields, UInt16BE;
    HeaderIs37(cond);
  }
}

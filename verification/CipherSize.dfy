/**
 Predicting the size of an encrypted upload (packages/encryption/src/ec.ts and
 encryption.ts): arithmetic on an empty envelope against the JSON actually built, which for
 signed content nests one JSON string in another.
 */
module CipherSize {
  import opened Results
  import opened Bytes
  import opened HexCodec

  // ----- JSON strings and objects (section 7 of RFC 8259)

  function EscapeChar(ch: char): string {
    var u := ch as int;
    if ch == '"' then "\\\""
    else if ch == '\\' then "\\\\"
    else if u == 0x08 then "\\b"
    else if u == 0x09 then "\\t"
    else if u == 0x0A then "\\n"
    else if u == 0x0C then "\\f"
    else if u == 0x0D then "\\r"
    else if u < 0x20 then "\\u00" + [HexChar(u / 16), HexChar(u % 16)]
    else [ch]
  }

  function Escape(s: string): string {
    if s == "" then "" else EscapeChar(s[0]) + Escape(s[1..])
  }

  function Quote(s: string): string {
    "\"" + (Escape(s) + "\"")
  }

  datatype Value = Text(text: string) | Flag(flag: bool)

  datatype Member = Member(key: string, value: Value)

  function ValueString(v: Value): string {
    match v
    case Text(text) => Quote(text)
    case Flag(flag) => if flag then "true" else "false"
  }

  function MemberString(m: Member): string {
    Quote(m.key) + (":" + ValueString(m.value))
  }

  function Join(members: seq<Member>): string {
    if members == [] then ""
    else if |members| == 1 then MemberString(members[0])
    else MemberString(members[0]) + ("," + Join(members[1..]))
  }

  /** JSON.stringify on an object whose members are strings and booleans. */
  function Stringify(members: seq<Member>): string {
    "{" + (Join(members) + "}")
  }

  // ----- encodings of the cipher text

  datatype CipherTextEncoding = Hex | Base64

  function Base64Char(i: nat): char
    requires i < 64
  {
    if i < 26 then 'A' + i as char
    else if i < 52 then 'a' + (i - 26) as char
    else if i < 62 then '0' + (i - 52) as char
    else if i == 62 then '+' else '/'
  }

  /** Section 4 of RFC 4648. */
  function Base64Of(b: bytes): string {
    if b == [] then ""
    else if |b| == 1 then [Base64Char(b[0] / 4), Base64Char(b[0] % 4 * 16)] + "=="
    else if |b| == 2 then
      [Base64Char(b[0] / 4), Base64Char(b[0] % 4 * 16 + b[1] / 16), Base64Char(b[1] % 16 * 4)] + "="
    else
      [Base64Char(b[0] / 4), Base64Char(b[0] % 4 * 16 + b[1] / 16),
       Base64Char(b[1] % 16 * 4 + b[2] / 64), Base64Char(b[2] % 64)] + Base64Of(b[3..])
  }

  function EncodeCipherText(b: bytes, encoding: CipherTextEncoding): string {
    if encoding == Hex then HexOf(b) else Base64Of(b)
  }

  // ----- the envelope that encryptContent builds

  /** What encryptECIES draws and computes: every part has its fixed length, the cipher text its padded one. */
  datatype Encryption = Encryption(iv: bytes, ephemeralPK: bytes, cipherText: bytes, mac: bytes) {
    /** AES-CBC pads to the next whole block (section 6.3 of RFC 5652). */
    predicate Encrypts(contentLength: nat) {
      && |iv| == 16 && |ephemeralPK| == 33 && |mac| == 32
      && |cipherText| == (contentLength / 16 + 1) * 16
    }
  }

  datatype Signature = Signature(der: bytes, publicKey: bytes) {
    predicate Valid() {
      |der| <= 72 && |publicKey| == 33
    }
  }

  function EncodingMember(encoding: CipherTextEncoding): seq<Member> {
    if encoding == Base64 then [Member("cipherTextEncoding", Text("base64"))] else []
  }

  function CipherObject(e: Encryption, wasString: bool, encoding: CipherTextEncoding): seq<Member> {
    [Member("iv", Text(HexOf(e.iv))),
     Member("ephemeralPK", Text(HexOf(e.ephemeralPK))),
     Member("cipherText", Text(EncodeCipherText(e.cipherText, encoding))),
     Member("mac", Text(HexOf(e.mac))),
     Member("wasString", Flag(wasString))] + EncodingMember(encoding)
  }

  function SignedCipherObject(signature: string, publicKey: string, cipherText: string): seq<Member> {
    [Member("signature", Text(signature)), Member("publicKey", Text(publicKey)), Member("cipherText", Text(cipherText))]
  }

  function EncryptContent(e: Encryption, wasString: bool, encoding: CipherTextEncoding,
                          sign: Option<Signature>): string {
    var cipherPayload := Stringify(CipherObject(e, wasString, encoding));
    match sign
    case None => cipherPayload
    case Some(s) => Stringify(SignedCipherObject(HexOf(s.der), HexOf(s.publicKey), cipherPayload))
  }

  // ----- the prediction

  function PayloadShell(wasString: bool, encoding: CipherTextEncoding): string {
    Stringify([Member("iv", Text("")), Member("ephemeralPK", Text("")), Member("mac", Text("")),
               Member("cipherText", Text("")), Member("wasString", Flag(wasString))] + EncodingMember(encoding))
  }

  function GetAesCbcOutputLength(n: nat): nat {
    (n / 16 + 1) * 16
  }

  /** `Math.ceil(n / 3) * 4`. */
  function GetBase64OutputLength(n: nat): nat {
    (n + 2) / 3 * 4
  }

  const PAYLOAD_VALUES_LENGTH := 32 + 66 + 64
  const SIGNED_PAYLOAD_VALUES_LENGTH := 144 + 66

  function EciesGetJsonStringLength(contentLength: nat, wasString: bool, sign: bool,
                                    encoding: CipherTextEncoding): nat {
    var shell := PayloadShell(wasString, encoding);
    var cipherTextLength := GetAesCbcOutputLength(contentLength);
    var encoded := if encoding == Hex then cipherTextLength * 2 else GetBase64OutputLength(cipherTextLength);
    if !sign then |shell| + PAYLOAD_VALUES_LENGTH + encoded
    else |Stringify(SignedCipherObject("", "", shell))| + SIGNED_PAYLOAD_VALUES_LENGTH + PAYLOAD_VALUES_LENGTH + encoded
  }

  // ----- what escaping adds

  /** Characters that JSON leaves alone. */
  predicate IsPlainChar(ch: char) {
    ch as int >= 0x20 && ch != '"' && ch != '\\'
  }

  predicate IsPlain(s: string) {
    forall i :: 0 <= i < |s| ==> IsPlainChar(s[i])
  }

  lemma {:induction false} EscapeAppend(a: string, b: string)
    ensures Escape(a + b) == Escape(a) + Escape(b)
  {
    if a == "" {
      assert a + b == b;
    } else {
      assert (a + b)[1..] == a[1..] + b;
      EscapeAppend(a[1..], b);
    }
  }

  lemma {:induction false} EscapePlain(s: string)
    requires IsPlain(s)
    ensures Escape(s) == s
  {
    if s != "" {
      EscapePlain(s[1..]);
      assert s == [s[0]] + s[1..];
    }
  }

  /** How many characters escaping adds to a string. */
  function Extra(s: string): int {
    |Escape(s)| - |s|
  }

  lemma ExtraAppend(a: string, b: string)
    ensures Extra(a + b) == Extra(a) + Extra(b)
  {
    EscapeAppend(a, b);
  }

  lemma ExtraPlain(s: string)
    requires IsPlain(s)
    ensures Extra(s) == 0
  {
    EscapePlain(s);
  }

  lemma ExtraQuoteMark()
    ensures Extra("\"") == 1
  {
  }

  lemma QuotePlain(s: string)
    requires IsPlain(s)
    ensures |Quote(s)| == |s| + 2 && Extra(Quote(s)) == 2
  {
    EscapePlain(s);
    ExtraQuoteMark();
    ExtraAppend(s, "\"");
    ExtraAppend("\"", s + "\"");
    ExtraPlain(s);
  }

  predicate PlainMember(m: Member) {
    IsPlain(m.key) && (m.value.Text? ==> IsPlain(m.value.text))
  }

  function ValueLength(v: Value): nat {
    match v
    case Text(text) => |text| + 2
    case Flag(flag) => if flag then 4 else 5
  }

  function QuoteMarks(v: Value): nat {
    if v.Text? then 2 else 0
  }

  lemma PlainWords()
    ensures IsPlain("true") && IsPlain("false") && IsPlain(":") && IsPlain(",") && IsPlain("{") && IsPlain("}")
  {
  }

  lemma MemberSize(m: Member)
    requires PlainMember(m)
    ensures |MemberString(m)| == |m.key| + 3 + ValueLength(m.value)
    ensures Extra(MemberString(m)) == 2 + QuoteMarks(m.value)
  {
    hide Quote, Extra, IsPlain;
    PlainWords();
    QuotePlain(m.key);
    match m.value {
      case Text(text) => QuotePlain(text);
      case Flag(flag) => ExtraPlain(if flag then "true" else "false");
    }
    ExtraPlain(":");
    ExtraAppend(":", ValueString(m.value));
    ExtraAppend(Quote(m.key), ":" + ValueString(m.value));
  }

  function TotalLength(members: seq<Member>): nat {
    if members == [] then 0
    else |members[0].key| + 4 + ValueLength(members[0].value) + TotalLength(members[1..])
  }

  function TotalMarks(members: seq<Member>): nat {
    if members == [] then 0 else 2 + QuoteMarks(members[0].value) + TotalMarks(members[1..])
  }

  lemma {:induction false} JoinSize(members: seq<Member>)
    requires members != [] && forall m :: m in members ==> PlainMember(m)
    ensures |Join(members)| == TotalLength(members) - 1
    ensures Extra(Join(members)) == TotalMarks(members)
  {
    hide MemberString, Extra, PlainMember, IsPlain, ValueLength, QuoteMarks;
    assert members[0] in members;
    MemberSize(members[0]);
    if |members| > 1 {
      JoinSize(members[1..]);
      PlainWords();
      ExtraPlain(",");
      ExtraAppend(",", Join(members[1..]));
      ExtraAppend(MemberString(members[0]), "," + Join(members[1..]));
    }
  }

  /** Length and quotation marks of an object depend on its values' lengths and kinds only. */
  lemma StringifySize(members: seq<Member>)
    requires members != [] && forall m :: m in members ==> PlainMember(m)
    ensures |Stringify(members)| == TotalLength(members) + 1
    ensures Extra(Stringify(members)) == TotalMarks(members)
  {
    hide Join, Extra, IsPlain, PlainMember, TotalLength, TotalMarks;
    JoinSize(members);
    PlainWords();
    ExtraPlain("{");
    ExtraPlain("}");
    ExtraAppend(Join(members), "}");
    ExtraAppend("{", Join(members) + "}");
  }

  lemma {:induction false} TotalsAppend(a: seq<Member>, b: seq<Member>)
    ensures TotalLength(a + b) == TotalLength(a) + TotalLength(b)
    ensures TotalMarks(a + b) == TotalMarks(a) + TotalMarks(b)
  {
    if a == [] {
      assert a + b == b;
    } else {
      assert (a + b)[1..] == a[1..] + b;
      TotalsAppend(a[1..], b);
    }
  }

  lemma TotalsOfOne(m: Member)
    ensures TotalLength([m]) == |m.key| + 4 + ValueLength(m.value)
    ensures TotalMarks([m]) == 2 + QuoteMarks(m.value)
  {
  }

  lemma TotalsOfFive(a: Member, b: Member, c: Member, d: Member, e: Member, rest: seq<Member>)
    ensures TotalLength([a, b, c, d, e] + rest) ==
            TotalLength([a]) + TotalLength([b]) + TotalLength([c]) + TotalLength([d]) + TotalLength([e]) +
            TotalLength(rest)
    ensures TotalMarks([a, b, c, d, e] + rest) ==
            TotalMarks([a]) + TotalMarks([b]) + TotalMarks([c]) + TotalMarks([d]) + TotalMarks([e]) + TotalMarks(rest)
  {
    hide TotalLength, TotalMarks;
    assert [a, b, c, d, e] + rest == [a] + ([b] + ([c] + ([d] + ([e] + rest))));
    TotalsAppend([e], rest);
    TotalsAppend([d], [e] + rest);
    TotalsAppend([c], [d] + ([e] + rest));
    TotalsAppend([b], [c] + ([d] + ([e] + rest)));
    TotalsAppend([a], [b] + ([c] + ([d] + ([e] + rest))));
  }

  // ----- hex and base64 text is plain

  lemma {:induction false} HexIsPlain(b: bytes)
    ensures IsPlain(HexOf(b)) && |HexOf(b)| == 2 * |b|
  {
    if b != [] {
      HexIsPlain(b[..|b| - 1]);
      assert forall d: nat :: d < 16 ==> IsPlainChar(HexChar(d));
    }
  }

  lemma Base64CharsArePlain()
    ensures IsPlainChar('=') && forall i: nat :: i < 64 ==> IsPlainChar(Base64Char(i))
  {
  }

  lemma {:induction false} Base64Size(b: bytes)
    ensures IsPlain(Base64Of(b)) && |Base64Of(b)| == GetBase64OutputLength(|b|)
    decreases |b|
  {
    hide Base64Char, IsPlainChar;
    Base64CharsArePlain();
    if |b| >= 3 {
      Base64Size(b[3..]);
    }
  }

  /** Test vectors of section 10 of RFC 4648. */
  lemma Base64Vectors()
    ensures Base64Of([0x66]) == "Zg==" && Base64Of([0x66, 0x6f]) == "Zm8=" && Base64Of([0x66, 0x6f, 0x6f]) == "Zm9v"
    ensures Base64Of([0x66, 0x6f, 0x6f, 0x62, 0x61, 0x72]) == "Zm9vYmFy"
  {
    var b: bytes := [0x66, 0x6f, 0x6f, 0x62, 0x61, 0x72];
    assert b[3..] == [0x62, 0x61, 0x72] && b[3..][3..] == [];
    assert Base64Of(b[3..]) == "YmFy";
  }

  lemma EncodedCipherText(b: bytes, encoding: CipherTextEncoding)
    ensures IsPlain(EncodeCipherText(b, encoding))
    ensures |EncodeCipherText(b, encoding)| == if encoding == Hex then |b| * 2 else GetBase64OutputLength(|b|)
  {
    HexIsPlain(b);
    Base64Size(b);
  }

  // ----- shell and envelope

  lemma PlainKeys()
    ensures IsPlain("iv") && IsPlain("ephemeralPK") && IsPlain("mac") && IsPlain("cipherText") && IsPlain("wasString")
    ensures IsPlain("cipherTextEncoding") && IsPlain("base64") && IsPlain("")
  {
  }

  /** The envelope exceeds its shell by the lengths of the values, and has the same quotation marks. */
  lemma EnvelopeSize(e: Encryption, contentLength: nat, wasString: bool, encoding: CipherTextEncoding)
    requires e.Encrypts(contentLength)
    ensures var payload := Stringify(CipherObject(e, wasString, encoding));
            var shell := PayloadShell(wasString, encoding);
            && |payload| == |shell| + PAYLOAD_VALUES_LENGTH + |EncodeCipherText(e.cipherText, encoding)|
            && Extra(payload) == Extra(shell)
  {
    hide IsPlain, TotalLength, TotalMarks, Stringify, HexOf, EncodeCipherText, Extra;
    PlainKeys();
    HexIsPlain(e.iv);
    HexIsPlain(e.ephemeralPK);
    HexIsPlain(e.mac);
    EncodedCipherText(e.cipherText, encoding);
    var iv, pk := Member("iv", Text(HexOf(e.iv))), Member("ephemeralPK", Text(HexOf(e.ephemeralPK)));
    var ct := Member("cipherText", Text(EncodeCipherText(e.cipherText, encoding)));
    var mac := Member("mac", Text(HexOf(e.mac)));
    var iv0, pk0 := Member("iv", Text("")), Member("ephemeralPK", Text(""));
    var ct0, mac0 := Member("cipherText", Text("")), Member("mac", Text(""));
    var flag, rest := Member("wasString", Flag(wasString)), EncodingMember(encoding);
    StringifySize([iv, pk, ct, mac, flag] + rest);
    StringifySize([iv0, pk0, mac0, ct0, flag] + rest);
    TotalsOfFive(iv, pk, ct, mac, flag, rest);
    TotalsOfFive(iv0, pk0, mac0, ct0, flag, rest);
    TotalsOfOne(iv);
    TotalsOfOne(pk);
    TotalsOfOne(ct);
    TotalsOfOne(mac);
    TotalsOfOne(iv0);
    TotalsOfOne(pk0);
    TotalsOfOne(ct0);
    TotalsOfOne(mac0);
  }

  /** The outer object of signed content: the inner JSON counts with what its own marks add. */
  lemma SignedSize(signature: string, publicKey: string, payload: string)
    requires IsPlain(signature) && IsPlain(publicKey)
    ensures |Stringify(SignedCipherObject(signature, publicKey, payload))| ==
            |Stringify(SignedCipherObject("", "", ""))| + |signature| + |publicKey| + |payload| + Extra(payload)
  {
    PlainKeys();
    JoinOfThree(signature, publicKey, payload);
    JoinOfThree("", "", "");
    EscapePlain(signature);
    EscapePlain(publicKey);
    assert Escape("") == "";
  }

  lemma JoinOfThree(signature: string, publicKey: string, payload: string)
    ensures |Stringify(SignedCipherObject(signature, publicKey, payload))| ==
            |Escape("signature")| + |Escape("publicKey")| + |Escape("cipherText")| +
            |Escape(signature)| + |Escape(publicKey)| + |Escape(payload)| + 19
  {
    hide Escape;
    var a, b := Member("signature", Text(signature)), Member("publicKey", Text(publicKey));
    var c := Member("cipherText", Text(payload));
    assert [a, b, c][1..] == [b, c] && [b, c][1..] == [c];
    assert Join([c]) == MemberString(c);
    assert Join([b, c]) == MemberString(b) + ("," + Join([c]));
    assert Join([a, b, c]) == MemberString(a) + ("," + Join([b, c]));
  }

  /**
   The prediction is exact for unsigned content, and for signed content too large by the
   octets that the DER signature falls short of 72, in hexadecimal.
   */
  lemma PredictionIsExact(e: Encryption, contentLength: nat, wasString: bool, encoding: CipherTextEncoding,
                          s: Signature)
    requires e.Encrypts(contentLength) && s.Valid()
    ensures EciesGetJsonStringLength(contentLength, wasString, false, encoding) ==
            |EncryptContent(e, wasString, encoding, None)|
    ensures EciesGetJsonStringLength(contentLength, wasString, true, encoding) ==
            |EncryptContent(e, wasString, encoding, Some(s))| + 144 - |HexOf(s.der)|
  {
    hide Stringify, HexOf, EncodeCipherText, Extra, PayloadShell, CipherObject, SignedCipherObject, IsPlain;
    PlainKeys();
    EnvelopeSize(e, contentLength, wasString, encoding);
    EncodedCipherText(e.cipherText, encoding);
    HexIsPlain(s.der);
    HexIsPlain(s.publicKey);
    SignedSize(HexOf(s.der), HexOf(s.publicKey), Stringify(CipherObject(e, wasString, encoding)));
    SignedSize("", "", PayloadShell(wasString, encoding));
  }

  /** putFile's check before encrypting, for hubs that state a maximum. */
  predicate PassesSizeCheck(maxUploadBytes: nat, contentLength: nat, wasString: bool, sign: bool,
                            encoding: CipherTextEncoding) {
    maxUploadBytes == 0 || EciesGetJsonStringLength(contentLength, wasString, sign, encoding) <= maxUploadBytes
  }

  /**
   What passes the check never exceeds the hub's limit; for unsigned content the check
   refuses nothing that would have fitted.
   */
  lemma SizeCheckIsSafe(e: Encryption, contentLength: nat, wasString: bool, encoding: CipherTextEncoding,
                        sign: Option<Signature>, maxUploadBytes: nat)
    requires e.Encrypts(contentLength) && (sign.Some? ==> sign.value.Valid()) && maxUploadBytes > 0
    ensures var size := |EncryptContent(e, wasString, encoding, sign)|;
            && (PassesSizeCheck(maxUploadBytes, contentLength, wasString, sign.Some?, encoding) ==>
                  size <= maxUploadBytes)
            && (sign.None? && size <= maxUploadBytes ==>
                  PassesSizeCheck(maxUploadBytes, contentLength, wasString, false, encoding))
  {
    hide EciesGetJsonStringLength, EncryptContent, HexOf;
    var s := if sign.Some? then sign.value else Signature([], Zeros(33));
    HexIsPlain(s.der);
    PredictionIsExact(e, contentLength, wasString, encoding, s);
  }
}

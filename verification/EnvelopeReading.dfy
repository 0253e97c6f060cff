/**
 Reading an encrypted upload back: the JSON that encryptContent builds, and the parts of it that
 decryptECIES and the check of signed content use (packages/encryption/src/ec.ts and
 packages/storage/src/storage.ts).
 */
module EnvelopeReading {
  import opened Results
  import opened Bytes
  import opened HexCodec
  import opened CipherSize

  /** What was read, and the text after it. */
  datatype Scan<+T> = Scan(value: T, rest: string)

  // ----- JSON without white space, over strings and booleans (RFC 8259)

  function Unescape(ch: char): Option<char> {
    match ch
    case '"' => Some('"')
    case '\\' => Some('\\')
    case '/' => Some('/')
    case 'b' => Some(8 as char)
    case 'f' => Some(12 as char)
    case 'n' => Some('\n')
    case 'r' => Some('\r')
    case 't' => Some('\t')
    case _ => None
  }

  function ReadChar(s: string): (r: Option<Scan<char>>)
    requires s != ""
    ensures r.Some? ==> |r.value.rest| < |s|
  {
    if s[0] as int < 0x20 then None
    else if s[0] != '\\' then Some(Scan(s[0], s[1..]))
    else if |s| < 2 then None
    else if s[1] == 'u' then
      if |s| >= 6 && IsHex(s[2..6]) && HexValue(s[2..6]) < 0xD800 then Some(Scan(HexValue(s[2..6]) as char, s[6..]))
      else None
    else if Unescape(s[1]).Some? then Some(Scan(Unescape(s[1]).value, s[2..]))
    else None
  }

  /** The rest of a string after its opening quotation mark. */
  function ReadString(s: string): (r: Option<Scan<string>>)
    ensures r.Some? ==> |r.value.rest| < |s|
    decreases |s|
  {
    if s == "" then None
    else if s[0] == '"' then Some(Scan("", s[1..]))
    else
      match ReadChar(s)
      case None => None
      case Some(first) =>
        match ReadString(first.rest)
        case None => None
        case Some(tail) => Some(Scan([first.value] + tail.value, tail.rest))
  }

  function ReadValue(s: string): (r: Option<Scan<Value>>)
    ensures r.Some? ==> |r.value.rest| < |s|
  {
    if s == "" then None
    else if s[0] == '"' then
      match ReadString(s[1..])
      case None => None
      case Some(text) => Some(Scan(Text(text.value), text.rest))
    else if |s| >= 4 && s[..4] == "true" then Some(Scan(Flag(true), s[4..]))
    else if |s| >= 5 && s[..5] == "false" then Some(Scan(Flag(false), s[5..]))
    else None
  }

  function ReadMember(s: string): (r: Option<Scan<Member>>)
    ensures r.Some? ==> |r.value.rest| < |s|
  {
    if s == "" || s[0] != '"' then None
    else
      match ReadString(s[1..])
      case None => None
      case Some(key) =>
        if key.rest == "" || key.rest[0] != ':' then None
        else
          match ReadValue(key.rest[1..])
          case None => None
          case Some(v) => Some(Scan(Member(key.value, v.value), v.rest))
  }

  /** Members up to the closing brace, with which the text must end. */
  function ReadMembers(s: string): Option<seq<Member>>
    decreases |s|
  {
    match ReadMember(s)
    case None => None
    case Some(first) =>
      if first.rest == "}" then Some([first.value])
      else if first.rest != "" && first.rest[0] == ',' then
        match ReadMembers(first.rest[1..])
        case None => None
        case Some(rest) => Some([first.value] + rest)
      else None
  }

  function ReadObject(s: string): Option<seq<Member>> {
    if s == "{}" then Some([])
    else if s != "" && s[0] == '{' then ReadMembers(s[1..])
    else None
  }

  // ----- what was written is read

  lemma ControlCharacters(u: nat)
    requires u < 0x20
    ensures var h := [HexChar(u / 16), HexChar(u % 16)];
            IsHex("00" + h) && HexValue("00" + h) == u
  {
    assert HexPair(u) == HexOf([u]) by {
      assert [u][..0] == [];
    }
    HexOfValue([u]);
    var h := HexPair(u);
    assert FromBE([u]) == u by {
      assert [u][..0] == [];
    }
    HexValuePrependZero(h);
    HexValuePrependZero("0" + h);
    assert "0" + ("0" + h) == "00" + h;
  }

  lemma CharReadBack(ch: char, x: string)
    ensures EscapeChar(ch) != "" && EscapeChar(ch)[0] != '"'
    ensures ReadChar(EscapeChar(ch) + x) == Some(Scan(ch, x))
  {
    var u, e := ch as int, EscapeChar(ch);
    var s := e + x;
    assert s[|e|..] == x;
    if u < 0x20 && u !in {8, 9, 10, 12, 13} {
      ControlCharacters(u);
      assert s[2..6] == "00" + [HexChar(u / 16), HexChar(u % 16)];
    }
  }

  lemma {:induction false} StringReadBack(text: string, x: string)
    ensures ReadString(Escape(text) + ("\"" + x)) == Some(Scan(text, x))
  {
    hide EscapeChar, ReadChar;
    var close := "\"" + x;
    if text == "" {
      assert Escape(text) + close == close && close[1..] == x;
    } else {
      var tail := Escape(text[1..]) + close;
      CharReadBack(text[0], tail);
      StringReadBack(text[1..], x);
      assert Escape(text) + close == EscapeChar(text[0]) + tail;
      assert text == [text[0]] + text[1..];
    }
  }

  lemma QuoteReadBack(text: string, x: string)
    ensures var s := Quote(text) + x; s != "" && s[0] == '"' && ReadString(s[1..]) == Some(Scan(text, x))
  {
    hide Escape, ReadString;
    StringReadBack(text, x);
    assert (Quote(text) + x)[1..] == Escape(text) + ("\"" + x);
  }

  lemma ValueReadBack(v: Value, x: string)
    ensures ReadValue(ValueString(v) + x) == Some(Scan(v, x))
  {
    hide Quote, ReadString;
    var s := ValueString(v) + x;
    match v
    case Text(text) => QuoteReadBack(text, x);
    case Flag(true) => assert s[..4] == "true" && s[4..] == x;
    case Flag(false) => assert s[..5] == "false" && s[5..] == x;
  }

  lemma MemberReadBack(m: Member, x: string)
    ensures ReadMember(MemberString(m) + x) == Some(Scan(m, x))
  {
    hide Quote, ReadString, ValueString, ReadValue;
    var v := ValueString(m.value) + x;
    QuoteReadBack(m.key, ":" + v);
    ValueReadBack(m.value, x);
    assert MemberString(m) + x == Quote(m.key) + (":" + v);
    assert (":" + v)[1..] == v;
  }

  lemma JoinFirst(members: seq<Member>)
    requires members != []
    ensures |members| == 1 ==> Join(members) + "}" == MemberString(members[0]) + "}"
    ensures |members| > 1 ==> Join(members) + "}" == MemberString(members[0]) + ("," + (Join(members[1..]) + "}"))
  {
    hide MemberString;
    if |members| > 1 {
      Regroup(MemberString(members[0]), Join(members[1..]));
    }
  }

  lemma Regroup(a: string, b: string)
    ensures a + ("," + b) + "}" == a + ("," + (b + "}"))
  {
  }

  lemma {:induction false} MembersReadBack(members: seq<Member>)
    requires members != []
    ensures ReadMembers(Join(members) + "}") == Some(members)
  {
    hide MemberString, ReadMember, Join;
    var m := members[0];
    JoinFirst(members);
    assert members == [m] + members[1..];
    if |members| == 1 {
      MemberReadBack(m, "}");
      assert members == [m];
    } else {
      var tail := Join(members[1..]) + "}";
      MemberReadBack(m, "," + tail);
      MembersReadBack(members[1..]);
      assert ("," + tail)[1..] == tail;
    }
  }

  /** An object of strings and booleans, whatever they hold, is read back from its JSON. */
  lemma ObjectReadBack(members: seq<Member>)
    ensures ReadObject(Stringify(members)) == Some(members)
  {
    var s := Stringify(members);
    if members == [] {
      assert Join(members) == "" && s == "{}";
    } else {
      hide Join, ReadMembers;
      assert s[1..] == Join(members) + "}";
      MembersReadBack(members);
      JoinIsNotEmpty(members);
    }
  }

  lemma JoinIsNotEmpty(members: seq<Member>)
    requires members != []
    ensures Join(members) != ""
  {
  }

  // ----- base64 (section 4 of RFC 4648)

  function Sextet(ch: char): (r: Option<nat>)
    ensures r.Some? ==> r.value < 64
  {
    if 'A' <= ch <= 'Z' then Some(ch as int - 'A' as int)
    else if 'a' <= ch <= 'z' then Some(ch as int - 'a' as int + 26)
    else if '0' <= ch <= '9' then Some(ch as int - '0' as int + 52)
    else if ch == '+' then Some(62)
    else if ch == '/' then Some(63)
    else None
  }

  /** The octets of four characters; one or two at the end of the text may be padding. */
  function Quantum(s: string): Option<bytes>
    requires |s| == 4
  {
    match (Sextet(s[0]), Sextet(s[1]), Sextet(s[2]), Sextet(s[3]))
    case (Some(a), Some(b), Some(c), Some(d)) => Some([a * 4 + b / 16, b % 16 * 16 + c / 4, c % 4 * 64 + d])
    case (Some(a), Some(b), Some(c), None) =>
      if s[3] == '=' then Some([a * 4 + b / 16, b % 16 * 16 + c / 4]) else None
    case (Some(a), Some(b), None, None) => if s[2] == s[3] == '=' then Some([a * 4 + b / 16]) else None
    case _ => None
  }

  function FromBase64(s: string): Option<bytes>
    decreases |s|
  {
    if s == "" then Some([])
    else if |s| < 4 then None
    else
      match (Quantum(s[..4]), FromBase64(s[4..]))
      case (Some(first), Some(rest)) => if |first| == 3 || rest == [] then Some(first + rest) else None
      case _ => None
  }

  lemma SextetReadBack(i: nat)
    requires i < 64
    ensures Sextet(Base64Char(i)) == Some(i)
  {
  }

  lemma TripleReadBack(x: byte, y: byte, z: byte)
    ensures var a, b, c, d := x / 4, x % 4 * 16 + y / 16, y % 16 * 4 + z / 64, z % 64;
            && a < 64 && b < 64 && c < 64
            && x == a * 4 + b / 16 && y == b % 16 * 16 + c / 4 && z == c % 4 * 64 + d
  {
  }

  lemma FullQuantum(x: byte, y: byte, z: byte)
    ensures Quantum([Base64Char(x / 4), Base64Char(x % 4 * 16 + y / 16), Base64Char(y % 16 * 4 + z / 64),
                     Base64Char(z % 64)]) == Some([x, y, z])
  {
    hide Sextet, Base64Char;
    TripleReadBack(x, y, z);
    SextetReadBack(x / 4);
    SextetReadBack(x % 4 * 16 + y / 16);
    SextetReadBack(y % 16 * 4 + z / 64);
    SextetReadBack(z % 64);
  }

  lemma LastQuantum(x: byte, y: byte)
    ensures Quantum([Base64Char(x / 4), Base64Char(x % 4 * 16)] + "==") == Some([x])
    ensures Quantum([Base64Char(x / 4), Base64Char(x % 4 * 16 + y / 16), Base64Char(y % 16 * 4)] + "=") == Some([x, y])
  {
    hide Base64Char;
    TripleReadBack(x, y, 0);
    TripleReadBack(x, 0, 0);
    SextetReadBack(x / 4);
    SextetReadBack(x % 4 * 16);
    SextetReadBack(x % 4 * 16 + y / 16);
    SextetReadBack(y % 16 * 4);
  }

  lemma {:induction false} Base64RoundTrip(b: bytes)
    ensures FromBase64(Base64Of(b)) == Some(b)
    decreases |b|
  {
    hide Quantum, Base64Char;
    var s := Base64Of(b);
    if b == [] {
    } else if |b| < 3 {
      LastQuantum(b[0], if |b| == 2 then b[1] else 0);
      assert s[..4] == s && s[4..] == "" && b + [] == b;
      assert b == if |b| == 1 then [b[0]] else [b[0], b[1]];
      assert FromBase64("") == Some([]);
    } else {
      FullQuantum(b[0], b[1], b[2]);
      Base64RoundTrip(b[3..]);
      assert s[4..] == Base64Of(b[3..]);
      assert b == [b[0], b[1], b[2]] + b[3..];
    }
  }

  // ----- the envelope

  function Lookup(members: seq<Member>, key: string): Option<Value> {
    if members == [] then None
    else if members[0].key == key then Some(members[0].value)
    else Lookup(members[1..], key)
  }

  function LookupText(members: seq<Member>, key: string): Option<string> {
    match Lookup(members, key)
    case Some(Text(text)) => Some(text)
    case _ => None
  }

  function LookupOctets(members: seq<Member>, key: string): Option<bytes> {
    match LookupText(members, key)
    case Some(text) => ParseHex(text)
    case None => None
  }

  /** The cipher text is hexadecimal unless the envelope says otherwise. */
  function LookupCipherText(members: seq<Member>): Option<bytes> {
    match Lookup(members, "cipherTextEncoding")
    case None | Some(Text("hex")) => LookupOctets(members, "cipherText")
    case Some(Text("base64")) =>
      (match LookupText(members, "cipherText")
       case Some(text) => FromBase64(text)
       case None => None)
    case _ => None
  }

  /** What decryptECIES takes from an envelope: everything but the decryption itself. */
  function ReadEnvelope(json: string): Option<(Encryption, bool)> {
    match ReadObject(json)
    case None => None
    case Some(members) =>
      if LookupText(members, "ephemeralPK") == Some("") then None
      else
        match (LookupOctets(members, "iv"), LookupOctets(members, "ephemeralPK"), LookupCipherText(members),
               LookupOctets(members, "mac"))
        case (Some(iv), Some(pk), Some(cipherText), Some(mac)) =>
          Some((Encryption(iv, pk, cipherText, mac), Lookup(members, "wasString") == Some(Flag(true))))
        case _ => None
  }

  /** What the check of signed content takes: the signature, and the text it is of. */
  function ReadSigned(json: string): Option<(Signature, string)> {
    match ReadObject(json)
    case None => None
    case Some(members) =>
      match (LookupOctets(members, "signature"), LookupOctets(members, "publicKey"), LookupText(members, "cipherText"))
      case (Some(der), Some(publicKey), Some(payload)) => Some((Signature(der, publicKey), payload))
      case _ => None
  }

  lemma {:induction false} LookupFinds(members: seq<Member>, i: nat)
    requires i < |members| && forall j :: 0 <= j < i ==> members[j].key != members[i].key
    ensures Lookup(members, members[i].key) == Some(members[i].value)
  {
    if i > 0 {
      LookupFinds(members[1..], i - 1);
    }
  }

  lemma {:induction false} LookupMisses(members: seq<Member>, key: string)
    requires forall m :: m in members ==> m.key != key
    ensures Lookup(members, key) == None
  {
    if members != [] {
      LookupMisses(members[1..], key);
    }
  }

  lemma MembersOfEnvelope(e: Encryption, wasString: bool, encoding: CipherTextEncoding)
    ensures var members := CipherObject(e, wasString, encoding);
            && Lookup(members, "iv") == Some(Text(HexOf(e.iv)))
            && Lookup(members, "ephemeralPK") == Some(Text(HexOf(e.ephemeralPK)))
            && Lookup(members, "cipherText") == Some(Text(EncodeCipherText(e.cipherText, encoding)))
            && Lookup(members, "mac") == Some(Text(HexOf(e.mac)))
            && Lookup(members, "wasString") == Some(Flag(wasString))
            && Lookup(members, "cipherTextEncoding") == if encoding == Base64 then Some(Text("base64")) else None
  {
    hide Lookup, HexOf, EncodeCipherText;
    var members := CipherObject(e, wasString, encoding);
    LookupFinds(members, 0);
    LookupFinds(members, 1);
    LookupFinds(members, 2);
    LookupFinds(members, 3);
    LookupFinds(members, 4);
    if encoding == Base64 {
      LookupFinds(members, 5);
    } else {
      LookupMisses(members, "cipherTextEncoding");
    }
  }

  /** Whoever reads the envelope gets every part of what encryptECIES made, in either encoding. */
  lemma EnvelopeReadBack(e: Encryption, wasString: bool, encoding: CipherTextEncoding)
    requires e.ephemeralPK != []
    ensures ReadEnvelope(EncryptContent(e, wasString, encoding, None)) == Some((e, wasString))
  {
    hide ReadObject, Stringify, CipherObject, Lookup, HexOf, Base64Of, ParseHex, FromBase64;
    ObjectReadBack(CipherObject(e, wasString, encoding));
    MembersOfEnvelope(e, wasString, encoding);
    HexRoundTrip(e.iv);
    HexRoundTrip(e.ephemeralPK);
    HexRoundTrip(e.mac);
    HexRoundTrip(e.cipherText);
    Base64RoundTrip(e.cipherText);
    HexIsPlain(e.ephemeralPK);
  }

  /** Signed content carries the signature and, unchanged, the envelope that was signed. */
  lemma SignedReadBack(e: Encryption, wasString: bool, encoding: CipherTextEncoding, s: Signature)
    ensures ReadSigned(EncryptContent(e, wasString, encoding, Some(s))) ==
            Some((s, EncryptContent(e, wasString, encoding, None)))
  {
    hide ReadObject, Stringify, CipherObject, HexOf, ParseHex, Lookup;
    var payload := Stringify(CipherObject(e, wasString, encoding));
    var members := SignedCipherObject(HexOf(s.der), HexOf(s.publicKey), payload);
    ObjectReadBack(members);
    LookupFinds(members, 0);
    LookupFinds(members, 1);
    LookupFinds(members, 2);
    HexRoundTrip(s.der);
    HexRoundTrip(s.publicKey);
  }
}

/** The framing of messages to be signed (packages/encryption/src/messageSignature.ts). */
module MessageSignature {
  import opened Results
  import opened Bytes
  import opened JsBits
  import opened Varuint

  function EncodeMessage(message: bytes, prefix: bytes): Result<bytes, RangeError> {
    if IsUInt53(|message|) then Ok(prefix + Encoding(|message|) + message) else Err(ValueOutOfRange)
  }

  /** `slice` and `subarray` clamp their bound to the length. */
  function From(s: bytes, start: nat): bytes {
    if start <= |s| then s[start..] else []
  }

  function DecodeMessage(encoded: bytes, prefix: bytes): Result<bytes, RangeError> {
    var rest := From(encoded, |prefix|);
    var decoded :- Decode(rest, 0);
    var varIntLength :- EncodingLength(decoded);
    Ok(From(rest, varIntLength))
  }

  /** A framed message is the prefix, the length of the message, and the message. */
  lemma MessageLayout(message: bytes, prefix: bytes)
    ensures EncodeMessage(message, prefix).Ok? <==> |message| < 9007199254740992
    ensures EncodeMessage(message, prefix).Ok? ==>
              var e, n := EncodeMessage(message, prefix).value, EncodingLength(|message|).value;
              && |e| == |prefix| + n + |message|
              && e[..|prefix|] == prefix
              && e[|prefix|..|prefix| + n] == Encoding(|message|)
              && e[|prefix| + n..] == message
  {
    if IsUInt53(|message|) {
      EncodingHasEncodingLength(|message|);
    }
  }

  /**
   Decoding inverts encoding exactly when the message length is not misread: the signed
   word only does harm when the length has bit 31 set and is below 2^33.
   */
  lemma MessageRoundTrip(message: bytes, prefix: bytes)
    requires EncodeMessage(message, prefix).Ok?
    ensures DecodeMessage(EncodeMessage(message, prefix).value, prefix) == Ok(message)
            <==> !(Bit31Set(|message|) && |message| < 2 * TWO_32)
  {
    var n := |message|;
    var encoded := EncodeMessage(message, prefix).value;
    var rest := From(encoded, |prefix|);
    assert rest == [] + Encoding(n) + message;
    DecodeAfterEncode(n, [], message);
    EncodingHasEncodingLength(n);
    if !(Bit31Set(n) && n < 2 * TWO_32) {
      assert From(rest, |Encoding(n)|) == message;
    } else if n >= TWO_32 {
      assert |From(rest, 5)| == n + 4;
    }
  }
}

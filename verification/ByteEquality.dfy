/** The comparison of authentication codes before decryption (packages/encryption/src/ec.ts). */
module ByteEquality {
  import opened Bytes
  import opened JsBits

  /** Looks at every octet whatever it finds, and still decides equality. */
  method EqualsConstTime(a: bytes, b: bytes) returns (r: bool)
    ensures r <==> a == b
  {
    if |a| != |b| {
      return false;
    }
    var res := 0;
    for i := 0 to |a|
      invariant 0 <= res < 256
      invariant res == 0 <==> a[..i] == b[..i]
    {
      BitXorZero(a[i], b[i]);
      OrOctets(res, XorByte(a[i], b[i]));
      assert a[..i + 1] == a[..i] + [a[i]] && b[..i + 1] == b[..i] + [b[i]];
      res := Or(res, XorByte(a[i], b[i]));
    }
    assert a[..|a|] == a && b[..|b|] == b;
    r := res == 0;
  }
}

/** Sorting public keys, as `Array.prototype.sort` orders their hexadecimal forms. */
module PublicKeyOrder {
  import opened Bytes
  import opened HexCodec
  import opened Results

  predicate Leq(a: bytes, b: bytes) {
    a == [] || (b != [] && (a[0] < b[0] || (a[0] == b[0] && Leq(a[1..], b[1..]))))
  }

  predicate Ascending(keys: seq<bytes>) {
    forall i :: 0 < i < |keys| ==> Leq(keys[i - 1], keys[i])
  }

  function Insert(key: bytes, keys: seq<bytes>): seq<bytes> {
    if keys == [] || Leq(key, keys[0]) then [key] + keys else [keys[0]] + Insert(key, keys[1..])
  }

  function Sorted(keys: seq<bytes>): seq<bytes> {
    if keys == [] then [] else Insert(keys[0], Sorted(keys[1..]))
  }

  lemma {:induction false} LeqTotal(a: bytes, b: bytes)
    ensures Leq(a, b) || Leq(b, a)
  {
    if a != [] && b != [] && a[0] == b[0] {
      LeqTotal(a[1..], b[1..]);
    }
  }

  lemma {:induction false} InsertAscending(key: bytes, keys: seq<bytes>)
    requires Ascending(keys)
    ensures Ascending(Insert(key, keys))
    ensures multiset(Insert(key, keys)) == multiset(keys) + multiset{key}
  {
    if keys == [] || Leq(key, keys[0]) {
    } else {
      var rest := keys[1..];
      LeqTotal(key, keys[0]);
      InsertAscending(key, rest);
      assert keys == [keys[0]] + rest;
      var r := Insert(key, rest);
      assert r[0] == key || (rest != [] && r[0] == rest[0] == keys[1]);
    }
  }

  lemma {:induction false} SortedIsSorted(keys: seq<bytes>)
    ensures Ascending(Sorted(keys)) && multiset(Sorted(keys)) == multiset(keys)
  {
    if keys != [] {
      SortedIsSorted(keys[1..]);
      InsertAscending(keys[0], Sorted(keys[1..]));
      assert keys == [keys[0]] + keys[1..];
    }
  }

  // ----- the ascending permutation is unique

  lemma {:induction false} LeqAntisymmetric(a: bytes, b: bytes)
    requires Leq(a, b) && Leq(b, a)
    ensures a == b
  {
    if a != [] && b != [] {
      LeqAntisymmetric(a[1..], b[1..]);
      assert a == [a[0]] + a[1..] && b == [b[0]] + b[1..];
    }
  }

  lemma {:induction false} LeqTransitive(a: bytes, b: bytes, c: bytes)
    requires Leq(a, b) && Leq(b, c)
    ensures Leq(a, c)
  {
    if a != [] && a[0] == b[0] == c[0] {
      LeqTransitive(a[1..], b[1..], c[1..]);
    }
  }

  lemma {:induction false} FirstIsLeast(keys: seq<bytes>, i: nat)
    requires Ascending(keys) && i < |keys|
    ensures Leq(keys[0], keys[i])
  {
    if i == 0 {
      LeqTotal(keys[0], keys[0]);
    } else {
      FirstIsLeast(keys, i - 1);
      LeqTransitive(keys[0], keys[i - 1], keys[i]);
    }
  }

  lemma FirstOccurs(a: seq<bytes>, b: seq<bytes>) returns (i: nat)
    requires a != [] && multiset(a) == multiset(b)
    ensures i < |b| && b[i] == a[0]
  {
    assert a[0] in multiset(b);
    i :| 0 <= i < |b| && b[i] == a[0];
  }

  lemma SameRest(a: seq<bytes>, b: seq<bytes>)
    requires a != [] && b != [] && a[0] == b[0] && multiset(a) == multiset(b)
    ensures multiset(a[1..]) == multiset(b[1..])
    ensures a[1..] == b[1..] ==> a == b
  {
    assert a == [a[0]] + a[1..] && b == [b[0]] + b[1..];
    assert multiset(a[1..]) == multiset(a) - multiset{a[0]};
    assert multiset(b[1..]) == multiset(b) - multiset{b[0]};
  }

  /** Keys have one ascending arrangement only, so sorting them means nothing else. */
  lemma {:induction false} AscendingIsUnique(a: seq<bytes>, b: seq<bytes>)
    requires Ascending(a) && Ascending(b) && multiset(a) == multiset(b)
    ensures a == b
  {
    hide Leq;
    assert |multiset(a)| == |multiset(b)|;
    if a != [] {
      var i := FirstOccurs(a, b);
      var j := FirstOccurs(b, a);
      FirstIsLeast(a, j);
      FirstIsLeast(b, i);
      LeqAntisymmetric(a[0], b[0]);
      SameRest(a, b);
      AscendingIsUnique(a[1..], b[1..]);
    }
  }

  // ----- the order is that of the hexadecimal texts

  /** How JavaScript compares strings: by code units, and a prefix before what it starts. */
  predicate TextLeq(s: string, t: string) {
    s == "" || (t != "" && (s[0] < t[0] || (s[0] == t[0] && TextLeq(s[1..], t[1..]))))
  }

  lemma {:induction false} HexOfFirst(b: bytes)
    requires b != []
    ensures HexOf(b) == HexPair(b[0]) + HexOf(b[1..])
  {
    if |b| > 1 {
      var init := b[..|b| - 1];
      HexOfFirst(init);
      assert init[1..] == b[1..][..|b| - 2];
    } else {
      assert b == [] + [b[0]] && b[1..] == [] && b[..0] == [];
    }
  }

  lemma DigitsAscend(u: nat, v: nat)
    requires u < 16 && v < 16
    ensures HexChar(u) < HexChar(v) <==> u < v
    ensures HexChar(u) == HexChar(v) <==> u == v
  {
    assert DigitValue(HexChar(u)) == Some(u) && DigitValue(HexChar(v)) == Some(v);
  }

  /** The order of the octets is the one in which JavaScript sorts their hexadecimal texts. */
  lemma {:induction false} OrderOfHexTexts(a: bytes, b: bytes)
    ensures Leq(a, b) <==> TextLeq(HexOf(a), HexOf(b))
  {
    if a != [] && b != [] {
      HexOfFirst(a);
      HexOfFirst(b);
      OrderOfHexTexts(a[1..], b[1..]);
      var s, t := HexOf(a), HexOf(b);
      assert s[1..][1..] == HexOf(a[1..]) && t[1..][1..] == HexOf(b[1..]);
      DigitsAscend(a[0] / 16, b[0] / 16);
      DigitsAscend(a[0] % 16, b[0] % 16);
    } else if a != [] {
      HexOfFirst(a);
    }
  }
}

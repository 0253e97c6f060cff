/**
 Checking Clarity values against ABI types (packages/transactions/src/contract-abi.ts), and
 the order on types that this check induces.
 */
module AbiMatching {
  import opened Results
  import opened AbiTypes
  import Bytes
  import HexCodec

  /** Buffers are held in hexadecimal; string lengths count code units. */
  datatype ClarityValue =
    | BoolTrue
    | BoolFalse
    | IntCV(value: int)
    | UIntCV(amount: nat)
    | BufferCV(hex: string)
    | StringAsciiCV(text: string)
    | StringUtf8CV(text: string)
    | OptionalNone
    | OptionalSome(inner: ClarityValue)
    | ResponseOk(inner: ClarityValue)
    | ResponseErr(inner: ClarityValue)
    | PrincipalStandard(address: string)
    | PrincipalContract(address: string)
    | ListCV(items: seq<ClarityValue>)
    | TupleCV(entries: map<string, ClarityValue>)

  predicate DistinctNames(fields: seq<AbiField>) {
    forall i, j :: 0 <= i < j < |fields| ==> fields[i].name != fields[j].name
  }

  /**
   Reference definition of matchType. A tuple type with a repeated name matches nothing; with
   distinct names, every declared field must be present and match, and others may be present.
   */
  predicate Matches(v: ClarityValue, t: AbiType)
    decreases t
  {
    match v
    case BoolTrue | BoolFalse => t.Bool?
    case IntCV(_) => t.Int128?
    case UIntCV(_) => t.UInt128?
    case BufferCV(hex) => t.Buffer? && t.length >= (|hex| + 1) / 2
    case StringAsciiCV(text) => t.StringAscii? && t.length >= |text|
    case StringUtf8CV(text) => t.StringUtf8? && t.length >= |text|
    case OptionalNone => t.NoneType? || t.Optional?
    case OptionalSome(inner) => t.Optional? && Matches(inner, t.some)
    case ResponseErr(inner) => t.Response? && Matches(inner, t.error)
    case ResponseOk(inner) => t.Response? && Matches(inner, t.ok)
    case PrincipalContract(_) => t.Principal? || t.TraitReference?
    case PrincipalStandard(_) => t.Principal?
    case ListCV(items) => t.List? && t.length >= |items| && forall x :: x in items ==> Matches(x, t.element)
    case TupleCV(entries) =>
      && t.Tuple?
      && DistinctNames(t.fields)
      && forall f :: f in t.fields ==> f.name in entries && Matches(entries[f.name], f.ty)
  }

  function NamesOf(fields: seq<AbiField>): set<string> {
    set f | f in fields :: f.name
  }

  /** matchType; the tuple case checks the fields in order, deleting each from a clone. */
  method MatchType(v: ClarityValue, t: AbiType) returns (r: bool)
    ensures r == Matches(v, t)
    decreases t, 1
  {
    match v {
      case BoolTrue | BoolFalse => r := t.Bool?;
      case IntCV(_) => r := t.Int128?;
      case UIntCV(_) => r := t.UInt128?;
      case BufferCV(hex) => r := t.Buffer? && t.length >= (|hex| + 1) / 2;
      case StringAsciiCV(text) => r := t.StringAscii? && t.length >= |text|;
      case StringUtf8CV(text) => r := t.StringUtf8? && t.length >= |text|;
      case OptionalNone => r := t.NoneType? || t.Optional?;
      case OptionalSome(inner) =>
        r := t.Optional?;
        if r {
          r := MatchType(inner, t.some);
        }
      case ResponseErr(inner) =>
        r := t.Response?;
        if r {
          r := MatchType(inner, t.error);
        }
      case ResponseOk(inner) =>
        r := t.Response?;
        if r {
          r := MatchType(inner, t.ok);
        }
      case PrincipalContract(_) => r := t.Principal? || t.TraitReference?;
      case PrincipalStandard(_) => r := t.Principal?;
      case ListCV(items) =>
        r := t.List? && t.length >= |items|;
        if r {
          r := MatchItems(items, t);
        }
      case TupleCV(entries) =>
        r := t.Tuple?;
        if r {
          r := MatchFields(entries, t);
        }
    }
  }

  method MatchItems(items: seq<ClarityValue>, t: AbiType) returns (r: bool)
    requires t.List?
    ensures r == forall x :: x in items ==> Matches(x, t.element)
    decreases t, 0
  {
    for i := 0 to |items|
      invariant forall x :: x in items[..i] ==> Matches(x, t.element)
    {
      var ok := MatchType(items[i], t.element);
      if !ok {
        assert items[i] in items;
        return false;
      }
    }
    assert items[..|items|] == items;
    r := true;
  }

  method MatchFields(entries: map<string, ClarityValue>, t: AbiType) returns (r: bool)
    requires t.Tuple?
    ensures r == Matches(TupleCV(entries), t)
    decreases t, 0
  {
    var fields := t.fields;
    var tuple := entries;
    for i := 0 to |fields|
      invariant tuple == entries - NamesOf(fields[..i])
      invariant DistinctNames(fields[..i])
      invariant forall f :: f in fields[..i] ==> f.name in entries && Matches(entries[f.name], f.ty)
    {
      var f := fields[i];
      assert f in fields;
      assert fields[..i + 1] == fields[..i] + [f];
      if f.name !in tuple {
        if f.name in entries {
          var g :| g in fields[..i] && g.name == f.name;
          var j :| 0 <= j < i && fields[j] == g;
          assert fields[j].name == fields[i].name;
        }
        return false;
      }
      var ok := MatchType(tuple[f.name], f.ty);
      if !ok {
        return false;
      }
      assert f.name !in NamesOf(fields[..i]);
      assert forall j :: 0 <= j < i ==> fields[..i][j].name in NamesOf(fields[..i]);
      tuple := tuple - {f.name};
    }
    assert fields[..|fields|] == fields;
    r := true;
  }

  // ----- the values of each type

  /** Which values the basic types have. */
  lemma ValuesOfBasicTypes(v: ClarityValue)
    ensures Matches(v, UInt128) <==> v.UIntCV?
    ensures Matches(v, Int128) <==> v.IntCV?
    ensures Matches(v, Bool) <==> v == BoolTrue || v == BoolFalse
  {
    match v
    case BoolTrue | BoolFalse =>
    case _ =>
  }

  lemma ValuesOfPrincipals(v: ClarityValue)
    ensures Matches(v, Principal) <==> v.PrincipalStandard? || v.PrincipalContract?
    ensures Matches(v, TraitReference) <==> v.PrincipalContract?
    ensures Matches(v, NoneType) <==> v == OptionalNone
  {
    match v
    case OptionalNone =>
    case _ =>
  }

  /** A bound is met up to and including the bound itself; that of a buffer counts octets, two digits each. */
  lemma ValuesOfBoundedTypes(v: ClarityValue, n: nat)
    ensures Matches(v, Buffer(n)) <==> v.BufferCV? && |v.hex| <= 2 * n
    ensures Matches(v, StringAscii(n)) <==> v.StringAsciiCV? && |v.text| <= n
    ensures Matches(v, StringUtf8(n)) <==> v.StringUtf8CV? && |v.text| <= n
  {
  }

  /** Octets match a buffer type exactly when they are no more than its length. */
  lemma OctetsMatchBuffer(b: Bytes.bytes, n: nat)
    ensures Matches(BufferCV(HexCodec.HexOf(b)), Buffer(n)) <==> |b| <= n
  {
    hide Matches, HexCodec.HexOf, HexCodec.HexValue, HexCodec.IsHex, Bytes.FromBE;
    HexCodec.HexOfValue(b);
    ValuesOfBoundedTypes(BufferCV(HexCodec.HexOf(b)), n);
  }

  /** A value of a compound type is made of values of the right parts of the type. */
  lemma ValuesOfAlternatives(v: ClarityValue, a: AbiType, b: AbiType)
    ensures Matches(v, Optional(a)) <==> v == OptionalNone || (v.OptionalSome? && Matches(v.inner, a))
    ensures Matches(v, Response(a, b)) <==>
            (v.ResponseOk? && Matches(v.inner, a)) || (v.ResponseErr? && Matches(v.inner, b))
  {
    match v
    case OptionalNone =>
    case _ =>
  }

  lemma ValuesOfLists(v: ClarityValue, n: nat, a: AbiType)
    ensures Matches(v, List(n, a)) <==>
            v.ListCV? && |v.items| <= n && forall i :: 0 <= i < |v.items| ==> Matches(v.items[i], a)
  {
    match v
    case ListCV(items) =>
      assert forall i :: 0 <= i < |items| ==> items[i] in items;
    case _ =>
  }

  lemma ValuesOfTuples(v: ClarityValue, fields: seq<AbiField>)
    ensures Matches(v, Tuple(fields)) <==>
            && v.TupleCV?
            && (forall i, j :: 0 <= i < j < |fields| ==> fields[i].name != fields[j].name)
            && (forall i :: 0 <= i < |fields| ==>
                  fields[i].name in v.entries && Matches(v.entries[fields[i].name], fields[i].ty))
  {
    match v
    case TupleCV(entries) =>
      assert forall i :: 0 <= i < |fields| ==> fields[i] in fields;
    case _ =>
  }

  // ----- tuples

  lemma RepeatedNameMatchesNothing(v: ClarityValue, fields: seq<AbiField>)
    requires !DistinctNames(fields)
    ensures !Matches(v, Tuple(fields))
  {
  }

  /** The order of declared fields does not matter. */
  lemma FieldOrderIsIrrelevant(v: ClarityValue, fs: seq<AbiField>, gs: seq<AbiField>)
    requires DistinctNames(fs) && DistinctNames(gs) && forall f :: f in fs <==> f in gs
    ensures Matches(v, Tuple(fs)) == Matches(v, Tuple(gs))
  {
  }

  /** Only the declared entries are looked at. */
  lemma ExtraEntriesAreIgnored(a: map<string, ClarityValue>, b: map<string, ClarityValue>, fields: seq<AbiField>)
    requires forall f :: f in fields ==> (f.name in a <==> f.name in b)
    requires forall f :: f in fields && f.name in a ==> a[f.name] == b[f.name]
    ensures Matches(TupleCV(a), Tuple(fields)) == Matches(TupleCV(b), Tuple(fields))
  {
  }

  // ----- subtyping

  /** Names are distinct in every tuple inside the type. */
  predicate WellFormed(t: AbiType) {
    match t
    case Response(ok, error) => WellFormed(ok) && WellFormed(error)
    case Optional(some) => WellFormed(some)
    case List(_, element) => WellFormed(element)
    case Tuple(fields) => DistinctNames(fields) && forall f :: f in fields ==> WellFormed(f.ty)
    case _ => true
  }

  predicate HasSupertype(fields: seq<AbiField>, g: AbiField)
    decreases fields, 0
  {
    exists f :: f in fields && f.name == g.name && Subtype(f.ty, g.ty)
  }

  /** The structural order: longer bounds, fewer fields, none below optional, traits below principals. */
  predicate Subtype(s: AbiType, t: AbiType)
    decreases s, 1
  {
    match s
    case TraitReference => t.TraitReference? || t.Principal?
    case NoneType => t.NoneType? || t.Optional?
    case Buffer(n) => t.Buffer? && n <= t.length
    case StringAscii(n) => t.StringAscii? && n <= t.length
    case StringUtf8(n) => t.StringUtf8? && n <= t.length
    case Response(ok, error) => t.Response? && Subtype(ok, t.ok) && Subtype(error, t.error)
    case Optional(some) => t.Optional? && Subtype(some, t.some)
    case List(n, element) => t.List? && n <= t.length && (n == 0 || Subtype(element, t.element))
    case Tuple(fields) => t.Tuple? && forall g :: g in t.fields ==> HasSupertype(fields, g)
    case _ => s == t
  }

  /** Matching is monotone: a value of a subtype is a value of the supertype. */
  lemma {:induction false} SubtypeMatches(v: ClarityValue, s: AbiType, t: AbiType)
    requires Subtype(s, t) && WellFormed(t) && Matches(v, s)
    ensures Matches(v, t)
    decreases s
  {
    match s
    case Response(ok, error) =>
      if v.ResponseOk? {
        SubtypeMatches(v.inner, ok, t.ok);
      } else {
        SubtypeMatches(v.inner, error, t.error);
      }
    case Optional(some) =>
      if v.OptionalSome? {
        SubtypeMatches(v.inner, some, t.some);
      }
    case List(n, element) =>
      forall x | x in v.items
        ensures Matches(x, t.element)
      {
        SubtypeMatches(x, element, t.element);
      }
    case Tuple(fields) =>
      forall g | g in t.fields
        ensures g.name in v.entries && Matches(v.entries[g.name], g.ty)
      {
        assert HasSupertype(fields, g);
        var f :| f in fields && f.name == g.name && Subtype(f.ty, g.ty);
        SubtypeMatches(v.entries[f.name], f.ty, g.ty);
      }
    case _ =>
  }

  function Copies<T>(x: T, n: nat): (s: seq<T>)
    ensures |s| == n && forall i :: 0 <= i < n ==> s[i] == x
  {
    if n == 0 then [] else [x] + Copies(x, n - 1)
  }

  /** Every well-formed type has a value, and a tuple type one with no entry that it does not declare. */
  lemma {:induction false} Inhabitant(t: AbiType) returns (v: ClarityValue)
    requires WellFormed(t)
    ensures Matches(v, t)
    ensures t.Tuple? ==> v.TupleCV? && v.entries.Keys == NamesOf(t.fields)
    ensures t.Optional? || t.NoneType? ==> v.OptionalNone?
    ensures t.TraitReference? ==> v.PrincipalContract?
    ensures t.Principal? ==> v.PrincipalStandard?
    decreases t, 1
  {
    match t
    case UInt128 => v := UIntCV(0);
    case Int128 => v := IntCV(0);
    case Bool => v := BoolTrue;
    case Principal => v := PrincipalStandard("");
    case TraitReference => v := PrincipalContract("");
    case NoneType => v := OptionalNone;
    case Buffer(_) => v := BufferCV("");
    case StringAscii(_) => v := StringAsciiCV("");
    case StringUtf8(_) => v := StringUtf8CV("");
    case Response(ok, _) =>
      var x := Inhabitant(ok);
      v := ResponseOk(x);
    case Optional(_) => v := OptionalNone;
    case List(_, _) => v := ListCV([]);
    case Tuple(fields) =>
      var entries := FieldInhabitants(fields);
      v := TupleCV(entries);
  }

  lemma {:induction false} FieldInhabitants(fields: seq<AbiField>) returns (entries: map<string, ClarityValue>)
    requires DistinctNames(fields) && forall f :: f in fields ==> WellFormed(f.ty)
    ensures entries.Keys == NamesOf(fields)
    ensures forall f :: f in fields ==> Matches(entries[f.name], f.ty)
    decreases fields, 0
  {
    if fields == [] {
      entries := map[];
    } else {
      var f, rest := fields[0], fields[1..];
      assert fields == [f] + rest;
      var tail := FieldInhabitants(rest);
      var x := Inhabitant(f.ty);
      assert forall g :: g in rest ==> g.name != f.name;
      entries := tail[f.name := x];
    }
  }

  predicate IsLeaf(t: AbiType) {
    !t.Response? && !t.Optional? && !t.List? && !t.Tuple?
  }

  lemma LeafSeparator(s: AbiType, t: AbiType) returns (v: ClarityValue)
    requires WellFormed(s) && IsLeaf(s) && !Subtype(s, t)
    ensures Matches(v, s) && !Matches(v, t)
  {
    match s
    case Buffer(n) => v := BufferCV(Copies('0', 2 * n));
    case StringAscii(n) => v := StringAsciiCV(Copies('0', n));
    case StringUtf8(n) => v := StringUtf8CV(Copies('0', n));
    case _ => v := Inhabitant(s);
  }

  /** A value that tells two types apart when the first is not a subtype of the second. */
  lemma {:induction false} Separator(s: AbiType, t: AbiType) returns (v: ClarityValue)
    requires WellFormed(s) && !Subtype(s, t)
    ensures Matches(v, s) && !Matches(v, t)
    decreases s, 1
  {
    if IsLeaf(s) {
      v := LeafSeparator(s, t);
      return;
    }
    v := Inhabitant(s);
    match s
    case Response(ok, error) =>
      if t.Response? {
        if !Subtype(ok, t.ok) {
          var x := Separator(ok, t.ok);
          v := ResponseOk(x);
        } else {
          var x := Separator(error, t.error);
          v := ResponseErr(x);
        }
      }
    case Optional(some) =>
      if t.Optional? {
        var x := Separator(some, t.some);
        v := OptionalSome(x);
      } else {
        var x := Inhabitant(some);
        v := OptionalSome(x);
      }
    case List(n, element) =>
      if t.List? && n > t.length {
        var x := Inhabitant(element);
        v := ListCV(Copies(x, n));
      } else if t.List? {
        var x := Separator(element, t.element);
        v := ListCV([x]);
      }
    case Tuple(_) =>
      if t.Tuple? {
        v := TupleSeparator(s, t, v);
      }
    case _ =>
  }

  lemma {:induction false} TupleSeparator(s: AbiType, t: AbiType, plain: ClarityValue) returns (v: ClarityValue)
    requires s.Tuple? && t.Tuple? && WellFormed(s) && !Subtype(s, t)
    requires Matches(plain, s) && plain.TupleCV? && plain.entries.Keys == NamesOf(s.fields)
    ensures Matches(v, s) && !Matches(v, t)
    decreases s, 0
  {
    var g :| g in t.fields && !HasSupertype(s.fields, g);
    if f :| f in s.fields && f.name == g.name {
      var x := Separator(f.ty, g.ty);
      var entries := plain.entries;
      v := TupleCV(entries[f.name := x]);
      DistinctFieldsDiffer(s.fields, f);
    } else {
      assert g.name !in plain.entries;
      v := plain;
    }
  }

  lemma DistinctFieldsDiffer(fields: seq<AbiField>, f: AbiField)
    requires DistinctNames(fields) && f in fields
    ensures forall g :: g in fields && g.name == f.name ==> g == f
  {
  }

  /** Every value of s is a value of t. */
  ghost predicate Contained(s: AbiType, t: AbiType) {
    forall v: ClarityValue :: Matches(v, s) ==> Matches(v, t)
  }

  /** The structural order is exactly containment: nothing else can be told from the values. */
  lemma SubtypingIsContainment(s: AbiType, t: AbiType)
    requires WellFormed(s) && WellFormed(t)
    ensures Subtype(s, t) <==> Contained(s, t)
  {
    if Subtype(s, t) {
      forall v: ClarityValue | Matches(v, s)
        ensures Matches(v, t)
      {
        SubtypeMatches(v, s, t);
      }
    } else {
      var v := Separator(s, t);
    }
  }

  // ----- contract calls

  datatype CallError =
    | NoSuchFunction
    | DuplicateFunction
    | WrongNumberOfArguments
    | WrongArgument(index: nat)

  function Named(functions: seq<AbiFunction>, name: string): seq<AbiFunction> {
    if functions == [] then []
    else (if functions[0].name == name then [functions[0]] else []) + Named(functions[1..], name)
  }

  /** What the filter finds: nothing, the one function of the name, or at least two. */
  lemma {:induction false} NamedFinds(functions: seq<AbiFunction>, name: string)
    ensures Named(functions, name) == [] <==> forall i :: 0 <= i < |functions| ==> functions[i].name != name
    ensures forall i :: 0 <= i < |functions| && functions[i].name == name
                        && (forall j :: 0 <= j < |functions| && j != i ==> functions[j].name != name) ==>
                          Named(functions, name) == [functions[i]]
    ensures forall i, j :: 0 <= i < j < |functions| && functions[i].name == name == functions[j].name ==>
                             |Named(functions, name)| > 1
  {
    if functions != [] {
      NamedFinds(functions[1..], name);
      assert forall i :: 1 <= i < |functions| ==> functions[i] == functions[1..][i - 1];
    }
  }

  predicate ArgumentsMatch(args: seq<ClarityValue>, types: seq<AbiField>) {
    |args| == |types| && forall i :: 0 <= i < |args| ==> Matches(args[i], types[i].ty)
  }

  /** validateContractCall: the call is valid exactly when one function has the name and takes the arguments. */
  method ValidateContractCall(name: string, args: seq<ClarityValue>, functions: seq<AbiFunction>)
    returns (r: Result<(), CallError>)
    ensures r.Ok? <==> |Named(functions, name)| == 1 && ArgumentsMatch(args, Named(functions, name)[0].args)
    ensures r == Err(NoSuchFunction) <==> |Named(functions, name)| == 0
    ensures r == Err(DuplicateFunction) <==> |Named(functions, name)| > 1
    ensures r == Err(WrongNumberOfArguments) <==>
            |Named(functions, name)| == 1 && |args| != |Named(functions, name)[0].args|
    ensures r.Err? && r.error.WrongArgument? ==>
              && |Named(functions, name)| == 1 && r.error.index < |args| == |Named(functions, name)[0].args|
              && !Matches(args[r.error.index], Named(functions, name)[0].args[r.error.index].ty)
              && forall j :: 0 <= j < r.error.index ==> Matches(args[j], Named(functions, name)[0].args[j].ty)
  {
    var filtered := Named(functions, name);
    if |filtered| == 0 {
      return Err(NoSuchFunction);
    }
    if |filtered| != 1 {
      return Err(DuplicateFunction);
    }
    var abiArgs := filtered[0].args;
    if |args| != |abiArgs| {
      return Err(WrongNumberOfArguments);
    }
    for i := 0 to |args|
      invariant forall j :: 0 <= j < i ==> Matches(args[j], abiArgs[j].ty)
    {
      var ok := MatchType(args[i], abiArgs[i].ty);
      if !ok {
        return Err(WrongArgument(i));
      }
    }
    r := Ok(());
  }

  /** Widening the argument types of a function keeps every call valid. */
  lemma WideningKeepsCalls(args: seq<ClarityValue>, narrow: seq<AbiField>, wide: seq<AbiField>)
    requires |narrow| == |wide| && ArgumentsMatch(args, narrow)
    requires forall i :: 0 <= i < |wide| ==> WellFormed(wide[i].ty) && Subtype(narrow[i].ty, wide[i].ty)
    ensures ArgumentsMatch(args, wide)
  {
    forall i | 0 <= i < |args|
      ensures Matches(args[i], wide[i].ty)
    {
      SubtypeMatches(args[i], narrow[i].ty, wide[i].ty);
    }
  }
}

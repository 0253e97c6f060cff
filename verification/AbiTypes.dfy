/**
 Clarity ABI types and their printed form (packages/transactions/src/contract-abi.ts), with
 the proof that the printed form can be read in one way only.
 */
module AbiTypes {
  import opened Results

  datatype AbiType =
    | UInt128
    | Int128
    | Bool
    | Principal
    | TraitReference
    | NoneType
    | Buffer(length: nat)
    | StringAscii(length: nat)
    | StringUtf8(length: nat)
    | Response(ok: AbiType, error: AbiType)
    | Optional(some: AbiType)
    | Tuple(fields: seq<AbiField>)
    | List(length: nat, element: AbiType)

  datatype AbiField = AbiField(name: string, ty: AbiType)

  function Decimal(n: nat): string {
    if n < 10 then [n as char + '0'] else Decimal(n / 10) + [(n % 10) as char + '0']
  }

  /** getTypeString. */
  function TypeString(t: AbiType): string {
    match t
    case UInt128 => "uint"
    case Int128 => "int"
    case Bool => "bool"
    case Principal => "principal"
    case TraitReference => "trait_reference"
    case NoneType => "none"
    case Buffer(n) => "(buff " + Decimal(n) + ")"
    case StringAscii(n) => "(string-ascii " + Decimal(n) + ")"
    case StringUtf8(n) => "(string-utf8 " + Decimal(n) + ")"
    case Response(ok, error) => "(response " + TypeString(ok) + " " + TypeString(error) + ")"
    case Optional(some) => "(optional " + TypeString(some) + ")"
    case Tuple(fields) => "(tuple " + FieldsString(fields) + ")"
    case List(n, element) => "(list " + Decimal(n) + " " + TypeString(element) + ")"
  }

  function FieldString(f: AbiField): string {
    "(" + f.name + " " + TypeString(f.ty) + ")"
  }

  /** The fields, joined by spaces. */
  function FieldsString(fields: seq<AbiField>): string {
    if fields == [] then ""
    else if |fields| == 1 then FieldString(fields[0])
    else FieldString(fields[0]) + " " + FieldsString(fields[1..])
  }

  datatype Access = Private | Public | ReadOnly

  datatype AbiFunction = AbiFunction(name: string, access: Access, args: seq<AbiField>, output: AbiType)

  function AccessString(a: Access): string {
    match a
    case Private => "private"
    case Public => "public"
    case ReadOnly => "read-only"
  }

  /** abiFunctionToString; the output type is not printed. */
  function FunctionString(f: AbiFunction): string {
    "(define-" + AccessString(f.access) + " (" + f.name + " " + FieldsString(f.args) + "))"
  }

  // ----- tokens

  const DELIMITERS := {' ', '(', ')'}

  const PARENTHESES := {'(', ')'}

  predicate FreeOf(s: string, stops: set<char>) {
    forall i :: 0 <= i < |s| ==> s[i] !in stops
  }

  predicate IsPlain(s: string) {
    FreeOf(s, DELIMITERS)
  }

  /** Names may contain spaces, but no parentheses. */
  predicate IsName(s: string) {
    FreeOf(s, PARENTHESES)
  }

  predicate ProperNames(t: AbiType) {
    match t
    case Response(ok, error) => ProperNames(ok) && ProperNames(error)
    case Optional(some) => ProperNames(some)
    case Tuple(fields) => forall f :: f in fields ==> IsName(f.name) && ProperNames(f.ty)
    case List(_, element) => ProperNames(element)
    case _ => true
  }

  predicate ProperFields(fields: seq<AbiField>) {
    forall f :: f in fields ==> IsName(f.name) && ProperNames(f.ty)
  }

  /** What may follow a text that is free of some characters: nothing, or one of them. */
  predicate StopsAt(x: string, stops: set<char>) {
    x == "" || x[0] in stops
  }

  predicate EndsToken(x: string) {
    StopsAt(x, DELIMITERS)
  }

  lemma TextsSplit(a: string, b: string, x: string, y: string, stops: set<char>)
    requires a + x == b + y
    requires FreeOf(a, stops) && FreeOf(b, stops) && StopsAt(x, stops) && StopsAt(y, stops)
    ensures a == b && x == y
  {
    NotShorter(a, b, x, y, stops);
    NotShorter(b, a, y, x, stops);
    var s := a + x;
    assert a == s[..|a|] && x == s[|a|..] && b == s[..|b|] && y == s[|b|..];
  }

  lemma TokensSplit(a: string, b: string, x: string, y: string)
    requires a + x == b + y
    requires IsPlain(a) && IsPlain(b) && EndsToken(x) && EndsToken(y)
    ensures a == b && x == y
  {
    TextsSplit(a, b, x, y, DELIMITERS);
  }

  function CharAt(s: string, i: nat): Option<char> {
    if i < |s| then Some(s[i]) else None
  }

  lemma NotShorter(a: string, b: string, x: string, y: string, stops: set<char>)
    requires a + x == b + y && FreeOf(b, stops) && StopsAt(x, stops)
    ensures |b| <= |a|
  {
    assert CharAt(a + x, |a|) == CharAt(x, 0);
    FreePrefix(b, y, |a|, stops);
  }

  lemma FreePrefix(b: string, y: string, i: nat, stops: set<char>)
    requires FreeOf(b, stops)
    ensures i < |b| ==> CharAt(b + y, i).Some? && CharAt(b + y, i).value !in stops
  {
  }

  /** A text that ends in a space and a word without spaces. */
  lemma LastWordsSplit(a: string, b: string, k: string, l: string)
    requires a + (" " + k) == b + (" " + l) && IsPlain(k) && IsPlain(l)
    ensures a == b && k == l
  {
    LastWordNotLonger(a, b, k, l);
    LastWordNotLonger(b, a, l, k);
    var s := a + (" " + k);
    assert a == s[..|a|] && b == s[..|b|] && k == s[|a| + 1..] && l == s[|b| + 1..];
  }

  lemma LastWordNotLonger(a: string, b: string, k: string, l: string)
    requires a + (" " + k) == b + (" " + l) && IsPlain(k)
    ensures |a| >= |b|
  {
    var s := a + (" " + k);
    assert CharAt(s, |b|) == Some(' ');
  }

  lemma Unprefix(p: string, x: string, y: string)
    requires p + x == p + y
    ensures x == y
  {
    assert x == (p + x)[|p|..] && y == (p + y)[|p|..];
  }

  function ParseDecimal(s: string): int {
    if s == "" then 0 else 10 * ParseDecimal(s[..|s| - 1]) + (s[|s| - 1] as int - '0' as int)
  }

  lemma {:induction false} DecimalReadable(n: nat)
    ensures ParseDecimal(Decimal(n)) == n && IsPlain(Decimal(n))
    ensures forall i :: 0 <= i < |Decimal(n)| ==> '0' <= Decimal(n)[i] <= '9'
    ensures Decimal(n) != [] && (n > 0 ==> Decimal(n)[0] != '0')
  {
    var s := Decimal(n);
    if n >= 10 {
      DecimalReadable(n / 10);
      assert s[..|s| - 1] == Decimal(n / 10);
    } else {
      assert s[..|s| - 1] == "";
    }
  }

  lemma NumbersSplit(m: nat, n: nat, x: string, y: string)
    requires Decimal(m) + x == Decimal(n) + y
    requires EndsToken(x) && EndsToken(y)
    ensures m == n && x == y
  {
    DecimalReadable(m);
    DecimalReadable(n);
    TokensSplit(Decimal(m), Decimal(n), x, y);
  }

  // ----- the shape of printed types

  predicate IsPrimitive(t: AbiType) {
    t.UInt128? || t.Int128? || t.Bool? || t.Principal? || t.TraitReference? || t.NoneType?
  }

  function Keyword(t: AbiType): string {
    match t
    case UInt128 => "uint"
    case Int128 => "int"
    case Bool => "bool"
    case Principal => "principal"
    case TraitReference => "trait_reference"
    case NoneType => "none"
    case Buffer(_) => "buff"
    case StringAscii(_) => "string-ascii"
    case StringUtf8(_) => "string-utf8"
    case Response(_, _) => "response"
    case Optional(_) => "optional"
    case Tuple(_) => "tuple"
    case List(_, _) => "list"
  }

  function Body(t: AbiType): string
    requires !IsPrimitive(t)
  {
    match t
    case Buffer(n) => Decimal(n)
    case StringAscii(n) => Decimal(n)
    case StringUtf8(n) => Decimal(n)
    case Response(ok, error) => TypeString(ok) + (" " + TypeString(error))
    case Optional(some) => TypeString(some)
    case Tuple(fields) => FieldsString(fields)
    case List(n, element) => Decimal(n) + (" " + TypeString(element))
  }

  /** Which constructor a type was made with. */
  function Kind(t: AbiType): nat {
    match t
    case UInt128 => 0
    case Int128 => 1
    case Bool => 2
    case Principal => 3
    case TraitReference => 4
    case NoneType => 5
    case Buffer(_) => 6
    case StringAscii(_) => 7
    case StringUtf8(_) => 8
    case Response(_, _) => 9
    case Optional(_) => 10
    case Tuple(_) => 11
    case List(_, _) => 12
  }

  /** Length and first letter tell the primitive keywords apart, and the compound ones. */
  lemma KeywordsDiffer(s: AbiType, t: AbiType)
    requires IsPrimitive(s) == IsPrimitive(t) && Keyword(s) == Keyword(t)
    ensures Kind(s) == Kind(t)
  {
  }

  lemma KeywordIsPlain(t: AbiType)
    ensures IsPlain(Keyword(t)) && Keyword(t) != ""
  {
  }

  lemma {:induction false} PrintedShape(t: AbiType)
    ensures TypeString(t) == if IsPrimitive(t) then Keyword(t) else "(" + (Keyword(t) + (" " + (Body(t) + ")")))
  {
    match t
    case Buffer(n) => Brackets("(buff ", "buff", Decimal(n));
    case StringAscii(n) => Brackets("(string-ascii ", "string-ascii", Decimal(n));
    case StringUtf8(n) => Brackets("(string-utf8 ", "string-utf8", Decimal(n));
    case Response(ok, error) =>
      Brackets("(response ", "response", Body(t));
      TwoParts("(response ", TypeString(ok), TypeString(error));
    case Optional(some) => Brackets("(optional ", "optional", TypeString(some));
    case Tuple(fields) => Brackets("(tuple ", "tuple", FieldsString(fields));
    case List(n, element) =>
      Brackets("(list ", "list", Body(t));
      TwoParts("(list ", Decimal(n), TypeString(element));
    case _ =>
  }

  lemma Brackets(opening: string, keyword: string, body: string)
    requires opening == "(" + keyword + " "
    ensures opening + body + ")" == "(" + (keyword + (" " + (body + ")")))
  {
  }

  lemma TwoParts(opening: string, first: string, second: string)
    ensures opening + first + " " + second + ")" == opening + (first + (" " + second)) + ")"
  {
  }

  lemma Regroup(a: string, b: string, c: string, d: string, e: string)
    ensures a + (b + (c + (d + ")"))) + e == a + (b + (c + (d + (")" + e))))
  {
  }

  /** Printed types that agree up to what follows them are of the same kind, with the same body. */
  lemma SameKind(s: AbiType, t: AbiType, x: string, y: string)
    requires TypeString(s) + x == TypeString(t) + y && EndsToken(x) && EndsToken(y)
    ensures Kind(s) == Kind(t)
    ensures IsPrimitive(s) ==> x == y
    ensures !IsPrimitive(s) ==> Body(s) + (")" + x) == Body(t) + (")" + y)
  {
    hide TypeString, Keyword, Body, FieldsString, Kind;
    PrintedShape(s);
    PrintedShape(t);
    KeywordIsPlain(s);
    KeywordIsPlain(t);
    var p, q := TypeString(s) + x, TypeString(t) + y;
    assert p[0] == (if IsPrimitive(s) then Keyword(s)[0] else '(');
    assert q[0] == (if IsPrimitive(t) then Keyword(t)[0] else '(');
    assert IsPrimitive(s) == IsPrimitive(t);
    if IsPrimitive(s) {
      TokensSplit(Keyword(s), Keyword(t), x, y);
    } else {
      var u, v := " " + (Body(s) + (")" + x)), " " + (Body(t) + (")" + y));
      Regroup("(", Keyword(s), " ", Body(s), x);
      Regroup("(", Keyword(t), " ", Body(t), y);
      Unprefix("(", Keyword(s) + u, Keyword(t) + v);
      TokensSplit(Keyword(s), Keyword(t), u, v);
      Unprefix(" ", Body(s) + (")" + x), Body(t) + (")" + y));
    }
    KeywordsDiffer(s, t);
  }

  // ----- unique readability

  /** A printed type determines the type and where it ends. */
  lemma {:induction false} TypesSplit(s: AbiType, t: AbiType, x: string, y: string)
    requires TypeString(s) + x == TypeString(t) + y && EndsToken(x) && EndsToken(y)
    requires ProperNames(s) && ProperNames(t)
    ensures s == t && x == y
    decreases s, 1
  {
    hide TypeString, FieldsString, Decimal;
    SameKind(s, t, x, y);
    if !IsPrimitive(s) {
      BodiesSplit(s, t, ")" + x, ")" + y);
      Unprefix(")", x, y);
    }
  }

  lemma TwoWords(a: string, b: string, x: string)
    ensures a + (" " + b) + x == a + (" " + (b + x))
  {
  }

  lemma {:induction false} BodiesSplit(s: AbiType, t: AbiType, x: string, y: string)
    requires !IsPrimitive(s) && Kind(s) == Kind(t) && ProperNames(s) && ProperNames(t)
    requires Body(s) + x == Body(t) + y && x != "" && y != "" && x[0] == y[0] == ')'
    ensures s == t && x == y
    decreases s, 0
  {
    hide TypeString, FieldsString, Decimal;
    match s
    case Buffer(n) => NumbersSplit(n, t.length, x, y);
    case StringAscii(n) => NumbersSplit(n, t.length, x, y);
    case StringUtf8(n) => NumbersSplit(n, t.length, x, y);
    case Response(ok, error) =>
      var u, v := " " + (TypeString(error) + x), " " + (TypeString(t.error) + y);
      TwoWords(TypeString(ok), TypeString(error), x);
      TwoWords(TypeString(t.ok), TypeString(t.error), y);
      TypesSplit(ok, t.ok, u, v);
      Unprefix(" ", TypeString(error) + x, TypeString(t.error) + y);
      TypesSplit(error, t.error, x, y);
    case Optional(some) => TypesSplit(some, t.some, x, y);
    case Tuple(fields) => FieldsSplit(fields, t.fields, x, y);
    case List(n, element) =>
      var u, v := " " + (TypeString(element) + x), " " + (TypeString(t.element) + y);
      TwoWords(Decimal(n), TypeString(element), x);
      TwoWords(Decimal(t.length), TypeString(t.element), y);
      NumbersSplit(n, t.length, u, v);
      Unprefix(" ", TypeString(element) + x, TypeString(t.element) + y);
      TypesSplit(element, t.element, x, y);
  }

  /**
   A name without parentheses ends before the first parenthesis after it, if the type after it
   opens one, and otherwise before the last word ahead of the parenthesis that closes the field.
   */
  lemma NamesAndTypesSplit(a: string, b: string, s: AbiType, t: AbiType, x: string, y: string)
    requires IsName(a) && IsName(b)
    requires a + (" " + (TypeString(s) + (")" + x))) == b + (" " + (TypeString(t) + (")" + y)))
    ensures a == b && TypeString(s) + (")" + x) == TypeString(t) + (")" + y)
  {
    hide TypeString, Keyword, Body;
    FieldTextSplits(a, s, x);
    FieldTextSplits(b, t, y);
    TextsSplit(a + (" " + WordBefore(s)), b + (" " + WordBefore(t)), From(s, x), From(t, y), PARENTHESES);
    assert From(s, x)[0] == From(t, y)[0];
    KeywordIsPlain(s);
    KeywordIsPlain(t);
    LastWordsSplit(a, b, WordBefore(s), WordBefore(t));
    Unprefix(a, " " + (TypeString(s) + (")" + x)), " " + (TypeString(t) + (")" + y)));
    Unprefix(" ", TypeString(s) + (")" + x), TypeString(t) + (")" + y));
  }

  /** The part of a printed type before its first parenthesis, and the rest of the field from there. */
  function WordBefore(t: AbiType): string {
    if IsPrimitive(t) then Keyword(t) else ""
  }

  function From(t: AbiType, x: string): (rest: string)
    ensures rest != "" && rest[0] == if IsPrimitive(t) then ')' else '('
  {
    if IsPrimitive(t) then ")" + x else "(" + (Keyword(t) + (" " + (Body(t) + (")" + (")" + x)))))
  }

  lemma FieldTextSplits(a: string, t: AbiType, x: string)
    requires IsName(a)
    ensures a + (" " + (TypeString(t) + (")" + x))) == a + (" " + WordBefore(t)) + From(t, x)
    ensures IsName(a + (" " + WordBefore(t)))
  {
    hide TypeString, Keyword, Body;
    PrintedShape(t);
    KeywordIsPlain(t);
    if IsPrimitive(t) {
      Associate(a, " ", Keyword(t), ")" + x);
    } else {
      Regroup("(", Keyword(t), " ", Body(t), ")" + x);
      Associate(a, " ", "", From(t, x));
    }
  }

  /** What follows the first of some fields, up to the parenthesis that closes them all. */
  function AfterFirst(fields: seq<AbiField>, x: string): string
    requires fields != []
  {
    if |fields| == 1 then x else " " + (FieldsString(fields[1..]) + x)
  }

  lemma {:induction false} FieldsShape(fields: seq<AbiField>, x: string)
    requires fields != []
    ensures FieldsString(fields) + x ==
            "(" + (fields[0].name + (" " + (TypeString(fields[0].ty) + (")" + AfterFirst(fields, x)))))
  {
    hide TypeString;
    var f := fields[0];
    var ty := TypeString(f.ty);
    assert FieldString(f) == "(" + (f.name + (" " + (ty + ")")));
    hide FieldString;
    Regroup("(", f.name, " ", ty, AfterFirst(fields, x));
    if |fields| > 1 {
      Associate(FieldString(f), " ", FieldsString(fields[1..]), x);
    }
  }

  lemma Associate(a: string, b: string, c: string, d: string)
    ensures a + b + c + d == a + (b + (c + d))
  {
  }

  lemma {:induction false} FieldsSplit(fs: seq<AbiField>, gs: seq<AbiField>, x: string, y: string)
    requires ProperFields(fs) && ProperFields(gs)
    requires FieldsString(fs) + x == FieldsString(gs) + y && x != "" && y != "" && x[0] == y[0] == ')'
    ensures fs == gs && x == y
    decreases fs, 0
  {
    hide TypeString;
    if fs != [] {
      FieldsShape(fs, x);
    }
    if gs != [] {
      FieldsShape(gs, y);
    }
    if fs == [] || gs == [] {
      assert FieldsString([]) + x == x && FieldsString([]) + y == y;
    } else {
      hide FieldsString;
      var f, g := fs[0], gs[0];
      var u, v := AfterFirst(fs, x), AfterFirst(gs, y);
      var p, q := TypeString(f.ty) + (")" + u), TypeString(g.ty) + (")" + v);
      Unprefix("(", f.name + (" " + p), g.name + (" " + q));
      NamesAndTypesSplit(f.name, g.name, f.ty, g.ty, u, v);
      TypesSplit(f.ty, g.ty, ")" + u, ")" + v);
      Unprefix(")", u, v);
      assert u[0] == v[0];
      if |fs| > 1 && |gs| > 1 {
        Unprefix(" ", FieldsString(fs[1..]) + x, FieldsString(gs[1..]) + y);
        FieldsSplit(fs[1..], gs[1..], x, y);
      }
      assert fs == [f] + fs[1..] && gs == [g] + gs[1..];
    }
  }

  /** Two types that print alike are the same type, if no name in them has a parenthesis. */
  lemma UniqueReadability(s: AbiType, t: AbiType)
    requires ProperNames(s) && ProperNames(t) && TypeString(s) == TypeString(t)
    ensures s == t
  {
    hide TypeString, ProperNames;
    assert TypeString(s) + "" == TypeString(s) && TypeString(t) + "" == TypeString(t);
    TypesSplit(s, t, "", "");
  }

  lemma AccessIsPlain(a: Access, b: Access)
    ensures IsPlain(AccessString(a))
    ensures AccessString(a) == AccessString(b) ==> a == b
  {
  }

  lemma FunctionShape(f: AbiFunction)
    ensures FunctionString(f) ==
            "(define-" + (AccessString(f.access) + (" (" + (f.name + (" " + (FieldsString(f.args) + "))")))))
  {
  }

  lemma ArgumentsText(name: string, args: seq<AbiField>)
    requires IsName(name)
    ensures IsName(name + " ") && StopsAt(FieldsString(args) + "))", PARENTHESES)
    ensures name + (" " + (FieldsString(args) + "))")) == name + " " + (FieldsString(args) + "))")
  {
    hide TypeString;
    if args != [] {
      FieldsShape(args, "))");
    }
  }

  /** Two function signatures that print alike have the same access, name and arguments. */
  lemma FunctionReadability(f: AbiFunction, g: AbiFunction)
    requires IsName(f.name) && IsName(g.name) && ProperFields(f.args) && ProperFields(g.args)
    requires FunctionString(f) == FunctionString(g)
    ensures f.access == g.access && f.name == g.name && f.args == g.args
  {
    hide FunctionString, FieldsString, AccessString, ProperFields;
    FunctionShape(f);
    FunctionShape(g);
    AccessIsPlain(f.access, g.access);
    AccessIsPlain(g.access, f.access);
    var a, b := FieldsString(f.args) + "))", FieldsString(g.args) + "))";
    var u, v := f.name + (" " + a), g.name + (" " + b);
    Unprefix("(define-", AccessString(f.access) + (" (" + u), AccessString(g.access) + (" (" + v));
    TokensSplit(AccessString(f.access), AccessString(g.access), " (" + u, " (" + v);
    Unprefix(" (", u, v);
    ArgumentsText(f.name, f.args);
    ArgumentsText(g.name, g.args);
    TextsSplit(f.name + " ", g.name + " ", a, b, PARENTHESES);
    assert f.name == (f.name + " ")[..|f.name|] && g.name == (g.name + " ")[..|g.name|];
    FieldsSplit(f.args, g.args, "))", "))");
  }

  /** The basic types in print. */
  lemma BasicTypesInPrint()
    ensures TypeString(UInt128) == "uint" && TypeString(Int128) == "int" && TypeString(Bool) == "bool"
    ensures TypeString(Principal) == "principal" && TypeString(TraitReference) == "trait_reference"
    ensures TypeString(NoneType) == "none"
  {
  }

  lemma BoundedTypesInPrint()
    ensures TypeString(Buffer(33)) == "(buff 33)"
    ensures TypeString(StringAscii(128)) == "(string-ascii 128)"
    ensures TypeString(StringUtf8(40)) == "(string-utf8 40)"
    ensures TypeString(List(10, Bool)) == "(list 10 bool)"
  {
    assert Decimal(33) == "33" && Decimal(128) == "128" && Decimal(40) == "40" && Decimal(10) == "10";
  }

  lemma CompoundTypesInPrint()
    ensures TypeString(Optional(Principal)) == "(optional principal)"
    ensures TypeString(Response(Int128, UInt128)) == "(response int uint)"
  {
  }

  lemma TuplesInPrint()
    ensures TypeString(Tuple([AbiField("a", Bool), AbiField("b", Int128)])) == "(tuple (a bool) (b int))"
  {
    TwoFieldsInPrint(AbiField("a", Bool), AbiField("b", Int128));
  }

  lemma TwoFieldsInPrint(f: AbiField, g: AbiField)
    ensures FieldsString([f, g]) ==
            "(" + f.name + " " + TypeString(f.ty) + ") (" + g.name + " " + TypeString(g.ty) + ")"
  {
    hide TypeString;
    assert [f, g][1..] == [g];
    assert FieldsString([g]) == FieldString(g);
  }

  /** What a signature with one argument looks like; without arguments a space is left. */
  lemma FunctionsInPrint()
    ensures FunctionString(AbiFunction("hello", Public, [AbiField("arg1", Int128)], NoneType)) ==
            "(define-public (hello (arg1 int)))"
    ensures FunctionString(AbiFunction("g", Private, [], NoneType)) == "(define-private (g ))"
    ensures FunctionString(AbiFunction("h", ReadOnly, [], NoneType)) == "(define-read-only (h ))"
  {
    var arg := AbiField("arg1", Int128);
    assert FieldsString([arg]) == FieldString(arg) == "(arg1 int)";
  }

  /** With parentheses in names the printed form is ambiguous. */
  lemma NamesWithParenthesesCollide()
    ensures var one := Tuple([AbiField("a uint) (b", Int128)]);
            var two := Tuple([AbiField("a", UInt128), AbiField("b", Int128)]);
            one != two && TypeString(one) == TypeString(two)
  {
    var f, g, h := AbiField("a uint) (b", Int128), AbiField("a", UInt128), AbiField("b", Int128);
    assert [g, h][1..] == [h];
    assert FieldsString([f]) == FieldString(f) == "(a uint) (b int)";
    assert FieldString(g) == "(a uint)" && FieldString(h) == "(b int)";
    assert FieldsString([g, h]) == FieldString(g) + " " + FieldsString([h]);
    assert FieldsString([g, h]) == "(a uint) (b int)";
    assert |[f]| != |[g, h]|;
  }
}

/** Merging keyword and positional arguments of a command (getCommandArgs in packages/cli/src/argparse.ts). */
module CommandArgs {
  import opened Results

  /** A declared argument: its name in the command's schema, or None when the schema gives it no name. */
  type Prop = Option<string>

  datatype ScanError = Duplicate(arg: string) | NoValue(arg: string) | NoSuch(arg: string)

  datatype Found = Found(keywords: map<string, string>, words: seq<string>)

  type Scan = Result<Found, ScanError>

  predicate IsKeyword(arg: string) {
    |arg| >= 2 && arg[..2] == "--"
  }

  /** An argument that fills a slot by position. Any other argument with a leading dash is skipped silently. */
  predicate IsWord(arg: string) {
    arg == "-" || arg == "" || arg[0] != '-'
  }

  /** Scanning the rest of a command line, with `found` read so far. A keyword takes whatever follows it. */
  function ScanFrom(props: seq<Prop>, args: seq<string>, found: Found): Scan
    decreases |args|
  {
    if args == [] then Ok(found)
    else if IsKeyword(args[0]) then
      var name := args[0][2..];
      if name in found.keywords then Err(Duplicate(args[0]))
      else if Some(name) !in props then Err(NoSuch(args[0]))
      else if |args| == 1 then Err(NoValue(args[0]))
      else if args[1] == "" then Err(NoSuch(args[0]))
      else ScanFrom(props, args[2..], found.(keywords := found.keywords[name := args[1]]))
    else if IsWord(args[0]) then ScanFrom(props, args[1..], found.(words := found.words + [args[0]]))
    else ScanFrom(props, args[1..], found)
  }

  /** A slot that a keyword was given for. */
  predicate Keyed(prop: Prop, keywords: map<string, string>) {
    prop.Some? && prop.value in keywords
  }

  /** What a slot holds when no positional argument is left: an unnamed slot looks up the name "undefined". */
  function Leftover(prop: Prop, keywords: map<string, string>): Option<string> {
    var name := if prop.Some? then prop.value else "undefined";
    if name in keywords then Some(keywords[name]) else None
  }

  /** The number of slots among `props` that no keyword fills. */
  function OpenSlots(props: seq<Prop>, keywords: map<string, string>): nat {
    if props == [] then 0
    else OpenSlots(props[..|props| - 1], keywords) + if Keyed(props[|props| - 1], keywords) then 0 else 1
  }

  /** Slot i of a merged line: its keyword's value, else the positional with as many open slots before it. */
  function Slot(props: seq<Prop>, found: Found, i: nat): Option<string>
    requires i < |props|
  {
    var before := OpenSlots(props[..i], found.keywords);
    if Keyed(props[i], found.keywords) then Some(found.keywords[props[i].value])
    else if before < |found.words| then Some(found.words[before])
    else Leftover(props[i], found.keywords)
  }

  function Merged(props: seq<Prop>, found: Found): seq<Option<string>> {
    seq(|props|, i requires 0 <= i < |props| => Slot(props, found, i))
  }

  /** The result of the whole function: None stands for undefined. */
  function CommandArgs(props: seq<Prop>, args: seq<string>): Result<seq<Option<string>>, ScanError> {
    var found :- ScanFrom(props, args, Found(map[], []));
    Ok(Merged(props, found))
  }

  /** The inner loop over the declared arguments: the value for `args[i]`, or None where the source has null. */
  method LookupValue(props: seq<Prop>, args: seq<string>, i: nat) returns (value: Result<Option<string>, ScanError>)
    requires i < |args| && IsKeyword(args[i])
    ensures value == if Some(args[i][2..]) !in props then Ok(None)
                     else if i + 1 >= |args| then Err(NoValue(args[i]))
                     else Ok(Some(args[i + 1]))
  {
    var argValue: Option<string> := None;
    for j := 0 to |props|
      invariant Some(args[i][2..]) in props[..j] ==> i + 1 < |args|
      invariant argValue == if Some(args[i][2..]) in props[..j] then Some(args[i + 1]) else None
    {
      if props[j] == Some(args[i][2..]) {
        if i + 1 >= |args| {
          return Err(NoValue(args[i]));
        }
        argValue := Some(args[i + 1]);
      }
    }
    assert props[..|props|] == props;
    return Ok(argValue);
  }

  method ScanArgs(props: seq<Prop>, args: seq<string>) returns (scan: Scan)
    ensures scan == ScanFrom(props, args, Found(map[], []))
  {
    var keywords: map<string, string> := map[];
    var words := [];
    var i := 0;
    while i < |args|
      invariant i <= |args|
      invariant ScanFrom(props, args[i..], Found(keywords, words)) == ScanFrom(props, args, Found(map[], []))
    {
      if IsKeyword(args[i]) {
        var name := args[i][2..];
        if name in keywords {
          return Err(Duplicate(args[i]));
        }
        var value := LookupValue(props, args, i);
        if value.Err? {
          return Err(value.error);
        }
        if value.value.None? || value.value.value == "" {
          return Err(NoSuch(args[i]));
        }
        assert args[i..][2..] == args[i + 2..];
        keywords := keywords[name := value.value.value];
        i := i + 2;
      } else {
        assert args[i..][1..] == args[i + 1..];
        if IsWord(args[i]) {
          words := words + [args[i]];
        }
        i := i + 1;
      }
    }
    return Ok(Found(keywords, words));
  }

  method GetCommandArgs(props: seq<Prop>, args: seq<string>)
    returns (outcome: Result<seq<Option<string>>, ScanError>)
    ensures outcome == CommandArgs(props, args)
  {
    var scan := ScanArgs(props, args);
    if scan.Err? {
      return Err(scan.error);
    }
    var found := scan.value;
    var merged: seq<Option<string>> := [];
    var next := 0;
    for i := 0 to |props|
      invariant next <= |found.words|
      invariant var open := OpenSlots(props[..i], found.keywords);
                next == if open <= |found.words| then open else |found.words|
      invariant |merged| == i && forall k | 0 <= k < i :: merged[k] == Slot(props, found, k)
    {
      assert props[..i + 1][..i] == props[..i];
      if next < |found.words| {
        if Keyed(props[i], found.keywords) {
          merged := merged + [Some(found.keywords[props[i].value])];
        } else {
          merged := merged + [Some(found.words[next])];
          next := next + 1;
        }
      } else {
        merged := merged + [Leftover(props[i], found.keywords)];
      }
    }
    assert merged == Merged(props, found);
    return Ok(merged);
  }

  // Command lines as lists of items: what a user means by a line.

  datatype Item = Word(text: string) | Pair(name: string, value: string) | Skipped(text: string)

  function Text(item: Item): seq<string> {
    match item
    case Word(text) => [text]
    case Skipped(text) => [text]
    case Pair(name, value) => ["--" + name, value]
  }

  function Render(items: seq<Item>): seq<string> {
    if items == [] then [] else Text(items[0]) + Render(items[1..])
  }

  predicate Fits(props: seq<Prop>, item: Item) {
    match item
    case Word(text) => IsWord(text)
    case Skipped(text) => !IsWord(text) && !IsKeyword(text)
    case Pair(name, value) => Some(name) in props && value != ""
  }

  predicate NamesOnce(items: seq<Item>) {
    && (forall p <- items :: p.Pair? ==> multiset(items)[p] == 1)
    && (forall p <- items, q <- items :: p.Pair? && q.Pair? && p.name == q.name ==> p == q)
  }

  predicate WellFormed(props: seq<Prop>, items: seq<Item>) {
    (forall item <- items :: Fits(props, item)) && NamesOnce(items)
  }

  function Words(items: seq<Item>): seq<string> {
    if items == [] then []
    else (if items[0].Word? then [items[0].text] else []) + Words(items[1..])
  }

  function Keywords(items: seq<Item>): map<string, string> {
    if items == [] then map[]
    else
      var rest := Keywords(items[1..]);
      if items[0].Pair? then rest[items[0].name := items[0].value] else rest
  }

  lemma NamesOnceSplits(items: seq<Item>)
    requires items != [] && NamesOnce(items)
    ensures NamesOnce(items[1..])
    ensures items[0].Pair? ==> forall q <- items[1..] :: q.Pair? ==> q.name != items[0].name
  {
    var rest := items[1..];
    assert items == [items[0]] + rest;
    assert multiset(items) == multiset{items[0]} + multiset(rest);
    forall p | p in rest
      ensures p in items && p in multiset(rest)
    {}
  }

  lemma {:induction false} KeywordsAreThePairs(items: seq<Item>, name: string, value: string)
    requires NamesOnce(items)
    ensures name in Keywords(items) && Keywords(items)[name] == value <==> Pair(name, value) in items
  {
    if items != [] {
      NamesOnceSplits(items);
      KeywordsAreThePairs(items[1..], name, value);
      assert items == [items[0]] + items[1..];
    }
  }

  function Taken(found: Found, item: Item): Found {
    match item
    case Word(text) => found.(words := found.words + [text])
    case Skipped(_) => found
    case Pair(name, value) => found.(keywords := found.keywords[name := value])
  }

  /** No pair of `items` repeats a name that was found already. */
  predicate Unused(items: seq<Item>, found: Found) {
    forall p <- items :: p.Pair? ==> p.name !in found.keywords
  }

  function Collected(found: Found, items: seq<Item>): Found {
    Found(found.keywords + Keywords(items), found.words + Words(items))
  }

  lemma CollectedNone(found: Found)
    ensures Collected(found, []) == found
  {
  }

  lemma CollectedFirst(found: Found, items: seq<Item>)
    requires items != [] && NamesOnce(items) && Unused(items, found)
    ensures NamesOnce(items[1..]) && Unused(items[1..], Taken(found, items[0]))
    ensures Collected(Taken(found, items[0]), items[1..]) == Collected(found, items)
  {
    hide NamesOnce;
    NamesOnceSplits(items);
    if items[0].Pair? {
      AbsentName(items[1..], items[0].name);
      MergeUpdate(found.keywords, Keywords(items[1..]), items[0].name, items[0].value);
    }
  }

  /** Scanning a line of items collects exactly its pairs and, in order, its words. */
  lemma {:induction false} ScanReadsItems(props: seq<Prop>, items: seq<Item>, found: Found)
    requires WellFormed(props, items) && Unused(items, found)
    ensures ScanFrom(props, Render(items), found) == Ok(Collected(found, items))
    decreases |items|
  {
    if items == [] {
      CollectedNone(found);
    } else {
      hide Fits, NamesOnce, Text, ScanFrom, Collected, Taken, Unused;
      CollectedFirst(found, items);
      ScanTakesFirst(props, items, found);
      ScanReadsItems(props, items[1..], Taken(found, items[0]));
    }
  }

  lemma ScanTakesFirst(props: seq<Prop>, items: seq<Item>, found: Found)
    requires items != [] && WellFormed(props, items) && Unused(items, found)
    ensures ScanFrom(props, Render(items), found) == ScanFrom(props, Render(items[1..]), Taken(found, items[0]))
  {
  }

  lemma {:induction false} AbsentName(items: seq<Item>, name: string)
    requires forall q <- items :: q.Pair? ==> q.name != name
    ensures name !in Keywords(items)
  {
    if items != [] {
      AbsentName(items[1..], name);
    }
  }

  lemma MergeUpdate(a: map<string, string>, b: map<string, string>, name: string, value: string)
    requires name !in b
    ensures a[name := value] + b == a + b[name := value]
  {}

  /** Reads an accepted line back as items. */
  lemma {:induction false} AcceptedLineHasItems(props: seq<Prop>, args: seq<string>, found: Found)
    returns (items: seq<Item>)
    requires ScanFrom(props, args, found).Ok?
    ensures WellFormed(props, items) && Unused(items, found) && Render(items) == args
    decreases |args|
  {
    if args == [] {
      items := [];
    } else {
      var item :=
        if IsKeyword(args[0]) then Pair(args[0][2..], args[1])
        else if IsWord(args[0]) then Word(args[0])
        else Skipped(args[0]);
      var tail := args[|Text(item)|..];
      assert args == Text(item) + tail by {
        assert item.Pair? ==> args[0] == args[0][..2] + args[0][2..];
      }
      var rest := AcceptedLineHasItems(props, tail, Taken(found, item));
      items := [item] + rest;
      ItemsGrow(props, item, rest, found);
    }
  }

  lemma ItemsGrow(props: seq<Prop>, item: Item, rest: seq<Item>, found: Found)
    requires WellFormed(props, rest) && Fits(props, item) && Unused(rest, Taken(found, item))
    requires item.Pair? ==> item.name !in found.keywords
    ensures WellFormed(props, [item] + rest) && Unused([item] + rest, found)
    ensures Render([item] + rest) == Text(item) + Render(rest)
  {
  }

  /** The outcome for a line of items depends only on its words, in order, and the map of its pairs. */
  lemma OutcomeOfItems(props: seq<Prop>, items: seq<Item>)
    requires WellFormed(props, items)
    ensures CommandArgs(props, Render(items)) == Ok(Merged(props, Found(Keywords(items), Words(items))))
  {
    hide NamesOnce, Fits, Render, ScanFrom;
    ScanReadsItems(props, items, Found(map[], []));
    assert map[] + Keywords(items) == Keywords(items) && [] + Words(items) == Words(items);
  }

  /** A line is accepted iff it is words, skipped flags and pairs of a declared, not repeated name and a value. */
  lemma AcceptedLines(props: seq<Prop>, args: seq<string>)
    ensures CommandArgs(props, args).Ok? <==> exists items :: WellFormed(props, items) && Render(items) == args
  {
    hide WellFormed, Render, ScanFrom;
    if CommandArgs(props, args).Ok? {
      var items := AcceptedLineHasItems(props, args, Found(map[], []));
    }
    forall items | WellFormed(props, items) && Render(items) == args
      ensures CommandArgs(props, args).Ok?
    {
      OutcomeOfItems(props, items);
    }
  }

  /** Moving the items of an accepted line without reordering its words changes nothing. */
  lemma KeywordsMayMove(props: seq<Prop>, a: seq<Item>, b: seq<Item>)
    requires WellFormed(props, a)
    requires multiset(a) == multiset(b) && Words(a) == Words(b)
    ensures CommandArgs(props, Render(b)) == CommandArgs(props, Render(a))
    ensures CommandArgs(props, Render(a)).Ok?
  {
    hide Fits, Render, CommandArgs, Words;
    assert forall item :: item in a <==> item in multiset(a);
    assert forall item :: item in b <==> item in multiset(b);
    SameKeywords(a, b);
    OutcomeOfItems(props, a);
    OutcomeOfItems(props, b);
  }

  lemma SameKeywords(a: seq<Item>, b: seq<Item>)
    requires NamesOnce(a) && NamesOnce(b)
    requires forall item :: item in a <==> item in b
    ensures Keywords(a) == Keywords(b)
  {
    hide NamesOnce, Keywords;
    var ka, kb := Keywords(a), Keywords(b);
    forall name | name in ka
      ensures name in kb && kb[name] == ka[name]
    {
      KeywordsAreThePairs(a, name, ka[name]);
      KeywordsAreThePairs(b, name, ka[name]);
    }
    forall name | name in kb
      ensures name in ka
    {
      KeywordsAreThePairs(a, name, kb[name]);
      KeywordsAreThePairs(b, name, kb[name]);
    }
  }

  /** The values of the slots that no keyword fills, in declaration order. */
  function OpenValues(props: seq<Prop>, keywords: map<string, string>,
                      slots: seq<Option<string>>): (values: seq<Option<string>>)
    requires |slots| == |props|
    ensures |values| == OpenSlots(props, keywords)
  {
    if props == [] then []
    else
      var last := |props| - 1;
      OpenValues(props[..last], keywords, slots[..last]) + if Keyed(props[last], keywords) then [] else [slots[last]]
  }

  /** Keywords sit at their declared positions; the other slots take the words in order. */
  lemma {:induction false} WordsFillOpenSlots(props: seq<Prop>, found: Found)
    ensures forall i | 0 <= i < |props| && Keyed(props[i], found.keywords) ::
              Merged(props, found)[i] == Some(found.keywords[props[i].value])
    ensures var values := OpenValues(props, found.keywords, Merged(props, found));
            forall j | 0 <= j < |values| && j < |found.words| :: values[j] == Some(found.words[j])
  {
    if props != [] {
      var last := |props| - 1;
      WordsFillOpenSlots(props[..last], found);
      MergedInit(props, found);
    }
  }

  lemma MergedInit(props: seq<Prop>, found: Found)
    requires props != []
    ensures var last := |props| - 1;
            Merged(props, found)[..last] == Merged(props[..last], found)
  {
    hide OpenSlots, Keyed, Leftover;
    var last := |props| - 1;
    forall i | 0 <= i < last
      ensures Slot(props, found, i) == Slot(props[..last], found, i)
    {
      assert props[..last][..i] == props[..i];
    }
  }

  predicate AfterWords(props: seq<Prop>, found: Found, i: nat)
    requires i < |props|
  {
    !Keyed(props[i], found.keywords) && OpenSlots(props[..i], found.keywords) >= |found.words|
  }

  /** The scan finds declared names only. */
  lemma {:induction false} FoundNamesAreDeclared(props: seq<Prop>, args: seq<string>, found: Found)
    requires ScanFrom(props, args, found).Ok? && forall name <- found.keywords :: Some(name) in props
    ensures forall name <- ScanFrom(props, args, found).value.keywords :: Some(name) in props
    decreases |args|
  {
    if args != [] {
      if IsKeyword(args[0]) {
        var keywords := found.keywords[args[0][2..] := args[1]];
        FoundNamesAreDeclared(props, args[2..], found.(keywords := keywords));
      } else if IsWord(args[0]) {
        FoundNamesAreDeclared(props, args[1..], found.(words := found.words + [args[0]]));
      } else {
        FoundNamesAreDeclared(props, args[1..], found);
      }
    }
  }

  /** If the line is accepted, every slot without a keyword after its last word is undefined. */
  predicate LeftoversUndefined(props: seq<Prop>, args: seq<string>) {
    var scan := ScanFrom(props, args, Found(map[], []));
    CommandArgs(props, args).Ok? ==>
      forall i | 0 <= i < |props| :: AfterWords(props, scan.value, i) ==> CommandArgs(props, args).value[i] == None
  }

  /** A line that puts a value into every unnamed slot, if "undefined" is declared. */
  const UNDEFINED_LINE := ["--undefined", "x"]

  lemma UndefinedLineFillsUnnamedSlots(props: seq<Prop>)
    requires Some("undefined") in props && None in props
    ensures !LeftoversUndefined(props, UNDEFINED_LINE)
  {
    var line, none := UNDEFINED_LINE, Found(map[], []);
    assert line[0][2..] == "undefined" && line[0][..2] == "--";
    assert ScanFrom(props, line, none) == ScanFrom(props, line[2..], Found(map["undefined" := "x"], []));
    var i :| 0 <= i < |props| && props[i] == None;
    assert AfterWords(props, ScanFrom(props, line, none).value, i);
  }

  /**
   For all lines, the slots left over when the words run out are undefined; this holds for a
   schema if and only if it does not have both an unnamed argument and one named "undefined".
   */
  lemma LeftoversAreUndefined(props: seq<Prop>)
    ensures (forall args: seq<string> :: LeftoversUndefined(props, args))
            <==> Some("undefined") !in props || None !in props
  {
    hide ScanFrom, OpenSlots;
    if Some("undefined") in props && None in props {
      UndefinedLineFillsUnnamedSlots(props);
    } else {
      forall args: seq<string>
        ensures LeftoversUndefined(props, args)
      {
        if CommandArgs(props, args).Ok? {
          FoundNamesAreDeclared(props, args, Found(map[], []));
        }
      }
    }
  }

  lemma {:induction false} OpenSlotsGrow(props: seq<Prop>, keywords: map<string, string>, i: nat)
    requires i < |props|
    ensures OpenSlots(props[..i], keywords) + (if Keyed(props[i], keywords) then 0 else 1) <= OpenSlots(props, keywords)
  {
    var last := |props| - 1;
    if i < last {
      assert props[..last][..i] == props[..i];
      OpenSlotsGrow(props[..last], keywords, i);
    }
  }

  /** Words beyond the open slots are dropped without an error. */
  lemma ExtraWordsAreDropped(props: seq<Prop>, found: Found, extra: seq<string>)
    requires OpenSlots(props, found.keywords) <= |found.words|
    ensures Merged(props, found.(words := found.words + extra)) == Merged(props, found)
  {
    hide OpenSlots, Keyed;
    forall i | 0 <= i < |props|
      ensures Slot(props, found.(words := found.words + extra), i) == Slot(props, found, i)
    {
      OpenSlotsGrow(props, found.keywords, i);
    }
  }

  // ----- lines without keywords

  /** The arguments that take part by position: the others start with a dash and go on after it. */
  function Positionals(args: seq<string>): seq<string> {
    if args == [] then []
    else (if |args[0]| >= 2 && args[0][0] == '-' then [] else [args[0]]) + Positionals(args[1..])
  }

  predicate NoKeywords(args: seq<string>) {
    forall arg <- args :: !(|arg| >= 2 && arg[0] == arg[1] == '-')
  }

  lemma {:induction false} ScanWithoutKeywords(props: seq<Prop>, args: seq<string>, found: Found)
    requires NoKeywords(args)
    ensures ScanFrom(props, args, found) == Ok(found.(words := found.words + Positionals(args)))
    decreases |args|
  {
    if args == [] {
      assert found.words + [] == found.words;
    } else {
      var arg, rest := args[0], args[1..];
      assert arg in args && !IsKeyword(arg);
      assert forall x <- rest :: x in args;
      if IsWord(arg) {
        ScanWithoutKeywords(props, rest, found.(words := found.words + [arg]));
        assert found.words + [arg] + Positionals(rest) == found.words + ([arg] + Positionals(rest));
      } else {
        ScanWithoutKeywords(props, rest, found);
        assert [] + Positionals(rest) == Positionals(rest);
      }
    }
  }

  lemma {:induction false} AllSlotsOpen(props: seq<Prop>)
    ensures OpenSlots(props, map[]) == |props|
  {
    if props != [] {
      AllSlotsOpen(props[..|props| - 1]);
    }
  }

  /**
   A line without keywords is always accepted. Its arguments go into the slots one by one, a single
   dash and empty ones among them but no flags, and the slots after the last are undefined.
   */
  lemma LinesWithoutKeywords(props: seq<Prop>, args: seq<string>)
    requires NoKeywords(args)
    ensures var r, texts := CommandArgs(props, args), Positionals(args);
            && r.Ok? && |r.value| == |props|
            && forall i | 0 <= i < |props| :: r.value[i] == if i < |texts| then Some(texts[i]) else None
  {
    hide ScanFrom, OpenSlots, Positionals, NoKeywords;
    ScanWithoutKeywords(props, args, Found(map[], []));
    assert [] + Positionals(args) == Positionals(args);
    forall i | 0 <= i < |props|
      ensures OpenSlots(props[..i], map[]) == i
    {
      AllSlotsOpen(props[..i]);
    }
  }

  /** How a scan goes on, or fails, at an argument that starts with two dashes. */
  lemma KeywordArgument(props: seq<Prop>, name: string, rest: seq<string>, found: Found)
    ensures var arg := "--" + name;
            var scan := ScanFrom(props, [arg] + rest, found);
            && (name in found.keywords ==> scan == Err(Duplicate(arg)))
            && (name !in found.keywords && Some(name) !in props ==> scan == Err(NoSuch(arg)))
            && (name !in found.keywords && Some(name) in props ==>
                  && (rest == [] ==> scan == Err(NoValue(arg)))
                  && (rest != [] && rest[0] == "" ==> scan == Err(NoSuch(arg)))
                  && (rest != [] && rest[0] != "" ==>
                        scan == ScanFrom(props, rest[1..], found.(keywords := found.keywords[name := rest[0]]))))
  {
    var args := ["--" + name] + rest;
    assert args[0][2..] == name && args[0][..2] == "--" && args[1..] == rest;
    assert rest != [] ==> args[2..] == rest[1..] && args[1] == rest[0];
  }
}

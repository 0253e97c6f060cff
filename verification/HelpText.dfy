/** Wrapping help texts (formatHelpString in packages/cli/src/argparse.ts). */
module HelpText {

  // ----- lines and words

  function Split(s: string, separator: char): (parts: seq<string>)
    ensures parts != []
  {
    if s == "" then [""]
    else
      var rest := Split(s[1..], separator);
      if s[0] == separator then [""] + rest else [[s[0]] + rest[0]] + rest[1..]
  }

  function NonEmpty(parts: seq<string>): seq<string> {
    if parts == [] then []
    else (if parts[0] == "" then [] else [parts[0]]) + NonEmpty(parts[1..])
  }

  function WordsOf(line: string): seq<string> {
    NonEmpty(Split(line, ' '))
  }

  predicate IsLiteral(line: string, words: seq<string>) {
    (words != [] && words[0] == "$") || "    " <= line
  }

  function Pad(indent: nat): string {
    if indent == 0 then "" else Pad(indent - 1) + " "
  }

  // ----- greedy line breaking

  /** The length of a line as it is built: the padding, and each word with a space after it. */
  function Length(indent: nat, line: seq<string>): nat {
    if line == [] then indent else Length(indent, line[..|line| - 1]) + |line[|line| - 1]| + 1
  }

  predicate Breaks(indent: nat, limit: nat, line: seq<string>, word: string) {
    Length(indent, line) + 1 + |word| > limit
  }

  /** The lines that the remaining words give, when `line` is being filled. */
  function Greedy(indent: nat, limit: nat, words: seq<string>, line: seq<string>): (lines: seq<seq<string>>)
    ensures lines != []
  {
    if words == [] then [line]
    else if Breaks(indent, limit, line, words[0]) then [line] + Greedy(indent, limit, words[1..], [words[0]])
    else Greedy(indent, limit, words[1..], line + [words[0]])
  }

  function Render(indent: nat, line: seq<string>): string {
    if line == [] then Pad(indent) else Render(indent, line[..|line| - 1]) + line[|line| - 1] + " "
  }

  function RenderAll(indent: nat, lines: seq<seq<string>>): string {
    if lines == [] then ""
    else if |lines| == 1 then Render(indent, lines[0])
    else Render(indent, lines[0]) + "\n" + RenderAll(indent, lines[1..])
  }

  function FormatLine(indent: nat, limit: nat, line: string): string {
    var words := WordsOf(line);
    if words == [] then "\n"
    else if IsLiteral(line, words) then line + "\n"
    else RenderAll(indent, Greedy(indent, limit, words, [])) + "\n"
  }

  function FormatLines(indent: nat, limit: nat, lines: seq<string>): string {
    if lines == [] then ""
    else FormatLines(indent, limit, lines[..|lines| - 1]) + FormatLine(indent, limit, lines[|lines| - 1])
  }

  // ----- the implementation

  predicate OneLine(s: string) {
    '\n' !in s
  }

  /** `linebuf.split('\n').slice(-1)[0]`. */
  function LastSegment(s: string): string {
    if s == "" then "" else if s[|s| - 1] == '\n' then "" else LastSegment(s[..|s| - 1]) + [s[|s| - 1]]
  }

  lemma {:induction false} LastSegmentOf(a: string, b: string)
    requires (a == "" || a[|a| - 1] == '\n') && OneLine(b)
    ensures LastSegment(a + b) == b
  {
    var s := a + b;
    if b == "" {
      assert s == a;
    } else {
      var front := b[..|b| - 1];
      assert s[..|s| - 1] == a + front;
      LastSegmentOf(a, front);
      assert b == front + [b[|b| - 1]];
    }
  }

  lemma {:induction false} PadIsOneLine(indent: nat)
    ensures OneLine(Pad(indent)) && |Pad(indent)| == indent
  {
    if indent > 0 {
      PadIsOneLine(indent - 1);
    }
  }

  lemma {:induction false} RenderedLength(indent: nat, line: seq<string>)
    requires forall w :: w in line ==> OneLine(w)
    ensures OneLine(Render(indent, line)) && |Render(indent, line)| == Length(indent, line)
  {
    if line == [] {
      PadIsOneLine(indent);
    } else {
      assert line[|line| - 1] in line;
      RenderedLength(indent, line[..|line| - 1]);
    }
  }

  /** The inner loop of formatHelpString, which finds the current length by looking at the text built so far. */
  method WrapWords(indent: nat, limit: nat, words: seq<string>) returns (linebuf: string)
    requires forall w :: w in words ==> OneLine(w)
    ensures linebuf == RenderAll(indent, Greedy(indent, limit, words, []))
  {
    var pad := Pad(indent);
    linebuf := pad;
    ghost var before, line: seq<string> := "", [];
    assert words[0..] == words;
    NothingBefore(indent, Greedy(indent, limit, words, []));
    for j := 0 to |words|
      invariant before == "" || before[|before| - 1] == '\n'
      invariant linebuf == before + Render(indent, line)
      invariant forall w :: w in line ==> OneLine(w)
      invariant RenderAll(indent, Greedy(indent, limit, words, [])) ==
                before + RenderAll(indent, Greedy(indent, limit, words[j..], line))
    {
      assert words[j] in words && words[j..][1..] == words[j + 1..];
      RenderedLength(indent, line);
      LastSegmentOf(before, Render(indent, line));
      GreedyStep(indent, limit, words[j..], line, before);
      if |LastSegment(linebuf)| + 1 + |words[j]| > limit {
        before := linebuf + "\n";
        linebuf := linebuf + "\n";
        linebuf := linebuf + pad;
        line := [];
      }
      RenderOneMore(indent, line, words[j], before);
      linebuf := linebuf + (words[j] + " ");
      line := line + [words[j]];
    }
  }

  lemma NothingBefore(indent: nat, lines: seq<seq<string>>)
    ensures RenderAll(indent, lines) == "" + RenderAll(indent, lines)
  {
  }

  lemma RenderOneMore(indent: nat, line: seq<string>, word: string, before: string)
    ensures before + Render(indent, line + [word]) == before + Render(indent, line) + (word + " ")
  {
  }

  lemma GreedyStep(indent: nat, limit: nat, words: seq<string>, line: seq<string>, before: string)
    requires words != []
    ensures before + RenderAll(indent, Greedy(indent, limit, words, line)) ==
            if Breaks(indent, limit, line, words[0])
            then (before + Render(indent, line) + "\n")
               + RenderAll(indent, Greedy(indent, limit, words[1..], [] + [words[0]]))
            else before + RenderAll(indent, Greedy(indent, limit, words[1..], line + [words[0]]))
  {
  }

  lemma {:induction false} PartsAreWithin(s: string, separator: char)
    ensures forall p, ch :: p in Split(s, separator) && ch in p ==> ch in s && ch != separator
  {
    if s != "" {
      PartsAreWithin(s[1..], separator);
      var rest := Split(s[1..], separator);
      assert rest[0] in rest;
      forall p, ch | p in Split(s, separator) && ch in p
        ensures ch in s && ch != separator
      {
        if s[0] != separator && p == [s[0]] + rest[0] {
        } else {
          assert p == "" || p in rest;
        }
      }
    }
  }

  lemma {:induction false} NonEmptyAreParts(parts: seq<string>)
    ensures forall w :: w in NonEmpty(parts) ==> w in parts && w != ""
  {
    if parts != [] {
      NonEmptyAreParts(parts[1..]);
    }
  }

  lemma WordsAreWithin(line: string)
    requires OneLine(line)
    ensures forall w :: w in WordsOf(line) ==> OneLine(w) && w != ""
  {
    PartsAreWithin(line, ' ');
    NonEmptyAreParts(Split(line, ' '));
  }

  method FormatHelpString(indent: nat, limit: nat, helpString: string) returns (buf: string)
    ensures buf == FormatLines(indent, limit, Split(helpString, '\n'))
  {
    var lines := Split(helpString, '\n');
    PartsAreWithin(helpString, '\n');
    buf := "";
    for i := 0 to |lines|
      invariant buf == FormatLines(indent, limit, lines[..i])
    {
      assert lines[..i + 1][..i] == lines[..i] && lines[i] in lines;
      var words := WordsOf(lines[i]);
      if |words| == 0 {
        buf := buf + "\n";
      } else if IsLiteral(lines[i], words) {
        buf := buf + (lines[i] + "\n");
      } else {
        WordsAreWithin(lines[i]);
        var linebuf := WrapWords(indent, limit, words);
        buf := buf + (linebuf + "\n");
      }
    }
    assert lines[..|lines|] == lines;
  }

  // ----- what wrapping guarantees

  function Flatten(lines: seq<seq<string>>): seq<string> {
    if lines == [] then [] else lines[0] + Flatten(lines[1..])
  }

  /** No word is lost, added or moved. */
  lemma {:induction false} WordsStayInOrder(indent: nat, limit: nat, words: seq<string>, line: seq<string>)
    ensures Flatten(Greedy(indent, limit, words, line)) == line + words
  {
    if words == [] {
      assert Flatten([line]) == line + Flatten([]);
    } else if Breaks(indent, limit, line, words[0]) {
      WordsStayInOrder(indent, limit, words[1..], [words[0]]);
      var rest := Greedy(indent, limit, words[1..], [words[0]]);
      assert ([line] + rest)[1..] == rest;
      assert [words[0]] + words[1..] == words;
    } else {
      WordsStayInOrder(indent, limit, words[1..], line + [words[0]]);
      assert line + [words[0]] + words[1..] == line + words;
    }
  }

  /** A line within the limit, or one that cannot be shorter: a single word, or nothing. */
  predicate Acceptable(indent: nat, limit: nat, line: seq<string>) {
    Length(indent, line) <= limit || |line| <= 1
  }

  lemma {:induction false} LinesRespectLimit(indent: nat, limit: nat, words: seq<string>, line: seq<string>)
    requires Acceptable(indent, limit, line)
    ensures forall l :: l in Greedy(indent, limit, words, line) ==> Acceptable(indent, limit, l)
    decreases |words|
  {
    if words != [] {
      var w := words[0];
      assert (line + [w])[..|line|] == line;
      if Breaks(indent, limit, line, w) {
        LinesRespectLimit(indent, limit, words[1..], [w]);
      } else {
        LinesRespectLimit(indent, limit, words[1..], line + [w]);
      }
    }
  }

  /** Starting with a fuller line never saves a line, and costs at most one. */
  lemma {:induction false} FullerLineCostsAtMostOne(indent: nat, limit: nat, words: seq<string>, full: seq<string>,
                                                    light: seq<string>)
    requires Length(indent, light) <= Length(indent, full)
    ensures |Greedy(indent, limit, words, light)| <= |Greedy(indent, limit, words, full)|
            <= 1 + |Greedy(indent, limit, words, light)|
    decreases |words|
  {
    if words != [] {
      var w, rest := words[0], words[1..];
      assert (full + [w])[..|full|] == full && (light + [w])[..|light|] == light && [w][..0] == [];
      IndentIsLeast(indent, light);
      if Breaks(indent, limit, light, w) {
      } else if Breaks(indent, limit, full, w) {
        FullerLineCostsAtMostOne(indent, limit, rest, light + [w], [w]);
      } else {
        FullerLineCostsAtMostOne(indent, limit, rest, full + [w], light + [w]);
      }
    }
  }

  lemma {:induction false} IndentIsLeast(indent: nat, line: seq<string>)
    ensures indent <= Length(indent, line)
  {
    if line != [] {
      IndentIsLeast(indent, line[..|line| - 1]);
    }
  }

  lemma {:induction false} SuffixIsShorter(indent: nat, a: seq<string>, b: seq<string>)
    ensures Length(indent, b) <= Length(indent, a + b)
  {
    if b == [] {
      IndentIsLeast(indent, a + b);
    } else {
      assert (a + b)[..|a + b| - 1] == a + b[..|b| - 1];
      SuffixIsShorter(indent, a, b[..|b| - 1]);
    }
  }

  lemma {:induction false} PrefixIsShorter(indent: nat, a: seq<string>, b: seq<string>)
    ensures Length(indent, a) <= Length(indent, a + b)
  {
    if b == [] {
      assert a + b == a;
    } else {
      assert (a + b)[..|a + b| - 1] == a + b[..|b| - 1];
      PrefixIsShorter(indent, a, b[..|b| - 1]);
    }
  }

  /**
   Greedy breaking stays ahead: no other breaking whose first line contains what greedy has on
   its current line, perhaps after more words, needs fewer lines for the rest.
   */
  lemma {:induction false} GreedyStaysAhead(indent: nat, limit: nat, words: seq<string>, line: seq<string>,
                                            more: seq<string>, other: seq<seq<string>>)
    requires other != [] && forall l :: l in other ==> Length(indent, l) <= limit
    requires more + line <= other[0] && Flatten(other) == more + line + words
    ensures |Greedy(indent, limit, words, line)| <= |other|
    decreases |other| + |words|
  {
    hide Length, Greedy, Flatten;
    if words == [] {
      NoWordsLeft(indent, limit, line);
    } else {
      var w, rest := words[0], words[1..];
      var first := other[0];
      FlattenFirst(other);
      if first == more + line {
        assert Flatten(other[1..]) == words by {
          assert words == Flatten(other)[|first|..];
        }
        NextLine(words, other);
        GreedyStaysAhead(indent, limit, words, [], [], other[1..]);
        EmptyLineIsLeast(indent, line);
        FullerLineCostsAtMostOne(indent, limit, words, line, []);
      } else {
        var start := more + (line + [w]);
        assert more + line + words == start + rest;
        assert first[|more + line|] == Flatten(other)[|more + line|] == w;
        assert start + first[|start|..] == first;
        PrefixIsShorter(indent, start, first[|start|..]);
        SuffixIsShorter(indent, more, line + [w]);
        GreedyTakes(indent, limit, words, line);
        GreedyStaysAhead(indent, limit, rest, line + [w], more, other);
      }
    }
  }

  lemma NoWordsLeft(indent: nat, limit: nat, line: seq<string>)
    ensures |Greedy(indent, limit, [], line)| == 1
  {
  }

  lemma FlattenFirst(lines: seq<seq<string>>)
    requires lines != []
    ensures Flatten(lines) == lines[0] + Flatten(lines[1..])
  {
  }

  lemma NextLine(words: seq<string>, other: seq<seq<string>>)
    requires words != [] && other != [] && Flatten(other[1..]) == words
    ensures other[1..] != [] && [] + [] <= other[1..][0] && [] + [] + words == words
  {
  }

  lemma EmptyLineIsLeast(indent: nat, line: seq<string>)
    ensures Length(indent, []) <= Length(indent, line)
  {
  }

  lemma GreedyTakes(indent: nat, limit: nat, words: seq<string>, line: seq<string>)
    requires words != [] && Length(indent, line + [words[0]]) <= limit
    ensures Greedy(indent, limit, words, line) == Greedy(indent, limit, words[1..], line + [words[0]])
  {
  }

  /** Among all breakings that respect the limit, the greedy one has the fewest lines. */
  lemma FewestLines(indent: nat, limit: nat, words: seq<string>, other: seq<seq<string>>)
    requires words != [] && Flatten(other) == words
    requires forall l :: l in other ==> Length(indent, l) <= limit
    ensures |Greedy(indent, limit, words, [])| <= |other|
  {
    assert [] + [] + words == words && [] + [] <= other[0];
    GreedyStaysAhead(indent, limit, words, [], [], other);
  }

  /** A first word that does not fit leaves an empty line before it. */
  lemma OverlongFirstWordLeavesEmptyLine(indent: nat, limit: nat, words: seq<string>)
    requires words != []
    ensures Greedy(indent, limit, words, [])[0] == [] <==> indent + 1 + |words[0]| > limit
  {
    if !Breaks(indent, limit, [], words[0]) {
      FirstLineGrows(indent, limit, words[1..], [words[0]]);
      assert [] + [words[0]] == [words[0]];
    }
  }

  lemma {:induction false} FirstLineGrows(indent: nat, limit: nat, words: seq<string>, line: seq<string>)
    ensures line <= Greedy(indent, limit, words, line)[0]
    decreases |words|
  {
    if words != [] && !Breaks(indent, limit, line, words[0]) {
      FirstLineGrows(indent, limit, words[1..], line + [words[0]]);
    }
  }

  // ----- the whole text

  predicate IsBlank(ch: char) {
    ch == ' ' || ch == '\n'
  }

  /** The text cut at every space and every line break. */
  function Pieces(s: string): (parts: seq<string>)
    ensures parts != []
  {
    if s == "" then [""]
    else
      var rest := Pieces(s[1..]);
      if IsBlank(s[0]) then [""] + rest else [[s[0]] + rest[0]] + rest[1..]
  }

  /** The words of a text of several lines. */
  function AllWords(s: string): seq<string> {
    NonEmpty(Pieces(s))
  }

  lemma {:induction false} PiecesAppend(a: string, ch: char, b: string)
    requires IsBlank(ch)
    ensures Pieces(a + [ch] + b) == Pieces(a) + Pieces(b)
  {
    if a == "" {
      assert ("" + [ch] + b)[1..] == b;
    } else {
      PiecesAppend(a[1..], ch, b);
      assert (a + [ch] + b)[1..] == a[1..] + [ch] + b;
    }
  }

  lemma {:induction false} NonEmptyAppend(a: seq<string>, b: seq<string>)
    ensures NonEmpty(a + b) == NonEmpty(a) + NonEmpty(b)
  {
    if a == [] {
      assert a + b == b;
    } else {
      assert (a + b)[1..] == a[1..] + b;
      NonEmptyAppend(a[1..], b);
    }
  }

  lemma WordsAppend(a: string, ch: char, b: string)
    requires IsBlank(ch)
    ensures AllWords(a + [ch] + b) == AllWords(a) + AllWords(b)
  {
    PiecesAppend(a, ch, b);
    NonEmptyAppend(Pieces(a), Pieces(b));
  }

  lemma WordsBeforeBlank(a: string, ch: char)
    requires IsBlank(ch)
    ensures AllWords(a + [ch]) == AllWords(a)
  {
    WordsAppend(a, ch, "");
    assert a + [ch] + "" == a + [ch] && AllWords("") == [];
  }

  lemma {:induction false} PiecesOfLine(line: string)
    requires OneLine(line)
    ensures Pieces(line) == Split(line, ' ')
  {
    if line != "" {
      assert line[0] in line;
      assert forall ch <- line[1..] :: ch in line;
      PiecesOfLine(line[1..]);
    }
  }

  function JoinLines(lines: seq<string>): string {
    if lines == [] then ""
    else if |lines| == 1 then lines[0]
    else lines[0] + "\n" + JoinLines(lines[1..])
  }

  /** Splitting loses nothing but the line breaks. */
  lemma {:induction false} SplitJoins(s: string)
    ensures JoinLines(Split(s, '\n')) == s
  {
    if s != "" {
      SplitJoins(s[1..]);
      var rest := Split(s[1..], '\n');
      if s[0] == '\n' {
        assert ([""] + rest)[1..] == rest;
      } else {
        var lines := [[s[0]] + rest[0]] + rest[1..];
        assert lines[1..] == rest[1..];
        assert JoinLines(lines) == [s[0]] + JoinLines(rest);
      }
    }
  }

  /** The words of some lines, one line after the other. */
  function LinesWords(lines: seq<string>): seq<string> {
    if lines == [] then [] else WordsOf(lines[0]) + LinesWords(lines[1..])
  }

  lemma {:induction false} LastLineWords(lines: seq<string>)
    requires lines != []
    ensures LinesWords(lines) == LinesWords(lines[..|lines| - 1]) + WordsOf(lines[|lines| - 1])
  {
    hide WordsOf;
    if |lines| > 1 {
      LastLineWords(lines[1..]);
      var init := lines[..|lines| - 1];
      assert init[1..] == lines[1..][..|lines| - 2];
      assert WordsOf(lines[0]) + (LinesWords(init[1..]) + WordsOf(lines[|lines| - 1])) ==
             WordsOf(lines[0]) + LinesWords(init[1..]) + WordsOf(lines[|lines| - 1]);
    } else {
      assert lines[..0] == [] && lines[1..] == [];
    }
  }

  lemma {:induction false} WordsOfLines(lines: seq<string>)
    requires forall line <- lines :: OneLine(line)
    ensures AllWords(JoinLines(lines)) == LinesWords(lines)
  {
    hide Pieces, NonEmpty, Split;
    if lines == [] {
      WordsOfNothing();
    } else {
      assert lines[0] in lines;
      PiecesOfLine(lines[0]);
      if |lines| > 1 {
        WordsOfLines(lines[1..]);
        WordsAppend(lines[0], '\n', JoinLines(lines[1..]));
      } else {
        assert LinesWords(lines) == WordsOf(lines[0]) + [];
      }
    }
  }

  lemma WordsOfNothing()
    ensures AllWords("") == []
  {
  }

  // ----- and of the formatted text

  predicate IsPlainWord(w: string) {
    w != "" && forall ch <- w :: !IsBlank(ch)
  }

  lemma {:induction false} PlainPiece(w: string)
    requires forall ch <- w :: !IsBlank(ch)
    ensures Pieces(w) == [w]
  {
    if w != "" {
      assert w[0] in w;
      assert forall ch <- w[1..] :: ch in w;
      PlainPiece(w[1..]);
      assert w == [w[0]] + w[1..];
    }
  }

  lemma OneNonEmpty(w: string)
    requires w != ""
    ensures NonEmpty([w]) == [w]
  {
    assert NonEmpty([w][1..]) == [];
  }

  /** A word after a text that is empty or ends in a blank is one word more. */
  lemma WordAfterBlank(a: string, w: string)
    requires a == "" || IsBlank(a[|a| - 1])
    requires IsPlainWord(w)
    ensures AllWords(a + w) == AllWords(a) + [w]
  {
    PlainPiece(w);
    OneNonEmpty(w);
    if a == "" {
      WordsOfNothing();
      assert a + w == w && [] + [w] == [w];
    } else {
      hide AllWords;
      var front, ch := a[..|a| - 1], a[|a| - 1];
      assert a == front + [ch];
      WordsAppend(front, ch, w);
      WordsBeforeBlank(front, ch);
    }
  }

  lemma {:induction false} RenderedWords(indent: nat, line: seq<string>)
    requires forall w <- line :: IsPlainWord(w)
    ensures AllWords(Render(indent, line)) == line
    ensures var r := Render(indent, line); r == "" || IsBlank(r[|r| - 1])
  {
    hide AllWords, IsPlainWord;
    if line == [] {
      PadHasNoWords(indent);
    } else {
      var init, w := line[..|line| - 1], line[|line| - 1];
      assert w in line && forall x <- init :: x in line;
      RenderedWords(indent, init);
      WordAfterBlank(Render(indent, init), w);
      WordsBeforeBlank(Render(indent, init) + w, ' ');
      assert line == init + [w];
    }
  }

  lemma {:induction false} PadHasNoWords(indent: nat)
    ensures AllWords(Pad(indent)) == []
    ensures Pad(indent) == "" || IsBlank(Pad(indent)[|Pad(indent)| - 1])
  {
    if indent == 0 {
      WordsOfNothing();
    } else {
      PadHasNoWords(indent - 1);
      WordsBeforeBlank(Pad(indent - 1), ' ');
    }
  }

  lemma {:induction false} RenderedLinesWords(indent: nat, lines: seq<seq<string>>)
    requires forall w <- Flatten(lines) :: IsPlainWord(w)
    ensures AllWords(RenderAll(indent, lines)) == Flatten(lines)
  {
    hide AllWords, IsPlainWord, Render;
    if lines == [] {
      WordsOfNothing();
    } else {
      var rest := lines[1..];
      assert forall w <- lines[0] :: w in Flatten(lines);
      assert forall w <- Flatten(rest) :: w in Flatten(lines);
      RenderedWords(indent, lines[0]);
      if |lines| > 1 {
        RenderedLinesWords(indent, rest);
        WordsAppend(Render(indent, lines[0]), '\n', RenderAll(indent, rest));
      } else {
        assert Flatten(lines) == lines[0] + [];
      }
    }
  }

  lemma WordsArePlain(line: string)
    requires OneLine(line)
    ensures forall w <- WordsOf(line) :: IsPlainWord(w)
  {
    PartsAreWithin(line, ' ');
    NonEmptyAreParts(Split(line, ' '));
  }

  lemma FormattedLineWords(indent: nat, limit: nat, line: string)
    requires OneLine(line)
    ensures AllWords(FormatLine(indent, limit, line)) == WordsOf(line)
  {
    hide AllWords, WordsOf, IsLiteral, Greedy, RenderAll, IsPlainWord, IsBlank;
    assert IsBlank('\n') by {
      BreaksAreBlank();
    }
    var words := WordsOf(line);
    if words == [] {
      WordsBeforeBlank("", '\n');
      WordsOfNothing();
      assert "" + ['\n'] == "\n";
    } else if IsLiteral(line, words) {
      WordsBeforeBlank(line, '\n');
      LineWords(line);
    } else {
      var lines := Greedy(indent, limit, words, []);
      WordsStayInOrder(indent, limit, words, []);
      assert [] + words == words;
      WordsArePlain(line);
      RenderedLinesWords(indent, lines);
      WordsBeforeBlank(RenderAll(indent, lines), '\n');
    }
  }

  lemma BreaksAreBlank()
    ensures IsBlank('\n')
  {
  }

  lemma LineWords(line: string)
    requires OneLine(line)
    ensures AllWords(line) == WordsOf(line)
  {
    PiecesOfLine(line);
  }

  lemma {:induction false} FormattedWords(indent: nat, limit: nat, lines: seq<string>)
    requires forall line <- lines :: OneLine(line)
    ensures AllWords(FormatLines(indent, limit, lines)) == LinesWords(lines)
    ensures var s := FormatLines(indent, limit, lines); s == "" || s[|s| - 1] == '\n'
  {
    hide AllWords, WordsOf, LinesWords, OneLine;
    if lines == [] {
      WordsOfNothing();
      assert LinesWords([]) == [] by {
        NoLinesWords();
      }
    } else {
      var init, last := lines[..|lines| - 1], lines[|lines| - 1];
      assert last in lines && forall line <- init :: line in lines;
      FormattedWords(indent, limit, init);
      FormattedLineWords(indent, limit, last);
      LastLineWords(lines);
      var before, after := FormatLines(indent, limit, init), FormatLine(indent, limit, last);
      AppendAfterBreak(before, after);
    }
  }

  lemma NoLinesWords()
    ensures LinesWords([]) == []
  {
  }

  lemma AppendAfterBreak(a: string, b: string)
    requires a == "" || a[|a| - 1] == '\n'
    ensures AllWords(a + b) == AllWords(a) + AllWords(b)
  {
    hide AllWords;
    if a == "" {
      WordsOfNothing();
      assert a + b == b && [] + AllWords(b) == AllWords(b);
    } else {
      var front := a[..|a| - 1];
      assert a == front + ['\n'];
      WordsAppend(front, '\n', b);
      WordsBeforeBlank(front, '\n');
    }
  }

  /** Formatting a help text loses, adds, joins and moves no word of it. */
  lemma EveryWordIsKept(indent: nat, limit: nat, helpString: string)
    ensures AllWords(FormatLines(indent, limit, Split(helpString, '\n'))) == AllWords(helpString)
  {
    hide AllWords, FormatLines, LinesWords, JoinLines, Split;
    SplitJoins(helpString);
    SplitIntoLines(helpString);
    WordsOfLines(Split(helpString, '\n'));
    FormattedWords(indent, limit, Split(helpString, '\n'));
  }

  lemma SplitIntoLines(s: string)
    ensures forall line <- Split(s, '\n') :: OneLine(line)
  {
    PartsAreWithin(s, '\n');
  }

  /** Lines that are literal, by four spaces or a leading "$", stay as they are, and blank lines stay blank. */
  lemma LiteralLinesStay(indent: nat, limit: nat, line: string)
    ensures WordsOf(line) == [] ==> FormatLine(indent, limit, line) == "\n"
    ensures WordsOf(line) != [] && ((|line| >= 4 && line[..4] == "    ") || WordsOf(line)[0] == "$") ==>
              FormatLine(indent, limit, line) == line + "\n"
  {
  }

  /** Every rendered line starts with the spaces of its indentation. */
  lemma {:induction false} RenderedIsIndented(indent: nat, line: seq<string>)
    ensures var r := Render(indent, line);
            indent <= |r| && forall i :: 0 <= i < indent ==> r[i] == ' '
  {
    if line != [] {
      RenderedIsIndented(indent, line[..|line| - 1]);
    } else if indent > 0 {
      RenderedIsIndented(indent - 1, line);
      PadIsOneLine(indent - 1);
      assert Render(indent, line) == Render(indent - 1, line) + " ";
    }
  }
}

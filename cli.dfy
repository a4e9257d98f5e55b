/** The command-line tokenizer of the interactive shell (readLine in
    cmd/openess/cli.go): a line is read up to its newline and cut into
    words at spaces outside double quotes; quotes group, and are dropped. */
module Cli {
  import opened Base
  import opened Text

  // ------------------------------------------------------- specification

  /** A line as a sequence of symbols: None marks a word break, Some(c) a
      character kept in a word. A '"' switches quoting and a '\n' is
      dropped; a space outside quotes is a break; every other character,
      a quoted space included, is kept. `quote` is the state on entry. */
  function Symbols(text: string, quote: bool): (r: seq<Option<char>>)
    ensures |r| <= |text|
    ensures forall k | 0 <= k < |r| :: r[k].Some? ==> r[k].value != '"' && r[k].value != '\n'
    decreases |text|
  {
    if text == [] then []
    else
      var c := text[0];
      if c == '"' then Symbols(text[1..], !quote)
      else if c == '\n' then Symbols(text[1..], quote)
      else if c == ' ' && !quote then [None] + Symbols(text[1..], quote)
      else [Some(c)] + Symbols(text[1..], quote)
  }

  /** The characters of a word as symbols. */
  function Lift(w: string): (r: seq<Option<char>>)
    ensures |r| == |w| && forall k | 0 <= k < |w| :: r[k] == Some(w[k])
  {
    seq(|w|, k requires 0 <= k < |w| => Some(w[k]))
  }

  /** The pieces between the breaks, empty ones included: n breaks give
      n + 1 pieces. */
  function Split(syms: seq<Option<char>>): (r: seq<string>)
    ensures |r| >= 1
    decreases |syms|
  {
    if syms == [] then [""]
    else
      var rest := Split(syms[1..]);
      if syms[0].None? then [""] + rest
      else [[syms[0].value] + rest[0]] + rest[1..]
  }

  /** The pieces that are not empty, in order. */
  function NonEmpty(pieces: seq<string>): (r: seq<string>)
    ensures forall t | t in r :: t != [] && t in pieces
    decreases |pieces|
  {
    if pieces == [] then []
    else (if pieces[0] == [] then [] else [pieces[0]]) + NonEmpty(pieces[1..])
  }

  /** The words of a symbol sequence: the maximal runs of kept characters,
      in order; adjacent breaks yield no empty word. */
  function Words(syms: seq<Option<char>>): seq<string> {
    NonEmpty(Split(syms))
  }

  /** What readLine returns for a line. */
  function Tokens(line: string): seq<string> {
    Words(Symbols(line, false))
  }

  /** A text with every space a break and every other character kept. */
  function Spaced(s: string): (r: seq<Option<char>>)
    ensures |r| == |s|
  {
    seq(|s|, k requires 0 <= k < |s| => if s[k] == ' ' then None else Some(s[k]))
  }

  /** The space split of a text. */
  function Fields(s: string): seq<string> {
    Words(Spaced(s))
  }

  /** The text with its newlines removed. */
  function DropNewlines(s: string): (r: string)
    ensures '\n' !in r
    decreases |s|
  {
    if s == [] then [] else (if s[0] == '\n' then [] else [s[0]]) + DropNewlines(s[1..])
  }

  // ------------------------------------------------------- properties

  lemma {:induction false} SplitLift(w: string, rest: seq<Option<char>>)
    ensures Split(Lift(w) + rest) == [w + Split(rest)[0]] + Split(rest)[1..]
    decreases |w|
  {
    if w == [] {
      assert Lift(w) + rest == rest;
      assert w + Split(rest)[0] == Split(rest)[0];
      assert Split(rest) == [Split(rest)[0]] + Split(rest)[1..];
    } else {
      assert (Lift(w) + rest)[1..] == Lift(w[1..]) + rest;
      SplitLift(w[1..], rest);
      assert [w[0]] + (w[1..] + Split(rest)[0]) == w + Split(rest)[0];
    }
  }

  lemma {:induction false} SplitBreak(x: seq<Option<char>>, y: seq<Option<char>>)
    ensures Split(x + [None] + y) == Split(x) + Split(y)
    decreases |x|
  {
    if x == [] {
      assert x + [None] + y == [None] + y;
    } else {
      assert (x + [None] + y)[1..] == x[1..] + [None] + y;
      SplitBreak(x[1..], y);
    }
  }

  lemma {:induction false} NonEmptyAppend(a: seq<string>, b: seq<string>)
    ensures NonEmpty(a + b) == NonEmpty(a) + NonEmpty(b)
    decreases |a|
  {
    if a == [] {
      assert a + b == b;
    } else {
      assert (a + b)[1..] == a[1..] + b;
      NonEmptyAppend(a[1..], b);
    }
  }

  /** A word on its own is the single token it spells, unless empty. */
  lemma WordsOfLift(w: string)
    ensures Words(Lift(w)) == if w == [] then [] else [w]
  {
    SplitLift(w, []);
    assert Lift(w) + [] == Lift(w);
    assert Split([]) == [""] && w + "" == w;
    assert Split(Lift(w)) == [w];
    assert NonEmpty([w]) == (if w == [] then [] else [w]) + NonEmpty([w][1..]);
    assert [w][1..] == [];
  }

  /** A break splits the words: what precedes and what follows it are
      tokenised independently. */
  lemma WordsBreak(x: seq<Option<char>>, y: seq<Option<char>>)
    ensures Words(x + [None] + y) == Words(x) + Words(y)
  {
    SplitBreak(x, y);
    NonEmptyAppend(Split(x), Split(y));
  }

  /** Every token is non-empty and holds neither '"' nor '\n'. */
  lemma TokensClean(line: string)
    ensures forall t | t in Tokens(line) :: t != [] && '"' !in t && '\n' !in t
  {
    var syms := Symbols(line, false);
    SplitAvoid(syms, '"');
    SplitAvoid(syms, '\n');
  }

  /** A character never kept in the symbols appears in no piece. */
  lemma {:induction false} SplitAvoid(syms: seq<Option<char>>, x: char)
    requires forall k | 0 <= k < |syms| :: syms[k] != Some(x)
    ensures forall t | t in Split(syms) :: x !in t
    decreases |syms|
  {
    if syms != [] {
      SplitAvoid(syms[1..], x);
      var rest := Split(syms[1..]);
      assert rest[0] in rest;
      forall t | t in rest[1..] ensures t in rest {
        var k :| 0 <= k < |rest[1..]| && rest[1..][k] == t;
        assert rest[k + 1] == t;
      }
    }
  }

  /** On a quote-free line, the space splitting of the text with its
      newlines removed. */
  lemma TokensWithoutQuotes(line: string)
    requires '"' !in line
    ensures Tokens(line) == Fields(DropNewlines(line))
  {
    forall k | 0 <= k < |line| ensures line[k] != '"' {
      assert line[k] in line;
    }
    SymbolsWithoutQuotes(line);
  }

  lemma {:induction false} SymbolsWithoutQuotes(line: string)
    requires forall k | 0 <= k < |line| :: line[k] != '"'
    ensures Symbols(line, false) == Spaced(DropNewlines(line))
    decreases |line|
  {
    if line != [] {
      SymbolsWithoutQuotes(line[1..]);
      var tail := DropNewlines(line[1..]);
      if line[0] != '\n' {
        assert Spaced([line[0]] + tail) == Spaced([line[0]]) + Spaced(tail);
      }
    }
  }

  /** Spaces separate fields, and a run of spaces yields no empty field. */
  lemma FieldsSpace(a: string, b: string)
    ensures Fields(a + " " + b) == Fields(a) + Fields(b)
  {
    assert Spaced(a + " " + b) == Spaced(a) + [None] + Spaced(b);
    WordsBreak(Spaced(a), Spaced(b));
  }

  /** Text with no space is a single field, unless empty. */
  lemma FieldsWord(w: string)
    requires ' ' !in w
    ensures Fields(w) == if w == [] then [] else [w]
  {
    forall k | 0 <= k < |w| ensures w[k] != ' ' {
      assert w[k] in w;
    }
    assert Spaced(w) == Lift(w);
    WordsOfLift(w);
  }

  /** Text without quotes or newlines, and without spaces unless quoted. */
  predicate Plain(w: string, quote: bool) {
    forall k | 0 <= k < |w| :: w[k] != '"' && w[k] != '\n' && (quote || w[k] != ' ')
  }

  lemma PlainOf(w: string, quote: bool)
    requires '"' !in w && '\n' !in w && (quote || ' ' !in w)
    ensures Plain(w, quote)
  {
    forall k | 0 <= k < |w| ensures w[k] in w {
    }
  }

  /** Plain text is kept whole. */
  lemma {:induction false} SymbolsKeep(w: string, rest: string, quote: bool)
    requires Plain(w, quote)
    ensures Symbols(w + rest, quote) == Lift(w) + Symbols(rest, quote)
    decreases |w|
  {
    if w != [] {
      assert (w + rest)[1..] == w[1..] + rest;
      SymbolsKeep(w[1..], rest, quote);
      assert Lift(w) == [Some(w[0])] + Lift(w[1..]);
    } else {
      assert w + rest == rest;
    }
  }

  /** A quoted part joins the unquoted text around it into one word, and
      keeps its spaces: a"b c"d gives the single token ab cd. */
  lemma QuotedJoin(a: string, b: string, c: string)
    requires ' ' !in a && '"' !in a && '\n' !in a
    requires '"' !in b && '\n' !in b
    requires ' ' !in c && '"' !in c && '\n' !in c
    ensures Tokens(a + "\"" + b + "\"" + c) == if a + b + c == [] then [] else [a + b + c]
  {
    var line := a + "\"" + b + "\"" + c;
    assert line == a + ("\"" + (b + ("\"" + c)));
    PlainOf(a, false);
    PlainOf(b, true);
    PlainOf(c, false);
    SymbolsKeep(a, "\"" + (b + ("\"" + c)), false);
    assert ("\"" + (b + ("\"" + c)))[1..] == b + ("\"" + c);
    SymbolsKeep(b, "\"" + c, true);
    assert ("\"" + c)[1..] == c;
    SymbolsKeep(c, [], false);
    assert c + [] == c;
    assert Lift(a) + (Lift(b) + (Lift(c) + [])) == Lift(a + b + c);
    WordsOfLift(a + b + c);
  }

  /** An unterminated quote runs to the end of the line: a plain word, a
      space and an opening quote give the word and the rest, spaces kept. */
  lemma OpenQuote(a: string, b: string)
    requires a != [] && ' ' !in a && '"' !in a && '\n' !in a
    requires '"' !in b && '\n' !in b
    ensures Tokens(a + " \"" + b) == [a] + if b == [] then [] else [b]
  {
    assert a + " \"" + b == a + (" \"" + b);
    PlainOf(a, false);
    SymbolsKeep(a, " \"" + b, false);
    QuoteToEnd(b);
    WordsBreak(Lift(a), Lift(b));
    assert Lift(a) + ([None] + Lift(b)) == Lift(a) + [None] + Lift(b);
    WordsOfLift(a);
    WordsOfLift(b);
  }

  /** A space and an opening quote: a break, then the rest kept whole. */
  lemma QuoteToEnd(b: string)
    requires '"' !in b && '\n' !in b
    ensures Symbols(" \"" + b, false) == [None] + Lift(b)
  {
    assert (" \"" + b)[1..] == "\"" + b && ("\"" + b)[1..] == b;
    PlainOf(b, true);
    SymbolsKeep(b, [], true);
    assert b + [] == b;
  }


  // ------------------------------------------------------- the tokenizer

  /** bufio.Reader.ReadString('\n'): the text up to and including the first
      newline, and what remains; without a newline, the rest of the input
      with io.EOF. */
  function ReadString(input: string): (r: (Result<string>, string))
    ensures r.0.Ok? <==> '\n' in input
    ensures r.0.Ok? ==> r.0.value + r.1 == input && |r.0.value| > 0 && r.0.value[|r.0.value| - 1] == '\n'
    ensures r.0.Ok? ==> '\n' !in r.0.value[..|r.0.value| - 1]
  {
    if '\n' in input then
      var line := UpToFirst(input, '\n') + "\n";
      assert input[..|line|] == line;
      assert line[..|line| - 1] == UpToFirst(input, '\n');
      (Ok(line), input[|line|..])
    else (Err(Eof), [])
  }

  /** One character of the line, as Symbols reads it. */
  lemma SymbolsAt(text: string, i: nat, quote: bool)
    requires i < |text|
    ensures text[i] == '"' ==> Symbols(text[i..], quote) == Symbols(text[i + 1..], !quote)
    ensures text[i] == '\n' ==> Symbols(text[i..], quote) == Symbols(text[i + 1..], quote)
    ensures text[i] == ' ' && !quote ==> Symbols(text[i..], quote) == [None] + Symbols(text[i + 1..], quote)
    ensures text[i] != '"' && text[i] != '\n' && (text[i] != ' ' || quote) ==>
      Symbols(text[i..], quote) == [Some(text[i])] + Symbols(text[i + 1..], quote)
  {
    assert text[i..][1..] == text[i + 1..];
  }

  lemma LiftSnoc(w: string, c: char, rest: seq<Option<char>>)
    ensures Lift(w) + ([Some(c)] + rest) == Lift(w + [c]) + rest
  {
    assert Lift(w + [c]) == Lift(w) + [Some(c)];
  }

  /** What is left to tokenise after the current word `sb` and the rest
      of the line from i, read in quote state `quote`, when character i is
      consumed. */
  lemma WordsAt(text: string, i: nat, quote: bool, sb: string)
    requires i < |text|
    ensures text[i] == '"' ==>
      Words(Lift(sb) + Symbols(text[i..], quote)) == Words(Lift(sb) + Symbols(text[i + 1..], !quote))
    ensures text[i] == '\n' ==>
      Words(Lift(sb) + Symbols(text[i..], quote)) == Words(Lift(sb) + Symbols(text[i + 1..], quote))
    ensures text[i] == ' ' && !quote ==>
      Words(Lift(sb) + Symbols(text[i..], quote)) ==
        (if sb == [] then [] else [sb]) + Words(Lift([]) + Symbols(text[i + 1..], quote))
    ensures text[i] != '"' && text[i] != '\n' && (text[i] != ' ' || quote) ==>
      Words(Lift(sb) + Symbols(text[i..], quote)) == Words(Lift(sb + [text[i]]) + Symbols(text[i + 1..], quote))
  {
    SymbolsAt(text, i, quote);
    var after := Symbols(text[i + 1..], quote);
    if text[i] == ' ' && !quote {
      WordsBreak(Lift(sb), after);
      WordsOfLift(sb);
      assert Lift(sb) + ([None] + after) == Lift(sb) + [None] + after;
      assert Lift([]) + after == after;
    } else if text[i] != '"' && text[i] != '\n' {
      LiftSnoc(sb, text[i], after);
    }
  }

  /** The loop state of readLine after the first i characters of the
      line: the tokens so far, then the words of the pending token and the
      rest of the line, are the tokens of the line. */
  ghost predicate Scanned(text: string, i: nat, quote: bool, sb: string, args: seq<string>) {
    i <= |text| && args + Words(Lift(sb) + Symbols(text[i..], quote)) == Tokens(text)
  }

  /** One iteration of readLine's loop: character i toggles quoting, is
      dropped, ends the pending token, or is appended to it. */
  method Consume(text: string, i: nat, quote: bool, sb: string, args: seq<string>)
    returns (quote': bool, sb': string, args': seq<string>)
    requires i < |text| && Scanned(text, i, quote, sb, args)
    ensures Scanned(text, i + 1, quote', sb', args')
  {
    var c := text[i];
    WordsAt(text, i, quote, sb);
    quote', sb', args' := quote, sb, args;
    if c == '"' && !quote {
      quote' := true;
    } else if c == '"' && quote {
      quote' := false;
    } else if c == '\n' {
    } else if c == ' ' && !quote {
      if sb != [] {
        args' := args + [sb];
        sb' := "";
      } else {
        assert Lift(sb) == Lift([]);
      }
    } else {
      sb' := sb + [c];
    }
  }

  /** readLine: read a line and tokenise it. A read error, io.EOF on a last
      line without newline included, loses the line and is returned. */
  method ReadLine(input: string) returns (r: Result<seq<string>>, rest: string)
    ensures (r.Ok? <==> '\n' in input) && rest == ReadString(input).1
    ensures r.Ok? ==> r.value == Tokens(ReadString(input).0.value)
    ensures r.Err? ==> r.error == Eof
  {
    var (read, after) := ReadString(input);
    rest := after;
    if read.Err? {
      return Err(read.error), rest;
    }
    var text := read.value;
    var args: seq<string> := [];
    var quote := false;
    var sb: string := "";
    var i := 0;
    assert Lift(sb) + Symbols(text[i..], quote) == Symbols(text, false);
    while i < |text|
      invariant Scanned(text, i, quote, sb, args)
    {
      quote, sb, args := Consume(text, i, quote, sb, args);
      i := i + 1;
    }
    WordsOfLift(sb);
    assert Lift(sb) + Symbols(text[i..], quote) == Lift(sb);
    if sb != [] {
      args := args + [sb];
    }
    return Ok(args), rest;
  }
}

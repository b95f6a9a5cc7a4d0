/** Printing and parsing shell lines are inverse. */
module ShellRoundTrip {
  import opened Basics
  import opened ShellGrammar

  // ----- a command's words -----

  lemma {:induction false} WordsQuoted(w: string, word: string, rest: string)
    requires forall k | 0 <= k < |w| :: !IsQuote(w[k])
    ensures Words(w + "'" + rest, word, true) == Words(rest, word + w, false)
  {
    if w == "" {
      assert w + "'" + rest == "'" + rest && word + w == word;
    } else {
      assert (w + "'" + rest)[1..] == w[1..] + "'" + rest;
      WordsQuoted(w[1..], word + [w[0]], rest);
      assert word + [w[0]] + w[1..] == word + w;
    }
  }

  /** A quoted word followed by a separator is one word. */
  lemma {:induction false} WordsOne(w: string, rest: string)
    requires w != "" && forall k | 0 <= k < |w| :: !IsQuote(w[k])
    requires rest == "" || rest[0] == ' ' || IsAngle(rest[0])
    ensures Words(Quoted(w) + rest, "", false) == [w] + Words(rest, "", false)
  {
    assert Quoted(w) + rest == "'" + (w + "'" + rest);
    assert ("'" + (w + "'" + rest))[1..] == w + "'" + rest;
    WordsQuoted(w, "", rest);
    assert "" + w == w;
    if rest != "" {
      assert Words(rest, w, false) == [w] + Words(rest, "", false);
    }
  }

  function FileWords(sign: string, file: string): seq<string>
  {
    if file == "" then [] else [sign, file]
  }

  lemma {:induction false} WordsSign(sign: char, rest: string)
    requires IsAngle(sign)
    ensures Words([sign] + rest, "", false) == [[sign]] + Words(rest, "", false)
  {
    assert ([sign] + rest)[1..] == rest;
  }

  lemma {:induction false} WordsSpace(rest: string)
    ensures Words(" " + rest, "", false) == Words(rest, "", false)
  {
    assert (" " + rest)[1..] == rest;
  }

  /** A redirection sign and its file. */
  lemma {:induction false} WordsFile(sign: char, file: string, rest: string)
    requires IsAngle(sign) && IsPlain(file)
    requires rest == "" || rest[0] == ' ' || IsAngle(rest[0])
    ensures Words(PrintFile([sign], file) + rest, "", false) == FileWords([sign], file) + Words(rest, "", false)
  {
    if file == "" {
      assert PrintFile([sign], file) + rest == rest;
    } else {
      var more := Words(rest, "", false);
      assert PrintFile([sign], file) == [sign] + Quoted(file) && FileWords([sign], file) == [[sign]] + [file];
      WordsSign(sign, Quoted(file) + rest);
      WordsOne(file, rest);
      hide *;
      Associative([sign], Quoted(file), rest);
      Associative([[sign]], [file], more);
    }
  }

  lemma Associative<T>(a: seq<T>, b: seq<T>, c: seq<T>)
    ensures a + (b + c) == a + b + c
  {
  }

  lemma {:induction false} WordsArgs(args: seq<string>, rest: string)
    requires forall k | 0 <= k < |args| :: args[k] != "" && IsPlain(args[k])
    requires rest == "" || rest[0] == ' ' || IsAngle(rest[0])
    ensures Words(PrintArgs(args) + rest, "", false) == args + Words(rest, "", false)
  {
    if args == [] {
      assert PrintArgs(args) + rest == rest;
    } else {
      var w, more := Quoted(args[0]), PrintArgs(args[1..]) + rest;
      assert PrintArgs(args) == " " + w + PrintArgs(args[1..]);
      assert more == "" || more[0] == ' ' || IsAngle(more[0]);
      WordsSpace(w + more);
      WordsOne(args[0], more);
      WordsArgs(args[1..], rest);
      assert args == [args[0]] + args[1..];
      hide *;
      Associative(" " + w, PrintArgs(args[1..]), rest);
      Associative(" ", w, more);
      Associative([args[0]], args[1..], Words(rest, "", false));
    }
  }

  lemma WordsCommand(t: Token)
    requires t.Command? && Printable(t)
    ensures Words(PrintToken(t), "", false)
         == [t.name] + (t.args + (FileWords("<", t.input) + FileWords(">", t.output)))
  {
    var output := PrintFile(">", t.output);
    var files := PrintFile("<", t.input) + output;
    WordsFile('>', t.output, "");
    assert output + "" == output && Words("", "", false) == [];
    WordsFile('<', t.input, output);
    WordsArgs(t.args, files);
    WordsOne(t.name, PrintArgs(t.args) + files);
  }

  // ----- a command's arguments and files -----

  lemma {:induction false} ArgumentsPlain(args: seq<string>, rest: seq<string>, c: Token)
    requires c.Command? && forall k | 0 <= k < |args| :: !IsRedirection(args[k])
    ensures Arguments(args + rest, c, Clear) == Arguments(rest, c.(args := c.args + args), Clear)
  {
    if args == [] {
      assert args + rest == rest && c.args + args == c.args;
    } else {
      assert (args + rest)[1..] == args[1..] + rest;
      ArgumentsPlain(args[1..], rest, c.(args := c.args + [args[0]]));
      assert c.args + [args[0]] + args[1..] == c.args + args;
    }
  }

  lemma {:induction false} ArgumentsFiles(c: Token, input: string, output: string)
    requires c.Command? && c.input == "" && c.output == "" && !IsRedirection(input) && !IsRedirection(output)
    ensures Arguments(FileWords("<", input) + FileWords(">", output), c, Clear)
         == Ok(c.(input := input, output := output))
  {
    var last := FileWords(">", output);
    var c' := c.(input := input);
    assert Arguments(last, c', Clear) == Ok(c'.(output := output)) by {
      if output != "" {
        assert last == [">", output] && last[1..] == [output] && [output][1..] == [];
        assert Arguments([output], c', Out) == Arguments([], c'.(output := output), Clear);
      }
    }
    if input == "" {
      assert FileWords("<", input) + last == last;
    } else {
      var ws := FileWords("<", input) + last;
      assert ws[1..] == [input] + last && ([input] + last)[1..] == last;
      assert Arguments([input] + last, c, In) == Arguments(last, c', Clear);
    }
  }

  /** A printable command is read back as printed. */
  lemma CommandRoundTrip(t: Token)
    requires t.Command? && Printable(t)
    ensures CommandOf(PrintToken(t)) == Ok(t)
  {
    WordsCommand(t);
    var files := FileWords("<", t.input) + FileWords(">", t.output);
    var words := [t.name] + (t.args + files);
    assert words[1..] == t.args + files;
    var c := Command(t.name, [], "", "");
    ArgumentsPlain(t.args, files, c);
    assert [] + t.args == t.args;
    ArgumentsFiles(c.(args := t.args), t.input, t.output);
  }

  // ----- scanning for operators -----

  /** Whether quoting is on after s, unless an unquoted operator stops the scan. */
  function Scan(s: string, quoted: bool): Option<bool>
  {
    if s == "" then Some(quoted)
    else if IsQuote(s[0]) then Scan(s[1..], !quoted)
    else if quoted || !IsOperator(s[0]) then Scan(s[1..], quoted)
    else None
  }

  lemma {:induction false} ScanAppend(a: string, b: string, quoted: bool)
    requires Scan(a, quoted).Some?
    ensures Scan(a + b, quoted) == Scan(b, Scan(a, quoted).value)
  {
    if a == "" {
      assert a + b == b;
    } else {
      assert (a + b)[1..] == a[1..] + b;
      ScanAppend(a[1..], b, if IsQuote(a[0]) then !quoted else quoted);
    }
  }

  /** What holds no unquoted operator becomes text. */
  lemma {:induction false} TokensScan(s: string, rest: string, text: string, quoted: bool, pos: nat)
    requires Scan(s, quoted).Some?
    ensures Tokens(s + rest, text, quoted, pos) == Tokens(rest, text + s, Scan(s, quoted).value, pos + |s|)
  {
    if s == "" {
      assert s + rest == rest && text + s == text;
    } else {
      assert (s + rest)[1..] == s[1..] + rest;
      TokensScan(s[1..], rest, text + [s[0]], if IsQuote(s[0]) then !quoted else quoted, pos + 1);
      assert text + [s[0]] + s[1..] == text + s;
    }
  }

  lemma {:induction false} ScanInside(w: string)
    requires forall k | 0 <= k < |w| :: !IsQuote(w[k])
    ensures Scan(w, true) == Some(true)
  {
    if w != "" {
      ScanInside(w[1..]);
    }
  }

  lemma ScanQuoted(w: string)
    requires IsPlain(w)
    ensures Scan(Quoted(w), false) == Some(false)
  {
    ScanInside(w);
    assert Quoted(w) == "'" + (w + "'") && ("'" + (w + "'"))[1..] == w + "'";
    ScanAppend(w, "'", true);
    assert "'"[1..] == "";
  }

  lemma {:induction false} ScanArgs(args: seq<string>)
    requires forall k | 0 <= k < |args| :: IsPlain(args[k])
    ensures Scan(PrintArgs(args), false) == Some(false)
  {
    if args != [] {
      ScanQuoted(args[0]);
      ScanArgs(args[1..]);
      ScanAppend(Quoted(args[0]), PrintArgs(args[1..]), false);
      assert PrintArgs(args) == " " + (Quoted(args[0]) + PrintArgs(args[1..]));
      assert PrintArgs(args)[1..] == Quoted(args[0]) + PrintArgs(args[1..]);
    }
  }

  lemma ScanFile(sign: char, file: string)
    requires IsAngle(sign) && IsPlain(file)
    ensures Scan(PrintFile([sign], file), false) == Some(false)
  {
    if file != "" {
      ScanQuoted(file);
      assert PrintFile([sign], file)[1..] == Quoted(file);
    }
  }

  lemma ScanCommand(t: Token)
    requires t.Command? && Printable(t)
    ensures Scan(PrintToken(t), false) == Some(false)
  {
    ScanQuoted(t.name);
    ScanArgs(t.args);
    ScanFile('<', t.input);
    ScanFile('>', t.output);
    ScanAppend(PrintFile("<", t.input), PrintFile(">", t.output), false);
    ScanAppend(PrintArgs(t.args), PrintFile("<", t.input) + PrintFile(">", t.output), false);
    ScanAppend(Quoted(t.name), PrintArgs(t.args) + (PrintFile("<", t.input) + PrintFile(">", t.output)), false);
  }

  // ----- lines -----

  lemma {:induction false} TokensOperator(op: OperatorType, rest: string, c: Token, text: string, pos: nat)
    requires rest != "" ==> !IsOperator(rest[0])
    requires CommandOf(text) == Ok(c)
    ensures Tokens(Spelling(op) + rest, text, false, pos)
         == Prepend([c, Operator(op)], Tokens(rest, "", false, pos + |Spelling(op)|))
  {
    hide CommandOf;
    var s := Spelling(op) + rest;
    assert OperatorAt(s) == Some(op);
    assert s[|Spelling(op)|..] == rest;
  }

  /** After a printed command the tokens are the command and what follows. */
  lemma {:induction false} TokensCommand(t: Token, op: OperatorType, rest: string, pos: nat)
    requires t.Command? && Printable(t)
    requires rest != "" ==> !IsOperator(rest[0])
    ensures var k := pos + |PrintToken(t)| + |Spelling(op)|;
            Tokens(PrintToken(t) + (Spelling(op) + rest), "", false, pos)
            == Prepend([t, Operator(op)], Tokens(rest, "", false, k))
  {
    hide *;
    ScanCommand(t);
    CommandRoundTrip(t);
    TokensScan(PrintToken(t), Spelling(op) + rest, "", false, pos);
    assert "" + PrintToken(t) == PrintToken(t);
    TokensOperator(op, rest, t, PrintToken(t), pos + |PrintToken(t)|);
  }

  lemma {:induction false} TokensLast(t: Token, pos: nat)
    requires t.Command? && Printable(t)
    ensures Tokens(PrintToken(t), "", false, pos) == Ok([t])
  {
    ScanCommand(t);
    CommandRoundTrip(t);
    TokensScan(PrintToken(t), "", "", false, pos);
    assert PrintToken(t) + "" == PrintToken(t) && "" + PrintToken(t) == PrintToken(t);
  }

  lemma {:induction false} PrintStart(tokens: seq<Token>)
    requires IsLine(tokens)
    ensures Print(tokens) != "" && Print(tokens)[0] == '\''
  {
    assert PrintToken(tokens[0])[0] == '\'';
  }

  lemma {:induction false} TokensRoundTrip(tokens: seq<Token>, pos: nat)
    requires IsLine(tokens) && forall k | 0 <= k < |tokens| :: Printable(tokens[k])
    ensures Tokens(Print(tokens), "", false, pos) == Ok(tokens)
    decreases |tokens|
  {
    var t := tokens[0];
    if |tokens| == 1 {
      assert tokens == [t] && tokens[1..] == [];
      assert Print([]) == "" && PrintToken(t) + "" == PrintToken(t);
      TokensLast(t, pos);
    } else {
      var op, rest := tokens[1].op, tokens[2..];
      assert tokens[1..][1..] == rest;
      assert tokens == [t, Operator(op)] + rest;
      assert Print(tokens) == PrintToken(t) + (Spelling(op) + Print(rest));
      if rest != [] {
        PrintStart(rest);
      }
      TokensCommand(t, op, Print(rest), pos);
      if rest != [] {
        TokensRoundTrip(rest, pos + |PrintToken(t)| + |Spelling(op)|);
      }
    }
  }

  lemma {:induction false} NothingEmpty(tokens: seq<Token>)
    requires forall k | 0 <= k < |tokens| :: !IsEmptyCommand(tokens[k])
    ensures WithoutEmpty(tokens) == tokens
  {
    if tokens != [] {
      NothingEmpty(tokens[1..]);
    }
  }

  /** Every well-formed line of printable commands is read back as printed. */
  lemma {:induction false} RoundTrip(tokens: seq<Token>)
    requires WellFormed(tokens) && forall k | 0 <= k < |tokens| :: Printable(tokens[k])
    ensures Parse(Print(tokens)) == Ok(tokens)
  {
    if tokens != [] {
      TokensRoundTrip(tokens, 0);
      assert forall k | 0 <= k < |tokens| :: Printable(tokens[k]);
      NothingEmpty(tokens);
    }
  }

  // ----- everything accepted is printable -----

  ghost predicate NoQuotes(word: string)
  {
    forall k | 0 <= k < |word| :: !IsQuote(word[k])
  }

  ghost predicate AreWords(words: seq<string>)
  {
    forall k | 0 <= k < |words| :: words[k] != "" && NoQuotes(words[k])
  }

  lemma {:induction false} WordsHaveNoQuotes(s: string, word: string, quoted: bool)
    requires NoQuotes(word)
    ensures AreWords(Words(s, word, quoted))
  {
    if s != "" {
      if IsQuote(s[0]) {
        WordsHaveNoQuotes(s[1..], word, !quoted);
      } else if quoted || (!IsAngle(s[0]) && !IsSpace(s[0])) {
        WordsHaveNoQuotes(s[1..], word + [s[0]], quoted);
      } else {
        WordsHaveNoQuotes(s[1..], "", quoted);
      }
    }
  }

  /** Printable, but for a missing name. */
  ghost predicate PlainParts(c: Token)
    requires c.Command?
  {
    && IsPlain(c.name) && IsPlain(c.input) && IsPlain(c.output)
    && forall k | 0 <= k < |c.args| :: c.args[k] != "" && IsPlain(c.args[k])
  }

  lemma {:induction false} ArgumentsArePlain(words: seq<string>, c: Token, p: Pending)
    requires AreWords(words) && c.Command? && PlainParts(c) && Arguments(words, c, p).Ok?
    ensures Arguments(words, c, p).value.Command? && PlainParts(Arguments(words, c, p).value)
  {
    if words != [] {
      var w, rest := words[0], words[1..];
      assert w != "" && NoQuotes(w);
      var c' := if IsRedirection(w) then c
                else if p == Clear then c.(args := c.args + [w])
                else if p == Out then c.(output := w)
                else c.(input := w);
      var p' := if w == "<" then (if p == Clear then In else OutIn)
                else if w == ">" then (if p == Clear then Out else InOut)
                else if p == OutIn then Stuck else Clear;
      ArgumentsArePlain(rest, c', p');
    }
  }

  lemma CommandIsPlain(s: string)
    requires CommandOf(s).Ok?
    ensures CommandOf(s).value.Command? && PlainParts(CommandOf(s).value)
  {
    var words := Words(s, "", false);
    WordsHaveNoQuotes(s, "", false);
    if words != [] && !IsRedirection(words[0]) {
      assert words[0] != "" && NoQuotes(words[0]);
      ArgumentsArePlain(words[1..], Command(words[0], [], "", ""), Clear);
    } else {
      ArgumentsArePlain(words, Command("", [], "", ""), Clear);
    }
  }

  ghost predicate AllPlain(tokens: seq<Token>)
  {
    forall k | 0 <= k < |tokens| :: tokens[k].Command? ==> PlainParts(tokens[k])
  }

  lemma {:induction false} TokensArePlain(rest: string, text: string, quoted: bool, pos: nat)
    requires Tokens(rest, text, quoted, pos).Ok?
    ensures AllPlain(Tokens(rest, text, quoted, pos).value)
    decreases |rest|
  {
    hide CommandOf, OperatorAt, PlainParts;
    if rest == "" {
      if text != "" {
        CommandIsPlain(text);
      }
    } else if IsQuote(rest[0]) || quoted || !IsOperator(rest[0]) {
      TokensText(rest, text, quoted, pos);
      TokensArePlain(rest[1..], text + [rest[0]], if IsQuote(rest[0]) then !quoted else quoted, pos + 1);
    } else {
      CommandIsPlain(text);
      var c, op := TokensAtOperator(rest, text, pos);
      hide Tokens;
      TokensArePlain(rest[|Spelling(op)|..], "", false, pos + |Spelling(op)|);
    }
  }

  lemma {:induction false} WithoutEmptyPrintable(tokens: seq<Token>)
    requires AllPlain(tokens)
    ensures forall k | 0 <= k < |WithoutEmpty(tokens)| :: Printable(WithoutEmpty(tokens)[k])
  {
    if tokens != [] {
      assert tokens[0].Command? ==> PlainParts(tokens[0]);
      assert forall k | 0 <= k < |tokens[1..]| :: tokens[1..][k] == tokens[k + 1];
      WithoutEmptyPrintable(tokens[1..]);
    }
  }

  /** What the parser accepts is a well-formed line of printable commands, and printing
      and parsing it again changes nothing. */
  lemma ParseNormalizes(line: string)
    requires Parse(line).Ok?
    ensures var tokens := Parse(line).value;
            && WellFormed(tokens) && (forall k | 0 <= k < |tokens| :: Printable(tokens[k]))
            && Parse(Print(tokens)) == Ok(tokens)
  {
    hide Tokens, IsLine, Print;
    TokensArePlain(line, "", false, 0);
    WithoutEmptyPrintable(Tokens(line, "", false, 0).value);
    RoundTrip(Parse(line).value);
  }

  // ----- nothing of the line is lost -----

  /** A stretch of a line: a command's text, or an operator. */
  datatype Piece = Text(text: string) | Sign(op: OperatorType)

  function Joined(pieces: seq<Piece>): string
  {
    if pieces == [] then ""
    else (match pieces[0] case Text(s) => s case Sign(op) => Spelling(op)) + Joined(pieces[1..])
  }

  /** The token a piece becomes. */
  predicate Becomes(piece: Piece, t: Token)
  {
    match piece
    case Text(s) => CommandOf(s) == Ok(t)
    case Sign(op) => t == Operator(op)
  }

  lemma {:induction false} JoinedTwo(text: string, op: OperatorType, more: seq<Piece>)
    ensures Joined([Text(text), Sign(op)] + more) == text + (Spelling(op) + Joined(more))
  {
    var pieces := [Text(text), Sign(op)] + more;
    assert pieces[1..] == [Sign(op)] + more && pieces[1..][1..] == more;
  }

  ghost predicate AllBecome(pieces: seq<Piece>, tokens: seq<Token>)
  {
    |pieces| == |tokens| && forall k | 0 <= k < |pieces| :: Becomes(pieces[k], tokens[k])
  }

  lemma AllBecomeTwo(text: string, op: OperatorType, c: Token, more: seq<Piece>, tokens: seq<Token>)
    requires CommandOf(text) == Ok(c) && AllBecome(more, tokens)
    ensures AllBecome([Text(text), Sign(op)] + more, [c, Operator(op)] + tokens)
  {
    hide CommandOf;
  }

  lemma TokensAtOperator(rest: string, text: string, pos: nat) returns (c: Token, op: OperatorType)
    requires rest != "" && IsOperator(rest[0]) && Tokens(rest, text, false, pos).Ok?
    ensures CommandOf(text) == Ok(c) && Spelling(op) <= rest
    ensures var k := |Spelling(op)|;
            Tokens(rest, text, false, pos) == Prepend([c, Operator(op)], Tokens(rest[k..], "", false, pos + k))
  {
    hide CommandOf;
    c, op := CommandOf(text).value, OperatorAt(rest).value;
  }

  /** On success the line is, piece by piece, the texts of the commands and the
      spellings of the operators. */
  lemma {:induction false} TokensKeepLine(rest: string, text: string, quoted: bool, pos: nat)
    returns (pieces: seq<Piece>)
    requires Tokens(rest, text, quoted, pos).Ok?
    ensures Joined(pieces) == text + rest
    ensures AllBecome(pieces, Tokens(rest, text, quoted, pos).value)
    decreases |rest|
  {
    hide Tokens, Joined, AllBecome, CommandOf, OperatorAt;
    if rest == "" {
      pieces := KeepEnd(text, quoted, pos);
    } else if IsQuote(rest[0]) || quoted || !IsOperator(rest[0]) {
      TokensText(rest, text, quoted, pos);
      pieces := TokensKeepLine(rest[1..], text + [rest[0]], if IsQuote(rest[0]) then !quoted else quoted, pos + 1);
      assert text + [rest[0]] + rest[1..] == text + rest;
    } else {
      var c, op := TokensAtOperator(rest, text, pos);
      var k := |Spelling(op)|;
      var more := TokensKeepLine(rest[k..], "", false, pos + k);
      assert "" + rest[k..] == rest[k..];
      pieces := [Text(text), Sign(op)] + more;
      JoinedTwo(text, op, more);
      AllBecomeTwo(text, op, c, more, Tokens(rest[k..], "", false, pos + k).value);
      assert text + (Spelling(op) + rest[k..]) == text + rest;
    }
  }

  lemma TokensText(rest: string, text: string, quoted: bool, pos: nat)
    requires rest != "" && (IsQuote(rest[0]) || quoted || !IsOperator(rest[0]))
    ensures Tokens(rest, text, quoted, pos)
         == Tokens(rest[1..], text + [rest[0]], if IsQuote(rest[0]) then !quoted else quoted, pos + 1)
  {
  }

  lemma KeepEnd(text: string, quoted: bool, pos: nat) returns (pieces: seq<Piece>)
    requires Tokens("", text, quoted, pos).Ok?
    ensures Joined(pieces) == text + "" && AllBecome(pieces, Tokens("", text, quoted, pos).value)
  {
    hide CommandOf;
    pieces := if text == "" then [] else [Text(text)];
    assert text != "" ==> pieces[1..] == [] && text + "" == text;
  }
}

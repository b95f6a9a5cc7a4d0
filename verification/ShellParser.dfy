/** The shell line parser as the program runs it: scanning loops over positions. */
module ShellParser {
  import opened Basics
  import opened ShellGrammar
  import opened ShellReadings

  // ----- searching a line -----

  ghost predicate NoneOf(line: string, chars: string, from: int, to: int)
    requires 0 <= from && to <= |line|
  {
    forall k | from <= k < to :: line[k] !in chars
  }

  /** The position of the first character of chars at or after from; None is npos. */
  method FindFirstOf(line: string, chars: string, from: nat) returns (r: Option<nat>)
    ensures r.Some? ==> from <= r.value < |line| && line[r.value] in chars && NoneOf(line, chars, from, r.value)
    ensures r.None? ==> NoneOf(line, chars, from, |line|)
  {
    var k := from;
    while k < |line|
      invariant from <= k && (k <= |line| ==> NoneOf(line, chars, from, k)) && (k > |line| ==> k == from)
    {
      if line[k] in chars {
        return Some(k);
      }
      k := k + 1;
    }
    return None;
  }

  /** The position of the last character not of chars at or before from. */
  method FindLastNotOf(line: string, chars: string, from: nat) returns (r: Option<nat>)
    requires from < |line|
    ensures r == Some(from) <==> line[from] !in chars
    ensures r.Some? ==> r.value <= from && line[r.value] !in chars
  {
    var k := from;
    while line[k] in chars
      invariant 0 <= k <= from && (k < from ==> line[from] in chars)
      decreases k
    {
      if k == 0 {
        return None;
      }
      k := k - 1;
    }
    return Some(k);
  }

  function MinPosition(a: Option<nat>, b: Option<nat>): (r: Option<nat>)
    ensures r.None? <==> a.None? && b.None?
    ensures r.Some? ==> (r == a || r == b) && (a.Some? ==> r.value <= a.value) && (b.Some? ==> r.value <= b.value)
  {
    if a.None? then b else if b.None? then a else if a.value < b.value then a else b
  }

  predicate IsSpecial(c: char) { IsQuote(c) || IsOperator(c) }

  /** at is the first special character at or after from, if there is one. */
  ghost predicate NextSpecial(line: string, from: nat, at: Option<nat>)
  {
    && from <= |line|
    && (at.Some? ==> from <= at.value < |line| && IsSpecial(line[at.value]))
    && forall k | from <= k < (if at.Some? then at.value else |line|) :: !IsSpecial(line[k])
  }

  /** The least of four forward searches. */
  method FindSpecial(line: string, from: nat) returns (at: Option<nat>)
    requires from <= |line|
    ensures NextSpecial(line, from, at)
  {
    var ampersand := FindFirstOf(line, "&", from);
    var bar := FindFirstOf(line, "|", from);
    var semicolon := FindFirstOf(line, ";", from);
    var quotes := FindFirstOf(line, "'\"", from);
    at := MinPosition(ampersand, bar);
    at := MinPosition(at, semicolon);
    at := MinPosition(at, quotes);
    forall k | from <= k < (if at.Some? then at.value else |line|)
      ensures !IsSpecial(line[k])
    {
      assert line[k] !in "&" && line[k] !in "|" && line[k] !in ";" && line[k] !in "'\"";
      assert "'\""[0] == '\'' && "'\""[1] == '"';
    }
  }

  // ----- one command -----

  /** The first loop of from_std_string: cuts s into words. */
  method SplitWords(s: string) returns (words: seq<string>)
    ensures words == Words(s, "", false)
  {
    words := [];
    var word, quoted := "", false;
    for i := 0 to |s|
      invariant words + Words(s[i..], word, quoted) == Words(s, "", false)
    {
      hide *;
      WordsStep(s, i, words, word, quoted);
      if s[i] == '\'' || s[i] == '"' {
        quoted := !quoted;
      } else if s[i] == '<' && !quoted {
        if |word| > 0 {
          words := words + [word];
          word := "";
        }
        words := words + ["<"];
      } else if s[i] == '>' && !quoted {
        if |word| > 0 {
          words := words + [word];
          word := "";
        }
        words := words + [">"];
      } else if (s[i] != ' ' && s[i] != '\t' && s[i] != '\n') || quoted {
        word := word + [s[i]];
      } else {
        if |word| > 0 {
          words := words + [word];
          word := "";
        }
      }
    }
    assert s[|s|..] == "";
    if |word| > 0 {
      words := words + [word];
    }
  }

  /** What the words read so far and the rest of s make together, one character on. */
  lemma {:induction false} WordsStep(s: string, i: nat, words: seq<string>, word: string, quoted: bool)
    requires i < |s|
    ensures var all := words + Words(s[i..], word, quoted);
            var flushed := if |word| > 0 then words + [word] else words;
            if s[i] == '\'' || s[i] == '"' then all == words + Words(s[i + 1..], word, !quoted)
            else if s[i] == '<' && !quoted then all == (flushed + ["<"]) + Words(s[i + 1..], "", quoted)
            else if s[i] == '>' && !quoted then all == (flushed + [">"]) + Words(s[i + 1..], "", quoted)
            else if (s[i] != ' ' && s[i] != '\t' && s[i] != '\n') || quoted
            then all == words + Words(s[i + 1..], word + [s[i]], quoted)
            else all == flushed + Words(s[i + 1..], "", quoted)
  {
    assert s[i..][0] == s[i] && s[i..][1..] == s[i + 1..];
  }

  /** What the positions of the pending redirection signs mean before word i. */
  ghost predicate Awaits(p: Pending, inOperand: Option<nat>, outOperand: Option<nat>, i: nat)
  {
    match p
    case Clear => inOperand == None && outOperand == None
    case In => inOperand.Some? && inOperand.value + 1 == i && outOperand == None
    case Out => inOperand == None && outOperand.Some? && outOperand.value + 1 == i
    case InOut => inOperand.Some? && inOperand.value + 2 == i && outOperand == Some(inOperand.value + 1)
    case OutIn => inOperand.Some? && inOperand.value + 1 == i && outOperand.Some? && outOperand.value < inOperand.value
    case Stuck => inOperand == None && outOperand.Some? && outOperand.value + 1 < i
  }

  /** from_std_string: the command written in s. */
  method FromStdString(s: string) returns (r: Result<Token>)
    ensures r == CommandOf(s)
  {
    var words := SplitWords(s);
    var name, args, inputFile, outputFile := "", [], "", "";
    var outOperand: Option<nat> := None;
    var inOperand: Option<nat> := None;
    ghost var p := Clear;
    for i := 0 to |words|
      invariant Awaits(p, inOperand, outOperand, i)
      invariant i == 0 ==> name == "" && args == [] && inputFile == "" && outputFile == "" && p == Clear
      invariant i > 0 ==> Arguments(words[i..], Command(name, args, inputFile, outputFile), p) == CommandOf(s)
    {
      assert words[i..][0] == words[i] && words[i..][1..] == words[i + 1..] && words[0..] == words;
      if words[i] != "<" && words[i] != ">" {
        if i == 0 {
          name := words[i];
        } else if inOperand != None {
          if inOperand.value + 1 != i {
            return Err(BadCommand(0));
          }
          inputFile := words[i];
          inOperand := None;
          p := if p == OutIn then Stuck else Clear;
        } else if outOperand != None {
          if outOperand.value + 1 != i {
            return Err(BadCommand(0));
          }
          outputFile := words[i];
          outOperand := None;
          p := Clear;
        } else {
          args := args + [words[i]];
        }
      } else {
        if words[i] == "<" {
          if inOperand != None {
            return Err(BadCommand(0));
          }
          inOperand := Some(i);
          p := if p == Clear then In else OutIn;
        } else {
          if outOperand != None {
            return Err(BadCommand(0));
          }
          outOperand := Some(i);
          p := if p == Clear then Out else InOut;
        }
      }
    }
    assert words[|words|..] == [];
    return Ok(Command(name, args, inputFile, outputFile));
  }

  // ----- a line -----

  /** The operator at position at, or none if it is malformed there. */
  method ReadOperator(line: string, at: nat) returns (op: Option<OperatorType>)
    requires at < |line| && IsOperator(line[at])
    ensures op == OperatorAt(line[at..])
    ensures at + 1 == |line| || line[at + 1] !in {'&', '|', ';'} ==>
              op == Some(if line[at] == '&' then Background else if line[at] == '|' then Conveyor else Separator)
    ensures at + 1 < |line| && line[at + 1] in {'&', '|', ';'} ==>
              op == if line[at] == '&' == line[at + 1] then Some(And)
                    else if line[at] == '|' == line[at + 1] then Some(Or) else None
  {
    var alone := at + 1 == |line|;
    if !alone {
      var next := FindLastNotOf(line, "&|;", at + 1);
      alone := next == Some(at + 1);
      assert "&|;"[0] == '&' && "&|;"[1] == '|' && "&|;"[2] == ';';
      assert alone <==> !IsOperator(line[at + 1]);
    }
    if line[at] == '&' {
      if alone {
        op := Some(Background);
      } else if line[at + 1] == '&' {
        op := Some(And);
      } else {
        op := None;
      }
    } else if line[at] == '|' {
      if alone {
        op := Some(Conveyor);
      } else if line[at + 1] == '|' {
        op := Some(Or);
      } else {
        op := None;
      }
    } else {
      if alone {
        op := Some(Separator);
      } else {
        op := None;
      }
    }
  }

  /** The tokens read so far, and those of the rest of the line from position from,
      make the tokens of the line.  The text since the last operator begins at first. */
  ghost predicate Reads(line: string, tokens: seq<Token>, first: nat, from: nat, quoted: bool)
  {
    && first <= from <= |line|
    && Prepend(tokens, Tokens(line[from..], line[first..from], quoted, from)) == Tokens(line, "", false, 0)
  }

  lemma ReadsStart(line: string)
    ensures Reads(line, [], 0, 0, false)
  {
    hide Tokens;
    assert line[0..] == line && line[0..0] == "";
    var r := Tokens(line, "", false, 0);
    assert r.Ok? ==> [] + r.value == r.value;
  }

  lemma {:induction false} TokensSkip(line: string, first: nat, from: nat, to: nat, quoted: bool)
    requires first <= from <= to <= |line| && forall k | from <= k < to :: !IsSpecial(line[k])
    ensures Tokens(line[from..], line[first..from], quoted, from) == Tokens(line[to..], line[first..to], quoted, to)
    decreases |line| - from
  {
    if from < to {
      assert line[from..][0] == line[from] && line[from..][1..] == line[from + 1..];
      assert line[first..from] + [line[from]] == line[first..from + 1];
      TokensSkip(line, first, from + 1, to, quoted);
    }
  }

  /** Characters that are not special become text. */
  lemma ReadsSkip(line: string, tokens: seq<Token>, first: nat, from: nat, to: nat, quoted: bool)
    requires Reads(line, tokens, first, from, quoted)
    requires from <= to <= |line| && forall k | from <= k < to :: !IsSpecial(line[k])
    ensures Reads(line, tokens, first, to, quoted)
  {
    TokensSkip(line, first, from, to, quoted);
  }

  /** A quote character, or a quoted operator, becomes text. */
  lemma ReadsOver(line: string, tokens: seq<Token>, first: nat, at: nat, quoted: bool)
    requires Reads(line, tokens, first, at, quoted) && at < |line| && (IsQuote(line[at]) || quoted)
    ensures Reads(line, tokens, first, at + 1, if IsQuote(line[at]) then !quoted else quoted)
  {
    hide CommandOf, OperatorAt;
    assert line[at..][0] == line[at] && line[at..][1..] == line[at + 1..];
    assert line[first..at] + [line[at]] == line[first..at + 1];
  }

  lemma TokensAt(line: string, first: nat, at: nat)
    requires first <= at < |line| && IsOperator(line[at])
    ensures var r := Tokens(line[at..], line[first..at], false, at);
            var op, command := OperatorAt(line[at..]), CommandOf(line[first..at]);
            && (op == None ==> r == Err(BadShellLine(at)))
            && (op != None && command.Err? ==> r == Err(command.error))
            && (op != None ==> at + |Spelling(op.value)| <= |line|)
            && (op != None && command.Ok? ==>
                  var next := at + |Spelling(op.value)|;
                  r == Prepend([command.value, Operator(op.value)], Tokens(line[next..], "", false, next)))
  {
    hide CommandOf;
    assert line[at..][0] == line[at];
    var op := OperatorAt(line[at..]);
    if op.Some? {
      assert line[at..][|Spelling(op.value)|..] == line[at + |Spelling(op.value)|..];
    }
  }

  lemma PrependTwice(a: seq<Token>, b: seq<Token>, r: Result<seq<Token>>)
    ensures Prepend(a, Prepend(b, r)) == Prepend(a + b, r)
  {
    if r.Ok? {
      assert a + (b + r.value) == a + b + r.value;
    }
  }

  /** An unquoted operator ends a command, unless either is malformed. */
  lemma {:induction false} ReadsOperator(line: string, tokens: seq<Token>, first: nat, at: nat)
    requires Reads(line, tokens, first, at, false) && at < |line| && IsOperator(line[at])
    ensures var r, op, command := Tokens(line, "", false, 0), OperatorAt(line[at..]), CommandOf(line[first..at]);
            && (op == None ==> r == Err(BadShellLine(at)))
            && (op != None && command.Err? ==> r == Err(command.error))
            && (op != None && command.Ok? ==>
                  var next := at + |Spelling(op.value)|;
                  Reads(line, tokens + [command.value] + [Operator(op.value)], next, next, false))
  {
    TokensAt(line, first, at);
    hide Tokens, CommandOf, OperatorAt, Spelling;
    var op, command := OperatorAt(line[at..]), CommandOf(line[first..at]);
    if op != None && command.Ok? {
      var next := at + |Spelling(op.value)|;
      PrependTwice(tokens, [command.value, Operator(op.value)], Tokens(line[next..], "", false, next));
      assert tokens + [command.value] + [Operator(op.value)] == tokens + [command.value, Operator(op.value)];
      assert line[next..next] == "";
    }
  }

  /** The end of the line ends the last command, unless a quote is open. */
  lemma {:induction false} ReadsEnd(line: string, tokens: seq<Token>, first: nat, quoted: bool)
    requires Reads(line, tokens, first, |line|, quoted)
    ensures Tokens(line, "", false, 0)
         == if quoted then Err(BadShellLine(|line|))
            else if first == |line| then Ok(tokens)
            else match CommandOf(line[first..]) case Err(e) => Err(e) case Ok(c) => Ok(tokens + [c])
  {
    hide CommandOf;
    assert line[|line|..] == "" && line[first..|line|] == line[first..];
    assert tokens + [] == tokens;
    assert Prepend(tokens, Tokens("", line[first..], quoted, |line|)) == Tokens(line, "", false, 0);
  }

  /** The jumping scanner: goes from one special character to the next. */
  method LexicalParser(line: string) returns (r: Result<seq<Token>>)
    ensures r == Tokens(line, "", false, 0)
  {
    hide Tokens, CommandOf, OperatorAt, Reads;
    var tokens: seq<Token> := [];
    var quoted := false;
    var first: nat := 0;
    var last := FindSpecial(line, 0);
    ghost var from := 0;
    ReadsStart(line);
    while last != None
      invariant NextSpecial(line, from, last)
      invariant first <= from && Reads(line, tokens, first, from, quoted)
      decreases |line| - from, last.Some?
    {
      var at := last.value;
      ReadsSkip(line, tokens, first, from, at, quoted);
      if quoted {
        ReadsOver(line, tokens, first, at, quoted);
        if line[at] == '\'' || line[at] == '"' {
          quoted := false;
        }
        last := FindSpecial(line, at + 1);
        from := at + 1;
      } else if line[at] == '\'' || line[at] == '"' {
        ReadsOver(line, tokens, first, at, quoted);
        quoted := true;
        last := FindSpecial(line, at + 1);
        from := at + 1;
      } else {
        ReadsOperator(line, tokens, first, at);
        var op := ReadOperator(line, at);
        if op == None {
          return Err(BadShellLine(at));
        }
        var command := FromStdString(line[first..at]);
        if command.Err? {
          return Err(command.error);
        }
        tokens := tokens + [command.value] + [Operator(op.value)];
        first := at + |Spelling(op.value)|;
        SpellingFits(line, at);
        last := FindSpecial(line, first);
        from := first;
      }
    }
    ReadsSkip(line, tokens, first, from, |line|, quoted);
    ReadsEnd(line, tokens, first, quoted);
    if quoted {
      return Err(BadShellLine(|line|));
    }
    if first < |line| {
      var command := FromStdString(line[first..]);
      if command.Err? {
        return Err(command.error);
      }
      tokens := tokens + [command.value];
    }
    return Ok(tokens);
  }

  lemma SpellingFits(line: string, at: nat)
    requires at < |line| && IsOperator(line[at])
    ensures var op := OperatorAt(line[at..]); op != None ==> at + |Spelling(op.value)| <= |line|
  {
  }

  lemma WithoutEmptyStep(r: seq<Token>, k: nat)
    requires k < |r|
    ensures var all := r[..k] + WithoutEmpty(r[k..]);
            if r[k].Command? && r[k].name == "" then
              var r' := r[..k] + r[k + 1..]; all == r'[..k] + WithoutEmpty(r'[k..])
            else all == r[..k + 1] + WithoutEmpty(r[k + 1..])
  {
    assert r[k..][0] == r[k] && r[k..][1..] == r[k + 1..];
    var r' := r[..k] + r[k + 1..];
    assert r'[k..] == r[k + 1..] && r'[..k] == r[..k];
    assert WithoutEmpty(r[k..]) == (if IsEmptyCommand(r[k]) then [] else [r[k]]) + WithoutEmpty(r[k + 1..]);
    assert r[..k] + [r[k]] == r[..k + 1];
  }

  lemma {:induction false} WithoutEmptyEnds(tokens: seq<Token>)
    ensures tokens[..0] + WithoutEmpty(tokens[0..]) == WithoutEmpty(tokens)
    ensures tokens[..|tokens|] + WithoutEmpty(tokens[|tokens|..]) == tokens
  {
    hide WithoutEmpty;
    assert tokens[0..] == tokens && tokens[..|tokens|] == tokens && tokens[|tokens|..] == [];
    assert WithoutEmpty([]) == [] by {
      WithoutEmptyNone();
    }
  }

  lemma WithoutEmptyNone()
    ensures WithoutEmpty([]) == []
  {
  }

  /** Erases commands without a name. */
  method RemoveEmpty(tokens: seq<Token>) returns (r: seq<Token>)
    ensures r == WithoutEmpty(tokens)
  {
    hide *;
    r := tokens;
    var k := 0;
    WithoutEmptyEnds(r);
    while k != |r|
      invariant k <= |r|
      invariant r[..k] + WithoutEmpty(r[k..]) == WithoutEmpty(tokens)
      decreases |r| - k
    {
      WithoutEmptyStep(r, k);
      if r[k].Command? && r[k].name == "" {
        r := r[..k] + r[k + 1..];
      } else {
        k := k + 1;
      }
    }
    WithoutEmptyEnds(r);
  }

  /** What is left to be valid at position k, if the token before was an operator or
      k is 0, or else a command. */
  ghost predicate ValidFrom(tokens: seq<Token>, k: nat, lastWasOperator: bool)
    requires k <= |tokens|
  {
    if k == 0 then lastWasOperator && WellFormed(tokens)
    else if !lastWasOperator then AfterCommand(tokens[k..])
    else if tokens[k - 1] == Operator(Background) then k == |tokens|
    else IsLine(tokens[k..])
  }

  lemma ValidStep(tokens: seq<Token>, k: nat, lastWasOperator: bool)
    requires k < |tokens|
    requires if k == 0 then lastWasOperator
             else (lastWasOperator <==> tokens[k - 1].Operator?) && tokens[k - 1] != Operator(Background)
    ensures ValidFrom(tokens, k, lastWasOperator) <==>
              if tokens[k].Command? then lastWasOperator && ValidFrom(tokens, k + 1, false)
              else if tokens[k].op == Background then !lastWasOperator && k + 1 == |tokens|
              else !lastWasOperator && k + 1 < |tokens| && tokens[k + 1].Command? && ValidFrom(tokens, k + 1, true)
  {
    var rest, next := tokens[k..], tokens[k + 1..];
    assert rest[0] == tokens[k] && rest[1..] == next && tokens[0..] == tokens;
    assert next != [] ==> next[0] == tokens[k + 1];
    assert IsLine(rest) <==> tokens[k].Command? && AfterCommand(next);
    assert next == [] || next[0].Operator? ==> !IsLine(next);
  }

  /** One pass over the tokens accepts exactly the lines of the grammar. */
  method SyntaxValid(tokens: seq<Token>) returns (valid: bool)
    ensures valid <==> WellFormed(tokens)
    ensures valid <==> IsOrdered(tokens)
  {
    WellFormedIsOrdered(tokens);
    hide IsOrdered;
    var lastWasOperator := true;
    for k := 0 to |tokens|
      invariant ValidFrom(tokens, k, lastWasOperator) <==> WellFormed(tokens)
      invariant k == 0 ==> lastWasOperator
      invariant k > 0 ==> (lastWasOperator <==> tokens[k - 1].Operator?)
      invariant k > 0 && tokens[k - 1].Operator? ==>
                  if tokens[k - 1].op == Background then k == |tokens| else k < |tokens|
    {
      ValidStep(tokens, k, lastWasOperator);
      hide ValidFrom, WellFormed;
      if tokens[k].Operator? {
        if tokens[k].op != Background {
          if k + 1 == |tokens| {
            return false;
          }
          if lastWasOperator || tokens[k + 1].Operator? {
            return false;
          }
        } else {
          if lastWasOperator || k + 1 != |tokens| {
            return false;
          }
          BackgroundLast(tokens, k);
        }
        lastWasOperator := true;
      } else {
        if !lastWasOperator {
          return false;
        }
        lastWasOperator := false;
      }
    }
    assert tokens[|tokens|..] == [];
    return true;
  }

  lemma BackgroundLast(tokens: seq<Token>, k: nat)
    requires k + 1 == |tokens| && tokens[k] == Operator(Background)
    ensures ValidFrom(tokens, k + 1, true)
  {
  }

  method ParseShellLine(line: string) returns (r: Result<seq<Token>>)
    ensures r == Parse(line)
    ensures Answers(line, r)
  {
    hide Answers;
    AnswersExactly(line, Parse(line));
    r := LexicalParser(line);
    if r.Err? {
      return;
    }
    var tokens := RemoveEmpty(r.value);
    var valid := SyntaxValid(tokens);
    if !valid {
      return Err(BadShellLine(0));
    }
    return Ok(tokens);
  }
}

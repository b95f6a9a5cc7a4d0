/** Which lines are accepted and what is answered to each, by the ways to read a line as
    texts and operators. */
module ShellReadings {
  import opened Basics
  import opened ShellGrammar
  import opened ShellWords
  import opened ShellRedirections
  import opened ShellRoundTrip

  // ----- readings of a line -----

  /** Every operator character of s is inside quotes. */
  ghost predicate OperatorsQuoted(s: string)
  {
    forall k | 0 <= k < |s| && s[k] in {'&', '|', ';'} :: IsQuoted(s, k, 0)
  }

  ghost predicate IsText(s: string)
  {
    OperatorsQuoted(s) && !IsQuoted(s, |s|, 0)
  }

  /** A text whose last quote is not closed. */
  ghost predicate IsOpenText(s: string)
  {
    OperatorsQuoted(s) && IsQuoted(s, |s|, 0)
  }

  /** The texts with an operator between each two of them. */
  function Line(texts: seq<string>, ops: seq<OperatorType>): string
    requires |texts| == |ops| + 1
  {
    texts[0] + if ops == [] then "" else Spelling(ops[0]) + Line(texts[1..], ops[1..])
  }

  predicate IsShort(op: OperatorType)
  {
    op == Conveyor || op == Background || op == Separator
  }

  /** Texts and operators that make a line: no operator of one character runs into the
      next one. */
  ghost predicate IsReading(texts: seq<string>, ops: seq<OperatorType>)
  {
    && |texts| == |ops| + 1
    && (forall k | 0 <= k < |texts| :: IsText(texts[k]))
    && (forall k | 0 <= k < |ops| - 1 && IsShort(ops[k]) :: texts[k + 1] != "")
  }

  /** An operator character and another one that it makes no operator with. */
  predicate IsMalformed(s: string)
  {
    |s| >= 2 && s[0] in {'&', '|', ';'} && s[1] in {'&', '|', ';'} && (s[0] != s[1] || s[0] == ';')
  }

  /** Texts and operators after which the line cannot be read on: either its end is
      inside quotes, or what comes is not an operator. */
  ghost predicate IsBroken(texts: seq<string>, ops: seq<OperatorType>, rest: string)
  {
    && |texts| == |ops| + 1
    && (forall k | 0 <= k < |ops| :: IsText(texts[k]))
    && (forall k | 0 <= k < |ops| && IsShort(ops[k]) :: texts[k + 1] != "")
    && if rest == "" then IsOpenText(texts[|ops|]) else IsText(texts[|ops|]) && IsMalformed(rest)
  }

  // ----- answers -----

  ghost predicate Rejects(text: string)
  {
    !Accepted(Words(text, "", false))
  }

  /** The command of a text, unless it has no name. */
  function Named(text: string): seq<Token>
  {
    var ws := Words(text, "", false);
    if NameOf(ws) == "" then [] else [Meaning(ws)]
  }

  function NamedTokens(texts: seq<string>, ops: seq<OperatorType>): seq<Token>
    requires |texts| == |ops| + 1
  {
    Named(texts[0]) + if ops == [] then [] else [Operator(ops[0])] + NamedTokens(texts[1..], ops[1..])
  }

  /** Commands and operators alternate, and a background operator comes only last; at the
      end there is a command or a background operator. */
  predicate IsOrdered(tokens: seq<Token>)
  {
    && (forall k | 0 <= k < |tokens| :: tokens[k].Command? <==> k % 2 == 0)
    && (forall k | 0 <= k < |tokens| && tokens[k] == Operator(Background) :: k + 1 == |tokens|)
    && (tokens != [] && tokens[|tokens| - 1].Operator? ==> tokens[|tokens| - 1] == Operator(Background))
  }

  ghost predicate AnswersReading(texts: seq<string>, ops: seq<OperatorType>, r: Result<seq<Token>>)
    requires |texts| == |ops| + 1
  {
    if exists k :: 0 <= k < |texts| && Rejects(texts[k]) then r == Err(BadCommand(0))
    else if IsOrdered(NamedTokens(texts, ops)) then r == Ok(NamedTokens(texts, ops))
    else r == Err(BadShellLine(0))
  }

  /** The answer to a line that cannot be read on at p: the texts before the last operator
      have been looked at. */
  ghost predicate AnswersBroken(texts: seq<string>, ops: seq<OperatorType>, p: nat, r: Result<seq<Token>>)
    requires |texts| == |ops| + 1
  {
    if exists k :: 0 <= k < |ops| && Rejects(texts[k]) then r == Err(BadCommand(0)) else r == Err(BadShellLine(p))
  }

  /** r is what the shell answers to the line. */
  ghost predicate Answers(line: string, r: Result<seq<Token>>)
  {
    || (exists texts, ops :: IsReading(texts, ops) && line == Line(texts, ops) && AnswersReading(texts, ops, r))
    || (exists texts, ops, rest ::
          && IsBroken(texts, ops, rest) && line == Line(texts, ops) + rest
          && AnswersBroken(texts, ops, |Line(texts, ops)|, r))
  }

  // ----- the grammar by position -----

  lemma {:induction false} OrderedLine(tokens: seq<Token>)
    ensures IsLine(tokens) <==> tokens != [] && IsOrdered(tokens)
    decreases |tokens|
  {
    if |tokens| >= 2 {
      var rest := tokens[2..];
      LineOfTwo(tokens);
      OrderedLine(rest);
      hide IsLine;
      OrderedOfTwo(tokens);
    }
  }

  lemma {:induction false} LineOfTwo(tokens: seq<Token>)
    requires |tokens| >= 2
    ensures IsLine(tokens) <==>
              && tokens[0].Command? && tokens[1].Operator?
              && if |tokens| == 2 then tokens[1].op == Background else tokens[1].op != Background && IsLine(tokens[2..])
  {
    var after := tokens[1..];
    assert after[0] == tokens[1] && after[1..] == tokens[2..];
    assert IsLine(tokens) <==> tokens[0].Command? && AfterCommand(after);
    assert |tokens| == 2 ==> !IsLine(tokens[2..]);
  }

  lemma OrderedOfTwo(tokens: seq<Token>)
    requires |tokens| >= 2
    ensures IsOrdered(tokens) <==>
              && tokens[0].Command? && tokens[1].Operator?
              && if |tokens| == 2 then tokens[1].op == Background
                 else tokens[1].op != Background && IsOrdered(tokens[2..])
  {
    var rest := tokens[2..];
    assert forall k | 0 <= k < |rest| :: rest[k] == tokens[k + 2];
    if IsOrdered(tokens) {
      forall k | 0 <= k < |rest|
        ensures rest[k].Command? <==> k % 2 == 0
        ensures rest[k] == Operator(Background) ==> k + 1 == |rest|
      {
        assert tokens[k + 2].Command? <==> (k + 2) % 2 == 0;
      }
    }
    if tokens[0].Command? && tokens[1].Operator? && tokens[1].op != Background && IsOrdered(rest) && rest != [] {
      forall k | 0 <= k < |tokens|
        ensures tokens[k].Command? <==> k % 2 == 0
        ensures tokens[k] == Operator(Background) ==> k + 1 == |tokens|
      {
        if k >= 2 {
          var m := k - 2;
          assert rest[m] == tokens[k];
        }
      }
    }
  }

  lemma WellFormedIsOrdered(tokens: seq<Token>)
    ensures WellFormed(tokens) <==> IsOrdered(tokens)
  {
    OrderedLine(tokens);
  }

  // ----- scanning a text -----

  lemma {:induction false} ScanMeans(s: string, quoted: bool)
    ensures Scan(s, quoted).Some? <==>
              forall k | 0 <= k < |s| && IsOperator(s[k]) :: IsQuoted(s, k, Parity(quoted))
    ensures Scan(s, quoted).Some? ==> Scan(s, quoted).value == IsQuoted(s, |s|, Parity(quoted))
  {
    if s == "" {
      assert s[..0] == "";
    } else {
      var quoted' := if IsQuote(s[0]) then !quoted else quoted;
      ScanMeans(s[1..], quoted');
      assert s[..0] == "";
      QuotesNext(s, |s| - 1, quoted);
      forall k | 0 <= k < |s| - 1
        ensures s[1..][k] == s[k + 1]
        ensures IsQuoted(s[1..], k, Parity(quoted')) == IsQuoted(s, k + 1, Parity(quoted))
      {
        QuotesNext(s, k, quoted);
      }
      if Scan(s, quoted).Some? {
        forall k | 0 <= k < |s| && IsOperator(s[k])
          ensures IsQuoted(s, k, Parity(quoted))
        {
          if k > 0 {
            assert IsOperator(s[1..][k - 1]);
          }
        }
      } else if quoted || !IsOperator(s[0]) || IsQuote(s[0]) {
        var k :| 0 <= k < |s[1..]| && IsOperator(s[1..][k]) && !IsQuoted(s[1..], k, Parity(quoted'));
        assert IsOperator(s[k + 1]) && !IsQuoted(s, k + 1, Parity(quoted));
      } else {
        assert !IsQuoted(s, 0, Parity(quoted));
      }
    }
  }

  lemma {:induction false} TextScans(s: string)
    ensures IsText(s) <==> Scan(s, false) == Some(false)
    ensures IsOpenText(s) <==> Scan(s, false) == Some(true)
  {
    ScanMeans(s, false);
  }

  lemma TextBegins(s: string)
    requires s != "" && OperatorsQuoted(s)
    ensures !IsOperator(s[0])
  {
    assert s[..0] == "";
  }

  // ----- the tokens of a reading -----

  /** The tokens of a reading, commands without a name included. */
  function AllTokens(texts: seq<string>, ops: seq<OperatorType>): seq<Token>
    requires |texts| == |ops| + 1
  {
    var first := Meaning(Words(texts[0], "", false));
    if ops == [] then (if texts[0] == "" then [] else [first])
    else [first, Operator(ops[0])] + AllTokens(texts[1..], ops[1..])
  }

  lemma {:induction false} TokensAfterText(op: OperatorType, rest: string, text: string, pos: nat)
    requires IsShort(op) && rest != "" ==> !IsOperator(rest[0])
    ensures Tokens(Spelling(op) + rest, text, false, pos)
         == match CommandOf(text)
            case Err(e) => Err(e)
            case Ok(c) => Prepend([c, Operator(op)], Tokens(rest, "", false, pos + |Spelling(op)|))
  {
    hide CommandOf;
    var s := Spelling(op) + rest;
    assert OperatorAt(s) == Some(op);
    assert s[|Spelling(op)|..] == rest;
  }

  /** The first text of a line and the operator after it. */
  lemma {:induction false} TokensOfFirst(text: string, op: OperatorType, rest: string, pos: nat)
    requires IsText(text) && (IsShort(op) && rest != "" ==> !IsOperator(rest[0]))
    ensures Tokens(text + (Spelling(op) + rest), "", false, pos)
         == if Rejects(text) then Err(BadCommand(0))
            else Prepend([Meaning(Words(text, "", false)), Operator(op)],
                         Tokens(rest, "", false, pos + |text| + |Spelling(op)|))
  {
    hide *;
    TextScans(text);
    TokensScan(text, Spelling(op) + rest, "", false, pos);
    assert "" + text == text;
    TokensAfterText(op, rest, text, pos + |text|);
    CommandMeans(text);
    RejectsMeans(text);
  }

  lemma {:induction false} RejectsMeans(text: string)
    ensures Rejects(text) <==> !Accepted(Words(text, "", false))
  {
  }

  lemma EmptyIsAccepted()
    ensures Words("", "", false) == [] && !Rejects("")
  {
  }

  lemma {:induction false} RestBegins(texts: seq<string>, ops: seq<OperatorType>, more: string)
    requires |texts| == |ops| + 1 && OperatorsQuoted(texts[0]) && texts[0] != ""
    ensures Line(texts, ops) + more != "" && !IsOperator((Line(texts, ops) + more)[0])
  {
    TextBegins(texts[0]);
  }

  lemma SomeRejects(texts: seq<string>, n: nat)
    requires 0 < n <= |texts|
    ensures (exists k :: 0 <= k < n && Rejects(texts[k])) <==>
              Rejects(texts[0]) || exists k :: 0 <= k < n - 1 && Rejects(texts[1..][k])
  {
    hide Rejects;
    if k :| 0 <= k < n && Rejects(texts[k]) {
      assert k > 0 ==> texts[1..][k - 1] == texts[k];
    }
    if k :| 0 <= k < n - 1 && Rejects(texts[1..][k]) {
      assert texts[k + 1] == texts[1..][k];
    }
  }

  lemma {:induction false} TokensOfReading(texts: seq<string>, ops: seq<OperatorType>, pos: nat)
    requires IsReading(texts, ops)
    ensures Tokens(Line(texts, ops), "", false, pos)
         == if exists k :: 0 <= k < |texts| && Rejects(texts[k]) then Err(BadCommand(0)) else Ok(AllTokens(texts, ops))
    decreases |ops|
  {
    hide Tokens, CommandOf, IsText, Rejects, Meaning, Words;
    if ops == [] {
      LastText(texts[0], pos);
      assert Line(texts, ops) == texts[0];
    } else {
      var texts', ops' := texts[1..], ops[1..];
      assert texts'[0] == texts[1];
      if texts[1] == "" && IsShort(ops[0]) {
        assert ops' == [] && Line(texts', ops') == "";
      } else if texts[1] != "" {
        TextQuoted(texts[1]);
        RestBegins(texts', ops', "");
        assert Line(texts', ops') + "" == Line(texts', ops');
      }
      TokensOfFirst(texts[0], ops[0], Line(texts', ops'), pos);
      assert IsReading(texts', ops') by {
        assert forall k | 0 <= k < |texts'| :: texts'[k] == texts[k + 1];
      }
      TokensOfReading(texts', ops', pos + |texts[0]| + |Spelling(ops[0])|);
      SomeRejects(texts, |texts|);
    }
  }

  lemma TextQuoted(s: string)
    requires IsText(s)
    ensures OperatorsQuoted(s)
  {
  }

  lemma {:induction false} LastText(text: string, pos: nat)
    requires IsText(text)
    ensures Tokens(text, "", false, pos)
         == if Rejects(text) then Err(BadCommand(0))
            else Ok(if text == "" then [] else [Meaning(Words(text, "", false))])
  {
    hide Meaning, Words, Accepted;
    TextScans(text);
    TokensScan(text, "", "", false, pos);
    assert text + "" == text && "" + text == text;
    CommandMeans(text);
    EmptyIsAccepted();
  }

  lemma {:induction false} TokensOfBroken(texts: seq<string>, ops: seq<OperatorType>, rest: string, pos: nat)
    requires IsBroken(texts, ops, rest)
    ensures Tokens(Line(texts, ops) + rest, "", false, pos)
         == if exists k :: 0 <= k < |ops| && Rejects(texts[k]) then Err(BadCommand(0))
            else Err(BadShellLine(pos + |Line(texts, ops)|))
    decreases |ops|
  {
    hide Tokens, CommandOf, IsText, IsOpenText, Rejects, Meaning, Words, IsMalformed;
    if ops == [] {
      assert Line(texts, ops) == texts[0];
      BreaksHere(texts[0], rest, pos);
    } else {
      var texts', ops' := texts[1..], ops[1..];
      var line' := Line(texts', ops');
      assert texts'[0] == texts[1];
      if texts[1] != "" {
        BrokenQuoted(texts, ops, rest);
        RestBegins(texts', ops', rest);
      }
      TokensOfFirst(texts[0], ops[0], line' + rest, pos);
      assert Line(texts, ops) + rest == texts[0] + (Spelling(ops[0]) + (line' + rest));
      assert IsBroken(texts', ops', rest) by {
        assert forall k | 0 <= k < |texts'| :: texts'[k] == texts[k + 1];
      }
      TokensOfBroken(texts', ops', rest, pos + |texts[0]| + |Spelling(ops[0])|);
      SomeRejects(texts, |ops|);
    }
  }

  lemma BrokenQuoted(texts: seq<string>, ops: seq<OperatorType>, rest: string)
    requires IsBroken(texts, ops, rest) && ops != []
    ensures OperatorsQuoted(texts[1])
  {
    assert IsText(texts[1]) || IsOpenText(texts[1]);
  }

  lemma {:induction false} BreaksHere(text: string, rest: string, pos: nat)
    requires if rest == "" then IsOpenText(text) else IsText(text) && IsMalformed(rest)
    ensures Tokens(text + rest, "", false, pos) == Err(BadShellLine(pos + |text|))
  {
    hide CommandOf;
    TextScans(text);
    TokensScan(text, rest, "", false, pos);
  }

  // ----- every line has a reading, or breaks -----

  /** A reading of text and rest, text being part of a text; or where it breaks. */
  lemma {:induction false} ReadOn(text: string, rest: string, quoted: bool)
    returns (texts: seq<string>, ops: seq<OperatorType>, left: string)
    requires Scan(text, false) == Some(quoted)
    ensures |texts| == |ops| + 1 && Line(texts, ops) + left == text + rest
    ensures text <= texts[0]
    ensures IsBroken(texts, ops, left) || (left == "" && IsReading(texts, ops))
    decreases |rest|
  {
    hide Line, Scan, IsText, IsOpenText, OperatorAt;
    TextScans(text);
    if rest == "" {
      texts, ops, left := [text], [], "";
      LineOne(text);
    } else if IsQuote(rest[0]) || quoted || !IsOperator(rest[0]) {
      hide IsReading, IsBroken;
      ScanOneMore(text, rest[0], quoted);
      texts, ops, left := ReadOn(text + [rest[0]], rest[1..], if IsQuote(rest[0]) then !quoted else quoted);
      assert text + [rest[0]] + rest[1..] == text + rest;
      assert text <= text + [rest[0]];
    } else {
      OperatorMeans(rest);
      if OperatorAt(rest) == None {
        texts, ops, left := [text], [], rest;
        LineOne(text);
      } else {
        hide IsReading, IsBroken, IsMalformed, IsShort;
        var op := OperatorAt(rest).value;
        var rest' := rest[|Spelling(op)|..];
        ScanNothing();
        var texts', ops';
        texts', ops', left := ReadOn("", rest', false);
        hide Spelling;
        texts, ops := [text] + texts', [op] + ops';
        LineCons(text, op, texts', ops');
        Joins(text, Spelling(op), Line(texts', ops'), left, rest);
        NextText(op, rest', texts', ops', left);
        ReadingCons(text, op, texts', ops', left);
      }
    }
  }

  lemma Joins(text: string, sign: string, line: string, left: string, rest: string)
    requires sign <= rest && line + left == "" + rest[|sign|..]
    ensures text + (sign + line) + left == text + rest && line + left == rest[|sign|..]
  {
    assert sign + (line + left) == rest;
  }

  lemma ScanNothing()
    ensures Scan("", false) == Some(false)
  {
  }

  lemma LineOne(text: string)
    ensures Line([text], []) == text && Line([text], []) + "" == text
  {
  }

  lemma {:induction false} LineCons(text: string, op: OperatorType, texts: seq<string>, ops: seq<OperatorType>)
    requires |texts| == |ops| + 1
    ensures Line([text] + texts, [op] + ops) == text + (Spelling(op) + Line(texts, ops))
  {
    assert ([text] + texts)[1..] == texts && ([op] + ops)[1..] == ops;
  }

  lemma {:induction false} ScanOneMore(text: string, c: char, quoted: bool)
    requires Scan(text, false) == Some(quoted) && (IsQuote(c) || quoted || !IsOperator(c))
    ensures Scan(text + [c], false) == Some(if IsQuote(c) then !quoted else quoted)
  {
    ScanAppend(text, [c], false);
    assert [c][1..] == "";
  }

  lemma OperatorMeans(s: string)
    requires s != "" && IsOperator(s[0])
    ensures OperatorAt(s) == None <==> IsMalformed(s)
    ensures OperatorAt(s).Some? ==>
              var op := OperatorAt(s).value;
              && Spelling(op) <= s && (IsShort(op) && |s| > |Spelling(op)| ==> !IsOperator(s[|Spelling(op)|]))
  {
  }

  /** After a short operator the next text is empty only at the end of the line. */
  lemma {:induction false} NextText(op: OperatorType, rest: string, texts: seq<string>, ops: seq<OperatorType>,
                                    left: string)
    requires |texts| == |ops| + 1 && Line(texts, ops) + left == rest
    requires IsShort(op) && rest != "" ==> !IsOperator(rest[0])
    requires IsBroken(texts, ops, left) || (left == "" && IsReading(texts, ops))
    ensures IsShort(op) && texts[0] == "" ==> ops == [] && left == "" && !IsBroken(texts, ops, left)
  {
    if texts[0] == "" && (ops != [] || IsMalformed(left)) {
      OperatorFirst(texts, ops, left);
    }
    assert !IsQuoted("", 0, 0);
  }

  lemma {:induction false} OperatorFirst(texts: seq<string>, ops: seq<OperatorType>, left: string)
    requires |texts| == |ops| + 1 && texts[0] == "" && (ops != [] || IsMalformed(left))
    ensures Line(texts, ops) + left != "" && IsOperator((Line(texts, ops) + left)[0])
  {
    if ops != [] {
      assert (Line(texts, ops) + left)[0] == Spelling(ops[0])[0];
    }
  }

  lemma ReadingCons(text: string, op: OperatorType, texts: seq<string>, ops: seq<OperatorType>, left: string)
    requires IsText(text)
    requires IsBroken(texts, ops, left) || (left == "" && IsReading(texts, ops))
    requires IsShort(op) && texts[0] == "" ==> ops == [] && left == "" && !IsBroken(texts, ops, left)
    ensures IsBroken([text] + texts, [op] + ops, left) || (left == "" && IsReading([text] + texts, [op] + ops))
  {
    hide IsText, IsOpenText;
    var texts', ops' := [text] + texts, [op] + ops;
    if IsBroken(texts, ops, left) {
      forall k | 0 <= k < |ops'| && IsShort(ops'[k])
        ensures texts'[k + 1] != ""
      {
        if k > 0 {
          var m := k - 1;
          assert ops'[k] == ops[m] && texts'[k + 1] == texts[m + 1];
        }
      }
    } else {
      forall k | 0 <= k < |ops'| - 1 && IsShort(ops'[k])
        ensures texts'[k + 1] != ""
      {
        if k > 0 {
          var m := k - 1;
          assert ops'[k] == ops[m] && texts'[k + 1] == texts[m + 1];
        }
      }
    }
  }

  // ----- the answer to a line -----

  lemma {:induction false} NamedAreLeft(texts: seq<string>, ops: seq<OperatorType>)
    requires |texts| == |ops| + 1
    ensures WithoutEmpty(AllTokens(texts, ops)) == NamedTokens(texts, ops)
    decreases |ops|
  {
    var first := Meaning(Words(texts[0], "", false));
    EmptyIsAccepted();
    hide Words;
    if ops == [] {
      assert [first][1..] == [];
    } else {
      var rest := AllTokens(texts[1..], ops[1..]);
      NamedAreLeft(texts[1..], ops[1..]);
      var all := [first, Operator(ops[0])] + rest;
      assert all[1..] == [Operator(ops[0])] + rest && all[1..][1..] == rest;
      assert WithoutEmpty(all[1..]) == [Operator(ops[0])] + WithoutEmpty(rest);
    }
  }

  lemma {:induction false} ReadingAnswered(texts: seq<string>, ops: seq<OperatorType>, r: Result<seq<Token>>)
    requires IsReading(texts, ops)
    ensures AnswersReading(texts, ops, r) <==> r == Parse(Line(texts, ops))
  {
    TokensOfReading(texts, ops, 0);
    NamedAreLeft(texts, ops);
    WellFormedIsOrdered(NamedTokens(texts, ops));
    hide Tokens, IsReading, Rejects, AllTokens, NamedTokens, WellFormed, IsOrdered, WithoutEmpty, Line;
  }

  lemma {:induction false} BrokenAnswered(texts: seq<string>, ops: seq<OperatorType>, rest: string,
                                          r: Result<seq<Token>>)
    requires IsBroken(texts, ops, rest)
    ensures AnswersBroken(texts, ops, |Line(texts, ops)|, r) <==> r == Parse(Line(texts, ops) + rest)
  {
    TokensOfBroken(texts, ops, rest, 0);
    hide Tokens, IsBroken, Rejects, WellFormed, WithoutEmpty, Line;
  }

  /** Every line is answered so, and in no other way. */
  lemma AnswersExactly(line: string, r: Result<seq<Token>>)
    ensures Answers(line, r) <==> r == Parse(line)
  {
    hide IsText, IsOpenText, IsMalformed, IsShort, AnswersReading, AnswersBroken, Parse, Line;
    if Answers(line, r) {
      if texts, ops :| IsReading(texts, ops) && line == Line(texts, ops) && AnswersReading(texts, ops, r) {
        ReadingAnswered(texts, ops, r);
      } else {
        var texts, ops, rest :| && IsBroken(texts, ops, rest) && line == Line(texts, ops) + rest
                                && AnswersBroken(texts, ops, |Line(texts, ops)|, r);
        BrokenAnswered(texts, ops, rest, r);
      }
    }
    if r == Parse(line) {
      ScanNothing();
      var texts, ops, left := ReadOn("", line, false);
      assert "" + line == line;
      if IsBroken(texts, ops, left) {
        BrokenAnswered(texts, ops, left, r);
      } else {
        ReadingAnswered(texts, ops, r);
        assert Line(texts, ops) + "" == Line(texts, ops);
      }
    }
  }
}

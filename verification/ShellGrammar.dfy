/** The shell line's tokens and what parsing a line means, character by character. */
module ShellGrammar {
  import opened Basics

  datatype OperatorType = And | Or | Conveyor | Background | Separator

  datatype Token =
    | Command(name: string, args: seq<string>, input: string, output: string)
    | Operator(op: OperatorType)

  datatype ParseError = BadCommand(pos: nat) | BadShellLine(pos: nat)

  datatype Result<+T> = Ok(value: T) | Err(error: ParseError)

  // ----- characters -----

  predicate IsQuote(c: char) { c == '\'' || c == '"' }

  predicate IsOperator(c: char) { c == '&' || c == '|' || c == ';' }

  predicate IsSpace(c: char) { c == ' ' || c == '\t' || c == '\n' }

  predicate IsAngle(c: char) { c == '<' || c == '>' }

  predicate IsRedirection(word: string) { word == "<" || word == ">" }

  // ----- a command's words -----

  function Flush(word: string): seq<string>
  {
    if word == "" then [] else [word]
  }

  /** The words of s, read after the characters of word.  Both quote characters toggle
      quoting, and an empty quoted word vanishes. */
  function Words(s: string, word: string, quoted: bool): seq<string>
  {
    if s == "" then Flush(word)
    else if IsQuote(s[0]) then Words(s[1..], word, !quoted)
    else if IsAngle(s[0]) && !quoted then Flush(word) + [[s[0]]] + Words(s[1..], "", quoted)
    else if !IsSpace(s[0]) || quoted then Words(s[1..], word + [s[0]], quoted)
    else Flush(word) + Words(s[1..], "", quoted)
  }

  /** The redirections still without a file name.  A pending one is satisfied only by
      the very next word; Stuck is a pending output that has missed it. */
  datatype Pending = Clear | In | Out | InOut | OutIn | Stuck

  /** Reads words into command c. */
  function Arguments(words: seq<string>, c: Token, p: Pending): Result<Token>
    requires c.Command?
  {
    if words == [] then Ok(c)
    else
      var w, rest := words[0], words[1..];
      if w == "<" then
        match p
        case Clear => Arguments(rest, c, In)
        case Out => Arguments(rest, c, OutIn)
        case Stuck => Arguments(rest, c, OutIn)
        case _ => Err(BadCommand(0))
      else if w == ">" then
        match p
        case Clear => Arguments(rest, c, Out)
        case In => Arguments(rest, c, InOut)
        case _ => Err(BadCommand(0))
      else
        match p
        case Clear => Arguments(rest, c.(args := c.args + [w]), Clear)
        case In => Arguments(rest, c.(input := w), Clear)
        case OutIn => Arguments(rest, c.(input := w), Stuck)
        case Out => Arguments(rest, c.(output := w), Clear)
        case _ => Err(BadCommand(0))
  }

  /** The command written in s; a command that begins with a redirection has no name. */
  function CommandOf(s: string): Result<Token>
  {
    var words := Words(s, "", false);
    if words != [] && !IsRedirection(words[0]) then Arguments(words[1..], Command(words[0], [], "", ""), Clear)
    else Arguments(words, Command("", [], "", ""), Clear)
  }

  // ----- operators -----

  function Spelling(op: OperatorType): string
  {
    match op
    case And => "&&"
    case Or => "||"
    case Conveyor => "|"
    case Background => "&"
    case Separator => ";"
  }

  /** The operator at the start of s, whose first character is an operator character. */
  function OperatorAt(s: string): (r: Option<OperatorType>)
    requires s != "" && IsOperator(s[0])
    ensures r.Some? ==> Spelling(r.value) <= s
  {
    var alone := |s| == 1 || !IsOperator(s[1]);
    if alone then Some(if s[0] == '&' then Background else if s[0] == '|' then Conveyor else Separator)
    else if s[0] == '&' && s[1] == '&' then Some(And)
    else if s[0] == '|' && s[1] == '|' then Some(Or)
    else None
  }

  // ----- a line's tokens -----

  function Prepend(tokens: seq<Token>, r: Result<seq<Token>>): Result<seq<Token>>
  {
    if r.Ok? then Ok(tokens + r.value) else r
  }

  function Single(r: Result<Token>): Result<seq<Token>>
  {
    match r
    case Ok(c) => Ok([c])
    case Err(e) => Err(e)
  }

  /** The tokens of rest, which begins at pos, after the characters of text have been
      read since the last operator. */
  function Tokens(rest: string, text: string, quoted: bool, pos: nat): Result<seq<Token>>
    decreases |rest|
  {
    if rest == "" then
      if quoted then Err(BadShellLine(pos))
      else if text == "" then Ok([])
      else Single(CommandOf(text))
    else if IsQuote(rest[0]) then Tokens(rest[1..], text + [rest[0]], !quoted, pos + 1)
    else if quoted || !IsOperator(rest[0]) then Tokens(rest[1..], text + [rest[0]], quoted, pos + 1)
    else
      match OperatorAt(rest)
      case None => Err(BadShellLine(pos))
      case Some(op) =>
        match CommandOf(text)
        case Err(e) => Err(e)
        case Ok(c) =>
          var k := |Spelling(op)|;
          Prepend([c, Operator(op)], Tokens(rest[k..], "", false, pos + k))
  }

  predicate IsEmptyCommand(t: Token)
  {
    t.Command? && t.name == ""
  }

  function WithoutEmpty(tokens: seq<Token>): seq<Token>
  {
    if tokens == [] then []
    else (if IsEmptyCommand(tokens[0]) then [] else [tokens[0]]) + WithoutEmpty(tokens[1..])
  }

  /** Command (Op Command)*, with an optional final Background. */
  predicate IsLine(tokens: seq<Token>)
  {
    && tokens != [] && tokens[0].Command? && AfterCommand(tokens[1..])
  }

  predicate AfterCommand(tokens: seq<Token>)
  {
    || tokens == []
    || (tokens[0] == Operator(Background) && |tokens| == 1)
    || (tokens[0].Operator? && tokens[0].op != Background && IsLine(tokens[1..]))
  }

  predicate WellFormed(tokens: seq<Token>)
  {
    tokens == [] || IsLine(tokens)
  }

  function Parse(line: string): Result<seq<Token>>
  {
    match Tokens(line, "", false, 0)
    case Err(e) => Err(e)
    case Ok(tokens) => if WellFormed(WithoutEmpty(tokens)) then Ok(WithoutEmpty(tokens)) else Err(BadShellLine(0))
  }

  // ----- printing -----

  function Quoted(word: string): string
  {
    "'" + word + "'"
  }

  function PrintArgs(args: seq<string>): string
  {
    if args == [] then "" else " " + Quoted(args[0]) + PrintArgs(args[1..])
  }

  function PrintFile(sign: string, file: string): string
  {
    if file == "" then "" else sign + Quoted(file)
  }

  function PrintToken(t: Token): string
  {
    match t
    case Operator(op) => Spelling(op)
    case Command(name, args, input, output) =>
      Quoted(name) + (PrintArgs(args) + (PrintFile("<", input) + PrintFile(">", output)))
  }

  function Print(tokens: seq<Token>): string
  {
    if tokens == [] then "" else PrintToken(tokens[0]) + Print(tokens[1..])
  }

  /** A word that quoting protects: without quote characters, and not a lone angle
      bracket, which is a redirection even when quoted. */
  predicate IsPlain(word: string)
  {
    !IsRedirection(word) && forall k | 0 <= k < |word| :: !IsQuote(word[k])
  }

  predicate Printable(t: Token)
  {
    t.Command? ==>
      && t.name != "" && IsPlain(t.name) && IsPlain(t.input) && IsPlain(t.output)
      && forall k | 0 <= k < |t.args| :: t.args[k] != "" && IsPlain(t.args[k])
  }
}

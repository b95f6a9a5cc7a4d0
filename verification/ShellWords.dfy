/** What the words of a text are, by the parity of the quotes before each character. */
module ShellWords {
  import opened Basics
  import opened ShellGrammar

  function QuotesIn(s: string): nat
  {
    if s == "" then 0 else (if s[0] in {'\'', '"'} then 1 else 0) + QuotesIn(s[1..])
  }

  /** Character k of s is inside quotes when quotes quote characters have come before s. */
  predicate IsQuoted(s: string, k: nat, quotes: nat)
    requires k <= |s|
  {
    (quotes + QuotesIn(s[..k])) % 2 == 1
  }

  function WithoutQuotes(s: string): string
  {
    if s == "" then "" else (if s[0] in {'\'', '"'} then "" else [s[0]]) + WithoutQuotes(s[1..])
  }

  function Parity(quoted: bool): nat { if quoted then 1 else 0 }

  lemma QuotesNext(s: string, k: nat, quoted: bool)
    requires s != "" && k < |s|
    ensures var quoted' := if IsQuote(s[0]) then !quoted else quoted;
            IsQuoted(s[1..], k, Parity(quoted')) == IsQuoted(s, k + 1, Parity(quoted))
  {
    assert s[..k + 1][0] == s[0] && s[..k + 1][1..] == s[1..][..k];
  }

  lemma {:induction false} WordsCutFrom(u: string, c: char, v: string, word: string, quoted: bool)
    requires !IsQuoted(u, |u|, Parity(quoted)) && (IsSpace(c) || IsAngle(c))
    ensures Words(u + [c] + v, word, quoted)
         == Words(u, word, quoted) + (if IsAngle(c) then [[c]] else []) + Words(v, "", false)
    decreases |u|
  {
    var s := u + [c] + v;
    if u == "" {
      assert s[0] == c && s[1..] == v;
    } else {
      assert s[0] == u[0] && s[1..] == u[1..] + [c] + v;
      QuotesNext(u, |u| - 1, quoted);
      if IsQuote(u[0]) {
        WordsCutFrom(u[1..], c, v, word, !quoted);
      } else if quoted || !(IsSpace(u[0]) || IsAngle(u[0])) {
        WordsCutFrom(u[1..], c, v, word + [u[0]], quoted);
      } else {
        WordsCutFrom(u[1..], c, v, "", quoted);
      }
    }
  }

  /** At a blank or an angle bracket outside quotes the words before it end, and those
      after it begin anew; the bracket is a word of its own. */
  lemma {:induction false} WordsCut(u: string, c: char, v: string)
    requires !IsQuoted(u, |u|, 0) && c in {' ', '\t', '\n', '<', '>'}
    ensures Words(u + [c] + v, "", false)
         == Words(u, "", false) + (if c in {'<', '>'} then [[c]] else []) + Words(v, "", false)
  {
    WordsCutFrom(u, c, v, "", false);
  }

  lemma {:induction false} WordsWholeFrom(s: string, word: string, quoted: bool)
    requires forall k | 0 <= k < |s| && (IsSpace(s[k]) || IsAngle(s[k])) :: IsQuoted(s, k, Parity(quoted))
    ensures Words(s, word, quoted) == Flush(word + WithoutQuotes(s))
  {
    if s == "" {
      assert word + "" == word;
    } else {
      var quoted' := if IsQuote(s[0]) then !quoted else quoted;
      forall k | 0 <= k < |s[1..]| && (IsSpace(s[1..][k]) || IsAngle(s[1..][k]))
        ensures IsQuoted(s[1..], k, Parity(quoted'))
      {
        assert s[k + 1] == s[1..][k];
        QuotesNext(s, k, quoted);
      }
      assert s[..0] == "";
      assert IsSpace(s[0]) || IsAngle(s[0]) ==> IsQuoted(s, 0, Parity(quoted));
      if IsQuote(s[0]) {
        WordsWholeFrom(s[1..], word, !quoted);
        assert WithoutQuotes(s) == WithoutQuotes(s[1..]);
      } else {
        WordsWholeFrom(s[1..], word + [s[0]], quoted);
        assert word + [s[0]] + WithoutQuotes(s[1..]) == word + WithoutQuotes(s);
      }
    }
  }

  /** A text with neither outside quotes is one word, its quotes removed, or none if
      nothing else is left. */
  lemma {:induction false} WordsWhole(s: string)
    requires forall k | 0 <= k < |s| && s[k] in {' ', '\t', '\n', '<', '>'} :: IsQuoted(s, k, 0)
    ensures Words(s, "", false) == if WithoutQuotes(s) == "" then [] else [WithoutQuotes(s)]
  {
    WordsWholeFrom(s, "", false);
    assert "" + WithoutQuotes(s) == WithoutQuotes(s);
  }
}

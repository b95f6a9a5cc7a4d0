/** What the words of a command mean, by their neighbours alone. */
module ShellRedirections {
  import opened Basics
  import opened ShellGrammar

  /** The word after each sign. */
  ghost predicate Alternates(ws: seq<string>, o: nat)
  {
    forall q | o < q < |ws| :: if (q - o) % 2 == 1 then ws[q] == "<" else !IsRedirection(ws[q])
  }

  /** The sign at p is followed by a file name or by nothing, with two exceptions: < >
      may end the words, and after > < there may be nothing but further inputs, the
      output staying without a name. */
  ghost predicate SignFits(ws: seq<string>, p: nat)
    requires p < |ws|
  {
    || p + 1 == |ws|
    || !IsRedirection(ws[p + 1])
    || (ws[p] == "<" && ws[p + 1] == ">" && p + 2 == |ws|)
    || (ws[p] == ">" && ws[p + 1] == "<" && Alternates(ws, p))
  }

  ghost predicate Accepted(ws: seq<string>)
  {
    forall p: nat | p < |ws| && IsRedirection(ws[p]) :: SignFits(ws, p)
  }

  /** The words, but the first, that follow a word. */
  function ArgsOf(ws: seq<string>): seq<string>
  {
    if |ws| < 2 then []
    else
      var last := |ws| - 1;
      ArgsOf(ws[..last]) + (if IsRedirection(ws[last]) || IsRedirection(ws[last - 1]) then [] else [ws[last]])
  }

  /** The last word that follows the sign. */
  function FileAfter(sign: string, ws: seq<string>): string
  {
    if |ws| < 2 then ""
    else
      var last := |ws| - 1;
      if ws[last - 1] == sign && !IsRedirection(ws[last]) then ws[last] else FileAfter(sign, ws[..last])
  }

  function NameOf(ws: seq<string>): string
  {
    if ws != [] && !IsRedirection(ws[0]) then ws[0] else ""
  }

  function Meaning(ws: seq<string>): Token
  {
    Command(NameOf(ws), ArgsOf(ws), FileAfter("<", ws), FileAfter(">", ws))
  }

  /** An output sign is waiting for its name behind inputs. */
  ghost predicate Waits(ws: seq<string>, o: nat)
  {
    o + 1 < |ws| && ws[o] == ">" && Alternates(ws, o)
  }

  /** Which redirections are pending after the words ws. */
  ghost predicate Leaves(ws: seq<string>, p: Pending)
  {
    var n := |ws|;
    match p
    case Clear => (n == 0 || !IsRedirection(ws[n - 1])) && forall o: nat :: !Waits(ws, o)
    case In => n > 0 && ws[n - 1] == "<" && forall o: nat :: !Waits(ws, o)
    case Out => n > 0 && ws[n - 1] == ">" && (n == 1 || !IsRedirection(ws[n - 2]))
    case InOut => n > 1 && ws[n - 1] == ">" && ws[n - 2] == "<"
    case OutIn => n > 0 && ws[n - 1] == "<" && exists o: nat :: Waits(ws, o)
    case Stuck => n > 0 && !IsRedirection(ws[n - 1]) && exists o: nat :: Waits(ws, o)
  }

  /** What w makes of the pending redirections, unless it fails. */
  function Advance(p: Pending, w: string): Option<Pending>
  {
    if w == "<" then
      (match p case Clear => Some(In) case Out => Some(OutIn) case Stuck => Some(OutIn) case _ => None)
    else if w == ">" then
      (match p case Clear => Some(Out) case In => Some(InOut) case _ => None)
    else
      (match p case Clear => Some(Clear) case In => Some(Clear) case Out => Some(Clear) case OutIn => Some(Stuck)
               case _ => None)
  }

  lemma AlternatesLonger(ws: seq<string>, w: string, o: nat)
    requires o < |ws|
    ensures Alternates(ws + [w], o) <==>
              Alternates(ws, o) && if (|ws| - o) % 2 == 1 then w == "<" else !IsRedirection(w)
  {
    var ws' := ws + [w];
    assert forall q | o < q < |ws| :: ws'[q] == ws[q];
    assert ws'[|ws|] == w;
  }

  lemma WaitsLonger(ws: seq<string>, w: string, o: nat)
    ensures Waits(ws + [w], o) <==>
              || (Waits(ws, o) && if IsRedirection(ws[|ws| - 1]) then !IsRedirection(w) else w == "<")
              || (o + 1 == |ws| && ws[o] == ">" && w == "<")
  {
    if o < |ws| {
      AlternatesLonger(ws, w, o);
    }
  }

  /** Whether the sign at q still fits when w follows. */
  lemma SignFitsLonger(ws: seq<string>, w: string, q: nat)
    requires q < |ws| && IsRedirection(ws[q]) && SignFits(ws, q)
    ensures SignFits(ws + [w], q) <==>
              if q + 1 == |ws| then !IsRedirection(w) || w != ws[q] else !IsRedirection(ws[q + 1]) || Waits(ws + [w], q)
  {
    var ws' := ws + [w];
    assert ws'[q] == ws[q] && ws'[q + 1] == if q + 1 == |ws| then w else ws[q + 1];
    if q + 1 == |ws| && w == "<" {
      assert Alternates(ws', q);
    }
  }

  lemma StillFits(ws: seq<string>, w: string, p: Pending, q: nat)
    requires Accepted(ws) && Leaves(ws, p) && Advance(p, w).Some?
    requires q < |ws| && IsRedirection(ws[q])
    ensures SignFits(ws + [w], q)
  {
    assert SignFits(ws, q);
    SignFitsLonger(ws, w, q);
    if q + 1 < |ws| && IsRedirection(ws[q + 1]) {
      assert ws[q] == ">" ==> Waits(ws, q);
      WaitsLonger(ws, w, q);
    }
  }

  lemma FitsNoMore(ws: seq<string>, w: string, p: Pending) returns (q: nat)
    requires Accepted(ws) && Leaves(ws, p) && Advance(p, w).None?
    ensures q < |ws| && IsRedirection(ws[q]) && !SignFits(ws + [w], q)
  {
    var n := |ws|;
    q := n - 1;
    if p == InOut {
      q := n - 2;
    } else if p == Stuck || (p == OutIn && w == ">") {
      q :| Waits(ws, q);
    }
    assert SignFits(ws, q);
    SignFitsLonger(ws, w, q);
    WaitsLonger(ws, w, q);
  }

  lemma AcceptedLonger(ws: seq<string>, w: string, p: Pending)
    requires Accepted(ws) && Leaves(ws, p)
    ensures Accepted(ws + [w]) <==> Advance(p, w).Some?
  {
    var ws' := ws + [w];
    if Advance(p, w).Some? {
      forall q: nat | q < |ws'| && IsRedirection(ws'[q])
        ensures SignFits(ws', q)
      {
        if q < |ws| {
          StillFits(ws, w, p, q);
        }
      }
    } else {
      var q := FitsNoMore(ws, w, p);
      assert IsRedirection(ws'[q]);
    }
  }

  lemma LeavesLonger(ws: seq<string>, w: string, p: Pending)
    requires Accepted(ws) && Leaves(ws, p) && Advance(p, w).Some?
    ensures Leaves(ws + [w], Advance(p, w).value)
  {
    var ws', n := ws + [w], |ws|;
    forall o: nat
      ensures Waits(ws', o) <==>
                || (Waits(ws, o) && if IsRedirection(ws[n - 1]) then !IsRedirection(w) else w == "<")
                || (o + 1 == n && ws[o] == ">" && w == "<")
    {
      WaitsLonger(ws, w, o);
    }
    if p == OutIn || p == Stuck {
      var o: nat :| Waits(ws, o);
      assert Waits(ws', o);
    } else if p == Out && w == "<" {
      assert Waits(ws', n - 1);
    }
  }

  lemma RejectedPrefix(ws: seq<string>, k: nat)
    requires k <= |ws| && !Accepted(ws[..k])
    ensures !Accepted(ws)
  {
    var q: nat :| q < k && IsRedirection(ws[..k][q]) && !SignFits(ws[..k], q);
    assert ws[..k][q] == ws[q];
    assert !SignFits(ws, q);
  }

  /** What reading w does to the command c. */
  function Extended(c: Token, p: Pending, w: string): Token
    requires c.Command?
  {
    if IsRedirection(w) then c
    else if p == Clear then c.(args := c.args + [w])
    else if p == Out then c.(output := w)
    else c.(input := w)
  }

  lemma {:induction false} ArgumentsStep(ws: seq<string>, k: nat, c: Token, p: Pending)
    requires k < |ws| && c.Command?
    ensures Arguments(ws[k..], c, p)
         == match Advance(p, ws[k])
            case None => Err(BadCommand(0))
            case Some(p') => Arguments(ws[k + 1..], Extended(c, p, ws[k]), p')
  {
    assert ws[k..][0] == ws[k] && ws[k..][1..] == ws[k + 1..];
  }

  lemma MeaningLonger(ws: seq<string>, w: string, p: Pending)
    requires ws != [] && Leaves(ws, p) && Advance(p, w).Some?
    ensures Meaning(ws + [w]) == Extended(Meaning(ws), p, w)
  {
    assert (ws + [w])[..|ws|] == ws;
  }

  /** Reading the words from place k on, with what those before it mean. */
  lemma {:induction false} ArgumentsMean(ws: seq<string>, k: nat, p: Pending)
    requires k <= |ws| && Accepted(ws[..k]) && Leaves(ws[..k], p)
    requires k == 0 && ws != [] ==> IsRedirection(ws[0])
    ensures var r := Arguments(ws[k..], Meaning(ws[..k]), p);
            if Accepted(ws) then r == Ok(Meaning(ws)) else r == Err(BadCommand(0))
    decreases |ws| - k
  {
    if k == |ws| {
      assert ws[..k] == ws && ws[k..] == [];
    } else {
      var w, done := ws[k], ws[..k];
      ArgumentsStep(ws, k, Meaning(done), p);
      if k == 0 {
        assert done == [] && [] + [w] == [w] && Meaning([]) == Meaning([w]);
      }
      hide Arguments, Accepted, Leaves, Meaning;
      assert ws[..k + 1] == done + [w];
      AcceptedLonger(done, w, p);
      if Advance(p, w).Some? {
        LeavesLonger(done, w, p);
        if k > 0 {
          MeaningLonger(done, w, p);
        }
        ArgumentsMean(ws, k + 1, Advance(p, w).value);
      } else {
        RejectedPrefix(ws, k + 1);
      }
    }
  }

  /** A command is accepted exactly when each of its signs fits; then it consists of the
      first word, the words that follow words, and the last word after each sign. */
  lemma {:induction false} CommandMeans(s: string)
    ensures var ws := Words(s, "", false);
            CommandOf(s) == if Accepted(ws) then Ok(Meaning(ws)) else Err(BadCommand(0))
  {
    var ws := Words(s, "", false);
    if ws != [] && !IsRedirection(ws[0]) {
      assert ws[..1] == [ws[0]];
      ArgumentsMean(ws, 1, Clear);
    } else {
      assert ws[..0] == [] && ws[0..] == ws;
      ArgumentsMean(ws, 0, Clear);
    }
  }
}

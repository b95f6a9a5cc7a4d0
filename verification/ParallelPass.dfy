/** A pass whose iterations run in parallel: any interleaving of their steps leaves
    what the sequential loop leaves. */
module ParallelPass {
  import opened Basics
  import opened MergeSpec

  /** An iteration merges [begin, middle) with [middle, end). */
  datatype Iteration = Iteration(begin: nat, middle: nat, end: nat)

  function Iterations(n: nat, s: nat, i: nat): seq<Iteration>
    requires s > 0
    decreases n - i
  {
    if i >= n then [] else [Iteration(i, Min(i + s, n), Min(i + 2 * s, n))] + Iterations(n, s, i + 2 * s)
  }

  /** The output buffer and where each iteration is in its merge. */
  datatype State = State(out: seq<int>, at: seq<Cursor>)

  function Part1(src: seq<int>, it: Iteration): seq<int>
    requires it.begin <= it.middle <= it.end <= |src|
  {
    src[it.begin..it.middle]
  }

  function Part2(src: seq<int>, it: Iteration): seq<int>
    requires it.begin <= it.middle <= it.end <= |src|
  {
    src[it.middle..it.end]
  }

  predicate InBounds(its: seq<Iteration>, n: nat)
  {
    forall k | 0 <= k < |its| :: its[k].begin <= its[k].middle <= its[k].end <= n
  }

  /** Iterations in order, no two of them overlapping. */
  ghost predicate Apart(its: seq<Iteration>)
  {
    forall k, l | 0 <= k < l < |its| :: its[k].end <= its[l].begin
  }

  /** What iteration it writes next, at c, and where it is then; None when it is done.
      It reads only src. */
  function Move(bound: TailBound, src: seq<int>, it: Iteration, c: Cursor): (r: Option<(int, Cursor)>)
    requires it.begin <= it.middle <= it.end <= |src|
    requires c.i <= it.middle - it.begin && c.j <= it.end - it.middle
    ensures r.Some? ==> c.i + c.j < it.end - it.begin
  {
    var a, b := Part1(src, it), Part2(src, it);
    if TakesFirst(a, b, c.i, c.j) then Some((src[it.begin + c.i], Cursor(c.i + 1, c.j)))
    else if c.j < |b| && (c.i < |a| || Reach(bound, |b| - c.j) > 0) then
      Some((src[it.middle + c.j], Cursor(c.i, c.j + 1)))
    else None
  }

  /** One step of iteration k, if it is not done. */
  function StepOf(bound: TailBound, src: seq<int>, its: seq<Iteration>, st: State, k: nat): State
    requires InBounds(its, |src|) && k < |its| == |st.at| && |st.out| == |src|
    requires st.at[k].i <= its[k].middle - its[k].begin && st.at[k].j <= its[k].end - its[k].middle
  {
    match Move(bound, src, its[k], st.at[k])
    case None => st
    case Some((x, c)) => State(st.out[its[k].begin + st.at[k].i + st.at[k].j := x], st.at[k := c])
  }

  /** From begin up to end, out holds the first n elements of w and then what stale holds. */
  ghost predicate WrittenUpTo(out: seq<int>, stale: seq<int>, w: seq<int>, begin: nat, n: nat, end: nat)
    requires begin <= end <= |out| == |stale| && n <= |w|
  {
    && (forall x | begin <= x < begin + n && x < end :: out[x] == w[x - begin])
    && (forall x | begin + n <= x < end :: out[x] == stale[x])
  }

  /** Iteration it has written a prefix of what it has to write, at c, and nothing
      beyond. */
  ghost predicate Underway(bound: TailBound, src: seq<int>, stale: seq<int>, it: Iteration, c: Cursor, out: seq<int>)
    requires it.begin <= it.middle <= it.end <= |src| == |stale| == |out|
  {
    var a, b := Part1(src, it), Part2(src, it);
    && c.i <= it.middle - it.begin && c.j <= it.end - it.middle && Progress(bound, a, b, c.i, c.j)
    && WrittenUpTo(out, stale, Written(bound, a, b), it.begin, c.i + c.j, it.end)
  }

  lemma WriteOneMore(out: seq<int>, stale: seq<int>, w: seq<int>, begin: nat, n: nat, end: nat, x: int)
    requires begin <= end <= |out| == |stale| && n < |w| && begin + n < end && x == w[n]
    requires WrittenUpTo(out, stale, w, begin, n, end)
    ensures WrittenUpTo(out[begin + n := x], stale, w, begin, n + 1, end)
  {
  }

  lemma WriteElsewhere(out: seq<int>, out': seq<int>, stale: seq<int>, w: seq<int>, begin: nat, n: nat, end: nat)
    requires begin <= end <= |out| == |out'| == |stale| && n <= |w|
    requires forall x | begin <= x < end :: out'[x] == out[x]
    requires WrittenUpTo(out, stale, w, begin, n, end)
    ensures WrittenUpTo(out', stale, w, begin, n, end)
  {
  }

  ghost predicate Inv(bound: TailBound, src: seq<int>, stale: seq<int>, its: seq<Iteration>, st: State)
  {
    && |src| == |stale| == |st.out| && |its| == |st.at|
    && InBounds(its, |src|) && Apart(its)
    && forall k | 0 <= k < |its| :: Underway(bound, src, stale, its[k], st.at[k], st.out)
  }

  /** All iterations of a pass of block size s, before their first step. */
  function Start(n: nat, s: nat, stale: seq<int>): State
    requires s > 0
  {
    State(stale, seq(|Iterations(n, s, 0)|, _ => Cursor(0, 0)))
  }

  lemma {:induction false} IterationsApart(n: nat, s: nat, i: nat)
    requires s > 0
    ensures InBounds(Iterations(n, s, i), n) && Apart(Iterations(n, s, i))
    ensures forall k | 0 <= k < |Iterations(n, s, i)| :: i <= Iterations(n, s, i)[k].begin
    decreases n - i
  {
    if i < n {
      IterationsApart(n, s, i + 2 * s);
    }
  }

  lemma {:induction false} StartInv(bound: TailBound, src: seq<int>, stale: seq<int>, s: nat)
    requires s > 0 && |stale| == |src|
    ensures Inv(bound, src, stale, Iterations(|src|, s, 0), Start(|src|, s, stale))
  {
    hide Iterations;
    var its := Iterations(|src|, s, 0);
    IterationsApart(|src|, s, 0);
    forall k | 0 <= k < |its|
      ensures Underway(bound, src, stale, its[k], Cursor(0, 0), stale)
    {
      hide Written;
      var a, b := Part1(src, its[k]), Part2(src, its[k]);
      assert a[0..] == a && b[0..] == b && Written(bound, a, b)[0..] == Written(bound, a, b);
    }
  }

  /** What an iteration writes next is the next element of the merge. */
  lemma {:induction false} MoveTakes(bound: TailBound, src: seq<int>, it: Iteration, c: Cursor)
    requires it.begin <= it.middle <= it.end <= |src|
    requires c.i <= it.middle - it.begin && c.j <= it.end - it.middle && Move(bound, src, it, c).Some?
    requires Progress(bound, Part1(src, it), Part2(src, it), c.i, c.j)
    ensures var a, b, (x, c') := Part1(src, it), Part2(src, it), Move(bound, src, it, c).value;
            && c'.i + c'.j == c.i + c.j + 1 && c'.i <= |a| && c'.j <= |b|
            && c.i + c.j < |Written(bound, a, b)| && x == Written(bound, a, b)[c.i + c.j]
            && Progress(bound, a, b, c'.i, c'.j)
  {
    var a, b := Part1(src, it), Part2(src, it);
    assert TakesFirst(a, b, c.i, c.j) ==> a[c.i] == src[it.begin + c.i];
    assert c.j < |b| ==> b[c.j] == src[it.middle + c.j];
    ProgressStep(bound, a, b, c.i, c.j);
    hide Written, Progress, Reach, Part1, Part2;
  }

  lemma MoveUnderway(bound: TailBound, src: seq<int>, stale: seq<int>, it: Iteration, c: Cursor, out: seq<int>)
    requires it.begin <= it.middle <= it.end <= |src| == |stale| == |out|
    requires Underway(bound, src, stale, it, c, out) && Move(bound, src, it, c).Some?
    ensures var (x, c') := Move(bound, src, it, c).value;
            Underway(bound, src, stale, it, c', out[it.begin + c.i + c.j := x])
  {
    MoveTakes(bound, src, it, c);
    var a, b := Part1(src, it), Part2(src, it);
    var x := Move(bound, src, it, c).value.0;
    hide Written, Progress, WrittenUpTo, Move, Part1, Part2;
    WriteOneMore(out, stale, Written(bound, a, b), it.begin, c.i + c.j, it.end, x);
  }

  /** A step of one iteration writes at most one element, inside its slice. */
  lemma StepInside(bound: TailBound, src: seq<int>, stale: seq<int>, its: seq<Iteration>, st: State, k: nat)
    requires Inv(bound, src, stale, its, st) && k < |its|
    ensures var st' := StepOf(bound, src, its, st, k);
            && |st'.out| == |st.out| && |st'.at| == |st.at|
            && (forall l | 0 <= l < |its| && l != k :: st'.at[l] == st.at[l])
            && (forall x | 0 <= x < |st.out| && !(its[k].begin <= x < its[k].end) :: st'.out[x] == st.out[x])
  {
    hide Written, Progress, WrittenUpTo;
    assert Underway(bound, src, stale, its[k], st.at[k], st.out);
  }

  lemma StepUnderway(bound: TailBound, src: seq<int>, stale: seq<int>, its: seq<Iteration>, st: State, k: nat)
    requires Inv(bound, src, stale, its, st) && k < |its|
    ensures var st' := StepOf(bound, src, its, st, k);
            |st'.out| == |src| && |st'.at| == |its| && Underway(bound, src, stale, its[k], st'.at[k], st'.out)
  {
    hide Written, Progress, WrittenUpTo;
    var c := st.at[k];
    assert Underway(bound, src, stale, its[k], c, st.out);
    hide Underway;
    if Move(bound, src, its[k], c).Some? {
      MoveUnderway(bound, src, stale, its[k], c, st.out);
    }
  }

  /** A step of one iteration keeps the invariant of all of them. */
  lemma StepInv(bound: TailBound, src: seq<int>, stale: seq<int>, its: seq<Iteration>, st: State, k: nat)
    requires Inv(bound, src, stale, its, st) && k < |its|
    ensures Inv(bound, src, stale, its, StepOf(bound, src, its, st, k))
  {
    hide Written, StepOf, WrittenUpTo;
    StepInside(bound, src, stale, its, st, k);
    StepUnderway(bound, src, stale, its, st, k);
    var st' := StepOf(bound, src, its, st, k);
    forall l | 0 <= l < |its|
      ensures Underway(bound, src, stale, its[l], st'.at[l], st'.out)
    {
      if l != k {
        var it, c := its[l], st.at[l];
        assert Underway(bound, src, stale, it, c, st.out);
        assert it.end <= its[k].begin || its[k].end <= it.begin;
        WriteElsewhere(st.out, st'.out, stale, Written(bound, Part1(src, it), Part2(src, it)),
                       it.begin, c.i + c.j, it.end);
      }
    }
  }

  /** The state after the steps of a schedule, which names the iteration that moves
      next, in any order. */
  ghost function Execute(bound: TailBound, src: seq<int>, stale: seq<int>, its: seq<Iteration>, st: State,
                         schedule: seq<nat>): (st': State)
    requires Inv(bound, src, stale, its, st) && forall q | 0 <= q < |schedule| :: schedule[q] < |its|
    ensures Inv(bound, src, stale, its, st')
    decreases |schedule|
  {
    if schedule == [] then st
    else
      StepInv(bound, src, stale, its, st, schedule[0]);
      Execute(bound, src, stale, its, StepOf(bound, src, its, st, schedule[0]), schedule[1..])
  }

  ghost predicate Finished(bound: TailBound, src: seq<int>, its: seq<Iteration>, st: State)
    requires InBounds(its, |src|) && |its| == |st.at|
  {
    forall k | 0 <= k < |its| :: Exhausted(bound, Part1(src, its[k]), Part2(src, its[k]), st.at[k])
  }

  lemma WrittenSlice(out: seq<int>, stale: seq<int>, w: seq<int>, begin: nat, end: nat)
    requires begin + |w| <= end <= |out| == |stale| && WrittenUpTo(out, stale, w, begin, |w|, end)
    ensures out[begin..end] == w + stale[begin..end][|w|..]
  {
    var result, expected := out[begin..end], w + stale[begin..end][|w|..];
    forall y | 0 <= y < |result|
      ensures result[y] == expected[y]
    {
      assert out[begin + y] == result[y];
    }
  }

  lemma FinishedSlice(bound: TailBound, src: seq<int>, stale: seq<int>, it: Iteration, c: Cursor, out: seq<int>)
    requires it.begin <= it.middle <= it.end <= |src| == |stale| == |out|
    requires Underway(bound, src, stale, it, c, out) && Exhausted(bound, Part1(src, it), Part2(src, it), c)
    ensures out[it.begin..it.end] == Merged(bound, Part1(src, it), Part2(src, it), stale[it.begin..it.end])
  {
    ProgressStep(bound, Part1(src, it), Part2(src, it), c.i, c.j);
    hide Written, Progress;
    var w := Written(bound, Part1(src, it), Part2(src, it));
    assert c.i + c.j == |w|;
    WrittenSlice(out, stale, w, it.begin, it.end);
  }

  lemma SplitAt(out: seq<int>, i: nat, e: nat)
    requires i <= e <= |out|
    ensures out[i..] == out[i..e] + out[e..]
  {
  }

  lemma NextIteration(n: nat, s: nat, i: nat)
    requires s > 0 && i < n
    ensures var its, rest := Iterations(n, s, i), Iterations(n, s, Min(i + 2 * s, n));
            && |its| == 1 + |rest| && its[0] == Iteration(i, Min(i + s, n), Min(i + 2 * s, n))
            && forall k | 0 <= k < |rest| :: rest[k] == its[k + 1]
  {
    if n < i + 2 * s {
      assert Iterations(n, s, i + 2 * s) == [] == Iterations(n, s, n);
    }
  }

  /** Slices that all hold what their iteration merges make up the whole pass. */
  lemma {:induction false} SlicesMakePass(bound: TailBound, src: seq<int>, stale: seq<int>, s: nat, i: nat,
                                          out: seq<int>)
    requires s > 0 && i <= |src| == |stale| == |out|
    requires InBounds(Iterations(|src|, s, i), |src|)
    requires forall k | 0 <= k < |Iterations(|src|, s, i)| ::
               var it := Iterations(|src|, s, i)[k];
               out[it.begin..it.end] == Merged(bound, Part1(src, it), Part2(src, it), stale[it.begin..it.end])
    ensures out[i..] == Pass(bound, src[i..], stale[i..], s)
    decreases |src| - i
  {
    if i < |src| {
      hide Pass, Merged;
      var n := |src|;
      var m, e := Min(i + s, n), Min(i + 2 * s, n);
      NextIteration(n, s, i);
      hide Iterations;
      SlicesMakePass(bound, src, stale, s, e, out);
      PassUnfold(bound, src, stale, s, i, m, e);
      SplitAt(out, i, e);
    } else {
      assert src[i..] == [];
    }
  }

  /** Whatever the order in which the iterations' steps are interleaved, once all have
      finished the output buffer is that of the sequential pass. */
  lemma {:induction false} AnyScheduleIsThePass(bound: TailBound, src: seq<int>, stale: seq<int>, s: nat,
                                                schedule: seq<nat>)
    requires s > 0 && |stale| == |src|
    requires forall q | 0 <= q < |schedule| :: schedule[q] < |Iterations(|src|, s, 0)|
    ensures Inv(bound, src, stale, Iterations(|src|, s, 0), Start(|src|, s, stale))
    ensures var its := Iterations(|src|, s, 0);
            var st := Execute(bound, src, stale, its, Start(|src|, s, stale), schedule);
            Finished(bound, src, its, st) ==> st.out == Pass(bound, src, stale, s)
  {
    hide Written, Progress, Merged, Pass, Execute, Iterations;
    var its := Iterations(|src|, s, 0);
    StartInv(bound, src, stale, s);
    var st := Execute(bound, src, stale, its, Start(|src|, s, stale), schedule);
    if Finished(bound, src, its, st) {
      forall k | 0 <= k < |its|
        ensures st.out[its[k].begin..its[k].end]
             == Merged(bound, Part1(src, its[k]), Part2(src, its[k]), stale[its[k].begin..its[k].end])
      {
        FinishedSlice(bound, src, stale, its[k], st.at[k], st.out);
      }
      SlicesMakePass(bound, src, stale, s, 0, st.out);
      assert st.out[0..] == st.out && src[0..] == src && stale[0..] == stale;
    }
  }

  /** Steps of different iterations commute: neither reads or writes what the other
      writes. */
  lemma StepsCommute(bound: TailBound, src: seq<int>, stale: seq<int>, its: seq<Iteration>, st: State, k: nat, l: nat)
    requires Inv(bound, src, stale, its, st) && k < |its| && l < |its| && k != l
    ensures var st1, st2 := StepOf(bound, src, its, st, k), StepOf(bound, src, its, st, l);
            && Inv(bound, src, stale, its, st1) && Inv(bound, src, stale, its, st2)
            && StepOf(bound, src, its, st1, l) == StepOf(bound, src, its, st2, k)
  {
    hide Written, Progress, Move;
    StepInv(bound, src, stale, its, st, k);
    StepInv(bound, src, stale, its, st, l);
    assert its[l].end <= its[k].begin || its[k].end <= its[l].begin;
    assert Underway(bound, src, stale, its[k], st.at[k], st.out);
    assert Underway(bound, src, stale, its[l], st.at[l], st.out);
  }

  // ----- the iterations do finish -----

  /** How many elements the iterations have still to write at most. */
  ghost function Work(its: seq<Iteration>, at: seq<Cursor>): int
    requires |its| == |at|
  {
    if its == [] then 0 else (its[0].end - its[0].begin - at[0].i - at[0].j) + Work(its[1..], at[1..])
  }

  lemma {:induction false} WorkDecreases(its: seq<Iteration>, at: seq<Cursor>, k: nat, c: Cursor)
    requires |its| == |at| && k < |its| && c.i + c.j == at[k].i + at[k].j + 1
    ensures Work(its, at[k := c]) == Work(its, at) - 1
  {
    if k == 0 {
      assert at[k := c][1..] == at[1..];
    } else {
      assert at[k := c][1..] == at[1..][k - 1 := c];
      WorkDecreases(its[1..], at[1..], k - 1, c);
    }
  }

  lemma {:induction false} WorkIsNat(its: seq<Iteration>, at: seq<Cursor>)
    requires |its| == |at| && forall k | 0 <= k < |its| :: at[k].i + at[k].j <= its[k].end - its[k].begin
    ensures Work(its, at) >= 0
  {
    if its != [] {
      WorkIsNat(its[1..], at[1..]);
    }
  }

  lemma {:induction false} WorkBounded(bound: TailBound, src: seq<int>, stale: seq<int>, its: seq<Iteration>, st: State)
    requires Inv(bound, src, stale, its, st)
    ensures Work(its, st.at) >= 0
  {
    hide Written, Progress;
    forall k | 0 <= k < |its|
      ensures st.at[k].i + st.at[k].j <= its[k].end - its[k].begin
    {
      assert Underway(bound, src, stale, its[k], st.at[k], st.out);
    }
    WorkIsNat(its, st.at);
  }

  lemma {:induction false} StepWorks(bound: TailBound, src: seq<int>, stale: seq<int>, its: seq<Iteration>, st: State,
                                     k: nat)
    requires Inv(bound, src, stale, its, st) && k < |its|
    requires !Exhausted(bound, Part1(src, its[k]), Part2(src, its[k]), st.at[k])
    ensures var st' := StepOf(bound, src, its, st, k);
            Inv(bound, src, stale, its, st') && Work(its, st'.at) == Work(its, st.at) - 1
  {
    hide Written, Progress;
    StepInv(bound, src, stale, its, st, k);
    assert Underway(bound, src, stale, its[k], st.at[k], st.out);
    var st' := StepOf(bound, src, its, st, k);
    WorkDecreases(its, st.at, k, st'.at[k]);
  }

  ghost predicate FinishesBy(bound: TailBound, src: seq<int>, stale: seq<int>, its: seq<Iteration>, st: State,
                             schedule: seq<nat>)
    requires Inv(bound, src, stale, its, st)
  {
    && (forall q | 0 <= q < |schedule| :: schedule[q] < |its|)
    && Finished(bound, src, its, Execute(bound, src, stale, its, st, schedule))
  }

  lemma FinishesFirst(bound: TailBound, src: seq<int>, stale: seq<int>, its: seq<Iteration>, st: State, k: nat,
                      rest: seq<nat>)
    requires Inv(bound, src, stale, its, st) && k < |its| && Inv(bound, src, stale, its, StepOf(bound, src, its, st, k))
    requires FinishesBy(bound, src, stale, its, StepOf(bound, src, its, st, k), rest)
    ensures FinishesBy(bound, src, stale, its, st, [k] + rest)
  {
    hide Written, Progress, StepOf, Inv;
    assert ([k] + rest)[1..] == rest;
  }

  /** Either all iterations have finished or some step leaves less work. */
  lemma FinishedOrStep(bound: TailBound, src: seq<int>, stale: seq<int>, its: seq<Iteration>, st: State)
    returns (k: nat)
    requires Inv(bound, src, stale, its, st)
    ensures k == |its| ==> FinishesBy(bound, src, stale, its, st, [])
    ensures k < |its| ==> var st' := StepOf(bound, src, its, st, k);
                          Inv(bound, src, stale, its, st') && Work(its, st'.at) == Work(its, st.at) - 1
    ensures k <= |its|
  {
    if Finished(bound, src, its, st) {
      k := |its|;
    } else {
      k :| k < |its| && !Exhausted(bound, Part1(src, its[k]), Part2(src, its[k]), st.at[k]);
      StepWorks(bound, src, stale, its, st, k);
    }
  }

  /** From every reachable state some schedule finishes; none can go on for ever, since
      every step of an unfinished iteration leaves less work. */
  lemma {:induction false} SomeScheduleFinishes(bound: TailBound, src: seq<int>, stale: seq<int>, its: seq<Iteration>,
                                                st: State)
    returns (schedule: seq<nat>)
    requires Inv(bound, src, stale, its, st)
    ensures FinishesBy(bound, src, stale, its, st, schedule)
    decreases Work(its, st.at)
  {
    hide Work, FinishesBy, StepOf;
    WorkBounded(bound, src, stale, its, st);
    var k := FinishedOrStep(bound, src, stale, its, st);
    if k == |its| {
      schedule := [];
    } else {
      var rest := SomeScheduleFinishes(bound, src, stale, its, StepOf(bound, src, its, st, k));
      schedule := [k] + rest;
      FinishesFirst(bound, src, stale, its, st, k, rest);
    }
  }

  // ----- all passes -----

  /** A parallel pass from src into a buffer that held stale, with this schedule, ends
      and leaves out. */
  ghost predicate PassInParallel(bound: TailBound, src: seq<int>, stale: seq<int>, s: nat, schedule: seq<nat>,
                                 out: seq<int>)
    requires s > 0
  {
    var its, start := Iterations(|src|, s, 0), Start(|src|, s, stale);
    && |stale| == |src| == |out|
    && (forall q | 0 <= q < |schedule| :: schedule[q] < |its|)
    && Inv(bound, src, stale, its, start)
    && var st := Execute(bound, src, stale, its, start, schedule);
       Finished(bound, src, its, st) && st.out == out
  }

  /** The parallel sort, with one schedule for each pass, ends with result in the
      current buffer. */
  ghost predicate SortInParallel(bound: TailBound, current: seq<int>, other: seq<int>, s: nat, schedules: seq<seq<nat>>,
                                 result: seq<int>)
    requires s > 0
    decreases |schedules|
  {
    if s >= |current| then schedules == [] && result == current
    else
      schedules != [] && exists out ::
        PassInParallel(bound, current, other, s, schedules[0], out) &&
        SortInParallel(bound, out, current, 2 * s, schedules[1..], result)
  }

  lemma {:induction false} PassInParallelIsPass(bound: TailBound, src: seq<int>, stale: seq<int>, s: nat,
                                                schedule: seq<nat>,
                                                out: seq<int>)
    requires s > 0 && PassInParallel(bound, src, stale, s, schedule, out)
    ensures |stale| == |src| && out == Pass(bound, src, stale, s)
  {
    AnyScheduleIsThePass(bound, src, stale, s, schedule);
  }

  lemma {:induction false} SortInParallelIsSort(bound: TailBound, current: seq<int>, other: seq<int>, s: nat,
                                                schedules: seq<seq<nat>>, result: seq<int>)
    requires s > 0 && |other| == |current| && SortInParallel(bound, current, other, s, schedules, result)
    ensures result == Sort(bound, current, other, s)
    decreases |schedules|
  {
    hide PassInParallel, Pass;
    if s < |current| {
      var out :| PassInParallel(bound, current, other, s, schedules[0], out) &&
                 SortInParallel(bound, out, current, 2 * s, schedules[1..], result);
      PassInParallelIsPass(bound, current, other, s, schedules[0], out);
      SortInParallelIsSort(bound, out, current, 2 * s, schedules[1..], result);
    }
  }

  /** Whatever the schedules of its passes, the parallel sort leaves what the sequential
      one leaves, with the intended bound a sorted permutation of the input. */
  lemma {:induction false} AnySchedulesSort(bound: TailBound, xs: seq<int>, other: seq<int>, schedules: seq<seq<nat>>,
                                            result: seq<int>)
    requires |other| == |xs| && SortInParallel(bound, xs, other, 1, schedules, result)
    ensures result == Sort(bound, xs, other, 1)
    ensures bound == Part2End ==> SortedPermutation(result, xs)
  {
    SortInParallelIsSort(bound, xs, other, 1, schedules, result);
    SortCorrect(xs, other);
  }

  /** There are such schedules, for every input. */
  lemma {:induction false} SomeSchedulesSort(bound: TailBound, current: seq<int>, other: seq<int>, s: nat)
    returns (schedules: seq<seq<nat>>)
    requires s > 0 && |other| == |current|
    ensures SortInParallel(bound, current, other, s, schedules, Sort(bound, current, other, s))
    decreases |current| - s
  {
    if s >= |current| {
      schedules := [];
    } else {
      hide Pass, Execute, Iterations, Finished;
      StartInv(bound, current, other, s);
      var its, start := Iterations(|current|, s, 0), Start(|current|, s, other);
      var first := SomeScheduleFinishes(bound, current, other, its, start);
      AnyScheduleIsThePass(bound, current, other, s, first);
      var out := Pass(bound, current, other, s);
      var rest := SomeSchedulesSort(bound, out, current, 2 * s);
      schedules := [first] + rest;
      assert schedules[0] == first && schedules[1..] == rest;
      assert PassInParallel(bound, current, other, s, first, out);
      hide PassInParallel;
    }
  }
}

/** What the bottom-up merge sort computes, on sequences. */
module MergeSpec {
  import opened Basics

  /** Where the loop that appends what remains of part 2 stops.  The intent is part
      2's end; the program as written stops at part 1's end, and since part 2 lies
      after part 1 it appends nothing.  Were part 1's end among part 2's indexes, it
      would stop that many elements short of part 2's end. */
  datatype TailBound = Part2End | Part1End | ShortOf(missed: nat)

  /** The bounds that the loop is written with, or meant to be. */
  type LoopBound = b: TailBound | !b.ShortOf? witness Part2End

  /** How many of the last left elements of part 2 the loop appends. */
  function Reach(bound: TailBound, left: nat): (n: nat)
    ensures n <= left
  {
    match bound
    case Part2End => left
    case Part1End => 0
    case ShortOf(missed) => if missed < left then left - missed else 0
  }

  ghost predicate Sorted(xs: seq<int>)
  {
    forall i, j | 0 <= i < j < |xs| :: xs[i] <= xs[j]
  }

  ghost predicate SortedPermutation(xs: seq<int>, ys: seq<int>)
  {
    Sorted(xs) && multiset(xs) == multiset(ys)
  }

  /** The elements merge writes for the parts a and b, in the order it writes them. */
  function Written(bound: TailBound, a: seq<int>, b: seq<int>): (w: seq<int>)
    ensures |w| <= |a| + |b|
    ensures bound == Part2End ==> |w| == |a| + |b|
    decreases |a| + |b|
  {
    if a == [] then b[..Reach(bound, |b|)]
    else if b == [] then a
    else if a[0] <= b[0] then [a[0]] + Written(bound, a[1..], b)
    else [b[0]] + Written(bound, a, b[1..])
  }

  /** The output part after merge, which held stale before. */
  function Merged(bound: TailBound, a: seq<int>, b: seq<int>, stale: seq<int>): (r: seq<int>)
    requires |stale| == |a| + |b|
    ensures |r| == |stale|
  {
    var w := Written(bound, a, b);
    w + stale[|w|..]
  }

  /** i elements of a and j of b have been written; the rest is still to come. */
  ghost predicate Progress(bound: TailBound, a: seq<int>, b: seq<int>, i: nat, j: nat)
  {
    && i <= |a| && j <= |b| && i + j <= |Written(bound, a, b)|
    && Written(bound, a[i..], b[j..]) == Written(bound, a, b)[i + j..]
  }

  /** Which part the next element comes from. */
  predicate TakesFirst(a: seq<int>, b: seq<int>, i: nat, j: nat)
    requires i <= |a| && j <= |b|
  {
    i < |a| && (j == |b| || a[i] <= b[j])
  }

  /** Taking the next element makes progress. */
  lemma {:induction false} ProgressStep(bound: TailBound, a: seq<int>, b: seq<int>, i: nat, j: nat)
    requires Progress(bound, a, b, i, j)
    ensures TakesFirst(a, b, i, j) ==>
              i + j < |Written(bound, a, b)| && Written(bound, a, b)[i + j] == a[i] && Progress(bound, a, b, i + 1, j)
    ensures !TakesFirst(a, b, i, j) && j < |b| && (i < |a| || Reach(bound, |b| - j) > 0) ==>
              i + j < |Written(bound, a, b)| && Written(bound, a, b)[i + j] == b[j] && Progress(bound, a, b, i, j + 1)
    ensures i == |a| && Reach(bound, |b| - j) == 0 ==> i + j == |Written(bound, a, b)|
  {
    var full := Written(bound, a, b);
    if TakesFirst(a, b, i, j) {
      assert a[i..][1..] == a[i + 1..] && b[j..][0..] == b[j..];
      assert full[i + j..] == [a[i]] + Written(bound, a[i + 1..], b[j..]);
      assert full[i + j..][1..] == full[i + j + 1..];
    } else if j < |b| && (i < |a| || Reach(bound, |b| - j) > 0) {
      assert b[j..][1..] == b[j + 1..];
      assert full[i + j..] == [b[j]] + Written(bound, a[i..], b[j + 1..]);
      assert full[i + j..][1..] == full[i + j + 1..];
    }
  }

  /** How many elements of each part have been written. */
  datatype Cursor = Cursor(i: nat, j: nat)

  /** One round of merge's loops at c writes x and goes on at c'. */
  ghost predicate Writes(bound: TailBound, a: seq<int>, b: seq<int>, c: Cursor, x: int, c': Cursor)
  {
    && c.i <= |a| && c.j <= |b|
    && if TakesFirst(a, b, c.i, c.j) then x == a[c.i] && c' == Cursor(c.i + 1, c.j)
       else c.j < |b| && (c.i < |a| || Reach(bound, |b| - c.j) > 0) && x == b[c.j] && c' == Cursor(c.i, c.j + 1)
  }

  /** The loops stop at c. */
  ghost predicate Exhausted(bound: TailBound, a: seq<int>, b: seq<int>, c: Cursor)
  {
    c.i == |a| && c.j <= |b| && Reach(bound, |b| - c.j) == 0
  }

  /** The rounds of merge's loops write w and visit the cursors of tr. */
  ghost predicate IsTrace(bound: TailBound, a: seq<int>, b: seq<int>, w: seq<int>, tr: seq<Cursor>)
  {
    && |tr| == |w| + 1 && tr[0] == Cursor(0, 0)
    && (forall n | 0 <= n < |w| :: tr[n].i + tr[n].j == n && Writes(bound, a, b, tr[n], w[n], tr[n + 1]))
    && tr[|w|].i + tr[|w|].j == |w| && Exhausted(bound, a, b, tr[|w|])
  }

  lemma TraceAt(bound: TailBound, a: seq<int>, b: seq<int>, w: seq<int>, tr: seq<Cursor>, n: nat)
    requires IsTrace(bound, a, b, w, tr) && n <= |w|
    ensures tr[n].i + tr[n].j == n && tr[n].i <= |a| && tr[n].j <= |b|
    ensures n < |w| ==> Writes(bound, a, b, tr[n], w[n], tr[n + 1])
    ensures n == |w| <==> Exhausted(bound, a, b, tr[n])
  {
    if n < |w| {
      assert Writes(bound, a, b, tr[n], w[n], tr[n + 1]);
    }
  }

  /** The part of a trace from c on. */
  ghost predicate IsTraceFrom(bound: TailBound, a: seq<int>, b: seq<int>, w: seq<int>, c: Cursor, tr: seq<Cursor>)
  {
    var n := c.i + c.j;
    && n <= |w| && |tr| == |w| - n + 1 && tr[0] == c
    && (forall k | 0 <= k < |tr| - 1 :: tr[k].i + tr[k].j == n + k && Writes(bound, a, b, tr[k], w[n + k], tr[k + 1]))
    && tr[|tr| - 1].i + tr[|tr| - 1].j == |w| && Exhausted(bound, a, b, tr[|tr| - 1])
  }

  lemma TraceLonger(bound: TailBound, a: seq<int>, b: seq<int>, w: seq<int>, c: Cursor, c': Cursor, tr: seq<Cursor>)
    requires IsTraceFrom(bound, a, b, w, c', tr) && c'.i + c'.j == c.i + c.j + 1
    requires Writes(bound, a, b, c, w[c.i + c.j], c')
    ensures IsTraceFrom(bound, a, b, w, c, [c] + tr)
  {
    hide Writes;
    var n, tr' := c.i + c.j, [c] + tr;
    forall k | 0 <= k < |tr'| - 1
      ensures tr'[k].i + tr'[k].j == n + k && Writes(bound, a, b, tr'[k], w[n + k], tr'[k + 1])
    {
      if k > 0 {
        var l := k - 1;
        assert tr'[k] == tr[l] && tr'[k + 1] == tr[l + 1] && n + 1 + l == n + k;
      }
    }
  }

  lemma {:induction false} TraceFrom(bound: TailBound, a: seq<int>, b: seq<int>, i: nat, j: nat)
    returns (tr: seq<Cursor>)
    requires Progress(bound, a, b, i, j)
    ensures IsTraceFrom(bound, a, b, Written(bound, a, b), Cursor(i, j), tr)
    decreases |a| - i + (|b| - j)
  {
    ProgressStep(bound, a, b, i, j);
    var w := Written(bound, a, b);
    if TakesFirst(a, b, i, j) {
      tr := TraceFrom(bound, a, b, i + 1, j);
      hide IsTraceFrom, Written;
      TraceLonger(bound, a, b, w, Cursor(i, j), Cursor(i + 1, j), tr);
      tr := [Cursor(i, j)] + tr;
    } else if j < |b| && (i < |a| || Reach(bound, |b| - j) > 0) {
      tr := TraceFrom(bound, a, b, i, j + 1);
      hide IsTraceFrom, Written;
      TraceLonger(bound, a, b, w, Cursor(i, j), Cursor(i, j + 1), tr);
      tr := [Cursor(i, j)] + tr;
    } else {
      tr := [Cursor(i, j)];
    }
  }

  /** The loops write exactly Written. */
  lemma Trace(bound: TailBound, a: seq<int>, b: seq<int>) returns (tr: seq<Cursor>)
    ensures IsTrace(bound, a, b, Written(bound, a, b), tr)
  {
    assert a[0..] == a && b[0..] == b && Written(bound, a, b)[0..] == Written(bound, a, b);
    tr := TraceFrom(bound, a, b, 0, 0);
  }

  /** One pass over xs, merging neighbouring blocks of size s into stale. */
  function Pass(bound: TailBound, xs: seq<int>, stale: seq<int>, s: nat): (r: seq<int>)
    requires s > 0 && |stale| == |xs|
    ensures |r| == |xs|
  {
    if xs == [] then []
    else
      var m, e := Min(s, |xs|), Min(2 * s, |xs|);
      Merged(bound, xs[..m], xs[m..e], stale[..e]) + Pass(bound, xs[e..], stale[e..], s)
  }

  /** cur is stale with the first d elements of the pass in place. */
  ghost predicate PassedUpTo(bound: TailBound, xs: seq<int>, stale: seq<int>, s: nat, d: nat, cur: seq<int>)
    requires s > 0
  {
    && d <= |xs| == |stale| == |cur|
    && cur[d..] == stale[d..]
    && cur[..d] + Pass(bound, xs[d..], stale[d..], s) == Pass(bound, xs, stale, s)
  }

  lemma Slices(xs: seq<int>, d: nat, m: nat, e: nat)
    requires d <= m <= e <= |xs|
    ensures xs[d..][..m - d] == xs[d..m] && xs[d..][m - d..e - d] == xs[m..e]
    ensures xs[d..][e - d..] == xs[e..] && xs[d..][..e - d] == xs[d..e]
  {
  }

  lemma {:induction false} PassUnfold(bound: TailBound, xs: seq<int>, stale: seq<int>, s: nat, d: nat, m: nat, e: nat)
    requires s > 0 && |stale| == |xs| && d < |xs| && m == Min(d + s, |xs|) && e == Min(d + 2 * s, |xs|)
    ensures Pass(bound, xs[d..], stale[d..], s)
         == Merged(bound, xs[d..m], xs[m..e], stale[d..e]) + Pass(bound, xs[e..], stale[e..], s)
  {
    hide Pass, Merged;
    Slices(xs, d, m, e);
    Slices(stale, d, m, e);
    PassDefinition(bound, xs[d..], stale[d..], s, m - d, e - d);
  }

  lemma {:induction false} PassDefinition(bound: TailBound, xs: seq<int>, stale: seq<int>, s: nat, m: nat, e: nat)
    requires s > 0 && |stale| == |xs| && xs != [] && m == Min(s, |xs|) && e == Min(2 * s, |xs|)
    ensures Pass(bound, xs, stale, s)
         == Merged(bound, xs[..m], xs[m..e], stale[..e]) + Pass(bound, xs[e..], stale[e..], s)
  {
    hide Merged;
  }

  /** cur' is cur after the merge of the two blocks at d. */
  ghost predicate Round(bound: TailBound, xs: seq<int>, s: nat, d: nat, cur: seq<int>, cur': seq<int>)
  {
    && d < |xs| == |cur| == |cur'|
    && var m, e := Min(d + s, |xs|), Min(d + 2 * s, |xs|);
       cur'[..d] == cur[..d] && cur'[d..e] == Merged(bound, xs[d..m], xs[m..e], cur[d..e]) && cur'[e..] == cur[e..]
  }

  /** One more round of the pass. */
  lemma PassRound(bound: TailBound, xs: seq<int>, stale: seq<int>, s: nat, d: nat, cur: seq<int>, cur': seq<int>)
    requires s > 0 && PassedUpTo(bound, xs, stale, s, d, cur) && Round(bound, xs, s, d, cur, cur')
    ensures PassedUpTo(bound, xs, stale, s, Min(d + 2 * s, |xs|), cur')
  {
    var e := Min(d + 2 * s, |xs|);
    Slices(cur, d, e, e);
    Slices(stale, d, e, e);
    PassUnfold(bound, xs, stale, s, d, Min(d + s, |xs|), e);
    Regroup(cur', d, e, Pass(bound, xs[e..], stale[e..], s));
  }

  lemma Regroup(cur: seq<int>, d: nat, e: nat, rest: seq<int>)
    requires d <= e <= |cur|
    ensures cur[..d] + (cur[d..e] + rest) == cur[..e] + rest
  {
  }

  lemma {:induction false} PassedAll(bound: TailBound, xs: seq<int>, stale: seq<int>, s: nat, cur: seq<int>)
    requires s > 0 && PassedUpTo(bound, xs, stale, s, |xs|, cur)
    ensures cur == Pass(bound, xs, stale, s)
  {
    assert xs[|xs|..] == [] && cur[..|xs|] == cur;
  }

  lemma PassStarts(bound: TailBound, xs: seq<int>, stale: seq<int>, s: nat)
    requires s > 0 && |stale| == |xs|
    ensures PassedUpTo(bound, xs, stale, s, 0, stale)
  {
    assert xs[0..] == xs && stale[0..] == stale && stale[..0] == [];
  }

  /** All passes from block size s on: the content of the current buffer at the end. */
  function Sort(bound: TailBound, current: seq<int>, other: seq<int>, s: nat): (r: seq<int>)
    requires s > 0 && |other| == |current|
    ensures |r| == |current|
    decreases |current| - s
  {
    if s >= |current| then current
    else Sort(bound, Pass(bound, current, other, s), current, 2 * s)
  }

  lemma {:induction false} SortOnce(bound: TailBound, current: seq<int>, other: seq<int>, s: nat)
    requires 0 < s < |current| == |other|
    ensures Sort(bound, current, other, s) == Sort(bound, Pass(bound, current, other, s), current, 2 * s)
  {
  }

  lemma {:induction false} SortDone(bound: TailBound, current: seq<int>, other: seq<int>, s: nat)
    requires s > 0 && s >= |current| == |other|
    ensures Sort(bound, current, other, s) == current
  {
  }

  // ----- the intended bound sorts -----

  ghost predicate AllLeq(x: int, ys: seq<int>)
  {
    forall i | 0 <= i < |ys| :: x <= ys[i]
  }

  lemma SortedCons(x: int, ys: seq<int>, zs: seq<int>)
    requires SortedPermutation(ys, zs) && AllLeq(x, zs)
    ensures SortedPermutation([x] + ys, [x] + zs)
  {
    forall i | 0 <= i < |ys|
      ensures x <= ys[i]
    {
      assert ys[i] in multiset(zs);
      assert ys[i] in zs;
    }
  }

  lemma MoveToFront(a: seq<int>, b: seq<int>)
    requires b != []
    ensures multiset(a + b) == multiset([b[0]] + (a + b[1..]))
  {
    assert b == [b[0]] + b[1..];
  }

  lemma {:induction false} WrittenIntended(a: seq<int>, b: seq<int>)
    ensures Written(Part2End, a, b)
         == if a == [] then b else if b == [] then a
            else if a[0] <= b[0] then [a[0]] + Written(Part2End, a[1..], b) else [b[0]] + Written(Part2End, a, b[1..])
  {
    assert b[..|b|] == b;
  }

  /** With the intended bound merge writes a sorted permutation of its two parts. */
  lemma {:induction false} WrittenSorts(a: seq<int>, b: seq<int>)
    requires Sorted(a) && Sorted(b)
    ensures SortedPermutation(Written(Part2End, a, b), a + b)
    decreases |a| + |b|
  {
    WrittenIntended(a, b);
    hide Written;
    if a == [] {
      assert a + b == b;
    } else if b == [] {
      assert a + b == a;
    } else if a[0] <= b[0] {
      WrittenSorts(a[1..], b);
      assert a + b == [a[0]] + (a[1..] + b);
      SortedCons(a[0], Written(Part2End, a[1..], b), a[1..] + b);
    } else {
      WrittenSorts(a, b[1..]);
      MoveToFront(a, b);
      SortedCons(b[0], Written(Part2End, a, b[1..]), a + b[1..]);
    }
  }

  /** The consecutive blocks of size s are sorted; the last one may be shorter. */
  ghost predicate SortedBlocks(xs: seq<int>, s: nat)
    requires s > 0
  {
    xs == [] || (Sorted(xs[..Min(s, |xs|)]) && SortedBlocks(xs[Min(s, |xs|)..], s))
  }

  /** Cuts xs into the two parts and the rest that a round works on. */
  lemma CutRound(xs: seq<int>, s: nat)
    requires s > 0 && xs != []
    ensures var m, e := Min(s, |xs|), Min(2 * s, |xs|);
            && xs == xs[..m] + xs[m..e] + xs[e..] && 0 < m <= e
            && (m == s || (m < s && e == m == |xs|))
            && (e - m == s || (e - m < s && e == |xs|))
  {
  }

  lemma {:induction false} BlocksRound(xs: seq<int>, s: nat)
    requires s > 0 && xs != [] && SortedBlocks(xs, s)
    ensures var m, e := Min(s, |xs|), Min(2 * s, |xs|);
            Sorted(xs[..m]) && Sorted(xs[m..e]) && SortedBlocks(xs[e..], s)
  {
    var m, e := Min(s, |xs|), Min(2 * s, |xs|);
    assert xs[m..][..Min(s, |xs[m..]|)] == xs[m..e];
    assert xs[m..][Min(s, |xs[m..]|)..] == xs[e..];
  }

  lemma {:induction false} BlocksCons(w: seq<int>, rest: seq<int>, s: nat)
    requires s > 0 && Sorted(w) && SortedBlocks(rest, s)
    requires 0 < |w| && (|w| == s || (|w| < s && rest == []))
    ensures SortedBlocks(w + rest, s)
  {
    assert (w + rest)[..Min(s, |w + rest|)] == w;
    assert (w + rest)[Min(s, |w + rest|)..] == rest;
  }

  /** A pass turns sorted blocks of size s into sorted blocks of size 2s, ragged or
      missing last blocks included, and permutes the elements. */
  lemma {:induction false} PassDoubles(xs: seq<int>, stale: seq<int>, s: nat)
    requires s > 0 && |stale| == |xs| && SortedBlocks(xs, s)
    ensures SortedBlocks(Pass(Part2End, xs, stale, s), 2 * s)
    ensures multiset(Pass(Part2End, xs, stale, s)) == multiset(xs)
  {
    if xs != [] {
      CutRound(xs, s);
      BlocksRound(xs, s);
      var m, e := Min(s, |xs|), Min(2 * s, |xs|);
      WrittenSorts(xs[..m], xs[m..e]);
      PassDoubles(xs[e..], stale[e..], s);
      var w := Written(Part2End, xs[..m], xs[m..e]);
      assert Merged(Part2End, xs[..m], xs[m..e], stale[..e]) == w;
      BlocksCons(w, Pass(Part2End, xs[e..], stale[e..], s), 2 * s);
    }
  }

  lemma {:induction false} OneBlock(xs: seq<int>, s: nat)
    requires s >= |xs| && s > 0 && SortedBlocks(xs, s)
    ensures Sorted(xs)
  {
    assert xs[..|xs|] == xs;
  }

  lemma {:induction false} UnitBlocks(xs: seq<int>)
    ensures SortedBlocks(xs, 1)
  {
    if xs != [] {
      UnitBlocks(xs[1..]);
    }
  }

  lemma {:induction false} SortSorts(xs: seq<int>, other: seq<int>, s: nat)
    requires s > 0 && |other| == |xs| && SortedBlocks(xs, s)
    ensures SortedPermutation(Sort(Part2End, xs, other, s), xs)
    decreases |xs| - s
  {
    if s >= |xs| {
      OneBlock(xs, s);
    } else {
      PassDoubles(xs, other, s);
      SortSorts(Pass(Part2End, xs, other, s), xs, 2 * s);
    }
  }

  /** For every input the program with the intended bound sorts. */
  lemma {:induction false} SortCorrect(xs: seq<int>, other: seq<int>)
    requires |other| == |xs|
    ensures SortedPermutation(Sort(Part2End, xs, other, 1), xs)
  {
    UnitBlocks(xs);
    SortSorts(xs, other, 1);
  }
}

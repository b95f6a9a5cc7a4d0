/** What the merge sort computes with the bound as it is written. */
module MergeAsWritten {
  import opened Basics
  import opened MergeSpec

  // ----- the bound as written -----

  /** The guard under which the loop as written loses nothing: part 2 runs out first. */
  predicate Part2RunsOut(a: seq<int>, b: seq<int>)
  {
    b == [] || (a != [] && b[|b| - 1] < a[|a| - 1])
  }

  lemma {:induction false} WrittenAll(a: seq<int>, b: seq<int>)
    requires Sorted(a) && Sorted(b)
    ensures |Written(Part1End, a, b)| == |a| + |b| <==> Part2RunsOut(a, b)
    ensures Part2RunsOut(a, b) ==> Written(Part1End, a, b) == Written(Part2End, a, b)
    decreases |a| + |b|
  {
    if a != [] && b != [] {
      if a[0] <= b[0] {
        WrittenAll(a[1..], b);
      } else {
        WrittenAll(a, b[1..]);
      }
    }
  }

  /** merge as written fills its output with a sorted permutation of its parts,
      whatever the output held before, exactly when part 2 runs out first. */
  lemma AsWrittenExactly(a: seq<int>, b: seq<int>)
    requires Sorted(a) && Sorted(b)
    ensures (forall stale | |stale| == |a| + |b| :: SortedPermutation(Merged(Part1End, a, b, stale), a + b))
            <==> Part2RunsOut(a, b)
  {
    WrittenAll(a, b);
    WrittenSorts(a, b);
    var w := Written(Part1End, a, b);
    if Part2RunsOut(a, b) {
      forall stale | |stale| == |a| + |b|
        ensures Merged(Part1End, a, b, stale) == w
      {
      }
    } else {
      var x := Above(a + b);
      var stale := seq(|a| + |b|, _ => x);
      var r := Merged(Part1End, a, b, stale);
      assert r[|r| - 1] == x;
      assert x in multiset(r);
    }
  }

  ghost function Above(xs: seq<int>): (x: int)
    ensures x !in xs
    ensures forall y | y in xs :: y < x
  {
    if xs == [] then 0
    else
      var r := Above(xs[1..]);
      assert forall y | y in xs :: y == xs[0] || y in xs[1..];
      if r > xs[0] then r else xs[0] + 1
  }

  /** A concrete input the program as written does not sort. */
  lemma AsWrittenFails()
    ensures Sort(Part1End, [1, 2], [7, 7], 1) == [1, 7]
  {
    assert [1, 2][..1] == [1] && [1, 2][1..2] == [2] && [1, 2][2..] == [];
    assert Written(Part1End, [1], [2]) == [1] + Written(Part1End, [], [2]);
    assert [7, 7][..2] == [7, 7];
    assert Pass(Part1End, [1, 2], [7, 7], 1) == [1, 7] + Pass(Part1End, [], [], 1);
    assert Sort(Part1End, [1, 7], [1, 2], 2) == [1, 7];
  }

  /** Every merge of a pass over xs has a part 2 that runs out first. */
  predicate AllRunOut(xs: seq<int>, s: nat)
    requires s > 0
  {
    xs == [] ||
    (var m, e := Min(s, |xs|), Min(2 * s, |xs|);
     Part2RunsOut(xs[..m], xs[m..e]) && AllRunOut(xs[e..], s))
  }

  lemma {:induction false} PassAsWritten(xs: seq<int>, stale: seq<int>, s: nat)
    requires s > 0 && |stale| == |xs| && SortedBlocks(xs, s) && AllRunOut(xs, s)
    ensures Pass(Part1End, xs, stale, s) == Pass(Part2End, xs, stale, s)
  {
    if xs != [] {
      var m, e := Min(s, |xs|), Min(2 * s, |xs|);
      assert xs[m..][..Min(s, |xs[m..]|)] == xs[m..e];
      assert xs[m..][Min(s, |xs[m..]|)..] == xs[e..];
      WrittenAll(xs[..m], xs[m..e]);
      PassAsWritten(xs[e..], stale[e..], s);
    }
  }

  lemma {:induction false} LeavesStale(xs: seq<int>, stale: seq<int>, s: nat, x: int)
    requires s > 0 && |stale| == |xs| && SortedBlocks(xs, s) && !AllRunOut(xs, s)
    requires forall k | 0 <= k < |stale| :: stale[k] == x
    ensures x in Pass(Part1End, xs, stale, s)
  {
    var m, e := Min(s, |xs|), Min(2 * s, |xs|);
    BlocksRound(xs, s);
    WrittenAll(xs[..m], xs[m..e]);
    var w, first := Written(Part1End, xs[..m], xs[m..e]), Merged(Part1End, xs[..m], xs[m..e], stale[..e]);
    if Part2RunsOut(xs[..m], xs[m..e]) {
      LeavesStale(xs[e..], stale[e..], s, x);
    } else {
      assert first[|w|] == stale[|w|];
      assert x in first;
    }
  }

  /** The pass as written does what PassDoubles says of the intended one. */
  ghost predicate DoublesAsWritten(xs: seq<int>, stale: seq<int>, s: nat)
    requires s > 0 && |stale| == |xs|
  {
    var r := Pass(Part1End, xs, stale, s);
    SortedBlocks(r, 2 * s) && multiset(r) == multiset(xs)
  }

  /** A pass as written turns sorted blocks of size s into a permutation with sorted
      blocks of size 2s, whatever the other buffer held, exactly when part 2 runs out
      first in each of its merges. */
  lemma {:induction false} PassAsWrittenExactly(xs: seq<int>, s: nat)
    requires s > 0 && SortedBlocks(xs, s)
    ensures (forall stale | |stale| == |xs| :: DoublesAsWritten(xs, stale, s)) <==> AllRunOut(xs, s)
  {
    hide Pass, AllRunOut, SortedBlocks;
    if AllRunOut(xs, s) {
      forall stale: seq<int> | |stale| == |xs|
        ensures DoublesAsWritten(xs, stale, s)
      {
        PassAsWritten(xs, stale, s);
        PassDoubles(xs, stale, s);
      }
    } else {
      var x := Above(xs);
      var stale := seq(|xs|, _ => x);
      LeavesStale(xs, stale, s, x);
      assert x in multiset(Pass(Part1End, xs, stale, s));
      assert !DoublesAsWritten(xs, stale, s);
    }
  }

  // ----- the bound as written, on the buffers as they are -----

  /** The elements of b from the first one on that is not below x. */
  function NotBelow(x: int, b: seq<int>): (r: seq<int>)
    ensures |r| <= |b|
  {
    if b == [] || b[0] >= x then b else NotBelow(x, b[1..])
  }

  /** What merge as written leaves out: the elements of part 2 that are not below the
      last one of part 1. */
  function Lost(a: seq<int>, b: seq<int>): (r: seq<int>)
    ensures |r| <= |b|
  {
    if a == [] then b else NotBelow(a[|a| - 1], b)
  }

  lemma {:induction false} WrittenAndLost(a: seq<int>, b: seq<int>)
    requires Sorted(a) && Sorted(b)
    ensures Written(Part2End, a, b) == Written(Part1End, a, b) + Lost(a, b)
    decreases |a| + |b|
  {
    WrittenIntended(a, b);
    if a != [] && b != [] {
      if a[0] <= b[0] {
        WrittenAndLost(a[1..], b);
      } else {
        WrittenAndLost(a, b[1..]);
      }
    }
  }

  /** The output already ends with what merge as written leaves out. */
  predicate InPlace(a: seq<int>, b: seq<int>, stale: seq<int>)
    requires |stale| == |a| + |b|
  {
    stale[|stale| - |Lost(a, b)|..] == Lost(a, b)
  }

  lemma HeadIsLeast(xs: seq<int>, ys: seq<int>)
    requires Sorted(xs) && multiset(xs) == multiset(ys) && ys != []
    ensures xs != [] && xs[0] <= ys[0]
  {
    assert ys[0] in multiset(xs);
    assert ys[0] in xs;
    var k :| 0 <= k < |xs| && xs[k] == ys[0];
  }

  lemma HeadOff(xs: seq<int>)
    requires xs != []
    ensures multiset(xs[1..]) == multiset(xs) - multiset{xs[0]}
  {
    assert xs == [xs[0]] + xs[1..];
  }

  lemma SortedTail(xs: seq<int>)
    requires Sorted(xs) && xs != []
    ensures Sorted(xs[1..])
  {
  }

  lemma {:induction false} SortedUnique(xs: seq<int>, ys: seq<int>)
    requires Sorted(xs) && Sorted(ys) && multiset(xs) == multiset(ys)
    ensures xs == ys
  {
    hide Sorted;
    assert |multiset(xs)| == |xs| && |multiset(ys)| == |ys|;
    if xs != [] {
      HeadIsLeast(xs, ys);
      HeadIsLeast(ys, xs);
      HeadOff(xs);
      HeadOff(ys);
      SortedTail(xs);
      SortedTail(ys);
      SortedUnique(xs[1..], ys[1..]);
      assert xs == [xs[0]] + xs[1..] && ys == [ys[0]] + ys[1..];
    }
  }

  lemma SameTails(w: seq<int>, u: seq<int>, v: seq<int>)
    ensures w + u == w + v <==> u == v
  {
    if w + u == w + v {
      assert u == (w + u)[|w|..] && v == (w + v)[|w|..];
    }
  }

  /** merge as written leaves a sorted permutation of its parts in an output that held
      stale if and only if what it leaves out is already in place. */
  lemma MergedExactly(a: seq<int>, b: seq<int>, stale: seq<int>)
    requires Sorted(a) && Sorted(b) && |stale| == |a| + |b|
    ensures SortedPermutation(Merged(Part1End, a, b, stale), a + b) <==> InPlace(a, b, stale)
    ensures InPlace(a, b, stale) ==> Merged(Part1End, a, b, stale) == Merged(Part2End, a, b, stale)
  {
    hide Written, Lost, Sorted;
    var w, whole, r := Written(Part1End, a, b), Written(Part2End, a, b), Merged(Part1End, a, b, stale);
    WrittenAndLost(a, b);
    WrittenSorts(a, b);
    SameTails(w, stale[|w|..], Lost(a, b));
    assert stale[|whole|..] == [];
    if SortedPermutation(r, a + b) {
      SortedUnique(r, whole);
    }
  }

  /** Each merge of a pass over xs finds in place what it leaves out. */
  predicate AllInPlace(xs: seq<int>, stale: seq<int>, s: nat)
    requires s > 0 && |stale| == |xs|
  {
    xs == [] ||
    (var m, e := Min(s, |xs|), Min(2 * s, |xs|);
     InPlace(xs[..m], xs[m..e], stale[..e]) && AllInPlace(xs[e..], stale[e..], s))
  }

  /** Each block of size 2s of r is a sorted permutation of the same block of xs. */
  ghost predicate PairsSorted(xs: seq<int>, r: seq<int>, s: nat)
    requires s > 0 && |r| == |xs|
  {
    xs == [] ||
    (var e := Min(2 * s, |xs|); SortedPermutation(r[..e], xs[..e]) && PairsSorted(xs[e..], r[e..], s))
  }

  lemma {:induction false} PairsCons(xs: seq<int>, first: seq<int>, rest: seq<int>, s: nat)
    requires s > 0 && xs != [] && |first| == Min(2 * s, |xs|) && |first| + |rest| == |xs|
    ensures var e := |first|;
            PairsSorted(xs, first + rest, s) <==> SortedPermutation(first, xs[..e]) && PairsSorted(xs[e..], rest, s)
  {
    hide SortedPermutation;
    var e := |first|;
    assert (first + rest)[..e] == first && (first + rest)[e..] == rest;
  }

  lemma {:induction false} AllInPlaceStep(xs: seq<int>, stale: seq<int>, s: nat)
    requires s > 0 && |stale| == |xs| && xs != []
    ensures var m, e := Min(s, |xs|), Min(2 * s, |xs|);
            AllInPlace(xs, stale, s) <==> InPlace(xs[..m], xs[m..e], stale[..e]) && AllInPlace(xs[e..], stale[e..], s)
  {
  }

  /** Each merge of a pass as written does its work if and only if it finds in place
      what it leaves out; the pass then is the intended one. */
  lemma {:induction false} PassInPlaceExactly(xs: seq<int>, stale: seq<int>, s: nat)
    requires s > 0 && |stale| == |xs| && SortedBlocks(xs, s)
    ensures PairsSorted(xs, Pass(Part1End, xs, stale, s), s) <==> AllInPlace(xs, stale, s)
    ensures AllInPlace(xs, stale, s) ==> Pass(Part1End, xs, stale, s) == Pass(Part2End, xs, stale, s)
    decreases |xs|
  {
    if xs != [] {
      hide Pass, Written, Merged, SortedBlocks, Sorted, InPlace, AllInPlace, PairsSorted, SortedPermutation;
      var m, e := Min(s, |xs|), Min(2 * s, |xs|);
      BlocksRound(xs, s);
      AllInPlaceStep(xs, stale, s);
      PassDefinition(Part1End, xs, stale, s, m, e);
      PassDefinition(Part2End, xs, stale, s, m, e);
      MergedExactly(xs[..m], xs[m..e], stale[..e]);
      PassInPlaceExactly(xs[e..], stale[e..], s);
      PairsCons(xs, Merged(Part1End, xs[..m], xs[m..e], stale[..e]), Pass(Part1End, xs[e..], stale[e..], s), s);
      assert xs[..m] + xs[m..e] == xs[..e];
    }
  }

  /** Each merge of each pass from block size s on finds in place what it leaves out.
      From the second pass on, the output buffer holds the input of the pass before. */
  ghost predicate AlwaysInPlace(xs: seq<int>, other: seq<int>, s: nat)
    requires s > 0 && |other| == |xs|
    decreases |xs| - s
  {
    s >= |xs| || (AllInPlace(xs, other, s) && AlwaysInPlace(Pass(Part2End, xs, other, s), xs, 2 * s))
  }

  /** Each merge of each pass of the program as written does its work. */
  ghost predicate EveryMergeSorts(xs: seq<int>, other: seq<int>, s: nat)
    requires s > 0 && |other| == |xs|
    decreases |xs| - s
  {
    s >= |xs| ||
    (var r := Pass(Part1End, xs, other, s); PairsSorted(xs, r, s) && EveryMergeSorts(r, xs, 2 * s))
  }

  /** For every input and every content of the other buffer, each merge of the program
      as written does its work if and only if it finds in place what it leaves out. */
  lemma {:induction false} EveryMergeSortsExactly(xs: seq<int>, other: seq<int>, s: nat)
    requires s > 0 && |other| == |xs| && SortedBlocks(xs, s)
    ensures EveryMergeSorts(xs, other, s) <==> AlwaysInPlace(xs, other, s)
    decreases |xs| - s
  {
    if s < |xs| {
      hide Pass, AllInPlace, PairsSorted, SortedBlocks;
      PassInPlaceExactly(xs, other, s);
      PassDoubles(xs, other, s);
      if AllInPlace(xs, other, s) {
        EveryMergeSortsExactly(Pass(Part2End, xs, other, s), xs, 2 * s);
      }
    }
  }

  /** Then the program as written sorts. */
  lemma {:induction false} AsWrittenSorts(xs: seq<int>, other: seq<int>, s: nat)
    requires s > 0 && |other| == |xs| && SortedBlocks(xs, s) && AlwaysInPlace(xs, other, s)
    ensures SortedPermutation(Sort(Part1End, xs, other, s), xs)
    decreases |xs| - s
  {
    if s >= |xs| {
      OneBlock(xs, s);
    } else {
      PassInPlaceExactly(xs, other, s);
      PassDoubles(xs, other, s);
      AsWrittenSorts(Pass(Part2End, xs, other, s), xs, 2 * s);
    }
  }

  /** When the passes before the last have done their work, the program as written sorts
      if and only if the last merge finds in place what it leaves out. */
  lemma {:induction false} LastPassExactly(xs: seq<int>, other: seq<int>, s: nat)
    requires 0 < s < |xs| <= 2 * s && |other| == |xs| && SortedBlocks(xs, s)
    ensures SortedPermutation(Sort(Part1End, xs, other, s), xs) <==> InPlace(xs[..s], xs[s..], other)
  {
    hide InPlace, Merged, SortedPermutation;
    BlocksRound(xs, s);
    MergedExactly(xs[..s], xs[s..], other);
    SortOnce(Part1End, xs, other, s);
    PassDefinition(Part1End, xs, other, s, s, |xs|);
    var r := Pass(Part1End, xs, other, s);
    SortDone(Part1End, r, xs, 2 * s);
    assert xs[s..|xs|] == xs[s..] && other[..|xs|] == other && xs[|xs|..] == [];
    assert xs[..s] + xs[s..] == xs;
    assert r == Merged(Part1End, xs[..s], xs[s..], other);
  }

  /** An input on which a merge leaves something out that is in place, whatever the
      other buffer held. */
  lemma {:induction false} ThreeInPlace(other: seq<int>)
    requires |other| == 3
    ensures !AllRunOut([1, 2, 3], 2)
    ensures AlwaysInPlace([2, 1, 3], other, 1) && Pass(Part2End, [2, 1, 3], other, 1) == [1, 2, 3]
  {
    var xs, ys := [2, 1, 3], [1, 2, 3];
    FirstOfThree(other);
    SecondOfThree();
    hide Pass, AllInPlace;
    assert AlwaysInPlace(Pass(Part2End, ys, xs, 2), ys, 4);
    assert AlwaysInPlace(ys, xs, 2);
  }

  lemma {:induction false} FirstOfThree(other: seq<int>)
    requires |other| == 3
    ensures AllInPlace([2, 1, 3], other, 1) && Pass(Part2End, [2, 1, 3], other, 1) == [1, 2, 3]
  {
    var xs := [2, 1, 3];
    assert xs[..1] == [2] && xs[1..2] == [1] && xs[2..] == [3];
    assert [3][..1] == [3] && [3][1..1] == [] && [3][1..] == [];
    assert Lost([2], [1]) == [] && Lost([3], []) == [];
    assert AllInPlace([3], other[2..], 1);
    assert Written(Part2End, [2], [1]) == [1, 2] && Written(Part2End, [3], []) == [3];
    hide Written;
    PassDefinition(Part2End, xs, other, 1, 1, 2);
    PassDefinition(Part2End, [3], other[2..], 1, 1, 1);
  }

  lemma SecondOfThree()
    ensures AllInPlace([1, 2, 3], [2, 1, 3], 2) && !AllRunOut([1, 2, 3], 2)
  {
    var xs, ys := [2, 1, 3], [1, 2, 3];
    assert ys[..2] == [1, 2] && ys[2..3] == [3] && ys[3..] == [] && xs[..3] == xs && xs[2..] == [3];
    assert Lost([1, 2], [3]) == [3];
  }

  /** Not every merge need do its work, though: what the merge of 3 and 4 loses is never
      read again. */
  lemma {:induction false} StaleMayCoincide(other: seq<int>)
    requires |other| == 4 && other[3] != 4
    ensures !AlwaysInPlace([2, 1, 3, 4], other, 1)
    ensures Sort(Part1End, [2, 1, 3, 4], other, 1) == [1, 2, 3, 4]
  {
    hide Pass, Written;
    var xs, ys := [2, 1, 3, 4], [1, 2, 3, other[3]];
    PassOfPairs(xs, other);
    SecondPass(other[3], xs);
    assert !AllInPlace(xs, other, 1) by {
      assert xs[2..] == [3, 4] && [3, 4][..1] == [3] && [3, 4][1..2] == [4];
      assert Lost([3], [4]) == [4] && other[2..][..2][1..] == [other[3]];
      assert !AllInPlace([3, 4], other[2..], 1);
    }
    SortOnce(Part1End, xs, other, 1);
    SortOnce(Part1End, ys, xs, 2);
    SortDone(Part1End, [1, 2, 3, 4], ys, 4);
  }

  lemma {:induction false} PassOfPairs(xs: seq<int>, stale: seq<int>)
    requires xs == [2, 1, 3, 4] && |stale| == 4
    ensures Pass(Part1End, xs, stale, 1) == [1, 2, 3, stale[3]]
  {
    assert Written(Part1End, [2], [1]) == [1, 2] by {
      assert Written(Part1End, [2], [1]) == [1] + Written(Part1End, [2], []);
    }
    assert Written(Part1End, [3], [4]) == [3] by {
      assert Written(Part1End, [3], [4]) == [3] + Written(Part1End, [], [4]);
    }
    hide Written;
    PassDefinition(Part1End, xs, stale, 1, 1, 2);
    PassDefinition(Part1End, xs[2..], stale[2..], 1, 1, 2);
    hide Pass;
    Halves(xs);
    assert Pass(Part1End, xs[2..][2..], stale[2..][2..], 1) == [];
    assert Merged(Part1End, xs[2..][..1], xs[2..][1..2], stale[2..][..2]) == [3, stale[3]];
    assert Merged(Part1End, xs[..1], xs[1..2], stale[..2]) == [1, 2];
  }

  lemma Halves(xs: seq<int>)
    requires |xs| == 4
    ensures xs[..1] == [xs[0]] && xs[1..2] == [xs[1]]
    ensures xs[2..][..1] == [xs[2]] && xs[2..][1..2] == [xs[3]]
    ensures xs[..2] == [xs[0], xs[1]] && xs[2..4] == [xs[2], xs[3]]
  {
  }

  lemma {:induction false} SecondPass(x: int, stale: seq<int>)
    requires stale == [2, 1, 3, 4]
    ensures Pass(Part1End, [1, 2, 3, x], stale, 2) == [1, 2, 3, 4]
  {
    var ys := [1, 2, 3, x];
    assert Written(Part1End, [1, 2], [3, x]) == [1, 2] by {
      assert [1, 2][1..] == [2] && [2][1..] == [];
      assert Written(Part1End, [2], [3, x]) == [2] + Written(Part1End, [], [3, x]);
      assert Written(Part1End, [1, 2], [3, x]) == [1] + Written(Part1End, [2], [3, x]);
    }
    hide Written;
    PassDefinition(Part1End, ys, stale, 2, 2, 4);
    hide Pass;
    Halves(ys);
    assert stale[..4] == stale && stale[2..] == [3, 4];
  }

  // ----- the program's own input: n, n - 1, ..., 1 -----

  /** xs is lo, lo + 1, lo + 2, ... */
  ghost predicate Ascends(xs: seq<int>, lo: int)
  {
    forall k | 0 <= k < |xs| :: xs[k] == lo + k
  }

  /** hi, hi - 1, ... after the passes up to block size s: each block ascends and is
      below the one before it. */
  ghost predicate DescendingBlocks(xs: seq<int>, hi: int, s: nat)
    requires s > 0
  {
    xs == [] || (var m := Min(s, |xs|); Ascends(xs[..m], hi - m + 1) && DescendingBlocks(xs[m..], hi - m, s))
  }

  lemma {:induction false} DescendingIsBlocks(xs: seq<int>, hi: int)
    requires forall k | 0 <= k < |xs| :: xs[k] == hi - k
    ensures DescendingBlocks(xs, hi, 1)
    decreases |xs|
  {
    if xs != [] {
      DescendingIsBlocks(xs[1..], hi - 1);
    }
  }

  lemma DescendingRound(xs: seq<int>, hi: int, s: nat)
    requires s > 0 && xs != [] && DescendingBlocks(xs, hi, s)
    ensures var m, e := Min(s, |xs|), Min(2 * s, |xs|);
            Ascends(xs[..m], hi - m + 1) && Ascends(xs[m..e], hi - e + 1) && DescendingBlocks(xs[e..], hi - e, s)
  {
    var m, e := Min(s, |xs|), Min(2 * s, |xs|);
    assert xs[m..][..Min(s, |xs[m..]|)] == xs[m..e];
    assert xs[m..][Min(s, |xs[m..]|)..] == xs[e..];
  }

  lemma {:induction false} DescendingCons(w: seq<int>, rest: seq<int>, hi: int, s: nat)
    requires s > 0 && Ascends(w, hi - |w| + 1) && DescendingBlocks(rest, hi - |w|, s)
    requires 0 < |w| && (|w| == s || (|w| < s && rest == []))
    ensures DescendingBlocks(w + rest, hi, s)
  {
    assert (w + rest)[..Min(s, |w + rest|)] == w;
    assert (w + rest)[Min(s, |w + rest|)..] == rest;
  }

  /** Merging a with b, all of which is smaller, as written. */
  lemma {:induction false} MergeBelow(a: seq<int>, b: seq<int>)
    requires a != [] && forall i, j | 0 <= i < |a| && 0 <= j < |b| :: b[j] < a[i]
    ensures Written(Part1End, a, b) == b + a
    decreases |b|
  {
    if b == [] {
      assert b + a == a;
    } else {
      MergeBelow(a, b[1..]);
      assert b + a == [b[0]] + (b[1..] + a);
    }
  }

  lemma {:induction false} PassDescending(xs: seq<int>, stale: seq<int>, hi: int, s: nat)
    requires s > 0 && |stale| == |xs| && DescendingBlocks(xs, hi, s)
    ensures DescendingBlocks(Pass(Part1End, xs, stale, s), hi, 2 * s)
    decreases |xs|
  {
    if xs != [] {
      CutRound(xs, s);
      DescendingRound(xs, hi, s);
      var m, e := Min(s, |xs|), Min(2 * s, |xs|);
      MergeDescending(xs[..m], xs[m..e], stale[..e], hi);
      PassDescending(xs[e..], stale[e..], hi - e, s);
      DescendingCons(Merged(Part1End, xs[..m], xs[m..e], stale[..e]),
                     Pass(Part1End, xs[e..], stale[e..], s), hi, 2 * s);
    }
  }

  lemma MergeDescending(a: seq<int>, b: seq<int>, stale: seq<int>, hi: int)
    requires a != [] && |stale| == |a| + |b|
    requires Ascends(a, hi - |a| + 1) && Ascends(b, hi - |a| - |b| + 1)
    ensures Ascends(Merged(Part1End, a, b, stale), hi - |a| - |b| + 1)
  {
    MergeBelow(a, b);
  }

  lemma {:induction false} SortDescending(xs: seq<int>, other: seq<int>, s: nat)
    requires s > 0 && |other| == |xs| && DescendingBlocks(xs, |xs|, s)
    ensures Ascends(Sort(Part1End, xs, other, s), 1)
    decreases |xs| - s
  {
    if s >= |xs| {
      assert xs[..|xs|] == xs;
    } else {
      PassDescending(xs, other, |xs|, s);
      SortDescending(Pass(Part1End, xs, other, s), xs, 2 * s);
    }
  }

  /** The program as written sorts the input it checks itself on, for every size. */
  lemma {:induction false} AsWrittenSortsDescending(xs: seq<int>, other: seq<int>)
    requires |other| == |xs| && forall k | 0 <= k < |xs| :: xs[k] == |xs| - k
    ensures Ascends(Sort(Part1End, xs, other, 1), 1)
  {
    DescendingIsBlocks(xs, |xs|);
    SortDescending(xs, other, 1);
  }
}

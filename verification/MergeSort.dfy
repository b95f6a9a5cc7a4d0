/** The bottom-up merge sort between two buffers. */
module MergeSort {
  import opened Basics
  import opened MergeSpec

  datatype MergeError = PartsIntersect | OutputIntersects | SizeMismatch

  /** An array with the address of its first element, counted in elements. */
  datatype Buffer = Buffer(address: nat, data: array<int>)

  datatype PartInfo = PartInfo(buffer: Buffer, begin: nat, size: nat) {
    function First(): nat { buffer.address + begin }

    function End(): nat { begin + size }

    /** Only parts with elements have to lie inside their array. */
    predicate InBounds() { size > 0 ==> End() <= buffer.data.Length }

    ghost function Elements(): seq<int>
      requires InBounds()
      reads buffer.data
    {
      if size == 0 then [] else buffer.data[begin..End()]
    }
  }

  // ----- intersection -----

  predicate Intersect(part1: PartInfo, part2: PartInfo)
  {
    || (part1.First() <= part2.First() < part1.First() + part1.size)
    || (part2.First() <= part1.First() < part2.First() + part2.size)
  }

  ghost predicate Holds(p: PartInfo, address: nat)
  {
    p.First() <= address < p.First() + p.size
  }

  /** Two non-empty parts intersect exactly when they share an address; an empty part
      intersects what it begins inside of. */
  lemma IntersectMeaning(p: PartInfo, q: PartInfo)
    ensures p.size > 0 && q.size > 0 ==> (Intersect(p, q) <==> exists a :: Holds(p, a) && Holds(q, a))
    ensures p.size == 0 ==> (Intersect(p, q) <==> Holds(q, p.First()))
    ensures Intersect(p, q) == Intersect(q, p)
  {
    if p.size > 0 && q.size > 0 && Intersect(p, q) {
      var a := if p.First() <= q.First() then q.First() else p.First();
      assert Holds(p, a) && Holds(q, a);
    }
  }

  // ----- merge -----

  function MergeCheck(part1: PartInfo, part2: PartInfo, res: PartInfo): Option<MergeError>
  {
    if Intersect(part1, part2) then Some(PartsIntersect)
    else if Intersect(part1, res) || Intersect(part2, res) then Some(OutputIntersects)
    else if res.size != part1.size + part2.size then Some(SizeMismatch)
    else None
  }

  /** One array has one address. */
  ghost predicate Coherent(b: Buffer, c: Buffer)
  {
    b.data == c.data ==> b.address == c.address
  }

  /** Where the last loop stops, as seen from part 2. */
  function Tail(bound: LoopBound, part1: PartInfo, part2: PartInfo): TailBound
    requires bound == Part1End ==> part1.End() <= part2.End()
  {
    if bound == Part1End && part2.begin < part1.End() then ShortOf(part2.End() - part1.End()) else bound
  }

  /** Merges two sorted parts into res.  The bound says where the last loop stops; beyond
      part 2's end it would read what is not of part 2, and write beyond the output. */
  method Merge(bound: LoopBound, part1: PartInfo, part2: PartInfo, res: PartInfo) returns (e: Option<MergeError>)
    requires Coherent(part1.buffer, res.buffer) && Coherent(part2.buffer, res.buffer)
    requires MergeCheck(part1, part2, res) == None ==>
               && part1.InBounds() && part2.InBounds() && res.InBounds()
               && (bound == Part1End ==> part1.End() <= part2.End())
    modifies res.buffer.data
    ensures e == Some(PartsIntersect) <==> Intersect(part1, part2)
    ensures e == Some(OutputIntersects) <==>
              !Intersect(part1, part2) && (Intersect(part1, res) || Intersect(part2, res))
    ensures e == Some(SizeMismatch) <==>
              && !Intersect(part1, part2) && !Intersect(part1, res) && !Intersect(part2, res)
              && res.size != part1.size + part2.size
    ensures e == MergeCheck(part1, part2, res)
    ensures e.Some? ==> res.buffer.data[..] == old(res.buffer.data[..])
    ensures e == None ==>
              && res.Elements() == Merged(Tail(bound, part1, part2),
                                          old(part1.Elements()), old(part2.Elements()), old(res.Elements()))
              && forall k | 0 <= k < res.buffer.data.Length && !(res.begin <= k < res.End()) ::
                   res.buffer.data[k] == old(res.buffer.data[k])
  {
    if Intersect(part1, part2) {
      return Some(PartsIntersect);
    } else if Intersect(part1, res) || Intersect(part2, res) {
      return Some(OutputIntersects);
    } else if res.size != part1.size + part2.size {
      return Some(SizeMismatch);
    }
    MergeLoops(bound, part1, part2, res);
    return None;
  }

  /** The part holds xs, and writing into res leaves it alone. */
  ghost predicate Holding(p: PartInfo, xs: seq<int>, res: PartInfo)
    reads p.buffer.data
  {
    && p.InBounds() && |xs| == p.size
    && (p.buffer.data == res.buffer.data && p.size > 0 && res.size > 0 ==> p.End() <= res.begin || res.End() <= p.begin)
    && forall k | p.begin <= k < p.End() :: p.buffer.data[k] == xs[k - p.begin]
  }

  /** The first n elements of w are in place at the start of res, and nothing else
      differs from before. */
  ghost predicate Prefixed(before: seq<int>, w: seq<int>, n: nat, res: PartInfo)
    requires res.InBounds() && n <= |w| <= res.size
    reads res.buffer.data
  {
    && |before| == res.buffer.data.Length
    && (forall k | res.begin <= k < res.begin + n :: res.buffer.data[k] == w[k - res.begin])
    && (forall k | 0 <= k < |before| && !(res.begin <= k < res.begin + n) :: res.buffer.data[k] == before[k])
  }

  method MergeLoops(bound: LoopBound, part1: PartInfo, part2: PartInfo, res: PartInfo)
    requires part1.InBounds() && part2.InBounds() && res.InBounds()
    requires res.size == part1.size + part2.size
    requires Coherent(part1.buffer, res.buffer) && Coherent(part2.buffer, res.buffer)
    requires !Intersect(part1, res) && !Intersect(part2, res)
    requires bound == Part1End ==> part1.End() <= part2.End()
    modifies res.buffer.data
    ensures res.Elements() == Merged(Tail(bound, part1, part2),
                                     old(part1.Elements()), old(part2.Elements()), old(res.Elements()))
    ensures forall k | 0 <= k < res.buffer.data.Length && !(res.begin <= k < res.End()) ::
              res.buffer.data[k] == old(res.buffer.data[k])
  {
    ghost var stale := res.Elements();
    ghost var tail := Tail(bound, part1, part2);
    ghost var m := MergeStart(tail, part1, part2, res);
    var index1, index2, out := WriteLesser(tail, part1, part2, res, m);
    out := AppendPart1(tail, part1, part2, res, m, index1, index2, out);
    AppendPart2(bound, part1, part2, res, m, index2, out);
    PrefixedMerged(m.before, m.w, stale, res);
  }

  lemma MergeStart(bound: TailBound, part1: PartInfo, part2: PartInfo, res: PartInfo) returns (m: Merging)
    requires part1.InBounds() && part2.InBounds() && res.InBounds()
    requires res.size == part1.size + part2.size
    requires Coherent(part1.buffer, res.buffer) && Coherent(part2.buffer, res.buffer)
    requires !Intersect(part1, res) && !Intersect(part2, res)
    ensures At(bound, part1, part2, res, m, part1.begin, part2.begin, res.begin)
    ensures m.a == part1.Elements() && m.b == part2.Elements() && m.w == Written(bound, m.a, m.b)
    ensures m.before == res.buffer.data[..]
  {
    var a, b := part1.Elements(), part2.Elements();
    var tr := Trace(bound, a, b);
    m := Merging(a, b, Written(bound, a, b), tr, res.buffer.data[..]);
  }

  lemma PrefixedMerged(before: seq<int>, w: seq<int>, stale: seq<int>, res: PartInfo)
    requires res.InBounds() && |w| <= res.size == |stale|
    requires Prefixed(before, w, |w|, res)
    requires stale == if res.size == 0 then [] else before[res.begin..res.End()]
    ensures res.Elements() == w + stale[|w|..]
  {
  }

  /** The loops are at index1, index2 and out, as the trace says. */
  ghost predicate At(bound: TailBound, part1: PartInfo, part2: PartInfo, res: PartInfo, m: Merging, index1: int,
                     index2: int, out: int)
    reads part1.buffer.data, part2.buffer.data, res.buffer.data
  {
    && Holding(part1, m.a, res) && Holding(part2, m.b, res) && res.InBounds() && res.size == |m.a| + |m.b|
    && |m.w| <= res.size && IsTrace(bound, m.a, m.b, m.w, m.tr)
    && res.begin <= out <= res.begin + |m.w|
    && part1.begin <= index1 <= part1.End() && part2.begin <= index2 <= part2.End()
    && m.tr[out - res.begin] == Cursor(index1 - part1.begin, index2 - part2.begin)
    && Prefixed(m.before, m.w, out - res.begin, res)
  }

  /** The parts' elements, what is to be written and visited, and the output's array
      before. */
  datatype Merging = Merging(a: seq<int>, b: seq<int>, w: seq<int>, tr: seq<Cursor>, before: seq<int>)

  /** Writes out the current element of one of the parts, the one the merge takes. */
  method WriteNext(first: bool, ghost bound: TailBound, part1: PartInfo, part2: PartInfo, res: PartInfo,
                   ghost m: Merging,
                   index1: nat, index2: nat, out: nat)
    requires At(bound, part1, part2, res, m, index1, index2, out)
    requires if first then index1 < part1.End() else index2 < part2.End()
    requires first <==> TakesFirst(m.a, m.b, index1 - part1.begin, index2 - part2.begin)
    requires index1 < part1.End() || (index2 < part2.End() && Reach(bound, part2.End() - index2) > 0)
    modifies res.buffer.data
    ensures At(bound, part1, part2, res, m,
               index1 + (if first then 1 else 0), index2 + (if first then 0 else 1), out + 1)
  {
    TraceAt(bound, m.a, m.b, m.w, m.tr, out - res.begin);
    if first {
      CopyElement(part1, index1, res, out, m.a, part2, m.b, m);
    } else {
      CopyElement(part2, index2, res, out, m.b, part1, m.a, m);
    }
  }

  method CopyElement(p: PartInfo, index: nat, res: PartInfo, out: nat, ghost xs: seq<int>,
                     ghost q: PartInfo, ghost ys: seq<int>, ghost m: Merging)
    requires Holding(p, xs, res) && Holding(q, ys, res)
    requires res.InBounds() && |m.w| <= res.size && res.begin <= out < res.begin + |m.w|
    requires p.begin <= index < p.End() && m.w[out - res.begin] == xs[index - p.begin]
    requires Prefixed(m.before, m.w, out - res.begin, res)
    modifies res.buffer.data
    ensures Holding(p, xs, res) && Holding(q, ys, res)
    ensures Prefixed(m.before, m.w, out + 1 - res.begin, res)
  {
    res.buffer.data[out] := p.buffer.data[index];
  }

  /** The first loop: writes the lesser of the current elements while both parts have
      one. */
  method WriteLesser(ghost bound: TailBound, part1: PartInfo, part2: PartInfo, res: PartInfo, ghost m: Merging)
    returns (index1: nat, index2: nat, out: nat)
    requires At(bound, part1, part2, res, m, part1.begin, part2.begin, res.begin)
    modifies res.buffer.data
    ensures At(bound, part1, part2, res, m, index1, index2, out)
    ensures index1 == part1.End() || index2 == part2.End()
  {
    hide IsTrace, Prefixed;
    index1, index2, out := part1.begin, part2.begin, res.begin;
    while index1 < part1.End() && index2 < part2.End()
      invariant At(bound, part1, part2, res, m, index1, index2, out)
    {
      if part1.buffer.data[index1] <= part2.buffer.data[index2] {
        WriteNext(true, bound, part1, part2, res, m, index1, index2, out);
        index1 := index1 + 1;
      } else {
        WriteNext(false, bound, part1, part2, res, m, index1, index2, out);
        index2 := index2 + 1;
      }
      out := out + 1;
    }
  }

  /** The second loop: appends what remains of part 1. */
  method AppendPart1(ghost bound: TailBound, part1: PartInfo, part2: PartInfo, res: PartInfo, ghost m: Merging,
                     from: nat, index2: nat, start: nat)
    returns (out: nat)
    requires At(bound, part1, part2, res, m, from, index2, start)
    requires from == part1.End() || index2 == part2.End()
    modifies res.buffer.data
    ensures At(bound, part1, part2, res, m, part1.End(), index2, out)
  {
    hide IsTrace, Prefixed;
    var index1 := from;
    out := start;
    while index1 < part1.End()
      invariant At(bound, part1, part2, res, m, index1, index2, out)
    {
      WriteNext(true, bound, part1, part2, res, m, index1, index2, out);
      index1 := index1 + 1;
      out := out + 1;
    }
  }

  /** The third loop: appends what remains of part 2, up to the bound. */
  method AppendPart2(bound: LoopBound, part1: PartInfo, part2: PartInfo, res: PartInfo, ghost m: Merging,
                     from: nat, start: nat)
    requires bound == Part1End ==> part1.End() <= part2.End()
    requires At(Tail(bound, part1, part2), part1, part2, res, m, part1.End(), from, start)
    modifies res.buffer.data
    ensures Prefixed(m.before, m.w, |m.w|, res)
  {
    hide IsTrace, Prefixed;
    ghost var tail := Tail(bound, part1, part2);
    var end := if bound == Part2End then part2.End() else part1.End();
    var index2, out := from, start;
    while index2 < end
      invariant At(tail, part1, part2, res, m, part1.End(), index2, out)
    {
      WriteNext(false, tail, part1, part2, res, m, part1.End(), index2, out);
      index2 := index2 + 1;
      out := out + 1;
    }
    TraceAt(tail, m.a, m.b, m.w, m.tr, out - res.begin);
  }

  // ----- passes -----

  /** The two inputs and the output of the iteration at i, for blocks of size s. */
  function IterationParts(src: Buffer, dst: Buffer, n: nat, s: nat, i: nat): (PartInfo, PartInfo, PartInfo)
    requires i < n
  {
    var remaining1 := n - i;
    var part1 := PartInfo(src, i, if remaining1 < s then remaining1 else s);
    var remaining2 := if remaining1 < s then 0 else remaining1 - s;
    var part2 := PartInfo(src, i + s, if remaining2 < s then remaining2 else s);
    (part1, part2, PartInfo(dst, i, part1.size + part2.size))
  }

  /** Two separate buffers of n elements. */
  ghost predicate TwoBuffers(src: Buffer, dst: Buffer, n: nat)
  {
    && src.data != dst.data && src.data.Length == dst.data.Length == n
    && (src.address + n <= dst.address || dst.address + n <= src.address)
  }

  /** No iteration of a pass makes merge throw, although an empty second part may
      begin beyond the end of its buffer, possibly inside the other one. */
  lemma IterationNeverThrows(src: Buffer, dst: Buffer, n: nat, s: nat, i: nat)
    requires TwoBuffers(src, dst, n) && 0 < s < n && i < n
    ensures var (part1, part2, res) := IterationParts(src, dst, n, s, i);
            && MergeCheck(part1, part2, res) == None
            && part1.InBounds() && part2.InBounds() && res.InBounds()
            && part1.End() == Min(i + s, n) && res.End() == Min(i + 2 * s, n)
            && (part2.size > 0 ==> part2.End() == res.End())
  {
  }

  /** What the parts of the iteration at i are parts of. */
  lemma IterationElements(src: Buffer, dst: Buffer, n: nat, s: nat, i: nat)
    requires TwoBuffers(src, dst, n) && 0 < s < n && i < n
    ensures var (part1, part2, res) := IterationParts(src, dst, n, s, i);
            var m, e := Min(i + s, n), Min(i + 2 * s, n);
            && part1.InBounds() && part2.InBounds() && res.InBounds() && res.begin == i && res.End() == e
            && part1.Elements() == src.data[i..m] && part2.Elements() == src.data[m..e]
            && res.Elements() == dst.data[i..e]
  {
    IterationNeverThrows(src, dst, n, s, i);
    var m, e := Min(i + s, n), Min(i + 2 * s, n);
    assert m == e ==> src.data[m..e] == [];
  }

  /** One iteration: merges the two blocks at i. */
  method MergeBlocks(bound: LoopBound, src: Buffer, dst: Buffer, n: nat, s: nat, i: nat)
    requires TwoBuffers(src, dst, n) && 0 < s < n && i < n
    modifies dst.data
    ensures Round(bound, src.data[..], s, i, old(dst.data[..]), dst.data[..])
  {
    hide Written, Merged, Intersect, MergeCheck;
    IterationNeverThrows(src, dst, n, s, i);
    IterationElements(src, dst, n, s, i);
    var (part1, part2, res) := IterationParts(src, dst, n, s, i);
    ghost var xs, cur := src.data[..], dst.data[..];
    var _ := Merge(bound, part1, part2, res);
    IterationElements(src, dst, n, s, i);
    hide IterationParts;
    MergedRound(bound, xs, s, i, cur, dst.data[..]);
  }

  lemma MergedRound(bound: TailBound, xs: seq<int>, s: nat, i: nat, cur: seq<int>, cur': seq<int>)
    requires i < |xs| == |cur| == |cur'|
    requires var m, e := Min(i + s, |xs|), Min(i + 2 * s, |xs|);
             && cur'[i..e] == Merged(bound, xs[i..m], xs[m..e], cur[i..e])
             && forall k | 0 <= k < |cur| && !(i <= k < e) :: cur'[k] == cur[k]
    ensures Round(bound, xs, s, i, cur, cur')
  {
    hide Merged;
  }

  /** The same iteration, as a round of the pass. */
  method RunIteration(bound: LoopBound, src: Buffer, dst: Buffer, n: nat, s: nat, i: nat, ghost stale: seq<int>)
    requires TwoBuffers(src, dst, n) && 0 < s < n && i < n
    requires PassedUpTo(bound, src.data[..], stale, s, i, dst.data[..])
    modifies dst.data
    ensures PassedUpTo(bound, src.data[..], stale, s, Min(i + 2 * s, n), dst.data[..])
  {
    ghost var xs, cur := src.data[..], dst.data[..];
    MergeBlocks(bound, src, dst, n, s, i);
    PassRound(bound, xs, stale, s, i, cur, dst.data[..]);
  }

  /** One pass from src into dst. */
  method RunPass(bound: LoopBound, src: Buffer, dst: Buffer, n: nat, s: nat)
    requires TwoBuffers(src, dst, n) && 0 < s < n && PowerOfTwo(s)
    modifies dst.data
    ensures dst.data[..] == Pass(bound, src.data[..], old(dst.data[..]), s)
  {
    hide Pass, PassedUpTo;
    ghost var xs, stale := src.data[..], dst.data[..];
    var cycleStep := 2 * s;
    var i := 0;
    PassStarts(bound, xs, stale, s);
    while i < n
      invariant IsMultiple(i, cycleStep)
      invariant PassedUpTo(bound, xs, stale, s, Min(i, n), dst.data[..])
      decreases n - i
    {
      assert Reached(n, s, i);
      RunIteration(bound, src, dst, n, s, i, stale);
      i := i + cycleStep;
    }
    PassedAll(bound, xs, stale, s, dst.data[..]);
  }

  function Pick(buffer0: Buffer, buffer1: Buffer, current: nat): Buffer
  {
    if current == 0 then buffer0 else buffer1
  }

  /** A pass from the current buffer into the other one. */
  method RunPassFrom(bound: LoopBound, buffer0: Buffer, buffer1: Buffer, current: nat, n: nat, s: nat)
    requires TwoBuffers(buffer0, buffer1, n) && 0 < s < n && PowerOfTwo(s) && current < 2
    modifies Pick(buffer0, buffer1, 1 - current).data
    ensures Pick(buffer0, buffer1, 1 - current).data[..]
         == Pass(bound, Pick(buffer0, buffer1, current).data[..], old(Pick(buffer0, buffer1, 1 - current).data[..]), s)
  {
    RunPass(bound, Pick(buffer0, buffer1, current), Pick(buffer0, buffer1, 1 - current), n, s);
  }

  /** The sort: passes with doubling block sizes, the buffers changing places. */
  method Sort(bound: LoopBound, buffer0: Buffer, buffer1: Buffer, n: nat) returns (current: nat)
    requires TwoBuffers(buffer0, buffer1, n)
    modifies buffer0.data, buffer1.data
    ensures current < 2
    ensures var result := Pick(buffer0, buffer1, current).data[..];
            && result == MergeSpec.Sort(bound, old(buffer0.data[..]), old(buffer1.data[..]), 1)
            && (bound == Part2End ==> SortedPermutation(result, old(buffer0.data[..])))
  {
    hide MergeSpec.Sort, Pass;
    ghost var xs, ys := buffer0.data[..], buffer1.data[..];
    ghost var sorted := MergeSpec.Sort(bound, xs, ys, 1);
    assert bound == Part2End ==> SortedPermutation(sorted, xs) by {
      SortCorrect(xs, ys);
    }
    var partSize := 1;
    current := 0;
    while partSize < n
      invariant current < 2 && PowerOfTwo(partSize)
      invariant Pick(buffer0, buffer1, current).data[..] == xs && Pick(buffer0, buffer1, 1 - current).data[..] == ys
      invariant |xs| == |ys| == n && partSize > 0 && MergeSpec.Sort(bound, xs, ys, partSize) == sorted
      decreases n - partSize
    {
      RunPassFrom(bound, buffer0, buffer1, current, n, partSize);
      SortOnce(bound, xs, ys, partSize);
      xs, ys := Pass(bound, xs, ys, partSize), xs;
      current := 1 - current;
      partSize := partSize * 2;
    }
    SortDone(bound, xs, ys, partSize);
  }

  // ----- 32-bit index arithmetic -----

  function TwoToThe(k: nat): nat
  {
    if k == 0 then 1 else 2 * TwoToThe(k - 1)
  }

  const INT_MAX: int := 2 * TwoToThe(30) - 1

  ghost predicate PowerOfTwo(s: nat)
  {
    s == 1 || (s > 0 && s % 2 == 0 && PowerOfTwo(s / 2))
  }

  ghost predicate IsMultiple(i: nat, c: nat)
  {
    i == 0 || (i >= c > 0 && IsMultiple(i - c, c))
  }

  /** The pass with block size s has an iteration at i when sorting n elements. */
  ghost predicate Reached(n: nat, s: nat, i: nat)
  {
    PowerOfTwo(s) && s < n && i < n && IsMultiple(i, 2 * s)
  }

  /** No signed index computation of the passes overflows 32 bits. */
  ghost predicate NoOverflow(n: nat)
  {
    forall s: nat, i: nat | Reached(n, s, i) :: 2 * s <= INT_MAX && i + 2 * s <= INT_MAX
  }

  lemma {:induction false} MultipleDouble(i: nat, c: nat)
    requires IsMultiple(i, c)
    ensures IsMultiple(2 * i, 2 * c)
  {
    if i > 0 {
      MultipleDouble(i - c, c);
    }
  }

  lemma {:induction false} MultipleOfOne(i: nat)
    ensures IsMultiple(i, 1)
  {
    if i > 0 {
      MultipleOfOne(i - 1);
    }
  }

  lemma {:induction false} PowersDivide(a: nat, b: nat)
    requires PowerOfTwo(a) && PowerOfTwo(b) && a <= b
    ensures IsMultiple(b, a)
  {
    if a == 1 {
      MultipleOfOne(b);
    } else {
      PowersDivide(a / 2, b / 2);
      MultipleDouble(b / 2, a / 2);
    }
  }

  lemma {:induction false} NextMultiple(i: nat, b: nat, c: nat)
    requires IsMultiple(i, c) && IsMultiple(b, c) && i < b
    ensures i + c <= b
  {
    if i > 0 {
      NextMultiple(i - c, b - c, c);
    }
  }

  lemma {:induction false} TwoToTheIsPower(k: nat)
    ensures PowerOfTwo(TwoToThe(k))
  {
    if k > 0 {
      TwoToTheIsPower(k - 1);
    }
  }

  lemma IndexFits(n: nat, s: nat, i: nat)
    requires Reached(n, s, i)
    ensures n <= TwoToThe(30) ==> 2 * s <= INT_MAX && i + 2 * s <= INT_MAX
  {
    if n <= TwoToThe(30) {
      TwoToTheIsPower(30);
      FitsBelow(n, s, i, TwoToThe(30));
    }
  }

  lemma {:induction false} FitsBelow(n: nat, s: nat, i: nat, b: nat)
    requires Reached(n, s, i) && n <= b && PowerOfTwo(b)
    ensures 2 * s <= b && i + 2 * s <= b
  {
    PowersDivide(s, b);
    NextMultiple(s, b, s);
    PowersDivide(2 * s, b);
    NextMultiple(i, b, 2 * s);
  }

  /** The index arithmetic is safe exactly for up to 2^30 elements. */
  lemma NoOverflowExactly(n: nat)
    ensures NoOverflow(n) <==> n <= TwoToThe(30)
  {
    forall s: nat, i: nat | Reached(n, s, i)
      ensures n <= TwoToThe(30) ==> 2 * s <= INT_MAX && i + 2 * s <= INT_MAX
    {
      IndexFits(n, s, i);
    }
    if n > TwoToThe(30) {
      TwoToTheIsPower(30);
      assert Reached(n, TwoToThe(30), 0);
    }
  }
}

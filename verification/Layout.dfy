/** Where every operation of the allocator leaves the areas and the bytes, position by
    position. */
module Layout {
  import opened Basics
  import opened Areas
  import opened HeapModel
  import opened Refinement
  import opened Fragmentation

  /** t' has m areas in the place of the areas of t from index i up to, not including,
      j, and all others as they are. */
  ghost predicate Others(t: seq<Area>, i: nat, j: nat, m: nat, t': seq<Area>)
    requires i <= j <= |t|
  {
    && |t'| == |t| - (j - i) + m
    && (forall k | 0 <= k < i :: t'[k] == t[k])
    && (forall k | j <= k < |t| :: t'[k - (j - i) + m] == t[k])
  }

  predicate IsGap(a: Area, from: nat, to: nat)
  {
    a.free && a.start == from && a.End() == to
  }

  /** The areas from lo up to hi are free but for area i, and those around them are
      not. */
  ghost predicate IsStretch(t: seq<Area>, i: nat, lo: nat, hi: nat)
  {
    && lo <= i < hi <= |t|
    && (forall k | lo <= k < hi && k != i :: t[k].free)
    && (lo > 0 ==> !t[lo - 1].free) && (hi < |t| ==> !t[hi].free)
  }

  /** Area i has been freed: one free area covers it and all the free areas around it,
      up to allocated ones, and all others are as they were. */
  ghost predicate Freed(t: seq<Area>, i: nat, t': seq<Area>)
    requires i < |t|
  {
    exists lo: nat, hi: nat | IsStretch(t, i, lo, hi) ::
      Others(t, lo, hi, 1, t') && IsGap(t'[lo], t[lo].start, t[hi - 1].End())
  }

  ghost predicate Shrunk(t: seq<Area>, i: nat, n: nat, t': seq<Area>)
    requires i < |t| && n < t[i].size
  {
    && Others(t, i, i + 1, 2, t')
    && t'[i] == t[i].(size := n) && IsGap(t'[i + 1], t'[i].End(), t[i].End())
  }

  /** Area i has grown into the free area after it, which is shorter now, or gone. */
  ghost predicate GrownRight(t: seq<Area>, i: nat, n: nat, t': seq<Area>)
    requires i + 1 < |t| && n <= t[i].size + t[i + 1].size
  {
    var left := t[i].size + t[i + 1].size - n;
    && Others(t, i, i + 2, if left == 0 then 1 else 2, t')
    && t'[i] == t[i].(size := n)
    && (left > 0 ==> IsGap(t'[i + 1], t'[i].End(), t[i + 1].End()))
  }

  /** Area i begins where the free area before it began, and what is left of that is
      behind it. */
  ghost predicate GrownLeft(t: seq<Area>, i: nat, n: nat, t': seq<Area>)
    requires 0 < i < |t| && n <= t[i - 1].size + t[i].size
  {
    var left := t[i - 1].size + t[i].size - n;
    && Others(t, i - 1, i + 1, if left == 0 then 1 else 2, t')
    && t'[i - 1] == t[i].(start := t[i - 1].start, size := n)
    && (left > 0 ==> IsGap(t'[i], t'[i - 1].End(), t[i].End()))
  }

  /** size bytes from src on have come to dst, and no other byte has changed. */
  ghost predicate Moved(bytes: seq<Byte>, dst: nat, src: nat, size: nat, bytes': seq<Byte>)
  {
    && |bytes'| == |bytes| && dst + size <= |bytes| && src + size <= |bytes|
    && bytes'[dst..dst + size] == bytes[src..src + size]
    && (forall k | 0 <= k < |bytes| && !(dst <= k < dst + size) :: bytes'[k] == bytes[k])
  }

  /** Area i has been copied into a best fit of n bytes, and then freed. */
  ghost predicate MovedAway(h: Heap, i: nat, n: nat, out: Outcome, h': Heap)
    requires i < |h.table|
  {
    exists j: nat, t1: seq<Area>, i1: nat | IsBestFit(h.table, n, j) ::
      && Carved(h.table, j, n, t1) && out == Handle(t1[j].node)
      && i1 < |t1| && t1[i1] == h.table[i] && Freed(t1, i1, h'.table)
      && Moved(h.bytes, h.table[j].start, h.table[i].start, h.table[i].size, h'.bytes)
  }

  // ----- what each operation leaves -----

  ghost predicate AllocLeaves(h: Heap, n: nat, out: Outcome, h': Heap)
  {
    if n == 0 then out == NullHandle && h' == h
    else if forall k | 0 <= k < |h.table| && h.table[k].free :: n > h.table[k].size then out == NoMemory && h' == h
    else
      && h'.bytes == h.bytes
      && exists j: nat | IsBestFit(h.table, n, j) ::
           Carved(h.table, j, n, h'.table) && out == Handle(h'.table[j].node)
  }

  ghost predicate FreeLeaves(h: Heap, i: nat, out: Outcome, h': Heap)
    requires i < |h.table|
  {
    out == NullHandle && h'.bytes == h.bytes && Freed(h.table, i, h'.table)
  }

  /** The order in which realloc tries its ways is the order of these cases. */
  ghost predicate ReallocLeaves(h: Heap, i: nat, n: nat, out: Outcome, h': Heap)
    requires i < |h.table|
  {
    var t, size, same := h.table, h.table[i].size, Handle(h.table[i].node);
    if n == 0 then FreeLeaves(h, i, out, h')
    else if n < size then out == same && h'.bytes == h.bytes && Shrunk(t, i, n, h'.table)
    else if n == size then out == same && h' == h
    else if n <= size + FreeAfter(t, i) then out == same && h'.bytes == h.bytes && GrownRight(t, i, n, h'.table)
    else if n <= size + FreeBefore(t, i) then
      && out == same && GrownLeft(t, i, n, h'.table)
      && Moved(h.bytes, t[i - 1].start, t[i].start, size, h'.bytes)
    else if forall k | 0 <= k < |t| && t[k].free :: n > t[k].size then out == NoMemory && h' == h
    else MovedAway(h, i, n, out, h')
  }

  ghost predicate Leaves(h: Heap, op: Op, out: Outcome, h': Heap)
  {
    match op
    case Alloc(n) => AllocLeaves(h, n, out, h')
    case Free(x) => exists i: nat | IsLiveAt(h.table, x, i) :: FreeLeaves(h, i, out, h')
    case Realloc(None, n) => AllocLeaves(h, n, out, h')
    case Realloc(Some(x), n) => exists i: nat | IsLiveAt(h.table, x, i) :: ReallocLeaves(h, i, n, out, h')
    case Defrag => out == NullHandle && Packed(h, h')
    case Store(x, k, v) =>
      exists i: nat | IsLiveAt(h.table, x, i) ::
        && k < h.table[i].size && h.table[i].End() <= |h.bytes|
        && out == Handle(x) && h' == h.(bytes := h.bytes[h.table[i].start + k := v])
  }

  /** The live blocks lie side by side from the base, in their old order and with their
      old bytes, before at most one free area. */
  ghost predicate Packed(h: Heap, h': Heap)
  {
    var bs, t', free := Blocks(h.bytes, h.table), h'.table, SumFree(h.table);
    && |h'.bytes| == |h.bytes|
    && |t'| == |bs| + (if free == 0 then 0 else 1)
    && (forall k | 0 <= k < |bs| ::
          !t'[k].free && bs[k] == Block(t'[k].node, Slice(h'.bytes, t'[k])) && t'[k].start == SumData(bs[..k]))
    && (free > 0 ==> t'[|bs|].free && t'[|bs|].size == free && t'[|bs|].End() == |h.bytes|)
  }

  // ----- proofs -----

  lemma SpliceOthers(t: seq<Area>, i: nat, j: nat, r: seq<Area>)
    requires i <= j <= |t|
    ensures Others(t, i, j, |r|, Splice(t, i, j, r))
    ensures forall k | 0 <= k < |r| :: Splice(t, i, j, r)[i + k] == r[k]
  {
  }

  lemma FreedByRelease(h: Heap, i: nat)
    requires Valid(h) && i < |h.table| && !h.table[i].free
    ensures Release(h, i).bytes == h.bytes && Freed(h.table, i, Release(h, i).table)
  {
    var t := h.table;
    var t1 := t[i := t[i].(free := true)];
    var lo, hi := RunStart(t1, i), RunEnd(t1, i);
    ReleasedSize(h, i);
    StretchOfRun(t, i);
    var u := t1[lo].(size := SumSizes(t1[lo..hi]));
    hide Valid, SumSizes, RunStart, RunEnd, IsStretch;
    SpliceOthers(t1, lo, hi, [u]);
    hide Splice, Others;
    assert Release(h, i).table[lo + 0] == u;
    OthersBut(t, i, lo, hi, 1, Release(h, i).table);
  }

  lemma {:induction false} StretchOfRun(t: seq<Area>, i: nat)
    requires i < |t|
    ensures var t1 := t[i := t[i].(free := true)]; IsStretch(t, i, RunStart(t1, i), RunEnd(t1, i))
  {
    var t1 := t[i := t[i].(free := true)];
    assert forall k | 0 <= k < |t| && k != i :: t1[k] == t[k];
  }

  lemma OthersBut(t: seq<Area>, i: nat, lo: nat, hi: nat, m: nat, t': seq<Area>)
    requires lo <= i < hi <= |t| && Others(t[i := t[i].(free := true)], lo, hi, m, t')
    ensures Others(t, lo, hi, m, t')
  {
    var t1 := t[i := t[i].(free := true)];
    assert forall k | 0 <= k < |t| && k != i :: t1[k] == t[k];
    forall k | hi <= k < |t|
      ensures t'[k - (hi - lo) + m] == t[k]
    {
      assert t'[k - (hi - lo) + m] == t1[k];
    }
  }

  lemma ReleasedSize(h: Heap, i: nat)
    requires Valid(h) && i < |h.table| && !h.table[i].free
    ensures var t1 := h.table[i := h.table[i].(free := true)];
            var lo, hi := RunStart(t1, i), RunEnd(t1, i);
            h.table[lo].start + SumSizes(t1[lo..hi]) == h.table[hi - 1].End()
  {
    var t, t1 := h.table, h.table[i := h.table[i].(free := true)];
    var lo, hi := RunStart(t1, i), RunEnd(t1, i);
    TilesParts(t, lo, hi, 0, |h.bytes|);
    TilesBounds(t[lo..hi], t[lo].start, t[hi - 1].End());
    SameSizes(t[lo..hi], t1[lo..hi]);
  }

  lemma {:induction false} SameSizes(t: seq<Area>, t': seq<Area>)
    requires |t| == |t'| && forall k | 0 <= k < |t| :: t[k].size == t'[k].size
    ensures SumSizes(t) == SumSizes(t')
  {
    if t != [] {
      SameSizes(t[1..], t'[1..]);
    }
  }

  lemma ShrinkLeaves(h: Heap, i: nat, n: nat)
    requires i < |h.table| && 0 < n < h.table[i].size
    ensures Shrunk(h.table, i, n, Shrink(h, i, n).table)
  {
    var a := h.table[i];
    var r := [a.(size := n), Area(h.next, a.start + n, a.size - n, true)];
    SpliceOthers(h.table, i, i + 1, r);
    hide Splice, Others;
    var t' := Shrink(h, i, n).table;
    assert t'[i + 0] == r[0] && t'[i + 1] == r[1];
  }

  lemma ExtendLeaves(h: Heap, i: nat, n: nat)
    requires Valid(h) && i < |h.table| && h.table[i].size < n && CanExtend(h.table, i, n)
    ensures Extend(h, i, n).bytes == h.bytes && GrownRight(h.table, i, n, Extend(h, i, n).table)
  {
    Adjacent(h, i);
    var a, f := h.table[i], h.table[i + 1];
    var more := n - a.size;
    var tail := if f.size == more then [] else [f.(start := f.start + more, size := f.size - more)];
    var r := [a.(size := n)] + tail;
    hide Valid;
    SpliceOthers(h.table, i, i + 2, r);
    assert Splice(h.table, i, i + 2, r)[i + 0] == r[0];
    assert tail != [] ==> Splice(h.table, i, i + 2, r)[i + 1] == r[1];
  }

  lemma MoveLeaves(h: Heap, i: nat, n: nat)
    requires Valid(h) && i < |h.table| && h.table[i].size < n && CanMoveAndExtend(h.table, i, n)
    ensures h.table[i - 1].End() == h.table[i].start && h.table[i].End() <= |h.bytes|
    ensures CanExtend(MoveLeft(h, i).table, i - 1, n)
    ensures var h' := Extend(MoveLeft(h, i), i - 1, n);
            && GrownLeft(h.table, i, n, h'.table)
            && Moved(h.bytes, h.table[i - 1].start, h.table[i].start, h.table[i].size, h'.bytes)
  {
    MoveLeftCorrect(h, i);
    ExtendLeaves(MoveLeft(h, i), i - 1, n);
    var t, f, a := h.table, h.table[i - 1], h.table[i];
    var r := [a.(start := f.start), Area(h.next, f.start + a.size, f.size, true)];
    SpliceOthers(t, i - 1, i + 1, r);
    CopiedMoves(h.bytes, f.start, a.start, a.size);
    hide Valid;
    var h1 := MoveLeft(h, i);
    OthersTwice(t, i, h1.table, Extend(h1, i - 1, n).table, if f.size + a.size == n then 1 else 2);
  }

  lemma OthersTwice(t: seq<Area>, i: nat, t1: seq<Area>, t2: seq<Area>, m: nat)
    requires 0 < i < |t| && |t1| == |t|
    requires Others(t, i - 1, i + 1, 2, t1) && Others(t1, i - 1, i + 1, m, t2)
    ensures Others(t, i - 1, i + 1, m, t2)
  {
  }

  lemma CopiedMoves(bytes: seq<Byte>, dst: nat, src: nat, size: nat)
    requires dst + size <= |bytes| && src + size <= |bytes|
    ensures Moved(bytes, dst, src, size, Copied(bytes, dst, src, size))
  {
  }

  lemma CopyLeaves(h: Heap, i: nat, j: nat, n: nat)
    requires Valid(h) && i < |h.table| && !h.table[i].free
    requires IsBestFit(h.table, n, j) && h.table[i].size < n
    ensures h.table[i].End() <= |h.bytes| && h.table[j].End() <= |h.bytes|
    ensures MovedAway(h, i, n, Handle(PlacedNode(h, j, n)), CopyGrow(h, i, j, n))
  {
    TilesBounds(h.table, 0, |h.bytes|);
    PlaceCarves(h, j, n);
    PlaceKeepsOthers(h, i, j, n);
    PlaceCopyCorrect(h, i, j, n);
    var h2, i1 := PlaceCopy(h, i, j, n), ShiftedIndex(h.table, i, j, n);
    FreedByRelease(h2, i1);
    CopiedMoves(h.bytes, h.table[j].start, h.table[i].start, h.table[i].size);
    assert Place(h, j, n).bytes == h.bytes && h2.table[j].node == PlacedNode(h, j, n);
    hide Valid, Freed, Carved, Moved, IsBestFit;
    assert Carved(h.table, j, n, h2.table);
  }

  lemma AllocStepLeaves(h: Heap, n: nat)
    requires Valid(h)
    ensures var (h', out) := AllocStep(h, n); AllocLeaves(h, n, out, h')
  {
    NothingFits(h.table, n);
    hide Carved;
    if n > 0 && BestFit(h.table, n).Some? {
      PlaceCarves(h, BestFit(h.table, n).value, n);
    }
  }

  lemma RoomExactly(t: seq<Area>, i: nat, n: nat)
    requires i < |t| && !t[i].free && t[i].size < n
    ensures CanExtend(t, i, n) <==> n <= t[i].size + FreeAfter(t, i)
    ensures CanMoveAndExtend(t, i, n) <==> n <= t[i].size + FreeBefore(t, i)
  {
  }

  lemma ReallocStepLeaves(h: Heap, i: nat, n: nat)
    requires Valid(h) && i < |h.table| && !h.table[i].free && n > 0
    ensures var (h', out) := ReallocStep(h, i, n); ReallocLeaves(h, i, n, out, h')
  {
    var t, a := h.table, h.table[i];
    TilesBounds(t, 0, |h.bytes|);
    hide Shrunk, GrownRight, GrownLeft, MovedAway, Moved;
    if a.size < n {
      RoomExactly(t, i, n);
    }
    hide Valid, Tiles, Shrink, Extend, MoveLeft, CopyGrow, BestFit, FreeAfter, FreeBefore, CanExtend, CanMoveAndExtend;
    if n < a.size {
      ShrinkLeaves(h, i, n);
    } else if n == a.size {
    } else if CanExtend(t, i, n) {
      ExtendLeaves(h, i, n);
    } else if CanMoveAndExtend(t, i, n) {
      MoveLeaves(h, i, n);
    } else {
      NothingFits(t, n);
      if BestFit(t, n).Some? {
        CopyLeaves(h, i, BestFit(t, n).value, n);
      }
    }
  }

  lemma {:induction false} NothingFits(t: seq<Area>, n: nat)
    ensures BestFit(t, n).None? <==> forall k | 0 <= k < |t| && t[k].free :: n > t[k].size
    ensures BestFit(t, n).Some? ==> IsBestFit(t, n, BestFit(t, n).value)
  {
    hide IsBestFit;
    if BestFit(t, n).None? {
      forall k | 0 <= k < |t| && t[k].free
        ensures n > t[k].size
      {
        assert !Fits(t[k], n);
      }
    }
  }

  /** Every operation leaves exactly this. */
  lemma StepLeaves(h: Heap, op: Op, out: Outcome, h': Heap)
    requires Valid(h) && Step(h, op, out, h')
    ensures Leaves(h, op, out, h')
  {
    hide AllocLeaves, Packed, Freed;
    match op
    case Alloc(n) => AllocStepLeaves(h, n);
    case Free(x) =>
      var i: nat :| IsLiveAt(h.table, x, i) && h' == Release(h, i);
      FreedByRelease(h, i);
      assert FreeLeaves(h, i, out, h');
    case Realloc(None, n) => AllocStepLeaves(h, n);
    case Realloc(Some(x), n) =>
      var i: nat :| IsLiveAt(h.table, x, i) &&
        (h', out) == if n == 0 then (Release(h, i), NullHandle) else ReallocStep(h, i, n);
      if n == 0 {
        FreedByRelease(h, i);
      } else {
        ReallocStepLeaves(h, i, n);
      }
      assert ReallocLeaves(h, i, n, out, h');
    case Defrag => DefragLeaves(h, h');
    case Store(x, k, v) =>
  }

  lemma DefragLeaves(h: Heap, h': Heap)
    requires Valid(h) && Defragmented(h, h')
    ensures Packed(h, h')
  {
    DefragPacks(h, h');
  }
}

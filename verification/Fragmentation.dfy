/** Where allocations go, when they fail, and how free space is spread. */
module Fragmentation {
  import opened Basics
  import opened Areas
  import opened HeapModel
  import opened Refinement

  /** alloc fails exactly when no single free area is large enough; otherwise the
      first smallest adequate area gives its first n bytes and every other area
      stays as it is. */
  lemma AllocExactly(h: Heap, n: nat)
    requires Valid(h) && n > 0
    ensures var (h', out) := AllocStep(h, n);
            && (out == NoMemory <==> forall k | 0 <= k < |h.table| :: !Fits(h.table[k], n))
            && (out == NoMemory ==> h' == h)
            && h'.bytes == h.bytes
            && (out != NoMemory ==> exists j :: IsBestFit(h.table, n, j) && Carved(h.table, j, n, h'.table))
  {
    if BestFit(h.table, n).Some? {
      var j := BestFit(h.table, n).value;
      PlaceCarves(h, j, n);
      assert IsBestFit(h.table, n, j);
    }
  }

  lemma PlaceCarves(h: Heap, j: nat, n: nat)
    requires j < |h.table| && Fits(h.table[j], n)
    ensures Carved(h.table, j, n, Place(h, j, n).table)
  {
  }

  /** t' is t with the first n bytes of free area j allocated. */
  ghost predicate Carved(t: seq<Area>, j: nat, n: nat, t': seq<Area>)
    requires j < |t| && n <= t[j].size
  {
    var left := t[j].size - n;
    var extra := if left == 0 then 0 else 1;
    && |t'| == |t| + extra
    && !t'[j].free && t'[j].start == t[j].start && t'[j].size == n
    && (left > 0 ==> t'[j + 1] == t[j].(start := t[j].start + n, size := left))
    && (forall k | 0 <= k < j :: t'[k] == t[k])
    && (forall k | j < k < |t| :: t'[k + extra] == t[k])
  }

  /** The free bytes just before area i, and just after it. */
  function FreeBefore(t: seq<Area>, i: nat): nat
    requires i < |t|
  {
    if i > 0 && t[i - 1].free then t[i - 1].size else 0
  }

  function FreeAfter(t: seq<Area>, i: nat): nat
    requires i < |t|
  {
    if i + 1 < |t| && t[i + 1].free then t[i + 1].size else 0
  }

  /** realloc fails exactly when the area is too small even with the free bytes on
      either one of its sides, and no free area is large enough; then nothing has
      changed. */
  lemma ReallocExactly(h: Heap, i: nat, n: nat)
    requires Valid(h) && i < |h.table| && !h.table[i].free && n > 0
    ensures var t, size, (h', out) := h.table, h.table[i].size, ReallocStep(h, i, n);
            && (out == NoMemory <==>
                 && n > size + FreeBefore(t, i) && n > size + FreeAfter(t, i)
                 && forall k | 0 <= k < |t| && t[k].free :: n > t[k].size)
            && (out == NoMemory ==> h' == h)
  {
    assert forall k | 0 <= k < |h.table| :: Fits(h.table[k], n) <==> h.table[k].free && !(n > h.table[k].size);
  }

  /** It may fail even though the area and the free bytes on both of its sides suffice
      together. */
  lemma ReallocMissesBothSides(bytes: seq<Byte>)
    requires |bytes| == 5
    ensures var h := Heap(bytes, [Area(0, 0, 2, true), Area(1, 2, 1, false), Area(2, 3, 2, true)], 3);
            && Valid(h)
            && FreeBefore(h.table, 1) + h.table[1].size + FreeAfter(h.table, 1) == 5
            && ReallocStep(h, 1, 4) == (h, NoMemory)
  {
    var t := [Area(0, 0, 2, true), Area(1, 2, 1, false), Area(2, 3, 2, true)];
    assert t[1..] == [t[1], t[2]];
    TilesTwo(t[1], t[2]);
    ReallocExactly(Heap(bytes, t, 3), 1, 4);
  }

  /** After the move to the left there is always room to grow. */
  lemma MoveThenExtendFits(h: Heap, i: nat, n: nat)
    requires Valid(h) && i < |h.table| && h.table[i].size < n && CanMoveAndExtend(h.table, i, n)
    ensures h.table[i - 1].End() == h.table[i].start && h.table[i].End() <= |h.bytes|
    ensures var t' := MoveLeft(h, i).table; t'[i - 1].size < n && CanExtend(t', i - 1, n)
  {
    MoveLeftCorrect(h, i);
  }

  // ----- defragmentation -----

  lemma {:induction false} BlocksAllLive(bytes: seq<Byte>, t: seq<Area>)
    requires forall i | 0 <= i < |t| :: !t[i].free
    ensures |Blocks(bytes, t)| == |t| && SumFree(t) == 0
    ensures forall i | 0 <= i < |t| :: Blocks(bytes, t)[i] == Block(t[i].node, Slice(bytes, t[i]))
  {
    if t != [] {
      BlocksAllLive(bytes, t[1..]);
    }
  }

  /** The live areas of a defragmented table are exactly its blocks, in order. */
  lemma DefragBlocks(h: Heap, h': Heap)
    requires Valid(h) && Defragmented(h, h')
    ensures var bs, t', free := Blocks(h.bytes, h.table), h'.table, SumFree(h.table);
            && |t'| == |bs| + (if free == 0 then 0 else 1)
            && (forall k | 0 <= k < |bs| :: !t'[k].free && bs[k] == Block(t'[k].node, Slice(h'.bytes, t'[k])))
            && (free > 0 ==> t'[|bs|].free && t'[|bs|].size == free && t'[|bs|].End() == |h.bytes|)
  {
    var t' := h'.table;
    SizesConserved(h);
    SizesConserved(h');
    TilesBounds(t', 0, |h'.bytes|);
    var live := if t'[|t'| - 1].free then |t'| - 1 else |t'|;
    assert t' == t'[..live] + t'[live..];
    BlocksAppend(h'.bytes, t'[..live], t'[live..]);
    BlocksAllLive(h'.bytes, t'[..live]);
    SumFreeAppend(t'[..live], t'[live..]);
    assert t'[live..] == if live == |t'| then [] else [t'[live]];
    BlocksAllFree(h'.bytes, t'[live..]);
    SumFreeAllFree(t'[live..]);
    assert live < |t'| ==> [t'[live]][1..] == [];
  }

  /** After defrag the live blocks lie side by side from the base, in their old
      order and with their old bytes, and what is left over is one free area
      holding all the free bytes. */
  lemma DefragPacks(h: Heap, h': Heap)
    requires Valid(h) && Defragmented(h, h')
    ensures var bs, t', free := Blocks(h.bytes, h.table), h'.table, SumFree(h.table);
            && |t'| == |bs| + (if free == 0 then 0 else 1)
            && (forall k | 0 <= k < |bs| ::
                  !t'[k].free && bs[k] == Block(t'[k].node, Slice(h'.bytes, t'[k])) && t'[k].start == SumData(bs[..k]))
            && (free > 0 ==> t'[|bs|].free && t'[|bs|].size == free && t'[|bs|].End() == |h.bytes|)
  {
    DefragBlocks(h, h');
    var bs, t' := Blocks(h.bytes, h.table), h'.table;
    forall k | 0 <= k < |bs|
      ensures t'[k].start == SumData(bs[..k])
    {
      TilesParts(t', k, k + 1, 0, |h'.bytes|);
      TilesBounds(t', 0, |h'.bytes|);
      BlocksAllLive(h'.bytes, t'[..k]);
      FreePlusData(h'.bytes, t'[..k], 0, t'[k].start);
      assert bs[..k] == Blocks(h'.bytes, t'[..k]);
    }
  }

  /** After defrag an allocation succeeds exactly when the free bytes suffice. */
  lemma AllocAfterDefrag(h: Heap, h': Heap, n: nat)
    requires Valid(h) && Defragmented(h, h') && n > 0
    ensures AllocStep(h', n).1 != NoMemory <==> n <= SumFree(h.table)
  {
    DefragBlocks(h, h');
    AllocExactly(h', n);
    hide Defragmented, Valid, AllocStep, BestFit;
    var count, t', free := |Blocks(h.bytes, h.table)|, h'.table, SumFree(h.table);
    if n <= free {
      assert Fits(t'[count], n);
    } else {
      assert forall k | 0 <= k < |t'| :: !Fits(t'[k], n);
    }
  }

  /** After defrag a reallocation fails exactly when the free bytes do not suffice for
      a copy, or for the last of the live areas, to grow by. */
  lemma ReallocAfterDefrag(h: Heap, h': Heap, i: nat, n: nat)
    requires Valid(h) && Defragmented(h, h') && i < |h'.table| && !h'.table[i].free && n > 0
    ensures var size, free, last := h'.table[i].size, SumFree(h.table), i + 1 == |Blocks(h.bytes, h.table)|;
            ReallocStep(h', i, n).1 == NoMemory <==> n > size && n > free + (if last then size else 0)
  {
    DefragBlocks(h, h');
    ReallocExactly(h', i, n);
    hide Defragmented, Valid, ReallocStep;
    var count, t', free := |Blocks(h.bytes, h.table)|, h'.table, SumFree(h.table);
    assert forall k | 0 <= k < |t'| :: t'[k].free <==> k == count;
    assert FreeBefore(t', i) == 0;
    assert FreeAfter(t', i) == if i + 1 == count then free else 0;
    if free > 0 {
      assert t'[count].free && t'[count].size == free;
    }
  }

  // ----- adjacent free areas -----

  lemma FragmentsAppend(a: seq<Area>, b: seq<Area>)
    ensures NoAdjacentFree(a + b) <==>
              NoAdjacentFree(a) && NoAdjacentFree(b) && (a != [] && b != [] ==> !(a[|a| - 1].free && b[0].free))
  {
    var s := a + b;
    if NoAdjacentFree(s) {
      forall k | 0 < k < |b|
        ensures !(b[k - 1].free && b[k].free)
      {
        assert s[|a| + k - 1] == b[k - 1] && s[|a| + k] == b[k];
      }
      forall k | 0 < k < |a|
        ensures !(a[k - 1].free && a[k].free)
      {
        assert s[k - 1] == a[k - 1] && s[k] == a[k];
      }
      assert a != [] && b != [] ==> s[|a| - 1] == a[|a| - 1] && s[|a|] == b[0] && !(s[|a| - 1].free && s[|a|].free);
    }
  }

  lemma SpliceFragments(t: seq<Area>, i: nat, j: nat, r: seq<Area>)
    requires NoAdjacentFree(t) && i <= j <= |t| && r != []
    ensures NoAdjacentFree(Splice(t, i, j, r)) <==>
              && NoAdjacentFree(r)
              && (i > 0 ==> !(t[i - 1].free && r[0].free))
              && (j < |t| ==> !(r[|r| - 1].free && t[j].free))
  {
    FragmentsAppend(t[..i] + r, t[j..]);
    FragmentsAppend(t[..i], r);
  }

  lemma AllocKeepsUnited(h: Heap, j: nat, n: nat)
    requires NoAdjacentFree(h.table) && j < |h.table| && Fits(h.table[j], n)
    ensures NoAdjacentFree(Place(h, j, n).table)
  {
    var f := h.table[j];
    if f.size == n {
      assert h.table[j := f.(free := false)] == Splice(h.table, j, j + 1, [f.(free := false)]);
      SpliceFragments(h.table, j, j + 1, [f.(free := false)]);
    } else {
      SpliceFragments(h.table, j, j + 1,
                      [Area(h.next, f.start, n, false), f.(start := f.start + n, size := f.size - n)]);
    }
  }

  lemma FreeKeepsUnited(h: Heap, i: nat)
    requires NoAdjacentFree(h.table) && i < |h.table|
    ensures NoAdjacentFree(Release(h, i).table)
  {
    var t := h.table[i := h.table[i].(free := true)];
    var lo, hi := RunStart(t, i), RunEnd(t, i);
    var u := t[lo].(size := SumSizes(t[lo..hi]));
    assert Splice(t, lo, hi, [u]) == Splice(h.table, lo, hi, [u]);
    SpliceFragments(h.table, lo, hi, [u]);
  }

  lemma DefragUnites(h: Heap, h': Heap)
    requires Valid(h) && Defragmented(h, h')
    ensures NoAdjacentFree(h'.table)
  {
    forall k | 0 < k < |h'.table|
      ensures !(h'.table[k - 1].free && h'.table[k].free)
    {
      assert !h'.table[k - 1].free;
    }
  }

  /** realloc is the one operation that can leave two free areas side by side, and
      does so exactly when it shrinks next to a free area, or moves left without
      using up the gap while a (too small) free area follows. */
  predicate Fragments(t: seq<Area>, i: nat, n: nat)
    requires i < |t|
  {
    && i + 1 < |t| && t[i + 1].free
    && (n < t[i].size || (n > t[i].size && !CanExtend(t, i, n) && CanMoveLeft(t, i) && t[i - 1].size + t[i].size > n))
  }

  lemma ReallocFragmentsExactly(h: Heap, i: nat, n: nat)
    requires Valid(h) && i < |h.table| && !h.table[i].free && n > 0 && NoAdjacentFree(h.table)
    ensures NoAdjacentFree(ReallocStep(h, i, n).0.table) <==> !Fragments(h.table, i, n)
  {
    var t, a := h.table, h.table[i];
    TilesBounds(t, 0, |h.bytes|);
    if n < a.size {
      ShrinkFragments(h, i, n);
    } else if n == a.size {
    } else if CanExtend(t, i, n) {
      ExtendFragments(h, i, n);
    } else if CanMoveAndExtend(t, i, n) {
      MoveAndExtendFragments(h, i, n);
    } else if BestFit(t, n).Some? {
      CopyGrowFragments(h, i, BestFit(t, n).value, n);
    }
  }

  /** From a fresh allocator: allocating n bytes and shrinking them to m leaves two
      adjacent free areas. */
  lemma FragmentsReached(bytes: seq<Byte>, n: nat, m: nat)
    requires 0 < m < n < |bytes|
    ensures var h0 := Initial(bytes);
            var (h1, out) := AllocStep(h0, n);
            && Valid(h0) && NoAdjacentFree(h0.table) && Valid(h1) && NoAdjacentFree(h1.table)
            && |h1.table| == 2 && out == Handle(h1.table[0].node) && !h1.table[0].free
            && Fragments(h1.table, 0, m)
            && !NoAdjacentFree(ReallocStep(h1, 0, m).0.table)
  {
    var h0 := Initial(bytes);
    InitialValid(bytes);
    assert h0.table[..0] == [];
    assert BestFit(h0.table, n) == Some(0);
    AllocRefines(h0, n);
    var h1 := AllocStep(h0, n).0;
    assert h1.table == [Area(1, 0, n, false), Area(0, n, |bytes| - n, true)];
    ReallocFragmentsExactly(h1, 0, m);
  }

  lemma ShrinkFragments(h: Heap, i: nat, n: nat)
    requires NoAdjacentFree(h.table) && i < |h.table| && !h.table[i].free && 0 < n < h.table[i].size
    ensures NoAdjacentFree(Shrink(h, i, n).table) <==> !(i + 1 < |h.table| && h.table[i + 1].free)
  {
    var a := h.table[i];
    SpliceFragments(h.table, i, i + 1, [a.(size := n), Area(h.next, a.start + n, a.size - n, true)]);
  }

  lemma CopyGrowFragments(h: Heap, i: nat, k: nat, n: nat)
    requires NoAdjacentFree(h.table) && i < |h.table| && !h.table[i].free && h.table[i].size <= n
    requires k < |h.table| && Fits(h.table[k], n)
    requires h.table[i].End() <= |h.bytes| && h.table[k].End() <= |h.bytes|
    ensures NoAdjacentFree(CopyGrow(h, i, k, n).table)
  {
    AllocKeepsUnited(h, k, n);
    PlaceKeepsOthers(h, i, k, n);
    FreeKeepsUnited(PlaceCopy(h, i, k, n), ShiftedIndex(h.table, i, k, n));
  }

  lemma ExtendFragments(h: Heap, i: nat, n: nat)
    requires Valid(h) && i < |h.table| && !h.table[i].free && h.table[i].size < n && CanExtend(h.table, i, n)
    requires NoAdjacentFree(h.table)
    ensures NoAdjacentFree(Extend(h, i, n).table)
  {
    var a, f := h.table[i], h.table[i + 1];
    var more := n - a.size;
    var tail := if f.size == more then [] else [f.(start := f.start + more, size := f.size - more)];
    SpliceFragments(h.table, i, i + 2, [a.(size := n)] + tail);
  }

  lemma MoveAndExtendFragments(h: Heap, i: nat, n: nat)
    requires Valid(h) && i < |h.table| && h.table[i].size < n && CanMoveAndExtend(h.table, i, n)
    requires !CanExtend(h.table, i, n)
    requires NoAdjacentFree(h.table)
    ensures h.table[i - 1].End() == h.table[i].start && h.table[i].End() <= |h.bytes|
    ensures CanExtend(MoveLeft(h, i).table, i - 1, n)
    ensures NoAdjacentFree(Extend(MoveLeft(h, i), i - 1, n).table) <==> !Fragments(h.table, i, n)
  {
    MoveLeftCorrect(h, i);
    var t, f, a, h1 := h.table, h.table[i - 1], h.table[i], MoveLeft(h, i);
    var a' := a.(start := f.start, size := n);
    var tail := if f.size == n - a.size then []
                else [Area(h.next, f.start + a.size + (n - a.size), f.size - (n - a.size), true)];
    assert h1.table[..i - 1] == t[..i - 1] && h1.table[i + 1..] == t[i + 1..];
    assert Extend(h1, i - 1, n).table == Splice(t, i - 1, i + 1, [a'] + tail);
    hide Valid, MoveLeft, Extend, Splice;
    SpliceFragments(t, i - 1, i + 1, [a'] + tail);
  }

  // ----- alloc, then free -----

  /** Equal up to node identities. */
  ghost predicate SameAreas(t: seq<Area>, t': seq<Area>)
  {
    && |t| == |t'|
    && forall k | 0 <= k < |t| :: t[k].start == t'[k].start && t[k].size == t'[k].size && t[k].free == t'[k].free
  }

  /** From a table without adjacent free areas, freeing what was just allocated
      restores the table and the bytes. */
  lemma {:induction false} AllocThenFree(h: Heap, n: nat)
    requires Valid(h) && NoAdjacentFree(h.table) && n > 0 && BestFit(h.table, n).Some?
    ensures var j := BestFit(h.table, n).value;
            var h2 := Release(Place(h, j, n), j);
            h2.bytes == h.bytes && SameAreas(h2.table, h.table)
  {
    var j := BestFit(h.table, n).value;
    assert j > 0 ==> !h.table[j - 1].free;
    assert j + 1 < |h.table| ==> !h.table[j + 1].free;
    if h.table[j].size == n {
      WholeThenFree(h, j);
    } else {
      PartThenFree(h, j, n);
    }
  }

  lemma WholeThenFree(h: Heap, j: nat)
    requires j < |h.table| && h.table[j].free
    requires j > 0 ==> !h.table[j - 1].free
    requires j + 1 < |h.table| ==> !h.table[j + 1].free
    ensures SameAreas(Release(Place(h, j, h.table[j].size), j).table, h.table)
  {
    var h1 := Place(h, j, h.table[j].size);
    assert h1.table[j := h1.table[j].(free := true)] == h.table;
    UnitedRun(h.table, j, j + 1, j);
    SumOne(h.table, j);
    SpliceSame(h.table, j);
  }

  lemma SpliceSame(t: seq<Area>, j: nat)
    requires j < |t|
    ensures Splice(t, j, j + 1, [t[j]]) == t
  {
  }

  lemma SpliceTwice(t: seq<Area>, j: nat, a: Area, b: Area, u: Area)
    requires j < |t|
    ensures var s := Splice(t, j, j + 1, [a, b]);
            s[j..j + 2] == [a, b] && Splice(s, j, j + 2, [u]) == t[j := u]
  {
    var s := Splice(t, j, j + 1, [a, b]);
    assert s[..j] == t[..j];
    assert s[j + 2..] == t[j + 1..];
    assert t[j := u] == t[..j] + [u] + t[j + 1..];
  }

  lemma SpliceThenSet(t: seq<Area>, j: nat, a: Area, b: Area, a': Area)
    requires j < |t|
    ensures Splice(t, j, j + 1, [a, b])[j := a'] == Splice(t, j, j + 1, [a', b])
  {
  }

  /** A free run of two areas that came from one unites to that one, by value. */
  lemma PartsUnite(t: seq<Area>, j: nat, a: Area, b: Area)
    requires j < |t| && a.free && b.free
    requires a.start == t[j].start && a.size + b.size == t[j].size && t[j].free
    requires (j > 0 ==> !t[j - 1].free) && (j + 1 < |t| ==> !t[j + 1].free)
    ensures SameAreas(United(Splice(t, j, j + 1, [a, b]), j), t)
  {
    var s := Splice(t, j, j + 1, [a, b]);
    assert j + 2 < |s| ==> s[j + 2] == t[j + 1];
    UnitedRun(s, j, j + 2, j);
    SpliceTwice(t, j, a, b, a.(size := t[j].size));
    SumTwo(a, b);
  }

  lemma PartThenFree(h: Heap, j: nat, n: nat)
    requires j < |h.table| && Fits(h.table[j], n) && n < h.table[j].size
    requires j > 0 ==> !h.table[j - 1].free
    requires j + 1 < |h.table| ==> !h.table[j + 1].free
    ensures SameAreas(Release(Place(h, j, n), j).table, h.table)
  {
    var f, h1 := h.table[j], Place(h, j, n);
    var a, rest := Area(h.next, f.start, n, true), f.(start := f.start + n, size := f.size - n);
    SpliceThenSet(h.table, j, h1.table[j], rest, a);
    PartsUnite(h.table, j, a, rest);
  }
}

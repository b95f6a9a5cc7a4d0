/** The relocating allocator: a best-fit allocator over one byte region that moves
    live areas, and the handles that follow them. */
module RelocatingAllocator {
  import opened Basics
  import opened Areas
  import opened HeapModel
  import opened Refinement
  import opened Fragmentation
  import opened Layout

  datatype AllocError = InvalidFreeError | NoMemoryError

  /** A handle: the allocator it belongs to, if it is valid, and its list node. */
  class Pointer {
    var owner: Allocator?
    var node: nat

    constructor ()
      ensures owner == null
    {
      owner, node := null, 0;
    }

    constructor Copy(p: Pointer)
      ensures owner == p.owner && node == p.node
    {
      owner, node := p.owner, p.node;
    }

    method Assign(p: Pointer)
      modifies this
      ensures owner == old(p.owner) && node == old(p.node)
    {
      owner, node := p.owner, p.node;
    }

    /** The handle's current address; a valid handle must not be a stale copy. */
    method Get() returns (address: Option<nat>)
      requires owner != null ==> owner.Valid() && owner.IsLive(node)
      ensures owner == null ==> address == None
      ensures owner != null ==>
                && address.Some?
                && exists i: nat :: IsLiveAt(owner.table, node, i) && address.value == owner.table[i].start
      ensures owner != null ==>
                && node in Meaning(owner.Snapshot())
                && var data := Meaning(owner.Snapshot())[node];
                   && address.value + |data| <= owner.mem.Length
                   && owner.mem[address.value..address.value + |data|] == data
    {
      if owner == null {
        return None;
      }
      var i := owner.Deref(node);
      MeaningAt(owner.Snapshot(), i);
      address := Some(owner.table[i].start);
    }
  }

  class Allocator {
    const mem: array<Byte>
    var table: seq<Area>
    var next: nat

    ghost function Snapshot(): Heap
      reads this, mem
    {
      Heap(mem[..], table, next)
    }

    ghost predicate Valid()
      reads this, mem
    {
      HeapModel.Valid(Snapshot())
    }

    ghost predicate IsLive(x: nat)
      reads this
    {
      exists i :: IsLiveAt(table, x, i)
    }

    constructor (base: array<Byte>)
      requires base.Length > 0
      ensures mem == base
      ensures Valid() && Snapshot() == Initial(base[..]) && Meaning(Snapshot()) == map[]
    {
      mem := base;
      table := [Area(0, 0, base.Length, true)];
      next := 1;
      InitialValid(base[..]);
    }

    /** The position of a live handle's node. */
    method Deref(x: nat) returns (i: nat)
      requires Valid() && IsLive(x)
      ensures IsLiveAt(table, x, i)
      ensures forall k :: IsLiveAt(table, x, k) ==> k == i
    {
      ghost var k :| IsLiveAt(table, x, k);
      assert IsIndexOf(table, x, k);
      i := IndexOf(table, x);
    }

    // ----- helpers on the table -----

    method RangeMemoryAmount(first: nat, last: nat) returns (amount: nat)
      requires first <= last <= |table|
      ensures amount == SumSizes(table[first..last])
    {
      amount := 0;
      var current := first;
      while current != last
        invariant first <= current <= last
        invariant amount + SumSizes(table[current..last]) == SumSizes(table[first..last])
        decreases last - current
      {
        assert table[current..last][1..] == table[current + 1..last];
        amount := amount + table[current].size;
        current := current + 1;
      }
    }

    /** Unites the free run around fs; does nothing at the end of the table or at an
        allocated area. */
    method UniteFreeSpace(fs: nat) returns (area: Option<nat>)
      requires fs <= |table|
      modifies this`table
      ensures fs == |old(table)| || !old(table)[fs].free ==> area == None && table == old(table)
      ensures fs < |old(table)| && old(table)[fs].free ==>
                area == Some(RunStart(old(table), fs)) && table == United(old(table), fs)
    {
      if fs == |table| {
        return None;
      }
      if !table[fs].free {
        return None;
      }
      var highest := fs;
      while highest != 0
        invariant highest <= fs
        invariant table[highest].free
        invariant RunStart(table, highest) == RunStart(table, fs)
      {
        if table[highest - 1].free {
          highest := highest - 1;
        } else {
          break;
        }
      }
      var lowest := fs + 1;
      while lowest != |table| && table[lowest].free
        invariant fs < lowest <= |table|
        invariant table[lowest - 1].free
        invariant RunEnd(table, lowest - 1) == RunEnd(table, fs)
        decreases |table| - lowest
      {
        lowest := lowest + 1;
      }
      if highest != lowest - 1 {
        Collapse(highest, lowest);
      } else {
        SumOne(table, highest);
      }
      return Some(highest);
    }

    /** Gives the size of all the areas from highest up to lowest to the first of
        them and erases the others. */
    method Collapse(highest: nat, lowest: nat)
      requires highest < lowest <= |table|
      modifies this`table
      ensures table == Splice(old(table), highest, lowest,
                              [old(table)[highest].(size := SumSizes(old(table)[highest..lowest]))])
    {
      var cumulative := RangeMemoryAmount(highest, lowest);
      table := table[highest := table[highest].(size := cumulative)];
      table := table[..highest + 1] + table[lowest..];
    }

    /** memcpy, which is defined only between ranges that do not overlap. */
    method Memcpy(dst: nat, src: nat, count: nat)
      requires dst + count <= mem.Length && src + count <= mem.Length
      requires dst + count <= src || src + count <= dst
      modifies mem
      ensures mem[..] == Copied(old(mem[..]), dst, src, count)
    {
      forall k | 0 <= k < count {
        mem[dst + k] := mem[src + k];
      }
    }

    /** Moves size bytes from src down to dst.  The bytes go in chunks of the gap's
        size when they are more than the gap, so that no chunk overlaps its
        destination; the outcome is that of moving them all at once. */
    method MoveBytes(dst: nat, src: nat, size: nat)
      requires dst < src && src + size <= mem.Length
      modifies mem
      ensures mem[..] == Copied(old(mem[..]), dst, src, size)
    {
      if src - dst >= size {
        Memcpy(dst, src, size);
      } else {
        ghost var bytes := mem[..];
        var remaining := size;
        var offset := 0;
        assert Copied(bytes, dst, src, 0) == bytes;
        while remaining > 0
          invariant 0 <= offset <= size && remaining == size - offset
          invariant mem[..] == Copied(bytes, dst, src, offset)
          decreases remaining
        {
          var chunk := src - dst;
          if chunk > remaining {
            chunk := remaining;
          }
          MoveChunk(bytes, dst, src, offset, chunk);
          offset := offset + chunk;
          remaining := remaining - chunk;
        }
      }
    }

    method MoveChunk(ghost bytes: seq<Byte>, dst: nat, src: nat, offset: nat, chunk: nat)
      requires |bytes| == mem.Length && dst < src && src + offset + chunk <= mem.Length && chunk <= src - dst
      requires mem[..] == Copied(bytes, dst, src, offset)
      modifies mem
      ensures mem[..] == Copied(bytes, dst, src, offset + chunk)
    {
      MovedByChunk(bytes, dst, src, offset, chunk);
      Memcpy(dst + offset, src + offset, chunk);
    }

    /** Swaps the allocated area i with the free area before it. */
    method MoveToPreviousFree(i: nat) returns (moved: bool)
      requires Valid() && i <= |table|
      modifies this, mem
      ensures moved <==> CanMoveLeft(old(table), i)
      ensures !moved ==> Snapshot() == old(Snapshot())
      ensures moved ==> old(table)[i - 1].End() == old(table)[i].start && old(table)[i].End() <= mem.Length
      ensures moved ==> Snapshot() == MoveLeft(old(Snapshot()), i)
      ensures Valid()
    {
      if i == 0 {
        return false;
      } else if i == |table| {
        return false;
      } else if table[i].free {
        return false;
      }
      if table[i - 1].free {
        MoveLeftCorrect(Snapshot(), i);
        Adjacent(Snapshot(), i - 1);
        SwapAreas(i);
        return true;
      } else {
        return false;
      }
    }

    method SwapAreas(i: nat)
      requires CanMoveLeft(table, i) && table[i].End() <= mem.Length
      requires table[i - 1].End() == table[i].start && table[i - 1].size > 0
      modifies this, mem
      ensures Snapshot() == MoveLeft(old(Snapshot()), i)
    {
      var prev, area := table[i - 1], table[i];
      MoveBytes(prev.start, area.start, area.size);
      var newFree := Area(next, prev.start + area.size, prev.size, true);
      next := next + 1;
      area := area.(start := prev.start);
      table := table[i := area];
      table := table[..i - 1] + table[i..];
      table := table[..i] + [newFree] + table[i..];
      assert table == Splice(old(table), i - 1, i + 1, [area, newFree]);
    }

    /** Grows the allocated area i into the free area after it. */
    method ExtendToNextFree(i: nat, newSize: nat) returns (extended: bool)
      requires i <= |table| && (i < |table| && !table[i].free ==> newSize > table[i].size)
      modifies this`table
      ensures extended <==> i < |old(table)| && !old(table)[i].free && CanExtend(old(table), i, newSize)
      ensures Snapshot() == if extended then Extend(old(Snapshot()), i, newSize) else old(Snapshot())
    {
      if i == |table| {
        return false;
      } else if table[i].free {
        return false;
      }
      if i + 1 == |table| {
        return false;
      } else if !table[i + 1].free {
        return false;
      } else if table[i + 1].size < newSize - table[i].size {
        return false;
      }
      var more := newSize - table[i].size;
      table := table[i + 1 := table[i + 1].(start := table[i + 1].start + more, size := table[i + 1].size - more)];
      table := table[i := table[i].(size := newSize)];
      if table[i + 1].size == 0 {
        table := table[..i + 1] + table[i + 2..];
      }
      assert table == Extend(old(Snapshot()), i, newSize).table;
      return true;
    }

    // ----- the interface -----

    ghost function OutcomeOf(p: Pointer, e: Option<AllocError>): Outcome
      reads p
    {
      if e.Some? then NoMemory else if p.owner == null then NullHandle else Handle(p.node)
    }

    /** The first of the smallest free areas that can hold n bytes, if any. */
    method FindBestFree(n: nat) returns (r: Option<nat>)
      ensures r == BestFit(table, n)
    {
      var bestIsSet, minDifference, best := false, 0, 0;
      var current := 0;
      while current != |table|
        invariant current <= |table|
        invariant bestIsSet <==> BestFit(table[..current], n).Some?
        invariant bestIsSet ==>
                    && BestFit(table[..current], n) == Some(best)
                    && Fits(table[best], n) && minDifference == table[best].size - n
        decreases |table| - current
      {
        if table[current].free && table[current].size >= n {
          if !bestIsSet || minDifference > table[current].size - n {
            minDifference := table[current].size - n;
            best := current;
            bestIsSet := true;
          }
        }
        assert table[..current + 1][..current] == table[..current];
        current := current + 1;
      }
      assert table[..current] == table;
      return if bestIsSet then Some(best) else None;
    }

    method Alloc(n: nat) returns (p: Pointer, e: Option<AllocError>)
      requires Valid()
      modifies this
      ensures Valid()
      ensures fresh(p) && p.owner in {null, this} && e in {None, Some(NoMemoryError)}
      ensures e.Some? ==> p.owner == null
      ensures (Snapshot(), OutcomeOf(p, e)) == AllocStep(old(Snapshot()), n)
      ensures AllocLeaves(old(Snapshot()), n, OutcomeOf(p, e), Snapshot())
      ensures p.owner == this ==> IsLive(p.node)
    {
      hide AllocLeaves;
      AllocStepLeaves(Snapshot(), n);
      p := new Pointer();
      e := None;
      if n == 0 {
        return;
      }
      var best := FindBestFree(n);
      if best == None {
        e := Some(NoMemoryError);
        return;
      }
      var j := best.value;
      PlaceCorrect(Snapshot(), j, n);
      p.node := Carve(j, n);
      assert IsLiveAt(table, p.node, j);
      p.owner := this;
    }

    method Carve(j: nat, n: nat) returns (node: nat)
      requires j < |table| && Fits(table[j], n)
      modifies this
      ensures Snapshot() == Place(old(Snapshot()), j, n) && node == PlacedNode(old(Snapshot()), j, n)
    {
      if table[j].size == n {
        table := table[j := table[j].(free := false)];
        node := table[j].node;
      } else {
        var taken := Area(next, table[j].start, n, false);
        node := next;
        next := next + 1;
        table := table[..j] + [taken] + table[j..];
        table := table[j + 1 := table[j + 1].(start := table[j + 1].start + n, size := table[j + 1].size - n)];
      }
      assert table == Place(old(Snapshot()), j, n).table;
    }

    method Free(p: Pointer) returns (e: Option<AllocError>)
      requires Valid() && (p.owner == this ==> IsLive(p.node))
      modifies this, p
      ensures Valid()
      ensures old(p.owner) != this ==> e == Some(InvalidFreeError) && unchanged(this) && unchanged(p)
      ensures old(p.owner) == this ==>
                && e == None && p.owner == null
                && Step(old(Snapshot()), Op.Free(old(p.node)), NullHandle, Snapshot())
                && Leaves(old(Snapshot()), Op.Free(old(p.node)), NullHandle, Snapshot())
    {
      hide Leaves;
      if p.owner != this {
        return Some(InvalidFreeError);
      }
      var i := Deref(p.node);
      ReleaseCorrect(Snapshot(), i);
      table := table[i := table[i].(free := true)];
      var _ := UniteFreeSpace(i);
      assert Snapshot() == Release(old(Snapshot()), i);
      p.node, p.owner := 0, null;
      StepLeaves(old(Snapshot()), Op.Free(old(p.node)), NullHandle, Snapshot());
      return None;
    }

    method Realloc(p: Pointer, n: nat) returns (e: Option<AllocError>)
      requires Valid() && (p.owner == this ==> IsLive(p.node))
      modifies this, mem, p
      ensures Valid()
      ensures old(p.owner) !in {null, this} ==>
                e == Some(InvalidFreeError) && unchanged(this) && unchanged(mem) && unchanged(p)
      ensures old(p.owner) in {null, this} ==>
                && e in {None, Some(NoMemoryError)}
                && var op := Op.Realloc(if old(p.owner) == null then None else Some(old(p.node)), n);
                   && Step(old(Snapshot()), op, OutcomeOf(p, e), Snapshot())
                   && Leaves(old(Snapshot()), op, OutcomeOf(p, e), Snapshot())
      ensures e.Some? ==> unchanged(p) && Snapshot() == old(Snapshot())
      ensures p.owner == this ==> IsLive(p.node)
    {
      hide Leaves, AllocLeaves;
      if p.owner != null && p.owner != this {
        return Some(InvalidFreeError);
      }
      ghost var op := Op.Realloc(if p.owner == null then None else Some(p.node), n);
      e := None;
      if n == 0 {
        if p.owner != null {
          e := Free(p);
        }
      } else if p.owner == null {
        var q;
        q, e := Alloc(n);
        if e == None {
          p.Assign(q);
        }
      } else {
        var i := Deref(p.node);
        MeaningAt(Snapshot(), i);
        ReallocRefines(Snapshot(), i, n);
        var done := ReallocInPlace(i, n);
        if !done {
          e := CopyRealloc(p, i, n);
        }
      }
      StepLeaves(old(Snapshot()), op, OutcomeOf(p, e), Snapshot());
    }

    /** The part of Realloc that does not need a second area. */
    method ReallocInPlace(i: nat, n: nat) returns (done: bool)
      requires Valid() && i < |table| && !table[i].free && n > 0
      modifies this, mem
      ensures Valid()
      ensures done <==> old(n <= table[i].size + FreeAfter(table, i) || n <= table[i].size + FreeBefore(table, i))
      ensures done ==> (Snapshot(), Handle(old(table[i].node))) == ReallocStep(old(Snapshot()), i, n)
      ensures done ==> ReallocLeaves(old(Snapshot()), i, n, Handle(old(table[i].node)), Snapshot())
      ensures done ==> IsLive(old(table[i].node))
      ensures !done ==> Snapshot() == old(Snapshot())
    {
      hide ReallocLeaves;
      ghost var x := table[i].node;
      ReallocRefines(Snapshot(), i, n);
      ReallocStepLeaves(Snapshot(), i, n);
      if table[i].size < n {
        RoomExactly(table, i, n);
      }
      if n < table[i].size {
        CutTail(i, n);
        assert IsLiveAt(table, x, i);
        return true;
      } else if n == table[i].size {
        assert IsLiveAt(table, x, i);
        return true;
      }
      done := ExtendToNextFree(i, n);
      if done {
        assert IsLiveAt(table, x, i);
        return;
      }
      if i != 0 {
        if table[i - 1].size + table[i].size >= n {
          done := MoveToPreviousFree(i);
          if done {
            MoveLeftCorrect(old(Snapshot()), i);
            done := ExtendToNextFree(i - 1, n);
            assert IsLiveAt(table, x, i - 1);
          }
        }
      }
    }

    method CutTail(i: nat, n: nat)
      requires i < |table| && 0 < n < table[i].size
      modifies this
      ensures Snapshot() == Shrink(old(Snapshot()), i, n)
    {
      var rest := Area(next, table[i].start + n, table[i].size - n, true);
      next := next + 1;
      table := table[..i + 1] + [rest] + table[i + 1..];
      table := table[i := table[i].(size := n)];
      assert table == Shrink(old(Snapshot()), i, n).table;
    }

    /** The last part of Realloc: allocate, copy, release. */
    method CopyRealloc(p: Pointer, ghost i: nat, n: nat) returns (e: Option<AllocError>)
      requires Valid() && p.owner == this && IsLiveAt(table, p.node, i)
      requires 0 < table[i].size < n
      requires n > table[i].size + FreeAfter(table, i) && n > table[i].size + FreeBefore(table, i)
      modifies this, mem, p
      ensures Valid()
      ensures e in {None, Some(NoMemoryError)} && p.owner == this
      ensures (Snapshot(), OutcomeOf(p, e)) == ReallocStep(old(Snapshot()), i, n)
      ensures e.Some? ==> unchanged(p) && Snapshot() == old(Snapshot())
      ensures IsLive(p.node)
    {
      ghost var h0 := Snapshot();
      RoomExactly(table, i, n);
      var q;
      q, e := Alloc(n);
      if e.Some? {
        assert IsLiveAt(table, p.node, i);
        return;
      }
      ghost var k := BestFit(h0.table, n).value;
      CopyGrowPlan(h0, i, k, n);
      assert Snapshot() == Place(h0, k, n) && q.node == PlacedNode(h0, k, n);
      CopyTo(p, q, h0, i, k, n);
    }

    method CopyTo(p: Pointer, q: Pointer, ghost h0: Heap, ghost i: nat, ghost k: nat, n: nat)
      requires HeapModel.Valid(h0) && i < |h0.table| && !h0.table[i].free
      requires p.owner == this && p.node == h0.table[i].node
      requires k < |h0.table| && Fits(h0.table[k], n) && h0.table[i].size < n
      requires h0.table[i].End() <= |h0.bytes| && h0.table[k].End() <= |h0.bytes|
      requires Valid() && Snapshot() == Place(h0, k, n) && q.node == PlacedNode(h0, k, n)
      requires q.owner == this && p != q
      modifies this, mem, p
      ensures Valid() && Snapshot() == CopyGrow(h0, i, k, n)
      ensures p.owner == this && p.node == PlacedNode(h0, k, n)
      ensures IsLive(p.node)
    {
      CopyGrowPlan(h0, i, k, n);
      var from := Deref(p.node);
      var to := Deref(q.node);
      Memcpy(table[to].start, table[from].start, table[from].size);
      assert Snapshot() == PlaceCopy(h0, i, k, n);
      var e := Free(p);
      p.Assign(q);
    }

    /** A caller's write through a valid handle. */
    method Store(p: Pointer, offset: nat, value: Byte)
      requires Valid() && p.owner == this && IsLive(p.node)
      requires p.node in Meaning(Snapshot()) && offset < |Meaning(Snapshot())[p.node]|
      modifies mem
      ensures Valid()
      ensures Step(old(Snapshot()), Op.Store(p.node, offset, value), Handle(p.node), Snapshot())
    {
      var i := Deref(p.node);
      MeaningAt(Snapshot(), i);
      StoreRefines(Snapshot(), i, offset, value);
      mem[table[i].start + offset] := value;
      assert mem[..] == old(mem[..])[table[i].start + offset := value];
    }

    /** Moves all allocated areas to the base of the region, in their order. */
    method Defrag()
      requires Valid()
      modifies this, mem
      ensures Valid()
      ensures Step(old(Snapshot()), Op.Defrag, NullHandle, Snapshot())
      ensures Packed(old(Snapshot()), Snapshot())
    {
      hide Packed;
      UniteKeeps(0);
      var freeArea := 0;
      while freeArea != |table|
        invariant freeArea <= |table|
        invariant Valid() && next >= old(next)
        invariant Blocks(mem[..], table) == Blocks(old(mem[..]), old(table))
        invariant forall k | 0 <= k < freeArea && k < |table| - 1 :: !table[k].free
        decreases |table| - freeArea
      {
        if table[freeArea].free {
          PackOne(freeArea);
        }
        freeArea := freeArea + 1;
      }
      DefragLeaves(old(Snapshot()), Snapshot());
    }

    /** One round of the defrag loop: the free run at freeArea changes places with
        the allocated area after it, if there is one. */
    method PackOne(freeArea: nat)
      requires Valid() && freeArea < |table| && table[freeArea].free
      requires forall k | 0 <= k < freeArea :: !table[k].free
      modifies this, mem
      ensures Valid() && next >= old(next)
      ensures Blocks(mem[..], table) == old(Blocks(mem[..], table))
      ensures freeArea < |table| <= |old(table)|
      ensures forall k | 0 <= k <= freeArea && k < |table| - 1 :: !table[k].free
    {
      UniteKeeps(freeArea);
      var allocatedArea := freeArea + 1;
      ghost var h := Snapshot();
      if allocatedArea < |table| {
        MoveLeftBlocks(h, allocatedArea);
        MoveLeftCorrect(h, allocatedArea);
      }
      var _ := MoveToPreviousFree(allocatedArea);
    }

    /** UniteFreeSpace as defrag uses it: at a free area with none before it. */
    method UniteKeeps(fs: nat)
      requires Valid() && fs < |table| && (fs > 0 ==> !table[fs - 1].free)
      modifies this`table
      ensures Valid()
      ensures Blocks(mem[..], table) == old(Blocks(mem[..], table))
      ensures fs < |table| <= |old(table)| && table[..fs] == old(table)[..fs] && table[fs].free == old(table)[fs].free
      ensures table[fs].free && fs + 1 < |table| ==> !table[fs + 1].free
    {
      if table[fs].free {
        UniteCorrect(Snapshot(), fs);
        UniteBlocks(Snapshot(), fs);
      }
      var _ := UniteFreeSpace(fs);
    }
  }

  lemma CopyGrowPlan(h: Heap, i: nat, k: nat, n: nat)
    requires HeapModel.Valid(h) && i < |h.table| && !h.table[i].free
    requires k < |h.table| && Fits(h.table[k], n) && h.table[i].size < n
    ensures h.table[i].End() <= |h.bytes| && h.table[k].End() <= |h.bytes|
    ensures h.table[i].End() <= h.table[k].start || h.table[k].End() <= h.table[i].start
    ensures var h1, i' := Place(h, k, n), ShiftedIndex(h.table, i, k, n);
            && IsLiveAt(h1.table, h.table[i].node, i') && h1.table[i'] == h.table[i]
            && IsLiveAt(h1.table, PlacedNode(h, k, n), k) && h1.table[k].start == h.table[k].start
            && HeapModel.Valid(PlaceCopy(h, i, k, n)) && HeapModel.Valid(CopyGrow(h, i, k, n))
            && PlacedNode(h, k, n) in Meaning(CopyGrow(h, i, k, n))
    ensures exists j :: IsLiveAt(CopyGrow(h, i, k, n).table, PlacedNode(h, k, n), j)
  {
    TilesBounds(h.table, 0, |h.bytes|);
    if i < k {
      LiveRangesDisjoint(h, i, k);
    } else {
      LiveRangesDisjoint(h, k, i);
    }
    PlaceCorrect(h, k, n);
    PlaceKeepsOthers(h, i, k, n);
    PlaceCopyCorrect(h, i, k, n);
    CopyGrowCorrect(h, i, k, n);
    var h' := CopyGrow(h, i, k, n);
    ContentsKeys(h'.bytes, h'.table, PlacedNode(h, k, n));
    var j :| 0 <= j < |h'.table| && !h'.table[j].free && h'.table[j].node == PlacedNode(h, k, n);
    assert IsLiveAt(h'.table, PlacedNode(h, k, n), j);
  }

  /** A chunk no longer than the gap overwrites no byte that is still to be moved:
      moving offset bytes and then a chunk is moving all of them at once. */
  lemma MovedByChunk(bytes: seq<Byte>, dst: nat, src: nat, offset: nat, chunk: nat)
    requires dst < src && src + offset + chunk <= |bytes| && chunk <= src - dst
    ensures |Copied(bytes, dst, src, offset)| == |bytes|
    ensures Copied(Copied(bytes, dst, src, offset), dst + offset, src + offset, chunk)
         == Copied(bytes, dst, src, offset + chunk)
  {
  }
}

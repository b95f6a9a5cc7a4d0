/** The allocator refines a plain map from handle to bytes, over every run. */
module Refinement {
  import opened Basics
  import opened Areas
  import opened HeapModel

  datatype Op =
    | Alloc(n: nat)
    | Free(node: nat)
    | Realloc(handle: Option<nat>, n: nat)
    | Defrag
    | Store(node: nat, offset: nat, value: Byte)

  /** What the caller is left with: a valid handle, an invalid one, or NoMemory. */
  datatype Outcome = Handle(node: nat) | NullHandle | NoMemory

  ghost predicate IsLiveAt(t: seq<Area>, x: nat, i: nat)
  {
    i < |t| && t[i].node == x && !t[i].free
  }

  // ----- the concrete transition system -----

  function AllocStep(h: Heap, n: nat): (Heap, Outcome)
  {
    if n == 0 then (h, NullHandle)
    else match BestFit(h.table, n)
      case None => (h, NoMemory)
      case Some(j) => (Place(h, j, n), Handle(PlacedNode(h, j, n)))
  }

  predicate CanMoveAndExtend(t: seq<Area>, i: nat, n: nat)
  {
    CanMoveLeft(t, i) && t[i - 1].size + t[i].size >= n
  }

  /** Where area i is after n bytes have been placed at free area k. */
  function ShiftedIndex(t: seq<Area>, i: nat, k: nat, n: nat): nat
    requires k < |t|
  {
    if i < k || t[k].size == n then i else i + 1
  }

  /** Allocates n bytes at free area k and copies area i there. */
  function PlaceCopy(h: Heap, i: nat, k: nat, n: nat): Heap
    requires i < |h.table| && k < |h.table| && i != k && Fits(h.table[k], n) && h.table[i].size <= n
    requires h.table[i].End() <= |h.bytes| && h.table[k].End() <= |h.bytes|
  {
    var h1 := Place(h, k, n);
    h1.(bytes := Copied(h1.bytes, h.table[k].start, h.table[i].start, h.table[i].size))
  }

  /** The last resort of realloc: allocate, copy, release the old area. */
  function CopyGrow(h: Heap, i: nat, k: nat, n: nat): Heap
    requires i < |h.table| && k < |h.table| && i != k && Fits(h.table[k], n) && h.table[i].size <= n
    requires h.table[i].End() <= |h.bytes| && h.table[k].End() <= |h.bytes|
  {
    Release(PlaceCopy(h, i, k, n), ShiftedIndex(h.table, i, k, n))
  }

  /** realloc of a valid handle to area i, for n > 0. */
  ghost function ReallocStep(h: Heap, i: nat, n: nat): (Heap, Outcome)
    requires Valid(h) && i < |h.table| && !h.table[i].free && n > 0
  {
    var t, a := h.table, h.table[i];
    TilesBounds(t, 0, |h.bytes|);
    if n < a.size then (Shrink(h, i, n), Handle(a.node))
    else if n == a.size then (h, Handle(a.node))
    else if CanExtend(t, i, n) then (Extend(h, i, n), Handle(a.node))
    else if CanMoveAndExtend(t, i, n) then
      MoveLeftCorrect(h, i);
      (Extend(MoveLeft(h, i), i - 1, n), Handle(a.node))
    else match BestFit(t, n)
      case None => (h, NoMemory)
      case Some(k) => (CopyGrow(h, i, k, n), Handle(PlacedNode(h, k, n)))
  }

  /** defrag: the same live blocks in the same order, packed from the base (the table
      tiles the region and only its last area may be free). */
  ghost predicate Defragmented(h: Heap, h': Heap)
  {
    && Valid(h')
    && |h'.bytes| == |h.bytes|
    && h.next <= h'.next
    && Blocks(h'.bytes, h'.table) == Blocks(h.bytes, h.table)
    && forall k | 0 <= k < |h'.table| - 1 :: !h'.table[k].free
  }

  ghost predicate Step(h: Heap, op: Op, out: Outcome, h': Heap)
    requires Valid(h)
  {
    match op
    case Alloc(n) => (h', out) == AllocStep(h, n)
    case Free(x) => out == NullHandle && exists i: nat :: IsLiveAt(h.table, x, i) && h' == Release(h, i)
    case Realloc(None, n) => (h', out) == AllocStep(h, n)
    case Realloc(Some(x), n) =>
      exists i: nat :: IsLiveAt(h.table, x, i) &&
        (h', out) == if n == 0 then (Release(h, i), NullHandle) else ReallocStep(h, i, n)
    case Defrag => out == NullHandle && Defragmented(h, h')
    case Store(x, k, v) =>
      exists i: nat :: IsLiveAt(h.table, x, i) && k < h.table[i].size && h.table[i].End() <= |h.bytes| &&
        out == Handle(x) && h' == h.(bytes := h.bytes[h.table[i].start + k := v])
  }

  // ----- the abstract transition system -----

  ghost predicate MapAlloc<V>(m: map<nat, seq<V>>, n: nat, out: Outcome, m': map<nat, seq<V>>)
  {
    if n == 0 then out == NullHandle && m' == m
    else if out == NoMemory then m' == m
    else out.Handle? && out.node !in m && out.node in m' && |m'[out.node]| == n && m' == m[out.node := m'[out.node]]
  }

  ghost predicate MapRealloc<V>(m: map<nat, seq<V>>, x: nat, n: nat, out: Outcome, m': map<nat, seq<V>>)
    requires x in m
  {
    if n == 0 then out == NullHandle && m' == m - {x}
    else if out == NoMemory then m' == m
    else
      && out.Handle? && (out.node == x || out.node !in m)
      && out.node in m' && |m'[out.node]| == n
      && (var kept := Min(n, |m[x]|); m'[out.node][..kept] == m[x][..kept])
      && m' == (m - {x})[out.node := m'[out.node]]
  }

  /** The allocator's interface: a map from live handle to bytes. */
  ghost predicate MapStep(m: map<nat, seq<Byte>>, op: Op, out: Outcome, m': map<nat, seq<Byte>>)
  {
    match op
    case Alloc(n) => MapAlloc(m, n, out, m')
    case Free(x) => x in m && out == NullHandle && m' == m - {x}
    case Realloc(None, n) => MapAlloc(m, n, out, m')
    case Realloc(Some(x), n) => x in m && MapRealloc(m, x, n, out, m')
    case Defrag => out == NullHandle && m' == m
    case Store(x, k, v) => x in m && k < |m[x]| && out == Handle(x) && m' == m[x := m[x][k := v]]
  }

  // ----- each step refines its abstract step -----

  lemma AllocRefines(h: Heap, n: nat)
    requires Valid(h)
    ensures var (h', out) := AllocStep(h, n); Valid(h') && MapAlloc(Meaning(h), n, out, Meaning(h'))
  {
    if n > 0 && BestFit(h.table, n).Some? {
      var j := BestFit(h.table, n).value;
      PlaceCorrect(h, j, n);
      MeaningAt(Place(h, j, n), j);
    }
  }

  lemma MapCopy<V>(m: map<nat, seq<V>>, x: nat, y: nat, v: seq<V>, n: nat)
    requires x in m && y !in m && |v| == n > 0 && |m[x]| <= n && v[..|m[x]|] == m[x]
    ensures MapRealloc(m, x, n, Handle(y), m[y := v] - {x})
  {
    assert m[y := v] - {x} == (m - {x})[y := v];
    assert m[x][..|m[x]|] == m[x];
  }

  lemma PlaceKeepsOthers(h: Heap, i: nat, k: nat, n: nat)
    requires i < |h.table| && k < |h.table| && i != k && Fits(h.table[k], n)
    ensures var i' := ShiftedIndex(h.table, i, k, n);
            i' != k && i' < |Place(h, k, n).table| && Place(h, k, n).table[i'] == h.table[i]
  {
  }

  lemma PlaceCopyCorrect(h: Heap, i: nat, k: nat, n: nat)
    requires Valid(h) && i < |h.table| && !h.table[i].free
    requires k < |h.table| && Fits(h.table[k], n) && h.table[i].size < n
    ensures h.table[i].End() <= |h.bytes| && h.table[k].End() <= |h.bytes|
    ensures var h2, x, y := PlaceCopy(h, i, k, n), h.table[i].node, PlacedNode(h, k, n);
            && Valid(h2)
            && x in Meaning(h) && y !in Meaning(h) && y in Meaning(h2)
            && Meaning(h2) == Meaning(h)[y := Meaning(h2)[y]]
            && |Meaning(h2)[y]| == n && |Meaning(h)[x]| < n && Meaning(h2)[y][..|Meaning(h)[x]|] == Meaning(h)[x]
  {
    var a, f, y := h.table[i], h.table[k], PlacedNode(h, k, n);
    MeaningAt(h, i);
    TilesBounds(h.table, 0, |h.bytes|);
    var h1 := Place(h, k, n);
    PlaceCorrect(h, k, n);
    var bytes' := Copied(h.bytes, f.start, a.start, a.size);
    WriteCorrect(h1, k, bytes');
    CopiedPrefix(h.bytes, f.start, a.start, a.size, h1.table[k]);
    MapSetTwice(Meaning(h), y, Slice(h.bytes, h1.table[k]), Slice(bytes', h1.table[k]));
  }

  lemma MapSetTwice<K, V>(m: map<K, V>, y: K, v: V, v': V)
    ensures m[y := v][y := v'] == m[y := v']
  {
  }

  lemma CopiedPrefix(bytes: seq<Byte>, dst: nat, from: nat, size: nat, a: Area)
    requires from + size <= |bytes| && a.start == dst && size <= a.size && a.End() <= |bytes|
    ensures |Slice(Copied(bytes, dst, from, size), a)| == a.size
    ensures Slice(Copied(bytes, dst, from, size), a)[..size] == bytes[from..from + size]
  {
  }

  lemma CopyGrowCorrect(h: Heap, i: nat, k: nat, n: nat)
    requires Valid(h) && i < |h.table| && !h.table[i].free
    requires k < |h.table| && Fits(h.table[k], n) && h.table[i].size < n
    requires h.table[i].End() <= |h.bytes| && h.table[k].End() <= |h.bytes|
    ensures Valid(CopyGrow(h, i, k, n))
    ensures h.table[i].node in Meaning(h)
    ensures MapRealloc(Meaning(h), h.table[i].node, n, Handle(PlacedNode(h, k, n)), Meaning(CopyGrow(h, i, k, n)))
  {
    PlaceCopyCorrect(h, i, k, n);
    PlaceKeepsOthers(h, i, k, n);
    var h2, x, y := PlaceCopy(h, i, k, n), h.table[i].node, PlacedNode(h, k, n);
    ReleaseCorrect(h2, ShiftedIndex(h.table, i, k, n));
    MapCopy(Meaning(h), x, y, Meaning(h2)[y], n);
  }

  lemma SameNodeRealloc<V>(m: map<nat, seq<V>>, x: nat, v: seq<V>)
    requires x in m && |v| > 0 && (v <= m[x] || m[x] <= v)
    ensures MapRealloc(m, x, |v|, Handle(x), m[x := v])
  {
    assert m[x := v] == (m - {x})[x := v];
  }

  lemma ReallocRefines(h: Heap, i: nat, n: nat)
    requires Valid(h) && i < |h.table| && !h.table[i].free && n > 0
    ensures var (h', out) := ReallocStep(h, i, n);
            && Valid(h')
            && h.table[i].node in Meaning(h)
            && MapRealloc(Meaning(h), h.table[i].node, n, out, Meaning(h'))
  {
    var t, a, x := h.table, h.table[i], h.table[i].node;
    TilesBounds(t, 0, |h.bytes|);
    MeaningAt(h, i);
    if n < a.size {
      ShrinkCorrect(h, i, n);
      SameNodeRealloc(Meaning(h), x, Meaning(h)[x][..n]);
    } else if n == a.size {
      SameNodeRealloc(Meaning(h), x, Meaning(h)[x]);
      assert Meaning(h)[x := Meaning(h)[x]] == Meaning(h);
    } else if CanExtend(t, i, n) {
      ExtendCorrect(h, i, n);
      SameNodeRealloc(Meaning(h), x, Meaning(Extend(h, i, n))[x]);
    } else if CanMoveAndExtend(t, i, n) {
      MoveLeftCorrect(h, i);
      ExtendCorrect(MoveLeft(h, i), i - 1, n);
      SameNodeRealloc(Meaning(h), x, Meaning(Extend(MoveLeft(h, i), i - 1, n))[x]);
    } else if BestFit(t, n).Some? {
      CopyGrowCorrect(h, i, BestFit(t, n).value, n);
    }
  }

  lemma DefragRefines(h: Heap, h': Heap)
    requires Defragmented(h, h')
    ensures Meaning(h') == Meaning(h)
  {
    ContentsOfBlocks(h.bytes, h.table);
    ContentsOfBlocks(h'.bytes, h'.table);
  }

  lemma StoreRefines(h: Heap, i: nat, k: nat, v: Byte)
    requires Valid(h) && i < |h.table| && !h.table[i].free && k < h.table[i].size && h.table[i].End() <= |h.bytes|
    ensures var h', x := h.(bytes := h.bytes[h.table[i].start + k := v]), h.table[i].node;
            && Valid(h')
            && x in Meaning(h) && |Meaning(h)[x]| == h.table[i].size
            && Meaning(h') == Meaning(h)[x := Meaning(h)[x][k := v]]
  {
    var a := h.table[i];
    var bytes' := h.bytes[a.start + k := v];
    MeaningAt(h, i);
    WriteCorrect(h, i, bytes');
    assert Slice(bytes', a) == Slice(h.bytes, a)[k := v];
  }

  /** One step: the region stays tiled with distinct nodes, and the map does what
      the interface promises. */
  lemma StepRefines(h: Heap, op: Op, out: Outcome, h': Heap)
    requires Valid(h) && Step(h, op, out, h')
    ensures Valid(h') && MapStep(Meaning(h), op, out, Meaning(h'))
  {
    match op
    case Alloc(n) => AllocRefines(h, n);
    case Free(x) =>
      var i: nat :| IsLiveAt(h.table, x, i) && h' == Release(h, i);
      MeaningAt(h, i);
      ReleaseCorrect(h, i);
    case Realloc(None, n) => AllocRefines(h, n);
    case Realloc(Some(x), n) =>
      var i: nat :| IsLiveAt(h.table, x, i) &&
        (h', out) == if n == 0 then (Release(h, i), NullHandle) else ReallocStep(h, i, n);
      MeaningAt(h, i);
      if n == 0 {
        ReleaseCorrect(h, i);
      } else {
        ReallocRefines(h, i, n);
      }
    case Defrag => DefragRefines(h, h');
    case Store(x, k, v) =>
      var i: nat :| IsLiveAt(h.table, x, i) && k < h.table[i].size && h.table[i].End() <= |h.bytes| &&
        out == Handle(x) && h' == h.(bytes := h.bytes[h.table[i].start + k := v]);
      StoreRefines(h, i, k, v);
  }

  // ----- runs -----

  function Initial(bytes: seq<Byte>): Heap
  {
    Heap(bytes, [Area(0, 0, |bytes|, true)], 1)
  }

  lemma InitialValid(bytes: seq<Byte>)
    requires bytes != []
    ensures Valid(Initial(bytes)) && Meaning(Initial(bytes)) == map[]
  {
    TilesOne(Area(0, 0, |bytes|, true));
    ContentsAllFree(bytes, Initial(bytes).table);
  }

  datatype Event = Event(op: Op, out: Outcome)

  /** A run: h is followed by the states of hs, one per event. */
  ghost predicate Run(h: Heap, es: seq<Event>, hs: seq<Heap>)
    decreases |es|
  {
    |es| == |hs| &&
    (es == [] || (Valid(h) && Step(h, es[0].op, es[0].out, hs[0]) && Run(hs[0], es[1..], hs[1..])))
  }

  ghost predicate MapRun(m: map<nat, seq<Byte>>, es: seq<Event>, ms: seq<map<nat, seq<Byte>>>)
    decreases |es|
  {
    |es| == |ms| &&
    (es == [] || (MapStep(m, es[0].op, es[0].out, ms[0]) && MapRun(ms[0], es[1..], ms[1..])))
  }

  ghost function Meanings(hs: seq<Heap>): (ms: seq<map<nat, seq<Byte>>>)
    ensures |ms| == |hs| && forall i | 0 <= i < |hs| :: ms[i] == Meaning(hs[i])
  {
    if hs == [] then [] else [Meaning(hs[0])] + Meanings(hs[1..])
  }

  /** Every run of the allocator is a run of the map. */
  lemma {:induction false} RunRefines(h: Heap, es: seq<Event>, hs: seq<Heap>)
    requires Valid(h) && Run(h, es, hs)
    ensures forall i | 0 <= i < |hs| :: Valid(hs[i])
    ensures MapRun(Meaning(h), es, Meanings(hs))
    decreases |es|
  {
    if es != [] {
      StepRefines(h, es[0].op, es[0].out, hs[0]);
      RunRefines(hs[0], es[1..], hs[1..]);
      assert Meanings(hs)[1..] == Meanings(hs[1..]);
      assert forall i | 0 < i < |hs| :: hs[i] == hs[1..][i - 1];
    }
  }

  predicate Touches(op: Op, x: nat)
  {
    match op
    case Free(y) => y == x
    case Realloc(Some(y), _) => y == x
    case Store(y, _, _) => y == x
    case _ => false
  }

  /** A live handle's bytes survive every run that does not free, reallocate or
      write through that handle, wherever defragmentation moves them. */
  lemma {:induction false} UntouchedBytesSurvive(h: Heap, es: seq<Event>, hs: seq<Heap>, x: nat)
    requires Valid(h) && Run(h, es, hs) && x in Meaning(h)
    requires forall i | 0 <= i < |es| :: !Touches(es[i].op, x)
    ensures forall i | 0 <= i < |hs| :: x in Meaning(hs[i]) && Meaning(hs[i])[x] == Meaning(h)[x]
    decreases |es|
  {
    if es != [] {
      StepRefines(h, es[0].op, es[0].out, hs[0]);
      assert !Touches(es[0].op, x);
      assert forall i | 0 <= i < |es[1..]| :: es[1..][i] == es[i + 1];
      UntouchedBytesSurvive(hs[0], es[1..], hs[1..], x);
      assert forall i | 0 < i < |hs| :: hs[i] == hs[1..][i - 1];
    }
  }

  /** The operation takes node x away from those who hold it: it frees x, or
      reallocates it and leaves the caller with another node or none. */
  predicate TakesAway(op: Op, out: Outcome, x: nat)
  {
    op == Free(x) || (op.Realloc? && op.handle == Some(x) && out != Handle(x) && out != NoMemory)
  }

  /** Copies of a handle share its node.  They stay valid, whoever of their holders
      operates on it, exactly until an operation takes the node away. */
  lemma CopiesGoStaleExactly(h: Heap, op: Op, out: Outcome, h': Heap, x: nat)
    requires Valid(h) && Step(h, op, out, h') && x in Meaning(h)
    ensures x !in Meaning(h') <==> TakesAway(op, out, x)
  {
    StepRefines(h, op, out, h');
  }

  /** Live ranges are pairwise disjoint and inside the region. */
  lemma LiveRangesDisjoint(h: Heap, i: nat, j: nat)
    requires Valid(h) && i < j < |h.table|
    ensures h.table[i].End() <= h.table[j].start && h.table[j].End() <= |h.bytes|
  {
    TilesParts(h.table, i, i + 1, 0, |h.bytes|);
    TilesBounds(h.table[i + 1..], h.table[i].End(), |h.bytes|);
    assert h.table[j] == h.table[i + 1..][j - i - 1];
  }

  /** Allocated and free sizes add up to the size of the region. */
  lemma SizesConserved(h: Heap)
    requires Valid(h)
    ensures SumData(Blocks(h.bytes, h.table)) + SumFree(h.table) == |h.bytes|
  {
    FreePlusData(h.bytes, h.table, 0, |h.bytes|);
  }
}

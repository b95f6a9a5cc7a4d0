/** The allocator's operations as functions on a snapshot of its state: the bytes
    of the region, the area table and the next unused node identity. */
module HeapModel {
  import opened Basics
  import opened Areas

  datatype Heap = Heap(bytes: seq<Byte>, table: seq<Area>, next: nat)

  ghost predicate Valid(h: Heap)
  {
    && h.bytes != []
    && Tiles(h.table, 0, |h.bytes|)
    && DistinctNodes(h.table)
    && NodesBelow(h.table, h.next)
  }

  /** The abstract state: what each live handle's node holds. */
  ghost function Meaning(h: Heap): map<nat, seq<Byte>>
  {
    Contents(h.bytes, h.table)
  }

  // ----- the operations -----

  ghost predicate IsIndexOf(t: seq<Area>, n: nat, i: nat)
  {
    i < |t| && t[i].node == n
  }

  /** Dereferences a handle's list iterator: the position of its node. */
  function IndexOf(t: seq<Area>, n: nat): (i: nat)
    requires exists k :: IsIndexOf(t, n, k)
    ensures IsIndexOf(t, n, i)
  {
    ghost var k: nat :| IsIndexOf(t, n, k);
    if t[0].node == n then 0
    else
      assert IsIndexOf(t[1..], n, k - 1);
      1 + IndexOf(t[1..], n)
  }

  predicate Fits(a: Area, n: nat)
  {
    a.free && a.size >= n
  }

  /** Area j is the first of the smallest free areas that can hold n bytes. */
  ghost predicate IsBestFit(t: seq<Area>, n: nat, j: nat)
  {
    && j < |t|
    && Fits(t[j], n)
    && forall k | 0 <= k < |t| && Fits(t[k], n) :: t[j].size <= t[k].size && (k < j ==> t[j].size < t[k].size)
  }

  function BestFit(t: seq<Area>, n: nat): (r: Option<nat>)
    ensures r.Some? ==> IsBestFit(t, n, r.value)
    ensures r.None? <==> forall k | 0 <= k < |t| :: !Fits(t[k], n)
  {
    if t == [] then None
    else
      var last := |t| - 1;
      var r := BestFit(t[..last], n);
      if Fits(t[last], n) && (r.None? || t[r.value].size > t[last].size) then Some(last) else r
  }

  /** Turns n bytes at the start of free area i into an allocated area. */
  function Place(h: Heap, i: nat, n: nat): Heap
    requires i < |h.table| && Fits(h.table[i], n)
  {
    var f := h.table[i];
    if f.size == n then
      h.(table := h.table[i := f.(free := false)])
    else
      h.(table := Splice(h.table, i, i + 1,
                         [Area(h.next, f.start, n, false), f.(start := f.start + n, size := f.size - n)]),
         next := h.next + 1)
  }

  /** The node a handle gets from Place. */
  function PlacedNode(h: Heap, i: nat, n: nat): nat
    requires i < |h.table|
  {
    if h.table[i].size == n then h.table[i].node else h.next
  }

  /** The first area of the free run that contains area i. */
  function RunStart(t: seq<Area>, i: nat): (lo: nat)
    requires i < |t| && t[i].free
    ensures lo <= i
    ensures forall k | lo <= k <= i :: t[k].free
    ensures lo > 0 ==> !t[lo - 1].free
  {
    if i > 0 && t[i - 1].free then RunStart(t, i - 1) else i
  }

  /** The first index after the free run that contains area i. */
  function RunEnd(t: seq<Area>, i: nat): (hi: nat)
    requires i < |t| && t[i].free
    ensures i < hi <= |t|
    ensures forall k | i <= k < hi :: t[k].free
    ensures hi < |t| ==> !t[hi].free
    decreases |t| - i
  {
    if i + 1 < |t| && t[i + 1].free then RunEnd(t, i + 1) else i + 1
  }

  /** One free area in place of the run around area i. */
  function United(t: seq<Area>, i: nat): seq<Area>
    requires i < |t| && t[i].free
  {
    var lo, hi := RunStart(t, i), RunEnd(t, i);
    Splice(t, lo, hi, [t[lo].(size := SumSizes(t[lo..hi]))])
  }

  function Release(h: Heap, i: nat): Heap
    requires i < |h.table|
  {
    h.(table := United(h.table[i := h.table[i].(free := true)], i))
  }

  function Shrink(h: Heap, i: nat, n: nat): Heap
    requires i < |h.table| && 0 < n < h.table[i].size
  {
    var a := h.table[i];
    h.(table := Splice(h.table, i, i + 1, [a.(size := n), Area(h.next, a.start + n, a.size - n, true)]),
       next := h.next + 1)
  }

  predicate CanExtend(t: seq<Area>, i: nat, n: nat)
    requires i < |t| && t[i].size < n
  {
    i + 1 < |t| && t[i + 1].free && t[i + 1].size >= n - t[i].size
  }

  /** Grows allocated area i to n bytes at the cost of the free area after it. */
  function Extend(h: Heap, i: nat, n: nat): Heap
    requires i < |h.table| && h.table[i].size < n && CanExtend(h.table, i, n)
  {
    var a, f := h.table[i], h.table[i + 1];
    var more := n - a.size;
    var tail := if f.size == more then [] else [f.(start := f.start + more, size := f.size - more)];
    h.(table := Splice(h.table, i, i + 2, [a.(size := n)] + tail))
  }

  predicate CanMoveLeft(t: seq<Area>, i: nat)
  {
    0 < i < |t| && t[i - 1].free && !t[i].free
  }

  /** Where the byte at k comes from when size bytes at src are copied to dst. */
  function CopyIndex(dst: nat, src: nat, size: nat, k: nat): nat
  {
    if dst <= k < dst + size then src + (k - dst) else k
  }

  /** The bytes after size bytes at src have been copied to dst, all at once. */
  function Copied(bytes: seq<Byte>, dst: nat, src: nat, size: nat): seq<Byte>
    requires src + size <= |bytes| && dst + size <= |bytes|
  {
    seq(|bytes|, k requires 0 <= k < |bytes| => bytes[CopyIndex(dst, src, size, k)])
  }

  /** Swaps allocated area i with the free area before it, bytes included. */
  function MoveLeft(h: Heap, i: nat): Heap
    requires CanMoveLeft(h.table, i)
    requires h.table[i - 1].start <= h.table[i].start && h.table[i].End() <= |h.bytes|
  {
    var f, a := h.table[i - 1], h.table[i];
    Heap(Copied(h.bytes, f.start, a.start, a.size),
         Splice(h.table, i - 1, i + 1, [a.(start := f.start), Area(h.next, f.start + a.size, f.size, true)]),
         h.next + 1)
  }

  // ----- every operation as a splice -----

  /** Every operation puts one area, or two, in the place of a stretch of areas.
      The table stays a tiling with distinct nodes if the new areas cover what the
      old ones covered and take their nodes from the stretch's ends or a new one. */
  lemma RetileValid(h: Heap, i: nat, j: nat, a: Area, rest: seq<Area>, bytes': seq<Byte>, next': nat)
    requires Valid(h) && i < j <= |h.table| && |rest| <= 1
    requires a.size > 0 && a.start == h.table[i].start
    requires rest == [] ==> a.End() == h.table[j - 1].End()
    requires rest != [] ==> rest[0].size > 0 && rest[0].start == a.End() && rest[0].End() == h.table[j - 1].End()
    requires a.node in {h.table[i].node, h.table[j - 1].node, h.next} && a.node < next'
    requires rest != [] ==>
               rest[0].node in {h.table[i].node, h.table[j - 1].node, h.next} - {a.node} && rest[0].node < next'
    requires h.next <= next' && |bytes'| == |h.bytes|
    ensures Valid(Heap(bytes', Splice(h.table, i, j, [a] + rest), next'))
  {
    var t, r := h.table, [a] + rest;
    if rest == [] {
      assert r == [a];
      TilesOne(a);
    } else {
      assert r == [a, rest[0]];
      TilesTwo(a, rest[0]);
    }
    assert t[i..j][0] == t[i] && t[i..j][j - 1 - i] == t[j - 1];
    hide Tiles;
    TilesSplice(t, i, j, r, 0, |h.bytes|);
    NodesSplice(t, i, j, r, h.next);
    NodesBelowSplice(t, i, j, r, next');
  }

  lemma NodesBelowSplice(t: seq<Area>, i: nat, j: nat, r: seq<Area>, bound: nat)
    requires i <= j <= |t| && NodesBelow(t, bound) && NodesBelow(r, bound)
    ensures NodesBelow(Splice(t, i, j, r), bound)
  {
  }

  /** What lies outside a splice keeps its meaning. */
  lemma {:induction false} SpliceMeaning(h: Heap, i: nat, j: nat, r: seq<Area>)
    requires Valid(h) && i <= j <= |h.table|
    ensures var a, c := Contents(h.bytes, h.table[..i]), Contents(h.bytes, h.table[j..]);
            && Meaning(h) == c + (Contents(h.bytes, h.table[i..j]) + a)
            && Contents(h.bytes, Splice(h.table, i, j, r)) == c + (Contents(h.bytes, r) + a)
            && h.next !in a && h.next !in c
            && forall k | i <= k < j :: h.table[k].node !in a && h.table[k].node !in c
  {
    var t := h.table;
    ContentsOfThree(h.bytes, t[..i], r, t[j..]);
    SplitThree(t, i, j);
    ContentsOfThree(h.bytes, t[..i], t[i..j], t[j..]);
    NodeOutside(h, i, j, h.next);
    forall k | i <= k < j
      ensures t[k].node !in Contents(h.bytes, t[..i]) && t[k].node !in Contents(h.bytes, t[j..])
    {
      NodeOutside(h, i, j, t[k].node);
    }
  }

  lemma NodeOutside(h: Heap, i: nat, j: nat, n: nat)
    requires DistinctNodes(h.table) && NodesBelow(h.table, h.next) && i <= j <= |h.table|
    requires n == h.next || exists k :: i <= k < j && h.table[k].node == n
    ensures n !in Contents(h.bytes, h.table[..i]) && n !in Contents(h.bytes, h.table[j..])
  {
    ContentsKeys(h.bytes, h.table[..i], n);
    ContentsKeys(h.bytes, h.table[j..], n);
  }

  lemma MapInsert<K, V>(a: map<K, V>, c: map<K, V>, x: K, v: V)
    requires x !in a && x !in c
    ensures c + (map[x := v] + a) == (c + (map[] + a))[x := v]
    ensures c + (map[] + a) == (c + (map[x := v] + a)) - {x}
  {
  }

  /** Place adds one live node holding n bytes and changes no other. */
  lemma PlaceCorrect(h: Heap, i: nat, n: nat)
    requires Valid(h) && 0 < n && i < |h.table| && Fits(h.table[i], n)
    ensures var h', x, f := Place(h, i, n), PlacedNode(h, i, n), h.table[i];
            && Valid(h')
            && x !in Meaning(h)
            && h'.table[i] == Area(x, f.start, n, false)
            && Meaning(h') == Meaning(h)[x := Slice(h.bytes, h'.table[i])]
  {
    var f, x := h.table[i], PlacedNode(h, i, n);
    var a := Area(x, f.start, n, false);
    var rest := if f.size == n then [] else [f.(start := f.start + n, size := f.size - n)];
    assert rest == [] ==> [a] + rest == [a];
    assert rest != [] ==> [a] + rest == [a, rest[0]];
    assert Place(h, i, n).table == Splice(h.table, i, i + 1, [a] + rest);
    assert h.table[i..i + 1] == [f];
    RetileValid(h, i, i + 1, a, rest, h.bytes, Place(h, i, n).next);
    SpliceMeaning(h, i, i + 1, [a] + rest);
    ContentsOne(h.bytes, a, rest);
    ContentsAllFree(h.bytes, [f]);
    MapInsert(Contents(h.bytes, h.table[..i]), Contents(h.bytes, h.table[i + 1..]), x, Slice(h.bytes, a));
  }

  lemma {:induction false} UnitedRun(t: seq<Area>, lo: nat, hi: nat, i: nat)
    requires lo <= i < hi <= |t| && forall k | lo <= k < hi :: t[k].free
    requires (lo > 0 ==> !t[lo - 1].free) && (hi < |t| ==> !t[hi].free)
    ensures RunStart(t, i) == lo && RunEnd(t, i) == hi
    ensures United(t, i) == Splice(t, lo, hi, [t[lo].(size := SumSizes(t[lo..hi]))])
  {
  }

  /** Uniting a free run forgets nothing that anybody holds. */
  lemma UniteCorrect(h: Heap, i: nat)
    requires Valid(h) && i < |h.table| && h.table[i].free
    ensures var h' := h.(table := United(h.table, i)); Valid(h') && Meaning(h') == Meaning(h)
  {
    var t := h.table;
    var lo, hi := RunStart(t, i), RunEnd(t, i);
    var u := t[lo].(size := SumSizes(t[lo..hi]));
    UnitedSize(h, i);
    assert [u] + [] == [u];
    RetileValid(h, lo, hi, u, [], h.bytes, h.next);
    SpliceMeaning(h, lo, hi, [u]);
    ContentsAllFree(h.bytes, t[lo..hi]);
    ContentsAllFree(h.bytes, [u]);
  }

  lemma UniteBlocks(h: Heap, i: nat)
    requires i < |h.table| && h.table[i].free
    ensures Blocks(h.bytes, United(h.table, i)) == Blocks(h.bytes, h.table)
  {
    var t := h.table;
    var lo, hi := RunStart(t, i), RunEnd(t, i);
    var u := t[lo].(size := SumSizes(t[lo..hi]));
    SplitThree(t, lo, hi);
    BlocksUnited(h.bytes, t[..lo], t[lo..hi], t[hi..], u);
  }

  /** The united area reaches from the start of the run to its end. */
  lemma UnitedSize(h: Heap, i: nat)
    requires Valid(h) && i < |h.table| && h.table[i].free
    ensures var t := h.table; var lo, hi := RunStart(t, i), RunEnd(t, i);
            t[lo].start + SumSizes(t[lo..hi]) == t[hi - 1].End() && SumSizes(t[lo..hi]) >= t[lo].size > 0
  {
    var t := h.table;
    var lo, hi := RunStart(t, i), RunEnd(t, i);
    TilesBounds(t, 0, |h.bytes|);
    TilesParts(t, lo, hi, 0, |h.bytes|);
    TilesBounds(t[lo..hi], t[lo].start, t[hi - 1].End());
    assert t[lo..hi][0] == t[lo];
  }

  /** Release forgets one live node and changes no other. */
  lemma ReleaseCorrect(h: Heap, i: nat)
    requires Valid(h) && i < |h.table| && !h.table[i].free
    ensures Valid(Release(h, i)) && Meaning(Release(h, i)) == Meaning(h) - {h.table[i].node}
  {
    var a := h.table[i];
    var f := a.(free := true);
    var h1 := h.(table := h.table[i := f]);
    TilesBounds(h.table, 0, |h.bytes|);
    assert [f] + [] == [f] && [a] + [] == [a] && h.table[i..i + 1] == [a];
    assert h1.table == Splice(h.table, i, i + 1, [f]);
    RetileValid(h, i, i + 1, f, [], h.bytes, h.next);
    SpliceMeaning(h, i, i + 1, [f]);
    ContentsAllFree(h.bytes, [f]);
    ContentsOne(h.bytes, a, []);
    MapInsert(Contents(h.bytes, h.table[..i]), Contents(h.bytes, h.table[i + 1..]), a.node, Slice(h.bytes, a));
    UniteCorrect(h1, i);
  }

  lemma MapReplace<K, V>(a: map<K, V>, c: map<K, V>, x: K, v: V, v': V)
    requires x !in a && x !in c
    ensures c + (map[x := v'] + a) == (c + (map[x := v] + a))[x := v']
  {
  }

  /** Replacing an allocated area and the free ones after it by one that keeps the
      node changes that node's bytes only. */
  lemma ReplaceMeaning(h: Heap, i: nat, j: nat, a': Area, rest: seq<Area>)
    requires Valid(h) && i < j <= |h.table|
    requires !h.table[i].free && forall k | i < k < j :: h.table[k].free
    requires !a'.free && a'.node == h.table[i].node && forall k | 0 <= k < |rest| :: rest[k].free
    ensures Contents(h.bytes, Splice(h.table, i, j, [a'] + rest)) == Meaning(h)[a'.node := Slice(h.bytes, a')]
  {
    var t, a := h.table, h.table[i];
    SpliceMeaning(h, i, j, [a'] + rest);
    ContentsOne(h.bytes, a', rest);
    assert t[i..j] == [a] + t[i + 1..j];
    ContentsOne(h.bytes, a, t[i + 1..j]);
    MapReplace(Contents(h.bytes, t[..i]), Contents(h.bytes, t[j..]), a.node, Slice(h.bytes, a), Slice(h.bytes, a'));
  }

  /** Shrink keeps the first n bytes of one node and changes no other. */
  lemma ShrinkCorrect(h: Heap, i: nat, n: nat)
    requires Valid(h) && i < |h.table| && !h.table[i].free && 0 < n < h.table[i].size
    ensures var x := h.table[i].node;
            && Valid(Shrink(h, i, n))
            && x in Meaning(h) && |Meaning(h)[x]| == h.table[i].size
            && Meaning(Shrink(h, i, n)) == Meaning(h)[x := Meaning(h)[x][..n]]
  {
    var a := h.table[i];
    var a', f := a.(size := n), Area(h.next, a.start + n, a.size - n, true);
    assert [a'] + [f] == [a', f];
    RetileValid(h, i, i + 1, a', [f], h.bytes, h.next + 1);
    ReplaceMeaning(h, i, i + 1, a', [f]);
    MeaningAt(h, i);
    SlicePrefix(h.bytes, a, n);
  }

  /** A live node holds the bytes of its area. */
  lemma MeaningAt(h: Heap, i: nat)
    requires Valid(h) && i < |h.table| && !h.table[i].free
    ensures var a := h.table[i];
            && a.node in Meaning(h) && Meaning(h)[a.node] == Slice(h.bytes, a)
            && 0 < a.size && a.End() <= |h.bytes|
  {
    TilesBounds(h.table, 0, |h.bytes|);
    ContentsAt(h.bytes, h.table, i);
  }

  lemma Adjacent(h: Heap, i: nat)
    requires Valid(h) && i + 1 < |h.table|
    ensures h.table[i].End() == h.table[i + 1].start
    ensures h.table[i + 1].End() <= |h.bytes| && h.table[i].size > 0 && h.table[i + 1].size > 0
  {
    TilesBounds(h.table, 0, |h.bytes|);
    TilesParts(h.table, i, i + 2, 0, |h.bytes|);
    assert h.table[i..i + 2][1..] == [h.table[i + 1]];
  }

  /** Extend appends n - size bytes to one node and changes no other. */
  lemma ExtendCorrect(h: Heap, i: nat, n: nat)
    requires Valid(h) && i < |h.table| && !h.table[i].free && h.table[i].size < n && CanExtend(h.table, i, n)
    ensures var h', x := Extend(h, i, n), h.table[i].node;
            && Valid(h')
            && h'.table[i] == h.table[i].(size := n)
            && x in Meaning(h) && Meaning(h') == Meaning(h)[x := Slice(h.bytes, h'.table[i])]
            && |Meaning(h')[x]| == n && Meaning(h)[x] <= Meaning(h')[x]
  {
    var a, f := h.table[i], h.table[i + 1];
    var a', more := a.(size := n), n - a.size;
    var tail := if f.size == more then [] else [f.(start := f.start + more, size := f.size - more)];
    Adjacent(h, i);
    RetileValid(h, i, i + 2, a', tail, h.bytes, h.next);
    ReplaceMeaning(h, i, i + 2, a', tail);
    MeaningAt(h, i);
    SlicePrefix(h.bytes, a', a.size);
    assert a'.(size := a.size) == a;
  }

  lemma {:induction false} BlocksPair(bytes: seq<Byte>, a: Area, b: Area)
    requires a.free != b.free
    ensures Blocks(bytes, [a, b]) == [if a.free then Block(b.node, Slice(bytes, b)) else Block(a.node, Slice(bytes, a))]
  {
    assert [a, b] == [a] + [b] && [a] + [] == [a] && [b] + [] == [b];
    BlocksAppend(bytes, [a], [b]);
    assert Blocks(bytes, []) == [];
    assert [a][1..] == [] && [b][1..] == [];
  }

  /** Moving an area left changes where its bytes are and nothing else: the live
      blocks are the same, in the same order. */
  lemma MoveLeftBlocks(h: Heap, i: nat)
    requires Valid(h) && CanMoveLeft(h.table, i)
    ensures h.table[i - 1].End() == h.table[i].start && h.table[i].End() <= |h.bytes|
    ensures Blocks(MoveLeft(h, i).bytes, MoveLeft(h, i).table) == Blocks(h.bytes, h.table)
  {
    Adjacent(h, i - 1);
    var t, f, a, h' := h.table, h.table[i - 1], h.table[i], MoveLeft(h, i);
    var a', f' := a.(start := f.start), Area(h.next, f.start + a.size, f.size, true);
    MoveLeftOutside(h.bytes, t, i, h'.bytes);
    CopiedSlice(h.bytes, a, f.start);
    BlocksMoved(h.bytes, h'.bytes, t[..i - 1], f, a, a', f', t[i + 1..]);
    hide *;
    SplitThree(t, i - 1, i + 1);
    assert t[i - 1..i + 1] == [f, a];
    assert h'.table == Splice(t, i - 1, i + 1, [a', f']);
  }

  /** The areas beside the two that change places do not see the move. */
  lemma MoveLeftOutside(bytes: seq<Byte>, t: seq<Area>, i: nat, bytes': seq<Byte>)
    requires Tiles(t, 0, |bytes|) && 0 < i < |t| && t[i - 1].start <= t[i].start && t[i].End() <= |bytes|
    requires t[i - 1].End() == t[i].start
    requires bytes' == Copied(bytes, t[i - 1].start, t[i].start, t[i].size)
    ensures Blocks(bytes, t[..i - 1]) == Blocks(bytes', t[..i - 1])
    ensures Blocks(bytes, t[i + 1..]) == Blocks(bytes', t[i + 1..])
  {
    TilesParts(t, i - 1, i + 1, 0, |bytes|);
    hide Tiles, Blocks;
    BlocksFrame(bytes, bytes', t[..i - 1], 0, t[i - 1].start);
    BlocksFrame(bytes, bytes', t[i + 1..], t[i].End(), |bytes|);
  }

  lemma CopiedSlice(bytes: seq<Byte>, a: Area, dst: nat)
    requires a.End() <= |bytes| && dst + a.size <= |bytes|
    ensures Slice(Copied(bytes, dst, a.start, a.size), a.(start := dst)) == Slice(bytes, a)
  {
  }

  lemma {:induction false} BlocksMoved(bytes: seq<Byte>, bytes': seq<Byte>, left: seq<Area>, f: Area, a: Area,
                                       a': Area, f': Area, right: seq<Area>)
    requires Blocks(bytes, left) == Blocks(bytes', left) && Blocks(bytes, right) == Blocks(bytes', right)
    requires f.free && !a.free && !a'.free && f'.free && a.node == a'.node && Slice(bytes, a) == Slice(bytes', a')
    ensures Blocks(bytes', left + [a', f'] + right) == Blocks(bytes, left + [f, a] + right)
  {
    BlocksOfThree(bytes, left, [f, a], right);
    BlocksOfThree(bytes', left, [a', f'], right);
    BlocksPair(bytes, f, a);
    BlocksPair(bytes', a', f');
  }

  lemma MoveLeftCorrect(h: Heap, i: nat)
    requires Valid(h) && CanMoveLeft(h.table, i)
    ensures h.table[i - 1].End() == h.table[i].start && h.table[i].End() <= |h.bytes|
    ensures var h' := MoveLeft(h, i);
            && Valid(h')
            && Meaning(h') == Meaning(h)
            && h'.table[i - 1] == h.table[i].(start := h.table[i - 1].start)
            && h'.table[i] == Area(h.next, h'.table[i - 1].End(), h.table[i - 1].size, true)
  {
    Adjacent(h, i - 1);
    var f, a, h' := h.table[i - 1], h.table[i], MoveLeft(h, i);
    var a', f' := a.(start := f.start), Area(h.next, f.start + a.size, f.size, true);
    assert [a'] + [f'] == [a', f'];
    RetileValid(h, i - 1, i + 1, a', [f'], h'.bytes, h.next + 1);
    MoveLeftBlocks(h, i);
    ContentsOfBlocks(h.bytes, h.table);
    ContentsOfBlocks(h'.bytes, h'.table);
  }

  /** Changing bytes inside one allocated area changes that node only. */
  lemma WriteCorrect(h: Heap, i: nat, bytes': seq<Byte>)
    requires Valid(h) && i < |h.table| && !h.table[i].free && |bytes'| == |h.bytes|
    requires forall k | 0 <= k < |bytes'| && !(h.table[i].start <= k < h.table[i].End()) :: bytes'[k] == h.bytes[k]
    ensures var h', x := h.(bytes := bytes'), h.table[i].node;
            && Valid(h')
            && x in Meaning(h)
            && Meaning(h') == Meaning(h)[x := Slice(bytes', h.table[i])]
  {
    var t, a := h.table, h.table[i];
    MeaningAt(h, i);
    TilesParts(t, i, i + 1, 0, |h.bytes|);
    SplitThree(t, i, i + 1);
    assert [a] + [] == [a] && t[i..i + 1] == [a];
    ContentsOfThree(bytes', t[..i], [a], t[i + 1..]);
    ContentsFrame(h.bytes, bytes', t[..i], 0, a.start);
    ContentsFrame(h.bytes, bytes', t[i + 1..], a.End(), |h.bytes|);
    SpliceMeaning(h, i, i + 1, [a]);
    ContentsOne(h.bytes, a, []);
    ContentsOne(bytes', a, []);
    MapReplace(Contents(h.bytes, t[..i]), Contents(h.bytes, t[i + 1..]), a.node, Slice(h.bytes, a), Slice(bytes', a));
  }
}

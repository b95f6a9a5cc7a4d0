/** The allocator's area table: a list of areas that tiles one byte region.

    The program keeps a linked list whose nodes handles point to.  Here a table is
    a sequence of areas, each carrying the identity of its list node, and an
    address is an offset into the region. */
module Areas {

  newtype Byte = x: int | 0 <= x < 256

  datatype Area = Area(node: nat, start: nat, size: nat, free: bool) {
    function End(): nat { start + size }
  }

  /** The areas of t cover [lo, hi) from left to right, without gap or overlap,
      and none is empty. */
  ghost predicate Tiles(t: seq<Area>, lo: nat, hi: nat)
  {
    if t == [] then lo == hi
    else t[0].start == lo && t[0].size > 0 && Tiles(t[1..], t[0].End(), hi)
  }

  ghost predicate DistinctNodes(t: seq<Area>)
  {
    forall i, j | 0 <= i < j < |t| :: t[i].node != t[j].node
  }

  ghost predicate NodesBelow(t: seq<Area>, bound: nat)
  {
    forall i | 0 <= i < |t| :: t[i].node < bound
  }

  /** The bytes an area covers. */
  ghost function Slice(bytes: seq<Byte>, a: Area): seq<Byte>
  {
    if a.End() <= |bytes| then bytes[a.start..a.End()] else []
  }

  /** What the table means to the holders of handles: every allocated node with
      its bytes. */
  ghost function Contents(bytes: seq<Byte>, t: seq<Area>): map<nat, seq<Byte>>
  {
    if t == [] then map[]
    else if t[0].free then Contents(bytes, t[1..])
    else Contents(bytes, t[1..])[t[0].node := Slice(bytes, t[0])]
  }

  /** A live handle's node with its bytes. */
  datatype Block = Block(node: nat, data: seq<Byte>)

  /** The allocated areas in address order, addresses forgotten. */
  ghost function Blocks(bytes: seq<Byte>, t: seq<Area>): seq<Block>
  {
    if t == [] then []
    else (if t[0].free then [] else [Block(t[0].node, Slice(bytes, t[0]))]) + Blocks(bytes, t[1..])
  }

  ghost function SumData(bs: seq<Block>): nat
  {
    if bs == [] then 0 else |bs[0].data| + SumData(bs[1..])
  }

  /** The map from node to bytes that a sequence of blocks stands for. */
  ghost function AsMap(bs: seq<Block>): map<nat, seq<Byte>>
  {
    if bs == [] then map[] else AsMap(bs[1..])[bs[0].node := bs[0].data]
  }

  function SumSizes(t: seq<Area>): nat
  {
    if t == [] then 0 else t[0].size + SumSizes(t[1..])
  }

  function SumFree(t: seq<Area>): nat
  {
    if t == [] then 0 else (if t[0].free then t[0].size else 0) + SumFree(t[1..])
  }

  ghost predicate NoAdjacentFree(t: seq<Area>)
  {
    forall i | 0 < i < |t| :: !(t[i - 1].free && t[i].free)
  }

  /** Replaces the areas from index i up to, not including, j. */
  function Splice(t: seq<Area>, i: nat, j: nat, r: seq<Area>): seq<Area>
    requires i <= j <= |t|
  {
    t[..i] + r + t[j..]
  }

  lemma SplitThree(t: seq<Area>, i: nat, j: nat)
    requires i <= j <= |t|
    ensures t == t[..i] + t[i..j] + t[j..]
  {
  }

  // ----- tiling -----

  ghost function Boundary(t: seq<Area>, hi: nat): nat
  {
    if t == [] then hi else t[0].start
  }

  lemma {:induction false} TilesAppend(a: seq<Area>, b: seq<Area>, lo: nat, hi: nat)
    ensures Tiles(a + b, lo, hi) <==> Tiles(a, lo, Boundary(b, hi)) && Tiles(b, Boundary(b, hi), hi)
  {
    if a == [] {
      assert a + b == b;
    } else {
      assert (a + b)[1..] == a[1..] + b;
      TilesAppend(a[1..], b, a[0].End(), hi);
    }
  }

  lemma {:induction false} TilesBounds(t: seq<Area>, lo: nat, hi: nat)
    requires Tiles(t, lo, hi)
    ensures lo <= hi
    ensures forall i | 0 <= i < |t| :: lo <= t[i].start < t[i].End() <= hi
    ensures t != [] ==> t[|t| - 1].End() == hi && t[0].start == lo
    ensures SumSizes(t) == hi - lo
  {
    if t != [] {
      TilesBounds(t[1..], t[0].End(), hi);
      assert forall i | 0 < i < |t| :: t[i] == t[1..][i - 1];
    }
  }

  lemma TilesOne(a: Area)
    requires a.size > 0
    ensures Tiles([a], a.start, a.End())
  {
    assert [a][1..] == [];
  }

  lemma TilesTwo(a: Area, b: Area)
    requires a.size > 0 && b.size > 0 && b.start == a.End()
    ensures Tiles([a, b], a.start, b.End())
  {
    assert [a, b][1..] == [b];
    TilesOne(b);
  }

  /** Splits a tiling at the areas i and j. */
  lemma TilesParts(t: seq<Area>, i: nat, j: nat, lo: nat, hi: nat)
    requires Tiles(t, lo, hi) && i < j <= |t|
    ensures Tiles(t[..i], lo, t[i].start)
    ensures Tiles(t[i..j], t[i].start, t[j - 1].End())
    ensures Tiles(t[j..], t[j - 1].End(), hi)
  {
    assert t == t[..i] + t[i..];
    TilesAppend(t[..i], t[i..], lo, hi);
    assert t[i..] == t[i..j] + t[j..];
    TilesAppend(t[i..j], t[j..], t[i].start, hi);
    TilesBounds(t[i..j], t[i].start, Boundary(t[j..], hi));
  }

  lemma TilesSplice(t: seq<Area>, i: nat, j: nat, r: seq<Area>, lo: nat, hi: nat)
    requires Tiles(t, lo, hi) && i < j <= |t|
    requires Tiles(r, t[i].start, t[j - 1].End())
    ensures Tiles(Splice(t, i, j, r), lo, hi)
  {
    TilesParts(t, i, j, lo, hi);
    TilesAppend(r, t[j..], t[i].start, hi);
    TilesBounds(r + t[j..], t[i].start, hi);
    TilesAppend(t[..i], r + t[j..], lo, hi);
    assert t[..i] + (r + t[j..]) == Splice(t, i, j, r);
  }

  // ----- node identities -----

  /** Every node of r is a node of s or the identity just taken. */
  ghost predicate NodesFrom(r: seq<Area>, s: seq<Area>, next: nat)
  {
    forall k | 0 <= k < |r| :: r[k].node == next || exists m :: 0 <= m < |s| && s[m].node == r[k].node
  }

  lemma NodesSplice(t: seq<Area>, i: nat, j: nat, r: seq<Area>, next: nat)
    requires DistinctNodes(t) && NodesBelow(t, next) && i <= j <= |t|
    requires DistinctNodes(r) && NodesFrom(r, t[i..j], next)
    ensures DistinctNodes(Splice(t, i, j, r)) && NodesBelow(Splice(t, i, j, r), next + 1)
    ensures forall k, m | 0 <= k < |r| && 0 <= m < i :: r[k].node != t[m].node
    ensures forall k, m | 0 <= k < |r| && j <= m < |t| :: r[k].node != t[m].node
  {
    forall k, m | 0 <= k < |r| && 0 <= m < |t| && !(i <= m < j)
      ensures r[k].node != t[m].node
    {
      if r[k].node != next {
        var q :| 0 <= q < |t[i..j]| && t[i..j][q].node == r[k].node;
        assert t[i + q].node == r[k].node;
      }
    }
  }

  // ----- contents -----

  lemma {:induction false} ContentsAppend(bytes: seq<Byte>, a: seq<Area>, b: seq<Area>)
    ensures Contents(bytes, a + b) == Contents(bytes, b) + Contents(bytes, a)
  {
    if a == [] {
      assert a + b == b;
    } else {
      assert (a + b)[1..] == a[1..] + b;
      ContentsAppend(bytes, a[1..], b);
    }
  }

  lemma {:induction false} ContentsOfThree(bytes: seq<Byte>, a: seq<Area>, b: seq<Area>, c: seq<Area>)
    ensures Contents(bytes, a + b + c) == Contents(bytes, c) + (Contents(bytes, b) + Contents(bytes, a))
  {
    ContentsAppend(bytes, a + b, c);
    ContentsAppend(bytes, a, b);
  }

  lemma {:induction false} ContentsKeys(bytes: seq<Byte>, t: seq<Area>, n: nat)
    ensures n in Contents(bytes, t) <==> exists i :: 0 <= i < |t| && !t[i].free && t[i].node == n
  {
    if t != [] {
      ContentsKeys(bytes, t[1..], n);
      if i :| 0 <= i < |t| && !t[i].free && t[i].node == n {
        assert i == 0 || t[1..][i - 1] == t[i];
      }
      if i :| 0 <= i < |t[1..]| && !t[1..][i].free && t[1..][i].node == n {
        assert t[i + 1] == t[1..][i];
      }
    }
  }

  lemma {:induction false} ContentsAllFree(bytes: seq<Byte>, t: seq<Area>)
    requires forall i | 0 <= i < |t| :: t[i].free
    ensures Contents(bytes, t) == map[]
  {
    if t != [] {
      ContentsAllFree(bytes, t[1..]);
    }
  }

  /** One allocated area followed by free ones. */
  lemma {:induction false} ContentsOne(bytes: seq<Byte>, a: Area, rest: seq<Area>)
    requires !a.free && forall i | 0 <= i < |rest| :: rest[i].free
    ensures Contents(bytes, [a] + rest) == map[a.node := Slice(bytes, a)]
  {
    assert ([a] + rest)[1..] == rest;
    ContentsAllFree(bytes, rest);
  }

  lemma {:induction false} ContentsAt(bytes: seq<Byte>, t: seq<Area>, i: nat)
    requires DistinctNodes(t) && i < |t| && !t[i].free
    ensures t[i].node in Contents(bytes, t) && Contents(bytes, t)[t[i].node] == Slice(bytes, t[i])
  {
    if i > 0 {
      ContentsAt(bytes, t[1..], i - 1);
      assert t[0].node != t[i].node;
    }
  }

  /** Bytes outside the tiled range do not matter. */
  lemma {:induction false} ContentsFrame(bytes: seq<Byte>, bytes': seq<Byte>, t: seq<Area>, lo: nat, hi: nat)
    requires Tiles(t, lo, hi) && hi <= |bytes| == |bytes'|
    requires forall k | lo <= k < hi :: bytes[k] == bytes'[k]
    ensures Contents(bytes, t) == Contents(bytes', t)
  {
    if t != [] {
      TilesBounds(t, lo, hi);
      ContentsFrame(bytes, bytes', t[1..], t[0].End(), hi);
      assert Slice(bytes, t[0]) == Slice(bytes', t[0]);
    }
  }

  // ----- blocks -----

  lemma {:induction false} BlocksAppend(bytes: seq<Byte>, a: seq<Area>, b: seq<Area>)
    ensures Blocks(bytes, a + b) == Blocks(bytes, a) + Blocks(bytes, b)
  {
    if a == [] {
      assert a + b == b;
    } else {
      assert (a + b)[1..] == a[1..] + b;
      BlocksAppend(bytes, a[1..], b);
    }
  }

  lemma {:induction false} BlocksOfThree(bytes: seq<Byte>, a: seq<Area>, b: seq<Area>, c: seq<Area>)
    ensures Blocks(bytes, a + b + c) == Blocks(bytes, a) + Blocks(bytes, b) + Blocks(bytes, c)
  {
    BlocksAppend(bytes, a + b, c);
    BlocksAppend(bytes, a, b);
  }

  lemma {:induction false} BlocksFrame(bytes: seq<Byte>, bytes': seq<Byte>, t: seq<Area>, lo: nat, hi: nat)
    requires Tiles(t, lo, hi) && hi <= |bytes| == |bytes'|
    requires forall k | lo <= k < hi :: bytes[k] == bytes'[k]
    ensures Blocks(bytes, t) == Blocks(bytes', t)
  {
    if t != [] {
      TilesBounds(t, lo, hi);
      BlocksFrame(bytes, bytes', t[1..], t[0].End(), hi);
      assert Slice(bytes, t[0]) == Slice(bytes', t[0]);
    }
  }

  lemma {:induction false} ContentsOfBlocks(bytes: seq<Byte>, t: seq<Area>)
    ensures Contents(bytes, t) == AsMap(Blocks(bytes, t))
  {
    if t != [] {
      ContentsOfBlocks(bytes, t[1..]);
      assert Blocks(bytes, t) == if t[0].free then Blocks(bytes, t[1..])
                                 else [Block(t[0].node, Slice(bytes, t[0]))] + Blocks(bytes, t[1..]);
      if !t[0].free {
        assert Blocks(bytes, t)[1..] == Blocks(bytes, t[1..]);
      }
    }
  }

  lemma {:induction false} BlocksAllFree(bytes: seq<Byte>, t: seq<Area>)
    requires forall i | 0 <= i < |t| :: t[i].free
    ensures Blocks(bytes, t) == []
  {
    if t != [] {
      BlocksAllFree(bytes, t[1..]);
    }
  }

  lemma {:induction false} BlocksUnited(bytes: seq<Byte>, a: seq<Area>, b: seq<Area>, c: seq<Area>, u: Area)
    requires u.free && forall i | 0 <= i < |b| :: b[i].free
    ensures Blocks(bytes, a + [u] + c) == Blocks(bytes, a + b + c)
  {
    BlocksOfThree(bytes, a, b, c);
    BlocksOfThree(bytes, a, [u], c);
    BlocksAllFree(bytes, b);
    BlocksAllFree(bytes, [u]);
  }

  /** What is not free is data: the sizes of both add up to the tiled range. */
  lemma {:induction false} FreePlusData(bytes: seq<Byte>, t: seq<Area>, lo: nat, hi: nat)
    requires Tiles(t, lo, hi) && hi <= |bytes|
    ensures SumFree(t) + SumData(Blocks(bytes, t)) == hi - lo
  {
    if t != [] {
      TilesBounds(t, lo, hi);
      FreePlusData(bytes, t[1..], t[0].End(), hi);
      if t[0].free {
        assert Blocks(bytes, t) == Blocks(bytes, t[1..]);
      } else {
        assert Blocks(bytes, t)[1..] == Blocks(bytes, t[1..]);
        assert |Slice(bytes, t[0])| == t[0].size;
      }
    }
  }

  lemma SlicePrefix(bytes: seq<Byte>, a: Area, n: nat)
    requires n <= a.size && a.End() <= |bytes|
    ensures |Slice(bytes, a)| == a.size && |Slice(bytes, a.(size := n))| == n
    ensures Slice(bytes, a.(size := n)) == Slice(bytes, a)[..n]
  {
    assert bytes[a.start..a.start + n] == bytes[a.start..a.start + a.size][..n];
  }

  // ----- sums -----

  lemma SumOne(t: seq<Area>, j: nat)
    requires j < |t|
    ensures SumSizes(t[j..j + 1]) == t[j].size
  {
    assert t[j..j + 1] == [t[j]] && [t[j]][1..] == [];
    assert SumSizes([]) == 0;
  }

  lemma SumTwo(a: Area, b: Area)
    ensures SumSizes([a, b]) == a.size + b.size
  {
    assert [a, b][1..] == [b] && [b][1..] == [];
    assert SumSizes([]) == 0 && SumSizes([b]) == b.size;
  }

  lemma {:induction false} SumFreeAppend(a: seq<Area>, b: seq<Area>)
    ensures SumFree(a + b) == SumFree(a) + SumFree(b)
  {
    if a == [] {
      assert a + b == b;
    } else {
      assert (a + b)[1..] == a[1..] + b;
      SumFreeAppend(a[1..], b);
    }
  }

  lemma {:induction false} SumFreeAllFree(t: seq<Area>)
    requires forall i | 0 <= i < |t| :: t[i].free
    ensures SumFree(t) == SumSizes(t)
  {
    if t != [] {
      SumFreeAllFree(t[1..]);
    }
  }
}

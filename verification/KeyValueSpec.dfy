/** The shared key-value store on sequences of records, and the map it stands for. */
module KeyValueSpec {
  import opened Basics

  /** A key with its data: a value, or a value with its time to live and the time it
      was set. */
  datatype Record<T> = Record(key: int, data: T)

  datatype Request<T> = Set(key: int, data: T) | Get(key: int) | Delete(key: int)

  /** Whether the command succeeded, and what get has read. */
  datatype Reply<T> = Reply(ok: bool, data: Option<T>)

  const STORAGE_ELEMENTS_MAX: nat := 1024

  ghost predicate UniqueKeys<T>(rs: seq<Record<T>>)
  {
    forall i, j | 0 <= i < j < |rs| :: rs[i].key != rs[j].key
  }

  /** The position of the first record with this key, or |rs|. */
  function Find<T>(rs: seq<Record<T>>, key: int): (i: nat)
    ensures i <= |rs|
    ensures i < |rs| ==> rs[i].key == key
    ensures forall j | 0 <= j < i :: rs[j].key != key
  {
    if rs == [] then 0
    else if rs[0].key == key then 0
    else 1 + Find(rs[1..], key)
  }

  /** Deleting record i shifts the later ones to the left.  What a record's place
      keeps of its old data and takes of the new is up to carry. */
  function Shifted<T>(carry: (T, T) -> T, rs: seq<Record<T>>, i: nat): (r: seq<Record<T>>)
    requires i < |rs|
    ensures |r| == |rs| - 1
  {
    seq(|rs| - 1, j requires 0 <= j < |rs| - 1 =>
      if j < i then rs[j] else Record(rs[j + 1].key, carry(rs[j].data, rs[j + 1].data)))
  }

  /** run_command on the records in use. */
  function Exec<T>(carry: (T, T) -> T, rs: seq<Record<T>>, c: Request<T>): (seq<Record<T>>, Reply<T>)
  {
    var i := Find(rs, c.key);
    match c
    case Set(key, data) =>
      if i < |rs| then (rs[i := Record(key, data)], Reply(true, None))
      else if |rs| < STORAGE_ELEMENTS_MAX then (rs + [Record(key, data)], Reply(true, None))
      else (rs, Reply(false, None))
    case Get(key) =>
      (rs, if i < |rs| then Reply(true, Some(rs[i].data)) else Reply(false, None))
    case Delete(key) =>
      if i < |rs| then (Shifted(carry, rs, i), Reply(true, None)) else (rs, Reply(false, None))
  }

  /** The records that are not expired, in order. */
  function Kept<T>(expired: T -> bool, rs: seq<Record<T>>): (r: seq<Record<T>>)
    ensures |r| <= |rs|
  {
    if rs == [] then []
    else (if expired(rs[0].data) then [] else [rs[0]]) + Kept(expired, rs[1..])
  }

  // ----- the map -----

  /** The map from key to what view shows of its data. */
  ghost function Contents<T, V>(view: T -> V, rs: seq<Record<T>>): map<int, V>
  {
    if rs == [] then map[] else Contents(view, rs[1..])[rs[0].key := view(rs[0].data)]
  }

  /** A sequential map of bounded size. */
  ghost function MapExec<T, V>(view: T -> V, m: map<int, V>, c: Request<T>): (map<int, V>, Reply<V>)
  {
    match c
    case Set(key, data) =>
      if key in m || |m| < STORAGE_ELEMENTS_MAX then (m[key := view(data)], Reply(true, None))
      else (m, Reply(false, None))
    case Get(key) => (m, if key in m then Reply(true, Some(m[key])) else Reply(false, None))
    case Delete(key) => if key in m then (m - {key}, Reply(true, None)) else (m, Reply(false, None))
  }

  function Show<T, V>(view: T -> V, r: Reply<T>): Reply<V>
  {
    Reply(r.ok, match r.data case None => None case Some(d) => Some(view(d)))
  }

  /** What view shows comes along when records are shifted. */
  ghost predicate Carries<T(!new), V>(carry: (T, T) -> T, view: T -> V)
  {
    forall old_, new_ :: view(carry(old_, new_)) == view(new_)
  }

  lemma {:induction false} FindIs<T>(rs: seq<Record<T>>, i: nat)
    requires UniqueKeys(rs) && i < |rs|
    ensures Find(rs, rs[i].key) == i
  {
  }

  lemma {:induction false} ContentsAt<T, V>(view: T -> V, rs: seq<Record<T>>, key: int)
    ensures key in Contents(view, rs) <==> Find(rs, key) < |rs|
    ensures key in Contents(view, rs) ==> Contents(view, rs)[key] == view(rs[Find(rs, key)].data)
  {
    if rs != [] {
      ContentsAt(view, rs[1..], key);
    }
  }

  lemma {:induction false} ContentsSize<T, V>(view: T -> V, rs: seq<Record<T>>)
    requires UniqueKeys(rs)
    ensures |Contents(view, rs)| == |rs|
  {
    if rs != [] {
      ContentsSize(view, rs[1..]);
      ContentsAt(view, rs[1..], rs[0].key);
      assert forall j | 0 <= j < |rs[1..]| :: rs[1..][j] == rs[j + 1];
    }
  }

  lemma {:induction false} ContentsSet<T, V>(view: T -> V, rs: seq<Record<T>>, i: nat, data: T)
    requires UniqueKeys(rs) && i < |rs|
    ensures Contents(view, rs[i := Record(rs[i].key, data)]) == Contents(view, rs)[rs[i].key := view(data)]
  {
    var rs' := rs[i := Record(rs[i].key, data)];
    if i == 0 {
      assert rs'[1..] == rs[1..];
    } else {
      assert rs'[1..] == rs[1..][i - 1 := Record(rs[i].key, data)];
      ContentsSet(view, rs[1..], i - 1, data);
      assert rs[0].key != rs[i].key;
    }
  }

  lemma {:induction false} ContentsAppend<T, V>(view: T -> V, rs: seq<Record<T>>, r: Record<T>)
    requires forall j | 0 <= j < |rs| :: rs[j].key != r.key
    ensures Contents(view, rs + [r]) == Contents(view, rs)[r.key := view(r.data)]
  {
    if rs == [] {
      assert (rs + [r])[1..] == [];
    } else {
      assert (rs + [r])[1..] == rs[1..] + [r];
      ContentsAppend(view, rs[1..], r);
    }
  }

  /** Records that show the same stand for the same map. */
  lemma {:induction false} ContentsSame<T, V>(view: T -> V, rs: seq<Record<T>>, rs': seq<Record<T>>)
    requires |rs| == |rs'|
    requires forall j | 0 <= j < |rs| :: rs[j].key == rs'[j].key && view(rs[j].data) == view(rs'[j].data)
    ensures Contents(view, rs) == Contents(view, rs')
  {
    if rs != [] {
      ContentsSame(view, rs[1..], rs'[1..]);
    }
  }

  lemma {:induction false} ContentsDelete<T(!new), V>(carry: (T, T) -> T, view: T -> V, rs: seq<Record<T>>, i: nat)
    requires UniqueKeys(rs) && i < |rs| && Carries(carry, view)
    ensures Contents(view, Shifted(carry, rs, i)) == Contents(view, rs) - {rs[i].key}
  {
    var rs' := Shifted(carry, rs, i);
    if i == 0 {
      ContentsSame(view, rs', rs[1..]);
      ContentsAt(view, rs[1..], rs[0].key);
      assert forall j | 0 <= j < |rs[1..]| :: rs[1..][j] == rs[j + 1];
    } else {
      assert rs'[1..] == Shifted(carry, rs[1..], i - 1);
      ContentsDelete(carry, view, rs[1..], i - 1);
      assert rs[0].key != rs[i].key;
      assert rs'[0] == rs[0] && rs[1..][i - 1] == rs[i];
      hide Shifted;
      MapLess(Contents(view, rs[1..]), rs[0].key, view(rs[0].data), rs[i].key);
    }
  }

  lemma MapLess<V>(m: map<int, V>, key: int, v: V, less: int)
    requires key != less
    ensures m[key := v] - {less} == (m - {less})[key := v]
  {
  }

  /** A store as run_command leaves it. */
  ghost predicate Valid<T>(rs: seq<Record<T>>)
  {
    UniqueKeys(rs) && |rs| <= STORAGE_ELEMENTS_MAX
  }

  lemma ExecValid<T>(carry: (T, T) -> T, rs: seq<Record<T>>, c: Request<T>)
    requires Valid(rs)
    ensures Valid(Exec(carry, rs, c).0)
  {
    var i, rs' := Find(rs, c.key), Exec(carry, rs, c).0;
    if c.Delete? && i < |rs| {
      forall j, k | 0 <= j < k < |rs'|
        ensures rs'[j].key != rs'[k].key
      {
        assert rs[if j < i then j else j + 1].key != rs[if k < i then k else k + 1].key;
      }
    }
  }

  /** Every command does to the store what it does to a map of bounded size, and
      replies what the map would. */
  lemma {:induction false} ExecRefinesMap<T(!new), V>(carry: (T, T) -> T, view: T -> V, rs: seq<Record<T>>,
                                                      c: Request<T>)
    requires Valid(rs) && Carries(carry, view)
    ensures var (rs', reply) := Exec(carry, rs, c);
            (Contents(view, rs'), Show(view, reply)) == MapExec(view, Contents(view, rs), c)
  {
    var i := Find(rs, c.key);
    ContentsAt(view, rs, c.key);
    ContentsSize(view, rs);
    match c
    case Set(key, data) =>
      if i < |rs| {
        ContentsSet(view, rs, i, data);
      } else {
        ContentsAppend(view, rs, Record(key, data));
      }
    case Get(key) =>
    case Delete(key) =>
      if i < |rs| {
        ContentsDelete(carry, view, rs, i);
      }
  }

  // ----- expiry -----

  lemma {:induction false} KeptKeys<T>(expired: T -> bool, rs: seq<Record<T>>)
    requires UniqueKeys(rs)
    ensures UniqueKeys(Kept(expired, rs))
    ensures forall j | 0 <= j < |Kept(expired, rs)| :: Kept(expired, rs)[j] in rs && !expired(Kept(expired, rs)[j].data)
    ensures forall j | 0 <= j < |rs| && !expired(rs[j].data) :: rs[j] in Kept(expired, rs)
  {
    if rs != [] {
      KeptKeys(expired, rs[1..]);
      assert rs == [rs[0]] + rs[1..];
      var kept := Kept(expired, rs[1..]);
      forall j | 0 <= j < |kept|
        ensures kept[j].key != rs[0].key
      {
        var r := kept[j];
        assert r in rs[1..];
        var q :| 0 <= q < |rs[1..]| && rs[1..][q] == r;
        assert rs[q + 1] == r;
      }
      assert Kept(expired, rs) == if expired(rs[0].data) then kept else [rs[0]] + kept;
    }
  }

  /** Cleaning keeps the order of the records it keeps. */
  lemma {:induction false} KeptInOrder<T>(expired: T -> bool, rs: seq<Record<T>>, i: nat, j: nat)
    requires UniqueKeys(rs) && i < j < |rs| && !expired(rs[i].data) && !expired(rs[j].data)
    ensures var kept := Kept(expired, rs);
            Find(kept, rs[i].key) < Find(kept, rs[j].key) < |kept|
  {
    var rest := rs[1..];
    var kept := Kept(expired, rest);
    assert Kept(expired, rs) == if expired(rs[0].data) then kept else [rs[0]] + kept;
    assert ([rs[0]] + kept)[1..] == kept && ([rs[0]] + kept)[0] == rs[0];
    assert rest[j - 1] == rs[j] && rs[0].key != rs[j].key;
    hide Kept;
    if i > 0 {
      assert rest[i - 1] == rs[i] && rs[0].key != rs[i].key;
      KeptInOrder(expired, rest, i - 1, j - 1);
    } else {
      KeptKeys(expired, rest);
      assert rs[j] in kept;
      FoundIfIn(kept, rs[j]);
    }
  }

  lemma {:induction false} FoundIfIn<T>(rs: seq<Record<T>>, r: Record<T>)
    requires r in rs
    ensures Find(rs, r.key) < |rs|
  {
    var k :| 0 <= k < |rs| && rs[k] == r;
  }

  /** Cleaning removes exactly the expired entries from the map. */
  lemma {:induction false} KeptContents<T, V>(expired: T -> bool, view: T -> V, rs: seq<Record<T>>)
    requires UniqueKeys(rs)
    ensures var m, m' := Contents(view, rs), Contents(view, Kept(expired, rs));
            && m'.Keys <= m.Keys
            && (forall k | k in m' :: m'[k] == m[k])
            && (forall j | 0 <= j < |rs| :: rs[j].key in m' <==> !expired(rs[j].data))
  {
    if rs != [] {
      var rest := rs[1..];
      KeptContents(expired, view, rest);
      ContentsAt(view, rest, rs[0].key);
      assert forall j | 0 <= j < |rest| :: rest[j] == rs[j + 1];
      var kept := Kept(expired, rest);
      assert Kept(expired, rs) == if expired(rs[0].data) then kept else [rs[0]] + kept;
      assert ([rs[0]] + kept)[1..] == kept;
      forall j | 0 <= j < |rs|
        ensures rs[j].key in Contents(view, Kept(expired, rs)) <==> !expired(rs[j].data)
      {
        if j > 0 {
          assert rs[0].key != rs[j].key && rest[j - 1] == rs[j];
        } else {
          assert rs[0].key !in Contents(view, rest);
        }
      }
    }
  }
}

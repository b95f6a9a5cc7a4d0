/** The packed array of records in shared memory, and the commands on it. */
module KeyValueStore {
  import opened Basics
  import opened KeyValueSpec

  /** A value with its time to live (0: for ever) and the time it was set. */
  datatype Entry = Entry(value: int, ttl: int, created: int)

  /** Shifting a record takes everything along. */
  function CarryWhole<T>(old_: T, new_: T): T { new_ }

  /** p6's delete shifts key and value; the time to live and the time of setting stay
      with the place. */
  function CarryAsWritten(old_: Entry, new_: Entry): Entry { new_.(ttl := old_.ttl, created := old_.created) }

  function ExpiredAt(now: int): Entry -> bool
  {
    (e: Entry) => e.ttl > 0 && now - e.created > e.ttl
  }

  /** Any command but set and get deletes. */
  function RequestOf<T>(command: string, key: int, data: T): Request<T>
  {
    if command == "set" then Set(key, data) else if command == "get" then Get(key) else Delete(key)
  }

  class Store<T(!new)> {
    const elements: array<Record<T>>
    var count: nat

    ghost predicate Valid()
      reads this, elements
    {
      && elements.Length == STORAGE_ELEMENTS_MAX
      && count <= elements.Length
      && UniqueKeys(Records())
    }

    /** The records in use. */
    ghost function Records(): seq<Record<T>>
      requires count <= elements.Length
      reads this, elements
    {
      elements[..count]
    }

    constructor (memory: array<Record<T>>)
      requires memory.Length == STORAGE_ELEMENTS_MAX
      ensures Valid() && elements == memory && Records() == []
    {
      elements := memory;
      count := 0;
    }

    /** The place of the record with this key, or count. */
    method FindEntry(key: int) returns (index: nat)
      requires Valid()
      ensures index == Find(Records(), key)
    {
      index := 0;
      while index < count
        invariant index <= count
        invariant Find(Records(), key) == index + Find(Records()[index..], key)
      {
        assert Records()[index..][0] == elements[index] && Records()[index..][1..] == Records()[index + 1..];
        if elements[index].key == key {
          return;
        }
        index := index + 1;
      }
    }

    /** Shifts the records after place i one place to the left, over it. */
    method ShiftLeft(carry: (T, T) -> T, i: nat)
      requires i < count <= elements.Length
      modifies this, elements
      ensures count == old(count) - 1
      ensures Records() == Shifted(carry, old(Records()), i)
    {
      var j := i;
      while j < count - 1
        invariant i <= j <= count - 1
        invariant count == old(count)
        invariant forall k | 0 <= k < j ::
                    elements[k] == if k < i then old(elements[k])
                                   else Record(old(elements[k + 1]).key,
                                               carry(old(elements[k]).data, old(elements[k + 1]).data))
        invariant forall k | j <= k < elements.Length :: elements[k] == old(elements[k])
      {
        elements[j] := Record(elements[j + 1].key, carry(elements[j].data, elements[j + 1].data));
        j := j + 1;
      }
      count := count - 1;
    }

    /** What run_command does while it holds the lock, on the records and on the map
        that view shows of them.  Any view will do of which a shift carries all along. */
    method RunCommand<V>(carry: (T, T) -> T, ghost view: T -> V, command: string, key: int, data: T)
      returns (result: bool, out: Option<T>)
      requires Valid() && Carries(carry, view)
      modifies this, elements
      ensures Valid()
      ensures (Records(), Reply(result, out)) == Exec(carry, old(Records()), RequestOf(command, key, data))
      ensures command == "set" ==>
                var m := old(Contents(view, Records()));
                && out == None && (result <==> key in m || |m| < 1024)
                && Contents(view, Records()) == if result then m[key := view(data)] else m
      ensures command == "get" ==>
                var m := old(Contents(view, Records()));
                && Records() == old(Records()) && (result <==> key in m) && (result <==> out.Some?)
                && (result ==> Record(key, out.value) in Records() && view(out.value) == m[key])
      ensures command != "set" && command != "get" ==>
                var m := old(Contents(view, Records()));
                && out == None && (result <==> key in m)
                && Contents(view, Records()) == m - {key}
    {
      ExecValid(carry, Records(), RequestOf(command, key, data));
      ExecRefinesMap(carry, view, Records(), RequestOf(command, key, data));
      ContentsAt(view, Records(), key);
      result, out := false, None;
      var index := FindEntry(key);
      if command == "set" {
        if index < count {
          elements[index] := Record(key, data);
          assert Records() == old(Records())[index := Record(key, data)];
          result := true;
        } else if count < STORAGE_ELEMENTS_MAX {
          elements[count] := Record(key, data);
          count := count + 1;
          assert Records() == old(Records()) + [Record(key, data)];
          result := true;
        } else {
          result := false;
        }
      } else if command == "get" {
        if index < count {
          out := Some(elements[index].data);
          result := true;
        } else {
          result := false;
        }
      } else {
        if index < count {
          ShiftLeft(carry, index);
          result := true;
        } else {
          result := false;
        }
      }
    }
  }

  /** clean_old_entries: one sweep from the last record to the first. */
  method CleanOldEntries(store: Store<Entry>, now: int)
    requires store.Valid()
    modifies store, store.elements
    ensures store.Valid()
    ensures store.Records() == Kept(ExpiredAt(now), old(store.Records()))
    ensures forall r :: r in store.Records() <==>
                          r in old(store.Records()) && !(r.data.ttl > 0 && now - r.data.created > r.data.ttl)
  {
    ghost var rs := store.Records();
    KeptKeys(ExpiredAt(now), rs);
    if store.count > 0 {
      var current: nat := store.count - 1;
      SweepStart(ExpiredAt(now), rs);
      while true
        invariant current < |rs| && store.elements.Length == STORAGE_ELEMENTS_MAX && store.count <= STORAGE_ELEMENTS_MAX
        invariant store.Records() == rs[..current + 1] + Kept(ExpiredAt(now), rs[current + 1..])
        decreases current
      {
        SweepStep(ExpiredAt(now), rs, current);
        if store.elements[current].data.ttl > 0 {
          if now - store.elements[current].data.created > store.elements[current].data.ttl {
            store.ShiftLeft(CarryWhole<Entry>, current);
          }
        }
        if current == 0 {
          break;
        }
        current := current - 1;
      }
    }
  }

  lemma {:induction false} SweepStart<T>(expired: T -> bool, rs: seq<Record<T>>)
    ensures rs[..|rs|] + Kept(expired, rs[|rs|..]) == rs
    ensures rs != [] ==> rs[..0] + Kept(expired, rs[0..]) == Kept(expired, rs)
  {
    assert rs[|rs|..] == [] && rs[0..] == rs;
  }

  /** The sweep's next record, at place current. */
  lemma SweepStep<T>(expired: T -> bool, rs: seq<Record<T>>, current: nat)
    requires current < |rs|
    ensures var all := rs[..current + 1] + Kept(expired, rs[current + 1..]);
            var next := rs[..current] + Kept(expired, rs[current..]);
            && all[current] == rs[current]
            && next == (if expired(rs[current].data) then Shifted(CarryWhole<T>, all, current) else all)
    ensures current == 0 ==> rs[..0] + Kept(expired, rs[0..]) == Kept(expired, rs)
  {
    assert rs[current..][0] == rs[current] && rs[current..][1..] == rs[current + 1..];
    var rest := Kept(expired, rs[current + 1..]);
    assert Kept(expired, rs[current..]) == if expired(rs[current].data) then rest else [rs[current]] + rest;
    assert rs[0..] == rs;
  }

  // ----- p6's delete as written -----

  /** All records from place i on were set with the same time to live at the same time. */
  predicate SameTimes(rs: seq<Record<Entry>>, i: nat)
    requires i < |rs|
  {
    forall j | i < j < |rs| :: rs[j].data.ttl == rs[i].data.ttl && rs[j].data.created == rs[i].data.created
  }

  function Itself<T>(data: T): T { data }

  function ValueOf(e: Entry): int { e.value }

  lemma {:induction false} ShiftedAt<V>(carry: (Entry, Entry) -> Entry, view: Entry -> V, rs: seq<Record<Entry>>,
                                        i: nat, j: nat)
    requires Valid(rs) && i < j < |rs|
    ensures var m := Contents(view, Shifted(carry, rs, i));
            rs[j].key in m && m[rs[j].key] == view(carry(rs[j - 1].data, rs[j].data))
  {
    var rs' := Shifted(carry, rs, i);
    FindIs(rs, i);
    ExecValid(carry, rs, Delete(rs[i].key));
    hide Find, Contents;
    FindIs(rs', j - 1);
    ContentsAt(view, rs', rs[j].key);
  }

  /** view shows the same of record j with its own times and with those of the record
      before it. */
  ghost predicate Alike<V>(view: Entry -> V, rs: seq<Record<Entry>>, j: nat)
    requires 0 < j < |rs|
  {
    view(CarryAsWritten(rs[j - 1].data, rs[j].data)) == view(rs[j].data)
  }

  /** What view shows of the store after the delete as written is what it showed before
      without the key, exactly when it does not tell each later record's times from
      those of the record before it. */
  lemma {:induction false} DeleteShows<V>(view: Entry -> V, rs: seq<Record<Entry>>, i: nat)
    requires Valid(rs) && i < |rs|
    ensures Contents(view, Shifted(CarryAsWritten, rs, i)) == Contents(view, rs) - {rs[i].key}
            <==> forall j: nat | i < j < |rs| :: Alike(view, rs, j)
  {
    var whole, written := Shifted(CarryWhole<Entry>, rs, i), Shifted(CarryAsWritten, rs, i);
    ContentsDelete(CarryWhole<Entry>, view, rs, i);
    hide Contents, Valid;
    if j: nat :| i < j < |rs| && !Alike(view, rs, j) {
      ShiftedAt(CarryAsWritten, view, rs, i, j);
      ShiftedAt(CarryWhole<Entry>, view, rs, i, j);
    } else {
      forall k | 0 <= k < |whole|
        ensures whole[k].key == written[k].key && view(whole[k].data) == view(written[k].data)
      {
        if k >= i {
          assert Alike(view, rs, k + 1);
        }
      }
      ContentsSame(view, written, whole);
    }
  }

  ghost predicate AgreesBefore<V>(view: Entry -> V, rs: seq<Record<Entry>>, j: nat)
    requires 0 < j < |rs|
  {
    view(rs[j - 1].data) == view(rs[j].data)
  }

  /** Neighbours that agree all agree. */
  lemma {:induction false} NeighboursAgree<V>(view: Entry -> V, rs: seq<Record<Entry>>, i: nat, n: nat)
    requires i < n <= |rs|
    ensures (forall j: nat | i < j < n :: AgreesBefore(view, rs, j))
            <==> forall j | i < j < n :: view(rs[j].data) == view(rs[i].data)
  {
    if i + 1 < n {
      NeighboursAgree(view, rs, i, n - 1);
      var j: nat := n - 1;
      if AgreesBefore(view, rs, j) {
        assert j - 1 > i ==> view(rs[j].data) == view(rs[j - 1].data);
      }
      if forall j: nat | i < j < n :: AgreesBefore(view, rs, j) {
        assert forall j: nat | i < j < n - 1 :: AgreesBefore(view, rs, j);
      }
      if forall j | i < j < n :: view(rs[j].data) == view(rs[i].data) {
        assert AgreesBefore(view, rs, j);
      }
    }
  }

  /** Deleting as written is deleting the key, and nothing else, exactly when the
      records from its place on share their times. */
  lemma {:induction false} DeleteAsWrittenExactly(rs: seq<Record<Entry>>, i: nat)
    requires Valid(rs) && i < |rs|
    ensures Contents(Itself<Entry>, Shifted(CarryAsWritten, rs, i)) == Contents(Itself<Entry>, rs) - {rs[i].key}
            <==> SameTimes(rs, i)
  {
    DeleteShows(Itself<Entry>, rs, i);
    NeighboursAgree(Times, rs, i, |rs|);
    hide Contents, Shifted, Valid;
    forall j: nat | i < j < |rs|
      ensures Alike(Itself<Entry>, rs, j) <==> AgreesBefore(Times, rs, j)
    {
    }
    assert SameTimes(rs, i) <==> forall j | i < j < |rs| :: Times(rs[j].data) == Times(rs[i].data);
  }

  function Times(e: Entry): (int, int) { (e.ttl, e.created) }

  /** The last moment at which an entry has not expired, if it ever does. */
  function Deadline(e: Entry): Option<int>
  {
    if e.ttl > 0 then Some(e.created + e.ttl) else None
  }

  /** All that clients can see of an entry: its value, and how long it lasts. */
  function Seen(e: Entry): (int, Option<int>) { (e.value, Deadline(e)) }

  lemma DeadlineMeans(e: Entry, now: int)
    ensures ExpiredAt(now)(e) <==> Deadline(e).Some? && now > Deadline(e).value
  {
  }

  /** As far as clients can see, deleting as written is deleting the key, and nothing
      else, exactly when the records from its place on share their deadline. */
  lemma {:induction false} DeleteSeenExactly(rs: seq<Record<Entry>>, i: nat)
    requires Valid(rs) && i < |rs|
    ensures Contents(Seen, Shifted(CarryAsWritten, rs, i)) == Contents(Seen, rs) - {rs[i].key}
            <==> forall j | i < j < |rs| :: Deadline(rs[j].data) == Deadline(rs[i].data)
  {
    DeleteShows(Seen, rs, i);
    NeighboursAgree(Deadline, rs, i, |rs|);
    hide Contents, Shifted, Valid, Alike, AgreesBefore;
    forall j: nat | i < j < |rs|
      ensures Alike(Seen, rs, j) <==> AgreesBefore(Deadline, rs, j)
    {
      SeenAlike(rs, j);
    }
  }

  lemma SeenAlike(rs: seq<Record<Entry>>, j: nat)
    requires 0 < j < |rs|
    ensures Alike(Seen, rs, j) <==> AgreesBefore(Deadline, rs, j)
  {
  }

  /** A concrete store: deleting key 1 makes key 2, set for ever, expire. */
  lemma DeleteAsWrittenFails()
    ensures var rs := [Record(1, Entry(10, 5, 0)), Record(2, Entry(20, 0, 0))];
            && Exec(CarryAsWritten, rs, Delete(1)) == ([Record(2, Entry(20, 5, 0))], Reply(true, None))
            && Kept(ExpiredAt(6), Exec(CarryAsWritten, rs, Delete(1)).0) == []
            && Kept(ExpiredAt(6), Exec(CarryWhole<Entry>, rs, Delete(1)).0) == [Record(2, Entry(20, 0, 0))]
  {
    var rs := [Record(1, Entry(10, 5, 0)), Record(2, Entry(20, 0, 0))];
    assert Find(rs, 1) == 0;
    assert Shifted(CarryAsWritten, rs, 0) == [Record(2, Entry(20, 5, 0))];
    assert Shifted(CarryWhole<Entry>, rs, 0) == [Record(2, Entry(20, 0, 0))];
  }
}

/** How the master hands clients to workers and learns that they are free again. */
module Dispatch {
  import opened Basics

  datatype WorkerInfo = WorkerInfo(pid: int, passFd: int, free: bool)

  // ----- the master -----

  /** What became of an accepted client. */
  datatype Accepted = NoClient | Refused(client: int) | SendFailed(client: int) | Passed(client: int, worker: nat)

  ghost predicate DistinctWorkers(ws: seq<WorkerInfo>)
  {
    forall i, j | 0 <= i < j < |ws| :: ws[i].pid != ws[j].pid && ws[i].passFd != ws[j].passFd
  }

  /** client_accept: a client goes to a worker marked free, which is then marked busy,
      unless nobody is free or the sending fails. */
  ghost predicate Accepts(ws: seq<WorkerInfo>, out: Accepted, ws': seq<WorkerInfo>)
  {
    match out
    case NoClient => ws' == ws
    case Refused(_) => ws' == ws && forall k | 0 <= k < |ws| :: !ws[k].free
    case SendFailed(_) => ws' == ws && exists k :: 0 <= k < |ws| && ws[k].free
    case Passed(_, k) => k < |ws| && ws[k].free && ws' == ws[k := ws[k].(free := false)]
  }

  class Master {
    var workers: seq<WorkerInfo>

    constructor (ws: seq<WorkerInfo>)
      ensures workers == ws
    {
      workers := ws;
    }

    /** The workers marked free, in order. */
    method FreeWorkers() returns (free: seq<WorkerInfo>)
      ensures forall w :: w in free <==> w in workers && w.free
    {
      free := [];
      for k := 0 to |workers|
        invariant forall w :: w in free <==> w in workers[..k] && w.free
      {
        assert workers[..k + 1] == workers[..k] + [workers[k]];
        if workers[k].free {
          free := free + [workers[k]];
        }
      }
      assert workers[..|workers|] == workers;
    }

    /** The environment says what accept returns, which free worker is drawn and whether
        the descriptor could be sent. */
    method ClientAccept(accepted: Option<int>, draw: nat, sent: bool) returns (out: Accepted)
      requires DistinctWorkers(workers)
      modifies this
      ensures Accepts(old(workers), out, workers)
      ensures accepted == None ==> out == NoClient
      ensures accepted.Some? && (forall w | w in old(workers) :: !w.free) ==> out == Refused(accepted.value)
      ensures accepted.Some? && (exists w :: w in old(workers) && w.free) ==>
                if sent then
                  && out.Passed? && out.client == accepted.value
                  && out.worker < |old(workers)| && old(workers)[out.worker].free
                  && workers == old(workers)[out.worker := old(workers)[out.worker].(free := false)]
                else out == SendFailed(accepted.value)
      ensures !out.Passed? ==> workers == old(workers)
      ensures DistinctWorkers(workers)
    {
      var free := FreeWorkers();
      if accepted == None {
        return NoClient;
      }
      if |free| == 0 {
        assert forall k | 0 <= k < |workers| :: workers[k] !in free;
        return Refused(accepted.value);
      }
      var chosen := free[draw % |free|];
      assert chosen in free && chosen in workers;
      if !sent {
        return SendFailed(accepted.value);
      }
      var k := 0;
      while workers[k].pid != chosen.pid
        invariant k < |workers| && forall j | 0 <= j < k :: workers[j].pid != chosen.pid
        decreases |workers| - k
      {
        assert exists j :: k < j < |workers| && workers[j] == chosen;
        k := k + 1;
      }
      assert workers[k] == chosen;
      workers := workers[k := workers[k].(free := false)];
      return Passed(accepted.value, k);
    }

    /** An event on a worker's descriptor: reads the notification and marks the worker
        free. */
    method WorkerEvent(fd: int) returns (worker: Option<nat>)
      requires DistinctWorkers(workers)
      modifies this
      ensures worker.Some? ==>
                && worker.value < |old(workers)| && old(workers)[worker.value].passFd == fd
                && workers == old(workers)[worker.value := old(workers)[worker.value].(free := true)]
      ensures worker.None? ==> workers == old(workers) && forall k | 0 <= k < |workers| :: workers[k].passFd != fd
      ensures DistinctWorkers(workers)
    {
      for k := 0 to |workers|
        invariant workers == old(workers) && forall j | 0 <= j < k :: workers[j].passFd != fd
      {
        if workers[k].passFd == fd {
          workers := MarkedFree(workers, k);
          return Some(k);
        }
      }
      return None;
    }
  }

  function MarkedFree(ws: seq<WorkerInfo>, k: nat): seq<WorkerInfo>
    requires k < |ws|
  {
    ws[k := ws[k].(free := true)]
  }

  // ----- a worker -----

  /** A worker and the client it serves, if any. */
  class Worker {
    var client: Option<int>

    constructor ()
      ensures client == None
    {
      client := None;
    }

    /** A descriptor arrives; registering it may fail, and then it is closed. */
    method Receive(fd: int, registered: bool) returns (closed: bool)
      modifies this
      ensures client == ReceivedClient(fd, registered) && closed == !registered
    {
      client := Some(fd);
      closed := false;
      if !registered {
        closed := true;
        client := None;
      }
    }

    /** Data of the client; when there is no more, the client is disconnected and the
        master is notified. */
    method Serve(more: bool) returns (notify: bool)
      requires client.Some?
      modifies this
      ensures client == ServedClient(old(client), more) && notify == !more
    {
      notify := false;
      if !more {
        client := None;
        notify := true;
      }
    }
  }

  function ReceivedClient(fd: int, registered: bool): Option<int>
  {
    if registered then Some(fd) else None
  }

  function ServedClient(client: Option<int>, more: bool): Option<int>
  {
    if more then client else None
  }

  // ----- the protocol -----

  /** The master's list and, for each of its workers: the descriptors on their way to
      it, the client it serves, and its notifications on their way to the master.
      stranded records which workers have failed to register a client or to notify the
      master; accepted and closed, what became of the clients.  No step depends on
      those three. */
  datatype State = State(
    master: seq<WorkerInfo>, toWorker: seq<seq<int>>, client: seq<Option<int>>, toMaster: seq<nat>,
    stranded: seq<bool>, accepted: multiset<int>, closed: multiset<int>)
  {
    ghost predicate Sound()
    {
      |master| == |toWorker| == |client| == |toMaster| == |stranded|
    }
  }

  datatype Action =
    | Accept(out: Accepted)
    | Receive(worker: nat, registered: bool)
    | Serve(worker: nat, more: bool, notified: bool)
    | ReadNotification(worker: nat)

  ghost predicate Init(s: State)
  {
    && s.Sound()
    && (forall k | 0 <= k < |s.master| ::
          s.master[k].free && s.toWorker[k] == [] && s.client[k] == None && s.toMaster[k] == 0 && !s.stranded[k])
    && s.accepted == s.closed == multiset{}
  }

  ghost predicate Next(s: State, a: Action, s': State)
    requires s.Sound()
  {
    match a
    case Accept(out) =>
      && Accepts(s.master, out, s'.master)
      && (match out
          case NoClient => s' == s.(master := s'.master)
          case Refused(c) =>
            s' == s.(master := s'.master, accepted := s.accepted + multiset{c}, closed := s.closed + multiset{c})
          case SendFailed(c) =>
            s' == s.(master := s'.master, accepted := s.accepted + multiset{c}, closed := s.closed + multiset{c})
          case Passed(c, k) =>
            && k < |s.toWorker|
            && s' == s.(master := s'.master, accepted := s.accepted + multiset{c},
                        toWorker := s.toWorker[k := s.toWorker[k] + [c]]))
    case Receive(k, registered) =>
      && k < |s.master| && s.toWorker[k] != []
      && var fd := s.toWorker[k][0];
         s' == s.(toWorker := s.toWorker[k := s.toWorker[k][1..]],
                  client := s.client[k := ReceivedClient(fd, registered)],
                  stranded := s.stranded[k := s.stranded[k] || !registered],
                  closed := if registered then s.closed else s.closed + multiset{fd})
    case Serve(k, more, notified) =>
      && k < |s.master| && s.client[k].Some?
      && s' == if more then s
               else s.(client := s.client[k := ServedClient(s.client[k], more)],
                       toMaster := s.toMaster[k := s.toMaster[k] + (if notified then 1 else 0)],
                       stranded := s.stranded[k := s.stranded[k] || !notified],
                       closed := s.closed + multiset{s.client[k].value})
    case ReadNotification(k) =>
      && k < |s.master| && s.toMaster[k] > 0
      && s' == s.(master := MarkedFree(s.master, k), toMaster := s.toMaster[k := s.toMaster[k] - 1])
  }

  function Count(b: bool): nat { if b then 1 else 0 }

  /** The ways worker k is accounted for. */
  function Tokens(s: State, k: nat): nat
    requires s.Sound() && k < |s.master|
  {
    Count(s.master[k].free) + |s.toWorker[k]| + Count(s.client[k].Some?) + s.toMaster[k] + Count(s.stranded[k])
  }

  function InTransit(qs: seq<seq<int>>): multiset<int>
  {
    if qs == [] then multiset{} else multiset(qs[0]) + InTransit(qs[1..])
  }

  function Served(cs: seq<Option<int>>): multiset<int>
  {
    if cs == [] then multiset{} else One(cs[0]) + Served(cs[1..])
  }

  /** Every worker is accounted for exactly once, and so is every client. */
  ghost predicate Inv(s: State)
  {
    && s.Sound()
    && (forall k | 0 <= k < |s.master| :: Tokens(s, k) == 1)
    && s.accepted == s.closed + InTransit(s.toWorker) + Served(s.client)
  }

  function One(c: Option<int>): multiset<int> { if c.Some? then multiset{c.value} else multiset{} }

  lemma Exchanged(a: multiset<int>, b: multiset<int>, c: multiset<int>, d: multiset<int>, e: multiset<int>)
    requires b + c == d + e
    ensures (a + b) + c == (a + d) + e
  {
    assert (a + b) + c == a + (b + c);
    assert (a + d) + e == a + (d + e);
  }

  lemma {:induction false} InTransitSet(qs: seq<seq<int>>, k: nat, q: seq<int>)
    requires k < |qs|
    ensures InTransit(qs[k := q]) + multiset(qs[k]) == InTransit(qs) + multiset(q)
  {
    if k == 0 {
      assert qs[k := q][1..] == qs[1..];
    } else {
      assert qs[k := q][1..] == qs[1..][k - 1 := q];
      InTransitSet(qs[1..], k - 1, q);
      assert InTransit(qs[k := q]) == multiset(qs[0]) + InTransit(qs[1..][k - 1 := q]);
      assert InTransit(qs) == multiset(qs[0]) + InTransit(qs[1..]);
      assert qs[1..][k - 1] == qs[k];
      Exchanged(multiset(qs[0]), InTransit(qs[1..][k - 1 := q]), multiset(qs[k]), InTransit(qs[1..]), multiset(q));
    }
  }

  lemma {:induction false} ServedSet(cs: seq<Option<int>>, k: nat, c: Option<int>)
    requires k < |cs|
    ensures Served(cs[k := c]) + One(cs[k]) == Served(cs) + One(c)
  {
    if k == 0 {
      assert cs[k := c][1..] == cs[1..];
    } else {
      assert cs[k := c][1..] == cs[1..][k - 1 := c];
      ServedSet(cs[1..], k - 1, c);
      assert Served(cs[k := c]) == One(cs[0]) + Served(cs[1..][k - 1 := c]);
      assert Served(cs) == One(cs[0]) + Served(cs[1..]);
      assert cs[1..][k - 1] == cs[k];
      Exchanged(One(cs[0]), Served(cs[1..][k - 1 := c]), One(cs[k]), Served(cs[1..]), One(c));
    }
  }

  lemma {:induction false} InitInv(s: State)
    requires Init(s)
    ensures Inv(s)
  {
    NothingInTransit(s.toWorker);
    NothingServed(s.client);
  }

  lemma {:induction false} NothingInTransit(qs: seq<seq<int>>)
    requires forall k | 0 <= k < |qs| :: qs[k] == []
    ensures InTransit(qs) == multiset{}
  {
    if qs != [] {
      NothingInTransit(qs[1..]);
    }
  }

  lemma {:induction false} NothingServed(cs: seq<Option<int>>)
    requires forall k | 0 <= k < |cs| :: cs[k] == None
    ensures Served(cs) == multiset{}
  {
    if cs != [] {
      NothingServed(cs[1..]);
    }
  }

  lemma NextTokens(s: State, a: Action, s': State)
    requires Inv(s) && Next(s, a, s')
    ensures s'.Sound() && forall k | 0 <= k < |s'.master| :: Tokens(s', k) == 1
  {
    hide InTransit, Served;
    forall k | 0 <= k < |s.master|
      ensures s'.Sound() && Tokens(s', k) == 1
    {
      assert Tokens(s, k) == 1;
    }
  }

  lemma ReceiveClients(s: State, k: nat, registered: bool, s': State)
    requires Inv(s) && Next(s, Receive(k, registered), s')
    ensures s'.accepted == s'.closed + InTransit(s'.toWorker) + Served(s'.client)
  {
    hide InTransit, Served;
    var q := s.toWorker[k];
    var fd := q[0];
    assert Tokens(s, k) == 1;
    assert q == [fd] && q[1..] == [] && multiset(q) == multiset{fd};
    InTransitSet(s.toWorker, k, []);
    assert InTransit(s'.toWorker) + multiset{fd} == InTransit(s.toWorker);
    ServedSet(s.client, k, ReceivedClient(fd, registered));
    assert Served(s'.client) == Served(s.client) + One(ReceivedClient(fd, registered));
  }

  lemma ServeClients(s: State, k: nat, more: bool, notified: bool, s': State)
    requires Inv(s) && Next(s, Serve(k, more, notified), s')
    ensures s'.accepted == s'.closed + InTransit(s'.toWorker) + Served(s'.client)
  {
    hide InTransit, Served;
    var fd := s.client[k].value;
    ServedSet(s.client, k, None);
    assert !more ==> Served(s'.client) + multiset{fd} == Served(s.client);
  }

  lemma AcceptClients(s: State, out: Accepted, s': State)
    requires Inv(s) && Next(s, Accept(out), s')
    ensures s'.accepted == s'.closed + InTransit(s'.toWorker) + Served(s'.client)
  {
    hide InTransit, Served;
    if out.Passed? {
      var k, c := out.worker, out.client;
      assert Tokens(s, k) == 1;
      InTransitSet(s.toWorker, k, [c]);
      assert s.toWorker[k] + [c] == [c];
      assert InTransit(s'.toWorker) == InTransit(s.toWorker) + multiset{c};
      hide Next, Inv;
      OneMore(s.accepted, s.closed, InTransit(s.toWorker), Served(s.client), multiset{c});
    } else if out.Refused? || out.SendFailed? {
      AlsoClosed(s.accepted, s.closed, InTransit(s.toWorker), Served(s.client), multiset{out.client});
    }
  }

  lemma OneMore(a: multiset<int>, b: multiset<int>, c: multiset<int>, d: multiset<int>, x: multiset<int>)
    requires a == b + c + d
    ensures a + x == b + (c + x) + d
  {
    assert (c + x) + d == (c + d) + x;
  }

  lemma AlsoClosed(a: multiset<int>, b: multiset<int>, c: multiset<int>, d: multiset<int>, x: multiset<int>)
    requires a == b + c + d
    ensures a + x == b + x + c + d
  {
  }

  lemma NextClients(s: State, a: Action, s': State)
    requires Inv(s) && Next(s, a, s')
    ensures s'.accepted == s'.closed + InTransit(s'.toWorker) + Served(s'.client)
  {
    match a
    case Accept(out) => AcceptClients(s, out, s');
    case Receive(k, registered) => ReceiveClients(s, k, registered, s');
    case Serve(k, more, notified) => ServeClients(s, k, more, notified, s');
    case ReadNotification(k) =>
  }

  /** Every step keeps the accounts. */
  lemma NextInv(s: State, a: Action, s': State)
    requires Inv(s) && Next(s, a, s')
    ensures Inv(s')
  {
    NextTokens(s, a, s');
    NextClients(s, a, s');
  }

  /** Any number of steps: actions[n] leads from ss[n] to ss[n + 1]. */
  ghost predicate Steps(ss: seq<State>, actions: seq<Action>)
  {
    && |ss| == |actions| + 1
    && forall n | 0 <= n < |actions| :: ss[n].Sound() && Next(ss[n], actions[n], ss[n + 1])
  }

  /** A run of the protocol: any number of workers, any interleaving. */
  ghost predicate Run(ss: seq<State>, actions: seq<Action>)
  {
    Steps(ss, actions) && Init(ss[0])
  }

  lemma {:induction false} StepsInv(ss: seq<State>, actions: seq<Action>, n: nat)
    requires Steps(ss, actions) && Inv(ss[0]) && n < |ss|
    ensures Inv(ss[n])
  {
    if n > 0 {
      StepsInv(ss, actions, n - 1);
      assert Next(ss[n - 1], actions[n - 1], ss[n - 1 + 1]);
      NextInv(ss[n - 1], actions[n - 1], ss[n]);
    }
  }

  lemma RunInv(ss: seq<State>, actions: seq<Action>, n: nat)
    requires Run(ss, actions) && n < |ss|
    ensures Inv(ss[n])
  {
    InitInv(ss[0]);
    StepsInv(ss, actions, n);
  }

  /** In every run, each worker is in exactly one of five conditions, and each client
      ever accepted is closed, on its way to a worker, or served. */
  lemma Conservation(ss: seq<State>, actions: seq<Action>, n: nat)
    requires Run(ss, actions) && n < |ss|
    ensures ss[n].Sound() && forall k | 0 <= k < |ss[n].master| :: Tokens(ss[n], k) == 1
    ensures ss[n].accepted == ss[n].closed + InTransit(ss[n].toWorker) + Served(ss[n].client)
  {
    RunInv(ss, actions, n);
  }

  /** No worker is handed a client while it serves one, or while another one is on its
      way to it. */
  lemma NoSecondClient(ss: seq<State>, actions: seq<Action>, n: nat)
    requires Run(ss, actions) && n < |actions|
    ensures actions[n].Accept? && actions[n].out.Passed? ==>
              var k := actions[n].out.worker;
              k < |ss[n].client| == |ss[n].toWorker| && ss[n].client[k] == None && ss[n].toWorker[k] == []
    ensures actions[n].Receive? ==>
              var k := actions[n].worker;
              k < |ss[n].client| == |ss[n].toWorker| && ss[n].client[k] == None && |ss[n].toWorker[k]| == 1
  {
    RunInv(ss, actions, n);
    assert Next(ss[n], actions[n], ss[n + 1]);
    if actions[n].Accept? && actions[n].out.Passed? {
      assert Tokens(ss[n], actions[n].out.worker) == 1;
    } else if actions[n].Receive? {
      assert Tokens(ss[n], actions[n].worker) == 1;
    }
  }

  // ----- serving -----

  /** Some actions lead from s to s'. */
  ghost predicate Leads(s: State, s': State)
  {
    exists ss, actions :: Steps(ss, actions) && ss[0] == s && ss[|actions|] == s'
  }

  /** Any worker marked free can be handed any client, serve it and be marked free
      again, with nothing else changed. */
  lemma FreeWorkerServes(s: State, k: nat, c: int) returns (s': State)
    requires Inv(s) && k < |s.master| && s.master[k].free
    ensures Leads(s, s')
    ensures s' == s.(accepted := s.accepted + multiset{c}, closed := s.closed + multiset{c})
  {
    hide InTransit, Served;
    assert Tokens(s, k) == 1;
    var s1 := s.(master := s.master[k := s.master[k].(free := false)], accepted := s.accepted + multiset{c},
                 toWorker := s.toWorker[k := s.toWorker[k] + [c]]);
    var s2 := s1.(toWorker := s1.toWorker[k := s1.toWorker[k][1..]],
                  client := s1.client[k := ReceivedClient(c, true)],
                  stranded := s1.stranded[k := s1.stranded[k]]);
    var s3 := s2.(client := s2.client[k := ServedClient(Some(c), false)],
                  toMaster := s2.toMaster[k := s2.toMaster[k] + 1],
                  stranded := s2.stranded[k := s2.stranded[k]], closed := s2.closed + multiset{c});
    s' := s3.(master := MarkedFree(s3.master, k), toMaster := s3.toMaster[k := s3.toMaster[k] - 1]);
    assert Next(s, Accept(Passed(c, k)), s1);
    assert Next(s1, Receive(k, true), s2);
    assert Next(s2, Serve(k, false, true), s3);
    assert Next(s3, ReadNotification(k), s');
    assert s.toWorker[k] == [] && s1.toWorker[k] == [c] && s2.toWorker[k] == [];
    assert s'.toWorker == s.toWorker && s'.client == s.client && s'.toMaster == s.toMaster && s'.master == s.master;
    assert s'.stranded == s.stranded;
    hide Next;
    FourSteps(s, Accept(Passed(c, k)), s1, Receive(k, true), s2, Serve(k, false, true), s3, ReadNotification(k), s');
  }

  lemma FourSteps(s: State, a: Action, s1: State, a1: Action, s2: State, a2: Action, s3: State, a3: Action, s4: State)
    requires s.Sound() && s1.Sound() && s2.Sound() && s3.Sound()
    requires Next(s, a, s1) && Next(s1, a1, s2) && Next(s2, a2, s3) && Next(s3, a3, s4)
    ensures Leads(s, s4)
  {
    var ss, actions := [s, s1, s2, s3, s4], [a, a1, a2, a3];
    assert Steps(ss, actions) && ss[|actions|] == s4;
  }

  // ----- stranded workers -----

  /** The action in which worker k fails to register its client, or to notify the master
      after its client has gone. */
  predicate Strands(a: Action, k: nat)
  {
    a == Receive(k, false) || a == Serve(k, false, false)
  }

  lemma StrandedNext(s: State, a: Action, s': State, k: nat)
    requires s.Sound() && k < |s.master| && Next(s, a, s')
    ensures s'.Sound() && |s'.master| == |s.master| && (s'.stranded[k] <==> s.stranded[k] || Strands(a, k))
  {
  }

  /** In every run, the stranded workers are exactly those that have failed so. */
  lemma {:induction false} StrandedExactly(ss: seq<State>, actions: seq<Action>, n: nat, k: nat)
    requires Run(ss, actions) && n < |ss| && k < |ss[0].master|
    ensures ss[n].Sound() && |ss[n].master| == |ss[0].master|
    ensures ss[n].stranded[k] <==> exists j: nat :: j < n && Strands(actions[j], k)
  {
    if n > 0 {
      StrandedExactly(ss, actions, n - 1, k);
      assert Next(ss[n - 1], actions[n - 1], ss[n - 1 + 1]);
      StrandedNext(ss[n - 1], actions[n - 1], ss[n], k);
    }
  }

  /** A stranded worker stays so: the master never marks it free again. */
  lemma {:induction false} StrandedForever(ss: seq<State>, actions: seq<Action>, n: nat, k: nat)
    requires Steps(ss, actions) && Inv(ss[0]) && n < |ss| && k < |ss[0].master| && ss[0].stranded[k]
    ensures ss[n].Sound() && k < |ss[n].master| && ss[n].stranded[k] && !ss[n].master[k].free
  {
    StepsInv(ss, actions, n);
    if n > 0 {
      StrandedForever(ss, actions, n - 1, k);
      assert Next(ss[n - 1], actions[n - 1], ss[n - 1 + 1]);
      StrandedNext(ss[n - 1], actions[n - 1], ss[n], k);
    }
    hide InTransit, Served;
    assert Tokens(ss[n], k) == 1;
  }

  /** The actions lead from s to a state in which worker k is marked free. */
  ghost predicate LeadsToFree(s: State, k: nat, ss: seq<State>, actions: seq<Action>)
  {
    && Steps(ss, actions) && ss[0] == s
    && var last := ss[|actions|]; k < |last.master| && last.master[k].free
  }

  lemma OneStepMore(s: State, k: nat, a: Action, s': State, ss: seq<State>, actions: seq<Action>)
    requires s.Sound() && Next(s, a, s') && LeadsToFree(s', k, ss, actions)
    ensures LeadsToFree(s, k, [s] + ss, [a] + actions)
  {
    var ss', actions' := [s] + ss, [a] + actions;
    forall n | 0 <= n < |actions'|
      ensures ss'[n].Sound() && Next(ss'[n], actions'[n], ss'[n + 1])
    {
      hide Next;
      if n > 0 {
        var m := n - 1;
        assert ss'[n] == ss[m] && actions'[n] == actions[m] && ss'[n + 1] == ss[m + 1];
      }
    }
  }

  /** What worker k does next when nothing fails: it takes the client on its way to it,
      or sends it away, or the master reads its notification. */
  function Onward(s: State, k: nat): Action
    requires s.Sound() && k < |s.master|
  {
    if s.toWorker[k] != [] then Receive(k, true)
    else if s.client[k].Some? then Serve(k, false, true)
    else ReadNotification(k)
  }

  /** How many such actions worker k needs to be marked free. */
  function Distance(s: State, k: nat): nat
    requires s.Sound() && k < |s.master|
  {
    if s.master[k].free then 0 else if s.toMaster[k] > 0 then 1 else if s.client[k].Some? then 2 else 3
  }

  lemma OnwardCloser(s: State, k: nat) returns (s': State)
    requires Inv(s) && k < |s.master| && !s.stranded[k] && !s.master[k].free
    ensures Next(s, Onward(s, k), s') && s'.Sound() && k < |s'.master| && !s'.stranded[k]
    ensures Distance(s', k) < Distance(s, k)
  {
    hide InTransit, Served;
    assert Tokens(s, k) == 1;
    if s.toWorker[k] != [] {
      s' := s.(toWorker := s.toWorker[k := s.toWorker[k][1..]],
               client := s.client[k := ReceivedClient(s.toWorker[k][0], true)],
               stranded := s.stranded[k := s.stranded[k]]);
    } else if s.client[k].Some? {
      s' := s.(client := s.client[k := ServedClient(s.client[k], false)],
               toMaster := s.toMaster[k := s.toMaster[k] + 1],
               stranded := s.stranded[k := s.stranded[k]],
               closed := s.closed + multiset{s.client[k].value});
    } else {
      s' := s.(master := MarkedFree(s.master, k), toMaster := s.toMaster[k := s.toMaster[k] - 1]);
    }
  }

  /** A worker that is not stranded is at most three actions away from being marked
      free. */
  lemma {:induction false} FreeInThree(s: State, k: nat) returns (ss: seq<State>, actions: seq<Action>)
    requires Inv(s) && k < |s.master| && !s.stranded[k]
    ensures LeadsToFree(s, k, ss, actions) && |actions| <= Distance(s, k) <= 3
    decreases Distance(s, k)
  {
    if s.master[k].free {
      ss, actions := [s], [];
    } else {
      var s' := OnwardCloser(s, k);
      NextInv(s, Onward(s, k), s');
      ss, actions := FreeInThree(s', k);
      OneStepMore(s, k, Onward(s, k), s', ss, actions);
      ss, actions := [s] + ss, [Onward(s, k)] + actions;
    }
  }

  /** In every reachable state, a worker can be marked free again if and only if it has
      never failed to register a client or to notify the master. */
  lemma {:induction false} FreeAgainExactly(ss: seq<State>, actions: seq<Action>, n: nat, k: nat)
    requires Run(ss, actions) && n < |ss| && k < |ss[0].master|
    ensures (exists ss', actions' :: LeadsToFree(ss[n], k, ss', actions'))
            <==> forall j: nat | j < n :: !Strands(actions[j], k)
  {
    RunInv(ss, actions, n);
    StrandedExactly(ss, actions, n, k);
    if ss[n].stranded[k] {
      forall ss', actions' | LeadsToFree(ss[n], k, ss', actions')
        ensures false
      {
        StrandedForever(ss', actions', |actions'|, k);
      }
    } else {
      var ss', actions' := FreeInThree(ss[n], k);
      assert LeadsToFree(ss[n], k, ss', actions');
    }
  }

  /** A run that strands a worker: its first client cannot be registered. */
  lemma AWorkerStrands(pid: int, passFd: int, c: int) returns (ss: seq<State>, actions: seq<Action>)
    ensures Run(ss, actions) && |actions| == 2
    ensures ss[2].Sound() && ss[2].stranded == [true] && !ss[2].master[0].free && ss[2].closed == multiset{c}
  {
    var w := WorkerInfo(pid, passFd, true);
    var busy := w.(free := false);
    var s0 := State([w], [[]], [None], [0], [false], multiset{}, multiset{});
    var s1 := State([busy], [[c]], [None], [0], [false], multiset{c}, multiset{});
    var s2 := State([busy], [[]], [None], [0], [true], multiset{c}, multiset{c});
    ss, actions := [s0, s1, s2], [Accept(Passed(c, 0)), Receive(0, false)];
    assert s0.toWorker[0] + [c] == [c] && s1.toWorker[0][1..] == [];
    assert Next(s0, actions[0], s1) && Next(s1, actions[1], s2);
  }
}

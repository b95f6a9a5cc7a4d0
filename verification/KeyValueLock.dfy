/** Many workers and an expiring master on one store, under a semaphore, with their
    steps interleaved in any way. */
module KeyValueLock {
  import opened Basics
  import opened KeyValueSpec
  import opened KeyValueStore

  /** A POSIX semaphore that starts at 1, or a System V semaphore that starts at 0 and
      is taken by waiting for zero and then adding one. */
  datatype Lock = Posix | SystemV {
    function Initial(): int { if this == Posix then 1 else 0 }

    predicate Enabled(value: int) { if this == Posix then value > 0 else value == 0 }

    function Take(value: int): int { if this == Posix then value - 1 else value + 1 }

    function Give(value: int): int { if this == Posix then value + 1 else value - 1 }
  }

  /** A variant of the program. */
  datatype Config<!T> = Config(lock: Lock, carry: (T, T) -> T, expiredAt: int -> T -> bool)

  /** A client's command, or the master's sweep at a time. */
  datatype Job<T> = Run(request: Request<T>) | Clean(now: int)

  datatype Memory<T> = Memory(elements: seq<Record<T>>, count: nat) {
    ghost predicate Sound() { count <= |elements| == STORAGE_ELEMENTS_MAX }

    ghost function Records(): seq<Record<T>>
      requires Sound()
    {
      elements[..count]
    }
  }

  /** Where a process is. */
  datatype Pc<T> =
    | Idle
    | Waiting(job: Job<T>)
    | Scanning(job: Job<T>, i: nat)
    | Found(job: Job<T>, i: nat)
    | Missing(job: Job<T>)
    | Shifting(job: Job<T>, i: nat, j: nat)
    | Sweeping(job: Job<T>, current: nat)
    | SweepShifting(job: Job<T>, current: nat, j: nat)
    | Leaving(job: Job<T>, reply: Reply<T>)

  predicate InCritical<T>(pc: Pc<T>)
  {
    !pc.Idle? && !pc.Waiting?
  }

  // ----- one process in the critical section -----

  function Begin<T>(mem: Memory<T>, job: Job<T>): Pc<T>
  {
    match job
    case Run(_) => Scanning(job, 0)
    case Clean(_) => if mem.count > 0 then Sweeping(job, mem.count - 1) else Leaving(job, Reply(true, None))
  }

  function NextSwept<T>(job: Job<T>, current: nat): Pc<T>
  {
    if current == 0 then Leaving(job, Reply(true, None)) else Sweeping(job, current - 1)
  }

  /** One iteration of a loop, or one of the blocks between the loops. */
  ghost predicate Works<T(!new)>(cfg: Config<T>, mem: Memory<T>, pc: Pc<T>, mem': Memory<T>, pc': Pc<T>)
    requires mem.Sound()
  {
    match pc
    case Idle => false
    case Waiting(_) => false
    case Leaving(_, _) => false
    case Scanning(job, i) =>
      && job.Run? && mem' == mem
      && pc' == if i >= mem.count then Missing(job)
                else if mem.elements[i].key == job.request.key then Found(job, i)
                else Scanning(job, i + 1)
    case Found(job, i) =>
      && job.Run? && i < mem.count
      && (match job.request
          case Set(key, data) =>
            mem' == mem.(elements := mem.elements[i := Record(key, data)]) && pc' == Leaving(job, Reply(true, None))
          case Get(_) => mem' == mem && pc' == Leaving(job, Reply(true, Some(mem.elements[i].data)))
          case Delete(_) => mem' == mem && pc' == Shifting(job, i, i))
    case Missing(job) =>
      && job.Run?
      && (match job.request
          case Set(key, data) =>
            if mem.count < STORAGE_ELEMENTS_MAX then
              && mem' == Memory(mem.elements[mem.count := Record(key, data)], mem.count + 1)
              && pc' == Leaving(job, Reply(true, None))
            else mem' == mem && pc' == Leaving(job, Reply(false, None))
          case _ => mem' == mem && pc' == Leaving(job, Reply(false, None)))
    case Shifting(job, i, j) =>
      if j + 1 < mem.count then mem' == ShiftOne(cfg.carry, mem, j) && pc' == Shifting(job, i, j + 1)
      else j + 1 == mem.count && mem' == mem.(count := mem.count - 1) && pc' == Leaving(job, Reply(true, None))
    case Sweeping(job, current) =>
      && job.Clean? && current < mem.count && mem' == mem
      && pc' == if cfg.expiredAt(job.now)(mem.elements[current].data) then SweepShifting(job, current, current)
                else NextSwept(job, current)
    case SweepShifting(job, current, j) =>
      if j + 1 < mem.count then mem' == ShiftOne(CarryWhole<T>, mem, j) && pc' == SweepShifting(job, current, j + 1)
      else j + 1 == mem.count && mem' == mem.(count := mem.count - 1) && pc' == NextSwept(job, current)
  }

  function ShiftOne<T>(carry: (T, T) -> T, mem: Memory<T>, j: nat): Memory<T>
    requires j + 1 < |mem.elements|
  {
    var old_, new_ := mem.elements[j], mem.elements[j + 1];
    mem.(elements := mem.elements[j := Record(new_.key, carry(old_.data, new_.data))])
  }

  /** What a job does to the records when nobody interferes. */
  ghost function ExecJob<T>(cfg: Config<T>, rs: seq<Record<T>>, job: Job<T>): (seq<Record<T>>, Reply<T>)
  {
    match job
    case Run(c) => Exec(cfg.carry, rs, c)
    case Clean(now) => (Kept(cfg.expiredAt(now), rs), Reply(true, None))
  }

  /** Shifting before over place i has got as far as j. */
  ghost predicate ShiftedUpTo<T>(carry: (T, T) -> T, before: seq<Record<T>>, mem: Memory<T>, i: nat, j: nat)
    requires mem.Sound()
  {
    && i <= j < |before| == mem.count
    && (forall q {:trigger mem.elements[q]} | 0 <= q < j ::
          mem.elements[q] == if q < i then before[q]
                             else Record(before[q + 1].key, carry(before[q].data, before[q + 1].data)))
    && (forall q | j <= q < mem.count :: mem.elements[q] == before[q])
  }

  /** The sweep of base has still to look at the places up to current. */
  ghost function SweptTo<T>(expired: T -> bool, base: seq<Record<T>>, current: nat): seq<Record<T>>
    requires current < |base|
  {
    base[..current + 1] + Kept(expired, base[current + 1..])
  }

  /** What holds of the process in the critical section, which found the records base. */
  ghost predicate Local<T(!new)>(cfg: Config<T>, base: seq<Record<T>>, mem: Memory<T>, pc: Pc<T>)
  {
    && mem.Sound()
    && match pc
       case Idle => false
       case Waiting(_) => false
       case Scanning(job, i) =>
         job.Run? && mem.Records() == base && i <= |base| && forall j | 0 <= j < i :: base[j].key != job.request.key
       case Found(job, i) => job.Run? && mem.Records() == base && i == Find(base, job.request.key) < |base|
       case Missing(job) => job.Run? && mem.Records() == base && Find(base, job.request.key) == |base|
       case Shifting(job, i, j) =>
         job.Run? && job.request.Delete? && i == Find(base, job.request.key) && ShiftedUpTo(cfg.carry, base, mem, i, j)
       case Sweeping(job, current) =>
         job.Clean? && current < |base| && mem.Records() == SweptTo(cfg.expiredAt(job.now), base, current)
       case SweepShifting(job, current, j) =>
         && job.Clean? && current < |base| && cfg.expiredAt(job.now)(base[current].data)
         && ShiftedUpTo(CarryWhole<T>, SweptTo(cfg.expiredAt(job.now), base, current), mem, current, j)
       case Leaving(job, reply) => (mem.Records(), reply) == ExecJob(cfg, base, job)
  }

  lemma BeginLocal<T(!new)>(cfg: Config<T>, mem: Memory<T>, job: Job<T>)
    requires mem.Sound()
    ensures Local(cfg, mem.Records(), mem, Begin(mem, job))
  {
    var base := mem.Records();
    if job.Clean? && mem.count > 0 {
      assert base[mem.count..] == [] && base[..mem.count] == base;
    }
  }

  lemma {:induction false} FindStops<T>(rs: seq<Record<T>>, key: int, i: nat)
    requires i <= |rs| && forall j | 0 <= j < i :: rs[j].key != key
    ensures i == |rs| || rs[i].key == key ==> Find(rs, key) == i
  {
  }

  lemma ShiftOneMore<T>(carry: (T, T) -> T, before: seq<Record<T>>, mem: Memory<T>, i: nat, j: nat)
    requires mem.Sound() && ShiftedUpTo(carry, before, mem, i, j) && j + 1 < mem.count
    ensures ShiftOne(carry, mem, j).Sound() && ShiftedUpTo(carry, before, ShiftOne(carry, mem, j), i, j + 1)
  {
    var mem' := ShiftOne(carry, mem, j);
    forall q | 0 <= q < mem.count
      ensures mem'.elements[q] == if q >= j + 1 || q < i then before[q]
                                  else Record(before[q + 1].key, carry(before[q].data, before[q + 1].data))
    {
      assert mem.elements[j] == before[j] && mem.elements[j + 1] == before[j + 1];
      assert q != j ==> mem'.elements[q] == mem.elements[q];
    }
  }

  lemma ShiftedAll<T>(carry: (T, T) -> T, before: seq<Record<T>>, mem: Memory<T>, i: nat, j: nat)
    requires mem.Sound() && ShiftedUpTo(carry, before, mem, i, j) && j + 1 == mem.count
    ensures mem.elements[..mem.count - 1] == Shifted(carry, before, i)
  {
    var rs, rs' := mem.elements[..mem.count - 1], Shifted(carry, before, i);
    forall q | 0 <= q < |rs'|
      ensures rs[q] == rs'[q]
    {
      assert mem.elements[q] == rs'[q];
    }
  }

  lemma SweptNext<T(!new)>(cfg: Config<T>, base: seq<Record<T>>, mem: Memory<T>, job: Job<T>, current: nat)
    requires mem.Sound() && job.Clean? && current < |base|
    requires mem.Records() == base[..current] + Kept(cfg.expiredAt(job.now), base[current..])
    ensures Local(cfg, base, mem, NextSwept(job, current))
  {
    var expired := cfg.expiredAt(job.now);
    if current == 0 {
      assert base[0..] == base && base[..0] + Kept(expired, base) == Kept(expired, base);
    }
  }

  // The steps of the process in the critical section keep what holds of it.

  lemma ScanningLocal<T(!new)>(cfg: Config<T>, base: seq<Record<T>>, mem: Memory<T>, pc: Pc<T>, mem': Memory<T>,
                               pc': Pc<T>)
    requires pc.Scanning? && Local(cfg, base, mem, pc) && Works(cfg, mem, pc, mem', pc')
    ensures Local(cfg, base, mem', pc')
  {
    FindStops(base, pc.job.request.key, pc.i);
    assert pc.i < mem.count ==> base[pc.i] == mem.elements[pc.i];
  }

  lemma FoundLocal<T(!new)>(cfg: Config<T>, base: seq<Record<T>>, mem: Memory<T>, pc: Pc<T>, mem': Memory<T>,
                            pc': Pc<T>)
    requires pc.Found? && Local(cfg, base, mem, pc) && Works(cfg, mem, pc, mem', pc')
    ensures Local(cfg, base, mem', pc')
  {
    hide Find, Shifted;
    var c := pc.job.request;
    assert base[pc.i] == mem.elements[pc.i];
    if c.Set? {
      assert mem'.Records() == base[pc.i := Record(c.key, c.data)];
    } else if c.Delete? {
      assert forall q | 0 <= q < mem.count :: mem.elements[q] == base[q];
    }
  }

  lemma MissingLocal<T(!new)>(cfg: Config<T>, base: seq<Record<T>>, mem: Memory<T>, pc: Pc<T>, mem': Memory<T>,
                              pc': Pc<T>)
    requires pc.Missing? && Local(cfg, base, mem, pc) && Works(cfg, mem, pc, mem', pc')
    ensures Local(cfg, base, mem', pc')
  {
    hide Find, Shifted;
    var c := pc.job.request;
    if c.Set? && mem.count < STORAGE_ELEMENTS_MAX {
      assert mem'.Records() == base + [Record(c.key, c.data)];
    }
  }

  lemma ShiftingLocal<T(!new)>(cfg: Config<T>, base: seq<Record<T>>, mem: Memory<T>, pc: Pc<T>, mem': Memory<T>,
                               pc': Pc<T>)
    requires pc.Shifting? && Local(cfg, base, mem, pc) && Works(cfg, mem, pc, mem', pc')
    ensures Local(cfg, base, mem', pc')
  {
    hide Find, Shifted;
    if pc.j + 1 < mem.count {
      ShiftOneMore(cfg.carry, base, mem, pc.i, pc.j);
    } else {
      ShiftedAll(cfg.carry, base, mem, pc.i, pc.j);
    }
  }

  lemma SweepingLocal<T(!new)>(cfg: Config<T>, base: seq<Record<T>>, mem: Memory<T>, pc: Pc<T>, mem': Memory<T>,
                               pc': Pc<T>)
    requires pc.Sweeping? && Local(cfg, base, mem, pc) && Works(cfg, mem, pc, mem', pc')
    ensures Local(cfg, base, mem', pc')
  {
    hide Find, Shifted, Kept;
    var expired := cfg.expiredAt(pc.job.now);
    var all := SweptTo(expired, base, pc.current);
    SweepStep(expired, base, pc.current);
    assert forall q | 0 <= q < mem.count :: mem.elements[q] == all[q];
    if !expired(base[pc.current].data) {
      SweptNext(cfg, base, mem, pc.job, pc.current);
    }
  }

  lemma SweepShiftingLocal<T(!new)>(cfg: Config<T>, base: seq<Record<T>>, mem: Memory<T>, pc: Pc<T>, mem': Memory<T>,
                                    pc': Pc<T>)
    requires pc.SweepShifting? && Local(cfg, base, mem, pc) && Works(cfg, mem, pc, mem', pc')
    ensures Local(cfg, base, mem', pc')
  {
    hide Find, Shifted, Kept;
    var all := SweptTo(cfg.expiredAt(pc.job.now), base, pc.current);
    if pc.j + 1 < mem.count {
      ShiftOneMore(CarryWhole<T>, all, mem, pc.current, pc.j);
    } else {
      ShiftedAll(CarryWhole<T>, all, mem, pc.current, pc.j);
      SweepStep(cfg.expiredAt(pc.job.now), base, pc.current);
      SweptNext(cfg, base, mem', pc.job, pc.current);
    }
  }

  /** Each step of the process in the critical section keeps what holds of it. */
  lemma WorksLocal<T(!new)>(cfg: Config<T>, base: seq<Record<T>>, mem: Memory<T>, pc: Pc<T>, mem': Memory<T>,
                            pc': Pc<T>)
    requires Local(cfg, base, mem, pc) && Works(cfg, mem, pc, mem', pc')
    ensures Local(cfg, base, mem', pc') && InCritical(pc')
  {
    match pc
    case Scanning(_, _) => ScanningLocal(cfg, base, mem, pc, mem', pc');
    case Found(_, _) => FoundLocal(cfg, base, mem, pc, mem', pc');
    case Missing(_) => MissingLocal(cfg, base, mem, pc, mem', pc');
    case Shifting(_, _, _) => ShiftingLocal(cfg, base, mem, pc, mem', pc');
    case Sweeping(_, _) => SweepingLocal(cfg, base, mem, pc, mem', pc');
    case SweepShifting(_, _, _) => SweepShiftingLocal(cfg, base, mem, pc, mem', pc');
  }

  /** The process in the critical section is never stuck before it leaves. */
  lemma CanWork<T(!new)>(cfg: Config<T>, base: seq<Record<T>>, mem: Memory<T>, pc: Pc<T>)
    returns (mem': Memory<T>, pc': Pc<T>)
    requires Local(cfg, base, mem, pc) && !pc.Leaving?
    ensures Works(cfg, mem, pc, mem', pc')
  {
    mem', pc' := mem, pc;
    match pc
    case Scanning(job, i) =>
      pc' := if i >= mem.count then Missing(job)
             else if mem.elements[i].key == job.request.key then Found(job, i)
             else Scanning(job, i + 1);
    case Found(job, i) =>
      match job.request {
        case Set(key, data) =>
          mem', pc' := mem.(elements := mem.elements[i := Record(key, data)]), Leaving(job, Reply(true, None));
        case Get(_) => pc' := Leaving(job, Reply(true, Some(mem.elements[i].data)));
        case Delete(_) => pc' := Shifting(job, i, i);
      }
    case Missing(job) =>
      if job.request.Set? && mem.count < STORAGE_ELEMENTS_MAX {
        mem' := Memory(mem.elements[mem.count := Record(job.request.key, job.request.data)], mem.count + 1);
        pc' := Leaving(job, Reply(true, None));
      } else {
        pc' := Leaving(job, Reply(false, None));
      }
    case Shifting(job, i, j) =>
      if j + 1 < mem.count {
        mem', pc' := ShiftOne(cfg.carry, mem, j), Shifting(job, i, j + 1);
      } else {
        mem', pc' := mem.(count := mem.count - 1), Leaving(job, Reply(true, None));
      }
    case Sweeping(job, current) =>
      pc' := if cfg.expiredAt(job.now)(mem.elements[current].data) then SweepShifting(job, current, current)
             else NextSwept(job, current);
    case SweepShifting(job, current, j) =>
      if j + 1 < mem.count {
        mem', pc' := ShiftOne(CarryWhole<T>, mem, j), SweepShifting(job, current, j + 1);
      } else {
        mem', pc' := mem.(count := mem.count - 1), NextSwept(job, current);
      }
  }

  /** A bound on the steps left in the critical section. */
  function StepsLeft<T>(mem: Memory<T>, pc: Pc<T>): int
  {
    match pc
    case Scanning(_, i) => 2 * mem.count - i + 3
    case Found(_, i) => mem.count - i + 2
    case Missing(_) => 1
    case Shifting(_, _, j) => mem.count - j + 1
    case Sweeping(_, current) => (current + 1) * (STORAGE_ELEMENTS_MAX + 2)
    case SweepShifting(_, current, j) => current * (STORAGE_ELEMENTS_MAX + 2) + mem.count - j + 1
    case _ => 0
  }

  /** Every step in the critical section leaves fewer of them, so each process leaves it
      after at most StepsLeft steps: none is stuck before (CanWork), and with none left
      it is leaving. */
  lemma WorksEnd<T(!new)>(cfg: Config<T>, base: seq<Record<T>>, mem: Memory<T>, pc: Pc<T>)
    requires Local(cfg, base, mem, pc)
    ensures StepsLeft(mem, pc) >= 0 && (StepsLeft(mem, pc) == 0 <==> pc.Leaving?)
    ensures forall mem', pc' | Works(cfg, mem, pc, mem', pc') :: StepsLeft(mem', pc') < StepsLeft(mem, pc)
  {
    hide Find, Kept, Shifted, ExecJob;
  }

  // ----- all processes -----

  /** A job done, in the order in which the lock was given back. */
  datatype Event<T> = Event(process: nat, job: Job<T>, reply: Reply<T>)

  /** The shared memory and the processes; holder and base record who took the lock last
      and what it found, and no step depends on them. */
  datatype State<T> = State(semaphore: int, memory: Memory<T>, pcs: seq<Pc<T>>, log: seq<Event<T>>,
                            holder: Option<nat>, base: seq<Record<T>>)

  ghost predicate Init<T(!new)>(cfg: Config<T>, s: State<T>)
  {
    && s.semaphore == cfg.lock.Initial()
    && s.memory.Sound() && s.memory.count == 0
    && (forall p | 0 <= p < |s.pcs| :: s.pcs[p].Idle?)
    && s.log == [] && s.holder == None
  }

  /** One step of process p. */
  ghost predicate Next<T(!new)>(cfg: Config<T>, s: State<T>, p: nat, s': State<T>)
  {
    && p < |s.pcs| == |s'.pcs| && s.memory.Sound()
    && match s.pcs[p]
       case Idle => s'.pcs[p].Waiting? && s' == s.(pcs := s.pcs[p := s'.pcs[p]])
       case Waiting(job) =>
         && cfg.lock.Enabled(s.semaphore)
         && s' == s.(semaphore := cfg.lock.Take(s.semaphore), pcs := s.pcs[p := Begin(s.memory, job)],
                     holder := Some(p), base := s.memory.Records())
       case Leaving(job, reply) =>
         s' == s.(semaphore := cfg.lock.Give(s.semaphore), pcs := s.pcs[p := Idle],
                  log := s.log + [Event(p, job, reply)], holder := None)
       case _ =>
         && Works(cfg, s.memory, s.pcs[p], s'.memory, s'.pcs[p])
         && s' == s.(memory := s'.memory, pcs := s.pcs[p := s'.pcs[p]])
  }

  /** The records after the jobs of a log, one after the other. */
  ghost function Replay<T(!new)>(cfg: Config<T>, log: seq<Event<T>>): seq<Record<T>>
  {
    if log == [] then [] else ExecJob(cfg, Replay(cfg, log[..|log| - 1]), log[|log| - 1].job).0
  }

  /** Every reply in the log is that of the sequential store. */
  ghost predicate Sequential<T(!new)>(cfg: Config<T>, log: seq<Event<T>>)
  {
    forall n | 0 <= n < |log| :: log[n].reply == ExecJob(cfg, Replay(cfg, log[..n]), log[n].job).1
  }

  ghost predicate Inv<T(!new)>(cfg: Config<T>, s: State<T>)
  {
    && s.memory.Sound()
    && Sequential(cfg, s.log)
    && match s.holder
       case None =>
         && s.semaphore == cfg.lock.Initial()
         && (forall p | 0 <= p < |s.pcs| :: !InCritical(s.pcs[p]))
         && s.memory.Records() == Replay(cfg, s.log)
       case Some(h) =>
         && s.semaphore == cfg.lock.Take(cfg.lock.Initial())
         && h < |s.pcs|
         && (forall p | 0 <= p < |s.pcs| :: InCritical(s.pcs[p]) <==> p == h)
         && s.base == Replay(cfg, s.log)
         && Local(cfg, s.base, s.memory, s.pcs[h])
  }

  lemma {:induction false} SequentialAppend<T(!new)>(cfg: Config<T>, log: seq<Event<T>>, e: Event<T>)
    requires Sequential(cfg, log) && e.reply == ExecJob(cfg, Replay(cfg, log), e.job).1
    ensures Sequential(cfg, log + [e])
    ensures Replay(cfg, log + [e]) == ExecJob(cfg, Replay(cfg, log), e.job).0
  {
    hide ExecJob;
    var log' := log + [e];
    assert log'[..|log|] == log;
    forall n | 0 <= n < |log'|
      ensures log'[n].reply == ExecJob(cfg, Replay(cfg, log'[..n]), log'[n].job).1
    {
      if n < |log| {
        assert log'[..n] == log[..n];
      }
    }
  }

  /** Every step of every process keeps the invariant. */
  lemma NextInv<T(!new)>(cfg: Config<T>, s: State<T>, p: nat, s': State<T>)
    requires Inv(cfg, s) && Next(cfg, s, p, s')
    ensures Inv(cfg, s')
  {
    hide Local, Works, ExecJob, Replay, Sequential;
    match s.pcs[p]
    case Idle =>
    case Waiting(job) => BeginLocal(cfg, s.memory, job);
    case Leaving(job, reply) =>
      LeavingDone(cfg, s.base, s.memory, s.pcs[p]);
      SequentialAppend(cfg, s.log, Event(p, job, reply));
    case _ =>
      LocalSound(cfg, s.base, s.memory, s.pcs[p], s'.memory, s'.pcs[p]);
  }

  lemma LeavingDone<T(!new)>(cfg: Config<T>, base: seq<Record<T>>, mem: Memory<T>, pc: Pc<T>)
    requires pc.Leaving? && Local(cfg, base, mem, pc)
    ensures mem.Sound() && (mem.Records(), pc.reply) == ExecJob(cfg, base, pc.job)
  {
  }

  lemma LocalSound<T(!new)>(cfg: Config<T>, base: seq<Record<T>>, mem: Memory<T>, pc: Pc<T>, mem': Memory<T>,
                            pc': Pc<T>)
    requires Local(cfg, base, mem, pc) && Works(cfg, mem, pc, mem', pc')
    ensures Local(cfg, base, mem', pc') && InCritical(pc') && mem'.Sound()
  {
    WorksLocal(cfg, base, mem, pc, mem', pc');
  }

  /** A run: any number of processes, any interleaving. */
  ghost predicate Run<T(!new)>(cfg: Config<T>, ss: seq<State<T>>, schedule: seq<nat>)
  {
    && |ss| == |schedule| + 1
    && Init(cfg, ss[0])
    && forall n | 0 <= n < |schedule| :: Next(cfg, ss[n], schedule[n], ss[n + 1])
  }

  lemma InitInv<T(!new)>(cfg: Config<T>, s: State<T>)
    requires Init(cfg, s)
    ensures Inv(cfg, s)
  {
    assert s.memory.Records() == [];
  }

  lemma {:induction false} RunInv<T(!new)>(cfg: Config<T>, ss: seq<State<T>>, schedule: seq<nat>, n: nat)
    requires Run(cfg, ss, schedule) && n < |ss|
    ensures Inv(cfg, ss[n])
  {
    hide Inv, Next, Init;
    if n == 0 {
      InitInv(cfg, ss[0]);
    } else {
      RunInv(cfg, ss, schedule, n - 1);
      assert Next(cfg, ss[n - 1], schedule[n - 1], ss[n - 1 + 1]);
      NextInv(cfg, ss[n - 1], schedule[n - 1], ss[n]);
    }
  }

  /** At most one process is ever in the critical section, and all completed jobs have
      replied what a sequential store replies in the order of the log. */
  lemma MutualExclusion<T(!new)>(cfg: Config<T>, ss: seq<State<T>>, schedule: seq<nat>, n: nat)
    requires Run(cfg, ss, schedule) && n < |ss|
    ensures forall p, q | && 0 <= p < |ss[n].pcs| && 0 <= q < |ss[n].pcs|
                          && InCritical(ss[n].pcs[p]) && InCritical(ss[n].pcs[q]) :: p == q
    ensures Sequential(cfg, ss[n].log)
  {
    RunInv(cfg, ss, schedule, n);
  }

  // ----- progress -----

  /** Any number of steps: schedule[n] leads from ss[n] to ss[n + 1]. */
  ghost predicate Steps<T(!new)>(cfg: Config<T>, ss: seq<State<T>>, schedule: seq<nat>)
  {
    && |ss| == |schedule| + 1
    && forall n | 0 <= n < |schedule| :: Next(cfg, ss[n], schedule[n], ss[n + 1])
  }

  /** Some steps lead from s to s'. */
  ghost predicate Leads<T(!new)>(cfg: Config<T>, s: State<T>, s': State<T>)
  {
    exists ss, schedule :: Steps(cfg, ss, schedule) && ss[0] == s && ss[|schedule|] == s'
  }

  lemma LeadsNowhere<T(!new)>(cfg: Config<T>, s: State<T>)
    ensures Leads(cfg, s, s)
  {
    var ss, schedule: seq<nat> := [s], [];
    assert Steps(cfg, ss, schedule);
  }

  lemma LeadsFirst<T(!new)>(cfg: Config<T>, s: State<T>, p: nat, s1: State<T>, s': State<T>)
    requires Next(cfg, s, p, s1) && Leads(cfg, s1, s')
    ensures Leads(cfg, s, s')
  {
    hide Next;
    var ss, schedule :| Steps(cfg, ss, schedule) && ss[0] == s1 && ss[|schedule|] == s';
    var ss', schedule' := [s] + ss, [p] + schedule;
    forall n | 0 <= n < |schedule'|
      ensures Next(cfg, ss'[n], schedule'[n], ss'[n + 1])
    {
      if n > 0 {
        var m := n - 1;
        assert ss'[n] == ss[m] && schedule'[n] == schedule[m] && ss'[n + 1] == ss[m + 1];
      }
    }
    assert Steps(cfg, ss', schedule') && ss'[|schedule'|] == s';
  }

  lemma {:induction false} StepsLead<T(!new)>(cfg: Config<T>, ss: seq<State<T>>, schedule: seq<nat>, n: nat,
                                             s': State<T>)
    requires Steps(cfg, ss, schedule) && n < |ss| && Leads(cfg, ss[n], s')
    ensures Leads(cfg, ss[0], s')
  {
    hide Leads, Next;
    if n > 0 {
      assert Next(cfg, ss[n - 1], schedule[n - 1], ss[n - 1 + 1]);
      LeadsFirst(cfg, ss[n - 1], schedule[n - 1], ss[n], s');
      StepsLead(cfg, ss, schedule, n - 1, s');
    }
  }

  lemma LeadsOn<T(!new)>(cfg: Config<T>, s: State<T>, s1: State<T>, s': State<T>)
    requires Leads(cfg, s, s1) && Leads(cfg, s1, s')
    ensures Leads(cfg, s, s')
  {
    var ss, schedule :| Steps(cfg, ss, schedule) && ss[0] == s && ss[|schedule|] == s1;
    hide Leads, Next, Steps;
    StepsLead(cfg, ss, schedule, |schedule|, s');
  }

  lemma WorksKeepsJob<T(!new)>(cfg: Config<T>, mem: Memory<T>, pc: Pc<T>, mem': Memory<T>, pc': Pc<T>)
    requires mem.Sound() && Works(cfg, mem, pc, mem', pc')
    ensures !pc.Idle? && !pc'.Idle? && pc'.job == pc.job
  {
  }

  /** The process in the critical section works on: one step closer to leaving it, with
      the same job. */
  lemma HolderWorks<T(!new)>(cfg: Config<T>, s: State<T>, h: nat) returns (s': State<T>)
    requires Inv(cfg, s) && s.holder == Some(h) && !s.pcs[h].Leaving?
    ensures Next(cfg, s, h, s') && Inv(cfg, s') && s'.holder == s.holder && s'.log == s.log
    ensures !s.pcs[h].Idle? && s'.pcs == s.pcs[h := s'.pcs[h]] && !s'.pcs[h].Idle? && s'.pcs[h].job == s.pcs[h].job
    ensures 0 <= StepsLeft(s'.memory, s'.pcs[h]) < StepsLeft(s.memory, s.pcs[h])
  {
    hide Local, Works, Replay, Sequential, StepsLeft;
    LocalInside(cfg, s.base, s.memory, s.pcs[h]);
    var mem', pc' := CanWork(cfg, s.base, s.memory, s.pcs[h]);
    s' := s.(memory := mem', pcs := s.pcs[h := pc']);
    WorksEnd(cfg, s.base, s.memory, s.pcs[h]);
    WorksKeepsJob(cfg, s.memory, s.pcs[h], mem', pc');
    NextInv(cfg, s, h, s');
    WorksEnd(cfg, s.base, s'.memory, s'.pcs[h]);
  }

  lemma LocalInside<T(!new)>(cfg: Config<T>, base: seq<Record<T>>, mem: Memory<T>, pc: Pc<T>)
    requires Local(cfg, base, mem, pc)
    ensures mem.Sound() && InCritical(pc)
  {
  }

  /** The process in the critical section can go on to complete its job. */
  lemma {:induction false} HolderCompletes<T(!new)>(cfg: Config<T>, s: State<T>, h: nat)
    returns (s': State<T>, reply: Reply<T>)
    requires Inv(cfg, s) && s.holder == Some(h)
    ensures Leads(cfg, s, s') && Inv(cfg, s') && s'.holder == None
    ensures h < |s.pcs| && !s.pcs[h].Idle? && s'.pcs == s.pcs[h := Idle]
    ensures s'.log == s.log + [Event(h, s.pcs[h].job, reply)]
    decreases StepsLeft(s.memory, s.pcs[h])
  {
    hide Local, Works, Replay, Sequential, Leads, StepsLeft;
    if s.pcs[h].Leaving? {
      var job := s.pcs[h].job;
      reply := s.pcs[h].reply;
      s' := s.(semaphore := cfg.lock.Give(s.semaphore), pcs := s.pcs[h := Idle],
               log := s.log + [Event(h, job, reply)], holder := None);
      NextInv(cfg, s, h, s');
      LeadsNowhere(cfg, s');
      LeadsFirst(cfg, s, h, s', s');
    } else {
      var s1 := HolderWorks(cfg, s, h);
      s', reply := HolderCompletes(cfg, s1, h);
      LeadsFirst(cfg, s, h, s1, s');
    }
  }

  /** When nobody is in the critical section, each waiting process can take the lock. */
  lemma Admits<T(!new)>(cfg: Config<T>, s: State<T>, p: nat) returns (s': State<T>)
    requires Inv(cfg, s) && p < |s.pcs| && s.pcs[p].Waiting?
    requires forall q | 0 <= q < |s.pcs| :: !InCritical(s.pcs[q])
    ensures Next(cfg, s, p, s') && Inv(cfg, s') && s'.holder == Some(p) && s'.log == s.log
    ensures s'.pcs == s.pcs[p := s'.pcs[p]] && InCritical(s'.pcs[p]) && s'.pcs[p].job == s.pcs[p].job
  {
    hide Local, Works, Replay, Sequential;
    s' := s.(semaphore := cfg.lock.Take(s.semaphore), pcs := s.pcs[p := Begin(s.memory, s.pcs[p].job)],
             holder := Some(p), base := s.memory.Records());
    NextInv(cfg, s, p, s');
  }

  /** Whoever waits with a job can complete it, after whoever is in the critical section
      has completed his. */
  lemma {:induction false} WaitingCompletes<T(!new)>(cfg: Config<T>, s: State<T>, p: nat)
    returns (s': State<T>, before: seq<Event<T>>, reply: Reply<T>)
    requires Inv(cfg, s) && p < |s.pcs| && s.pcs[p].Waiting?
    ensures Leads(cfg, s, s') && Inv(cfg, s') && |s'.pcs| == |s.pcs| && s'.pcs[p].Idle?
    ensures |before| <= 1 && s'.log == s.log + before + [Event(p, s.pcs[p].job, reply)]
  {
    hide Local, Works, Replay, Sequential, Leads;
    var s1 := s;
    before := [];
    if s.holder.Some? {
      var h := s.holder.value;
      var r;
      s1, r := HolderCompletes(cfg, s, h);
      before := [Event(h, s.pcs[h].job, r)];
    } else {
      LeadsNowhere(cfg, s);
    }
    var s2 := Admits(cfg, s1, p);
    s', reply := HolderCompletes(cfg, s2, p);
    LeadsFirst(cfg, s1, p, s2, s');
    LeadsOn(cfg, s, s1, s');
    assert s.log + before == s1.log;
  }

  /** An idle process can come with any job. */
  lemma Comes<T(!new)>(cfg: Config<T>, s: State<T>, p: nat, job: Job<T>) returns (s': State<T>)
    requires Inv(cfg, s) && p < |s.pcs| && s.pcs[p].Idle?
    ensures Next(cfg, s, p, s') && Inv(cfg, s') && s'.pcs == s.pcs[p := Waiting(job)] && s'.log == s.log
  {
    hide Local, Works, Replay, Sequential;
    s' := s.(pcs := s.pcs[p := Waiting(job)]);
    NextInv(cfg, s, p, s');
  }

  /** From every state of every run, each idle process can come with any job, and each
      waiting process can complete the job it waits with. */
  lemma {:induction false} EveryJobCompletes<T(!new)>(cfg: Config<T>, ss: seq<State<T>>, schedule: seq<nat>, n: nat,
                                                     p: nat, job: Job<T>)
    requires Run(cfg, ss, schedule) && n < |ss| && p < |ss[n].pcs|
    requires ss[n].pcs[p].Idle? || ss[n].pcs[p] == Waiting(job)
    ensures exists s', before, reply ::
              Leads(cfg, ss[n], s') && |before| <= 1 && s'.log == ss[n].log + before + [Event(p, job, reply)]
              && Sequential(cfg, s'.log)
  {
    RunInv(cfg, ss, schedule, n);
    hide Local, Works, Replay, Sequential, Leads, Next;
    var s := ss[n];
    if s.pcs[p].Idle? {
      var s1 := Comes(cfg, s, p, job);
      var s', before, reply := WaitingCompletes(cfg, s1, p);
      LeadsFirst(cfg, s, p, s1, s');
    } else {
      var s', before, reply := WaitingCompletes(cfg, s, p);
    }
  }

  /** Runs begin with any number of processes. */
  lemma RunsBegin<T(!new)>(cfg: Config<T>, processes: nat, elements: seq<Record<T>>)
    requires |elements| == STORAGE_ELEMENTS_MAX
    ensures exists s: State<T> :: |s.pcs| == processes && Run(cfg, [s], [])
  {
    var s := State(cfg.lock.Initial(), Memory(elements, 0), seq(processes, _ => Idle), [], None, []);
    assert Run(cfg, [s], []);
  }

  // ----- the sequential map -----

  /** What a job does to a map that view shows of the store: commands are those of a
      map of bounded size, and a sweep removes exactly the entries that have expired by
      what is stored with them. */
  ghost predicate MapJob<T(!new), V>(cfg: Config<T>, view: T -> V, stored: map<int, T>, m: map<int, V>, e: Event<T>,
                                     m': map<int, V>)
  {
    match e.job
    case Run(c) => (m', Show(view, e.reply)) == MapExec(view, m, c)
    case Clean(now) => m' == map k | k in m && k in stored && !cfg.expiredAt(now)(stored[k]) :: m[k]
  }

  lemma {:induction false} ReplayValid<T(!new)>(cfg: Config<T>, log: seq<Event<T>>)
    ensures KeyValueSpec.Valid(Replay(cfg, log))
  {
    if log != [] {
      hide ExecJob;
      ReplayValid(cfg, log[..|log| - 1]);
      ExecJobValid(cfg, Replay(cfg, log[..|log| - 1]), log[|log| - 1].job);
    }
  }

  lemma ExecJobValid<T(!new)>(cfg: Config<T>, rs: seq<Record<T>>, job: Job<T>)
    requires KeyValueSpec.Valid(rs)
    ensures KeyValueSpec.Valid(ExecJob(cfg, rs, job).0)
  {
    match job
    case Run(c) => ExecValid(cfg.carry, rs, c);
    case Clean(now) => KeptKeys(cfg.expiredAt(now), rs);
  }

  lemma {:induction false} SweepRemoves<T(!new), V>(expired: T -> bool, view: T -> V, rs: seq<Record<T>>)
    requires KeyValueSpec.Valid(rs)
    ensures var m, stored := Contents(view, rs), Contents(Itself<T>, rs);
            Contents(view, Kept(expired, rs)) == map k | k in m && k in stored && !expired(stored[k]) :: m[k]
  {
    KeptContents(expired, view, rs);
    hide Kept, KeyValueSpec.Valid;
    var m, stored, m' := Contents(view, rs), Contents(Itself<T>, rs), Contents(view, Kept(expired, rs));
    forall k
      ensures k in m' <==> k in m && k in stored && !expired(stored[k])
    {
      ContentsAt(view, rs, k);
      ContentsAt(Itself<T>, rs, k);
      if k in m {
        assert rs[Find(rs, k)].key == k;
      }
    }
    var expected := map k | k in m && k in stored && !expired(stored[k]) :: m[k];
    assert m'.Keys == expected.Keys;
    forall k | k in m'
      ensures m'[k] == expected[k]
    {
      assert m'[k] == m[k];
    }
  }

  /** In lock order, every set, get and delete replies what a sequential map of bounded
      size replies, and the master's sweeps in between remove exactly what has expired. */
  lemma {:induction false} Linearizable<T(!new), V>(cfg: Config<T>, view: T -> V, log: seq<Event<T>>, n: nat)
    requires Carries(cfg.carry, view) && Sequential(cfg, log) && n < |log|
    ensures Contents(view, Replay(cfg, log[..0])) == map[]
    ensures MapJob(cfg, view, Contents(Itself<T>, Replay(cfg, log[..n])),
                   Contents(view, Replay(cfg, log[..n])), log[n], Contents(view, Replay(cfg, log[..n + 1])))
  {
    assert log[..n + 1][..n] == log[..n];
    var rs := Replay(cfg, log[..n]);
    ReplayValid(cfg, log[..n]);
    assert Replay(cfg, log[..n + 1]) == ExecJob(cfg, rs, log[n].job).0;
    hide Replay;
    match log[n].job
    case Run(c) => ExecRefinesMap(cfg.carry, view, rs, c);
    case Clean(now) => SweepRemoves(cfg.expiredAt(now), view, rs);
  }

  /** The map after the first k jobs of a log. */
  ghost function MapAfter<T(!new), V>(cfg: Config<T>, view: T -> V, log: seq<Event<T>>, k: nat): map<int, V>
    requires k <= |log|
  {
    Contents(view, Replay(cfg, log[..k]))
  }

  lemma {:induction false} NobodyInside<T(!new)>(cfg: Config<T>, s: State<T>)
    requires Inv(cfg, s) && forall p | 0 <= p < |s.pcs| :: !InCritical(s.pcs[p])
    ensures s.memory.Records() == Replay(cfg, s.log) && KeyValueSpec.Valid(s.memory.Records())
  {
    hide Replay, Local, Sequential;
    ReplayValid(cfg, s.log);
  }

  /** Every run is a run of the map in lock order: it begins empty, each completed job
      does to it and replies what it should, and whenever nobody is in the critical
      section the shared memory holds packed records with unique keys that stand for it. */
  lemma {:induction false} RunLinearizes<T(!new), V>(cfg: Config<T>, view: T -> V, ss: seq<State<T>>,
                                                     schedule: seq<nat>, n: nat)
    requires Carries(cfg.carry, view) && Run(cfg, ss, schedule) && n < |ss|
    ensures var log := ss[n].log;
            && MapAfter(cfg, view, log, 0) == map[]
            && (forall k | 0 <= k < |log| ::
                  MapJob(cfg, view, MapAfter(cfg, Itself<T>, log, k),
                         MapAfter(cfg, view, log, k), log[k], MapAfter(cfg, view, log, k + 1)))
    ensures ss[n].memory.Sound()
    ensures (forall p | 0 <= p < |ss[n].pcs| :: !InCritical(ss[n].pcs[p])) ==>
              var rs := ss[n].memory.Records();
              KeyValueSpec.Valid(rs) && Contents(view, rs) == MapAfter(cfg, view, ss[n].log, |ss[n].log|)
  {
    RunInv(cfg, ss, schedule, n);
    var s := ss[n];
    LogMaps(cfg, view, s.log);
    if forall p | 0 <= p < |s.pcs| :: !InCritical(s.pcs[p]) {
      NobodyInside(cfg, s);
      assert s.log[..|s.log|] == s.log;
    }
    hide *;
  }

  lemma {:induction false} LogMaps<T(!new), V>(cfg: Config<T>, view: T -> V, log: seq<Event<T>>)
    requires Carries(cfg.carry, view) && Sequential(cfg, log)
    ensures MapAfter(cfg, view, log, 0) == map[]
    ensures forall k | 0 <= k < |log| ::
              MapJob(cfg, view, MapAfter(cfg, Itself<T>, log, k),
                     MapAfter(cfg, view, log, k), log[k], MapAfter(cfg, view, log, k + 1))
  {
    hide Sequential, MapJob;
    forall k | 0 <= k < |log|
      ensures MapJob(cfg, view, MapAfter(cfg, Itself<T>, log, k),
                     MapAfter(cfg, view, log, k), log[k], MapAfter(cfg, view, log, k + 1))
    {
      Linearizable(cfg, view, log, k);
    }
  }

  /** In the variant without times, and wherever whole records are shifted, the map shows
      all of the data; p6 as written carries the values along, but not the times. */
  lemma Variants()
    ensures Carries(CarryWhole<int>, Itself<int>) && Carries(CarryWhole<Entry>, Itself<Entry>)
    ensures Carries(CarryAsWritten, ValueOf) && !Carries(CarryAsWritten, Itself<Entry>)
  {
    var e, e' := Entry(0, 1, 0), Entry(0, 2, 0);
    assert Itself(CarryAsWritten(e, e')) != Itself(e');
  }
}

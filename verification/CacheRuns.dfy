/** Whole runs of the cache protocol: a call of DisableAndClear from its first step to its last,
    and the run in which a late arrival becomes a second producer. */
module CacheRuns {
  import opened Bytes
  import opened CacheProtocol
  import RC = ResponseCache

  // ---------- a whole DisableAndClear ----------

  /** How many shards a clearing thread has behind it; all of them when it is not clearing. */
  function Progress(pc: PC): nat {
    match pc
    case ClearLock(i) => i
    case ClearDo(i) => i
    case ClearUnlock(i) => i + 1
    case _ => RC.SHARDS
  }

  /** The cache is off and the shards behind the thread are sealed. */
  ghost predicate Swept(s: State, t: nat) {
    t in s.threads && !s.enabled && forall i :: 0 <= i < RC.SHARDS && i < Progress(PcOf(s, t)) ==> Sealed(s, i)
  }

  lemma SweepHolds(s: State, e: Event, cfg: Config, t: nat)
    requires Right(s, cfg) && CanStep(s, e) && !IsEnable(s, e) && Swept(s, t)
    ensures Swept(Step(s, e, cfg), t)
  {
    var r := Step(s, e, cfg);
    forall i | 0 <= i < RC.SHARDS && i < Progress(PcOf(r, t))
      ensures Sealed(r, i)
    {
      if i < Progress(PcOf(s, t)) {
        SealHolds(s, e, cfg, i);
      } else {
        assert e.thread == t && PcOf(s, t) == ClearDo(i);
        ClearSeals(s, e, cfg);
      }
    }
  }

  lemma {:induction false} RunSweeps(s: State, events: seq<Event>, cfg: Config, t: nat)
    requires Right(s, cfg) && IsRun(s, events, cfg) && NoEnable(s, events, cfg) && Swept(s, t)
    ensures Swept(Final(s, events, cfg), t)
    decreases |events|
  {
    if events != [] {
      StepRight(s, events[0], cfg);
      SweepHolds(s, events[0], cfg, t);
      RunSweeps(Step(s, events[0], cfg), events[1..], cfg, t);
    }
  }

  /** A thread turns the cache off and goes on to clear the shards while others do what they like
      but enable it. Once the thread is through, all 32 shards are empty and stay so until the next
      Enable, whatever Adds were in flight. */
  lemma DisableAndClearSealsAll(s: State, events: seq<Event>, cfg: Config, t: nat)
    requires Right(s, cfg) && t in s.threads && PcOf(s, t).Disable?
    requires IsRun(s, events, cfg) && NoEnable(s, events, cfg) && events != [] && events[0].thread == t
    requires var r := Final(s, events, cfg); t in r.threads && PcOf(r, t).Idle?
    ensures forall i :: 0 <= i < RC.SHARDS ==> Sealed(Final(s, events, cfg), i)
  {
    StepRight(s, events[0], cfg);
    RunSweeps(Step(s, events[0], cfg), events[1..], cfg, t);
  }

  // ---------- runs, step by step ----------

  /** A run of the events in which only producers add reaches the state. */
  ghost predicate Does(s: State, events: seq<Event>, cfg: Config, r: State)
    requires Shaped(s, cfg)
  {
    Reaches(s, events, cfg, r) && ProducersAdd(s, events, cfg)
  }

  lemma DoesOneEarlier(s: State, e: Event, rest: seq<Event>, cfg: Config, r: State)
    requires Shaped(s, cfg) && CanStep(s, e) && AddsOwn(s, e) && Shaped(Step(s, e, cfg), cfg) && Does(Step(s, e, cfg), rest, cfg, r)
    ensures true == Does(s, [e] + rest, cfg, r)
  {
    ReachesOneEarlier(s, e, rest, cfg, r);
    assert ([e] + rest)[0] == e && ([e] + rest)[1..] == rest;
  }

  lemma {:induction false} DoesOneMore(s: State, events: seq<Event>, mid: State, e: Event, cfg: Config)
    requires Shaped(s, cfg) && Shaped(mid, cfg) && Does(s, events, cfg, mid) && CanStep(mid, e) && AddsOwn(mid, e)
    ensures true == Does(s, events + [e], cfg, Step(mid, e, cfg))
    decreases |events|
  {
    var r := Step(mid, e, cfg);
    StepShaped(mid, e, cfg);
    if events == [] {
      assert Does(r, [], cfg, r);
      DoesOneEarlier(s, e, [], cfg, r);
      assert events + [e] == [e] + [];
    } else {
      StepShaped(s, events[0], cfg);
      DoesOneMore(Step(s, events[0], cfg), events[1..], mid, e, cfg);
      DoesOneEarlier(s, events[0], events[1..] + [e], cfg, r);
      assert events + [e] == [events[0]] + (events[1..] + [e]);
    }
  }

  /** One step further on a run. */
  lemma Go(s: State, events: seq<Event>, mid: State, t: nat, call: Call, cfg: Config) returns (more: seq<Event>, r: State)
    requires Shaped(s, cfg) && Shaped(mid, cfg) && true == Does(s, events, cfg, mid)
    requires CanStep(mid, Event(t, call)) && AddsOwn(mid, Event(t, call))
    ensures Shaped(r, cfg) && r == Step(mid, Event(t, call), cfg) && true == Does(s, more, cfg, r)
  {
    more, r := events + [Event(t, call)], Step(mid, Event(t, call), cfg);
    StepShaped(mid, Event(t, call), cfg);
    DoesOneMore(s, events, mid, Event(t, call), cfg);
  }

  /** The state with a thread moved to another point. */
  function At(s: State, t: nat, pc: PC): State
    requires t in s.threads
  {
    s.(threads := s.threads[t := Thread(pc, s.threads[t].tickets)])
  }

  /** A step that does nothing but move its thread. */
  predicate Quiet(s: State, pc: PC, call: Call) {
    && WantsShard(pc).None? && !DropsShard(pc) && !WantsFlights(pc) && !DropsFlights(pc)
    && !pc.GetRead? && !pc.AddStore? && !pc.ClearDo? && !Opens(s, pc) && !pc.Delete? && !pc.Close?
    && !pc.Disable? && !Enables(pc, call)
  }

  lemma Moves(s: State, before: seq<Event>, mid: State, t: nat, call: Call, cfg: Config) returns (events: seq<Event>, r: State)
    requires Shaped(s, cfg) && Shaped(mid, cfg) && true == Does(s, before, cfg, mid)
    requires CanStep(mid, Event(t, call)) && AddsOwn(mid, Event(t, call)) && Quiet(mid, PcOf(mid, t), call)
    ensures Shaped(r, cfg) && true == Does(s, events, cfg, r) && r == At(mid, t, NextPC(mid, Event(t, call), cfg))
  {
    events, r := Go(s, before, mid, t, call, cfg);
  }

  lemma TakesShard(s: State, before: seq<Event>, mid: State, t: nat, i: nat, cfg: Config) returns (events: seq<Event>, r: State)
    requires Shaped(s, cfg) && Shaped(mid, cfg) && true == Does(s, before, cfg, mid)
    requires t in mid.threads && WantsShard(PcOf(mid, t)) == Some(i) && i !in mid.locks
    ensures CanStep(mid, Event(t, DoEnable)) && Shaped(r, cfg) && true == Does(s, events, cfg, r)
    ensures r == At(mid.(locks := mid.locks[i := t]), t, NextPC(mid, Event(t, DoEnable), cfg))
  {
    events, r := Go(s, before, mid, t, DoEnable, cfg);
  }

  lemma GivesShard(s: State, before: seq<Event>, mid: State, t: nat, i: nat, cfg: Config) returns (events: seq<Event>, r: State)
    requires Shaped(s, cfg) && Shaped(mid, cfg) && true == Does(s, before, cfg, mid)
    requires t in mid.threads && DropsShard(PcOf(mid, t)) && HoldsShard(PcOf(mid, t)) == Some(i)
    ensures CanStep(mid, Event(t, DoEnable)) && Shaped(r, cfg) && true == Does(s, events, cfg, r)
    ensures r == At(mid.(locks := mid.locks - {i}), t, NextPC(mid, Event(t, DoEnable), cfg))
  {
    events, r := Go(s, before, mid, t, DoEnable, cfg);
  }

  lemma ReadsNothing(s: State, before: seq<Event>, mid: State, t: nat, key: Key, mode: Mode, cfg: Config)
    returns (events: seq<Event>, r: State)
    requires Shaped(s, cfg) && Shaped(mid, cfg) && true == Does(s, before, cfg, mid)
    requires t in mid.threads && PcOf(mid, t) == GetRead(key, mode) && !InCache(mid, key)
    ensures Shaped(r, cfg) && true == Does(s, events, cfg, r) && r == At(mid, t, GetUnlock(key, mode, false))
  {
    events, r := Go(s, before, mid, t, DoEnable, cfg);
    assert r.shards == mid.shards;
  }

  lemma LockReturned(s: State, t: nat, i: nat, p: PC, q: PC, last: PC)
    requires t in s.threads && i !in s.locks
    ensures var held := At(At(s.(locks := s.locks[i := t]), t, p), t, q);
      At(held.(locks := held.locks - {i}), t, last) == At(s, t, last)
  {
    assert s.locks[i := t] - {i} == s.locks;
    assert s.threads[t := Thread(p, s.threads[t].tickets)][t := Thread(q, s.threads[t].tickets)][t := Thread(last, s.threads[t].tickets)]
           == s.threads[t := Thread(last, s.threads[t].tickets)];
  }

  /** A read of a key that is not there leaves the shard and its lock as they were. */
  lemma ReadMisses(s: State, before: seq<Event>, mid: State, t: nat, key: Key, mode: Mode, cfg: Config)
    returns (events: seq<Event>, r: State)
    requires Shaped(s, cfg) && Shaped(mid, cfg) && true == Does(s, before, cfg, mid)
    requires t in mid.threads && PcOf(mid, t) == GetLock(key, mode) && RC.ShardOf(key) !in mid.locks && !InCache(mid, key)
    ensures Shaped(r, cfg) && true == Does(s, events, cfg, r) && r == At(mid, t, AfterMiss(key, mode))
  {
    var i := RC.ShardOf(key);
    events, r := TakesShard(s, before, mid, t, i, cfg);
    events, r := ReadsNothing(s, events, r, t, key, mode, cfg);
    events, r := GivesShard(s, events, r, t, i, cfg);
    LockReturned(mid, t, i, GetRead(key, mode), GetUnlock(key, mode, false), AfterMiss(key, mode));
  }

  lemma AtAgain(s: State, t: nat, p: PC, q: PC)
    requires t in s.threads
    ensures At(At(s, t, p), t, q) == At(s, t, q)
  {
    assert At(At(s, t, p), t, q).threads == At(s, t, q).threads;
  }

  /** From the call of Acquire to the flights lock. */
  lemma EarlyMisses(s: State, before: seq<Event>, mid: State, t: nat, key: Key, cfg: Config) returns (events: seq<Event>, r: State)
    requires Shaped(s, cfg) && Shaped(mid, cfg) && true == Does(s, before, cfg, mid)
    requires t in mid.threads && PcOf(mid, t).Idle? && mid.enabled && RC.ShardOf(key) !in mid.locks && !InCache(mid, key)
    ensures Shaped(r, cfg) && true == Does(s, events, cfg, r) && r == At(mid, t, LockFlights(key))
  {
    events, r := EntersLoop(s, before, mid, t, key, cfg);
    events, r := Moves(s, events, r, t, DoEnable, cfg);
    AtAgain(mid, t, Loop(key), GetFlag(key, Early));
    events, r := Looks(s, events, r, mid, t, key, cfg);
  }

  lemma EntersLoop(s: State, before: seq<Event>, mid: State, t: nat, key: Key, cfg: Config) returns (events: seq<Event>, r: State)
    requires Shaped(s, cfg) && Shaped(mid, cfg) && true == Does(s, before, cfg, mid)
    requires t in mid.threads && PcOf(mid, t).Idle? && mid.enabled
    ensures Shaped(r, cfg) && true == Does(s, events, cfg, r) && r == At(mid, t, Loop(key))
  {
    events, r := Moves(s, before, mid, t, DoAcquire(key), cfg);
    events, r := Moves(s, events, r, t, DoEnable, cfg);
    AtAgain(mid, t, Enter(key), Loop(key));
  }

  lemma Looks(s: State, before: seq<Event>, mid: State, free: State, t: nat, key: Key, cfg: Config) returns (events: seq<Event>, r: State)
    requires Shaped(s, cfg) && Shaped(mid, cfg) && true == Does(s, before, cfg, mid)
    requires t in free.threads && mid == At(free, t, GetFlag(key, Early)) && free.enabled
    requires RC.ShardOf(key) !in free.locks && |free.shards| == RC.SHARDS && !InCache(free, key)
    ensures Shaped(r, cfg) && true == Does(s, events, cfg, r) && r == At(free, t, LockFlights(key))
  {
    events, r := Moves(s, before, mid, t, DoEnable, cfg);
    AtAgain(free, t, GetFlag(key, Early), GetLock(key, Early));
    events, r := ReadMisses(s, events, r, t, key, Early, cfg);
    AtAgain(free, t, GetLock(key, Early), LockFlights(key));
  }

  /** From the free flights lock to the second look. */
  lemma Relooks(s: State, before: seq<Event>, mid: State, t: nat, key: Key, cfg: Config) returns (events: seq<Event>, r: State)
    requires Shaped(s, cfg) && Shaped(mid, cfg) && true == Does(s, before, cfg, mid)
    requires t in mid.threads && PcOf(mid, t) == LockFlights(key) && mid.enabled && mid.flightsLock.None?
    ensures Shaped(r, cfg) && true == Does(s, events, cfg, r) && r == At(mid.(flightsLock := Some(t)), t, GetFlag(key, Guarded))
  {
    events, r := Go(s, before, mid, t, DoEnable, cfg);
    events, r := Go(s, events, r, t, DoEnable, cfg);
    assert r.threads == At(mid, t, GetFlag(key, Guarded)).threads;
  }

  /** The state with a thread as the producer of a new flight. */
  function Opened(s: State, t: nat, key: Key): State
    requires t in s.threads
  {
    s.(flights := s.flights[key := s.issued], issued := s.issued + 1,
       threads := s.threads[t := Thread(Idle, s.threads[t].tickets + {Ticket(key, s.issued)})])
  }

  lemma BecomesProducer(s: State, before: seq<Event>, mid: State, t: nat, key: Key, cfg: Config) returns (events: seq<Event>, r: State)
    requires Shaped(s, cfg) && Shaped(mid, cfg) && true == Does(s, before, cfg, mid)
    requires t in mid.threads && PcOf(mid, t) == LockFlights(key) && mid.enabled && mid.flightsLock.None?
    requires RC.ShardOf(key) !in mid.locks && !InCache(mid, key) && key !in mid.flights
    ensures Shaped(r, cfg) && true == Does(s, events, cfg, r) && r == Opened(mid, t, key)
  {
    var locked := mid.(flightsLock := Some(t));
    events, r := Relooks(s, before, mid, t, key, cfg);
    events, r := Moves(s, events, r, t, DoEnable, cfg);
    AtAgain(locked, t, GetFlag(key, Guarded), GetLock(key, Guarded));
    events, r := ReadMisses(s, events, r, t, key, Guarded, cfg);
    AtAgain(locked, t, GetLock(key, Guarded), Register(key));
    events, r := Registers(s, events, r, mid, t, key, cfg);
  }

  lemma Registers(s: State, before: seq<Event>, mid: State, free: State, t: nat, key: Key, cfg: Config) returns (events: seq<Event>, r: State)
    requires Shaped(s, cfg) && Shaped(mid, cfg) && true == Does(s, before, cfg, mid)
    requires t in free.threads && free.flightsLock.None? && key !in free.flights && mid == At(free.(flightsLock := Some(t)), t, Register(key))
    ensures Shaped(r, cfg) && true == Does(s, events, cfg, r) && r == Opened(free, t, key)
  {
    events, r := Go(s, before, mid, t, DoEnable, cfg);
    events, r := Go(s, events, r, t, DoEnable, cfg);
    assert r.threads == Opened(free, t, key).threads;
  }

  lemma Adds(s: State, before: seq<Event>, mid: State, t: nat, ticket: Ticket, entry: RC.Entry, cfg: Config) returns (events: seq<Event>, r: State)
    requires Shaped(s, cfg) && Shaped(mid, cfg) && true == Does(s, before, cfg, mid)
    requires InHand(mid, t, ticket) && ticket.key == entry.key && PcOf(mid, t).Idle? && mid.enabled && Fits(cfg, entry)
    requires RC.ShardOf(entry.key) !in mid.locks
    ensures Shaped(r, cfg) && true == Does(s, events, cfg, r)
    ensures InCache(r, entry.key) && r == mid.(shards := r.shards)
  {
    events, r := AddsLock(s, before, mid, t, ticket, entry, cfg);
    events, r := AddsRecheck(s, events, r, mid, t, entry, cfg);
    events, r := Stores(s, events, r, mid, t, entry, cfg);
  }

  lemma AddsLock(s: State, before: seq<Event>, mid: State, t: nat, ticket: Ticket, entry: RC.Entry, cfg: Config) returns (events: seq<Event>, r: State)
    requires Shaped(s, cfg) && Shaped(mid, cfg) && true == Does(s, before, cfg, mid)
    requires InHand(mid, t, ticket) && ticket.key == entry.key && PcOf(mid, t).Idle? && mid.enabled && Fits(cfg, entry)
    ensures Shaped(r, cfg) && true == Does(s, events, cfg, r) && r == At(mid, t, AddLock(entry))
  {
    events, r := Moves(s, before, mid, t, DoAdd(entry), cfg);
    events, r := Moves(s, events, r, t, DoEnable, cfg);
    AtAgain(mid, t, AddFlag(entry), AddLock(entry));
  }

  lemma AddsRecheck(s: State, before: seq<Event>, mid: State, free: State, t: nat, entry: RC.Entry, cfg: Config) returns (events: seq<Event>, r: State)
    requires Shaped(s, cfg) && Shaped(mid, cfg) && true == Does(s, before, cfg, mid)
    requires t in free.threads && mid == At(free, t, AddLock(entry)) && RC.ShardOf(entry.key) !in free.locks && free.enabled
    ensures Shaped(r, cfg) && true == Does(s, events, cfg, r)
    ensures r == At(free.(locks := free.locks[RC.ShardOf(entry.key) := t]), t, AddStore(entry))
  {
    var i := RC.ShardOf(entry.key);
    events, r := TakesShard(s, before, mid, t, i, cfg);
    AtAgain(free.(locks := free.locks[i := t]), t, AddLock(entry), AddRecheck(entry));
    events, r := Moves(s, events, r, t, DoEnable, cfg);
    AtAgain(free.(locks := free.locks[i := t]), t, AddRecheck(entry), AddStore(entry));
  }

  lemma Stores(s: State, before: seq<Event>, mid: State, free: State, t: nat, entry: RC.Entry, cfg: Config) returns (events: seq<Event>, r: State)
    requires Shaped(s, cfg) && Shaped(mid, cfg) && true == Does(s, before, cfg, mid) && Fits(cfg, entry)
    requires t in free.threads && free.threads[t].pc.Idle? && RC.ShardOf(entry.key) !in free.locks
    requires mid == At(free.(locks := free.locks[RC.ShardOf(entry.key) := t]), t, AddStore(entry))
    ensures Shaped(r, cfg) && true == Does(s, events, cfg, r)
    ensures InCache(r, entry.key) && r == free.(shards := r.shards)
  {
    var i := RC.ShardOf(entry.key);
    events, r := Puts(s, before, mid, t, entry, cfg);
    events, r := GivesShard(s, events, r, t, i, cfg);
    assert r.locks == free.locks && r.threads == free.threads;
  }

  lemma Puts(s: State, before: seq<Event>, mid: State, t: nat, entry: RC.Entry, cfg: Config) returns (events: seq<Event>, r: State)
    requires Shaped(s, cfg) && Shaped(mid, cfg) && true == Does(s, before, cfg, mid) && Fits(cfg, entry)
    requires t in mid.threads && PcOf(mid, t) == AddStore(entry)
    ensures Shaped(r, cfg) && true == Does(s, events, cfg, r)
    ensures InCache(r, entry.key) && r == At(mid.(shards := r.shards), t, AddUnlock(entry))
  {
    var i := RC.ShardOf(entry.key);
    RC.AddedKeepsNew(mid.shards[i], entry, cfg.budgets[i], cfg.maxEntry);
    events, r := Go(s, before, mid, t, DoEnable, cfg);
    RC.HoldsSome(r.shards[i], entry.key);
  }

  lemma Releases(s: State, before: seq<Event>, mid: State, t: nat, ticket: Ticket, cfg: Config) returns (events: seq<Event>, r: State)
    requires Shaped(s, cfg) && Shaped(mid, cfg) && true == Does(s, before, cfg, mid)
    requires InHand(mid, t, ticket) && PcOf(mid, t).Idle? && mid.flightsLock.None?
    ensures Shaped(r, cfg) && true == Does(s, events, cfg, r)
    ensures r == mid.(flights := mid.flights - {ticket.key}, closed := mid.closed + {ticket.flight},
                      threads := mid.threads[t := Thread(Idle, mid.threads[t].tickets - {ticket})])
  {
    events, r := Moves(s, before, mid, t, DoRelease(ticket), cfg);
    events, r := Go(s, events, r, t, DoEnable, cfg);
    AtAgain(mid, t, ReleaseLock(ticket), Delete(ticket));
    assert r == At(mid.(flightsLock := Some(t)), t, Delete(ticket));
    events, r := Deletes(s, events, r, mid, t, ticket, cfg);
  }

  lemma Deletes(s: State, before: seq<Event>, mid: State, free: State, t: nat, ticket: Ticket, cfg: Config) returns (events: seq<Event>, r: State)
    requires Shaped(s, cfg) && Shaped(mid, cfg) && true == Does(s, before, cfg, mid)
    requires t in free.threads && free.flightsLock.None? && mid == At(free.(flightsLock := Some(t)), t, Delete(ticket))
    ensures Shaped(r, cfg) && true == Does(s, events, cfg, r)
    ensures r == free.(flights := free.flights - {ticket.key}, closed := free.closed + {ticket.flight},
                       threads := free.threads[t := Thread(Idle, free.threads[t].tickets - {ticket})])
  {
    events, r := Go(s, before, mid, t, DoEnable, cfg);
    events, r := Closes(s, events, r, t, ticket, cfg);
    assert r.threads == free.threads[t := Thread(Idle, free.threads[t].tickets - {ticket})];
  }

  lemma Closes(s: State, before: seq<Event>, mid: State, t: nat, ticket: Ticket, cfg: Config) returns (events: seq<Event>, r: State)
    requires Shaped(s, cfg) && Shaped(mid, cfg) && true == Does(s, before, cfg, mid)
    requires t in mid.threads && PcOf(mid, t) == Close(ticket)
    ensures Shaped(r, cfg) && true == Does(s, events, cfg, r)
    ensures r == At(mid.(closed := mid.closed + {ticket.flight}, flightsLock := None), t, Idle)
  {
    events, r := Go(s, before, mid, t, DoEnable, cfg);
    events, r := Go(s, events, r, t, DoEnable, cfg);
    assert r.threads == At(mid, t, Idle).threads;
  }

  lemma TurnsOff(s: State, before: seq<Event>, mid: State, t: nat, cfg: Config) returns (events: seq<Event>, r: State)
    requires Shaped(s, cfg) && Shaped(mid, cfg) && true == Does(s, before, cfg, mid) && t in mid.threads && PcOf(mid, t).Idle?
    ensures Shaped(r, cfg) && true == Does(s, events, cfg, r) && r == At(mid.(enabled := false), t, ClearLock(0))
  {
    events, r := Moves(s, before, mid, t, DoDisableAndClear, cfg);
    events, r := Go(s, events, r, t, DoEnable, cfg);
    AtAgain(mid, t, Disable, ClearLock(0));
  }

  /** One thread has missed the key early when another acquires, adds and releases it. */
  lemma Published(s: State, entry: RC.Entry, cfg: Config) returns (events: seq<Event>, r: State)
    requires Shaped(s, cfg) && s == Initial({0, 1, 2}) && Fits(cfg, entry)
    ensures Shaped(r, cfg) && true == Does(s, events, cfg, r)
    ensures r.enabled && r.flightsLock.None? && r.flights == map[] && r.threads.Keys == {0, 1, 2} && InCache(r, entry.key)
    ensures PcOf(r, 0) == LockFlights(entry.key) && PcOf(r, 2).Idle?
  {
    var key, ticket := entry.key, Ticket(entry.key, 0);
    assert Does(s, [], cfg, s);
    events, r := EarlyMisses(s, [], s, 0, key, cfg);
    events, r := EarlyMisses(s, events, r, 1, key, cfg);
    events, r := BecomesProducer(s, events, r, 1, key, cfg);
    assert InHand(r, 1, ticket) && PcOf(r, 1).Idle? && PcOf(r, 0) == LockFlights(key) && PcOf(r, 2).Idle?;
    events, r := Adds(s, events, r, 1, ticket, entry, cfg);
    events, r := Releases(s, events, r, 1, ticket, cfg);
  }

  /** The late producer, in a whole run from a new cache in which only producers add: a thread has
      missed a key early, another publishes it, the first takes the flights lock and finds the cache
      on, a third turns it off, and the first one's second look makes it the producer of a flight
      for a key that is still in the cache. */
  lemma LateProducerAppears(cfg: Config, entry: RC.Entry) returns (events: seq<Event>, r: State)
    requires |cfg.budgets| == RC.SHARDS && Fits(cfg, entry)
    ensures Shaped(Initial({0, 1, 2}), cfg) && Does(Initial({0, 1, 2}), events, cfg, r)
    ensures Shaped(r, cfg) && 0 in r.threads && Opens(r, PcOf(r, 0)) && PcOf(r, 0) == Register(entry.key) && InCache(r, entry.key)
  {
    var s := Initial({0, 1, 2});
    events, r := Published(s, entry, cfg);
    events, r := Relooks(s, events, r, 0, entry.key, cfg);
    events, r := TurnsOff(s, events, r, 2, cfg);
    events, r := Moves(s, events, r, 0, DoEnable, cfg);
  }
}

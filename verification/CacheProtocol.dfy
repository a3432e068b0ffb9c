/** The response cache under concurrent use. Each thread is at one point of one call, and a step
    moves one thread past one lock operation or one access to shared state; every interleaving
    of steps is a run. */
module CacheProtocol {
  import opened Bytes
  import RC = ResponseCache

  type Key = RC.Key

  /** Budgets of the shards and the largest value an entry may have. */
  datatype Config = Config(budgets: seq<nat>, maxEntry: nat)

  // ---------- states ----------

  /** Where Get is called from: on its own, in Acquire's loop, or there under the flights lock. */
  datatype Mode = Alone | Early | Guarded

  datatype Outcome = Bypass | Hit | Produce | Await(flight: nat)

  /** What a producer owes: the release of its flight. */
  datatype Ticket = Ticket(key: Key, flight: nat)

  /** What a thread does next. */
  datatype PC =
    | Idle
    | Enter(key: Key)
    | Loop(key: Key)
    | GetFlag(key: Key, mode: Mode)
    | GetLock(key: Key, mode: Mode)
    | GetRead(key: Key, mode: Mode)
    | GetUnlock(key: Key, mode: Mode, hit: bool)
    | LockFlights(key: Key)
    | CheckFlag(key: Key)
    | Register(key: Key)
    | UnlockFlights(key: Key, outcome: Outcome)
    | Waiting(key: Key, flight: nat)
    | AddFlag(entry: RC.Entry)
    | AddLock(entry: RC.Entry)
    | AddRecheck(entry: RC.Entry)
    | AddStore(entry: RC.Entry)
    | AddUnlock(entry: RC.Entry)
    | ReleaseLock(ticket: Ticket)
    | Delete(ticket: Ticket)
    | Close(ticket: Ticket)
    | ReleaseUnlock
    | Disable
    | ClearLock(shard: nat)
    | ClearDo(shard: nat)
    | ClearUnlock(shard: nat)

  datatype Thread = Thread(pc: PC, tickets: set<Ticket>)

  datatype State = State(
    enabled: bool,
    flights: map<Key, nat>,
    closed: set<nat>,
    issued: nat,
    flightsLock: Option<nat>,
    locks: map<nat, nat>,
    shards: seq<RC.Lru>,
    threads: map<nat, Thread>)

  /** The calls an idle thread may make. */
  datatype Call = DoAcquire(key: Key) | DoGet(key: Key) | DoAdd(entry: RC.Entry) | DoRelease(ticket: Ticket) | DoEnable | DoDisableAndClear

  /** A step: which thread moves and, when it is idle, which call it makes. */
  datatype Event = Event(thread: nat, call: Call)

  function PcOf(s: State, t: nat): PC
    requires t in s.threads
  {
    s.threads[t].pc
  }

  // ---------- which lock a point needs, holds or gives back ----------

  /** The shard whose lock a thread is about to take. */
  function WantsShard(pc: PC): Option<nat> {
    match pc
    case GetLock(key, _) => Some(RC.ShardOf(key))
    case AddLock(e) => Some(RC.ShardOf(e.key))
    case ClearLock(i) => Some(i)
    case _ => None
  }

  /** The shard whose lock a thread has. */
  function HoldsShard(pc: PC): Option<nat> {
    match pc
    case GetRead(key, _) => Some(RC.ShardOf(key))
    case GetUnlock(key, _, _) => Some(RC.ShardOf(key))
    case AddRecheck(e) => Some(RC.ShardOf(e.key))
    case AddStore(e) => Some(RC.ShardOf(e.key))
    case AddUnlock(e) => Some(RC.ShardOf(e.key))
    case ClearDo(i) => Some(i)
    case ClearUnlock(i) => Some(i)
    case _ => None
  }

  predicate DropsShard(pc: PC) {
    pc.GetUnlock? || pc.AddUnlock? || pc.ClearUnlock?
  }

  predicate WantsFlights(pc: PC) {
    pc.LockFlights? || pc.ReleaseLock?
  }

  predicate HoldsFlights(pc: PC) {
    || pc.CheckFlag? || pc.Register? || pc.UnlockFlights? || pc.Delete? || pc.Close? || pc.ReleaseUnlock?
    || ((pc.GetFlag? || pc.GetLock? || pc.GetRead? || pc.GetUnlock?) && pc.mode.Guarded?)
  }

  predicate DropsFlights(pc: PC) {
    pc.UnlockFlights? || pc.ReleaseUnlock?
  }

  // ---------- steps ----------

  /** Locks block while they are held, and a waiter until its flight is closed. A release needs
      its ticket. */
  predicate CanStep(s: State, e: Event) {
    && e.thread in s.threads
    && var pc := PcOf(s, e.thread);
    && (WantsShard(pc).Some? ==> WantsShard(pc).value !in s.locks)
    && (WantsFlights(pc) ==> s.flightsLock.None?)
    && (pc.Waiting? ==> pc.flight in s.closed)
    && (pc.Idle? && e.call.DoRelease? ==> e.call.ticket in s.threads[e.thread].tickets)
  }

  function FirstPC(call: Call): PC {
    match call
    case DoAcquire(key) => Enter(key)
    case DoGet(key) => GetFlag(key, Alone)
    case DoAdd(e) => AddFlag(e)
    case DoRelease(ticket) => ReleaseLock(ticket)
    case DoEnable => Idle
    case DoDisableAndClear => Disable
  }

  function AfterHit(key: Key, mode: Mode): PC {
    if mode.Guarded? then UnlockFlights(key, Hit) else Idle
  }

  function AfterMiss(key: Key, mode: Mode): PC {
    match mode
    case Alone => Idle
    case Early => LockFlights(key)
    case Guarded => Register(key)
  }

  predicate InCache(s: State, key: Key)
    requires |s.shards| == RC.SHARDS
  {
    RC.Holds(s.shards[RC.ShardOf(key)], key)
  }

  predicate Fits(cfg: Config, e: RC.Entry)
    requires |cfg.budgets| == RC.SHARDS
  {
    RC.Accepted(e, cfg.budgets[RC.ShardOf(e.key)], cfg.maxEntry)
  }

  /** Where the thread goes: the control flow of all calls. */
  function NextPC(s: State, e: Event, cfg: Config): PC
    requires CanStep(s, e) && |s.shards| == RC.SHARDS && |cfg.budgets| == RC.SHARDS
  {
    match PcOf(s, e.thread)
    case Idle => FirstPC(e.call)
    case Enter(key) => if s.enabled then Loop(key) else Idle
    case Loop(key) => if s.enabled then GetFlag(key, Early) else Idle
    case GetFlag(key, mode) => if s.enabled then GetLock(key, mode) else AfterMiss(key, mode)
    case GetLock(key, mode) => GetRead(key, mode)
    case GetRead(key, mode) => GetUnlock(key, mode, InCache(s, key))
    case GetUnlock(key, mode, hit) => if hit then AfterHit(key, mode) else AfterMiss(key, mode)
    case LockFlights(key) => CheckFlag(key)
    case CheckFlag(key) => if s.enabled then GetFlag(key, Guarded) else UnlockFlights(key, Bypass)
    case Register(key) => UnlockFlights(key, if key in s.flights then Await(s.flights[key]) else Produce)
    case UnlockFlights(key, outcome) => if outcome.Await? then Waiting(key, outcome.flight) else Idle
    case Waiting(key, _) => Loop(key)
    case AddFlag(entry) => if s.enabled && Fits(cfg, entry) then AddLock(entry) else Idle
    case AddLock(entry) => AddRecheck(entry)
    case AddRecheck(entry) => if s.enabled then AddStore(entry) else AddUnlock(entry)
    case AddStore(entry) => AddUnlock(entry)
    case AddUnlock(_) => Idle
    case ReleaseLock(ticket) => Delete(ticket)
    case Delete(ticket) => Close(ticket)
    case Close(_) => ReleaseUnlock
    case ReleaseUnlock => Idle
    case Disable => ClearLock(0)
    case ClearLock(i) => ClearDo(i)
    case ClearDo(i) => ClearUnlock(i)
    case ClearUnlock(i) => if i + 1 < RC.SHARDS then ClearLock(i + 1) else Idle
  }

  predicate Enables(pc: PC, call: Call) {
    pc.Idle? && call.DoEnable?
  }

  function NextEnabled(s: State, pc: PC, call: Call): bool {
    if Enables(pc, call) then true else if pc.Disable? then false else s.enabled
  }

  function NextFlightsLock(s: State, t: nat, pc: PC): Option<nat> {
    if WantsFlights(pc) then Some(t) else if DropsFlights(pc) then None else s.flightsLock
  }

  function NextLocks(s: State, t: nat, pc: PC): map<nat, nat> {
    if WantsShard(pc).Some? then s.locks[WantsShard(pc).value := t]
    else if DropsShard(pc) && HoldsShard(pc).Some? then s.locks - {HoldsShard(pc).value}
    else s.locks
  }

  /** A reader moves its hit to the front, a writer adds, a clearer empties. */
  function NextShards(s: State, pc: PC, cfg: Config): seq<RC.Lru>
    requires |s.shards| == RC.SHARDS && |cfg.budgets| == RC.SHARDS
  {
    match pc
    case GetRead(key, _) =>
      var i := RC.ShardOf(key);
      s.shards[i := RC.Touched(s.shards[i], key)]
    case AddStore(entry) =>
      var i := RC.ShardOf(entry.key);
      s.shards[i := RC.Added(s.shards[i], entry, cfg.budgets[i], cfg.maxEntry)]
    case ClearDo(i) => if i < RC.SHARDS then s.shards[i := []] else s.shards
    case _ => s.shards
  }

  /** Register finds no flight: the thread becomes the producer of a new one. */
  predicate Opens(s: State, pc: PC) {
    pc.Register? && pc.key !in s.flights
  }

  function NextFlights(s: State, pc: PC): map<Key, nat> {
    if Opens(s, pc) then s.flights[pc.key := s.issued]
    else if pc.Delete? then s.flights - {pc.ticket.key}
    else s.flights
  }

  function NextTickets(s: State, pc: PC, tickets: set<Ticket>): set<Ticket> {
    if Opens(s, pc) then tickets + {Ticket(pc.key, s.issued)}
    else if pc.Delete? then tickets - {pc.ticket}
    else tickets
  }

  function NextIssued(s: State, pc: PC): nat {
    if Opens(s, pc) then s.issued + 1 else s.issued
  }

  function NextClosed(s: State, pc: PC): set<nat> {
    if pc.Close? then s.closed + {pc.ticket.flight} else s.closed
  }

  function Step(s: State, e: Event, cfg: Config): State
    requires CanStep(s, e) && |s.shards| == RC.SHARDS && |cfg.budgets| == RC.SHARDS
  {
    var t, pc := e.thread, PcOf(s, e.thread);
    State(
      NextEnabled(s, pc, e.call),
      NextFlights(s, pc),
      NextClosed(s, pc),
      NextIssued(s, pc),
      NextFlightsLock(s, t, pc),
      NextLocks(s, t, pc),
      NextShards(s, pc, cfg),
      s.threads[t := Thread(NextPC(s, e, cfg), NextTickets(s, pc, s.threads[t].tickets))])
  }

  // ---------- locks ----------

  /** What a step does to the lock that a point holds follows from the point alone. */
  lemma LockMoves(s: State, e: Event, cfg: Config)
    requires CanStep(s, e) && |s.shards| == RC.SHARDS && |cfg.budgets| == RC.SHARDS
    ensures var pc, next := PcOf(s, e.thread), NextPC(s, e, cfg);
      && (WantsFlights(pc) ==> !HoldsFlights(pc) && HoldsFlights(next))
      && (DropsFlights(pc) ==> HoldsFlights(pc) && !HoldsFlights(next))
      && (!WantsFlights(pc) && !DropsFlights(pc) ==> (HoldsFlights(next) <==> HoldsFlights(pc)))
      && (WantsShard(pc).Some? ==> HoldsShard(pc).None? && HoldsShard(next) == WantsShard(pc))
      && (DropsShard(pc) ==> HoldsShard(pc).Some? && HoldsShard(next).None?)
      && (WantsShard(pc).None? && !DropsShard(pc) ==> HoldsShard(next) == HoldsShard(pc))
  {
  }

  /** A lock's owner is the one thread that is at a point where it holds it. */
  ghost predicate LocksRight(s: State) {
    && (s.flightsLock.Some? ==> s.flightsLock.value in s.threads)
    && (forall i :: i in s.locks ==> s.locks[i] in s.threads)
    && (forall t :: t in s.threads ==> OwnsRight(s, t))
  }

  ghost predicate OwnsRight(s: State, t: nat)
    requires t in s.threads
  {
    var pc := PcOf(s, t);
    && (HoldsFlights(pc) <==> s.flightsLock == Some(t))
    && (forall i :: i in s.locks && s.locks[i] == t ==> HoldsShard(pc) == Some(i))
    && (HoldsShard(pc).Some? ==> HoldsShard(pc).value in s.locks && s.locks[HoldsShard(pc).value] == t)
  }

  lemma StepLocks(s: State, e: Event, cfg: Config)
    requires CanStep(s, e) && |s.shards| == RC.SHARDS && |cfg.budgets| == RC.SHARDS && LocksRight(s)
    ensures true == LocksRight(Step(s, e, cfg))
  {
    var r := Step(s, e, cfg);
    LockMoves(s, e, cfg);
    assert OwnsRight(s, e.thread);
    forall t | t in r.threads
      ensures OwnsRight(r, t)
    {
      assert OwnsRight(s, t);
    }
  }

  // ---------- producers ----------

  ghost predicate InHand(s: State, t: nat, ticket: Ticket) {
    t in s.threads && ticket in s.threads[t].tickets
  }

  /** The flights table and the tickets in threads' hands are two sides of one relation. */
  ghost predicate TicketsRight(s: State) {
    && (forall t, ticket :: InHand(s, t, ticket) ==> Listed(s, ticket))
    && (forall t, u, ticket :: InHand(s, t, ticket) && InHand(s, u, ticket) ==> t == u)
    && (forall key :: key in s.flights ==> HasProducer(s, key))
  }

  ghost predicate Listed(s: State, ticket: Ticket) {
    ticket.key in s.flights && s.flights[ticket.key] == ticket.flight
  }

  ghost predicate HasProducer(s: State, key: Key)
    requires key in s.flights
  {
    exists t :: InHand(s, t, Ticket(key, s.flights[key]))
  }

  /** Flight numbers are issued once, are open while listed, and closed for good. */
  ghost predicate NumbersRight(s: State) {
    && (forall key :: key in s.flights ==> s.flights[key] < s.issued && s.flights[key] !in s.closed)
    && (forall key, other :: key in s.flights && other in s.flights && s.flights[key] == s.flights[other] ==> key == other)
    && (forall f :: f in s.closed ==> f < s.issued)
  }

  ghost predicate FlightsRight(s: State) {
    NumbersRight(s) && forall t :: t in s.threads ==> PointRight(s, t)
  }

  ghost predicate PointRight(s: State, t: nat)
    requires t in s.threads
  {
    match PcOf(s, t)
    case ReleaseLock(ticket) => InHand(s, t, ticket)
    case Delete(ticket) => InHand(s, t, ticket)
    case Close(ticket) => ticket.flight < s.issued && forall key :: key in s.flights ==> s.flights[key] != ticket.flight
    case _ => true
  }

  ghost predicate Shaped(s: State, cfg: Config) {
    |s.shards| == RC.SHARDS && |cfg.budgets| == RC.SHARDS
  }

  lemma StepTickets(s: State, e: Event, cfg: Config)
    requires Shaped(s, cfg) && CanStep(s, e) && TicketsRight(s) && FlightsRight(s)
    ensures true == TicketsRight(Step(s, e, cfg))
  {
    var r, pc := Step(s, e, cfg), PcOf(s, e.thread);
    assert PointRight(s, e.thread);
    if Opens(s, pc) {
      TicketsOpened(s, r, e.thread, pc.key);
    } else if pc.Delete? {
      TicketsDeleted(s, r, e.thread, pc.ticket);
    } else {
      TicketsKept(s, r, e.thread);
    }
  }

  ghost predicate OnlyMoved(s: State, r: State, t: nat) {
    t in s.threads && r.threads.Keys == s.threads.Keys && forall u :: u in s.threads && u != t ==> r.threads[u] == s.threads[u]
  }

  lemma TicketsKept(s: State, r: State, t: nat)
    requires TicketsRight(s) && OnlyMoved(s, r, t)
    requires r.flights == s.flights && r.threads[t].tickets == s.threads[t].tickets
    ensures true == TicketsRight(r)
  {
    assert forall u, ticket :: InHand(r, u, ticket) <==> InHand(s, u, ticket);
    forall key | key in r.flights
      ensures HasProducer(r, key)
    {
      assert HasProducer(s, key);
    }
  }

  lemma TicketsOpened(s: State, r: State, t: nat, key: Key)
    requires TicketsRight(s) && FlightsRight(s) && OnlyMoved(s, r, t) && key !in s.flights
    requires r.flights == s.flights[key := s.issued] && r.threads[t].tickets == s.threads[t].tickets + {Ticket(key, s.issued)}
    ensures true == TicketsRight(r)
  {
    var own := Ticket(key, s.issued);
    forall u, ticket
      ensures InHand(r, u, ticket) <==> InHand(s, u, ticket) || (u == t && ticket == own)
      ensures InHand(s, u, ticket) ==> ticket.key != key
    {
      assert InHand(s, u, ticket) ==> Listed(s, ticket);
    }
    forall other | other in r.flights
      ensures HasProducer(r, other)
    {
      if other == key {
        assert InHand(r, t, own);
      } else {
        assert HasProducer(s, other);
      }
    }
  }

  lemma TicketsDeleted(s: State, r: State, t: nat, ticket: Ticket)
    requires TicketsRight(s) && OnlyMoved(s, r, t) && InHand(s, t, ticket)
    requires r.flights == s.flights - {ticket.key} && r.threads[t].tickets == s.threads[t].tickets - {ticket}
    ensures true == TicketsRight(r)
  {
    assert Listed(s, ticket);
    forall u, other
      ensures InHand(r, u, other) <==> InHand(s, u, other) && other != ticket
      ensures InHand(s, u, other) && other != ticket ==> other.key != ticket.key
    {
      assert InHand(s, u, other) ==> Listed(s, other);
      assert InHand(s, u, ticket) ==> u == t;
    }
    forall key | key in r.flights
      ensures HasProducer(r, key)
    {
      assert HasProducer(s, key);
      var u :| InHand(s, u, Ticket(key, s.flights[key]));
      assert InHand(r, u, Ticket(key, r.flights[key]));
    }
  }

  /** Only the thread that moves can change what its point needs, but for Close: no flight
      being closed is listed again. */
  lemma PointStays(s: State, e: Event, cfg: Config, u: nat)
    requires Shaped(s, cfg) && CanStep(s, e) && TicketsRight(s) && FlightsRight(s) && u in s.threads && u != e.thread
    requires OwnsRight(s, e.thread) && OwnsRight(s, u)
    ensures PointRight(Step(s, e, cfg), u)
  {
    assert PointRight(s, u);
  }

  lemma PointMoves(s: State, e: Event, cfg: Config)
    requires Shaped(s, cfg) && CanStep(s, e) && TicketsRight(s) && FlightsRight(s)
    ensures PointRight(Step(s, e, cfg), e.thread)
  {
    var pc := PcOf(s, e.thread);
    assert PointRight(s, e.thread);
    if pc.Delete? {
      assert Listed(s, pc.ticket);
    }
  }

  lemma StepNumbers(s: State, e: Event, cfg: Config)
    requires Shaped(s, cfg) && CanStep(s, e) && FlightsRight(s)
    ensures true == NumbersRight(Step(s, e, cfg))
  {
    assert PointRight(s, e.thread);
  }

  lemma StepFlights(s: State, e: Event, cfg: Config)
    requires Shaped(s, cfg) && CanStep(s, e) && LocksRight(s) && TicketsRight(s) && FlightsRight(s)
    ensures true == FlightsRight(Step(s, e, cfg))
  {
    StepNumbers(s, e, cfg);
    assert OwnsRight(s, e.thread);
    forall u | u in s.threads
      ensures PointRight(Step(s, e, cfg), u)
    {
      if u == e.thread {
        PointMoves(s, e, cfg);
      } else {
        assert OwnsRight(s, u);
        PointStays(s, e, cfg, u);
      }
    }
  }

  // ---------- waiters ----------

  /** The flight a thread waits for, or is about to wait for. */
  function Awaits(pc: PC): Option<nat> {
    if pc.Waiting? then Some(pc.flight)
    else if pc.UnlockFlights? && pc.outcome.Await? then Some(pc.outcome.flight)
    else None
  }

  /** Some thread will close the flight, or one has. */
  ghost predicate Attended(s: State, f: nat) {
    f in s.closed || IsListed(s, f) || exists t :: Closing(s, t, f)
  }

  ghost predicate IsListed(s: State, f: nat) {
    exists key :: key in s.flights && s.flights[key] == f
  }

  ghost predicate Closing(s: State, t: nat, f: nat) {
    t in s.threads && PcOf(s, t).Close? && PcOf(s, t).ticket.flight == f
  }

  ghost predicate WaitsRight(s: State) {
    forall t :: t in s.threads && Awaits(PcOf(s, t)).Some? ==> Attended(s, Awaits(PcOf(s, t)).value)
  }

  /** A step never leaves a flight unattended: Delete hands it from the table to Close. */
  lemma StaysAttended(s: State, e: Event, cfg: Config, f: nat)
    requires Shaped(s, cfg) && CanStep(s, e) && TicketsRight(s) && PointRight(s, e.thread) && Attended(s, f)
    ensures Attended(Step(s, e, cfg), f)
  {
    var r, pc := Step(s, e, cfg), PcOf(s, e.thread);
    if f in s.closed {
    } else if IsListed(s, f) {
      var key :| key in s.flights && s.flights[key] == f;
      if pc.Delete? && pc.ticket.key == key {
        assert Listed(s, pc.ticket);
        assert Closing(r, e.thread, f);
      } else {
        assert key in r.flights && r.flights[key] == f;
      }
    } else {
      var t :| Closing(s, t, f);
      if t != e.thread {
        assert Closing(r, t, f);
      }
    }
  }

  lemma StepWaits(s: State, e: Event, cfg: Config)
    requires Shaped(s, cfg) && CanStep(s, e) && TicketsRight(s) && FlightsRight(s) && WaitsRight(s)
    ensures true == WaitsRight(Step(s, e, cfg))
  {
    var r, pc := Step(s, e, cfg), PcOf(s, e.thread);
    assert PointRight(s, e.thread);
    forall t | t in r.threads && Awaits(PcOf(r, t)).Some?
      ensures Attended(r, Awaits(PcOf(r, t)).value)
    {
      var f := Awaits(PcOf(r, t)).value;
      if t == e.thread && pc.Register? {
        assert IsListed(s, f);
      } else if t == e.thread {
        StillAwaits(s, e, cfg);
      }
      StaysAttended(s, e, cfg, f);
    }
  }

  lemma StillAwaits(s: State, e: Event, cfg: Config)
    requires Shaped(s, cfg) && CanStep(s, e)
    ensures var pc, next := PcOf(s, e.thread), NextPC(s, e, cfg);
      Awaits(next).Some? ==> Awaits(pc) == Awaits(next) || (pc.Register? && pc.key in s.flights && s.flights[pc.key] == Awaits(next).value)
  {
  }

  // ---------- shards ----------

  ghost predicate ShardsRight(s: State, cfg: Config)
    requires Shaped(s, cfg)
  {
    forall i :: 0 <= i < RC.SHARDS ==> RC.Sound(s.shards[i], cfg.budgets[i], cfg.maxEntry)
  }

  lemma StepShards(s: State, e: Event, cfg: Config)
    requires Shaped(s, cfg) && CanStep(s, e) && ShardsRight(s, cfg)
    ensures Shaped(Step(s, e, cfg), cfg) && true == ShardsRight(Step(s, e, cfg), cfg)
  {
    var pc := PcOf(s, e.thread);
    if pc.GetRead? {
      var i := RC.ShardOf(pc.key);
      RC.TouchedIsSound(s.shards[i], pc.key, cfg.budgets[i], cfg.maxEntry);
    } else if pc.AddStore? {
      var i := RC.ShardOf(pc.entry.key);
      RC.AddedIsSound(s.shards[i], pc.entry, cfg.budgets[i], cfg.maxEntry);
    }
  }

  // ---------- every reachable state ----------

  ghost predicate Right(s: State, cfg: Config) {
    Shaped(s, cfg) && LocksRight(s) && TicketsRight(s) && FlightsRight(s) && WaitsRight(s) && ShardsRight(s, cfg)
  }

  /** Every step of every interleaving keeps the invariant. */
  lemma StepRight(s: State, e: Event, cfg: Config)
    requires Right(s, cfg) && CanStep(s, e)
    ensures true == Right(Step(s, e, cfg), cfg)
  {
    StepLocks(s, e, cfg);
    StepTickets(s, e, cfg);
    StepFlights(s, e, cfg);
    StepWaits(s, e, cfg);
    StepShards(s, e, cfg);
  }

  /** A new cache and threads that have called nothing yet. */
  function Initial(threads: set<nat>): State {
    State(true, map[], {}, 0, None, map[], seq(RC.SHARDS, _ => []), map t | t in threads :: Thread(Idle, {}))
  }

  lemma InitialRight(threads: set<nat>, cfg: Config)
    requires |cfg.budgets| == RC.SHARDS
    ensures true == Right(Initial(threads), cfg)
  {
  }

  ghost predicate IsRun(s: State, events: seq<Event>, cfg: Config)
    requires Shaped(s, cfg)
    decreases |events|
  {
    events == [] || (CanStep(s, events[0]) && IsRun(Step(s, events[0], cfg), events[1..], cfg))
  }

  function Final(s: State, events: seq<Event>, cfg: Config): State
    requires Shaped(s, cfg) && IsRun(s, events, cfg)
    decreases |events|
  {
    if events == [] then s else Final(Step(s, events[0], cfg), events[1..], cfg)
  }

  /** So the invariant holds after every run of any length by any threads. */
  lemma {:induction false} RunRight(s: State, events: seq<Event>, cfg: Config)
    requires Right(s, cfg) && IsRun(s, events, cfg)
    ensures true == Right(Final(s, events, cfg), cfg)
    decreases |events|
  {
    if events != [] {
      StepRight(s, events[0], cfg);
      RunRight(Step(s, events[0], cfg), events[1..], cfg);
    }
  }

  /** The invariant holds in every reachable state. */
  lemma ReachableRight(threads: set<nat>, events: seq<Event>, cfg: Config)
    requires |cfg.budgets| == RC.SHARDS && IsRun(Initial(threads), events, cfg)
    ensures true == Right(Final(Initial(threads), events, cfg), cfg)
  {
    InitialRight(threads, cfg);
    RunRight(Initial(threads), events, cfg);
  }

  // ---------- single flight ----------

  /** At most one producer per key, and one exactly when the key is in the flights table. */
  lemma OneProducer(s: State, cfg: Config, key: Key)
    requires Right(s, cfg)
    ensures key in s.flights <==> exists t, f :: InHand(s, t, Ticket(key, f))
    ensures forall t, u, f, g :: InHand(s, t, Ticket(key, f)) && InHand(s, u, Ticket(key, g)) ==> t == u && f == g
  {
    if key in s.flights {
      assert HasProducer(s, key);
    }
    forall t, f | InHand(s, t, Ticket(key, f))
      ensures key in s.flights && s.flights[key] == f
    {
      assert Listed(s, Ticket(key, f));
    }
  }

  /** A release takes its own flight out of the table and no other. */
  lemma ReleaseDeletesOwn(s: State, e: Event, cfg: Config)
    requires Right(s, cfg) && CanStep(s, e) && PcOf(s, e.thread).Delete?
    ensures var ticket := PcOf(s, e.thread).ticket;
      && ticket.key in s.flights && s.flights[ticket.key] == ticket.flight
      && Step(s, e, cfg).flights == s.flights - {ticket.key} && !IsListed(Step(s, e, cfg), ticket.flight)
  {
    var ticket := PcOf(s, e.thread).ticket;
    assert PointRight(s, e.thread);
    assert Listed(s, ticket);
  }

  /** While nobody holds the flights lock, a waiter's flight is closed, or it is in the table
      and its producer still has the ticket: no waiter is left behind. */
  lemma WaiterIsServed(s: State, cfg: Config, t: nat)
    requires Right(s, cfg) && s.flightsLock.None? && t in s.threads && PcOf(s, t).Waiting?
    ensures var f := PcOf(s, t).flight;
      f in s.closed || exists u, key :: key in s.flights && s.flights[key] == f && InHand(s, u, Ticket(key, f))
  {
    var f := PcOf(s, t).flight;
    assert Attended(s, f);
    forall u | u in s.threads
      ensures !Closing(s, u, f)
    {
      assert OwnsRight(s, u);
    }
    if f !in s.closed {
      var key :| key in s.flights && s.flights[key] == f;
      assert HasProducer(s, key);
    }
  }

  // ---------- a late arrival ----------

  ghost predicate Produces(s: State, t: nat, key: Key) {
    exists f :: InHand(s, t, Ticket(key, f))
  }

  /** The key an Add in progress is for. */
  function Adding(pc: PC): Option<Key> {
    match pc
    case AddFlag(e) => Some(e.key)
    case AddLock(e) => Some(e.key)
    case AddRecheck(e) => Some(e.key)
    case AddStore(e) => Some(e.key)
    case AddUnlock(e) => Some(e.key)
    case _ => None
  }

  /** The key that a thread has missed for the second time, under the flights lock. */
  function SecondMiss(pc: PC): Option<Key> {
    match pc
    case GetUnlock(key, mode, hit) => if mode.Guarded? && !hit then Some(key) else None
    case Register(key) => Some(key)
    case _ => None
  }

  /** Nothing was published behind a second miss: its key is in flight, or not in the cache. */
  ghost predicate MissStands(s: State, key: Key)
    requires |s.shards| == RC.SHARDS
  {
    key in s.flights || !InCache(s, key)
  }

  /** Two ways for a second miss to be none: the look found the cache off, or a thread that holds
      no ticket for the key stored it behind the look. */
  datatype Marks = Marks(off: set<nat>, overtaken: set<nat>)

  ghost function MissedBy(s: State, key: Key): set<nat> {
    set u | u in s.threads && SecondMiss(PcOf(s, u)) == Some(key)
  }

  /** Each second look starts a thread afresh. */
  ghost function NextMarks(s: State, e: Event, m: Marks): Marks
    requires e.thread in s.threads
  {
    var t, pc := e.thread, PcOf(s, e.thread);
    if pc.GetFlag? && pc.mode.Guarded? then
      Marks(if s.enabled then m.off - {t} else m.off + {t}, m.overtaken - {t})
    else if pc.AddStore? && !Produces(s, t, pc.entry.key) then
      m.(overtaken := m.overtaken + MissedBy(s, pc.entry.key))
    else m
  }

  ghost function MarksAfter(s: State, events: seq<Event>, cfg: Config, m: Marks): Marks
    requires Shaped(s, cfg) && IsRun(s, events, cfg)
    decreases |events|
  {
    if events == [] then m else MarksAfter(Step(s, events[0], cfg), events[1..], cfg, NextMarks(s, events[0], m))
  }

  ghost predicate MissesRight(s: State, m: Marks)
    requires |s.shards| == RC.SHARDS
  {
    forall t :: t in s.threads ==> MissRight(s, m, t)
  }

  ghost predicate MissRight(s: State, m: Marks, t: nat)
    requires |s.shards| == RC.SHARDS && t in s.threads
  {
    SecondMiss(PcOf(s, t)).Some? && t !in m.off && t !in m.overtaken ==> MissStands(s, SecondMiss(PcOf(s, t)).value)
  }

  /** A step publishes only a key whose producer takes it. */
  lemma StepPublishes(s: State, e: Event, cfg: Config, key: Key)
    requires Shaped(s, cfg) && CanStep(s, e) && InCache(Step(s, e, cfg), key)
    ensures InCache(s, key) || (PcOf(s, e.thread).AddStore? && PcOf(s, e.thread).entry.key == key)
  {
    var pc := PcOf(s, e.thread);
    if pc.GetRead? && RC.ShardOf(pc.key) == RC.ShardOf(key) {
      RC.TouchedBringsNone(s.shards[RC.ShardOf(key)], pc.key, key);
    } else if pc.AddStore? && RC.ShardOf(pc.entry.key) == RC.ShardOf(key) && pc.entry.key != key {
      RC.AddedBringsOne(s.shards[RC.ShardOf(key)], pc.entry, cfg.budgets[RC.ShardOf(key)], cfg.maxEntry, key);
    }
  }

  /** While the flights lock is held, a second miss stands through the steps of the others. */
  lemma MissKept(s: State, e: Event, cfg: Config, m: Marks, u: nat)
    requires Shaped(s, cfg) && CanStep(s, e) && u in s.threads && u != e.thread && SecondMiss(PcOf(s, u)).Some?
    requires true == LocksRight(s) && true == TicketsRight(s) && MissRight(s, m, u)
    requires u !in NextMarks(s, e, m).off && u !in NextMarks(s, e, m).overtaken
    ensures MissStands(Step(s, e, cfg), SecondMiss(PcOf(s, u)).value)
  {
    var key := SecondMiss(PcOf(s, u)).value;
    assert OwnsRight(s, u) && OwnsRight(s, e.thread);
    if InCache(Step(s, e, cfg), key) {
      StepPublishes(s, e, cfg, key);
      if !InCache(s, key) {
        assert u in MissedBy(s, key);
        var f :| InHand(s, e.thread, Ticket(key, f));
        assert Listed(s, Ticket(key, f));
      }
    }
  }

  /** A second miss is a read that found nothing, unless the look found the cache off. */
  lemma MissMoves(s: State, e: Event, cfg: Config, m: Marks)
    requires Shaped(s, cfg) && CanStep(s, e) && MissRight(s, m, e.thread)
    requires SecondMiss(NextPC(s, e, cfg)).Some? && e.thread !in NextMarks(s, e, m).off && e.thread !in NextMarks(s, e, m).overtaken
    ensures |Step(s, e, cfg).shards| == RC.SHARDS && MissStands(Step(s, e, cfg), SecondMiss(NextPC(s, e, cfg)).value)
  {
    var pc, key := PcOf(s, e.thread), SecondMiss(NextPC(s, e, cfg)).value;
    assert pc == GetRead(key, Guarded) || pc == GetUnlock(key, Guarded, false);
    if InCache(Step(s, e, cfg), key) {
      StepPublishes(s, e, cfg, key);
    }
  }

  lemma StepMisses(s: State, e: Event, cfg: Config, m: Marks)
    requires Right(s, cfg) && CanStep(s, e) && MissesRight(s, m)
    ensures |Step(s, e, cfg).shards| == RC.SHARDS && MissesRight(Step(s, e, cfg), NextMarks(s, e, m))
  {
    var r, n := Step(s, e, cfg), NextMarks(s, e, m);
    forall u | u in r.threads
      ensures MissRight(r, n, u)
    {
      assert MissRight(s, m, u);
      if SecondMiss(PcOf(r, u)).Some? && u !in n.off && u !in n.overtaken {
        if u == e.thread {
          MissMoves(s, e, cfg, m);
        } else {
          MissKept(s, e, cfg, m, u);
        }
      }
    }
  }

  lemma {:induction false} RunMisses(s: State, events: seq<Event>, cfg: Config, m: Marks)
    requires Right(s, cfg) && IsRun(s, events, cfg) && MissesRight(s, m)
    ensures |Final(s, events, cfg).shards| == RC.SHARDS
    ensures MissesRight(Final(s, events, cfg), MarksAfter(s, events, cfg, m))
    decreases |events|
  {
    if events != [] {
      StepRight(s, events[0], cfg);
      StepMisses(s, events[0], cfg, m);
      RunMisses(Step(s, events[0], cfg), events[1..], cfg, NextMarks(s, events[0], m));
    }
  }

  /** In every run of any calls, a thread that opens a flight for a key in the cache is marked: its
      own second look found the cache off, or somebody without a ticket stored the key since. */
  lemma LateProducerIsMarked(threads: set<nat>, events: seq<Event>, cfg: Config, t: nat)
    requires |cfg.budgets| == RC.SHARDS && IsRun(Initial(threads), events, cfg)
    requires var s := Final(Initial(threads), events, cfg); t in s.threads && Opens(s, PcOf(s, t))
    ensures var s := Final(Initial(threads), events, cfg);
      var m := MarksAfter(Initial(threads), events, cfg, Marks({}, {}));
      |s.shards| == RC.SHARDS && (InCache(s, PcOf(s, t).key) ==> t in m.off || t in m.overtaken)
  {
    InitialRight(threads, cfg);
    RunMisses(Initial(threads), events, cfg, Marks({}, {}));
    assert MissRight(Final(Initial(threads), events, cfg), MarksAfter(Initial(threads), events, cfg, Marks({}, {})), t);
  }

  /** A thread adds only a key that it holds a ticket for. */
  predicate AddsOwn(s: State, e: Event)
    requires e.thread in s.threads
  {
    PcOf(s, e.thread).Idle? && e.call.DoAdd? ==> exists ticket :: ticket in s.threads[e.thread].tickets && ticket.key == e.call.entry.key
  }

  ghost predicate ProducersAdd(s: State, events: seq<Event>, cfg: Config)
    requires Shaped(s, cfg) && IsRun(s, events, cfg)
    decreases |events|
  {
    events == [] || (AddsOwn(s, events[0]) && ProducersAdd(Step(s, events[0], cfg), events[1..], cfg))
  }

  ghost predicate AddersRight(s: State) {
    forall t :: t in s.threads && Adding(PcOf(s, t)).Some? ==> Produces(s, t, Adding(PcOf(s, t)).value)
  }

  /** An Add keeps its ticket to the end: the producer releases it afterwards. */
  lemma AddersMove(s: State, e: Event, cfg: Config)
    requires Shaped(s, cfg) && CanStep(s, e) && AddersRight(s) && AddsOwn(s, e)
    ensures AddersRight(Step(s, e, cfg))
  {
    var r := Step(s, e, cfg);
    forall t | t in r.threads && Adding(PcOf(r, t)).Some?
      ensures Produces(r, t, Adding(PcOf(r, t)).value)
    {
      var key := Adding(PcOf(r, t)).value;
      if t == e.thread && PcOf(s, t).Idle? {
        var ticket :| ticket in s.threads[t].tickets && ticket.key == key;
        assert InHand(r, t, Ticket(key, ticket.flight));
      } else {
        assert Produces(s, t, key);
        var f :| InHand(s, t, Ticket(key, f));
        assert InHand(r, t, Ticket(key, f));
      }
    }
  }

  /** When only producers add, nobody is overtaken. */
  lemma {:induction false} NobodyOvertaken(s: State, events: seq<Event>, cfg: Config, m: Marks)
    requires Shaped(s, cfg) && IsRun(s, events, cfg) && ProducersAdd(s, events, cfg) && AddersRight(s) && m.overtaken == {}
    ensures MarksAfter(s, events, cfg, m).overtaken == {}
    decreases |events|
  {
    if events != [] {
      AddersMove(s, events[0], cfg);
      NobodyOvertaken(Step(s, events[0], cfg), events[1..], cfg, NextMarks(s, events[0], m));
    }
  }

  /** A late arrival never becomes a second producer of a published key: in every run in which
      producers add, with the cache turned on and off at any time, whoever opens a flight does so
      for a key that is not in the cache, unless its own second look found the cache off. */
  lemma NoLateProducer(threads: set<nat>, events: seq<Event>, cfg: Config, t: nat)
    requires |cfg.budgets| == RC.SHARDS && IsRun(Initial(threads), events, cfg) && ProducersAdd(Initial(threads), events, cfg)
    requires var s := Final(Initial(threads), events, cfg); t in s.threads && Opens(s, PcOf(s, t))
    requires t !in MarksAfter(Initial(threads), events, cfg, Marks({}, {})).off
    ensures var s := Final(Initial(threads), events, cfg); |s.shards| == RC.SHARDS && !InCache(s, PcOf(s, t).key)
  {
    LateProducerIsMarked(threads, events, cfg, t);
    NobodyOvertaken(Initial(threads), events, cfg, Marks({}, {}));
  }

  /** A second look that finds the cache off is no second look: the thread goes on to open a
      flight for a key that is still in the cache. */
  lemma OffLookOpens(s: State, e: Event, cfg: Config, key: Key)
    requires Shaped(s, cfg) && CanStep(s, e) && PcOf(s, e.thread) == GetFlag(key, Guarded)
    requires key !in s.flights && InCache(s, key)
    ensures var r := Step(s, e, cfg);
      |r.shards| == RC.SHARDS && InCache(r, key) && (Opens(r, PcOf(r, e.thread)) <==> !s.enabled)
  {
    StepShaped(s, e, cfg);
  }

  ghost predicate NoDisable(s: State, events: seq<Event>, cfg: Config)
    requires Shaped(s, cfg) && IsRun(s, events, cfg)
    decreases |events|
  {
    events == [] || (
      && !(PcOf(s, events[0].thread).Idle? && events[0].call.DoDisableAndClear?)
      && NoDisable(Step(s, events[0], cfg), events[1..], cfg))
  }

  /** The cache is on and no call is about to turn it off. */
  ghost predicate StaysOn(s: State) {
    s.enabled && forall t :: t in s.threads ==> !PcOf(s, t).Disable?
  }

  lemma {:induction false} NobodyLooksOff(s: State, events: seq<Event>, cfg: Config, m: Marks)
    requires Shaped(s, cfg) && IsRun(s, events, cfg) && NoDisable(s, events, cfg) && StaysOn(s) && m.off == {}
    ensures MarksAfter(s, events, cfg, m).off == {}
    decreases |events|
  {
    if events != [] {
      NobodyLooksOff(Step(s, events[0], cfg), events[1..], cfg, NextMarks(s, events[0], m));
    }
  }

  /** So with the cache left on, one producer at a time works for a key and none after it was
      published, for as long as it stays in the cache. */
  lemma NoLateProducerWhileOn(threads: set<nat>, events: seq<Event>, cfg: Config, t: nat)
    requires |cfg.budgets| == RC.SHARDS && IsRun(Initial(threads), events, cfg)
    requires ProducersAdd(Initial(threads), events, cfg) && NoDisable(Initial(threads), events, cfg)
    requires var s := Final(Initial(threads), events, cfg); t in s.threads && Opens(s, PcOf(s, t))
    ensures var s := Final(Initial(threads), events, cfg); |s.shards| == RC.SHARDS && !InCache(s, PcOf(s, t).key)
  {
    NobodyLooksOff(Initial(threads), events, cfg, Marks({}, {}));
    NoLateProducer(threads, events, cfg, t);
  }

  // ---------- lock order ----------

  /** Locks are taken flights first, then at most one shard. */
  lemma LockOrder(pc: PC)
    ensures HoldsShard(pc).Some? ==> WantsShard(pc).None? && !WantsFlights(pc)
    ensures HoldsFlights(pc) ==> !WantsFlights(pc)
  {
  }

  /** A thread that holds a lock is in the middle of a call, so it steps unless it wants one. */
  lemma HolderSteps(s: State, t: nat, call: Call)
    requires t in s.threads && (HoldsFlights(PcOf(s, t)) || HoldsShard(PcOf(s, t)).Some?)
    requires WantsShard(PcOf(s, t)).Some? ==> WantsShard(PcOf(s, t)).value !in s.locks
    ensures CanStep(s, Event(t, call))
  {
  }

  ghost predicate HoldsLock(s: State, t: nat) {
    t in s.threads && (HoldsFlights(PcOf(s, t)) || HoldsShard(PcOf(s, t)).Some?)
  }

  /** Whenever a lock keeps a thread waiting, a thread that holds a lock can step: locks never
      deadlock. */
  lemma LockHolderMoves(s: State, cfg: Config, t: nat) returns (u: nat)
    requires Right(s, cfg) && t in s.threads
    requires (WantsFlights(PcOf(s, t)) && s.flightsLock.Some?) || (WantsShard(PcOf(s, t)).Some? && WantsShard(PcOf(s, t)).value in s.locks)
    ensures HoldsLock(s, u) && forall call :: CanStep(s, Event(u, call))
  {
    var blocked := WantsShard(PcOf(s, t));
    if WantsFlights(PcOf(s, t)) {
      u := s.flightsLock.value;
      assert OwnsRight(s, u);
      blocked := WantsShard(PcOf(s, u));
    }
    if blocked.Some? && blocked.value in s.locks {
      u := s.locks[blocked.value];
      assert OwnsRight(s, u);
      LockOrder(PcOf(s, u));
    }
    forall call
      ensures CanStep(s, Event(u, call))
    {
      HolderSteps(s, u, call);
    }
  }

  // ---------- a disabled cache stays empty ----------

  /** The shard is empty, the cache is off, and no thread is past its second look at the flag. */
  ghost predicate Sealed(s: State, i: nat) {
    && !s.enabled && i < |s.shards| && s.shards[i] == []
    && forall t :: t in s.threads && PcOf(s, t).AddStore? ==> RC.ShardOf(PcOf(s, t).entry.key) != i
  }

  /** The holder of a shard's lock is alone past the second look at the flag. */
  lemma NobodyStores(s: State, t: nat, i: nat)
    requires LocksRight(s) && t in s.threads && HoldsShard(PcOf(s, t)) == Some(i) && !PcOf(s, t).AddStore?
    ensures forall u :: u in s.threads && PcOf(s, u).AddStore? ==> RC.ShardOf(PcOf(s, u).entry.key) != i
  {
    assert OwnsRight(s, t);
    forall u | u in s.threads && PcOf(s, u).AddStore?
      ensures RC.ShardOf(PcOf(s, u).entry.key) != i
    {
      assert OwnsRight(s, u);
    }
  }

  /** Clearing a shard while the cache is off seals it, whatever the other threads have begun. */
  lemma ClearSeals(s: State, e: Event, cfg: Config)
    requires Right(s, cfg) && CanStep(s, e) && PcOf(s, e.thread).ClearDo? && PcOf(s, e.thread).shard < RC.SHARDS && !s.enabled
    ensures Sealed(Step(s, e, cfg), PcOf(s, e.thread).shard)
  {
    NobodyStores(s, e.thread, PcOf(s, e.thread).shard);
  }

  predicate IsEnable(s: State, e: Event)
    requires e.thread in s.threads
  {
    Enables(PcOf(s, e.thread), e.call)
  }

  /** Only Enable breaks the seal. */
  lemma SealHolds(s: State, e: Event, cfg: Config, i: nat)
    requires Shaped(s, cfg) && CanStep(s, e) && Sealed(s, i) && !IsEnable(s, e)
    ensures Sealed(Step(s, e, cfg), i)
  {
  }

  ghost predicate NoEnable(s: State, events: seq<Event>, cfg: Config)
    requires Shaped(s, cfg) && IsRun(s, events, cfg)
    decreases |events|
  {
    events == [] || (!IsEnable(s, events[0]) && NoEnable(Step(s, events[0], cfg), events[1..], cfg))
  }

  /** Once DisableAndClear has cleared a shard with the cache off, the shard stays empty after
      every run without an Enable, with Adds in flight that saw the cache on. */
  lemma {:induction false} SealedUntilEnable(s: State, events: seq<Event>, cfg: Config, i: nat)
    requires Shaped(s, cfg) && IsRun(s, events, cfg) && NoEnable(s, events, cfg) && Sealed(s, i)
    ensures Sealed(Final(s, events, cfg), i)
    decreases |events|
  {
    if events != [] {
      SealHolds(s, events[0], cfg, i);
      SealedUntilEnable(Step(s, events[0], cfg), events[1..], cfg, i);
    }
  }

  // ---------- clearing a shard of an enabled cache ----------

  /** A run without Enable that leaves something in the shard. */
  ghost predicate Fills(s: State, events: seq<Event>, cfg: Config, i: nat)
    requires Shaped(s, cfg) && i < RC.SHARDS
  {
    IsRun(s, events, cfg) && NoEnable(s, events, cfg) && HasSome(Final(s, events, cfg), i)
  }

  predicate HasSome(s: State, i: nat) {
    i < |s.shards| && s.shards[i] != []
  }

  lemma StepShaped(s: State, e: Event, cfg: Config)
    requires Shaped(s, cfg) && CanStep(s, e)
    ensures Shaped(Step(s, e, cfg), cfg)
  {
  }

  lemma FillsOneEarlier(s: State, e: Event, rest: seq<Event>, cfg: Config, i: nat)
    requires Shaped(s, cfg) && i < RC.SHARDS && CanStep(s, e) && !IsEnable(s, e)
    requires Shaped(Step(s, e, cfg), cfg) && Fills(Step(s, e, cfg), rest, cfg, i)
    ensures Fills(s, [e] + rest, cfg, i)
  {
    assert ([e] + rest)[1..] == rest;
  }

  lemma FillsFromStore(s: State, e: Event, cfg: Config, entry: RC.Entry)
    requires Shaped(s, cfg) && CanStep(s, e) && PcOf(s, e.thread) == AddStore(entry) && Fits(cfg, entry)
    ensures Fills(s, [e], cfg, RC.ShardOf(entry.key))
  {
    var i := RC.ShardOf(entry.key);
    StepShaped(s, e, cfg);
    RC.AddedKeepsNew(s.shards[i], entry, cfg.budgets[i], cfg.maxEntry);
    assert HasSome(Step(s, e, cfg), i);
    assert Fills(Step(s, e, cfg), [], cfg, i);
    FillsOneEarlier(s, e, [], cfg, i);
    assert [e] + [] == [e];
  }

  lemma FillsFromRecheck(s: State, e: Event, cfg: Config, entry: RC.Entry)
    requires Shaped(s, cfg) && CanStep(s, e) && PcOf(s, e.thread) == AddRecheck(entry) && Fits(cfg, entry) && s.enabled
    ensures Fills(s, [e] + [e], cfg, RC.ShardOf(entry.key))
  {
    StepShaped(s, e, cfg);
    FillsFromStore(Step(s, e, cfg), e, cfg, entry);
    FillsOneEarlier(s, e, [e], cfg, RC.ShardOf(entry.key));
  }

  lemma FillsFromLock(s: State, e: Event, cfg: Config, entry: RC.Entry)
    requires Shaped(s, cfg) && CanStep(s, e) && PcOf(s, e.thread) == AddLock(entry) && Fits(cfg, entry) && s.enabled
    ensures Fills(s, [e] + ([e] + [e]), cfg, RC.ShardOf(entry.key))
  {
    StepShaped(s, e, cfg);
    FillsFromRecheck(Step(s, e, cfg), e, cfg, entry);
    FillsOneEarlier(s, e, [e] + [e], cfg, RC.ShardOf(entry.key));
  }

  lemma FillsFromFlag(s: State, e: Event, cfg: Config, entry: RC.Entry)
    requires Shaped(s, cfg) && CanStep(s, e) && PcOf(s, e.thread) == AddFlag(entry) && Fits(cfg, entry) && s.enabled
    requires RC.ShardOf(entry.key) !in s.locks
    ensures Fills(s, [e] + ([e] + ([e] + [e])), cfg, RC.ShardOf(entry.key))
  {
    StepShaped(s, e, cfg);
    FillsFromLock(Step(s, e, cfg), e, cfg, entry);
    FillsOneEarlier(s, e, [e] + ([e] + [e]), cfg, RC.ShardOf(entry.key));
  }

  /** An Add that begins while the cache is on and the shard's lock is free fills the shard. */
  lemma FillsFromIdle(s: State, e: Event, cfg: Config, entry: RC.Entry)
    requires Shaped(s, cfg) && CanStep(s, e) && PcOf(s, e.thread).Idle? && e.call == DoAdd(entry) && Fits(cfg, entry) && s.enabled
    requires RC.ShardOf(entry.key) !in s.locks
    ensures Fills(s, [e] + ([e] + ([e] + ([e] + [e]))), cfg, RC.ShardOf(entry.key))
  {
    StepShaped(s, e, cfg);
    FillsFromFlag(Step(s, e, cfg), e, cfg, entry);
    FillsOneEarlier(s, e, [e] + ([e] + ([e] + [e])), cfg, RC.ShardOf(entry.key));
  }

  /** A thread has just cleared the shard and still holds its lock; another one is idle. */
  ghost predicate JustCleared(s: State, cfg: Config, t: nat, i: nat, other: nat) {
    && Shaped(s, cfg) && t in s.threads && i < RC.SHARDS && PcOf(s, t) == ClearUnlock(i) && s.shards[i] == []
    && other in s.threads && other != t && PcOf(s, other).Idle?
  }

  /** When the cache is on as a shard is cleared, because an Enable came between the clearing
      call's first step and this shard, nothing is sealed: an Add that begins later fills the
      shard without another Enable. */
  lemma OpenRefills(s: State, cfg: Config, t: nat, entry: RC.Entry, other: nat) returns (events: seq<Event>)
    requires JustCleared(s, cfg, t, RC.ShardOf(entry.key), other) && s.enabled && Fits(cfg, entry)
    ensures Fills(s, events, cfg, RC.ShardOf(entry.key))
  {
    var i := RC.ShardOf(entry.key);
    var unlock, add := Event(t, DoAdd(entry)), Event(other, DoAdd(entry));
    StepShaped(s, unlock, cfg);
    FillsFromIdle(Step(s, unlock, cfg), add, cfg, entry);
    events := [add] + ([add] + ([add] + ([add] + [add])));
    FillsOneEarlier(s, unlock, events, cfg, i);
    events := [unlock] + events;
  }

  /** Clearing a shard keeps it empty until the next Enable exactly when the cache was off at
      that moment. */
  lemma ClearedForGood(s: State, cfg: Config, t: nat, entry: RC.Entry, other: nat)
    requires Right(s, cfg) && JustCleared(s, cfg, t, RC.ShardOf(entry.key), other) && Fits(cfg, entry)
    ensures (exists events :: Fills(s, events, cfg, RC.ShardOf(entry.key))) <==> s.enabled
  {
    var i := RC.ShardOf(entry.key);
    if s.enabled {
      var events := OpenRefills(s, cfg, t, entry, other);
    } else {
      NobodyStores(s, t, i);
      forall events
        ensures !Fills(s, events, cfg, i)
      {
        if IsRun(s, events, cfg) && NoEnable(s, events, cfg) {
          SealedUntilEnable(s, events, cfg, i);
        }
      }
    }
  }

  /** The state is reached by a run of the events. */
  ghost predicate Reaches(s: State, events: seq<Event>, cfg: Config, r: State)
    requires Shaped(s, cfg)
  {
    IsRun(s, events, cfg) && Final(s, events, cfg) == r
  }

  lemma ReachesOneEarlier(s: State, e: Event, rest: seq<Event>, cfg: Config, r: State)
    requires Shaped(s, cfg) && CanStep(s, e) && Shaped(Step(s, e, cfg), cfg) && Reaches(Step(s, e, cfg), rest, cfg, r)
    ensures Reaches(s, [e] + rest, cfg, r)
  {
    assert ([e] + rest)[1..] == rest;
  }

  /** It can happen: another thread enables the cache after a clearing call has turned it off
      and before that call reaches the first shard. */
  lemma EnableInterleaves(cfg: Config) returns (events: seq<Event>, r: State)
    requires |cfg.budgets| == RC.SHARDS
    ensures Reaches(Initial({0, 1}), events, cfg, r) && JustCleared(r, cfg, 0, 0, 1) && r.enabled
  {
    var clear, enable := Event(0, DoDisableAndClear), Event(1, DoEnable);
    var s := Initial({0, 1});
    StepShaped(s, clear, cfg);
    var a := Step(s, clear, cfg);
    StepShaped(a, clear, cfg);
    var b := Step(a, clear, cfg);
    r := FinishesOpen(b, cfg);
    events := [enable] + ([clear] + ([clear] + []));
    ReachesOneEarlier(a, clear, events, cfg, r);
    events := [clear] + events;
    ReachesOneEarlier(s, clear, events, cfg, r);
    events := [clear] + events;
  }

  lemma FinishesOpen(b: State, cfg: Config) returns (r: State)
    requires Shaped(b, cfg) && b.threads == map[0 := Thread(ClearLock(0), {}), 1 := Thread(Idle, {})] && b.locks == map[]
    ensures Reaches(b, [Event(1, DoEnable)] + ([Event(0, DoDisableAndClear)] + ([Event(0, DoDisableAndClear)] + [])), cfg, r)
    ensures JustCleared(r, cfg, 0, 0, 1) && r.enabled
  {
    var clear, enable := Event(0, DoDisableAndClear), Event(1, DoEnable);
    StepShaped(b, enable, cfg);
    r := ClearsOpen(Step(b, enable, cfg), cfg);
    ReachesOneEarlier(b, enable, [clear] + ([clear] + []), cfg, r);
  }

  lemma ClearsOpen(c: State, cfg: Config) returns (r: State)
    requires Shaped(c, cfg) && c.locks == map[] && c.enabled && c.threads.Keys == {0, 1}
    requires PcOf(c, 0) == ClearLock(0) && PcOf(c, 1).Idle?
    ensures Reaches(c, [Event(0, DoDisableAndClear)] + ([Event(0, DoDisableAndClear)] + []), cfg, r)
    ensures JustCleared(r, cfg, 0, 0, 1) && r.enabled
  {
    var clear := Event(0, DoDisableAndClear);
    StepShaped(c, clear, cfg);
    var d := Step(c, clear, cfg);
    StepShaped(d, clear, cfg);
    r := Step(d, clear, cfg);
    ReachesOneEarlier(d, clear, [], cfg, r);
    ReachesOneEarlier(c, clear, [clear] + [], cfg, r);
  }

  lemma {:induction false} RunsJoin(s: State, first: seq<Event>, mid: State, rest: seq<Event>, cfg: Config)
    requires Shaped(s, cfg) && Shaped(mid, cfg) && Reaches(s, first, cfg, mid) && IsRun(mid, rest, cfg)
    ensures Reaches(s, first + rest, cfg, Final(mid, rest, cfg))
    decreases |first|
  {
    if first == [] {
      assert first + rest == rest;
    } else {
      StepShaped(s, first[0], cfg);
      RunsJoin(Step(s, first[0], cfg), first[1..], mid, rest, cfg);
      assert first + rest == [first[0]] + (first[1..] + rest);
      ReachesOneEarlier(s, first[0], first[1..] + rest, cfg, Final(mid, rest, cfg));
    }
  }

  /** The whole failing run, on a cache whose first shard has room for one empty response: the
      clearing call turns the cache off, an Enable interleaves, the call clears shard zero, and
      without another Enable an Add that begins after that fills it. */
  lemma ClearedShardRefills(cfg: Config) returns (before: seq<Event>, cleared: State, after: seq<Event>)
    requires |cfg.budgets| == RC.SHARDS && cfg.budgets[0] >= RC.SizeOf(RC.Entry(RC.IN_SHARD_ZERO, []))
    ensures Shaped(Initial({0, 1}), cfg) && Reaches(Initial({0, 1}), before, cfg, cleared)
    ensures JustCleared(cleared, cfg, 0, 0, 1) && Fills(cleared, after, cfg, 0)
    ensures IsRun(Initial({0, 1}), before + after, cfg) && HasSome(Final(Initial({0, 1}), before + after, cfg), 0)
  {
    var entry := RC.Entry(RC.IN_SHARD_ZERO, []);
    RC.HashOfFive();
    before, cleared := EnableInterleaves(cfg);
    after := OpenRefills(cleared, cfg, 0, entry, 1);
    RunsJoin(Initial({0, 1}), before, cleared, after, cfg);
  }
}

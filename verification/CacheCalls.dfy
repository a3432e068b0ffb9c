/** What a call of the cache comes to, told over the states and steps of a run: when an Acquire, a
    Get, an Add or a release may end, and what it has seen or done by then. */
module CacheCalls {
  import opened Bytes
  import opened CacheProtocol
  import opened CacheUse
  import RC = ResponseCache

  /** The states of a run, and the step from each to the next. */
  datatype Trace = Trace(states: seq<State>, events: seq<Event>)

  ghost predicate IsTrace(tr: Trace, cfg: Config) {
    && |cfg.budgets| == RC.SHARDS && |tr.states| == |tr.events| + 1
    && (forall k :: 0 <= k < |tr.states| ==> |tr.states[k].shards| == RC.SHARDS)
    && forall k :: 0 <= k < |tr.events| ==> StepsOn(tr, cfg, k)
  }

  ghost predicate StepsOn(tr: Trace, cfg: Config, k: nat)
    requires |cfg.budgets| == RC.SHARDS && k < |tr.events| && |tr.states| == |tr.events| + 1 && |tr.states[k].shards| == RC.SHARDS
  {
    CanStep(tr.states[k], tr.events[k]) && tr.states[k + 1] == Step(tr.states[k], tr.events[k], cfg)
  }

  /** Every run has a trace. */
  lemma {:induction false} RunIsTrace(s: State, events: seq<Event>, cfg: Config) returns (tr: Trace)
    requires Shaped(s, cfg) && IsRun(s, events, cfg)
    ensures IsTrace(tr, cfg) && tr.events == events && tr.states[0] == s && tr.states[|events|] == Final(s, events, cfg)
    decreases |events|
  {
    if events == [] {
      tr := Trace([s], []);
    } else {
      StepShaped(s, events[0], cfg);
      var rest := RunIsTrace(Step(s, events[0], cfg), events[1..], cfg);
      tr := Trace([s] + rest.states, events);
      forall k | 0 <= k < |events|
        ensures StepsOn(tr, cfg, k)
      {
        if k > 0 {
          assert StepsOn(rest, cfg, k - 1);
          assert tr.states[k] == rest.states[k - 1] && tr.events[k] == rest.events[k - 1];
        }
      }
    }
  }

  ghost predicate Takes(tr: Trace, t: nat, k: nat) {
    k < |tr.events| < |tr.states| && tr.events[k].thread == t
  }

  /** The thread's point before step k. */
  ghost predicate IsAt(tr: Trace, t: nat, k: nat, pc: PC) {
    k < |tr.states| && t in tr.states[k].threads && PcOf(tr.states[k], t) == pc
  }

  /** The thread makes the call with step i and is through with it before step j. */
  ghost predicate IsCall(tr: Trace, t: nat, i: nat, j: nat, call: Call) {
    && i < j < |tr.states| && Takes(tr, t, i) && tr.events[i].call == call
    && IsAt(tr, t, i, Idle) && IsAt(tr, t, j, Idle)
    && forall k :: i < k < j ==> !IsAt(tr, t, k, Idle)
  }

  /** Threads do not come or go, and a step moves its own thread alone. */
  lemma OthersStay(tr: Trace, cfg: Config, t: nat, k: nat)
    requires IsTrace(tr, cfg) && k < |tr.events| && t in tr.states[k].threads
    ensures t in tr.states[k + 1].threads
    ensures !Takes(tr, t, k) ==> tr.states[k + 1].threads[t] == tr.states[k].threads[t]
  {
    assert StepsOn(tr, cfg, k);
  }

  // ---------- what a step sees ----------

  /** The thread reads the key's shard under its lock. */
  ghost predicate ReadsAt(tr: Trace, t: nat, k: nat, key: Key) {
    Takes(tr, t, k) && (IsAt(tr, t, k, GetRead(key, Alone)) || IsAt(tr, t, k, GetRead(key, Early)) || IsAt(tr, t, k, GetRead(key, Guarded)))
  }

  /** And finds the key. */
  ghost predicate FindsAt(tr: Trace, t: nat, k: nat, key: Key) {
    ReadsAt(tr, t, k, key) && RC.ShardOf(key) < |tr.states[k].shards| && Has(tr.states[k].shards[RC.ShardOf(key)], key)
  }

  /** Acquire looks at the flag and finds the cache off. */
  ghost predicate FindsOffAt(tr: Trace, t: nat, k: nat, key: Key) {
    Takes(tr, t, k) && !tr.states[k].enabled && (IsAt(tr, t, k, Enter(key)) || IsAt(tr, t, k, Loop(key)) || IsAt(tr, t, k, CheckFlag(key)))
  }

  /** Under the flights lock, the thread finds nobody in flight for the key. */
  ghost predicate OpensAt(tr: Trace, t: nat, k: nat, key: Key) {
    Takes(tr, t, k) && IsAt(tr, t, k, Register(key)) && key !in tr.states[k].flights
  }

  /** Or finds a flight to wait for. */
  ghost predicate JoinsAt(tr: Trace, t: nat, k: nat, key: Key, f: nat) {
    Takes(tr, t, k) && IsAt(tr, t, k, Register(key)) && key in tr.states[k].flights && tr.states[k].flights[key] == f
  }

  /** From step m on, the thread has only given locks back. */
  ghost predicate OnlyUnlocks(tr: Trace, t: nat, m: nat, k: nat)
    requires k <= |tr.events| < |tr.states|
  {
    forall n :: m < n < k && Takes(tr, t, n) ==> t in tr.states[n].threads && DropsLock(PcOf(tr.states[n], t))
  }

  predicate DropsLock(pc: PC) {
    pc.GetUnlock? || pc.UnlockFlights?
  }

  // ---------- how an Acquire ends ----------

  ghost predicate EndsInHit(tr: Trace, t: nat, i: nat, k: nat, key: Key)
    requires k <= |tr.events| < |tr.states|
  {
    exists m :: i < m < k && FindsAt(tr, t, m, key) && OnlyUnlocks(tr, t, m, k)
  }

  ghost predicate EndsOff(tr: Trace, t: nat, i: nat, k: nat, key: Key)
    requires k <= |tr.events| < |tr.states|
  {
    exists m :: i < m < k && FindsOffAt(tr, t, m, key) && OnlyUnlocks(tr, t, m, k)
  }

  /** The ticket of the flight that the thread has opened is still in its hand. */
  ghost predicate EndsAsProducer(tr: Trace, t: nat, i: nat, k: nat, key: Key)
    requires k <= |tr.events| < |tr.states|
  {
    exists m :: i < m < k && OpensAt(tr, t, m, key) && OnlyUnlocks(tr, t, m, k) && InHand(tr.states[k], t, Ticket(key, tr.states[m].issued))
  }

  ghost predicate EndsInWait(tr: Trace, t: nat, i: nat, k: nat, key: Key, f: nat)
    requires k <= |tr.events| < |tr.states|
  {
    exists m :: i < m < k && JoinsAt(tr, t, m, key, f) && OnlyUnlocks(tr, t, m, k)
  }

  /** How far an Acquire has come, by the point it is at. */
  ghost predicate Acquiring(tr: Trace, t: nat, i: nat, k: nat, key: Key)
    requires k <= |tr.events| < |tr.states| && t in tr.states[k].threads
  {
    match PcOf(tr.states[k], t)
    case Enter(q) => q == key
    case Loop(q) => q == key
    case LockFlights(q) => q == key
    case CheckFlag(q) => q == key
    case Register(q) => q == key
    case Waiting(q, _) => q == key
    case GetFlag(q, mode) => q == key && !mode.Alone?
    case GetLock(q, mode) => q == key && !mode.Alone?
    case GetRead(q, mode) => q == key && !mode.Alone?
    case GetUnlock(q, mode, hit) => q == key && !mode.Alone? && (hit ==> EndsInHit(tr, t, i, k, key))
    case UnlockFlights(q, outcome) => q == key && match outcome {
        case Hit => EndsInHit(tr, t, i, k, key)
        case Bypass => EndsOff(tr, t, i, k, key)
        case Produce => EndsAsProducer(tr, t, i, k, key)
        case Await(f) => EndsInWait(tr, t, i, k, key, f)
      }
    case Idle => EndsInHit(tr, t, i, k, key) || EndsOff(tr, t, i, k, key) || EndsAsProducer(tr, t, i, k, key)
    case _ => false
  }

  lemma UnlocksOn(tr: Trace, t: nat, m: nat, k: nat)
    requires k < |tr.events| < |tr.states| && OnlyUnlocks(tr, t, m, k)
    requires Takes(tr, t, k) ==> t in tr.states[k].threads && DropsLock(PcOf(tr.states[k], t))
    ensures OnlyUnlocks(tr, t, m, k + 1)
  {
  }

  lemma HitStays(tr: Trace, t: nat, i: nat, k: nat, key: Key)
    requires k < |tr.events| < |tr.states| && t in tr.states[k].threads && (Takes(tr, t, k) ==> DropsLock(PcOf(tr.states[k], t)))
    requires EndsInHit(tr, t, i, k, key)
    ensures EndsInHit(tr, t, i, k + 1, key)
  {
    var m :| i < m < k && FindsAt(tr, t, m, key) && OnlyUnlocks(tr, t, m, k);
    UnlocksOn(tr, t, m, k);
  }

  lemma OffStays(tr: Trace, t: nat, i: nat, k: nat, key: Key)
    requires k < |tr.events| < |tr.states| && t in tr.states[k].threads && (Takes(tr, t, k) ==> DropsLock(PcOf(tr.states[k], t)))
    requires EndsOff(tr, t, i, k, key)
    ensures EndsOff(tr, t, i, k + 1, key)
  {
    var m :| i < m < k && FindsOffAt(tr, t, m, key) && OnlyUnlocks(tr, t, m, k);
    UnlocksOn(tr, t, m, k);
  }

  lemma ProducerStays(tr: Trace, cfg: Config, t: nat, i: nat, k: nat, key: Key)
    requires true == IsTrace(tr, cfg) && k < |tr.events| < |tr.states| && t in tr.states[k].threads
    requires (Takes(tr, t, k) ==> DropsLock(PcOf(tr.states[k], t))) && EndsAsProducer(tr, t, i, k, key)
    ensures EndsAsProducer(tr, t, i, k + 1, key)
  {
    var m :| i < m < k && OpensAt(tr, t, m, key) && OnlyUnlocks(tr, t, m, k) && InHand(tr.states[k], t, Ticket(key, tr.states[m].issued));
    TicketStays(tr, cfg, t, k, Ticket(key, tr.states[m].issued));
    UnlocksOn(tr, t, m, k);
  }

  /** What others do, and giving a lock back, settles nothing anew. */
  lemma StaysSettled(tr: Trace, cfg: Config, t: nat, i: nat, k: nat, key: Key)
    requires true == IsTrace(tr, cfg) && k < |tr.events| < |tr.states| && t in tr.states[k].threads
    requires Takes(tr, t, k) ==> DropsLock(PcOf(tr.states[k], t))
    ensures EndsInHit(tr, t, i, k, key) ==> EndsInHit(tr, t, i, k + 1, key)
    ensures EndsOff(tr, t, i, k, key) ==> EndsOff(tr, t, i, k + 1, key)
    ensures EndsAsProducer(tr, t, i, k, key) ==> EndsAsProducer(tr, t, i, k + 1, key)
  {
    if EndsInHit(tr, t, i, k, key) {
      HitStays(tr, t, i, k, key);
    }
    if EndsOff(tr, t, i, k, key) {
      OffStays(tr, t, i, k, key);
    }
    if EndsAsProducer(tr, t, i, k, key) {
      ProducerStays(tr, cfg, t, i, k, key);
    }
  }

  lemma WaitStays(tr: Trace, t: nat, i: nat, k: nat, key: Key, f: nat)
    requires k < |tr.events| < |tr.states| && t in tr.states[k].threads && !Takes(tr, t, k)
    requires EndsInWait(tr, t, i, k, key, f)
    ensures EndsInWait(tr, t, i, k + 1, key, f)
  {
    var m :| i < m < k && JoinsAt(tr, t, m, key, f) && OnlyUnlocks(tr, t, m, k);
    UnlocksOn(tr, t, m, k);
  }

  lemma TicketStays(tr: Trace, cfg: Config, t: nat, k: nat, ticket: Ticket)
    requires true == IsTrace(tr, cfg) && k < |tr.events| < |tr.states| && InHand(tr.states[k], t, ticket) && (Takes(tr, t, k) ==> DropsLock(PcOf(tr.states[k], t)))
    ensures InHand(tr.states[k + 1], t, ticket)
  {
    assert StepsOn(tr, cfg, k);
  }

  lemma AcquireWaits(tr: Trace, cfg: Config, t: nat, i: nat, k: nat, key: Key)
    requires IsTrace(tr, cfg) && k < |tr.events| && t in tr.states[k].threads && Acquiring(tr, t, i, k, key) && !Takes(tr, t, k)
    ensures t in tr.states[k + 1].threads && Acquiring(tr, t, i, k + 1, key)
  {
    OthersStay(tr, cfg, t, k);
    StaysSettled(tr, cfg, t, i, k, key);
    var pc := PcOf(tr.states[k], t);
    if pc.UnlockFlights? && pc.outcome.Await? {
      WaitStays(tr, t, i, k, key, pc.outcome.flight);
    }
  }

  lemma SeesAt(tr: Trace, cfg: Config, t: nat, i: nat, k: nat, key: Key)
    requires IsTrace(tr, cfg) && i < k < |tr.events| && t in tr.states[k].threads && Takes(tr, t, k)
    ensures FindsAt(tr, t, k, key) ==> EndsInHit(tr, t, i, k + 1, key)
    ensures FindsOffAt(tr, t, k, key) ==> EndsOff(tr, t, i, k + 1, key)
    ensures OpensAt(tr, t, k, key) ==> EndsAsProducer(tr, t, i, k + 1, key)
    ensures forall f :: JoinsAt(tr, t, k, key, f) ==> EndsInWait(tr, t, i, k + 1, key, f)
  {
    assert StepsOn(tr, cfg, k);
    assert OnlyUnlocks(tr, t, k, k + 1);
  }

  /** The thread gives a lock back: nothing is settled anew. */
  lemma AcquireUnlocks(tr: Trace, cfg: Config, t: nat, i: nat, k: nat, key: Key)
    requires IsTrace(tr, cfg) && i < k < |tr.events| && t in tr.states[k].threads && Acquiring(tr, t, i, k, key) && Takes(tr, t, k)
    requires DropsLock(PcOf(tr.states[k], t))
    ensures t in tr.states[k + 1].threads && Acquiring(tr, t, i, k + 1, key)
  {
    StaysSettled(tr, cfg, t, i, k, key);
    assert StepsOn(tr, cfg, k);
  }

  /** The thread looks at something, and what it sees may settle its call. */
  lemma AcquireLooks(tr: Trace, cfg: Config, t: nat, i: nat, k: nat, key: Key)
    requires IsTrace(tr, cfg) && i < k < |tr.events| && t in tr.states[k].threads && Acquiring(tr, t, i, k, key) && Takes(tr, t, k)
    requires !DropsLock(PcOf(tr.states[k], t)) && !IsAt(tr, t, k, Idle)
    ensures t in tr.states[k + 1].threads && Acquiring(tr, t, i, k + 1, key)
  {
    var s, pc := tr.states[k], PcOf(tr.states[k], t);
    SeesAt(tr, cfg, t, i, k, key);
    if pc.GetRead? {
      RC.HoldsSome(s.shards[RC.ShardOf(key)], key);
    }
    if pc.Register? && key in s.flights {
      assert JoinsAt(tr, t, k, key, s.flights[key]);
    }
    assert StepsOn(tr, cfg, k);
  }

  lemma AcquireMoves(tr: Trace, cfg: Config, t: nat, i: nat, k: nat, key: Key)
    requires IsTrace(tr, cfg) && i < k < |tr.events| && t in tr.states[k].threads && Acquiring(tr, t, i, k, key) && Takes(tr, t, k)
    requires !IsAt(tr, t, k, Idle)
    ensures t in tr.states[k + 1].threads && Acquiring(tr, t, i, k + 1, key)
  {
    if DropsLock(PcOf(tr.states[k], t)) {
      AcquireUnlocks(tr, cfg, t, i, k, key);
    } else {
      AcquireLooks(tr, cfg, t, i, k, key);
    }
  }

  lemma {:induction false} AcquireRuns(tr: Trace, cfg: Config, t: nat, i: nat, k: nat, key: Key)
    requires IsTrace(tr, cfg) && i < k < |tr.states| && Takes(tr, t, i) && IsAt(tr, t, i, Idle) && tr.events[i].call == DoAcquire(key)
    requires forall n :: i < n < k ==> !IsAt(tr, t, n, Idle)
    ensures t in tr.states[k].threads && Acquiring(tr, t, i, k, key)
    decreases k
  {
    if k == i + 1 {
      assert StepsOn(tr, cfg, i);
    } else {
      AcquireRuns(tr, cfg, t, i, k - 1, key);
      if Takes(tr, t, k - 1) {
        AcquireMoves(tr, cfg, t, i, k - 1, key);
      } else {
        AcquireWaits(tr, cfg, t, i, k - 1, key);
      }
    }
  }

  /** In every run, an Acquire ends in one of three ways only: the key was in the cache at its last
      read; it holds the ticket of the flight that it opened; or it found the cache off. Nothing but
      giving locks back comes after that. */
  lemma AcquireEnds(tr: Trace, cfg: Config, t: nat, i: nat, j: nat, key: Key)
    requires IsTrace(tr, cfg) && IsCall(tr, t, i, j, DoAcquire(key))
    ensures EndsInHit(tr, t, i, j, key) || EndsOff(tr, t, i, j, key) || EndsAsProducer(tr, t, i, j, key)
  {
    AcquireRuns(tr, cfg, t, i, j, key);
  }

  /** The thread does something else than giving a lock back. */
  ghost predicate SeesSome(tr: Trace, t: nat, m: nat) {
    m < |tr.events| < |tr.states| && Takes(tr, t, m) && t in tr.states[m].threads && !DropsLock(PcOf(tr.states[m], t))
  }

  lemma OneEnd(tr: Trace, t: nat, m: nat, n: nat, k: nat)
    requires m < k && n < k && k <= |tr.events| < |tr.states| && OnlyUnlocks(tr, t, m, k) && OnlyUnlocks(tr, t, n, k)
    requires SeesSome(tr, t, m) && SeesSome(tr, t, n)
    ensures m == n
  {
  }

  /** What an Acquire says as it gives the flights lock back is how it ends: a hit exactly when its
      last read has found the key, nothing exactly when it has found the cache off, a release exactly
      when it has opened the flight; otherwise it waits for the flight that it has found. */
  lemma OutcomeIsEnd(tr: Trace, cfg: Config, t: nat, i: nat, k: nat, key: Key, outcome: Outcome)
    requires IsTrace(tr, cfg) && i < k < |tr.states| && Takes(tr, t, i) && IsAt(tr, t, i, Idle) && tr.events[i].call == DoAcquire(key)
    requires (forall n :: i < n < k ==> !IsAt(tr, t, n, Idle)) && IsAt(tr, t, k, UnlockFlights(key, outcome))
    ensures outcome.Hit? <==> EndsInHit(tr, t, i, k, key)
    ensures outcome.Bypass? <==> EndsOff(tr, t, i, k, key)
    ensures outcome.Produce? <==> EndsAsProducer(tr, t, i, k, key)
    ensures outcome.Await? ==> EndsInWait(tr, t, i, k, key, outcome.flight)
  {
    AcquireRuns(tr, cfg, t, i, k, key);
    var m := EndOf(tr, t, i, k, key, outcome);
    EndsAt(tr, t, i, k, key, m);
  }

  /** The three ways to end speak of one and the same step. */
  lemma EndsAt(tr: Trace, t: nat, i: nat, k: nat, key: Key, m: nat)
    requires i < m < k <= |tr.events| < |tr.states| && OnlyUnlocks(tr, t, m, k) && SeesSome(tr, t, m)
    ensures EndsInHit(tr, t, i, k, key) ==> FindsAt(tr, t, m, key)
    ensures EndsOff(tr, t, i, k, key) ==> FindsOffAt(tr, t, m, key)
    ensures EndsAsProducer(tr, t, i, k, key) ==> OpensAt(tr, t, m, key)
  {
    forall n: nat | i < n < k && true == OnlyUnlocks(tr, t, n, k) && true == SeesSome(tr, t, n)
      ensures n == m
    {
      OneEnd(tr, t, m, n, k);
    }
    forall n: nat
      ensures FindsAt(tr, t, n, key) || FindsOffAt(tr, t, n, key) || OpensAt(tr, t, n, key) ==> true == SeesSome(tr, t, n)
    {
    }
  }

  lemma EndOf(tr: Trace, t: nat, i: nat, k: nat, key: Key, outcome: Outcome) returns (m: nat)
    requires k <= |tr.events| < |tr.states| && IsAt(tr, t, k, UnlockFlights(key, outcome)) && Acquiring(tr, t, i, k, key)
    ensures i < m < k && OnlyUnlocks(tr, t, m, k)
    ensures match outcome
      case Hit => FindsAt(tr, t, m, key)
      case Bypass => FindsOffAt(tr, t, m, key)
      case Produce => OpensAt(tr, t, m, key)
      case Await(_) => JoinsAt(tr, t, m, key, outcome.flight)
  {
    match outcome
    case Hit => m :| i < m < k && FindsAt(tr, t, m, key) && OnlyUnlocks(tr, t, m, k);
    case Bypass => m :| i < m < k && FindsOffAt(tr, t, m, key) && OnlyUnlocks(tr, t, m, k);
    case Produce => m :| i < m < k && OpensAt(tr, t, m, key) && OnlyUnlocks(tr, t, m, k);
    case Await(f) => m :| i < m < k && JoinsAt(tr, t, m, key, f) && OnlyUnlocks(tr, t, m, k);
  }

  // ---------- a woken waiter ----------

  /** The thread has read the key's shard after step w, or found the cache off. */
  ghost predicate LooksAgain(tr: Trace, t: nat, w: nat, k: nat, key: Key) {
    exists m :: w < m < k && (ReadsAt(tr, t, m, key) || LooksOffAt(tr, t, m, key))
  }

  ghost predicate LooksOffAt(tr: Trace, t: nat, k: nat, key: Key) {
    Takes(tr, t, k) && !tr.states[k].enabled && (IsAt(tr, t, k, Loop(key)) || IsAt(tr, t, k, GetFlag(key, Early)))
  }

  ghost predicate Woken(tr: Trace, t: nat, w: nat, k: nat, key: Key)
    requires k < |tr.states| && t in tr.states[k].threads
  {
    var pc := PcOf(tr.states[k], t);
    pc == Loop(key) || pc == GetFlag(key, Early) || pc == GetLock(key, Early) || pc == GetRead(key, Early) || LooksAgain(tr, t, w, k, key)
  }

  lemma {:induction false} WokenRuns(tr: Trace, cfg: Config, t: nat, w: nat, k: nat, key: Key, f: nat)
    requires IsTrace(tr, cfg) && w < k < |tr.states| && Takes(tr, t, w) && IsAt(tr, t, w, Waiting(key, f))
    ensures t in tr.states[k].threads && Woken(tr, t, w, k, key)
    decreases k
  {
    if k == w + 1 {
      assert StepsOn(tr, cfg, w);
    } else {
      WokenRuns(tr, cfg, t, w, k - 1, key, f);
      OthersStay(tr, cfg, t, k - 1);
      if !LooksAgain(tr, t, w, k - 1, key) && Takes(tr, t, k - 1) {
        assert StepsOn(tr, cfg, k - 1);
        assert ReadsAt(tr, t, k - 1, key) || LooksOffAt(tr, t, k - 1, key) || Woken(tr, t, w, k, key);
      }
    }
  }

  /** A waiter goes on only when its flight is closed, and then its call does not end before it has
      read the key's shard again or found the cache off. */
  lemma WaiterLooksAgain(tr: Trace, cfg: Config, t: nat, i: nat, j: nat, key: Key, w: nat, f: nat)
    requires IsTrace(tr, cfg) && IsCall(tr, t, i, j, DoAcquire(key)) && i < w < j && Takes(tr, t, w) && IsAt(tr, t, w, Waiting(key, f))
    ensures f in tr.states[w].closed && LooksAgain(tr, t, w, j, key)
  {
    assert StepsOn(tr, cfg, w);
    WokenRuns(tr, cfg, t, w, j, key, f);
  }

  // ---------- the other calls ----------

  /** How far a Get has come. */
  ghost predicate Getting(tr: Trace, t: nat, i: nat, k: nat, key: Key)
    requires k < |tr.states| && t in tr.states[k].threads
  {
    match PcOf(tr.states[k], t)
    case GetFlag(q, mode) => q == key && mode == Alone
    case GetLock(q, mode) => q == key && mode == Alone
    case GetRead(q, mode) => q == key && mode == Alone
    case GetUnlock(q, mode, hit) => q == key && mode == Alone && GetSettled(tr, t, i, k, key)
    case Idle => GetSettled(tr, t, i, k, key)
    case _ => false
  }

  ghost predicate GetSettled(tr: Trace, t: nat, i: nat, k: nat, key: Key) {
    exists m :: i < m < k && (ReadsAt(tr, t, m, key) || (Takes(tr, t, m) && IsAt(tr, t, m, GetFlag(key, Alone)) && !tr.states[m].enabled))
  }

  lemma {:induction false} GetRuns(tr: Trace, cfg: Config, t: nat, i: nat, k: nat, key: Key)
    requires IsTrace(tr, cfg) && i < k < |tr.states| && Takes(tr, t, i) && IsAt(tr, t, i, Idle) && tr.events[i].call == DoGet(key)
    requires forall n :: i < n < k ==> !IsAt(tr, t, n, Idle)
    ensures t in tr.states[k].threads && Getting(tr, t, i, k, key)
    decreases k
  {
    if k == i + 1 {
      assert StepsOn(tr, cfg, i);
    } else {
      GetRuns(tr, cfg, t, i, k - 1, key);
      assert !IsAt(tr, t, k - 1, Idle);
      OthersStay(tr, cfg, t, k - 1);
      assert StepsOn(tr, cfg, k - 1);
      assert GetSettled(tr, t, i, k - 1, key) ==> GetSettled(tr, t, i, k, key);
    }
  }

  /** A Get ends with a read of its key's shard, or because it found the cache off. */
  lemma GetEnds(tr: Trace, cfg: Config, t: nat, i: nat, j: nat, key: Key)
    requires IsTrace(tr, cfg) && IsCall(tr, t, i, j, DoGet(key))
    ensures GetSettled(tr, t, i, j, key)
  {
    GetRuns(tr, cfg, t, i, j, key);
  }

  /** The entry is in front of its shard after step m. */
  ghost predicate StoresAt(tr: Trace, t: nat, m: nat, entry: RC.Entry) {
    && Takes(tr, t, m) && m + 1 < |tr.states| && RC.ShardOf(entry.key) < |tr.states[m + 1].shards|
    && tr.states[m + 1].shards[RC.ShardOf(entry.key)] != [] && tr.states[m + 1].shards[RC.ShardOf(entry.key)][0] == entry
  }

  ghost predicate AddSettled(tr: Trace, t: nat, i: nat, k: nat, entry: RC.Entry) {
    exists m :: i < m < k && (StoresAt(tr, t, m, entry) || (Takes(tr, t, m) && !tr.states[m].enabled))
  }

  ghost predicate AddingTo(tr: Trace, cfg: Config, t: nat, i: nat, k: nat, entry: RC.Entry)
    requires k < |tr.states| && t in tr.states[k].threads && |cfg.budgets| == RC.SHARDS
  {
    var small := IsSmall(entry, cfg.budgets[RC.ShardOf(entry.key)], cfg.maxEntry);
    match PcOf(tr.states[k], t)
    case AddFlag(e) => e == entry
    case AddLock(e) => e == entry && small
    case AddRecheck(e) => e == entry && small
    case AddStore(e) => e == entry && small
    case AddUnlock(e) => e == entry && small && AddSettled(tr, t, i, k, entry)
    case Idle => small ==> AddSettled(tr, t, i, k, entry)
    case _ => false
  }

  lemma AddMoves(tr: Trace, cfg: Config, t: nat, i: nat, k: nat, entry: RC.Entry)
    requires IsTrace(tr, cfg) && i < k < |tr.events| && t in tr.states[k].threads && AddingTo(tr, cfg, t, i, k, entry) && !IsAt(tr, t, k, Idle)
    ensures t in tr.states[k + 1].threads && AddingTo(tr, cfg, t, i, k + 1, entry)
  {
    assert StepsOn(tr, cfg, k);
    OthersStay(tr, cfg, t, k);
    assert AddSettled(tr, t, i, k, entry) ==> AddSettled(tr, t, i, k + 1, entry);
    if Takes(tr, t, k) && IsAt(tr, t, k, AddStore(entry)) {
      RC.AddedKeepsNew(tr.states[k].shards[RC.ShardOf(entry.key)], entry, cfg.budgets[RC.ShardOf(entry.key)], cfg.maxEntry);
      assert StoresAt(tr, t, k, entry);
    }
  }

  lemma {:induction false} AddRuns(tr: Trace, cfg: Config, t: nat, i: nat, k: nat, entry: RC.Entry)
    requires IsTrace(tr, cfg) && i < k < |tr.states| && Takes(tr, t, i) && IsAt(tr, t, i, Idle) && tr.events[i].call == DoAdd(entry)
    requires forall n :: i < n < k ==> !IsAt(tr, t, n, Idle)
    ensures t in tr.states[k].threads && AddingTo(tr, cfg, t, i, k, entry)
    decreases k
  {
    if k == i + 1 {
      assert StepsOn(tr, cfg, i);
    } else {
      AddRuns(tr, cfg, t, i, k - 1, entry);
      AddMoves(tr, cfg, t, i, k - 1, entry);
    }
  }

  /** An Add of an entry that is small enough ends with the entry in front of its shard, or because
      it found the cache off. */
  lemma AddEnds(tr: Trace, cfg: Config, t: nat, i: nat, j: nat, entry: RC.Entry)
    requires IsTrace(tr, cfg) && IsCall(tr, t, i, j, DoAdd(entry)) && IsSmall(entry, cfg.budgets[RC.ShardOf(entry.key)], cfg.maxEntry)
    ensures AddSettled(tr, t, i, j, entry)
  {
    AddRuns(tr, cfg, t, i, j, entry);
  }

  ghost predicate Releasing(tr: Trace, t: nat, k: nat, ticket: Ticket)
    requires k < |tr.states| && t in tr.states[k].threads
  {
    match PcOf(tr.states[k], t)
    case ReleaseLock(u) => u == ticket
    case Delete(u) => u == ticket
    case Close(u) => u == ticket && !InHand(tr.states[k], t, ticket)
    case ReleaseUnlock => ticket.flight in tr.states[k].closed && !InHand(tr.states[k], t, ticket)
    case Idle => ticket.flight in tr.states[k].closed && !InHand(tr.states[k], t, ticket)
    case _ => false
  }

  lemma {:induction false} ReleaseRuns(tr: Trace, cfg: Config, t: nat, i: nat, k: nat, ticket: Ticket)
    requires IsTrace(tr, cfg) && i < k < |tr.states| && Takes(tr, t, i) && IsAt(tr, t, i, Idle) && tr.events[i].call == DoRelease(ticket)
    requires forall n :: i < n < k ==> !IsAt(tr, t, n, Idle)
    ensures t in tr.states[k].threads && Releasing(tr, t, k, ticket)
    decreases k
  {
    if k == i + 1 {
      assert StepsOn(tr, cfg, i);
    } else {
      ReleaseRuns(tr, cfg, t, i, k - 1, ticket);
      assert !IsAt(tr, t, k - 1, Idle);
      OthersStay(tr, cfg, t, k - 1);
      assert StepsOn(tr, cfg, k - 1);
    }
  }

  /** A release ends with its flight closed and its ticket given up. */
  lemma ReleaseEnds(tr: Trace, cfg: Config, t: nat, i: nat, j: nat, ticket: Ticket)
    requires IsTrace(tr, cfg) && IsCall(tr, t, i, j, DoRelease(ticket))
    ensures ticket.flight in tr.states[j].closed && !InHand(tr.states[j], t, ticket)
  {
    ReleaseRuns(tr, cfg, t, i, j, ticket);
  }

  // ---------- the flag is heeded ----------

  /** The thread has been at a point and found the cache on there. */
  ghost predicate FoundOn(tr: Trace, t: nat, i: nat, k: nat, pc: PC) {
    exists c :: i < c < k && Takes(tr, t, c) && IsAt(tr, t, c, pc) && tr.states[c].enabled
  }

  /** And that was its last step. */
  ghost predicate JustFoundOn(tr: Trace, t: nat, k: nat, pc: PC) {
    exists c :: 0 <= c < k && Takes(tr, t, c) && IsAt(tr, t, c, pc) && tr.states[c].enabled && forall d :: c < d < k ==> !Takes(tr, t, d)
  }

  /** What a thread has looked at since step i, by the point it is at. */
  ghost predicate HasLooked(tr: Trace, t: nat, i: nat, k: nat)
    requires k < |tr.states| && t in tr.states[k].threads
  {
    match PcOf(tr.states[k], t)
    case GetFlag(q, mode) => (mode.Early? ==> JustFoundOn(tr, t, k, Loop(q))) && (mode.Guarded? ==> JustFoundOn(tr, t, k, CheckFlag(q)) && FoundOn(tr, t, i, k, CheckFlag(q)))
    case GetLock(q, mode) => FoundOn(tr, t, i, k, GetFlag(q, mode)) && (mode.Guarded? ==> FoundOn(tr, t, i, k, CheckFlag(q)))
    case GetRead(q, mode) => FoundOn(tr, t, i, k, GetFlag(q, mode)) && (mode.Guarded? ==> FoundOn(tr, t, i, k, CheckFlag(q)))
    case GetUnlock(q, mode, _) => mode.Guarded? ==> FoundOn(tr, t, i, k, CheckFlag(q))
    case Register(q) => FoundOn(tr, t, i, k, CheckFlag(q))
    case AddLock(e) => FoundOn(tr, t, i, k, AddFlag(e))
    case AddRecheck(e) => FoundOn(tr, t, i, k, AddFlag(e))
    case AddStore(e) => FoundOn(tr, t, i, k, AddFlag(e)) && FoundOn(tr, t, i, k, AddRecheck(e))
    case _ => true
  }

  lemma LooksMove(tr: Trace, cfg: Config, t: nat, i: nat, k: nat)
    requires IsTrace(tr, cfg) && i < k < |tr.events| && t in tr.states[k].threads && HasLooked(tr, t, i, k)
    ensures t in tr.states[k + 1].threads && HasLooked(tr, t, i, k + 1)
  {
    OthersStay(tr, cfg, t, k);
    forall pc
      ensures FoundOn(tr, t, i, k, pc) ==> FoundOn(tr, t, i, k + 1, pc)
      ensures JustFoundOn(tr, t, k, pc) && !Takes(tr, t, k) ==> JustFoundOn(tr, t, k + 1, pc)
    {
    }
    if Takes(tr, t, k) {
      assert StepsOn(tr, cfg, k);
      assert tr.states[k].enabled ==> FoundOn(tr, t, i, k + 1, PcOf(tr.states[k], t)) && JustFoundOn(tr, t, k + 1, PcOf(tr.states[k], t));
      LooksStep(tr, t, i, k, tr.states[k], tr.events[k], cfg);
    }
  }

  lemma LooksStep(tr: Trace, t: nat, i: nat, k: nat, s: State, e: Event, cfg: Config)
    requires k + 1 < |tr.states| && s == tr.states[k] && t in s.threads && e.thread == t && HasLooked(tr, t, i, k)
    requires Shaped(s, cfg) && CanStep(s, e) && t in tr.states[k + 1].threads && PcOf(tr.states[k + 1], t) == NextPC(s, e, cfg)
    requires forall pc :: FoundOn(tr, t, i, k, pc) ==> FoundOn(tr, t, i, k + 1, pc)
    requires s.enabled ==> FoundOn(tr, t, i, k + 1, PcOf(s, t)) && JustFoundOn(tr, t, k + 1, PcOf(s, t))
    ensures HasLooked(tr, t, i, k + 1)
  {
  }

  lemma {:induction false} LooksRun(tr: Trace, cfg: Config, t: nat, i: nat, k: nat)
    requires IsTrace(tr, cfg) && i < k < |tr.states| && Takes(tr, t, i) && IsAt(tr, t, i, Idle)
    ensures t in tr.states[k].threads && HasLooked(tr, t, i, k)
    decreases k
  {
    if k == i + 1 {
      assert StepsOn(tr, cfg, i);
    } else {
      LooksRun(tr, cfg, t, i, k - 1);
      LooksMove(tr, cfg, t, i, k - 1);
    }
  }

  /** An Acquire that turns to the cache has found it on with its last step, in its loop or under the
      flights lock. Since its call began, a thread that reads a shard has found the cache on; one that
      opens a flight has found it on under the flights lock; and one that stores an entry has found
      it on twice, the second time under the shard's lock. */
  lemma FlagIsHeeded(tr: Trace, cfg: Config, t: nat, i: nat, k: nat, key: Key, mode: Mode, entry: RC.Entry)
    requires IsTrace(tr, cfg) && i < k < |tr.states| && Takes(tr, t, i) && IsAt(tr, t, i, Idle)
    ensures IsAt(tr, t, k, GetFlag(key, Early)) ==> JustFoundOn(tr, t, k, Loop(key))
    ensures IsAt(tr, t, k, GetFlag(key, Guarded)) ==> JustFoundOn(tr, t, k, CheckFlag(key))
    ensures IsAt(tr, t, k, GetRead(key, mode)) ==> FoundOn(tr, t, i, k, GetFlag(key, mode))
    ensures IsAt(tr, t, k, Register(key)) ==> FoundOn(tr, t, i, k, CheckFlag(key))
    ensures IsAt(tr, t, k, AddStore(entry)) ==> FoundOn(tr, t, i, k, AddFlag(entry)) && FoundOn(tr, t, i, k, AddRecheck(entry))
  {
    LooksRun(tr, cfg, t, i, k);
  }

  // ---------- the flag in a run ----------

  /** Step k is an Enable. */
  ghost predicate TurnsOn(tr: Trace, k: nat) {
    k < |tr.events| < |tr.states| && tr.events[k].call.DoEnable? && IsAt(tr, tr.events[k].thread, k, Idle)
  }

  /** Step k is the one with which a DisableAndClear turns the flag off. */
  ghost predicate TurnsOff(tr: Trace, k: nat) {
    k < |tr.events| < |tr.states| && IsAt(tr, tr.events[k].thread, k, Disable)
  }

  /** The flag was on at step c and nothing has turned it off since. */
  ghost predicate StayedOn(tr: Trace, c: nat, k: nat) {
    forall d :: c <= d < k ==> !TurnsOff(tr, d)
  }

  /** The cache is on when it was last enabled after it was last disabled, or began on and was never
      disabled. */
  lemma {:induction false} FlagIsLastTurn(tr: Trace, cfg: Config, k: nat)
    requires IsTrace(tr, cfg) && k < |tr.states|
    ensures tr.states[k].enabled <==>
      (tr.states[0].enabled && StayedOn(tr, 0, k)) || exists c :: 0 <= c < k && TurnsOn(tr, c) && StayedOn(tr, c, k)
    decreases k
  {
    if k > 0 {
      FlagIsLastTurn(tr, cfg, k - 1);
      assert StepsOn(tr, cfg, k - 1);
      if TurnsOn(tr, k - 1) {
        assert StayedOn(tr, k - 1, k);
      } else if !TurnsOff(tr, k - 1) {
        assert forall c :: 0 <= c < k ==> (StayedOn(tr, c, k) <==> StayedOn(tr, c, k - 1));
      } else {
        assert forall c :: 0 <= c < k ==> !StayedOn(tr, c, k);
      }
    }
  }

  // ---------- the history of a shard in a run ----------

  /** What a step does to a shard, as an operation on it. */
  ghost function AccessOf(s: State, e: Event, i: nat): seq<RC.Op>
    requires e.thread in s.threads
  {
    OnShard(PcOf(s, e.thread), i)
  }

  /** What the steps of a run have done to a shard, one after the other. */
  ghost function AccessesTo(tr: Trace, cfg: Config, i: nat, k: nat): seq<RC.Op>
    requires IsTrace(tr, cfg) && k <= |tr.events|
  {
    if k == 0 then [] else
      assert StepsOn(tr, cfg, k - 1);
      AccessesTo(tr, cfg, i, k - 1) + AccessOf(tr.states[k - 1], tr.events[k - 1], i)
  }

  lemma ShardSteps(s: State, e: Event, cfg: Config, i: nat, before: seq<RC.Op>)
    requires Shaped(s, cfg) && CanStep(s, e) && i < RC.SHARDS && s.shards[i] == RC.After(before, cfg.budgets[i], cfg.maxEntry)
    ensures |Step(s, e, cfg).shards| == RC.SHARDS
    ensures Step(s, e, cfg).shards[i] == RC.After(before + AccessOf(s, e, i), cfg.budgets[i], cfg.maxEntry)
  {
    var access := AccessOf(s, e, i);
    if access == [] {
      assert before + access == before;
      ShardUntouched(s, PcOf(s, e.thread), cfg, i);
    } else {
      AfterNext(before, access[0], cfg.budgets[i], cfg.maxEntry);
      ShardAccessed(s, PcOf(s, e.thread), cfg, i);
    }
  }

  ghost function OnShard(pc: PC, i: nat): seq<RC.Op> {
    match pc
    case GetRead(key, _) => if RC.ShardOf(key) == i then [RC.Get(key)] else []
    case AddStore(entry) => if RC.ShardOf(entry.key) == i then [RC.Add(entry)] else []
    case ClearDo(k) => if k == i then [RC.Clear] else []
    case _ => []
  }

  lemma ShardUntouched(s: State, pc: PC, cfg: Config, i: nat)
    requires Shaped(s, cfg) && i < RC.SHARDS && OnShard(pc, i) == []
    ensures |NextShards(s, pc, cfg)| == RC.SHARDS && NextShards(s, pc, cfg)[i] == s.shards[i]
  {
  }

  lemma ShardAccessed(s: State, pc: PC, cfg: Config, i: nat)
    requires Shaped(s, cfg) && i < RC.SHARDS && OnShard(pc, i) != []
    ensures |NextShards(s, pc, cfg)| == RC.SHARDS
    ensures var op := OnShard(pc, i)[0];
      NextShards(s, pc, cfg)[i] ==
        if op.Get? then RC.Touched(s.shards[i], op.key)
        else if op.Add? then RC.Added(s.shards[i], op.entry, cfg.budgets[i], cfg.maxEntry)
        else []
  {
  }

  /** In every run a shard holds what its accesses under the lock, in their order, make of an empty
      one; so it is in order of use whatever the threads do. */
  lemma ShardIsHistory(tr: Trace, cfg: Config, i: nat, k: nat)
    requires IsTrace(tr, cfg) && k <= |tr.events| && i < RC.SHARDS && tr.states[0].shards[i] == []
    ensures tr.states[k].shards[i] == RC.After(AccessesTo(tr, cfg, i, k), cfg.budgets[i], cfg.maxEntry)
    ensures InOrderOfUse(tr.states[k].shards[i], AccessesTo(tr, cfg, i, k), cfg.budgets[i], cfg.maxEntry)
  {
    ShardFollows(tr, cfg, i, k);
    OrderOfUse(AccessesTo(tr, cfg, i, k), cfg.budgets[i], cfg.maxEntry);
  }

  lemma {:induction false} ShardFollows(tr: Trace, cfg: Config, i: nat, k: nat)
    requires IsTrace(tr, cfg) && k <= |tr.events| && i < RC.SHARDS && tr.states[0].shards[i] == []
    ensures tr.states[k].shards[i] == RC.After(AccessesTo(tr, cfg, i, k), cfg.budgets[i], cfg.maxEntry)
  {
    if k > 0 {
      ShardFollows(tr, cfg, i, k - 1);
      assert StepsOn(tr, cfg, k - 1);
      ShardSteps(tr.states[k - 1], tr.events[k - 1], cfg, i, AccessesTo(tr, cfg, i, k - 1));
    }
  }
}

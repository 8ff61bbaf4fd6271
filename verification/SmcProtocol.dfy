/** The secure monitor call protocol (exosphere/src/smc_api.c, smc_user.c, se.c) as a step system.

    Of this state only the user-SMC lock is shared between cores, so steps are split at every lock operation
    (the random cache, shared too, has its own step system in module SharedCache). The callback key, the callback,
    the done flags and the Security Engine callback slot are touched by core 3 alone: user calls are refused
    elsewhere (smc_api.c:272-275), and the completion interrupt is routed to core 3 and taken only outside the
    monitor (bootup.c:206, exceptions.s), so one step may update several of them.

    A suspend is a synchronous call whose handler, when it succeeds, never returns: the monitor wakes up in the
    warmboot code, which frees the lock (warmboot_main.c:96).

    A run is any finite sequence of events: what callers pass, which random key comes back, and when
    the completion interrupt arrives are all chosen by the environment.
 */
module SmcProtocol {

  const CORES: nat := 4
  const RESULT_LIMIT: nat := 0x400

  type CoreId = x: int | 0 <= x < 4
  const USER_CORE: CoreId := 3

  /** The asynchronous calls: both exponentiation calls share one result callback. */
  datatype Kind = ExpMod | Titlekey | CryptAes

  /** How an asynchronous handler turns out: arguments refused; refused after the done flag was
      cleared (AES mode 3); operation started; AES of zero bytes, which reports success without
      starting anything. */
  datatype Handling = Refused | RefusedLate | Started | NothingToDo

  datatype Pc =
    | Outside
    | SyncHeld             // smc_wrapper_sync: lock taken, handler not yet run
    | SyncDone(reply: nat) // handler returned, lock not yet released
    | SuspendHeld          // smc_cpu_suspend: lock taken, powered down or about to be
    | RandomHeld(size: nat)  // smc_get_random_bytes_for_priv: lock taken
    | RandomDone(reply: nat) // fresh bytes and refill done, lock not yet released
    | AsyncHeld(kind: Kind)  // smc_wrapper_async: lock taken
    | AsyncKeyed(kind: Kind, key: nat)
    | AsyncFailed(reply: nat) // nothing outstanding, lock not yet released

  type Pcs = p: seq<Pc> | |p| == 4 witness seq(4, _ => Outside)

  datatype State = State(
    lock: bool,             // g_is_user_smc_in_progress
    key: nat,               // g_smc_callback_key
    callback: Kind,         // g_smc_callback
    seCallback: bool,       // g_se_callback != NULL
    seHandler: Kind,        // whose done handler is in the slot
    expModDone: bool,
    cryptAesDone: bool,
    pcs: Pcs,
    panicked: bool,         // set_security_engine_callback found the slot taken
    clashed: bool)          // an engine operation started while an asynchronous one was pending

  datatype Event =
    | Interrupt
    | SyncCall(core: CoreId)
    | SyncHandler(core: CoreId, result: nat)
    | SyncRelease(core: CoreId)
    | SuspendCall(core: CoreId)
    | SuspendRefused(core: CoreId, result: nat)
    | Warmboot(core: CoreId)
    | RandomCall(core: CoreId, size: nat)
    | RandomFresh(core: CoreId)
    | RandomRelease(core: CoreId)
    | AsyncCall(kind: Kind)
    | AsyncKey(random: nat)
    | AsyncHandler(how: Handling)
    | AsyncRelease
    | CheckStatus(key: nat)
    | GetResult(key: nat, size: nat, unwraps: bool)

  const INIT: State :=
    State(false, 0, ExpMod, false, ExpMod, false, false, [Outside, Outside, Outside, Outside], false, false)

  // ---- Steps -------------------------------------------------------------------------------------

  function At(s: State, core: CoreId, pc: Pc): State {
    s.(pcs := s.pcs[core := pc])
  }

  predicate Is(s: State, core: CoreId, pc: Pc) {
    s.pcs[core] == pc
  }

  /** Starting any engine operation while an asynchronous one is pending would corrupt both. */
  function UseEngine(s: State): State {
    s.(clashed := s.clashed || s.seCallback)
  }

  predicate IsDone(s: State, kind: Kind) {
    if kind.CryptAes? then s.cryptAesDone else s.expModDone
  }

  function SetDone(s: State, kind: Kind, done: bool): State {
    if kind.CryptAes? then s.(cryptAesDone := done) else s.(expModDone := done)
  }

  /** set_security_engine_callback followed by starting the engine. */
  function StartAsync(s: State, kind: Kind): State {
    if s.seCallback then s.(panicked := true)
    else UseEngine(s).(seCallback := true, seHandler := kind)
  }

  /** The asynchronous handlers of smc_user.c; the reply is what they return. */
  function Handle(s: State, kind: Kind, how: Handling): (State, nat) {
    match how
    case Refused => (s, 2)
    case RefusedLate => if kind.CryptAes? then (SetDone(s, kind, false), 1) else (s, 2)
    case Started => (StartAsync(SetDone(s, kind, false), kind), 0)
    case NothingToDo => if kind.CryptAes? then (SetDone(s, kind, false), 0) else (s, 2)
  }

  /** The get-result callbacks: reply and whether they release the user-SMC lock. `unwraps` is whether
      the OAEP unwrap of a title key succeeds. */
  function Collect(s: State, size: nat, unwraps: bool): (State, nat) {
    match s.callback
    case ExpMod =>
      if !s.expModDone then (s, 3) else if size != 0x100 then (s, 2) else (s.(lock := false), 0)
    case Titlekey =>
      if !s.expModDone then (s, 3) else if size != 0x10 then (s, 2)
      else if !unwraps then (UseEngine(s).(lock := false), 2)
      else (UseEngine(s).(lock := false), 0)
    case CryptAes =>
      if !s.cryptAesDone then (s, 3) else (s.(lock := false), 0)
  }

  /** Replies: Some is the SMC result in X0; Status is result 0 with a callback status in X1; None when
      the event does not return to the caller. */
  datatype Outcome = Outcome(next: State, reply: Reply)
  datatype Reply = None | Some(code: nat) | Status(code: nat)

  function Step(s: State, e: Event): Outcome {
    match e
    case Interrupt =>
      if !Is(s, USER_CORE, Outside) then Outcome(s, None)
      else if s.seCallback then Outcome(SetDone(s, s.seHandler, true).(seCallback := false), None)
      else Outcome(s, None)
    case SyncCall(core) =>
      if !Is(s, core, Outside) then Outcome(s, None)
      else if s.lock then Outcome(s, Some(3))
      else Outcome(At(s.(lock := true), core, SyncHeld), None)
    case SyncHandler(core, result) =>
      if Is(s, core, SyncHeld) then Outcome(At(UseEngine(s), core, SyncDone(result)), None) else Outcome(s, None)
    case SyncRelease(core) =>
      if s.pcs[core].SyncDone? then Outcome(At(s.(lock := false), core, Outside), Some(s.pcs[core].reply))
      else Outcome(s, None)
    case SuspendCall(core) =>
      if !Is(s, core, Outside) then Outcome(s, None)
      else if s.lock then Outcome(s, Some(3))
      else Outcome(At(s.(lock := true), core, SuspendHeld), None)
    case SuspendRefused(core, result) =>
      if Is(s, core, SuspendHeld) then Outcome(At(s, core, SyncDone(result)), None) else Outcome(s, None)
    case Warmboot(core) =>
      if Is(s, core, SuspendHeld) then Outcome(At(UseEngine(s).(lock := false), core, Outside), None)
      else Outcome(s, None)
    case RandomCall(core, size) =>
      if !Is(s, core, Outside) then Outcome(s, None)
      else if s.lock then Outcome(s, Some(if size > 0x38 then 2 else 0))
      else Outcome(At(s.(lock := true), core, RandomHeld(size)), None)
    case RandomFresh(core) =>
      if s.pcs[core].RandomHeld? then
        Outcome(At(UseEngine(s), core, RandomDone(if s.pcs[core].size > 0x38 then 2 else 0)), None)
      else Outcome(s, None)
    case RandomRelease(core) =>
      if s.pcs[core].RandomDone? then Outcome(At(s.(lock := false), core, Outside), Some(s.pcs[core].reply))
      else Outcome(s, None)
    case AsyncCall(kind) =>
      if !Is(s, USER_CORE, Outside) then Outcome(s, None)
      else if s.lock then Outcome(s, Some(3))
      else Outcome(At(s.(lock := true), USER_CORE, AsyncHeld(kind)), None)
    case AsyncKey(random) =>
      if s.pcs[USER_CORE].AsyncHeld? then
        var kind := s.pcs[USER_CORE].kind;
        if s.key != 0 then Outcome(At(s, USER_CORE, AsyncFailed(3)), None)
        else
          var keyed := UseEngine(s).(key := random, callback := kind);
          if random == 0 then Outcome(At(keyed, USER_CORE, AsyncFailed(3)), None)
          else Outcome(At(keyed, USER_CORE, AsyncKeyed(kind, random)), None)
      else Outcome(s, None)
    case AsyncHandler(how) =>
      if s.pcs[USER_CORE].AsyncKeyed? then
        var pc := s.pcs[USER_CORE];
        var (after, reply) := Handle(s, pc.kind, how);
        if reply == 0 then Outcome(At(after, USER_CORE, Outside), Some(0)) // lock stays held
        else
          var cleared := if after.key == pc.key then after.(key := 0) else after;
          Outcome(At(cleared, USER_CORE, AsyncFailed(reply)), None)
      else Outcome(s, None)
    case AsyncRelease =>
      if s.pcs[USER_CORE].AsyncFailed? then
        Outcome(At(s.(lock := false), USER_CORE, Outside), Some(s.pcs[USER_CORE].reply))
      else Outcome(s, None)
    case CheckStatus(key) => Query(s, key, 0, true)
    case GetResult(key, size, unwraps) =>
      if Is(s, USER_CORE, Outside) && s.key != 0 && key == s.key && size > RESULT_LIMIT then Outcome(s, Some(2))
      else Query(s, key, size, unwraps)
  }

  /** smc_check_status and smc_get_result: the key is consumed whatever the callback says. */
  function Query(s: State, key: nat, size: nat, unwraps: bool): Outcome {
    if !Is(s, USER_CORE, Outside) then Outcome(s, None)
    else if s.key == 0 then Outcome(s, Some(4))
    else if key != s.key then Outcome(s, Some(5))
    else
      var (after, status) := Collect(s, size, unwraps);
      Outcome(after.(key := 0), Status(status))
  }

  function Run(s: State, events: seq<Event>): State
    decreases |events|
  {
    if events == [] then s else Run(Step(s, events[0]).next, events[1..])
  }

  // ---- Invariant ---------------------------------------------------------------------------------

  /** Some core is inside a call that owns the lock. */
  ghost predicate SomeCoreHolds(s: State) {
    exists c: CoreId :: !s.pcs[c].Outside?
  }

  /** The lock was left held by an asynchronous call that has returned. */
  ghost predicate Outstanding(s: State) {
    s.lock && !SomeCoreHolds(s)
  }

  /** At most one core is inside a lock-holding call, the lock is then held, and asynchronous calls run
      on core 3 only. */
  ghost predicate Exclusive(s: State) {
    && (SomeCoreHolds(s) ==> s.lock)
    && (forall c: CoreId, d: CoreId :: !s.pcs[c].Outside? && !s.pcs[d].Outside? ==> c == d)
    && (forall c: CoreId :: s.pcs[c].AsyncHeld? || s.pcs[c].AsyncKeyed? || s.pcs[c].AsyncFailed? ==> c == USER_CORE)
  }

  ghost predicate Invariant(s: State) {
    && Exclusive(s)
    && (s.key != 0 ==> Outstanding(s) || s.pcs[USER_CORE].AsyncKeyed?)
    && (s.pcs[USER_CORE].AsyncKeyed? ==> s.key == s.pcs[USER_CORE].key != 0 && s.callback == s.pcs[USER_CORE].kind)
    && (s.seCallback ==> Outstanding(s) && s.seHandler == s.callback && !IsDone(s, s.callback))
    && !s.panicked && !s.clashed
  }

  /** Moving one core, when it was the holder or nobody was, decides who holds afterwards. */
  lemma {:induction false} OneMover(s: State, t: State, c: CoreId)
    requires Exclusive(s)
    requires !s.pcs[c].Outside? || !SomeCoreHolds(s)
    requires forall d: CoreId :: d != c ==> t.pcs[d] == s.pcs[d]
    requires !t.pcs[c].Outside? ==> t.lock
    requires t.pcs[c].AsyncHeld? || t.pcs[c].AsyncKeyed? || t.pcs[c].AsyncFailed? ==> c == USER_CORE
    ensures Exclusive(t)
    ensures SomeCoreHolds(t) <==> !t.pcs[c].Outside?
  {
    forall d: CoreId | d != c ensures t.pcs[d].Outside? {
      assert t.pcs[d] == s.pcs[d];
    }
  }

  lemma {:induction false} SyncKeeps(s: State, e: Event)
    requires Invariant(s) && (e.SyncCall? || e.SyncHandler? || e.SyncRelease?)
    ensures Invariant(Step(s, e).next)
  {
    var t := Step(s, e).next;
    if t != s {
      OneMover(s, t, e.core);
    }
  }

  lemma {:induction false} SuspendKeeps(s: State, e: Event)
    requires Invariant(s) && (e.SuspendCall? || e.SuspendRefused? || e.Warmboot?)
    ensures Invariant(Step(s, e).next)
  {
    var t := Step(s, e).next;
    if t != s {
      OneMover(s, t, e.core);
    }
  }

  lemma {:induction false} RandomKeeps(s: State, e: Event)
    requires Invariant(s) && (e.RandomCall? || e.RandomFresh? || e.RandomRelease?)
    ensures Invariant(Step(s, e).next)
  {
    var t := Step(s, e).next;
    if t != s {
      OneMover(s, t, e.core);
    }
  }

  lemma {:induction false} HandlerKeeps(s: State, how: Handling)
    requires Invariant(s)
    ensures Invariant(Step(s, AsyncHandler(how)).next)
  {
    var t := Step(s, AsyncHandler(how)).next;
    if s.pcs[USER_CORE].AsyncKeyed? {
      assert SomeCoreHolds(s);
      OneMover(s, t, USER_CORE);
    }
  }

  lemma {:induction false} AsyncKeeps(s: State, e: Event)
    requires Invariant(s) && (e.AsyncCall? || e.AsyncKey? || e.AsyncRelease?)
    ensures Invariant(Step(s, e).next)
  {
    var t := Step(s, e).next;
    if t != s {
      OneMover(s, t, USER_CORE);
    }
  }

  lemma {:induction false} SamePoints(s: State, t: State)
    requires t.pcs == s.pcs
    ensures SomeCoreHolds(s) <==> SomeCoreHolds(t)
  {
  }

  lemma {:induction false} CoreThreeKeeps(s: State, e: Event)
    requires Invariant(s) && (e.Interrupt? || e.CheckStatus? || e.GetResult?)
    ensures Invariant(Step(s, e).next)
  {
    SamePoints(s, Step(s, e).next);
  }

  lemma {:induction false} StepKeepsInvariant(s: State, e: Event)
    requires Invariant(s)
    ensures Invariant(Step(s, e).next)
  {
    match e
    case Interrupt => CoreThreeKeeps(s, e);
    case CheckStatus(_) => CoreThreeKeeps(s, e);
    case GetResult(_, _, _) => CoreThreeKeeps(s, e);
    case SyncCall(_) => SyncKeeps(s, e);
    case SyncHandler(_, _) => SyncKeeps(s, e);
    case SyncRelease(_) => SyncKeeps(s, e);
    case SuspendCall(_) => SuspendKeeps(s, e);
    case SuspendRefused(_, _) => SuspendKeeps(s, e);
    case Warmboot(_) => SuspendKeeps(s, e);
    case RandomCall(_, _) => RandomKeeps(s, e);
    case RandomFresh(_) => RandomKeeps(s, e);
    case RandomRelease(_) => RandomKeeps(s, e);
    case AsyncCall(_) => AsyncKeeps(s, e);
    case AsyncKey(_) => AsyncKeeps(s, e);
    case AsyncHandler(how) => HandlerKeeps(s, how);
    case AsyncRelease => AsyncKeeps(s, e);
  }

  lemma {:induction false} RunKeepsInvariant(s: State, events: seq<Event>)
    requires Invariant(s)
    ensures Invariant(Run(s, events))
    decreases |events|
  {
    if events != [] {
      StepKeepsInvariant(s, events[0]);
      RunKeepsInvariant(Step(s, events[0]).next, events[1..]);
    }
  }

  /** In every run a pending engine callback implies the user-SMC lock is held by an asynchronous call
      that has returned; no engine operation starts while one is pending; the callback-slot panic is
      never reached; and a live status key means the lock is held. */
  lemma {:induction false} EngineSafety(events: seq<Event>)
    ensures var s := Run(INIT, events);
      && (s.seCallback ==> Outstanding(s))
      && (s.key != 0 ==> s.lock)
      && !s.panicked && !s.clashed
  {
    RunKeepsInvariant(INIT, events);
  }

  /** The branch of smc_wrapper_async that reports a still-pending key (result 3 after taking the lock)
      is dead: whenever the lock has just been taken the key is zero. */
  lemma {:induction false} PendingKeyBranchIsDead(events: seq<Event>)
    requires Run(INIT, events).pcs[USER_CORE].AsyncHeld?
    ensures Run(INIT, events).key == 0
  {
    RunKeepsInvariant(INIT, events);
  }

  // ---- Progress ----------------------------------------------------------------------------------

  /** An outstanding call whose result can no longer be collected: the key was consumed, or nothing was
      started and nothing is done. */
  ghost predicate Wedged(s: State) {
    Outstanding(s) && (s.key == 0 || (!s.seCallback && !IsDone(s, s.callback)))
  }

  predicate OnCoreThree(e: Event) {
    e.Interrupt? || e.CheckStatus? || e.GetResult?
  }

  /** While an asynchronous call is outstanding every other call is turned away without effect. */
  lemma {:induction false} OutstandingTurnsAway(s: State, e: Event)
    requires Outstanding(s) && !OnCoreThree(e)
    ensures Step(s, e).next == s
  {
    assert forall c: CoreId :: s.pcs[c].Outside?;
  }

  lemma {:induction false} StepStaysWedged(s: State, e: Event)
    requires Wedged(s)
    ensures Wedged(Step(s, e).next)
  {
    if OnCoreThree(e) {
      SamePoints(s, Step(s, e).next);
    } else {
      OutstandingTurnsAway(s, e);
    }
  }

  /** Once wedged, the lock stays held in every continuation; not even sleep frees it, since a suspend is turned
      away like every other call. */
  lemma {:induction false} WedgedForever(s: State, events: seq<Event>)
    requires Wedged(s)
    ensures Run(s, events).lock
    decreases |events|
  {
    if events != [] {
      StepStaysWedged(s, events[0]);
      WedgedForever(Step(s, events[0]).next, events[1..]);
    }
  }

  function ExpectedSize(kind: Kind): nat {
    if kind.ExpMod? then 0x100 else if kind.Titlekey? then 0x10 else 0
  }

  lemma {:induction false} RunTwo(s: State, a: Event, b: Event)
    ensures Run(s, [a, b]) == Step(Step(s, a).next, b).next
  {
    assert [a, b][1..] == [b];
    assert Run(s, [a, b]) == Run(Step(s, a).next, [b]);
    RunOne(Step(s, a).next, b);
  }

  lemma {:induction false} RunOne(s: State, a: Event)
    ensures Run(s, [a]) == Step(s, a).next
  {
    assert [a][1..] == [];
  }

  /** After the completion interrupt, a query with the right key and the expected size succeeds and
      frees the lock. */
  lemma {:induction false} CollectReleases(s: State)
    requires Invariant(s) && Outstanding(s) && !Wedged(s)
    ensures var query := GetResult(s.key, ExpectedSize(s.callback), true);
      var after := Step(s, Interrupt).next;
      Step(after, query).reply == Status(0) && !Step(after, query).next.lock && Step(after, query).next.key == 0
  {
    assert s.pcs[USER_CORE].Outside?;
  }

  /** From a core that holds the lock, its own remaining steps release it. */
  lemma {:induction false} HolderReleases(s: State, c: CoreId) returns (events: seq<Event>)
    requires Invariant(s) && !s.pcs[c].Outside?
    ensures !Run(s, events).lock
  {
    match s.pcs[c]
    case SyncHeld =>
      events := [SyncHandler(c, 0), SyncRelease(c)];
      RunTwo(s, events[0], events[1]);
    case SyncDone(_) =>
      events := [SyncRelease(c)];
      RunOne(s, events[0]);
    case SuspendHeld =>
      events := [Warmboot(c)];
      RunOne(s, events[0]);
    case RandomHeld(_) =>
      events := [RandomFresh(c), RandomRelease(c)];
      RunTwo(s, events[0], events[1]);
    case RandomDone(_) =>
      events := [RandomRelease(c)];
      RunOne(s, events[0]);
    case AsyncHeld(_) =>
      events := [AsyncKey(0), AsyncRelease];
      RunTwo(s, events[0], events[1]);
    case AsyncKeyed(_, _) =>
      events := [AsyncHandler(Refused), AsyncRelease];
      RunTwo(s, events[0], events[1]);
    case AsyncFailed(_) =>
      events := [AsyncRelease];
      RunOne(s, events[0]);
  }

  /** In every state of every run with the lock held: it can still be released by some continuation if
      and only if the state is not wedged. */
  lemma {:induction false} ReleasableIffNotWedged(events: seq<Event>)
    requires Run(INIT, events).lock
    ensures (exists more :: !Run(Run(INIT, events), more).lock) <==> !Wedged(Run(INIT, events))
  {
    RunKeepsInvariant(INIT, events);
    var s := Run(INIT, events);
    if Wedged(s) {
      forall more ensures Run(s, more).lock {
        WedgedForever(s, more);
      }
    } else if Outstanding(s) {
      CollectReleases(s);
      var query := GetResult(s.key, ExpectedSize(s.callback), true);
      RunTwo(s, Interrupt, query);
    } else {
      var c: CoreId :| !s.pcs[c].Outside?;
      var more := HolderReleases(s, c);
    }
  }

  /** The events that wedge: an AES request of zero bytes, and a status or result query that presents
      the right key too early or with the wrong size. */
  predicate Spoils(s: State, e: Event) {
    match e
    case AsyncHandler(how) =>
      s.pcs[USER_CORE].AsyncKeyed? && s.pcs[USER_CORE].kind.CryptAes? && how.NothingToDo?
    case CheckStatus(key) => Premature(s, key, 0)
    case GetResult(key, size, _) => size <= RESULT_LIMIT && Premature(s, key, size)
    case _ => false
  }

  predicate Premature(s: State, key: nat, size: nat) {
    && s.pcs[USER_CORE].Outside? && s.key != 0 && key == s.key
    && !(IsDone(s, s.callback) && (s.callback.CryptAes? || size == ExpectedSize(s.callback)))
  }

  lemma {:induction false} QueriesSpoil(s: State, e: Event)
    requires Invariant(s) && !Wedged(s) && OnCoreThree(e)
    ensures Wedged(Step(s, e).next) <==> Spoils(s, e)
  {
    SamePoints(s, Step(s, e).next);
    assert s.pcs[USER_CORE].Outside? && s.key != 0 ==> Outstanding(s);
  }

  lemma {:induction false} HandlerSpoils(s: State, how: Handling)
    requires Invariant(s) && !Wedged(s)
    ensures Wedged(Step(s, AsyncHandler(how)).next) <==> Spoils(s, AsyncHandler(how))
  {
    if s.pcs[USER_CORE].AsyncKeyed? {
      assert SomeCoreHolds(s);
      OneMover(s, Step(s, AsyncHandler(how)).next, USER_CORE);
    }
  }

  lemma {:induction false} NotOutstanding(t: State, c: CoreId)
    requires !t.lock || !t.pcs[c].Outside?
    ensures !Outstanding(t)
  {
  }

  lemma {:induction false} SyncStepsKeepHolder(s: State, e: Event)
    requires (e.SyncCall? || e.SyncHandler? || e.SyncRelease?) && Step(s, e).next != s
    ensures !Outstanding(Step(s, e).next)
  {
    NotOutstanding(Step(s, e).next, e.core);
  }

  lemma {:induction false} SuspendStepsKeepHolder(s: State, e: Event)
    requires (e.SuspendCall? || e.SuspendRefused? || e.Warmboot?) && Step(s, e).next != s
    ensures !Outstanding(Step(s, e).next)
  {
    NotOutstanding(Step(s, e).next, e.core);
  }

  lemma {:induction false} RandomStepsKeepHolder(s: State, e: Event)
    requires (e.RandomCall? || e.RandomFresh? || e.RandomRelease?) && Step(s, e).next != s
    ensures !Outstanding(Step(s, e).next)
  {
    NotOutstanding(Step(s, e).next, e.core);
  }

  lemma {:induction false} AsyncStepsKeepHolder(s: State, e: Event)
    requires (e.AsyncCall? || e.AsyncKey? || e.AsyncRelease?) && Step(s, e).next != s
    ensures !Outstanding(Step(s, e).next)
  {
    NotOutstanding(Step(s, e).next, USER_CORE);
  }

  /** The remaining steps leave the mover inside the monitor or release the lock. */
  lemma {:induction false} OtherStepsKeepHolder(s: State, e: Event)
    requires !OnCoreThree(e) && !e.AsyncHandler? && Step(s, e).next != s
    ensures !Outstanding(Step(s, e).next)
  {
    if e.SyncCall? || e.SyncHandler? || e.SyncRelease? {
      SyncStepsKeepHolder(s, e);
    } else if e.SuspendCall? || e.SuspendRefused? || e.Warmboot? {
      SuspendStepsKeepHolder(s, e);
    } else if e.RandomCall? || e.RandomFresh? || e.RandomRelease? {
      RandomStepsKeepHolder(s, e);
    } else {
      AsyncStepsKeepHolder(s, e);
    }
  }

  /** From a reachable state that is not wedged, the next one is wedged exactly when the event spoils. */
  lemma {:induction false} WedgedExactlyBySpoiling(s: State, e: Event)
    requires Invariant(s) && !Wedged(s)
    ensures Wedged(Step(s, e).next) <==> Spoils(s, e)
  {
    if OnCoreThree(e) {
      QueriesSpoil(s, e);
    } else if e.AsyncHandler? {
      HandlerSpoils(s, e.how);
    } else if Step(s, e).next != s {
      OtherStepsKeepHolder(s, e);
    }
  }

  /** No event of the run spoils. */
  ghost predicate Disciplined(s: State, events: seq<Event>)
    decreases |events|
  {
    events != [] ==> !Spoils(s, events[0]) && Disciplined(Step(s, events[0]).next, events[1..])
  }

  /** A client that asks only after completion, with the expected size, and never requests an empty AES
      operation always can get the lock released. */
  lemma {:induction false} DisciplineKeepsProgress(s: State, events: seq<Event>)
    requires Invariant(s) && !Wedged(s) && Disciplined(s, events)
    ensures !Wedged(Run(s, events))
    decreases |events|
  {
    if events != [] {
      WedgedExactlyBySpoiling(s, events[0]);
      StepKeepsInvariant(s, events[0]);
      DisciplineKeepsProgress(Step(s, events[0]).next, events[1..]);
    }
  }

  /** Concrete spoiling run: an empty AES request leaves the lock held for good. */
  lemma {:induction false} EmptyAesWedges(random: nat, more: seq<Event>)
    requires random != 0
    ensures Run(Step(Step(Step(INIT, AsyncCall(CryptAes)).next, AsyncKey(random)).next,
      AsyncHandler(NothingToDo)).next, more).lock
  {
    var a := Step(INIT, AsyncCall(CryptAes)).next;
    StepKeepsInvariant(INIT, AsyncCall(CryptAes));
    var b := Step(a, AsyncKey(random)).next;
    StepKeepsInvariant(a, AsyncKey(random));
    assert b.pcs[USER_CORE].AsyncKeyed?;
    WedgedExactlyBySpoiling(b, AsyncHandler(NothingToDo));
    WedgedForever(Step(b, AsyncHandler(NothingToDo)).next, more);
  }

  /** The state after an asynchronous call has started its operation and returned. */
  function Begun(kind: Kind, random: nat): State {
    Step(Step(Step(INIT, AsyncCall(kind)).next, AsyncKey(random)).next, AsyncHandler(Started)).next
  }

  lemma {:induction false} BegunState(kind: Kind, random: nat)
    requires random != 0
    ensures var s := Begun(kind, random);
      && Invariant(s) && !Wedged(s) && Outstanding(s)
      && s.key == random && s.callback == kind && s.seCallback && !IsDone(s, kind)
  {
    var a := Step(INIT, AsyncCall(kind)).next;
    StepKeepsInvariant(INIT, AsyncCall(kind));
    var b := Step(a, AsyncKey(random)).next;
    StepKeepsInvariant(a, AsyncKey(random));
    assert b.pcs[USER_CORE] == AsyncKeyed(kind, random);
    StepKeepsInvariant(b, AsyncHandler(Started));
    var s := Begun(kind, random);
    assert s.seCallback && s.key == random;
  }

  /** Concrete spoiling runs: a status or result query before the interrupt leaves the lock held for good. */
  lemma {:induction false} EarlyQueryWedges(kind: Kind, random: nat, size: nat, unwraps: bool, more: seq<Event>)
    requires random != 0
    ensures Step(Begun(kind, random), CheckStatus(random)).reply == Status(3)
    ensures Run(Step(Begun(kind, random), CheckStatus(random)).next, more).lock
    ensures size <= RESULT_LIMIT ==> Step(Begun(kind, random), GetResult(random, size, unwraps)).reply == Status(3)
    ensures size <= RESULT_LIMIT ==> Run(Step(Begun(kind, random), GetResult(random, size, unwraps)).next, more).lock
  {
    var s := Begun(kind, random);
    BegunState(kind, random);
    assert s.pcs[USER_CORE].Outside?;
    WedgedExactlyBySpoiling(s, CheckStatus(random));
    WedgedForever(Step(s, CheckStatus(random)).next, more);
    if size <= RESULT_LIMIT {
      WedgedExactlyBySpoiling(s, GetResult(random, size, unwraps));
      WedgedForever(Step(s, GetResult(random, size, unwraps)).next, more);
    }
  }

  lemma {:induction false} DoneState(kind: Kind, random: nat)
    requires random != 0
    ensures var s := Step(Begun(kind, random), Interrupt).next;
      Invariant(s) && !Wedged(s) && s.pcs[USER_CORE].Outside? && s.key == random && s.callback == kind
  {
    var s := Begun(kind, random);
    BegunState(kind, random);
    assert s.pcs[USER_CORE].Outside?;
    StepKeepsInvariant(s, Interrupt);
    WedgedExactlyBySpoiling(s, Interrupt);
  }

  lemma {:induction false} QueryWedges(s: State, e: Event, more: seq<Event>)
    requires Invariant(s) && !Wedged(s) && Spoils(s, e)
    ensures Run(Step(s, e).next, more).lock
  {
    WedgedExactlyBySpoiling(s, e);
    WedgedForever(Step(s, e).next, more);
  }

  /** So does, after the interrupt, a query with a wrong size for an exponentiation or a title key; a status query
      counts as size 0. Requests above the limit are refused without consuming the key and spoil nothing. */
  lemma {:induction false} WrongSizeWedges(kind: Kind, random: nat, size: nat, unwraps: bool, more: seq<Event>)
    requires random != 0 && !kind.CryptAes? && size != ExpectedSize(kind)
    ensures var done := Step(Begun(kind, random), Interrupt).next;
      && Run(Step(done, CheckStatus(random)).next, more).lock
      && (if size <= RESULT_LIMIT then Run(Step(done, GetResult(random, size, unwraps)).next, more).lock
          else Step(done, GetResult(random, size, unwraps)).next == done)
  {
    DoneState(kind, random);
    WrongSizeFrom(Step(Begun(kind, random), Interrupt).next, size, unwraps, more);
  }

  /** The same from any state that is not wedged, with a live key. */
  lemma {:induction false} WrongSizeFrom(s: State, size: nat, unwraps: bool, more: seq<Event>)
    requires Invariant(s) && !Wedged(s) && s.pcs[USER_CORE].Outside? && s.key != 0
    requires !s.callback.CryptAes? && size != ExpectedSize(s.callback)
    ensures Run(Step(s, CheckStatus(s.key)).next, more).lock
    ensures if size <= RESULT_LIMIT then Run(Step(s, GetResult(s.key, size, unwraps)).next, more).lock
            else Step(s, GetResult(s.key, size, unwraps)).next == s
  {
    QueryWedges(s, CheckStatus(s.key), more);
    if size <= RESULT_LIMIT {
      QueryWedges(s, GetResult(s.key, size, unwraps), more);
    }
  }

  function RandomReply(size: nat): nat {
    if size > 0x38 then 2 else 0
  }

  /** The step a core inside a call can take from where it is. */
  predicate OwnStep(pc: Pc, e: Event, core: CoreId) {
    match pc
    case Outside => false
    case SyncHeld => e.SyncHandler? && e.core == core
    case SyncDone(_) => e == SyncRelease(core)
    case SuspendHeld => (e.SuspendRefused? || e.Warmboot?) && e.core == core
    case RandomHeld(_) => e == RandomFresh(core)
    case RandomDone(_) => e == RandomRelease(core)
    case AsyncHeld(_) => e.AsyncKey?
    case AsyncKeyed(_, _) => e.AsyncHandler?
    case AsyncFailed(_) => e.AsyncRelease?
  }

  /** A core inside a lock-holding call is alone: nothing but its own next step changes anything. */
  lemma {:induction false} HolderAlone(s: State, e: Event, core: CoreId)
    requires Invariant(s) && !s.pcs[core].Outside? && !OwnStep(s.pcs[core], e, core)
    ensures Step(s, e).next == s
  {
    assert SomeCoreHolds(s);
    assert forall c: CoreId :: c != core ==> s.pcs[c].Outside?;
  }

  /** The core's own next step is not among these events. */
  ghost predicate Holds(pc: Pc, events: seq<Event>, core: CoreId) {
    forall k :: 0 <= k < |events| ==> !OwnStep(pc, events[k], core)
  }

  lemma {:induction false} HolderWaits(s: State, events: seq<Event>, core: CoreId)
    requires Invariant(s) && !s.pcs[core].Outside? && Holds(s.pcs[core], events, core)
    ensures Run(s, events) == s
    decreases |events|
  {
    if events != [] {
      HolderAlone(s, events[0], core);
      HolderWaits(s, events[1..], core);
    }
  }

  // ---- Replies -------------------------------------------------------------------------------------

  /** A core whose handler has returned answers that result, whatever happens meanwhile, and frees the lock. */
  lemma {:induction false} ReturnedIsAnswered(s: State, core: CoreId, result: nat, wait: seq<Event>)
    requires Invariant(s) && s.pcs[core] == SyncDone(result)
    requires forall k :: 0 <= k < |wait| ==> wait[k] != SyncRelease(core)
    ensures var done := Step(Run(s, wait), SyncRelease(core));
      done.reply == Some(result) && !done.next.lock && done.next.pcs[core].Outside?
  {
    HolderWaits(s, wait, core);
  }

  /** smc_wrapper_sync hands on what its handler returned, in every run. */
  lemma {:induction false} SyncReplyIsHandedOn(events: seq<Event>, core: CoreId, result: nat, wait: seq<Event>)
    requires Run(INIT, events).pcs[core].SyncHeld?
    requires forall k :: 0 <= k < |wait| ==> wait[k] != SyncRelease(core)
    ensures var done := Step(Run(Step(Run(INIT, events), SyncHandler(core, result)).next, wait), SyncRelease(core));
      done.reply == Some(result) && !done.next.lock && done.next.pcs[core].Outside?
  {
    RunKeepsInvariant(INIT, events);
    StepKeepsInvariant(Run(INIT, events), SyncHandler(core, result));
    ReturnedIsAnswered(Step(Run(INIT, events), SyncHandler(core, result)).next, core, result, wait);
  }

  /** So does a suspend that is refused. */
  lemma {:induction false} SuspendRefusalIsHandedOn(events: seq<Event>, core: CoreId, result: nat, wait: seq<Event>)
    requires Run(INIT, events).pcs[core].SuspendHeld?
    requires forall k :: 0 <= k < |wait| ==> wait[k] != SyncRelease(core)
    ensures var done := Step(Run(Step(Run(INIT, events), SuspendRefused(core, result)).next, wait), SyncRelease(core));
      done.reply == Some(result) && !done.next.lock && done.next.pcs[core].Outside?
  {
    RunKeepsInvariant(INIT, events);
    StepKeepsInvariant(Run(INIT, events), SuspendRefused(core, result));
    ReturnedIsAnswered(Step(Run(INIT, events), SuspendRefused(core, result)).next, core, result, wait);
  }

  lemma {:induction false} FailureIsAnswered(s: State, result: nat, wait: seq<Event>)
    requires Invariant(s) && s.pcs[USER_CORE] == AsyncFailed(result)
    requires forall k :: 0 <= k < |wait| ==> !wait[k].AsyncRelease?
    ensures var done := Step(Run(s, wait), AsyncRelease);
      done.reply == Some(result) && !done.next.lock && done.next.key == 0 && done.next.pcs[USER_CORE].Outside?
  {
    HolderWaits(s, wait, USER_CORE);
    assert SomeCoreHolds(s);
  }

  /** What an asynchronous call answers: 0 at once when its handler started an operation or had nothing to do;
      otherwise, through any waiting, 2 for refused arguments and 1 for an unknown AES mode. */
  lemma {:induction false} AsyncReplies(events: seq<Event>, how: Handling, wait: seq<Event>)
    requires Run(INIT, events).pcs[USER_CORE].AsyncKeyed?
    requires forall k :: 0 <= k < |wait| ==> !wait[k].AsyncRelease?
    ensures var s := Run(INIT, events);
      var aes := s.pcs[USER_CORE].kind.CryptAes?;
      var handled := Step(s, AsyncHandler(how));
      if how.Started? || (how.NothingToDo? && aes) then
        handled.reply == Some(0) && handled.next.lock && handled.next.key == s.key
      else
        var done := Step(Run(handled.next, wait), AsyncRelease);
        && done.reply == Some(if how.RefusedLate? && aes then 1 else 2)
        && !done.next.lock && done.next.key == 0 && done.next.pcs[USER_CORE].Outside?
  {
    RunKeepsInvariant(INIT, events);
    HandlerReplies(Run(INIT, events), how, wait);
  }

  lemma {:induction false} HandlerReplies(s: State, how: Handling, wait: seq<Event>)
    requires Invariant(s) && s.pcs[USER_CORE].AsyncKeyed?
    requires forall k :: 0 <= k < |wait| ==> !wait[k].AsyncRelease?
    ensures var aes := s.pcs[USER_CORE].kind.CryptAes?;
      var handled := Step(s, AsyncHandler(how));
      if how.Started? || (how.NothingToDo? && aes) then
        handled.reply == Some(0) && handled.next.lock && handled.next.key == s.key
      else
        var done := Step(Run(handled.next, wait), AsyncRelease);
        && done.reply == Some(if how.RefusedLate? && aes then 1 else 2)
        && !done.next.lock && done.next.key == 0 && done.next.pcs[USER_CORE].Outside?
  {
    var aes := s.pcs[USER_CORE].kind.CryptAes?;
    assert SomeCoreHolds(s);
    StepKeepsInvariant(s, AsyncHandler(how));
    if !(how.Started? || (how.NothingToDo? && aes)) {
      FailureIsAnswered(Step(s, AsyncHandler(how)).next, if how.RefusedLate? && aes then 1 else 2, wait);
    }
  }

  /** Without a random key it answers 3. */
  lemma {:induction false} NoKeyReplies(events: seq<Event>, wait: seq<Event>)
    requires Run(INIT, events).pcs[USER_CORE].AsyncHeld?
    requires forall k :: 0 <= k < |wait| ==> !wait[k].AsyncRelease?
    ensures var done := Step(Run(Step(Run(INIT, events), AsyncKey(0)).next, wait), AsyncRelease);
      done.reply == Some(3) && !done.next.lock && done.next.key == 0 && done.next.pcs[USER_CORE].Outside?
  {
    RunKeepsInvariant(INIT, events);
    StepKeepsInvariant(Run(INIT, events), AsyncKey(0));
    FailureIsAnswered(Step(Run(INIT, events), AsyncKey(0)).next, 3, wait);
  }

  /** While the lock is held every call that needs it is answered 3 and changes nothing. */
  lemma {:induction false} BusyReplies(s: State, core: CoreId, kind: Kind)
    requires s.lock
    ensures s.pcs[core].Outside? ==> Step(s, SyncCall(core)) == Outcome(s, Some(3))
    ensures s.pcs[core].Outside? ==> Step(s, SuspendCall(core)) == Outcome(s, Some(3))
    ensures s.pcs[USER_CORE].Outside? ==> Step(s, AsyncCall(kind)) == Outcome(s, Some(3))
  {
  }

  /** A live key in a query: the operation it belongs to is still running exactly when its done flag is down. */
  ghost predicate Finished(s: State) {
    if s.callback.CryptAes? then s.cryptAesDone else s.expModDone
  }

  /** What a result query answers, in every run: 4 without a call outstanding, 5 for a wrong key, 2 above 0x400
      bytes, none of which changes anything; then a status, which uses up the key: 3 exactly while the operation
      runs, 2 exactly for a wrong size or a failed unwrap, 0 otherwise. The lock is freed exactly when the operation
      is finished and the size right. */
  lemma {:induction false} ResultReplies(events: seq<Event>, key: nat, size: nat, unwraps: bool)
    requires Run(INIT, events).pcs[USER_CORE].Outside?
    ensures var s := Run(INIT, events);
      var r := Step(s, GetResult(key, size, unwraps));
      var right := s.callback.CryptAes? || size == (if s.callback.ExpMod? then 0x100 else 0x10);
      if s.key == 0 then r == Outcome(s, Some(4))
      else if key != s.key then r == Outcome(s, Some(5))
      else if size > 0x400 then r == Outcome(s, Some(2))
      else
        && r.reply.Status? && r.next.key == 0
        && (r.reply.code == 3 <==> !Finished(s))
        && (r.reply.code == 2 <==> Finished(s) && (!right || (s.callback.Titlekey? && !unwraps)))
        && (r.reply.code == 0 <==> Finished(s) && right && (s.callback.Titlekey? ==> unwraps))
        && (!r.next.lock <==> Finished(s) && right)
  {
    RunKeepsInvariant(INIT, events);
  }

  /** Likewise a status query, which stands for size 0 and so finishes an AES operation only. */
  lemma {:induction false} StatusReplies(events: seq<Event>, key: nat)
    requires Run(INIT, events).pcs[USER_CORE].Outside?
    ensures var s := Run(INIT, events);
      var r := Step(s, CheckStatus(key));
      if s.key == 0 then r == Outcome(s, Some(4))
      else if key != s.key then r == Outcome(s, Some(5))
      else
        && r.reply.Status? && r.next.key == 0
        && (r.reply.code == 3 <==> !Finished(s))
        && (r.reply.code == 2 <==> Finished(s) && !s.callback.CryptAes?)
        && (r.reply.code == 0 <==> Finished(s) && s.callback.CryptAes?)
        && (!r.next.lock <==> Finished(s) && s.callback.CryptAes?)
  {
    RunKeepsInvariant(INIT, events);
  }

  /** The done flag of an operation that was started goes up with its interrupt and no earlier. */
  lemma {:induction false} FinishedByInterrupt(s: State, events: seq<Event>)
    requires Invariant(s) && s.seCallback
    requires forall k :: 0 <= k < |events| ==> events[k] != Interrupt
    ensures var t := Run(s, events);
      && t.seCallback && t.callback == s.callback && !Finished(t) && Finished(Step(t, Interrupt).next)
    decreases |events|
  {
    assert s.pcs[USER_CORE].Outside?;
    if events != [] {
      var e := events[0];
      if !OnCoreThree(e) {
        OutstandingTurnsAway(s, e);
      }
      StepKeepsInvariant(s, e);
      FinishedByInterrupt(Step(s, e).next, events[1..]);
    }
  }

  /** The kernel is never refused random bytes, in any run: a request is answered from the cache at once when the
      lock is held; otherwise it takes the lock, keeps it and its place through whatever the other cores, the
      user and the engine do, and its own two remaining steps answer it and free the lock. */
  lemma {:induction false} KernelRandomNeverRefused(events: seq<Event>, core: CoreId, size: nat, first: seq<Event>,
                                                    second: seq<Event>)
    requires Run(INIT, events).pcs[core].Outside?
    requires Holds(RandomHeld(size), first, core) && Holds(RandomDone(RandomReply(size)), second, core)
    ensures var s := Run(INIT, events);
      if s.lock then Step(s, RandomCall(core, size)) == Outcome(s, Some(if size > 0x38 then 2 else 0))
      else
        var held := Run(Step(s, RandomCall(core, size)).next, first);
        var served := Run(Step(held, RandomFresh(core)).next, second);
        && held.lock && held.pcs[core] == RandomHeld(size)
        && served.lock && served.pcs[core] == RandomDone(RandomReply(size))
        && Step(served, RandomRelease(core)).reply == Some(RandomReply(size))
        && Step(served, RandomRelease(core)).next == s
  {
    var s := Run(INIT, events);
    RunKeepsInvariant(INIT, events);
    if !s.lock {
      var held := Step(s, RandomCall(core, size)).next;
      StepKeepsInvariant(s, RandomCall(core, size));
      HolderWaits(held, first, core);
      var served := Step(held, RandomFresh(core)).next;
      StepKeepsInvariant(held, RandomFresh(core));
      HolderWaits(served, second, core);
      assert !s.seCallback;
      assert Step(served, RandomRelease(core)).next.pcs == s.pcs;
    }
  }
}

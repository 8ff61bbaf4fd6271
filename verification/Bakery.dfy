/** The four-core bakery lock (exosphere/src/synchronization.h) as a step system.

    Every step of a core is one read or one write of the shared customers array, so a schedule (the
    sequence of cores that take a step) ranges over all sequentially consistent interleavings. The
    maximum loop is modelled twice: `Intended` reads the ticket of customer k, as the comment's
    algorithm does; `Literal` reads the core's own ticket each time, as the code is written.
 */
module Bakery {

  const CORES: nat := 4
  const TICKET_LIMIT: nat := 128 // ticket_number is a 7-bit field

  datatype Variant = Intended | Literal

  datatype Pc =
    | Idle
    | Scan(k: nat, max: nat)     // is_entering set; about to read a ticket for the k-th time
    | Choose(max: nat)           // about to write the ticket max + 1
    | Announce(my: nat)          // ticket written; about to clear is_entering
    | AwaitDoor(i: nat, my: nat) // about to read is_entering of customer i
    | AwaitTurn(i: nat, my: nat) // about to read the ticket of customer i
    | Critical(my: nat)

  datatype Core = Core(pc: Pc, entering: bool, ticket: nat)

  type State = s: seq<Core> | |s| == 4 witness seq(4, _ => Core(Idle, false, 0))

  /** All cores outside; the boot code starts from a state this one reaches, see BootStateIsReached. */
  const INIT: State := [Core(Idle, false, 0), Core(Idle, false, 0), Core(Idle, false, 0), Core(Idle, false, 0)]

  type CoreId = x: int | 0 <= x < 4

  function Max(a: nat, b: nat): nat {
    if a > b then a else b
  }

  /** The ticket test of the second wait loop: customer i's ticket t makes core id wait. */
  predicate Blocks(t: nat, i: nat, my: nat, id: nat) {
    t != 0 && (t < my || (t == my && i < id))
  }

  /** What core `id` does next: one shared read or write. A wait loop that must go round again leaves
      the state as it is. */
  function Step(v: Variant, s: State, id: CoreId): State {
    var c := s[id];
    match c.pc
    case Idle => s[id := Core(Scan(0, 0), true, c.ticket)]
    case Scan(k, max) =>
      var read := if v.Literal? || k >= CORES then s[id].ticket else s[k].ticket;
      var max' := Max(read, max);
      s[id := c.(pc := if k + 1 < CORES then Scan(k + 1, max') else Choose(max'))]
    case Choose(max) => s[id := c.(pc := Announce(max + 1), ticket := (max + 1) % TICKET_LIMIT)]
    case Announce(my) => s[id := c.(pc := AwaitDoor(0, my), entering := false)]
    case AwaitDoor(i, my) => if i < CORES && s[i].entering then s else s[id := c.(pc := AwaitTurn(i, my))]
    case AwaitTurn(i, my) =>
      if i < CORES && Blocks(s[i].ticket, i, my, id) then s
      else s[id := c.(pc := if i + 1 < CORES then AwaitDoor(i + 1, my) else Critical(my))]
    case Critical(_) => s[id := Core(Idle, c.entering, 0)]
  }

  function Run(v: Variant, schedule: seq<CoreId>): State {
    if schedule == [] then INIT else Step(v, Run(v, schedule[..|schedule| - 1]), schedule[|schedule| - 1])
  }

  // ---- Properties of states ----------------------------------------------------------------------

  ghost predicate MutuallyExclusive(s: State) {
    forall i, j :: 0 <= i < CORES && 0 <= j < CORES && s[i].pc.Critical? && s[j].pc.Critical? ==> i == j
  }

  /** Core c has finished waiting for customer j. */
  predicate Past(c: Core, j: nat) {
    match c.pc
    case AwaitDoor(i, _) => j < i
    case AwaitTurn(i, _) => j < i
    case Critical(_) => true
    case _ => false
  }

  /** Core c has seen customer j outside the doorway since it took its own ticket. */
  predicate SawDoorOpen(c: Core, j: nat) {
    Past(c, j) || (c.pc.AwaitTurn? && c.pc.i == j)
  }

  /** What holds between a core's program point, flag and ticket. */
  predicate Shape(c: Core) {
    match c.pc
    case Idle => !c.entering && c.ticket == 0
    case Scan(k, max) => c.entering && c.ticket == 0 && k < CORES && max < TICKET_LIMIT
    case Choose(max) => c.entering && c.ticket == 0 && max < TICKET_LIMIT
    case Announce(my) => c.entering && c.ticket == my && 0 < my < TICKET_LIMIT
    case AwaitDoor(i, my) => !c.entering && c.ticket == my && 0 < my < TICKET_LIMIT && i < CORES
    case AwaitTurn(i, my) => !c.entering && c.ticket == my && 0 < my < TICKET_LIMIT && i < CORES
    case Critical(my) => !c.entering && c.ticket == my && 0 < my < TICKET_LIMIT
  }

  predicate Shapes(s: State) {
    forall i :: 0 <= i < CORES ==> Shape(s[i])
  }

  // ---- The intended algorithm --------------------------------------------------------------------

  /** Core j, if it is still choosing, will take a ticket above t: it has not read customer i yet, or
      its running maximum already covers t. */
  predicate WillExceed(j: Core, i: nat, t: nat) {
    match j.pc
    case Scan(k, max) => k <= i || t <= max
    case Choose(max) => t <= max
    case _ => true
  }

  predicate Before(ti: nat, i: nat, tj: nat, j: nat) {
    ti < tj || (ti == tj && i < j)
  }

  /** What core i has established about core j by waiting for it. */
  predicate Ordered(s: State, i: nat, j: nat)
    requires i < CORES && j < CORES
  {
    && (SawDoorOpen(s[i], j) ==> WillExceed(s[j], i, s[i].ticket))
    && (Past(s[i], j) ==> s[j].ticket == 0 || Before(s[i].ticket, i, s[j].ticket, j))
  }

  ghost predicate Invariant(s: State) {
    && Shapes(s)
    && forall i, j :: 0 <= i < CORES && 0 <= j < CORES && i != j ==> Ordered(s, i, j)
  }

  /** The next step of core id does not overflow the 7-bit ticket. */
  predicate TicketFits(s: State, id: CoreId) {
    s[id].pc.Choose? ==> s[id].pc.max + 1 < TICKET_LIMIT
  }

  /** No ticket written along the schedule reaches 128. */
  ghost predicate TicketsFit(v: Variant, schedule: seq<CoreId>) {
    schedule != [] ==>
      var before := schedule[..|schedule| - 1];
      TicketsFit(v, before) && TicketFits(Run(v, before), schedule[|schedule| - 1])
  }

  lemma {:induction false} StepShapes(v: Variant, s: State, id: CoreId)
    requires Shapes(s) && TicketFits(s, id)
    ensures Shapes(Step(v, s, id))
  {
  }

  lemma {:induction false} StepFrame(v: Variant, s: State, id: CoreId)
    ensures forall j :: 0 <= j < CORES && j != id ==> Step(v, s, id)[j] == s[j]
  {
  }

  /** The stepping core keeps what it knows of j. */
  lemma {:induction false} StepOrdersMover(s: State, id: CoreId, j: CoreId)
    requires Invariant(s) && TicketFits(s, id) && id != j
    ensures Ordered(Step(Intended, s, id), id, j)
  {
    assert Ordered(s, id, j) && Shape(s[j]) && Shape(s[id]);
  }

  /** A step of j keeps what another core i knows of it. */
  lemma {:induction false} StepOrdersWatcher(s: State, i: CoreId, id: CoreId)
    requires Invariant(s) && TicketFits(s, id) && id != i
    ensures Ordered(Step(Intended, s, id), i, id)
  {
    assert Ordered(s, i, id) && Shape(s[i]) && Shape(s[id]);
  }

  lemma {:induction false} StepKeepsInvariant(s: State, id: CoreId)
    requires Invariant(s) && TicketFits(s, id)
    ensures Invariant(Step(Intended, s, id))
  {
    var s' := Step(Intended, s, id);
    StepShapes(Intended, s, id);
    StepFrame(Intended, s, id);
    forall i, j | 0 <= i < CORES && 0 <= j < CORES && i != j ensures Ordered(s', i, j) {
      if i == id {
        StepOrdersMover(s, id, j);
      } else if j == id {
        StepOrdersWatcher(s, i, id);
      } else {
        assert Ordered(s, i, j);
      }
    }
  }

  lemma {:induction false} ReachableInvariant(schedule: seq<CoreId>)
    requires TicketsFit(Intended, schedule)
    ensures Invariant(Run(Intended, schedule))
  {
    if schedule != [] {
      var before := schedule[..|schedule| - 1];
      ReachableInvariant(before);
      StepKeepsInvariant(Run(Intended, before), schedule[|schedule| - 1]);
    }
  }

  /** No interleaving of the intended algorithm puts two cores between enter and leave while tickets
      stay below 128. */
  lemma {:induction false} MutualExclusion(schedule: seq<CoreId>)
    requires TicketsFit(Intended, schedule)
    ensures MutuallyExclusive(Run(Intended, schedule))
  {
    ReachableInvariant(schedule);
    var s := Run(Intended, schedule);
    forall i, j | 0 <= i < CORES && 0 <= j < CORES && s[i].pc.Critical? && s[j].pc.Critical? ensures i == j {
      assert Shape(s[i]) && Shape(s[j]);
      assert i != j ==> Ordered(s, i, j) && Ordered(s, j, i);
    }
  }

  // ---- First come, first served --------------------------------------------------------------------

  predicate Waiting(c: Core) {
    c.pc.AwaitDoor? || c.pc.AwaitTurn?
  }

  /** While core i waits, core j, which came later, has drawn or will draw a later ticket and has not got past i. */
  predicate Behind(s: State, i: CoreId, j: CoreId) {
    && Waiting(s[i])
    && match s[j].pc
       case Idle => true
       case Scan(k, max) => k <= i || s[i].ticket <= max
       case Choose(max) => s[i].ticket <= max
       case Announce(my) => s[i].ticket < my
       case AwaitDoor(k, my) => s[i].ticket < my && k <= i
       case AwaitTurn(k, my) => s[i].ticket < my && k <= i
       case Critical(_) => false
  }

  lemma {:induction false} StaysBehind(s: State, i: CoreId, j: CoreId, id: CoreId)
    requires Shapes(s) && i != j && Behind(s, i, j) && Waiting(Step(Intended, s, id)[i])
    ensures Behind(Step(Intended, s, id), i, j)
  {
    StepFrame(Intended, s, id);
    assert Shape(s[i]) && Shape(s[j]);
  }

  /** Core i waits in every state that the continuation passes through. */
  ghost predicate WaitsThrough(schedule: seq<CoreId>, more: seq<CoreId>, i: CoreId) {
    && Waiting(Run(Intended, schedule + more)[i])
    && (more != [] ==> WaitsThrough(schedule, more[..|more| - 1], i))
  }

  lemma {:induction false} BehindThrough(schedule: seq<CoreId>, more: seq<CoreId>, i: CoreId, j: CoreId)
    requires TicketsFit(Intended, schedule + more) && i != j
    requires Run(Intended, schedule)[j].pc.Idle? && WaitsThrough(schedule, more, i)
    ensures Behind(Run(Intended, schedule + more), i, j)
    decreases |more|
  {
    if more == [] {
      assert schedule + more == schedule;
    } else {
      var before, id := more[..|more| - 1], more[|more| - 1];
      assert (schedule + more)[..|schedule + more| - 1] == schedule + before;
      BehindThrough(schedule, before, i, j);
      ReachableInvariant(schedule + before);
      StaysBehind(Run(Intended, schedule + before), i, j, id);
    }
  }

  /** The intended algorithm serves in order of arrival: if core i is past the doorway while core j has not set
      its flag, j is not inside at any later point before i has been. */
  lemma {:induction false} FirstComeFirstServed(schedule: seq<CoreId>, more: seq<CoreId>, i: CoreId, j: CoreId)
    requires TicketsFit(Intended, schedule + more)
    requires Run(Intended, schedule)[j].pc.Idle? && WaitsThrough(schedule, more, i)
    ensures !Run(Intended, schedule + more)[j].pc.Critical?
  {
    if i != j {
      BehindThrough(schedule, more, i, j);
    }
  }

  // ---- Deadlock freedom --------------------------------------------------------------------------

  /** Core id is inside enter or the critical section and its next step is not another turn of a wait loop. */
  predicate CanAdvance(v: Variant, s: State, id: CoreId) {
    !s[id].pc.Idle? && Step(v, s, id) != s
  }

  /** Among cores that are all idle or waiting, the one with the least (ticket, id) can go on. */
  lemma {:induction false} LeastWaiter(s: State, id: CoreId, n: nat) returns (least: CoreId)
    requires Shapes(s) && Waiting(s[id]) && n <= CORES
    ensures Waiting(s[least])
    ensures forall j :: 0 <= j < n && Waiting(s[j]) && j != least ==> Before(s[least].ticket, least, s[j].ticket, j)
  {
    if n == 0 {
      least := id;
    } else {
      least := LeastWaiter(s, id, n - 1);
      if Waiting(s[n - 1]) && Before(s[n - 1].ticket, n - 1, s[least].ticket, least) {
        least := n - 1;
      }
    }
  }

  lemma {:induction false} NoDeadlock(v: Variant, s: State)
    requires Shapes(s)
    requires exists id: CoreId :: !s[id].pc.Idle?
    ensures exists id: CoreId :: CanAdvance(v, s, id)
  {
    var id: CoreId :| !s[id].pc.Idle?;
    if busy: CoreId :| !s[busy].pc.Idle? && !Waiting(s[busy]) {
      assert Step(v, s, busy)[busy].pc != s[busy].pc;
      assert CanAdvance(v, s, busy);
    } else {
      var least := LeastWaiter(s, id, CORES);
      var c := s[least];
      assert Shape(c) && Shape(s[c.pc.i]);
      assert c.pc.i != least && Waiting(s[c.pc.i]) ==> Before(c.ticket, least, s[c.pc.i].ticket, c.pc.i);
      assert Step(v, s, least)[least].pc != c.pc;
      assert CanAdvance(v, s, least);
    }
  }

  // ---- The code as written -----------------------------------------------------------------------

  /** Reading only its own (empty) slot, a core always takes ticket 1. */
  predicate OneTicket(c: Core) {
    match c.pc
    case Scan(_, max) => max == 0
    case Choose(max) => max == 0
    case Idle => true
    case _ => c.pc.my == 1
  }

  ghost predicate LiteralInvariant(s: State) {
    Shapes(s) && forall i :: 0 <= i < CORES ==> OneTicket(s[i])
  }

  lemma {:induction false} LiteralTicketIsOne(schedule: seq<CoreId>)
    ensures LiteralInvariant(Run(Literal, schedule))
    ensures TicketsFit(Literal, schedule)
    ensures forall i :: 0 <= i < CORES ==> Run(Literal, schedule)[i].ticket <= 1
  {
    if schedule != [] {
      var before := schedule[..|schedule| - 1];
      LiteralTicketIsOne(before);
      var s, id := Run(Literal, before), schedule[|schedule| - 1];
      assert Shape(s[id]) && OneTicket(s[id]);
      StepShapes(Literal, s, id);
      StepFrame(Literal, s, id);
      var s' := Step(Literal, s, id);
      forall i | 0 <= i < CORES ensures OneTicket(s'[i]) && s'[i].ticket <= 1 {
        assert i != id ==> s'[i] == s[i];
        assert Shape(s'[i]);
      }
    }
  }

  /** In every reachable state, of either variant, where some core has started to enter, some core that
      has can go on. */
  lemma {:induction false} DeadlockFree(v: Variant, schedule: seq<CoreId>)
    requires v.Intended? ==> TicketsFit(Intended, schedule)
    requires exists id: CoreId :: !Run(v, schedule)[id].pc.Idle?
    ensures exists id: CoreId :: CanAdvance(v, Run(v, schedule), id)
  {
    if v.Intended? {
      ReachableInvariant(schedule);
    } else {
      LiteralTicketIsOne(schedule);
    }
    NoDeadlock(v, Run(v, schedule));
  }

  /** n consecutive steps of one core. */
  function Solo(v: Variant, s: State, id: CoreId, n: nat): State
    decreases n
  {
    if n == 0 then s else Solo(v, Step(v, s, id), id, n - 1)
  }

  /** Nothing makes core id wait: no other core is choosing, and only higher-numbered cores hold tickets. */
  ghost predicate Unhindered(s: State, id: CoreId) {
    forall j :: 0 <= j < CORES && j != id ==> !s[j].entering && (s[j].ticket == 0 || (s[j].ticket == 1 && id < j))
  }

  lemma {:induction false} SoloSplit(v: Variant, s: State, id: CoreId, m: nat, n: nat)
    ensures Solo(v, s, id, m + n) == Solo(v, Solo(v, s, id, m), id, n)
    decreases m
  {
    if m > 0 {
      SoloSplit(v, Step(v, s, id), id, m - 1, n);
    }
  }

  lemma {:induction false} TakeTicket(s: State, id: CoreId)
    requires s[id] == Core(Idle, false, 0)
    ensures Solo(Literal, s, id, 7) == s[id := Core(AwaitDoor(0, 1), false, 1)]
  {
    var s1 := Step(Literal, s, id);
    assert s1 == s[id := Core(Scan(0, 0), true, 0)];
    var s2 := Step(Literal, s1, id);
    assert s2 == s[id := Core(Scan(1, 0), true, 0)];
    var s3 := Step(Literal, s2, id);
    assert s3 == s[id := Core(Scan(2, 0), true, 0)];
    var s4 := Step(Literal, s3, id);
    assert s4 == s[id := Core(Scan(3, 0), true, 0)];
    var s5 := Step(Literal, s4, id);
    assert s5 == s[id := Core(Choose(0), true, 0)];
    var s6 := Step(Literal, s5, id);
    assert s6 == s[id := Core(Announce(1), true, 1)];
    var s7 := Step(Literal, s6, id);
    assert s7 == s[id := Core(AwaitDoor(0, 1), false, 1)];
    assert Solo(Literal, s, id, 7) == Solo(Literal, s1, id, 6) == Solo(Literal, s2, id, 5) == Solo(Literal, s3, id, 4);
    assert Solo(Literal, s3, id, 4) == Solo(Literal, s4, id, 3) == Solo(Literal, s5, id, 2) ==
      Solo(Literal, s6, id, 1) == Solo(Literal, s7, id, 0) == s7;
  }

  /** No other core is choosing or holds a ticket that makes core id, with ticket `my`, wait. */
  ghost predicate Free(s: State, id: CoreId, my: nat) {
    forall j :: 0 <= j < CORES && j != id ==> !s[j].entering && !Blocks(s[j].ticket, j, my, id)
  }

  function Point(k: nat, my: nat): Pc {
    if k < CORES then AwaitDoor(k, my) else Critical(my)
  }

  /** A free core passes the customers from i up to k, two steps each. */
  lemma {:induction false} PassTo(v: Variant, s: State, id: CoreId, i: nat, k: nat, my: nat, n: nat)
    requires Free(s, id, my) && i <= k <= CORES && n == 2 * (k - i)
    requires s[id].pc == Point(i, my) && !s[id].entering && (s[id].ticket == my || s[id].ticket == 0)
    ensures Solo(v, s, id, n) == s[id := s[id].(pc := Point(k, my))]
    decreases n
  {
    if i < k {
      var s1 := s[id := s[id].(pc := AwaitTurn(i, my))];
      assert Step(v, s, id) == s1;
      var s2 := s[id := s[id].(pc := Point(i + 1, my))];
      assert s1[i].ticket == s[i].ticket;
      assert Step(v, s1, id) == s2;
      PassTo(v, s2, id, i + 1, k, my, n - 2);
      assert Solo(v, s, id, n) == Solo(v, s1, id, n - 1) == Solo(v, s2, id, n - 2);
    }
  }

  /** An unhindered core reaches the critical section in fifteen steps of its own. */
  lemma {:induction false} SoloEntry(s: State, id: CoreId, n: nat)
    requires Unhindered(s, id) && s[id] == Core(Idle, false, 0) && n == 15
    ensures Solo(Literal, s, id, n) == s[id := Core(Critical(1), false, 1)]
  {
    TakeTicket(s, id);
    SoloSplit(Literal, s, id, 7, n - 7);
    PassTo(Literal, s[id := Core(AwaitDoor(0, 1), false, 1)], id, 0, CORES, 1, n - 7);
  }

  lemma {:induction false} RunAppendSolo(v: Variant, schedule: seq<CoreId>, id: CoreId, n: nat)
    ensures Run(v, schedule + seq(n, _ => id)) == Solo(v, Run(v, schedule), id, n)
  {
    if n == 0 {
      assert schedule + seq(0, _ => id) == schedule;
    } else {
      var longer := schedule + seq(n, _ => id);
      assert longer[..|longer| - 1] == schedule + seq(n - 1, _ => id);
      RunAppendSolo(v, schedule, id, n - 1);
      SoloSplit(v, Run(v, schedule), id, n - 1, 1);
      var s := Solo(v, Run(v, schedule), id, n - 1);
      assert Solo(v, s, id, 1) == Solo(v, Step(v, s, id), id, 0) == Step(v, s, id);
    }
  }

  /** Only these cores take steps. */
  ghost predicate Over(schedule: seq<CoreId>, cores: set<CoreId>) {
    forall k :: 0 <= k < |schedule| ==> schedule[k] in cores
  }

  lemma {:induction false} BystandersIdle(schedule: seq<CoreId>, cores: set<CoreId>, j: CoreId)
    requires Over(schedule, cores) && j !in cores
    ensures Run(Literal, schedule)[j] == INIT[j]
  {
    if schedule != [] {
      var before := schedule[..|schedule| - 1];
      BystandersIdle(before, cores, j);
      StepFrame(Literal, Run(Literal, before), schedule[|schedule| - 1]);
    }
  }

  lemma {:induction false} FirstEnters(id: CoreId, n: nat)
    requires n == 15
    ensures Run(Literal, seq(n, _ => id)) == INIT[id := Core(Critical(1), false, 1)]
  {
    var first: seq<CoreId> := seq(n, _ => id);
    assert [] + first == first;
    RunAppendSolo(Literal, [], id, n);
    SoloEntry(INIT, id, n);
  }

  /** For every pair of cores the code as written has a run with both in the critical section: the
      higher-numbered core enters, then the lower-numbered one walks past it. */
  lemma {:induction false} LiteralAdmitsTwo(low: CoreId, high: CoreId) returns (schedule: seq<CoreId>)
    requires low < high
    ensures Run(Literal, schedule)[low].pc.Critical?
    ensures Run(Literal, schedule)[high].pc.Critical?
    ensures !MutuallyExclusive(Run(Literal, schedule))
    ensures Over(schedule, {low, high})
  {
    var n: nat :| n == 15;
    var first: seq<CoreId> := seq(n, _ => high);
    FirstEnters(high, n);
    schedule := first + seq(n, _ => low);
    RunAppendSolo(Literal, first, low, n);
    SoloEntry(Run(Literal, first), low, n);
  }

  lemma {:induction false} OneElement(cores: set<CoreId>, i: CoreId, j: CoreId)
    requires |cores| <= 1 && i in cores && j in cores
    ensures i == j
  {
    assert |cores - {i}| == 0;
    assert j !in cores - {i};
  }

  lemma {:induction false} LoneCoreExcludes(cores: set<CoreId>, schedule: seq<CoreId>)
    requires |cores| <= 1 && Over(schedule, cores)
    ensures MutuallyExclusive(Run(Literal, schedule))
  {
    var s := Run(Literal, schedule);
    forall i, j | 0 <= i < CORES && 0 <= j < CORES && s[i].pc.Critical? && s[j].pc.Critical? ensures i == j {
      if i !in cores { BystandersIdle(schedule, cores, i); }
      if j !in cores { BystandersIdle(schedule, cores, j); }
      OneElement(cores, i, j);
    }
  }

  /** The code as written excludes, over all interleavings of a set of cores, exactly when that set has at most
      one core. */
  lemma {:induction false} LiteralExcludesIff(cores: set<CoreId>)
    ensures (forall schedule: seq<CoreId> :: Over(schedule, cores) ==> MutuallyExclusive(Run(Literal, schedule)))
      <==> |cores| <= 1
  {
    if |cores| <= 1 {
      forall schedule: seq<CoreId> | Over(schedule, cores) ensures MutuallyExclusive(Run(Literal, schedule)) {
        LoneCoreExcludes(cores, schedule);
      }
    } else {
      var i :| i in cores;
      assert |cores - {i}| > 0;
      var j :| j in cores - {i};
      var schedule := LiteralAdmitsTwo(if i < j then i else j, if i < j then j else i);
      assert Over(schedule, cores);
    }
  }

  /** The discipline under which the code as written does exclude: a core starts to enter only while
      every higher-numbered core is idle. */
  predicate StartsInOrder(s: State, id: CoreId) {
    s[id].pc.Idle? ==> forall j :: id < j < CORES ==> s[j].pc.Idle?
  }

  ghost predicate Disciplined(schedule: seq<CoreId>) {
    schedule != [] ==>
      var before := schedule[..|schedule| - 1];
      Disciplined(before) && StartsInOrder(Run(Literal, before), schedule[|schedule| - 1])
  }

  /** Once the higher core `hi` saw the lower core `lo` outside the doorway, `lo` does not choose again;
      once `hi` passed it, `lo` is idle. */
  predicate LowStaysOut(s: State, lo: nat, hi: nat)
    requires lo < hi < CORES
  {
    && (SawDoorOpen(s[hi], lo) ==> !s[lo].entering)
    && (Past(s[hi], lo) ==> s[lo].pc.Idle?)
  }

  lemma {:induction false} DisciplineKeepsOut(schedule: seq<CoreId>)
    requires Disciplined(schedule)
    ensures forall lo, hi :: 0 <= lo < hi < CORES ==> LowStaysOut(Run(Literal, schedule), lo, hi)
  {
    if schedule != [] {
      var before := schedule[..|schedule| - 1];
      DisciplineKeepsOut(before);
      LiteralTicketIsOne(before);
      var s, id := Run(Literal, before), schedule[|schedule| - 1];
      StepFrame(Literal, s, id);
      var s' := Step(Literal, s, id);
      forall lo, hi | 0 <= lo < hi < CORES ensures LowStaysOut(s', lo, hi) {
        assert LowStaysOut(s, lo, hi) && Shape(s[lo]) && Shape(s[hi]) && OneTicket(s[lo]) && OneTicket(s[hi]);
      }
    }
  }

  lemma {:induction false} LiteralExclusionInOrder(schedule: seq<CoreId>)
    requires Disciplined(schedule)
    ensures MutuallyExclusive(Run(Literal, schedule))
  {
    DisciplineKeepsOut(schedule);
    var s := Run(Literal, schedule);
    forall i, j | 0 <= i < j < CORES ensures !(s[i].pc.Critical? && s[j].pc.Critical?) {
      assert LowStaysOut(s, i, j);
    }
  }

  // ---- What the ticket bound is for ----------------------------------------------------------------

  /** The largest of the first k tickets. */
  function Largest(s: State, k: nat): nat
    requires k <= CORES
  {
    if k == 0 then 0 else Max(s[k - 1].ticket, Largest(s, k - 1))
  }

  lemma {:induction false} ScanAll(s: State, id: CoreId, k: nat, n: nat)
    requires k < CORES && n == CORES - k && s[id] == Core(Scan(k, Largest(s, k)), true, 0)
    ensures Solo(Intended, s, id, n) == s[id := Core(Choose(Largest(s, CORES)), true, 0)]
    decreases n
  {
    var t := Step(Intended, s, id);
    SameTickets(s, t, k + 1);
    SameTickets(s, t, CORES);
    if k + 1 < CORES {
      ScanAll(t, id, k + 1, n - 1);
    }
  }

  lemma {:induction false} SameTickets(s: State, t: State, k: nat)
    requires k <= CORES && forall j :: 0 <= j < CORES ==> t[j].ticket == s[j].ticket
    ensures Largest(t, k) == Largest(s, k)
  {
    if k > 0 {
      SameTickets(s, t, k - 1);
    }
  }

  /** Entering up to the waits: the ticket is one more than the largest, cut to seven bits. */
  lemma {:induction false} Draw(s: State, id: CoreId, n: nat)
    requires s[id] == Core(Idle, false, 0) && n == 7
    ensures var my := Largest(s, CORES) + 1;
      Solo(Intended, s, id, n) == s[id := Core(AwaitDoor(0, my), false, my % TICKET_LIMIT)]
  {
    var my := Largest(s, CORES) + 1;
    var s1 := s[id := Core(Scan(0, 0), true, 0)];
    assert Step(Intended, s, id) == s1;
    SameTickets(s, s1, CORES);
    ScanAll(s1, id, 0, n - 3);
    var s2 := s[id := Core(Choose(my - 1), true, 0)];
    assert Solo(Intended, s1, id, n - 3) == s2;
    SoloSplit(Intended, s1, id, n - 3, 2);
    var s3 := s[id := Core(Announce(my), true, my % TICKET_LIMIT)];
    assert Step(Intended, s2, id) == s3;
    var s4 := s[id := Core(AwaitDoor(0, my), false, my % TICKET_LIMIT)];
    assert Step(Intended, s3, id) == s4;
    assert Solo(Intended, s2, id, 2) == Solo(Intended, s3, id, 1) == Solo(Intended, s4, id, 0);
  }

  /** No other core shows a ticket or is choosing. */
  ghost predicate Alone(s: State, id: CoreId) {
    forall j :: 0 <= j < CORES && j != id ==> !s[j].entering && s[j].ticket == 0
  }

  /** Core x alone inside, having drawn `my`; the shared ticket has only seven bits of it. */
  function Inside(x: CoreId, my: nat): State {
    INIT[x := Core(Critical(my), false, my % TICKET_LIMIT)]
  }

  lemma {:induction false} LargestInside(x: CoreId, my: nat, k: nat)
    requires k <= CORES
    ensures Largest(Inside(x, my), k) == if x < k then my % TICKET_LIMIT else 0
  {
    if k > 0 {
      LargestInside(x, my, k - 1);
    }
  }

  lemma {:induction false} RunDraw(schedule: seq<CoreId>, id: CoreId, s: State) returns (longer: seq<CoreId>)
    requires Run(Intended, schedule) == s && s[id] == Core(Idle, false, 0)
    ensures var my := Largest(s, CORES) + 1;
      Run(Intended, longer) == s[id := Core(AwaitDoor(0, my), false, my % TICKET_LIMIT)]
  {
    var n: nat :| n == 7;
    longer := schedule + seq(n, _ => id);
    RunAppendSolo(Intended, schedule, id, n);
    Draw(s, id, n);
  }

  lemma {:induction false} RunPass(schedule: seq<CoreId>, id: CoreId, s: State, my: nat) returns (longer: seq<CoreId>)
    requires Run(Intended, schedule) == s && Alone(s, id)
    requires s[id].pc == AwaitDoor(0, my) && !s[id].entering && (s[id].ticket == my || s[id].ticket == 0)
    ensures Run(Intended, longer) == s[id := s[id].(pc := Critical(my))]
  {
    var n: nat :| n == 8;
    longer := schedule + seq(n, _ => id);
    RunAppendSolo(Intended, schedule, id, n);
    PassTo(Intended, s, id, 0, CORES, my, n);
  }

  lemma {:induction false} RunLeave(schedule: seq<CoreId>, id: CoreId, s: State)
    requires Run(Intended, schedule) == s && s[id].pc.Critical? && !s[id].entering
    ensures Run(Intended, schedule + [id]) == s[id := Core(Idle, false, 0)]
  {
    assert (schedule + [id])[..|schedule|] == schedule;
  }

  /** A core draws a ticket while x is inside; x leaves; the core enters. */
  lemma {:induction false} HandOver(schedule: seq<CoreId>, x: CoreId, y: CoreId, my: nat) returns (longer: seq<CoreId>)
    requires Run(Intended, schedule) == Inside(x, my) && x != y && 0 < my < TICKET_LIMIT
    ensures Run(Intended, longer) == Inside(y, my + 1)
  {
    LargestInside(x, my, CORES);
    var waiting := Core(AwaitDoor(0, my + 1), false, (my + 1) % TICKET_LIMIT);
    var drawn := RunDraw(schedule, y, Inside(x, my));
    RunLeave(drawn, x, Inside(x, my)[y := waiting]);
    assert Inside(x, my)[y := waiting][x := Core(Idle, false, 0)] == INIT[y := waiting];
    longer := RunPass(drawn + [x], y, INIT[y := waiting], my + 1);
  }

  lemma {:induction false} FirstInside() returns (schedule: seq<CoreId>)
    ensures Run(Intended, schedule) == Inside(0, 1)
  {
    LargestInside(0, 0, CORES);
    SameTickets(Inside(0, 0), INIT, CORES);
    var drawn := RunDraw([], 0, INIT);
    schedule := RunPass(drawn, 0, INIT[0 := Core(AwaitDoor(0, 1), false, 1)], 1);
  }

  /** Two cores handing the section to each other draw any ticket up to 128. */
  lemma {:induction false} Climb(my: nat) returns (schedule: seq<CoreId>, x: CoreId, y: CoreId)
    requires 1 <= my <= TICKET_LIMIT
    ensures x != y && Run(Intended, schedule) == Inside(x, my)
  {
    if my == 1 {
      schedule := FirstInside();
      x, y := 0, 1;
    } else {
      var before, p, q := Climb(my - 1);
      schedule := HandOver(before, p, q, my - 1);
      x, y := q, p;
    }
  }

  /** The bound on tickets is needed: a core that draws 128 shows ticket 0, and another core walks past it. */
  lemma {:induction false} OverflowAdmitsTwo() returns (schedule: seq<CoreId>)
    ensures !MutuallyExclusive(Run(Intended, schedule)) && !TicketsFit(Intended, schedule)
  {
    var inside, x, y := Climb(TICKET_LIMIT);
    var s := Inside(x, TICKET_LIMIT);
    LargestInside(x, TICKET_LIMIT, CORES);
    var drawn := RunDraw(inside, y, s);
    schedule := RunPass(drawn, y, s[y := Core(AwaitDoor(0, 1), false, 1)], 1);
    var t := Run(Intended, schedule);
    assert t[x].pc.Critical? && t[y].pc.Critical?;
    if TicketsFit(Intended, schedule) {
      MutualExclusion(schedule);
    }
  }

  /** No ticket drawn along the schedule, before it is cut to seven bits, reaches the limit. */
  ghost predicate TicketsBelow(schedule: seq<CoreId>, limit: nat) {
    schedule != [] ==>
      var before, id := schedule[..|schedule| - 1], schedule[|schedule| - 1];
      && TicketsBelow(before, limit)
      && (Run(Intended, before)[id].pc.Choose? ==> Run(Intended, before)[id].pc.max + 1 < limit)
  }

  predicate SevenBits(c: Core) {
    && c.ticket < TICKET_LIMIT
    && (c.pc.Scan? ==> c.pc.max < TICKET_LIMIT) && (c.pc.Choose? ==> c.pc.max < TICKET_LIMIT)
  }

  /** Shared tickets have seven bits, so no core ever draws more than 128. */
  lemma {:induction false} DrawsAtMostLimit(schedule: seq<CoreId>)
    ensures forall j :: 0 <= j < CORES ==> SevenBits(Run(Intended, schedule)[j])
    ensures TicketsBelow(schedule, TICKET_LIMIT + 1)
  {
    if schedule != [] {
      var before, id := schedule[..|schedule| - 1], schedule[|schedule| - 1];
      DrawsAtMostLimit(before);
      var s := Run(Intended, before);
      StepFrame(Intended, s, id);
      assert SevenBits(s[id]);
      assert s[id].pc.Scan? && s[id].pc.k < CORES ==> SevenBits(s[s[id].pc.k]);
    }
  }

  lemma {:induction false} BelowMore(schedule: seq<CoreId>, limit: nat, more: nat)
    requires TicketsBelow(schedule, limit) && limit <= more
    ensures TicketsBelow(schedule, more)
  {
    if schedule != [] {
      BelowMore(schedule[..|schedule| - 1], limit, more);
    }
  }

  lemma {:induction false} BelowFits(schedule: seq<CoreId>)
    requires TicketsBelow(schedule, TICKET_LIMIT)
    ensures TicketsFit(Intended, schedule)
  {
    if schedule != [] {
      BelowFits(schedule[..|schedule| - 1]);
    }
  }

  /** A bound on the tickets drawn makes the intended algorithm exclude, over all interleavings, if and only if it
      is at most 128. */
  lemma {:induction false} TicketBoundIsExact(limit: nat)
    ensures (forall schedule :: TicketsBelow(schedule, limit) ==> MutuallyExclusive(Run(Intended, schedule)))
      <==> limit <= 128
  {
    if limit <= TICKET_LIMIT {
      forall schedule | TicketsBelow(schedule, limit) ensures MutuallyExclusive(Run(Intended, schedule)) {
        BelowMore(schedule, limit, TICKET_LIMIT);
        BelowFits(schedule);
        MutualExclusion(schedule);
      }
    } else {
      var schedule := OverflowAdmitsTwo();
      DrawsAtMostLimit(schedule);
      BelowMore(schedule, TICKET_LIMIT + 1, limit);
    }
  }

  /** The lock starts with core 0 inside (exosphere/src/start.s:299): a state every variant reaches from the empty
      one, so what holds of all runs holds of all runs from there. */
  lemma {:induction false} BootStateIsReached(v: Variant) returns (schedule: seq<CoreId>)
    ensures Run(v, schedule) == INIT[0 := Core(Critical(1), false, 1)]
    ensures v.Literal? ==> Over(schedule, {0})
  {
    if v.Literal? {
      var n: nat :| n == 15;
      schedule := seq(n, _ => 0);
      FirstEnters(0, n);
    } else {
      schedule := FirstInside();
    }
  }

  // ---- Starvation in the code as written -----------------------------------------------------------

  /** How often the core has entered along the schedule. */
  ghost function Entries(v: Variant, schedule: seq<CoreId>, id: CoreId): nat {
    if schedule == [] then 0
    else
      var before := schedule[..|schedule| - 1];
      Entries(v, before, id) + if !Run(v, before)[id].pc.Critical? && Run(v, schedule)[id].pc.Critical? then 1 else 0
  }

  /** How many steps the core has been given. */
  ghost function Turns(schedule: seq<CoreId>, id: CoreId): nat {
    if schedule == [] then 0
    else Turns(schedule[..|schedule| - 1], id) + if schedule[|schedule| - 1] == id then 1 else 0
  }

  /** From step `from` on the core stays at one program point. */
  ghost predicate Stuck(schedule: seq<CoreId>, from: nat, id: CoreId, pc: Pc) {
    forall k :: from <= k <= |schedule| ==> Run(Literal, schedule[..k])[id].pc == pc
  }

  lemma {:induction false} RunOne(v: Variant, schedule: seq<CoreId>, id: CoreId)
    ensures Run(v, schedule + [id]) == Step(v, Run(v, schedule), id)
  {
    assert (schedule + [id])[..|schedule|] == schedule;
  }

  lemma {:induction false} StuckOne(schedule: seq<CoreId>, from: nat, id: CoreId, pc: Pc, mover: CoreId)
    requires Stuck(schedule, from, id, pc) && from <= |schedule|
    requires Step(Literal, Run(Literal, schedule), mover)[id].pc == pc
    ensures Stuck(schedule + [mover], from, id, pc)
  {
    var longer := schedule + [mover];
    RunOne(Literal, schedule, mover);
    forall k | from <= k <= |longer| ensures Run(Literal, longer[..k])[id].pc == pc {
      if k <= |schedule| {
        assert longer[..k] == schedule[..k];
      } else {
        assert longer[..k] == longer;
      }
    }
  }

  /** Steps of another core leave a core where it is, give it no turns, and count an entry if one happened. */
  lemma {:induction false} OthersSteps(schedule: seq<CoreId>, from: nat, id: CoreId, pc: Pc, mover: CoreId, n: nat)
    requires Stuck(schedule, from, id, pc) && from <= |schedule| && mover != id
    ensures var longer := schedule + seq(n, _ => mover);
      && Stuck(longer, from, id, pc) && Turns(longer, id) == Turns(schedule, id)
      && Entries(Literal, longer, mover) >= Entries(Literal, schedule, mover)
      && (!Run(Literal, schedule)[mover].pc.Critical? && Run(Literal, longer)[mover].pc.Critical? ==>
            Entries(Literal, longer, mover) > Entries(Literal, schedule, mover))
  {
    if n == 0 {
      assert schedule + seq(0, _ => mover) == schedule;
    } else {
      var before := schedule + seq(n - 1, _ => mover);
      var longer := schedule + seq(n, _ => mover);
      OthersSteps(schedule, from, id, pc, mover, n - 1);
      assert longer == before + [mover] && longer[..|longer| - 1] == before;
      StepFrame(Literal, Run(Literal, before), mover);
      assert before[..|before|] == before;
      StuckOne(before, from, id, pc, mover);
    }
  }

  /** The higher core has its ticket and stands before the lower one's. */
  function Victim(low: CoreId, high: CoreId): State {
    INIT[high := Core(AwaitTurn(low, 1), false, 1)]
  }

  lemma {:induction false} DrawsAlone(high: CoreId) returns (schedule: seq<CoreId>)
    ensures Run(Literal, schedule) == INIT[high := Core(AwaitDoor(0, 1), false, 1)]
  {
    var n: nat :| n == 7;
    schedule := seq(n, _ => high);
    assert [] + schedule == schedule;
    RunAppendSolo(Literal, [], high, n);
    TakeTicket(INIT, high);
  }

  lemma {:induction false} PassesAlone(schedule: seq<CoreId>, high: CoreId, k: nat) returns (longer: seq<CoreId>)
    requires k < CORES && Run(Literal, schedule) == INIT[high := Core(AwaitDoor(0, 1), false, 1)]
    ensures Run(Literal, longer) == INIT[high := Core(AwaitDoor(k, 1), false, 1)]
  {
    longer := schedule + seq(2 * k, _ => high);
    RunAppendSolo(Literal, schedule, high, 2 * k);
    PassTo(Literal, INIT[high := Core(AwaitDoor(0, 1), false, 1)], high, 0, k, 1, 2 * k);
  }

  lemma {:induction false} VictimArrives(low: CoreId, high: CoreId) returns (schedule: seq<CoreId>)
    requires low < high
    ensures Run(Literal, schedule) == Victim(low, high)
  {
    var drawn := DrawsAlone(high);
    var passed := PassesAlone(drawn, high, low);
    schedule := passed + [high];
    RunOne(Literal, passed, high);
  }

  lemma {:induction false} OneMore(schedule: seq<CoreId>, from: nat, id: CoreId, pc: Pc, mover: CoreId, other: CoreId)
    requires Stuck(schedule, from, id, pc) && from <= |schedule|
    requires Step(Literal, Run(Literal, schedule), mover)[id].pc == pc
    ensures var longer := schedule + [mover];
      && Run(Literal, longer) == Step(Literal, Run(Literal, schedule), mover) && Stuck(longer, from, id, pc)
      && Turns(longer, id) == Turns(schedule, id) + (if mover == id then 1 else 0)
      && Entries(Literal, longer, other) >= Entries(Literal, schedule, other)
  {
    RunOne(Literal, schedule, mover);
    StuckOne(schedule, from, id, pc, mover);
    assert (schedule + [mover])[..|schedule|] == schedule;
  }

  /** The lower core walks past the waiting higher one. */
  lemma {:induction false} LowEnters(schedule: seq<CoreId>, from: nat, low: CoreId, high: CoreId)
    returns (longer: seq<CoreId>)
    requires low < high && Run(Literal, schedule) == Victim(low, high)
    requires from <= |schedule| && Stuck(schedule, from, high, AwaitTurn(low, 1))
    ensures from <= |longer| && Stuck(longer, from, high, AwaitTurn(low, 1))
    ensures Run(Literal, longer) == Victim(low, high)[low := Core(Critical(1), false, 1)]
    ensures Entries(Literal, longer, low) > Entries(Literal, schedule, low)
    ensures Turns(longer, high) == Turns(schedule, high)
    ensures schedule <= longer
  {
    var n: nat :| n == 15;
    longer := schedule + seq(n, _ => low);
    RunAppendSolo(Literal, schedule, low, n);
    SoloEntry(Victim(low, high), low, n);
    OthersSteps(schedule, from, high, AwaitTurn(low, 1), low, n);
  }

  lemma {:induction false} HighMustWait(low: CoreId, high: CoreId)
    requires low < high
    ensures var s := Victim(low, high)[low := Core(Critical(1), false, 1)];
      Step(Literal, s, high) == s && Step(Literal, s, low) == Victim(low, high)
  {
  }

  /** One round: the lower core enters, the higher one gets a turn and must wait, the lower one leaves. */
  lemma {:induction false} StarvingRound(schedule: seq<CoreId>, from: nat, low: CoreId, high: CoreId)
    returns (longer: seq<CoreId>)
    requires low < high && Run(Literal, schedule) == Victim(low, high)
    requires from <= |schedule| && Stuck(schedule, from, high, AwaitTurn(low, 1))
    ensures Run(Literal, longer) == Victim(low, high)
    ensures from <= |longer| && Stuck(longer, from, high, AwaitTurn(low, 1))
    ensures Entries(Literal, longer, low) > Entries(Literal, schedule, low)
    ensures Turns(longer, high) > Turns(schedule, high) && schedule <= longer
  {
    HighMustWait(low, high);
    var entered := LowEnters(schedule, from, low, high);
    OneMore(entered, from, high, AwaitTurn(low, 1), high, low);
    var waited := entered + [high];
    OneMore(waited, from, high, AwaitTurn(low, 1), low, low);
    longer := waited + [low];
  }

  /** As written, every lower-numbered core can keep every higher-numbered one out: for any number of rounds there
      is a run in which the higher core, ticket in hand, gets that many turns and never moves, while the lower one
      enters as often. */
  lemma {:induction false} LiteralStarves(low: CoreId, high: CoreId, rounds: nat)
    returns (schedule: seq<CoreId>, from: nat)
    requires low < high
    ensures from <= |schedule| && Run(Literal, schedule) == Victim(low, high)
    ensures Stuck(schedule, from, high, AwaitTurn(low, 1))
    ensures Entries(Literal, schedule, low) >= Entries(Literal, schedule[..from], low) + rounds
    ensures Turns(schedule, high) >= Turns(schedule[..from], high) + rounds
  {
    if rounds == 0 {
      schedule := VictimArrives(low, high);
      from := |schedule|;
      assert schedule[..|schedule|] == schedule;
    } else {
      var before;
      before, from := LiteralStarves(low, high, rounds - 1);
      schedule := StarvingRound(before, from, low, high);
      assert schedule[..from] == before[..from];
    }
  }
}

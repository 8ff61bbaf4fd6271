/** The random cache used by two contexts at once (exosphere/src/randomcache.c).

    Privileged calls run on core 3 and, one at a time behind the privileged lock, on cores 0 to 2
    (exosphere/src/exceptions.s:105-112, 144-170), so two contexts can be inside the cache together. A read happens
    when the caller finds the user lock held, a refill when the caller takes it
    (exosphere/src/smc_api.c:588-603): two refills exclude each other and nothing else does. Between privileged
    calls the lock is taken and freed for user calls, on core 3. A step is one access to the shared cursors or one
    transfer of bytes; a cursor is loaded again after every call that writes memory.
 */
module SharedCache {
  import opened RandomCache

  datatype Point =
    | Outside
    | Loaded(n: nat, low: nat)       // getbytes: low is read, the bytes are not yet copied
    | Copied(n: nat, low: nat)       // the bytes are copied, low is not yet stored
    | TopSegment(h: nat)             // refill, low below high + 1: about to generate from h to the end
    | TopStore(h: nat)
    | BottomTest
    | BottomSegment(upTo: nat)
    | BottomStore
    | MiddleSegment(h: nat, upTo: nat) // refill, low above high + 1
    | MiddleStore

  type Points = p: seq<Point> | |p| == 2 witness [Outside, Outside]
  type Context = c: int | 0 <= c < 2
  const CORE_3: Context := 1

  /** The user lock: free, held for a user call, or held by a context that refills. */
  datatype Lock = Free | User | By(c: Context)

  datatype World = World(run: Run, points: Points, lock: Lock)

  datatype Event =
    | TakeUser
    | ReleaseUser
    | BeginGet(c: Context, n: nat)
    | BeginRefill(c: Context)
    | Advance(c: Context)

  predicate GoodPoint(p: Point) {
    match p
    case Loaded(n, low) => 0 < n <= MAX_READ && low <= LOW_LIMIT
    case Copied(n, low) => 0 < n <= MAX_READ && low <= LOW_LIMIT
    case TopSegment(h) => h <= SIZE
    case TopStore(h) => h <= SIZE
    case _ => true
  }

  ghost predicate Good(w: World) {
    && |w.run.cache.bytes| == SIZE && w.run.cache.low <= LOW_LIMIT
    && GoodPoint(w.points[0]) && GoodPoint(w.points[1])
  }

  predicate Refilling(p: Point) {
    !p.Outside? && !p.Loaded? && !p.Copied?
  }

  function At(w: World, c: Context, p: Point): World {
    w.(points := w.points[c := p])
  }

  /** The positions from lo up to hi hold newly generated numbers. */
  function Regenerate(bytes: seq<nat>, lo: nat, hi: nat, base: nat): (r: seq<nat>)
    ensures |r| == |bytes|
    ensures forall p :: 0 <= p < |bytes| ==> r[p] == if lo <= p < hi then base + p else bytes[p]
  {
    seq(|bytes|, p requires 0 <= p < |bytes| => if lo <= p < hi then base + p else bytes[p])
  }

  function SetBytes(w: World, bytes: seq<nat>): World {
    w.(run := w.run.(cache := w.run.cache.(bytes := bytes)))
  }

  function SetHigh(w: World, high: nat): World {
    w.(run := w.run.(cache := w.run.cache.(high := high)))
  }

  /** The end of a refill, which frees the lock. */
  function Finish(w: World, c: Context): World {
    At(w.(run := w.run.(base := w.run.base + 2 * SIZE, since := 0), lock := Free), c, Outside)
  }

  function Begin(w: World, c: Context): World {
    var cache := w.run.cache;
    var h := HighPlusOne(cache);
    if cache.low == h then Finish(w, c)
    else if cache.low < h then At(w, c, if cache.high != SIZE - 1 then TopSegment(h) else BottomTest)
    else At(w, c, MiddleSegment(h, cache.low))
  }

  function Next(w: World, c: Context): World
    requires Good(w)
  {
    var run, cache := w.run, w.run.cache;
    match w.points[c]
    case Outside => w
    case Loaded(n, low) =>
      At(w.(run := run.(delivered := run.delivered + cache.bytes[low..low + n])), c, Copied(n, low))
    case Copied(n, low) => At(w.(run := run.(cache := cache.(low := NextLow(low, n)))), c, Outside)
    case TopSegment(h) => At(SetBytes(w, Regenerate(cache.bytes, h, SIZE, run.base)), c, TopStore(h))
    case TopStore(h) => At(SetHigh(w, (cache.high + SIZE - h) % SIZE), c, BottomTest)
    case BottomTest => if cache.low > 0 then At(w, c, BottomSegment(cache.low)) else Finish(w, c)
    case BottomSegment(upTo) => At(SetBytes(w, Regenerate(cache.bytes, 0, upTo, run.base + SIZE)), c, BottomStore)
    case BottomStore => Finish(SetHigh(w, (cache.high + cache.low) % SIZE), c)
    case MiddleSegment(h, upTo) => At(SetBytes(w, Regenerate(cache.bytes, h, upTo, run.base)), c, MiddleStore)
    case MiddleStore => Finish(SetHigh(w, (cache.low + 0xFFFF_FFFF) % 0x1_0000_0000), c)
  }

  /** One event; one that cannot happen now, and a read of no bytes or too many, changes nothing. */
  function Apply(w: World, e: Event): (r: World)
    requires Good(w)
    ensures Good(r)
  {
    match e
    case TakeUser => if w.points[CORE_3].Outside? && w.lock.Free? then w.(lock := User) else w
    case ReleaseUser => if w.points[CORE_3].Outside? && w.lock.User? then w.(lock := Free) else w
    case BeginGet(c, n) =>
      if !w.points[c].Outside? || w.lock.Free? || n == 0 || n > MAX_READ then w
      else At(w.(run := w.run.(since := w.run.since + 1)), c, Loaded(n, w.run.cache.low))
    case BeginRefill(c) =>
      if !w.points[c].Outside? || !w.lock.Free? then w else Begin(w.(lock := By(c)), c)
    case Advance(c) => Next(w, c)
  }

  ghost function Final(events: seq<Event>): (w: World)
    ensures Good(w)
  {
    if events == [] then World(Start(), [Outside, Outside], Free)
    else Apply(Final(events[..|events| - 1]), events[|events| - 1])
  }

  ghost predicate PacedBy(events: seq<Event>, limit: nat) {
    Final(events).run.since <= limit && (events != [] ==> PacedBy(events[..|events| - 1], limit))
  }

  predicate Quiet(w: World) {
    w.points[0].Outside? && w.points[1].Outside?
  }

  /** Cache calls never overlap: each begins while neither context is inside. */
  ghost predicate Sequential(events: seq<Event>) {
    events != [] ==>
      var before, e := events[..|events| - 1], events[|events| - 1];
      Sequential(before) && (e.BeginGet? || e.BeginRefill? ==> Quiet(Final(before)))
  }

  // ---- Overlapping calls repeat bytes --------------------------------------------------------------

  lemma {:induction false} FinalOne(events: seq<Event>, e: Event)
    ensures Final(events + [e]) == Apply(Final(events), e)
  {
    assert (events + [e])[..|events|] == events;
  }

  lemma {:induction false} PacedOne(events: seq<Event>, e: Event, limit: nat)
    requires PacedBy(events, limit) && Apply(Final(events), e).run.since <= limit
    ensures PacedBy(events + [e], limit)
  {
    FinalOne(events, e);
    assert (events + [e])[..|events|] == events;
  }

  /** Both contexts find the lock held by a user call and load low before either stores it. */
  lemma {:induction false} TwoReadsRepeat() returns (events: seq<Event>)
    ensures PacedBy(events, 2) && !Distinct(Final(events).run.delivered)
    ensures |events| == 5 && forall k :: 0 <= k < 5 ==> !events[k].BeginRefill?
  {
    var w0 := World(Start(), [Outside, Outside], Free);
    assert Final([]) == w0;
    var e0: seq<Event> := [];
    var e1 := e0 + [TakeUser];
    PacedOne(e0, TakeUser, 2);
    FinalOne(e0, TakeUser);
    var e2 := e1 + [BeginGet(0, MAX_READ)];
    PacedOne(e1, BeginGet(0, MAX_READ), 2);
    FinalOne(e1, BeginGet(0, MAX_READ));
    var e3 := e2 + [BeginGet(1, MAX_READ)];
    PacedOne(e2, BeginGet(1, MAX_READ), 2);
    FinalOne(e2, BeginGet(1, MAX_READ));
    events := BothCopy(e3, 2);
  }

  /** Two reads that loaded the same low deliver the same bytes. */
  lemma {:induction false} BothCopy(events: seq<Event>, limit: nat) returns (longer: seq<Event>)
    requires PacedBy(events, limit) && Final(events).points == [Loaded(MAX_READ, 0), Loaded(MAX_READ, 0)]
    requires Final(events).run.delivered == []
    ensures longer == events + [Advance(0)] + [Advance(1)]
    ensures PacedBy(longer, limit) && !Distinct(Final(longer).run.delivered)
  {
    var a := events + [Advance(0)];
    PacedOne(events, Advance(0), limit);
    FinalOne(events, Advance(0));
    longer := a + [Advance(1)];
    PacedOne(a, Advance(1), limit);
    FinalOne(a, Advance(1));
    RepeatedHead(Final(events).run.cache.bytes[0..MAX_READ], Final(longer).run.delivered);
  }

  lemma {:induction false} RepeatedHead(s: seq<nat>, d: seq<nat>)
    requires |s| > 0 && d == s + s
    ensures !Distinct(d)
  {
    assert d[0] == d[|s|];
  }

  /** One read between refills is no safer: one context reads while a user call holds the lock; core 3 collects
      that call, refills, starts another and reads, all before the first read stores low. */
  lemma {:induction false} SlowReadsRepeat() returns (events: seq<Event>)
    ensures PacedBy(events, 1) && !Distinct(Final(events).run.delivered)
  {
    var e3 := SlowReader();
    var e4 := e3 + [BeginRefill(CORE_3)];
    PacedOne(e3, BeginRefill(CORE_3), 1);
    FinalOne(e3, BeginRefill(CORE_3));
    var e5 := e4 + [TakeUser];
    PacedOne(e4, TakeUser, 1);
    FinalOne(e4, TakeUser);
    var e6 := e5 + [BeginGet(CORE_3, MAX_READ)];
    PacedOne(e5, BeginGet(CORE_3, MAX_READ), 1);
    FinalOne(e5, BeginGet(CORE_3, MAX_READ));
    events := BothCopy(e6, 1);
  }

  /** A read in progress after the user call that let it in has ended. */
  lemma {:induction false} SlowReader() returns (events: seq<Event>)
    ensures PacedBy(events, 1)
    ensures Final(events) == World(Start().(since := 1), [Loaded(MAX_READ, 0), Outside], Free)
  {
    assert Final([]) == World(Start(), [Outside, Outside], Free);
    var e0: seq<Event> := [];
    var e1 := e0 + [TakeUser];
    PacedOne(e0, TakeUser, 1);
    FinalOne(e0, TakeUser);
    var e2 := e1 + [BeginGet(0, MAX_READ)];
    PacedOne(e1, BeginGet(0, MAX_READ), 1);
    FinalOne(e1, BeginGet(0, MAX_READ));
    events := e2 + [ReleaseUser];
    PacedOne(e2, ReleaseUser, 1);
    FinalOne(e2, ReleaseUser);
  }

  /** A refill stopped between the generation of a segment and the store of high. */
  function HalfRefilled(w: World): World
    requires Good(w)
  {
    Apply(Apply(w, BeginRefill(0)), Advance(0))
  }

  lemma {:induction false} HalfRefilledState(w: World)
    requires Good(w) && Quiet(w) && w.lock.Free? && HighPlusOne(w.run.cache) < w.run.cache.low
    ensures var c := w.run.cache;
      HalfRefilled(w) == World(w.run.(cache := c.(bytes := Regenerate(c.bytes, HighPlusOne(c), c.low, w.run.base))),
                               [MiddleStore, Outside], By(0))
  {
  }

  lemma {:induction false} LateRead(w: World, n: nat)
    requires Good(w) && w.points == [MiddleStore, Outside] && w.lock == By(0)
    requires 0 < n <= MAX_READ && NextLow(w.run.cache.low, n) != 0
    ensures var low := w.run.cache.low;
      var done := Apply(Apply(Apply(Apply(w, BeginGet(1, n)), Advance(1)), Advance(1)), Advance(0));
      && Quiet(done) && done.run.cache == Cache(w.run.cache.bytes, low + n, low + n - 1)
      && done.run.delivered == w.run.delivered + w.run.cache.bytes[low..low + n]
  {
    var low := w.run.cache.low;
    var loaded := Apply(w, BeginGet(1, n));
    assert loaded == World(w.run.(since := w.run.since + 1), [MiddleStore, Loaded(n, low)], By(0));
    var copied := Apply(loaded, Advance(1));
    assert copied.points == [MiddleStore, Copied(n, low)];
    var stored := Apply(copied, Advance(1));
    assert stored.points == [MiddleStore, Outside] && stored.run.cache.low == low + n;
  }

  /** A read that falls there, let in by the refill's own hold of the lock, is forgotten: from any quiet state with
      the lock free, low above high + 1 and room before the end, its bytes stay in the cache, delivered, and the
      next refill has nothing to do. */
  lemma {:induction false} LateReadIsForgotten(w: World, n: nat)
    requires Good(w) && Quiet(w) && w.lock.Free? && 0 < n <= MAX_READ
    requires HighPlusOne(w.run.cache) < w.run.cache.low && NextLow(w.run.cache.low, n) != 0
    ensures var low := w.run.cache.low;
      var done := Apply(Apply(Apply(Apply(HalfRefilled(w), BeginGet(1, n)), Advance(1)), Advance(1)), Advance(0));
      && Quiet(done) && done.run.cache.low == low + n == HighPlusOne(done.run.cache)
      && done.run.delivered == w.run.delivered + done.run.cache.bytes[low..low + n]
      && Apply(done, BeginRefill(0)).run.cache == done.run.cache
  {
    HalfRefilledState(w);
    LateRead(HalfRefilled(w), n);
  }

  // ---- Calls that do not overlap -------------------------------------------------------------------

  /** The run as it stands when the one call in progress, begun at r, has reached p. */
  function During(r: Run, p: Point): Run
    requires Valid(r.cache) && GoodPoint(p)
  {
    var h, low := HighPlusOne(r.cache), r.cache.low;
    var top := Regenerate(r.cache.bytes, h, SIZE, r.base);
    match p
    case Outside => r
    case Loaded(_, _) => r.(since := r.since + 1)
    case Copied(n, _) => r.(since := r.since + 1, delivered := r.delivered + Read(r.cache, n))
    case TopSegment(_) => r
    case TopStore(_) => r.(cache := r.cache.(bytes := top))
    case BottomTest => r.(cache := r.cache.(bytes := top, high := SIZE - 1))
    case BottomSegment(_) => r.(cache := r.cache.(bytes := top, high := SIZE - 1))
    case BottomStore => r.(cache := r.cache.(bytes := Regenerate(top, 0, low, r.base + SIZE), high := SIZE - 1))
    case MiddleSegment(_, _) => r
    case MiddleStore => r.(cache := r.cache.(bytes := Regenerate(r.cache.bytes, h, low, r.base)))
  }

  predicate Consistent(r: Run, p: Point) {
    var h, low := HighPlusOne(r.cache), r.cache.low;
    match p
    case Outside => true
    case Loaded(_, l) => l == low
    case Copied(_, l) => l == low
    case TopSegment(t) => t == h && low < h
    case TopStore(t) => t == h && low < h
    case BottomTest => low < h
    case BottomSegment(u) => u == low && 0 < low < h
    case BottomStore => 0 < low < h
    case MiddleSegment(t, u) => t == h && u == low && h < low
    case MiddleStore => h < low
  }

  ghost predicate Active(w: World, r: Run, c: Context) {
    && Valid(r.cache) && GoodPoint(w.points[c]) && w.points[1 - c].Outside?
    && Consistent(r, w.points[c]) && w.run == During(r, w.points[c])
  }

  lemma {:induction false} GetAdvances(w: World, r: Run, c: Context)
    requires Good(w) && Active(w, r, c) && (w.points[c].Loaded? || w.points[c].Copied?)
    ensures var n, next := w.points[c].n, Next(w, c);
      if w.points[c].Loaded? then Active(next, r, c) && next.points[c].Copied?
      else Quiet(next) && next.run == Step(r, Get(n))
  {
  }

  lemma {:induction false} TopFinishes(r: Run)
    requires Valid(r.cache) && r.cache.low < HighPlusOne(r.cache)
    ensures var h, low := HighPlusOne(r.cache), r.cache.low;
      var top := Regenerate(r.cache.bytes, h, SIZE, r.base);
      && (low == 0 ==> Step(r, Refill).cache == Cache(top, 0, SIZE - 1))
      && (low > 0 ==> Step(r, Refill).cache == Cache(Regenerate(top, 0, low, r.base + SIZE), low, low - 1))
  {
    var h, low := HighPlusOne(r.cache), r.cache.low;
    var top := Regenerate(r.cache.bytes, h, SIZE, r.base);
    var after := Step(r, Refill).cache.bytes;
    if low == 0 {
      assert after == top;
    } else {
      assert after == Regenerate(top, 0, low, r.base + SIZE);
    }
  }

  lemma {:induction false} MiddleFinishes(r: Run)
    requires Valid(r.cache) && HighPlusOne(r.cache) < r.cache.low
    ensures var h, low := HighPlusOne(r.cache), r.cache.low;
      Step(r, Refill).cache == Cache(Regenerate(r.cache.bytes, h, low, r.base), low, low - 1)
  {
    var h, low := HighPlusOne(r.cache), r.cache.low;
    assert Step(r, Refill).cache.bytes == Regenerate(r.cache.bytes, h, low, r.base);
  }

  ghost predicate AdvancesTo(r: Run, c: Context, next: World)
    requires Valid(r.cache)
  {
    || (Active(next, r, c) && Refilling(next.points[c]))
    || (Quiet(next) && next.run == Step(r, Refill))
  }

  lemma {:induction false} TopAdvances(w: World, r: Run, c: Context)
    requires Good(w) && Active(w, r, c) && (w.points[c].TopSegment? || w.points[c].TopStore? || w.points[c].BottomTest?)
    ensures AdvancesTo(r, c, Next(w, c))
  {
    TopFinishes(r);
  }

  lemma {:induction false} BottomAdvances(w: World, r: Run, c: Context)
    requires Good(w) && Active(w, r, c) && (w.points[c].BottomSegment? || w.points[c].BottomStore?)
    ensures AdvancesTo(r, c, Next(w, c))
  {
    TopFinishes(r);
  }

  lemma {:induction false} MiddleAdvances(w: World, r: Run, c: Context)
    requires Good(w) && Active(w, r, c) && (w.points[c].MiddleSegment? || w.points[c].MiddleStore?)
    ensures AdvancesTo(r, c, Next(w, c))
  {
    MiddleFinishes(r);
  }

  lemma {:induction false} RefillAdvances(w: World, r: Run, c: Context)
    requires Good(w) && Active(w, r, c) && Refilling(w.points[c])
    ensures AdvancesTo(r, c, Next(w, c))
  {
    match w.points[c]
    case TopSegment(_) => TopAdvances(w, r, c);
    case TopStore(_) => TopAdvances(w, r, c);
    case BottomTest => TopAdvances(w, r, c);
    case BottomSegment(_) => BottomAdvances(w, r, c);
    case BottomStore => BottomAdvances(w, r, c);
    case MiddleSegment(_, _) => MiddleAdvances(w, r, c);
    case MiddleStore => MiddleAdvances(w, r, c);
  }

  lemma {:induction false} BeginActs(w: World, e: Event)
    requires Good(w) && Quiet(w) && Valid(w.run.cache) && (e.BeginGet? || e.BeginRefill?)
    ensures var next := Apply(w, e);
      next == w || Active(next, w.run, e.c) || (Quiet(next) && e.BeginRefill? && next.run == Step(w.run, Refill))
  {
    if e.BeginRefill? && w.run.cache.low == HighPlusOne(w.run.cache) {
      ClosedRefill(w.run);
    }
  }

  /** The state is that of a sequential run, or of one call in progress on top of it. */
  ghost predicate Tracks(w: World, r: Run) {
    (Quiet(w) && w.run == r) || exists c: Context :: !w.points[c].Outside? && Active(w, r, c)
  }

  lemma {:induction false} NextTracks(w: World, r: Run, wrapped: bool, c: Context) returns (r': Run, wrapped': bool)
    requires Good(w) && Invariant(r, wrapped) && Tracks(w, r) && w.run.since <= 17
    ensures Invariant(r', wrapped') && Tracks(Next(w, c), r')
  {
    r', wrapped' := r, wrapped;
    if !w.points[c].Outside? {
      assert Active(w, r, c);
      if Refilling(w.points[c]) {
        RefillAdvances(w, r, c);
        if !Active(Next(w, c), r, c) || !Refilling(Next(w, c).points[c]) {
          RefillKeeps(r, wrapped);
          r', wrapped' := Step(r, Refill), false;
        }
      } else {
        GetAdvances(w, r, c);
        if w.points[c].Copied? {
          wrapped' := GetKeeps(r, wrapped, w.points[c].n);
          r' := Step(r, Get(w.points[c].n));
        }
      }
    }
  }

  lemma {:induction false} BeginTracks(w: World, r: Run, wrapped: bool, e: Event) returns (r': Run, wrapped': bool)
    requires Good(w) && Invariant(r, wrapped) && Quiet(w) && w.run == r && (e.BeginGet? || e.BeginRefill?)
    ensures Invariant(r', wrapped') && Tracks(Apply(w, e), r')
  {
    r', wrapped' := r, wrapped;
    BeginActs(w, e);
    if Apply(w, e) != w && !Active(Apply(w, e), r, e.c) {
      RefillKeeps(r, wrapped);
      r', wrapped' := Step(r, Refill), false;
    }
  }

  lemma {:induction false} LockTracks(w: World, r: Run, e: Event)
    requires Good(w) && Tracks(w, r) && (e.TakeUser? || e.ReleaseUser?)
    ensures Tracks(Apply(w, e), r)
  {
    var next := Apply(w, e);
    assert next.run == w.run && next.points == w.points;
    if !Quiet(w) {
      var c: Context :| !w.points[c].Outside? && Active(w, r, c);
      assert Active(next, r, c);
    }
  }

  lemma {:induction false} SequentialTracks(events: seq<Event>) returns (r: Run, wrapped: bool)
    requires Sequential(events) && PacedBy(events, 17)
    ensures Invariant(r, wrapped) && Tracks(Final(events), r)
  {
    if events == [] {
      r, wrapped := Start(), false;
    } else {
      var before, e := events[..|events| - 1], events[|events| - 1];
      var r0, wrapped0 := SequentialTracks(before);
      if e.Advance? {
        r, wrapped := NextTracks(Final(before), r0, wrapped0, e.c);
      } else if e.TakeUser? || e.ReleaseUser? {
        r, wrapped := r0, wrapped0;
        LockTracks(Final(before), r0, e);
      } else {
        r, wrapped := BeginTracks(Final(before), r0, wrapped0, e);
      }
    }
  }

  /** With calls that never overlap and at most 17 reads between refills, no random byte is handed out twice. */
  lemma {:induction false} SequentialIsSafe(events: seq<Event>)
    requires Sequential(events) && PacedBy(events, 17)
    ensures Distinct(Final(events).run.delivered)
  {
    var r, wrapped := SequentialTracks(events);
    var w := Final(events);
    if !(Quiet(w) && w.run == r) {
      var c: Context :| !w.points[c].Outside? && Active(w, r, c);
      if w.points[c].Copied? {
        var wrapped' := GetKeeps(r, wrapped, w.points[c].n);
      }
    }
  }

  // ---- Exactly when the cache is safe --------------------------------------------------------------

  predicate NoReader(w: World) {
    && w.run.delivered == []
    && (w.points[0].Outside? || Refilling(w.points[0])) && (w.points[1].Outside? || Refilling(w.points[1]))
  }

  lemma {:induction false} StaysWithoutReader(w: World, e: Event)
    requires Good(w) && NoReader(w) && Apply(w, e).run.since == 0
    ensures NoReader(Apply(w, e))
  {
    if e.Advance? {
      var p := w.points[e.c];
      assert p.Outside? || Refilling(p);
      assert Next(w, e.c).run.delivered == w.run.delivered;
    }
  }

  lemma {:induction false} NoReadsAtAll(events: seq<Event>)
    requires PacedBy(events, 0)
    ensures NoReader(Final(events))
  {
    if events != [] {
      NoReadsAtAll(events[..|events| - 1]);
      StaysWithoutReader(Final(events[..|events| - 1]), events[|events| - 1]);
    }
  }

  lemma {:induction false} PacedByMore(events: seq<Event>, limit: nat, more: nat)
    requires PacedBy(events, limit) && limit <= more
    ensures PacedBy(events, more)
  {
    if events != [] {
      PacedByMore(events[..|events| - 1], limit, more);
    }
  }

  lemma {:induction false} SequentialOne(events: seq<Event>, e: Event)
    requires Sequential(events) && (e.BeginGet? || e.BeginRefill? ==> Quiet(Final(events)))
    ensures Sequential(events + [e])
  {
    assert (events + [e])[..|events|] == events;
  }

  /** One more event of a sequential, paced run. */
  lemma {:induction false} Extend(events: seq<Event>, e: Event, limit: nat) returns (longer: seq<Event>)
    requires Sequential(events) && PacedBy(events, limit) && (e.BeginGet? || e.BeginRefill? ==> Quiet(Final(events)))
    requires Apply(Final(events), e).run.since <= limit
    ensures Sequential(longer) && PacedBy(longer, limit) && Final(longer) == Apply(Final(events), e)
  {
    longer := events + [e];
    SequentialOne(events, e);
    PacedOne(events, e, limit);
    FinalOne(events, e);
  }

  /** A whole read by context 0, during a user call. */
  lemma {:induction false} PerformGet(events: seq<Event>, n: nat, limit: nat) returns (longer: seq<Event>)
    requires Sequential(events) && PacedBy(events, limit) && Quiet(Final(events)) && Valid(Final(events).run.cache)
    requires Final(events).lock.User? && 0 < n <= MAX_READ && Final(events).run.since < limit
    ensures Sequential(longer) && PacedBy(longer, limit) && Quiet(Final(longer)) && Final(longer).lock.User?
    ensures Final(longer).run == Step(Final(events).run, Get(n))
  {
    longer := Extend(events, BeginGet(0, n), limit);
    longer := Extend(longer, Advance(0), limit);
    longer := Extend(longer, Advance(0), limit);
  }

  /** A refill that finds nothing to do, between two user calls. */
  lemma {:induction false} PerformClosedRefill(events: seq<Event>, limit: nat) returns (longer: seq<Event>)
    requires Sequential(events) && PacedBy(events, limit) && Quiet(Final(events)) && Valid(Final(events).run.cache)
    requires Final(events).lock.User? && Final(events).run.cache.low == HighPlusOne(Final(events).run.cache)
    ensures Sequential(longer) && PacedBy(longer, limit) && Quiet(Final(longer)) && Final(longer).lock.User?
    ensures Final(longer).run == Step(Final(events).run, Refill)
  {
    ClosedRefill(Final(events).run);
    longer := Extend(events, ReleaseUser, limit);
    longer := Extend(longer, BeginRefill(0), limit);
    longer := Extend(longer, TakeUser, limit);
  }

  lemma {:induction false} PerformFullReads(k: nat) returns (events: seq<Event>)
    requires k <= 18
    ensures Sequential(events) && PacedBy(events, 18) && Quiet(Final(events)) && Final(events).lock.User?
    ensures Final(events).run == After(FullReads(k))
  {
    if k == 0 {
      assert Final([]) == World(Start(), [Outside, Outside], Free);
      events := Extend([], TakeUser, 18);
      assert FullReads(0) == [];
    } else {
      var before := PerformFullReads(k - 1);
      AfterFullReads(k - 1);
      events := PerformGet(before, MAX_READ, 18);
      assert FullReads(k)[..k - 1] == FullReads(k - 1);
      assert FullReads(k)[k - 1] == Get(MAX_READ);
    }
  }

  /** The eighteen-read run, call by call. */
  lemma {:induction false} EighteenSequentialReadsRepeat() returns (events: seq<Event>)
    ensures Sequential(events) && PacedBy(events, 18) && !Distinct(Final(events).run.delivered)
  {
    AfterFullReads(18);
    var emptied := PerformFullReads(18);
    var refilled := PerformClosedRefill(emptied, 18);
    var ops1, ops2 := FullReads(18) + [Refill], FullReads(18) + [Refill, Get(MAX_READ)];
    assert ops1[..|ops1| - 1] == FullReads(18) && ops2[..|ops2| - 1] == ops1;
    assert Final(refilled).run == After(ops1);
    events := PerformGet(refilled, MAX_READ, 18);
    assert Final(events).run == After(ops2);
    EighteenReadsRepeat();
  }

  ghost predicate Safe(limit: nat, overlapping: bool) {
    forall events :: PacedBy(events, limit) && (overlapping || Sequential(events)) ==>
      Distinct(Final(events).run.delivered)
  }

  /** A discipline keeps the cache from repeating a byte in every run if and only if it allows no reads at all, or
      at most 17 between refills with no two cache calls overlapping. */
  lemma {:induction false} SafeIff(limit: nat, overlapping: bool)
    ensures Safe(limit, overlapping) <==> limit == 0 || (limit <= 17 && !overlapping)
  {
    if limit == 0 {
      forall events | PacedBy(events, limit) ensures Distinct(Final(events).run.delivered) {
        NoReadsAtAll(events);
      }
    } else if overlapping {
      var events := SlowReadsRepeat();
      PacedByMore(events, 1, limit);
    } else if limit <= 17 {
      forall events | PacedBy(events, limit) && Sequential(events) ensures Distinct(Final(events).run.delivered) {
        PacedByMore(events, limit, 17);
        SequentialIsSafe(events);
      }
    } else {
      var events := EighteenSequentialReadsRepeat();
      PacedByMore(events, 18, limit);
    }
  }
}

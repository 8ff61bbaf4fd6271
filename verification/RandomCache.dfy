/** The ring cache of random bytes kept for the kernel (exosphere/src/randomcache.c). */
module RandomCache {

  const SIZE: nat := 0x400
  const MAX_READ: nat := 0x38
  const LOW_LIMIT: nat := 0x3C7 // a read from here still ends inside the cache

  /** Contents and cursors; T is the type of a cached byte. */
  datatype Cache<T> = Cache(bytes: seq<T>, low: nat, high: nat)

  ghost predicate Valid<T>(c: Cache<T>) {
    |c.bytes| == SIZE && c.low <= LOW_LIMIT && c.high < SIZE && HighPlusOne(c) <= LOW_LIMIT
  }

  function HighPlusOne<T>(c: Cache<T>): nat {
    (c.high + 1) % SIZE
  }

  /** The positions a refill regenerates: from high + 1 round to low. */
  predicate InGap<T>(c: Cache<T>, p: nat) {
    var h := HighPlusOne(c);
    if h <= c.low then h <= p < c.low else p < c.low || h <= p
  }

  function NextLow(low: nat, n: nat): nat {
    if n == 0 then low else if low + n + 0x38 > 0x3FF then 0 else low + n
  }

  function Read<T>(c: Cache<T>, n: nat): (r: seq<T>)
    requires Valid(c) && n <= MAX_READ
    ensures |r| == n
  {
    c.bytes[c.low..c.low + n]
  }

  function AfterRead<T>(c: Cache<T>, n: nat): Cache<T> {
    c.(low := NextLow(c.low, n))
  }

  /** The gap is regenerated from `source` and closed: high + 1 equals low again. */
  function AfterRefill<T>(c: Cache<T>, source: nat -> T): (r: Cache<T>)
    requires Valid(c)
    ensures Valid(r) && HighPlusOne(r) == r.low
    ensures forall p :: 0 <= p < SIZE ==> r.bytes[p] == if InGap(c, p) then source(p) else c.bytes[p]
  {
    Cache(seq(SIZE, p requires 0 <= p < SIZE => if InGap(c, p) then source(p) else c.bytes[p]),
          c.low, if c.low == 0 then SIZE - 1 else c.low - 1)
  }

  // ---- The code ------------------------------------------------------------------------------------

  class Store<T(0)> {
    const buffer: array<T>
    var low: nat
    var high: nat

    ghost function Value(): Cache<T>
      reads this, buffer
    {
      Cache(buffer[..], low, high)
    }

    /** randomcache_init. */
    constructor (source: nat -> T)
      ensures fresh(buffer) && Valid(Value()) && HighPlusOne(Value()) == low == 0
      ensures forall p :: 0 <= p < SIZE ==> Value().bytes[p] == source(p)
    {
      buffer := new T[SIZE];
      low, high := 0, 0x3FF;
      new;
      RefillSegment(0, 0x400, source);
    }

    /** randomcache_refill_segment; the size is cut at the end of the cache. */
    method RefillSegment(offset: nat, size: nat, source: nat -> T)
      requires buffer.Length == SIZE && offset <= SIZE
      modifies buffer
      ensures forall p :: 0 <= p < SIZE ==>
        buffer[p] == if offset <= p < offset + size then source(p) else old(buffer[p])
    {
      var n := if offset + size >= 0x400 then 0x400 - offset else size;
      for i := 0 to n
        invariant forall p :: 0 <= p < SIZE ==>
          buffer[p] == if offset <= p < offset + i then source(p) else old(buffer[p])
      {
        buffer[offset + i] := source(offset + i);
      }
    }

    /** randomcache_refill. */
    method Refill(source: nat -> T)
      requires Valid(Value())
      modifies this, buffer
      ensures Value() == AfterRefill(old(Value()), source)
    {
      ghost var c := Value();
      var h := (high + 1) % 0x400;
      if low != h {
        if low < h {
          if high != 0x3FF {
            RefillSegment(h, 0x400 - h, source);
            high := (high + 0x400 - h) % 0x400;
          }
          if low > 0 {
            RefillSegment(0, low, source);
            high := (high + low) % 0x400;
          }
        } else {
          RefillSegment(h, low - h, source);
          high := low - 1;
        }
      }
      forall p | 0 <= p < SIZE
        ensures buffer[p] == AfterRefill(c, source).bytes[p]
      {
        assert old(buffer[p]) == c.bytes[p];
      }
      assert buffer[..] == AfterRefill(c, source).bytes;
    }

    /** randomcache_getbytes. */
    method GetBytes(n: nat) returns (r: seq<T>)
      requires Valid(Value()) && n <= MAX_READ
      modifies this
      ensures r == Read(old(Value()), n)
      ensures Value() == AfterRead(old(Value()), n) && Valid(Value())
    {
      if n == 0 { return []; }
      r := buffer[low..low + n];
      var newLow := low + n;
      if newLow + 0x38 > 0x3FF {
        newLow := 0;
      }
      low := newLow;
    }
  }

  // ---- No byte is delivered twice ------------------------------------------------------------------

  datatype Op = Get(n: nat) | Refill

  /** A run over numbered bytes: every byte the generator produces has its own number, so equal numbers
      are the same random byte. `base` is the first unused number; `since` counts the reads since the last refill. */
  datatype Run = Run(cache: Cache<nat>, base: nat, delivered: seq<nat>, since: nat)

  ghost function Start(): Run {
    Run(Cache(seq(SIZE, p => p), 0, SIZE - 1), SIZE, [], 0)
  }

  ghost predicate Allowed(op: Op) {
    op.Get? ==> op.n <= MAX_READ
  }

  /** The numbers of one refill: those of its first segment, from high + 1 on, then those of its second. */
  function Generated(r: Run, p: nat): nat {
    if p < HighPlusOne(r.cache) then r.base + SIZE + p else r.base + p
  }

  ghost function Step(r: Run, op: Op): Run
    requires Valid(r.cache) && Allowed(op)
    ensures Valid(Step(r, op).cache)
  {
    match op
    case Get(n) =>
      Run(AfterRead(r.cache, n), r.base, r.delivered + Read(r.cache, n), if n == 0 then r.since else r.since + 1)
    case Refill =>
      Run(AfterRefill(r.cache, p => Generated(r, p)), r.base + 2 * SIZE, r.delivered, 0)
  }

  ghost predicate AllAllowed(ops: seq<Op>) {
    forall i :: 0 <= i < |ops| ==> Allowed(ops[i])
  }

  ghost function After(ops: seq<Op>): (r: Run)
    requires AllAllowed(ops)
    ensures Valid(r.cache)
  {
    if ops == [] then Start() else Step(After(ops[..|ops| - 1]), ops[|ops| - 1])
  }

  /** At no point have more than `limit` non-empty reads happened since the last refill. */
  ghost predicate Paced(ops: seq<Op>, limit: nat)
    requires AllAllowed(ops)
  {
    After(ops).since <= limit && (ops != [] ==> Paced(ops[..|ops| - 1], limit))
  }

  ghost predicate Distinct(s: seq<nat>) {
    forall i, j :: 0 <= i < j < |s| ==> s[i] != s[j]
  }

  /** The positions read since the last refill, given whether low has come round to the start since. */
  predicate Consumed(c: Cache<nat>, wrapped: bool, p: nat) {
    var h := HighPlusOne(c);
    if wrapped then p < c.low || h <= p else h <= p < c.low
  }

  /** How far low can be ahead of high + 1: at most 56 per read, plus one skipped tail of 56. */
  predicate Budget(c: Cache<nat>, wrapped: bool, since: nat) {
    var h := HighPlusOne(c);
    if wrapped then SIZE - h + c.low <= 0x38 * since + 0x38 else h <= c.low && c.low - h <= 0x38 * since
  }

  /** Every cached number outside the consumed positions is still undelivered. */
  ghost predicate Undelivered(r: Run, wrapped: bool)
    requires Valid(r.cache)
  {
    forall p :: 0 <= p < SIZE && !Consumed(r.cache, wrapped, p) ==> r.cache.bytes[p] !in r.delivered
  }

  ghost predicate Invariant(r: Run, wrapped: bool) {
    && Valid(r.cache) && r.since <= 17
    && Budget(r.cache, wrapped, r.since)
    && Distinct(r.cache.bytes) && Distinct(r.delivered)
    && (forall p :: 0 <= p < SIZE ==> r.cache.bytes[p] < r.base)
    && (forall i :: 0 <= i < |r.delivered| ==> r.delivered[i] < r.base)
    && Undelivered(r, wrapped)
  }

  /** Within the pace the next read touches no consumed position. */
  lemma {:induction false} ReadIsClear(c: Cache<nat>, wrapped: bool, since: nat, n: nat)
    requires Valid(c) && Budget(c, wrapped, since) && since <= 16 && n <= MAX_READ
    ensures forall p :: c.low <= p < c.low + n ==> !Consumed(c, wrapped, p)
  {
  }

  /** What is consumed after a read: the positions before it and the read itself. */
  lemma {:induction false} ConsumedGrows(c: Cache<nat>, wrapped: bool, n: nat, wrapped': bool, p: nat)
    requires Valid(c) && 0 < n <= MAX_READ && p < SIZE
    requires wrapped ==> c.low + n <= HighPlusOne(c) && NextLow(c.low, n) != 0
    requires !wrapped ==> HighPlusOne(c) <= c.low
    requires wrapped' == (wrapped || NextLow(c.low, n) == 0)
    requires Consumed(c, wrapped, p) || c.low <= p < c.low + n
    ensures Consumed(AfterRead(c, n), wrapped', p)
  {
    assert HighPlusOne(AfterRead(c, n)) == HighPlusOne(c);
  }

  lemma {:induction false} BudgetGrows(c: Cache<nat>, wrapped: bool, since: nat, n: nat)
    requires Valid(c) && Budget(c, wrapped, since) && since <= 16 && 0 < n <= MAX_READ
    ensures var c' := AfterRead(c, n);
      Budget(c', wrapped || c'.low == 0, since + 1) && (wrapped ==> c.low + n <= HighPlusOne(c) && c'.low != 0)
  {
  }

  lemma {:induction false} GetKeeps(r: Run, wrapped: bool, n: nat) returns (wrapped': bool)
    requires Invariant(r, wrapped) && n <= MAX_READ && Step(r, Get(n)).since <= 17
    ensures Invariant(Step(r, Get(n)), wrapped')
  {
    var r' := Step(r, Get(n));
    if n == 0 {
      wrapped' := wrapped;
      assert r'.delivered == r.delivered;
    } else {
      wrapped' := wrapped || r'.cache.low == 0;
      BudgetGrows(r.cache, wrapped, r.since, n);
      ReadIsClear(r.cache, wrapped, r.since, n);
      forall p | 0 <= p < SIZE && (Consumed(r.cache, wrapped, p) || r.cache.low <= p < r.cache.low + n)
        ensures Consumed(r'.cache, wrapped', p)
      {
        ConsumedGrows(r.cache, wrapped, n, wrapped', p);
      }
      DeliverDistinct(r, wrapped, n);
    }
  }

  lemma {:induction false} DeliverDistinct(r: Run, wrapped: bool, n: nat)
    requires Invariant(r, wrapped) && n <= MAX_READ
    requires forall p :: r.cache.low <= p < r.cache.low + n ==> !Consumed(r.cache, wrapped, p)
    ensures Distinct(r.delivered + Read(r.cache, n))
    ensures forall p :: 0 <= p < SIZE && r.cache.bytes[p] in Read(r.cache, n) ==> r.cache.low <= p < r.cache.low + n
  {
    var read := Read(r.cache, n);
    forall i | 0 <= i < n ensures read[i] !in r.delivered {
      assert read[i] == r.cache.bytes[r.cache.low + i];
    }
  }

  lemma {:induction false} RefillKeeps(r: Run, wrapped: bool)
    requires Invariant(r, wrapped)
    ensures Invariant(Step(r, Refill), false)
  {
    var r' := Step(r, Refill);
    forall p | 0 <= p < SIZE ensures r'.cache.bytes[p] !in r.delivered {
      if InGap(r.cache, p) {
        assert r'.cache.bytes[p] == Generated(r, p) >= r.base;
      } else {
        assert !Consumed(r.cache, wrapped, p);
      }
    }
  }

  lemma {:induction false} RunKeeps(ops: seq<Op>) returns (wrapped: bool)
    requires AllAllowed(ops) && Paced(ops, 17)
    ensures Invariant(After(ops), wrapped)
  {
    wrapped := false;
    if ops != [] {
      var before := RunKeeps(ops[..|ops| - 1]);
      match ops[|ops| - 1]
      case Get(n) => wrapped := GetKeeps(After(ops[..|ops| - 1]), before, n);
      case Refill => RefillKeeps(After(ops[..|ops| - 1]), before);
    }
  }

  /** With at most 17 reads between refills, no random byte is handed out twice, whatever their sizes. */
  lemma {:induction false} NothingDeliveredTwice(ops: seq<Op>)
    requires AllAllowed(ops) && Paced(ops, 17)
    ensures Distinct(After(ops).delivered)
  {
    var wrapped := RunKeeps(ops);
  }

  /** A refill that finds high + 1 at low regenerates nothing. */
  lemma {:induction false} ClosedRefill(r: Run)
    requires Valid(r.cache) && HighPlusOne(r.cache) == r.cache.low
    ensures Step(r, Refill).cache == r.cache
  {
    assert Step(r, Refill).cache.bytes == r.cache.bytes;
  }

  ghost function FullReads(k: nat): (ops: seq<Op>)
    ensures |ops| == k && AllAllowed(ops)
  {
    seq(k, i => Get(MAX_READ))
  }

  lemma {:induction false} FullReadDelivers(r: Run, k: nat)
    requires k < 18 && r.cache == Start().cache.(low := 0x38 * k)
    requires r.delivered == seq(0x38 * k, i => i)
    ensures Step(r, Get(MAX_READ)).delivered == seq(0x38 * k + 0x38, i => i)
  {
    var read := Read(r.cache, MAX_READ);
    assert forall i :: 0 <= i < 0x38 ==> read[i] == r.cache.bytes[0x38 * k + i];
    assert r.delivered + read == seq(0x38 * k + 0x38, i => i);
  }

  lemma {:induction false} AfterFullReads(k: nat)
    requires k <= 18
    ensures var r := After(FullReads(k));
      && r.cache == Start().cache.(low := if k == 18 then 0 else 0x38 * k)
      && r.delivered == seq(0x38 * k, i => i) && r.since == k
  {
    if k > 0 {
      AfterFullReads(k - 1);
      assert FullReads(k)[..k - 1] == FullReads(k - 1);
      assert FullReads(k)[k - 1] == Get(MAX_READ);
      FullReadDelivers(After(FullReads(k - 1)), k - 1);
    }
  }

  /** Seventeen is exact: eighteen full reads bring low back to high + 1, which a refill takes for an
      untouched cache, and the next read repeats the first. */
  lemma {:induction false} EighteenReadsRepeat()
    ensures var ops := FullReads(18) + [Refill, Get(MAX_READ)];
      && After(FullReads(18) + [Refill]).cache == Start().cache
      && !Distinct(After(ops).delivered)
  {
    AfterFullReads(18);
    var ops1 := FullReads(18) + [Refill];
    var ops2 := FullReads(18) + [Refill, Get(MAX_READ)];
    assert ops1[..|ops1| - 1] == FullReads(18);
    assert ops2[..|ops2| - 1] == ops1;
    ClosedRefill(After(FullReads(18)));

    var d := After(ops2).delivered;
    assert d == After(ops1).delivered + Read(Start().cache, MAX_READ);
    assert d[0] == d[0x38 * 18] == 0;
  }

  lemma {:induction false} FullReadsPaced(k: nat)
    requires k <= 18
    ensures Paced(FullReads(k), 18)
  {
    AfterFullReads(k);
    if k > 0 {
      assert FullReads(k)[..k - 1] == FullReads(k - 1);
      FullReadsPaced(k - 1);
    }
  }

  lemma {:induction false} RepeatingRunPaced()
    ensures Paced(FullReads(18) + [Refill, Get(MAX_READ)], 18)
  {
    var ops1 := FullReads(18) + [Refill];
    var ops2 := FullReads(18) + [Refill, Get(MAX_READ)];
    FullReadsPaced(18);
    assert ops1[..|ops1| - 1] == FullReads(18);
    assert ops2[..|ops2| - 1] == ops1;
    assert Paced(ops1, 18);
  }

  lemma {:induction false} PacedMore(ops: seq<Op>, limit: nat, more: nat)
    requires AllAllowed(ops) && Paced(ops, limit) && limit <= more
    ensures Paced(ops, more)
  {
    if ops != [] {
      PacedMore(ops[..|ops| - 1], limit, more);
    }
  }

  /** A pace is safe on every run exactly when it allows at most 17 reads between refills. */
  lemma {:induction false} SeventeenIsExact(limit: nat)
    ensures (forall ops :: AllAllowed(ops) && Paced(ops, limit) ==> Distinct(After(ops).delivered)) <==> limit <= 17
  {
    if limit <= 17 {
      forall ops | AllAllowed(ops) && Paced(ops, limit) ensures Distinct(After(ops).delivered) {
        PacedMore(ops, limit, 17);
        NothingDeliveredTwice(ops);
      }
    } else {
      RepeatingRunPaced();
      PacedMore(FullReads(18) + [Refill, Get(MAX_READ)], 18, limit);
      EighteenReadsRepeat();
    }
  }
}

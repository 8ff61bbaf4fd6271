/** Translation tables and the loops that fill them (exosphere/src/mmu.h), 4 KB granule. */
module Mmu {

  /** Attribute bits of a descriptor; the zero-valued fields (normal memory, privileged read-write) are absent. */
  datatype Flag = ExecuteNever | NonSecure | InnerShareable | Device | ReadOnly

  type Attributes = set<Flag>

  /** A descriptor. A leaf is a block at levels 1 and 2 and a page at level 3; its access flag is always set. */
  datatype Entry = Fault | Table(next: nat) | Leaf(pa: nat, attrs: Attributes)

  /** A range of virtual addresses sent to a range of physical ones. */
  datatype Mapping = Mapping(va: nat, pa: nat, size: nat, attrs: Attributes)

  type Level = n: nat | 1 <= n <= 3 witness 1

  function Granule(level: Level): (g: nat)
    ensures g > 0
  {
    if level == 1 then 0x4000_0000 else if level == 2 then 0x20_0000 else 0x1000
  }

  /** mmu_compute_index. */
  function Index(level: Level, va: nat): (i: nat)
    ensures i < 512
  {
    va / Granule(level) % 512
  }

  /** Number of entries a range of `size` bytes takes. */
  function Count(level: Level, size: nat): nat {
    (size + Granule(level) - 1) / Granule(level)
  }

  function First(level: Level, m: Mapping): nat {
    Index(level, m.va)
  }

  function End(level: Level, m: Mapping): nat {
    First(level, m) + Count(level, m.size)
  }

  predicate Covers(level: Level, m: Mapping, i: int) {
    First(level, m) <= i < End(level, m)
  }

  /** The descriptor a mapping wants at a covered index. */
  function LeafAt(level: Level, m: Mapping, i: int): Entry
    requires Covers(level, m, i)
  {
    Leaf(m.pa + (i - First(level, m)) * Granule(level), m.attrs)
  }

  /** A table after one range has been mapped in it. */
  function Put(level: Level, t: seq<Entry>, m: Mapping): (r: seq<Entry>)
    ensures |r| == |t|
    ensures forall i :: 0 <= i < |t| ==> r[i] == if Covers(level, m, i) then LeafAt(level, m, i) else t[i]
  {
    seq(|t|, i requires 0 <= i < |t| => if Covers(level, m, i) then LeafAt(level, m, i) else t[i])
  }

  /** A table after a list of ranges has been mapped in it, in order. */
  function PutAll(level: Level, t: seq<Entry>, ms: seq<Mapping>): (r: seq<Entry>)
    ensures |r| == |t|
  {
    if ms == [] then t else Put(level, PutAll(level, t, ms[..|ms| - 1]), ms[|ms| - 1])
  }

  // ---- The code ------------------------------------------------------------------------------------

  lemma {:induction false} IndexAddsUp(q: nat, k: nat)
    requires q % 512 + k < 512
    ensures (q + k) % 512 == q % 512 + k
  {
  }

  lemma {:induction false} QuotientStep(level: Level, va: nat, k: nat)
    ensures (va + k * Granule(level)) / Granule(level) == va / Granule(level) + k
  {
    if level == 1 {
      assert (va + k * 0x4000_0000) / 0x4000_0000 == va / 0x4000_0000 + k;
    } else if level == 2 {
      assert (va + k * 0x20_0000) / 0x20_0000 == va / 0x20_0000 + k;
    } else {
      assert (va + k * 0x1000) / 0x1000 == va / 0x1000 + k;
    }
  }

  lemma {:induction false} IndexStep(level: Level, va: nat, k: nat)
    requires Index(level, va) + k < 512
    ensures Index(level, va + k * Granule(level)) == Index(level, va) + k
  {
    QuotientStep(level, va, k);
    IndexAddsUp(va / Granule(level), k);
  }

  lemma {:induction false} RoundUp(level: Level, size: nat, k: nat)
    ensures k * Granule(level) < Count(level, size) * Granule(level) <==> k < Count(level, size)
    ensures size <= Count(level, size) * Granule(level) < size + Granule(level)
  {
    if level == 1 {
    } else if level == 2 {
    } else {
    }
  }

  /** mmu_init_table; the second argument is a byte count, eight bytes an entry. */
  method InitTable(table: array<Entry>, bytes: nat)
    requires bytes / 8 <= table.Length
    modifies table
    ensures forall i :: 0 <= i < table.Length ==> table[i] == if i < bytes / 8 then Fault else old(table[i])
  {
    for n := 0 to bytes / 8
      invariant forall i :: 0 <= i < table.Length ==> table[i] == if i < n then Fault else old(table[i])
    {
      table[n] := Fault;
    }
  }

  /** mmu_map_table. */
  method MapTable(level: Level, table: array<Entry>, va: nat, next: nat)
    requires Index(level, va) < table.Length
    modifies table
    ensures table[..] == old(table[..])[Index(level, va) := Table(next)]
  {
    table[Index(level, va)] := Table(next);
  }

  /** mmu_map_block at levels 1 and 2, mmu_map_page at level 3. */
  method MapEntry(level: Level, table: array<Entry>, va: nat, pa: nat, attrs: Attributes)
    requires Index(level, va) < table.Length
    modifies table
    ensures table[..] == old(table[..])[Index(level, va) := Leaf(pa, attrs)]
  {
    table[Index(level, va)] := Leaf(pa, attrs);
  }

  /** mmu_map_block_range and mmu_map_page_range. */
  method MapRange(level: Level, table: array<Entry>, va: nat, pa: nat, size: nat, attrs: Attributes)
    requires table.Length <= 512 && Index(level, va) + Count(level, size) <= table.Length
    modifies table
    ensures table[..] == Put(level, old(table[..]), Mapping(va, pa, size, attrs))
  {
    ghost var before := table[..];
    ghost var m := Mapping(va, pa, size, attrs);
    var g := Granule(level);
    var rounded := (size + g - 1) / g * g;
    var offset := 0;
    ghost var k := 0;
    while offset < rounded
      invariant offset == k * g && k <= Count(level, size)
      invariant forall i :: 0 <= i < table.Length ==>
        table[i] == if Covers(level, m, i) && i < First(level, m) + k then LeafAt(level, m, i) else before[i]
      decreases Count(level, size) - k
    {
      RoundUp(level, size, k);
      IndexStep(level, va, k);
      MapEntry(level, table, va + offset, pa + offset, attrs);
      k, offset := k + 1, offset + g;
    }
    RoundUp(level, size, k);
    assert table[..] == Put(level, before, m);
  }

  /** mmu_unmap_range. */
  method UnmapRange(level: Level, table: array<Entry>, va: nat, size: nat)
    requires table.Length <= 512 && Index(level, va) + Count(level, size) <= table.Length
    modifies table
    ensures forall i :: 0 <= i < table.Length ==>
      table[i] == if Covers(level, Mapping(va, 0, size, {}), i) then Fault else old(table[i])
  {
    ghost var m := Mapping(va, 0, size, {});
    var g := Granule(level);
    var rounded := (size + g - 1) / g * g;
    var offset := 0;
    ghost var k := 0;
    while offset < rounded
      invariant offset == k * g && k <= Count(level, size)
      invariant forall i :: 0 <= i < table.Length ==>
        table[i] == if Covers(level, m, i) && i < First(level, m) + k then Fault else old(table[i])
      decreases Count(level, size) - k
    {
      RoundUp(level, size, k);
      IndexStep(level, va, k);
      table[Index(level, va + offset)] := Fault;
      k, offset := k + 1, offset + g;
    }
    RoundUp(level, size, k);
  }

  // ---- One table shared by many ranges -------------------------------------------------------------

  lemma {:induction false} PutAllConcat(level: Level, t: seq<Entry>, a: seq<Mapping>, b: seq<Mapping>)
    ensures PutAll(level, PutAll(level, t, a), b) == PutAll(level, t, a + b)
    decreases |b|
  {
    if b == [] {
      assert a + b == a;
    } else {
      PutAllConcat(level, t, a, b[..|b| - 1]);
      assert (a + b)[..|a + b| - 1] == a + b[..|b| - 1];
    }
  }

  ghost predicate Uncovered(level: Level, ms: seq<Mapping>, i: int) {
    forall j :: 0 <= j < |ms| ==> !Covers(level, ms[j], i)
  }

  lemma {:induction false} UncoveredKeeps(level: Level, t: seq<Entry>, ms: seq<Mapping>, i: nat)
    requires i < |t| && Uncovered(level, ms, i)
    ensures PutAll(level, t, ms)[i] == t[i]
  {
    if ms != [] {
      assert !Covers(level, ms[|ms| - 1], i);
      UncoveredKeeps(level, t, ms[..|ms| - 1], i);
    }
  }

  /** An entry belongs to the last range that covers it. */
  lemma {:induction false} LastWriterWins(level: Level, t: seq<Entry>, ms: seq<Mapping>, j: nat, i: nat)
    requires i < |t| && j < |ms| && Covers(level, ms[j], i)
    requires forall k :: j < k < |ms| ==> !Covers(level, ms[k], i)
    ensures PutAll(level, t, ms)[i] == LeafAt(level, ms[j], i)
  {
    if j < |ms| - 1 {
      assert !Covers(level, ms[|ms| - 1], i);
      LastWriterWins(level, t, ms[..|ms| - 1], j, i);
    }
  }

  lemma {:induction false} LastWriter(level: Level, ms: seq<Mapping>, j: nat, i: nat) returns (last: nat)
    requires j < |ms| && Covers(level, ms[j], i)
    ensures j <= last < |ms| && Covers(level, ms[last], i)
    ensures forall k :: last < k < |ms| ==> !Covers(level, ms[k], i)
    decreases |ms| - j
  {
    if k :| j < k < |ms| && Covers(level, ms[k], i) {
      last := LastWriter(level, ms, k, i);
    } else {
      last := j;
    }
  }

  /** Every range reads back as it was asked for. */
  ghost predicate AllHold(level: Level, t: seq<Entry>, ms: seq<Mapping>) {
    forall j, i :: 0 <= j < |ms| && 0 <= i < |t| && Covers(level, ms[j], i) ==>
      PutAll(level, t, ms)[i] == LeafAt(level, ms[j], i)
  }

  /** Ranges that meet in an entry want the same descriptor there. */
  ghost predicate Compatible(level: Level, length: nat, ms: seq<Mapping>) {
    forall j, k, i :: 0 <= j < k < |ms| && 0 <= i < length && Covers(level, ms[j], i) && Covers(level, ms[k], i) ==>
      LeafAt(level, ms[j], i) == LeafAt(level, ms[k], i)
  }

  /** Sharing one table is right exactly when no two ranges disagree about an entry. */
  lemma {:induction false} SharingIsRightIffCompatible(level: Level, t: seq<Entry>, ms: seq<Mapping>)
    ensures AllHold(level, t, ms) <==> Compatible(level, |t|, ms)
  {
    if Compatible(level, |t|, ms) {
      forall j, i | 0 <= j < |ms| && 0 <= i < |t| && Covers(level, ms[j], i)
        ensures PutAll(level, t, ms)[i] == LeafAt(level, ms[j], i)
      {
        var last := LastWriter(level, ms, j, i);
        LastWriterWins(level, t, ms, last, i);
        assert last != j ==> LeafAt(level, ms[j], i) == LeafAt(level, ms[last], i);
      }
      assert AllHold(level, t, ms);
    }
    if AllHold(level, t, ms) {
      forall j, k, i | 0 <= j < k < |ms| && 0 <= i < |t| && Covers(level, ms[j], i) && Covers(level, ms[k], i)
        ensures LeafAt(level, ms[j], i) == LeafAt(level, ms[k], i)
      {
        assert PutAll(level, t, ms)[i] == LeafAt(level, ms[k], i);
      }
    }
  }

  /** No entry is written by two ranges. */
  ghost predicate Disjoint(level: Level, ms: seq<Mapping>) {
    forall j, k :: 0 <= j < k < |ms| ==>
      End(level, ms[j]) <= First(level, ms[k]) || End(level, ms[k]) <= First(level, ms[j])
  }

  ghost predicate Within(level: Level, ms: seq<Mapping>, lo: nat, hi: nat) {
    forall j :: 0 <= j < |ms| ==> lo <= First(level, ms[j]) && End(level, ms[j]) <= hi
  }

  lemma {:induction false} DisjointIsCompatible(level: Level, length: nat, ms: seq<Mapping>)
    requires Disjoint(level, ms)
    ensures Compatible(level, length, ms)
  {
  }

  lemma {:induction false} DisjointConcat(level: Level, a: seq<Mapping>, b: seq<Mapping>, lo: nat, mid: nat, hi: nat)
    requires Disjoint(level, a) && Within(level, a, lo, mid)
    requires Disjoint(level, b) && Within(level, b, mid, hi)
    requires lo <= mid <= hi
    ensures Disjoint(level, a + b) && Within(level, a + b, lo, hi)
  {
    var ms := a + b;
    forall j, k | 0 <= j < k < |ms|
      ensures End(level, ms[j]) <= First(level, ms[k]) || End(level, ms[k]) <= First(level, ms[j])
    {
      assert k < |a| ==> ms[k] == a[k] && ms[j] == a[j];
      assert k >= |a| ==> ms[k] == b[k - |a|];
      assert j >= |a| ==> ms[j] == b[j - |a|];
    }
  }

  // ---- The hardware walk ---------------------------------------------------------------------------

  /** Three tables in memory, with the physical addresses of the lower two. */
  datatype Tables = Tables(l1: seq<Entry>, l2: seq<Entry>, l3: seq<Entry>, l2Pa: nat, l3Pa: nat)

  datatype Translation = NotMapped | To(pa: nat, attrs: Attributes)

  const VA_LIMIT: nat := 0x2_0000_0000 // a 33-bit address space

  ghost predicate WellFormed(t: Tables) {
    |t.l1| == 8 && |t.l2| == 512 && |t.l3| == 512
  }

  function WalkL3(t: seq<Entry>, va: nat): Translation
    requires |t| == 512
  {
    match t[Index(3, va)]
    case Leaf(pa, attrs) => To(pa + va % 0x1000, attrs)
    case _ => NotMapped
  }

  /** What the hardware makes of `va`. */
  function Walk(t: Tables, va: nat): Translation
    requires WellFormed(t) && va < VA_LIMIT
  {
    match t.l1[Index(1, va)]
    case Fault => NotMapped
    case Leaf(pa, attrs) => To(pa + va % 0x4000_0000, attrs)
    case Table(next) =>
      if next != t.l2Pa then NotMapped
      else
        match t.l2[Index(2, va)]
        case Fault => NotMapped
        case Leaf(pa, attrs) => To(pa + va % 0x20_0000, attrs)
        case Table(next') => if next' == t.l3Pa then WalkL3(t.l3, va) else NotMapped
  }
}

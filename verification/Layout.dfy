/** Address ranges laid out by running offset in one shared level-3 table: where they land, when they meet,
    and what the hardware walk makes of them. Holds for any rows; module MemoryMap supplies the monitor's. */
module Layout {
  import opened Mmu

  /** What a mapping loop needs of a row: `step` is how far it advances the virtual address. */
  datatype Segment = Segment(pa: nat, size: nat, step: nat, attrs: Attributes)

  /** The running offset of the loops after the given rows. */
  function Advance(segs: seq<Segment>): nat {
    if segs == [] then 0 else Advance(segs[..|segs| - 1]) + segs[|segs| - 1].step
  }

  function Placed(base: nat, segs: seq<Segment>): (ms: seq<Mapping>)
    ensures |ms| == |segs|
  {
    seq(|segs|, i requires 0 <= i < |segs| =>
      Mapping(base + Advance(segs[..i]), segs[i].pa, segs[i].size, segs[i].attrs))
  }

  lemma {:induction false} AdvanceMonotone(segs: seq<Segment>, i: nat, j: nat)
    requires i < j <= |segs|
    ensures Advance(segs[..i]) + segs[i].step <= Advance(segs[..j])
  {
    assert segs[..j][..j - 1] == segs[..j - 1];
    if i + 1 < j {
      AdvanceMonotone(segs, i, j - 1);
    }
  }

  /** Page-aligned rows that never advance by less than their own size, and stay inside one level-3 table. */
  ghost predicate Roomy(base: nat, segs: seq<Segment>, last: nat) {
    && base % 0x1000 == 0
    && (forall i :: 0 <= i < |segs| ==>
          segs[i].size % 0x1000 == 0 && segs[i].step % 0x1000 == 0 && 0 < segs[i].step && segs[i].size <= segs[i].step)
    && Index(3, base) + Advance(segs) / 0x1000 <= last <= 512
  }

  lemma {:induction false} AdvanceAligned(segs: seq<Segment>, i: nat)
    requires i <= |segs| && forall k :: 0 <= k < |segs| ==> segs[k].step % 0x1000 == 0
    ensures Advance(segs[..i]) % 0x1000 == 0
  {
    if i > 0 {
      AdvanceAligned(segs, i - 1);
      assert segs[..i][..i - 1] == segs[..i - 1];
    }
  }

  lemma {:induction false} IndexAt(base: nat, offset: nat)
    requires offset % 0x1000 == 0 && Index(3, base) + offset / 0x1000 < 512
    ensures Index(3, base + offset) == Index(3, base) + offset / 0x1000
  {
    IndexStep(3, base, offset / 0x1000);
  }

  lemma {:induction false} PageSum(offset: nat, size: nat, step: nat, total: nat)
    requires offset % 0x1000 == 0 && size % 0x1000 == 0 && step % 0x1000 == 0
    requires size <= step && offset + step <= total
    ensures Count(3, size) == size / 0x1000 <= step / 0x1000
    ensures offset / 0x1000 + step / 0x1000 == (offset + step) / 0x1000 <= total / 0x1000
  {
  }

  /** Where a placed row lands in the level-3 table. */
  lemma {:induction false} PlacedIndex(base: nat, segs: seq<Segment>, last: nat, i: nat)
    requires Roomy(base, segs, last) && i < |segs|
    ensures var m := Placed(base, segs)[i];
      && First(3, m) == Index(3, base) + Advance(segs[..i]) / 0x1000
      && End(3, m) <= Index(3, base) + (Advance(segs[..i]) + segs[i].step) / 0x1000 <= last
  {
    var offset := Advance(segs[..i]);
    AdvanceAligned(segs, i);
    AdvanceMonotone(segs, i, |segs|);
    assert segs[..|segs|] == segs;
    PageSum(offset, segs[i].size, segs[i].step, Advance(segs));
    IndexAt(base, offset);
  }

  /** Ranges that meet nowhere and stay in the entries from `lo` up to `hi`. */
  ghost predicate Band(ms: seq<Mapping>, lo: nat, hi: nat) {
    Disjoint(3, ms) && Within(3, ms, lo, hi)
  }

  /** Rows placed one after the other never meet in the table, whatever they map. */
  lemma {:induction false} PlacedDisjoint(base: nat, segs: seq<Segment>, first: nat, last: nat)
    requires Roomy(base, segs, last) && Index(3, base) == first
    ensures Band(Placed(base, segs), first, last)
  {
    var ms := Placed(base, segs);
    forall j, k | 0 <= j < k < |ms|
      ensures End(3, ms[j]) <= First(3, ms[k])
    {
      PlacedIndex(base, segs, last, j);
      PlacedIndex(base, segs, last, k);
      AdvanceMonotone(segs, j, k);
    }
    forall j | 0 <= j < |ms|
      ensures first <= First(3, ms[j]) && End(3, ms[j]) <= last
    {
      PlacedIndex(base, segs, last, j);
    }
  }

  lemma {:induction false} AdvanceBound(segs: seq<Segment>, most: nat)
    requires forall i :: 0 <= i < |segs| ==> segs[i].step <= most
    ensures Advance(segs) <= |segs| * most
  {
    if segs != [] {
      AdvanceBound(segs[..|segs| - 1], most);
    }
  }

  lemma {:induction false} FiveBands(a: seq<Mapping>, b: seq<Mapping>, c: seq<Mapping>, d: seq<Mapping>,
                                     e: seq<Mapping>,
                                     k1: nat, k2: nat, k3: nat, k4: nat, k5: nat)
    requires k1 <= k2 <= k3 <= k4 <= k5
    requires Band(a, 0, k1) && Band(b, k1, k2) && Band(c, k2, k3) && Band(d, k3, k4) && Band(e, k4, k5)
    ensures Band(a + b + c + d + e, 0, k5)
  {
    DisjointConcat(3, a, b, 0, k1, k2);
    DisjointConcat(3, a + b, c, 0, k2, k3);
    DisjointConcat(3, a + b + c, d, 0, k3, k4);
    DisjointConcat(3, a + b + c + d, e, 0, k4, k5);
  }

  lemma {:induction false} MapOne(t: seq<Entry>, ms: seq<Mapping>, i: nat)
    requires i < |ms|
    ensures PutAll(3, t, ms[..i + 1]) == Put(3, PutAll(3, t, ms[..i]), ms[i])
  {
    assert ms[..i + 1][..i] == ms[..i];
  }

  lemma {:induction false} AdvanceOne(segs: seq<Segment>, i: nat)
    requires i < |segs|
    ensures Advance(segs[..i + 1]) == Advance(segs[..i]) + segs[i].step
  {
    assert segs[..i + 1][..i] == segs[..i];
  }

  /** One round of the four loops below: the row goes where the running offset says. */
  method MapNext(l3: array<Entry>, base: nat, offset: nat, row: Segment,
                 ghost segs: seq<Segment>, ghost last: nat, ghost i: nat, ghost t: seq<Entry>)
    requires l3.Length == 512 && Roomy(base, segs, last) && i < |segs| && row == segs[i]
    requires offset == Advance(segs[..i]) && l3[..] == PutAll(3, t, Placed(base, segs)[..i])
    modifies l3
    ensures l3[..] == PutAll(3, t, Placed(base, segs)[..i + 1])
    ensures Advance(segs[..i + 1]) == offset + row.step
  {
    PlacedIndex(base, segs, last, i);
    MapOne(t, Placed(base, segs), i);
    AdvanceOne(segs, i);
    MapRange(3, l3, base + offset, row.pa, row.size, row.attrs);
  }

  function Faults(n: nat): (t: seq<Entry>)
    ensures |t| == n && forall i :: 0 <= i < n ==> t[i] == Fault
  {
    seq(n, i => Fault)
  }

  /** The addresses that end in the shared level-3 table: three level-2 entries under two level-1 entries. */
  predicate Window(va: nat) {
    (Index(1, va) == 1 || Index(1, va) == 7) && (Index(2, va) == 0 || Index(2, va) == 0x180 || Index(2, va) == 0x1E0)
  }

  lemma {:induction false} LowBits(va: nat)
    ensures Index(3, va) == va % 0x20_0000 / 0x1000 && va % 0x1000 == va % 0x20_0000 % 0x1000
  {
    var low := va % 0x20_0000;
    assert va == va / 0x20_0000 * 0x20_0000 + low;
    assert va == (va / 0x20_0000 * 512 + low / 0x1000) * 0x1000 + low % 0x1000;
    assert va / 0x1000 == va / 0x20_0000 * 512 + low / 0x1000;
  }

  lemma {:induction false} SameLowBits(t: seq<Entry>, va: nat, vb: nat)
    requires |t| == 512 && va % 0x20_0000 == vb % 0x20_0000
    ensures WalkL3(t, va) == WalkL3(t, vb)
  {
    LowBits(va);
    LowBits(vb);
  }

  /** A page-aligned range that starts in a window and ends inside the level-3 table. */
  ghost predicate Reached(m: Mapping) {
    m.va % 0x1000 == 0 && m.va < VA_LIMIT && Window(m.va) && End(3, m) <= 512
  }

  lemma {:induction false} StaysInWindow(m: Mapping, offset: nat)
    requires Reached(m) && offset < m.size
    ensures m.va + offset < VA_LIMIT && Window(m.va + offset)
    ensures Index(3, m.va + offset) == First(3, m) + offset / 0x1000
    ensures (m.va + offset) % 0x1000 == offset % 0x1000
    ensures Covers(3, m, First(3, m) + offset / 0x1000)
  {
    var high := m.va / 0x20_0000;
    var low := m.va % 0x20_0000;
    LowBits(m.va);
    assert offset / 0x1000 < Count(3, m.size);
    assert low + offset < 0x20_0000;
    assert m.va + offset == high * 0x20_0000 + (low + offset);
    assert (m.va + offset) / 0x20_0000 == high && (m.va + offset) % 0x20_0000 == low + offset;
    LowBits(m.va + offset);
    SameTwoMegabytes(m.va, m.va + offset);
  }

  lemma {:induction false} SameTwoMegabytes(va: nat, vb: nat)
    requires va / 0x20_0000 == vb / 0x20_0000
    ensures Index(2, va) == Index(2, vb) && Index(1, va) == Index(1, vb)
    ensures va < VA_LIMIT ==> vb < VA_LIMIT
  {
    assert va / 0x4000_0000 == va / 0x20_0000 / 512;
    assert vb / 0x4000_0000 == vb / 0x20_0000 / 512;
  }

  lemma {:induction false} PageOf(m: Mapping, offset: nat)
    requires Reached(m) && offset < m.size
    ensures First(3, m) + offset / 0x1000 < 512 && Covers(3, m, First(3, m) + offset / 0x1000)
  {
    StaysInWindow(m, offset);
  }

  lemma {:induction false} EntryTranslates(t: seq<Entry>, m: Mapping, offset: nat)
    requires |t| == 512 && Reached(m) && offset < m.size && First(3, m) + offset / 0x1000 < 512
    requires t[First(3, m) + offset / 0x1000] == Leaf(m.pa + offset / 0x1000 * 0x1000, m.attrs)
    ensures WalkL3(t, m.va + offset) == To(m.pa + offset, m.attrs)
  {
    StaysInWindow(m, offset);
  }

  lemma {:induction false} DisjointEntry(ms: seq<Mapping>, j: nat, k: nat)
    requires Disjoint(3, ms) && j < |ms| && First(3, ms[j]) + k < 512 && Covers(3, ms[j], First(3, ms[j]) + k)
    ensures PutAll(3, Faults(512), ms)[First(3, ms[j]) + k] == Leaf(ms[j].pa + k * 0x1000, ms[j].attrs)
  {
    DisjointIsCompatible(3, 512, ms);
    SharingIsRightIffCompatible(3, Faults(512), ms);
  }

  /** Any list of ranges in the windows that meet nowhere is translated as asked, byte by byte. */
  lemma {:induction false} DisjointRangesTranslate(ms: seq<Mapping>, j: nat, offset: nat)
    requires Disjoint(3, ms) && j < |ms| && Reached(ms[j]) && offset < ms[j].size
    ensures WalkL3(PutAll(3, Faults(512), ms), ms[j].va + offset) == To(ms[j].pa + offset, ms[j].attrs)
  {
    PageOf(ms[j], offset);
    DisjointEntry(ms, j, offset / 0x1000);
    EntryTranslates(PutAll(3, Faults(512), ms), ms[j], offset);
  }

  lemma {:induction false} PlacedReached(base: nat, segs: seq<Segment>, last: nat, i: nat)
    requires Roomy(base, segs, last) && i < |segs| && base < VA_LIMIT && Window(base)
    ensures Reached(Placed(base, segs)[i])
  {
    var offset := Advance(segs[..i]);
    PlacedIndex(base, segs, last, i);
    AdvanceAligned(segs, i);
    AdvanceMonotone(segs, i, |segs|);
    assert segs[..|segs|] == segs;
    PageSum(offset, segs[i].size, segs[i].step, Advance(segs));
    OnePageOn(base, offset);
  }

  lemma {:induction false} OnePageOn(base: nat, offset: nat)
    requires base % 0x1000 == 0 && offset % 0x1000 == 0 && Index(3, base) + offset / 0x1000 < 512
    requires base < VA_LIMIT && Window(base)
    ensures base + offset < VA_LIMIT && Window(base + offset) && (base + offset) % 0x1000 == 0
  {
    StaysInWindow(Mapping(base, 0, offset + 0x1000, {}), offset);
  }

  ghost predicate AllReached(ms: seq<Mapping>) {
    forall j :: 0 <= j < |ms| ==> Reached(ms[j])
  }

  lemma {:induction false} GroupReached(base: nat, segs: seq<Segment>, last: nat)
    requires Roomy(base, segs, last) && base < VA_LIMIT && Window(base)
    ensures AllReached(Placed(base, segs))
  {
    forall i | 0 <= i < |segs| ensures Reached(Placed(base, segs)[i]) {
      PlacedReached(base, segs, last, i);
    }
  }

  /** The preprocessor's left fold with plus. */
  function Sum(xs: seq<nat>): nat {
    if xs == [] then 0 else Sum(xs[..|xs| - 1]) + xs[|xs| - 1]
  }

  /** A running offset is the fold of the rows passed, plus a fixed gap for each. */
  lemma {:induction false} AdvanceIsFold(segs: seq<Segment>, xs: seq<nat>, gap: nat)
    requires |xs| == |segs| && forall i :: 0 <= i < |segs| ==> segs[i].step == xs[i] + gap
    ensures Advance(segs) == Sum(xs) + gap * |xs|
  {
    if segs != [] {
      AdvanceIsFold(segs[..|segs| - 1], xs[..|xs| - 1], gap);
    }
  }

  lemma {:induction false} SumZero(xs: seq<nat>)
    requires forall i :: 0 <= i < |xs| ==> xs[i] == 0
    ensures Sum(xs) == 0
  {
    if xs != [] {
      SumZero(xs[..|xs| - 1]);
    }
  }
}

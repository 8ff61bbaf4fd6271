/** The secure monitor's memory map (exosphere/src/memory_map.h) and its cold-boot translation tables
    (exosphere/src/coldboot_init.c). */
module MemoryMap {
  import opened Mmu
  import opened Layout

  const FIRMWARE_500: nat := 5
  const FIRMWARE_700: nat := 8

  const MMIO_BASE: nat := 0x1_F008_0000
  const LP0_BASE: nat := 0x1_F018_0000
  const WARMBOOT_BASE: nat := 0x1_F01C_7000
  const TZRAM_BASE: nat := 0x1_F01E_0000
  const TZRAM_PA: nat := 0x7C01_0000

  datatype IdentityRow = IdentityRow(addr: nat, size: nat, attribs: Attributes, block: bool)
  datatype DeviceRow = DeviceRow(pa: nat, pa7x: nat, size: nat, secure: bool)
  datatype RamRow = RamRow(pa: nat, size: nat, attribs: Attributes)
  datatype TzramRow = TzramRow(offset: nat, offset5x: nat, size: nat, increment: nat, executable: bool)

  const IDENTITY: seq<IdentityRow> := [
    IdentityRow(0x4000_6000, 0x1000, {}, false),
    IdentityRow(0x4002_0000, 0x20000, {}, false),
    IdentityRow(0x7C01_0000, 0x10000, {}, false),
    IdentityRow(0x8000_0000, 0x1_0000_0000, {ExecuteNever, NonSecure}, true)]

  const DEVICES: seq<DeviceRow> := [
    DeviceRow(0x5004_1000, 0x5004_1000, 0x1000, true),
    DeviceRow(0x5004_2000, 0x5004_2000, 0x2000, true),
    DeviceRow(0x7000_6000, 0x7000_6000, 0x1000, false),
    DeviceRow(0x6000_6000, 0x6000_6000, 0x1000, false),
    DeviceRow(0x7000_E000, 0x7000_E000, 0x1000, true),
    DeviceRow(0x6000_5000, 0x6000_5000, 0x1000, true),
    DeviceRow(0x6000_C000, 0x6000_C000, 0x1000, true),
    DeviceRow(0x7001_2000, 0x7001_2000, 0x2000, true),
    DeviceRow(0x700F_0000, 0x700F_0000, 0x1000, true),
    DeviceRow(0x7001_9000, 0x7001_9000, 0x1000, true),
    DeviceRow(0x7000_F000, 0x7000_F000, 0x1000, true),
    DeviceRow(0x7000_0000, 0x7000_0000, 0x4000, true),
    DeviceRow(0x6000_7000, 0x6000_7000, 0x1000, true),
    DeviceRow(0x4000_2000, 0x4000_0000, 0x1000, true),
    DeviceRow(0x7000_D000, 0x7000_D000, 0x1000, true),
    DeviceRow(0x6000_D000, 0x6000_D000, 0x1000, true),
    DeviceRow(0x7000_C000, 0x7000_C000, 0x1000, true),
    DeviceRow(0x6000_F000, 0x6000_F000, 0x1000, true),
    DeviceRow(0, 0, 0x1000, true),
    DeviceRow(0, 0, 0x1000, true),
    DeviceRow(0x4003_8000, 0x4003_8000, 0x5000, true)]

  const MAILBOX: nat := 13

  const LP0: seq<RamRow> := [
    RamRow(0x4002_0000, 0x10000, {NonSecure, Device}),
    RamRow(0x4000_3000, 0x1000, {NonSecure, Device}),
    RamRow(0x7C01_0000, 0x10000, {ReadOnly})]

  const WARMBOOT: seq<RamRow> := [
    RamRow(0x8000_F000, 0x1000, {NonSecure, Device}),
    RamRow(0x8001_0000, 0x10000, {NonSecure, Device})]

  const TZRAM: seq<TzramRow> := [
    TzramRow(0x3000, 0x3000, 0xB000, 0x10000, true),
    TzramRow(0xE000, 0, 0x2000, 0x4000, true),
    TzramRow(0, 0, 0, 0x2000, false),
    TzramRow(0xE000, 0, 0x1000, 0x2000, false),
    TzramRow(0xF000, 0x1000, 0x1000, 0x2000, false),
    TzramRow(0, 0x2000, 0x1000, 0x2000, true),
    TzramRow(0x1000, 0xE000, 0x1000, 0x2000, false),
    TzramRow(0x2000, 0xF000, 0x1000, 0x2000, false)]

  const SECMON_EVT: nat := 5
  const L2_SEGMENT: nat := 6
  const L3_SEGMENT: nat := 7

  // ---- Tables laid out one after the other ---------------------------------------------------------

  function DeviceAttrs(secure: bool): Attributes {
    (if secure then {} else {NonSecure}) + {ExecuteNever, InnerShareable, Device}
  }

  function TzramAttrs(executable: bool): Attributes {
    (if executable then {} else {ExecuteNever}) + {InnerShareable}
  }

  function DevicePa(fw: nat, d: DeviceRow): nat {
    if fw < FIRMWARE_700 then d.pa else d.pa7x
  }

  function TzramPa(fw: nat, s: TzramRow): nat {
    TZRAM_PA + if fw < FIRMWARE_500 then s.offset else s.offset5x
  }

  function DeviceSegments(rows: seq<DeviceRow>, fw: nat): (s: seq<Segment>)
    ensures |s| == |rows|
  {
    seq(|rows|, i requires 0 <= i < |rows| =>
      Segment(DevicePa(fw, rows[i]), rows[i].size, rows[i].size + 0x1000, DeviceAttrs(rows[i].secure)))
  }

  function Devices(fw: nat): seq<Segment> {
    DeviceSegments(DEVICES, fw)
  }

  function Lp0Segments(): (s: seq<Segment>)
    ensures |s| == |LP0|
  {
    seq(|LP0|, i requires 0 <= i < |LP0| =>
      Segment(LP0[i].pa, LP0[i].size, 0x10000, {ExecuteNever, InnerShareable} + LP0[i].attribs))
  }

  function WarmbootSegments(): (s: seq<Segment>)
    ensures |s| == |WARMBOOT|
  {
    seq(|WARMBOOT|, i requires 0 <= i < |WARMBOOT| =>
      Segment(WARMBOOT[i].pa, WARMBOOT[i].size, WARMBOOT[i].size, {ExecuteNever, InnerShareable} + WARMBOOT[i].attribs))
  }

  function TzramRows(rows: seq<TzramRow>, fw: nat): (s: seq<Segment>)
    ensures |s| == |rows|
  {
    seq(|rows|, i requires 0 <= i < |rows| =>
      Segment(TzramPa(fw, rows[i]), rows[i].size, rows[i].increment, TzramAttrs(rows[i].executable)))
  }

  function TzramSegments(fw: nat): seq<Segment> {
    TzramRows(TZRAM, fw)
  }

  /** The identity-mapped pages. */
  function IdentityPages(): (ms: seq<Mapping>)
    ensures |ms| == 3
  {
    seq(3, i requires 0 <= i < 3 =>
      Mapping(IDENTITY[i].addr, IDENTITY[i].addr, IDENTITY[i].size, IDENTITY[i].attribs + {InnerShareable}))
  }

  /** The identity-mapped DRAM, in blocks. */
  function Dram(): Mapping {
    Mapping(IDENTITY[3].addr, IDENTITY[3].addr, IDENTITY[3].size, IDENTITY[3].attribs + {InnerShareable})
  }

  /** Everything that goes into the one level-3 table, in the order it is written. */
  function Pages(fw: nat): seq<Mapping> {
    IdentityPages() + Placed(MMIO_BASE, Devices(fw)) + Placed(LP0_BASE, Lp0Segments())
    + Placed(WARMBOOT_BASE, WarmbootSegments()) + Placed(TZRAM_BASE, TzramSegments(fw))
  }

  // ---- This map ------------------------------------------------------------------------------------

  lemma {:induction false} DevicesRoomy(fw: nat)
    ensures Roomy(MMIO_BASE, Devices(fw), 0x180)
  {
    var segs := Devices(fw);
    forall i | 0 <= i < |segs|
      ensures segs[i].size % 0x1000 == 0 && segs[i].step % 0x1000 == 0 && segs[i].size < segs[i].step <= 0x6000
    {
    }
    AdvanceBound(segs, 0x6000);
  }

  lemma {:induction false} Lp0Roomy()
    ensures Roomy(LP0_BASE, Lp0Segments(), 0x1C7)
  {
    AdvanceBound(Lp0Segments(), 0x10000);
  }

  lemma {:induction false} WarmbootRoomy()
    ensures Roomy(WARMBOOT_BASE, WarmbootSegments(), 0x1E0)
  {
    var s := WarmbootSegments();
    assert s[..1][..0] == [] && s[..2][..1] == s[..1] && s[..2] == s;
    assert Advance(s) == 0x11000;
  }

  /** The loop over the last table stops exactly at the end of the level-3 table. */
  lemma {:induction false} TzramAdvance(fw: nat)
    ensures Advance(TzramSegments(fw)) == 0x20000
  {
    var s := TzramSegments(fw);
    forall i | 0 <= i < 8
      ensures Advance(s[..i + 1]) == Advance(s[..i]) + TZRAM[i].increment
    {
      assert s[..i + 1][..i] == s[..i];
    }
    assert Advance(s[..0 + 1]) == 0x10000;
    assert Advance(s[..1 + 1]) == 0x14000;
    assert Advance(s[..2 + 1]) == 0x16000;
    assert Advance(s[..3 + 1]) == 0x18000;
    assert Advance(s[..4 + 1]) == 0x1A000;
    assert Advance(s[..5 + 1]) == 0x1C000;
    assert Advance(s[..6 + 1]) == 0x1E000;
    assert s[..7 + 1] == s;
  }

  lemma {:induction false} TzramRoomy(fw: nat)
    ensures Roomy(TZRAM_BASE, TzramSegments(fw), 0x200)
  {
    TzramAdvance(fw);
  }

  lemma {:induction false} IdentityBand()
    ensures Band(IdentityPages(), 0, 0x80)
  {
    var ms := IdentityPages();
    assert First(3, ms[0]) == 6 && Count(3, ms[0].size) == 1;
    assert First(3, ms[1]) == 0x20 && Count(3, ms[1].size) == 0x20;
    assert First(3, ms[2]) == 0x10 && Count(3, ms[2].size) == 0x10;
  }

  lemma {:induction false} DevicesBand(fw: nat)
    ensures Band(Placed(MMIO_BASE, Devices(fw)), 0x80, 0x180)
  {
    DevicesRoomy(fw);
    PlacedDisjoint(MMIO_BASE, Devices(fw), 0x80, 0x180);
  }

  lemma {:induction false} Lp0Band()
    ensures Band(Placed(LP0_BASE, Lp0Segments()), 0x180, 0x1C7)
  {
    Lp0Roomy();
    PlacedDisjoint(LP0_BASE, Lp0Segments(), 0x180, 0x1C7);
  }

  lemma {:induction false} WarmbootBand()
    ensures Band(Placed(WARMBOOT_BASE, WarmbootSegments()), 0x1C7, 0x1E0)
  {
    WarmbootRoomy();
    PlacedDisjoint(WARMBOOT_BASE, WarmbootSegments(), 0x1C7, 0x1E0);
  }

  lemma {:induction false} TzramBand(fw: nat)
    ensures Band(Placed(TZRAM_BASE, TzramSegments(fw)), 0x1E0, 0x200)
  {
    TzramRoomy(fw);
    PlacedDisjoint(TZRAM_BASE, TzramSegments(fw), 0x1E0, 0x200);
  }

  /** Nothing clashes: no level-3 entry is written twice, on any firmware. */
  lemma {:induction false} NothingClashes(fw: nat)
    ensures Band(Pages(fw), 0, 0x200)
  {
    IdentityBand();
    DevicesBand(fw);
    Lp0Band();
    WarmbootBand();
    TzramBand(fw);
    FiveBands(IdentityPages(), Placed(MMIO_BASE, Devices(fw)), Placed(LP0_BASE, Lp0Segments()),
              Placed(WARMBOOT_BASE, WarmbootSegments()), Placed(TZRAM_BASE, TzramSegments(fw)),
              0x80, 0x180, 0x1C7, 0x1E0, 0x200);
  }

  // ---- The code ------------------------------------------------------------------------------------

  /** identity_map_mapping. */
  method IdentityMap(l1: array<Entry>, l3: array<Entry>, row: IdentityRow)
    requires l1.Length == 8 && l3.Length == 512 && l1 != l3
    requires Index(if row.block then 1 else 3, row.addr) +
      Count(if row.block then 1 else 3, row.size) <= if row.block then 8 else 512
    modifies l1, l3
    ensures var m := Mapping(row.addr, row.addr, row.size, row.attribs + {InnerShareable});
      && l1[..] == (if row.block then Put(1, old(l1[..]), m) else old(l1[..]))
      && l3[..] == (if row.block then old(l3[..]) else Put(3, old(l3[..]), m))
  {
    if row.block {
      MapRange(1, l1, row.addr, row.addr, row.size, row.attribs + {InnerShareable});
    } else {
      MapRange(3, l3, row.addr, row.addr, row.size, row.attribs + {InnerShareable});
    }
  }

  /** Each identity row fits the table it goes to. */
  lemma {:induction false} IdentityFits(i: nat)
    requires i < 4
    ensures IDENTITY[i].block <==> i == 3
    ensures var level := if i == 3 then 1 else 3;
      Index(level, IDENTITY[i].addr) + Count(level, IDENTITY[i].size) <= if i == 3 then 8 else 512
  {
  }

  /** identity_map_all_mappings. */
  method IdentityMapAll(l1: array<Entry>, l3: array<Entry>)
    requires l1.Length == 8 && l3.Length == 512 && l1 != l3
    modifies l1, l3
    ensures l1[..] == Put(1, old(l1[..]), Dram())
    ensures l3[..] == PutAll(3, old(l3[..]), IdentityPages())
  {
    ghost var t1, t3, ms := l1[..], l3[..], IdentityPages();
    for i := 0 to 4
      invariant l1[..] == if i == 4 then Put(1, t1, Dram()) else t1
      invariant l3[..] == PutAll(3, t3, ms[..if i == 4 then 3 else i])
    {
      IdentityFits(i);
      if i < 3 { MapOne(t3, ms, i); }
      IdentityMap(l1, l3, IDENTITY[i]);
    }
    assert ms[..3] == ms;
  }

  /** The loop of mmio_map_all_devices. */
  method MmioMapRows(l3: array<Entry>, rows: seq<DeviceRow>, fw: nat)
    requires l3.Length == 512 && Roomy(MMIO_BASE, DeviceSegments(rows, fw), 0x180)
    modifies l3
    ensures l3[..] == PutAll(3, old(l3[..]), Placed(MMIO_BASE, DeviceSegments(rows, fw)))
  {
    ghost var t, segs := l3[..], DeviceSegments(rows, fw);
    var offset, i := 0, 0;
    while i < |rows|
      invariant i <= |segs| && offset == Advance(segs[..i])
      invariant l3[..] == PutAll(3, t, Placed(MMIO_BASE, segs)[..i])
    {
      var d := rows[i];
      var pa := if fw < FIRMWARE_700 then d.pa else d.pa7x;
      MapNext(l3, MMIO_BASE, offset, Segment(pa, d.size, d.size + 0x1000, DeviceAttrs(d.secure)), segs, 0x180, i, t);
      offset := offset + d.size;
      offset := offset + 0x1000;
      i := i + 1;
    }
    assert Placed(MMIO_BASE, segs)[..i] == Placed(MMIO_BASE, segs);
  }

  /** mmio_map_all_devices. */
  method MmioMapAll(l3: array<Entry>, fw: nat)
    requires l3.Length == 512
    modifies l3
    ensures l3[..] == PutAll(3, old(l3[..]), Placed(MMIO_BASE, Devices(fw)))
  {
    DevicesRoomy(fw);
    MmioMapRows(l3, DEVICES, fw);
  }

  /** lp0_entry_map_all_ram_segments. */
  method Lp0MapAll(l3: array<Entry>)
    requires l3.Length == 512
    modifies l3
    ensures l3[..] == PutAll(3, old(l3[..]), Placed(LP0_BASE, Lp0Segments()))
  {
    ghost var t, segs := l3[..], Lp0Segments();
    Lp0Roomy();
    var offset, i := 0, 0;
    while i < |LP0|
      invariant i <= |segs| && offset == Advance(segs[..i])
      invariant l3[..] == PutAll(3, t, Placed(LP0_BASE, segs)[..i])
    {
      var r := LP0[i];
      MapNext(l3, LP0_BASE, offset, Segment(r.pa, r.size, 0x10000, {ExecuteNever, InnerShareable} + r.attribs), segs,
        0x1C7, i, t);
      offset := offset + 0x10000;
      i := i + 1;
    }
    assert Placed(LP0_BASE, segs)[..i] == Placed(LP0_BASE, segs);
  }

  /** warmboot_map_all_ram_segments. */
  method WarmbootMapAll(l3: array<Entry>)
    requires l3.Length == 512
    modifies l3
    ensures l3[..] == PutAll(3, old(l3[..]), Placed(WARMBOOT_BASE, WarmbootSegments()))
  {
    ghost var t, segs := l3[..], WarmbootSegments();
    WarmbootRoomy();
    var offset, i := 0, 0;
    while i < |WARMBOOT|
      invariant i <= |segs| && offset == Advance(segs[..i])
      invariant l3[..] == PutAll(3, t, Placed(WARMBOOT_BASE, segs)[..i])
    {
      var r := WARMBOOT[i];
      MapNext(l3, WARMBOOT_BASE, offset, Segment(r.pa, r.size, r.size, {ExecuteNever, InnerShareable} + r.attribs),
        segs, 0x1E0, i, t);
      offset := offset + r.size;
      i := i + 1;
    }
    assert Placed(WARMBOOT_BASE, segs)[..i] == Placed(WARMBOOT_BASE, segs);
  }

  /** The loop of tzram_map_all_segments. */
  method TzramMapRows(l3: array<Entry>, rows: seq<TzramRow>, fw: nat)
    requires l3.Length == 512 && Roomy(TZRAM_BASE, TzramRows(rows, fw), 0x200)
    modifies l3
    ensures l3[..] == PutAll(3, old(l3[..]), Placed(TZRAM_BASE, TzramRows(rows, fw)))
  {
    ghost var t, segs := l3[..], TzramRows(rows, fw);
    var offset, i := 0, 0;
    while i < |rows|
      invariant i <= |segs| && offset == Advance(segs[..i])
      invariant l3[..] == PutAll(3, t, Placed(TZRAM_BASE, segs)[..i])
    {
      var r := rows[i];
      var off := if fw < FIRMWARE_500 then r.offset else r.offset5x;
      MapNext(l3, TZRAM_BASE, offset, Segment(TZRAM_PA + off, r.size, r.increment, TzramAttrs(r.executable)), segs,
        0x200, i, t);
      offset := offset + r.increment;
      i := i + 1;
    }
    assert Placed(TZRAM_BASE, segs)[..i] == Placed(TZRAM_BASE, segs);
  }

  /** tzram_map_all_segments. */
  method TzramMapAll(l3: array<Entry>, fw: nat)
    requires l3.Length == 512
    modifies l3
    ensures l3[..] == PutAll(3, old(l3[..]), Placed(TZRAM_BASE, TzramSegments(fw)))
  {
    TzramRoomy(fw);
    TzramMapRows(l3, TZRAM, fw);
  }

  function LevelOne(l2Pa: nat): (t: seq<Entry>)
    ensures |t| == 8
  {
    Put(1, Faults(8)[1 := Table(l2Pa)][7 := Table(l2Pa)], Dram())
  }

  function LevelTwo(l3Pa: nat): (t: seq<Entry>)
    ensures |t| == 512
  {
    Faults(512)[0 := Table(l3Pa)][0x1E0 := Table(l3Pa)][0x180 := Table(l3Pa)]
  }

  /** The linked tables with a list of ranges folded into level 3. */
  function Linked(l2Pa: nat, l3Pa: nat, ms: seq<Mapping>): (t: Tables)
    ensures WellFormed(t)
  {
    Tables(LevelOne(l2Pa), LevelTwo(l3Pa), PutAll(3, Faults(512), ms), l2Pa, l3Pa)
  }

  /** The tables of a booted monitor, level 3 as the fold of the whole map. */
  function Configured(fw: nat): (t: Tables)
    ensures WellFormed(t)
  {
    Linked(TzramPa(fw, TZRAM[L2_SEGMENT]), TzramPa(fw, TZRAM[L3_SEGMENT]), Pages(fw))
  }

  /** The level-3 part of configure_ttbls; the level-1 table receives the DRAM blocks on the way. */
  method MapEverything(l1: array<Entry>, l3: array<Entry>, fw: nat)
    requires l1.Length == 8 && l3.Length == 512 && l1 != l3
    modifies l1, l3
    ensures l1[..] == Put(1, old(l1[..]), Dram())
    ensures l3[..] == PutAll(3, old(l3[..]), Pages(fw))
  {
    ghost var t := l3[..];
    ghost var a, b, c := IdentityPages(), Placed(MMIO_BASE, Devices(fw)), Placed(LP0_BASE, Lp0Segments());
    ghost var d, e := Placed(WARMBOOT_BASE, WarmbootSegments()), Placed(TZRAM_BASE, TzramSegments(fw));
    IdentityMapAll(l1, l3);
    MmioMapAll(l3, fw);
    Lp0MapAll(l3);
    WarmbootMapAll(l3);
    TzramMapAll(l3, fw);
    PutAllConcat(3, t, a, b);
    PutAllConcat(3, t, a + b, c);
    PutAllConcat(3, t, a + b + c, d);
    PutAllConcat(3, t, a + b + c + d, e);
  }

  method ClearTable(table: array<Entry>)
    modifies table
    ensures table[..] == Faults(table.Length)
  {
    InitTable(table, 8 * table.Length);
  }

  /** The table skeleton of configure_ttbls: two level-1 entries share level 2, three level-2 entries share level 3. */
  method LinkTables(l1: array<Entry>, l2: array<Entry>, l3: array<Entry>, l2Pa: nat, l3Pa: nat)
    requires l1.Length == 8 && l2.Length == 512 && l3.Length == 512 && l1 != l2 && l1 != l3 && l2 != l3
    modifies l1, l2, l3
    ensures l1[..] == Faults(8)[1 := Table(l2Pa)][7 := Table(l2Pa)]
    ensures l2[..] == LevelTwo(l3Pa) && l3[..] == Faults(512)
  {
    ClearTable(l1);
    ClearTable(l2);
    ClearTable(l3);
    MapTable(1, l1, 0x4000_0000, l2Pa);
    MapTable(1, l1, 0x1_C000_0000, l2Pa);
    MapTable(2, l2, 0x4000_0000, l3Pa);
    MapTable(2, l2, 0x7C00_0000, l3Pa);
    MapTable(2, l2, 0x1_F000_0000, l3Pa);
  }

  /** configure_ttbls, whatever the tables held before. */
  method ConfigureTables(l1: array<Entry>, l2: array<Entry>, l3: array<Entry>, fw: nat)
    requires l1.Length == 8 && l2.Length == 512 && l3.Length == 512 && l1 != l2 && l1 != l3 && l2 != l3
    modifies l1, l2, l3
    ensures Tables(l1[..], l2[..], l3[..], Configured(fw).l2Pa, Configured(fw).l3Pa) == Configured(fw)
  {
    var l2Pa := TzramPa(fw, TZRAM[L2_SEGMENT]);
    var l3Pa := TzramPa(fw, TZRAM[L3_SEGMENT]);
    LinkTables(l1, l2, l3, l2Pa, l3Pa);
    MapEverything(l1, l3, fw);
  }

  // ---- What the walk makes of it -------------------------------------------------------------------

  predicate InDram(va: nat) {
    0x8000_0000 <= va < 0x1_8000_0000
  }

  lemma {:induction false} DramIndex(va: nat)
    requires va < VA_LIMIT
    ensures Index(1, va) < 8
    ensures Covers(1, Dram(), Index(1, va)) <==> InDram(va)
    ensures InDram(va) ==> LeafAt(1, Dram(), Index(1, va)).pa + va % 0x4000_0000 == va
  {
    assert First(1, Dram()) == 2 && Count(1, Dram().size) == 4;
  }

  /** The whole translation, for any list of ranges: DRAM to itself, the windows through level 3, everything else
      faults. */
  lemma {:induction false} LinkedWalk(l2Pa: nat, l3Pa: nat, ms: seq<Mapping>, va: nat)
    requires va < VA_LIMIT
    ensures Walk(Linked(l2Pa, l3Pa, ms), va) ==
      if InDram(va) then To(va, Dram().attrs)
      else if Window(va) then WalkL3(PutAll(3, Faults(512), ms), va)
      else NotMapped
  {
    DramIndex(va);
  }

  lemma {:induction false} WindowIsNotDram(va: nat)
    requires va < VA_LIMIT && Window(va)
    ensures !InDram(va)
  {
    DramIndex(va);
  }

  /** The three-level walk sends every byte of every range of any list, if the ranges meet nowhere and lie in the
      windows, to its own physical address with its own attributes. */
  lemma {:induction false} AnyDisjointMapTranslates(l2Pa: nat, l3Pa: nat, ms: seq<Mapping>, j: nat, offset: nat)
    requires Disjoint(3, ms) && j < |ms| && Reached(ms[j]) && offset < ms[j].size
    ensures ms[j].va + offset < VA_LIMIT
    ensures Walk(Linked(l2Pa, l3Pa, ms), ms[j].va + offset) == To(ms[j].pa + offset, ms[j].attrs)
  {
    StaysInWindow(ms[j], offset);
    WindowIsNotDram(ms[j].va + offset);
    LinkedWalk(l2Pa, l3Pa, ms, ms[j].va + offset);
    DisjointRangesTranslate(ms, j, offset);
  }

  /** The same of the monitor's own map. */
  lemma {:induction false} WalkExactly(fw: nat, va: nat)
    requires va < VA_LIMIT
    ensures Walk(Configured(fw), va) ==
      if InDram(va) then To(va, Dram().attrs)
      else if Window(va) then WalkL3(PutAll(3, Faults(512), Pages(fw)), va)
      else NotMapped
  {
    LinkedWalk(TzramPa(fw, TZRAM[L2_SEGMENT]), TzramPa(fw, TZRAM[L3_SEGMENT]), Pages(fw), va);
  }

  lemma {:induction false} WindowWalk(fw: nat, va: nat)
    requires va < VA_LIMIT && Window(va)
    ensures !InDram(va) && Walk(Configured(fw), va) == WalkL3(PutAll(3, Faults(512), Pages(fw)), va)
  {
    WindowIsNotDram(va);
    WalkExactly(fw, va);
  }

  /** Addresses that agree below 2 MB are the same memory in all six windows. */
  lemma {:induction false} WindowsAlias(fw: nat, va: nat, vb: nat)
    requires va < VA_LIMIT && vb < VA_LIMIT && Window(va) && Window(vb) && va % 0x20_0000 == vb % 0x20_0000
    ensures Walk(Configured(fw), va) == Walk(Configured(fw), vb)
  {
    WindowWalk(fw, va);
    WindowWalk(fw, vb);
    SameLowBits(PutAll(3, Faults(512), Pages(fw)), va, vb);
  }

  lemma {:induction false} IdentityReached()
    ensures AllReached(IdentityPages())
  {
    var ms := IdentityPages();
    assert Index(3, 0x4000_6000) == 6 && Index(3, 0x4002_0000) == 0x20 && Index(3, 0x7C01_0000) == 0x10;
    assert Count(3, 0x1000) == 1 && Count(3, 0x20000) == 0x20 && Count(3, 0x10000) == 0x10;
    assert Reached(ms[0]);
    assert Reached(ms[1]);
    assert Reached(ms[2]);
  }

  lemma {:induction false} PagesReached(fw: nat)
    ensures AllReached(Pages(fw))
  {
    IdentityReached();
    DevicesRoomy(fw);
    GroupReached(MMIO_BASE, Devices(fw), 0x180);
    Lp0Roomy();
    GroupReached(LP0_BASE, Lp0Segments(), 0x1C7);
    WarmbootRoomy();
    GroupReached(WARMBOOT_BASE, WarmbootSegments(), 0x1E0);
    TzramRoomy(fw);
    GroupReached(TZRAM_BASE, TzramSegments(fw), 0x200);
  }

  lemma {:induction false} PageIsReached(fw: nat, j: nat)
    requires j < |Pages(fw)|
    ensures Reached(Pages(fw)[j])
  {
    PagesReached(fw);
  }

  lemma {:induction false} PagesDisjoint(fw: nat)
    ensures Disjoint(3, Pages(fw))
  {
    NothingClashes(fw);
  }

  /** Every byte of every mapped region goes to its own physical address with its own attributes. */
  lemma {:induction false} EveryRegionTranslates(fw: nat, j: nat, offset: nat)
    requires j < |Pages(fw)| && offset < Pages(fw)[j].size
    ensures var m := Pages(fw)[j];
      m.va + offset < VA_LIMIT && Walk(Configured(fw), m.va + offset) == To(m.pa + offset, m.attrs)
  {
    PageIsReached(fw, j);
    PagesDisjoint(fw);
    AnyDisjointMapTranslates(TzramPa(fw, TZRAM[L2_SEGMENT]), TzramPa(fw, TZRAM[L3_SEGMENT]), Pages(fw), j, offset);
  }

  /** And an address translates only if it is DRAM or a window address whose page some region covers. */
  lemma {:induction false} NothingElseTranslates(fw: nat, va: nat)
    requires va < VA_LIMIT
    ensures Walk(Configured(fw), va).To? <==> InDram(va) || (Window(va) && !Uncovered(3, Pages(fw), Index(3, va)))
  {
    var ms, i := Pages(fw), Index(3, va);
    WalkExactly(fw, va);
    if Uncovered(3, ms, i) {
      UncoveredKeeps(3, Faults(512), ms, i);
    } else {
      var j :| 0 <= j < |ms| && Covers(3, ms[j], i);
      var last := LastWriter(3, ms, j, i);
      LastWriterWins(3, Faults(512), ms, last, i);
    }
  }

  // ---- The address macros --------------------------------------------------------------------------

  /** MMIO_GET_DEVICE_ADDRESS, LP0_ENTRY_GET_RAM_SEGMENT_ADDRESS, WARMBOOT_GET_RAM_SEGMENT_ADDRESS and
      TZRAM_GET_SEGMENT_ADDRESS. */
  function DeviceAddress(id: nat): nat
    requires id <= |DEVICES|
  {
    Sum(seq(id, i requires 0 <= i < id => DEVICES[i].size)) + MMIO_BASE + 0x1000 * id
  }

  function Lp0Address(id: nat): nat {
    LP0_BASE + 0x10000 * id
  }

  function WarmbootAddress(id: nat): nat
    requires id <= |WARMBOOT|
  {
    Sum(seq(id, i requires 0 <= i < id => WARMBOOT[i].size)) + WARMBOOT_BASE
  }

  function TzramAddress(id: nat): nat
    requires id <= |TZRAM|
  {
    Sum(seq(id, i requires 0 <= i < id => TZRAM[i].increment)) + TZRAM_BASE
  }

  /** The macros name the addresses the loops map, for every row of every table. */
  lemma {:induction false} DeviceAddressIsMapped(fw: nat, id: nat)
    requires id < |DEVICES|
    ensures Placed(MMIO_BASE, Devices(fw))[id].va == DeviceAddress(id)
  {
    AdvanceIsFold(Devices(fw)[..id], seq(id, i requires 0 <= i < id => DEVICES[i].size), 0x1000);
  }

  lemma {:induction false} Lp0AddressIsMapped(id: nat)
    requires id < |LP0|
    ensures Placed(LP0_BASE, Lp0Segments())[id].va == Lp0Address(id)
  {
    var zeros: seq<nat> := seq(id, i => 0);
    AdvanceIsFold(Lp0Segments()[..id], zeros, 0x10000);
    SumZero(zeros);
  }

  lemma {:induction false} WarmbootAddressIsMapped(id: nat)
    requires id < |WARMBOOT|
    ensures Placed(WARMBOOT_BASE, WarmbootSegments())[id].va == WarmbootAddress(id)
  {
    AdvanceIsFold(WarmbootSegments()[..id], seq(id, i requires 0 <= i < id => WARMBOOT[i].size), 0);
  }

  lemma {:induction false} TzramAddressIsMapped(fw: nat, id: nat)
    requires id < |TZRAM|
    ensures Placed(TZRAM_BASE, TzramSegments(fw))[id].va == TzramAddress(id)
  {
    AdvanceIsFold(TzramSegments(fw)[..id], seq(id, i requires 0 <= i < id => TZRAM[i].increment), 0);
  }

  lemma {:induction false} TzramRegion(fw: nat, id: nat) returns (j: nat)
    requires id < |TZRAM|
    ensures j < |Pages(fw)|
    ensures Pages(fw)[j] ==
      Mapping(TzramAddress(id), 0x7C01_0000 + if fw < 5 then TZRAM[id].offset else TZRAM[id].offset5x, TZRAM[id].size,
              if TZRAM[id].executable then {InnerShareable} else {ExecuteNever, InnerShareable})
  {
    TzramAddressIsMapped(fw, id);
    j := |Pages(fw)| - |TZRAM| + id;
    assert Pages(fw)[j] == Placed(TZRAM_BASE, TzramSegments(fw))[id];
  }

  lemma {:induction false} TzramTranslates(fw: nat, id: nat, offset: nat)
    requires id < |TZRAM| && offset < TZRAM[id].size
    ensures TzramAddress(id) + offset < VA_LIMIT
    ensures Walk(Configured(fw), TzramAddress(id) + offset) ==
      To(0x7C01_0000 + (if fw < 5 then TZRAM[id].offset else TZRAM[id].offset5x) + offset,
         if TZRAM[id].executable then {InnerShareable} else {ExecuteNever, InnerShareable})
  {
    var j := TzramRegion(fw, id);
    EveryRegionTranslates(fw, j, offset);
  }

  /** Where configure_ttbls puts the level-1 table: in the last 64 bytes below the middle of the vector page. */
  function LevelOnePa(fw: nat): nat {
    TzramPa(fw, TZRAM[SECMON_EVT]) + 0x800 - 64
  }

  /** The tables are mapped inside themselves: the macro addresses of their segments lead to the memory
      the walk itself reads, in both TZRAM layouts. */
  lemma {:induction false} TablesReachThemselves(fw: nat, offset: nat)
    requires offset < 0x1000
    ensures var t, v2, v3 := Configured(fw), TzramAddress(L2_SEGMENT), TzramAddress(L3_SEGMENT);
      && t.l2Pa == (if fw < 5 then 0x7C01_1000 else 0x7C01_E000)
      && t.l3Pa == (if fw < 5 then 0x7C01_2000 else 0x7C01_F000)
      && v2 + offset < VA_LIMIT && Walk(t, v2 + offset) == To(t.l2Pa + offset, {ExecuteNever, InnerShareable})
      && v3 + offset < VA_LIMIT && Walk(t, v3 + offset) == To(t.l3Pa + offset, {ExecuteNever, InnerShareable})
  {
    TzramTranslates(fw, L2_SEGMENT, offset);
    TzramTranslates(fw, L3_SEGMENT, offset);
  }

  lemma {:induction false} LevelOneReachesItself(fw: nat, offset: nat)
    requires offset < 64
    ensures var v1 := TzramAddress(SECMON_EVT) + 0x800 - 64;
      && LevelOnePa(fw) == (if fw < 5 then 0x7C01_07C0 else 0x7C01_27C0)
      && v1 + offset < VA_LIMIT && Walk(Configured(fw), v1 + offset) == To(LevelOnePa(fw) + offset, {InnerShareable})
  {
    TzramTranslates(fw, SECMON_EVT, 0x800 - 64 + offset);
  }

  // ---- Rows that are not meant to be mapped ---------------------------------------------------------

  const AMS_IRAM_PAGE: nat := 18
  const AMS_USER_PAGE: nat := 19
  const USERPAGE_SEGMENT: nat := 2

  /** The region of a device: its macro address, its physical address on the firmware, its attributes. With
      EveryRegionTranslates, what the walk makes of every byte of it. */
  lemma {:induction false} DeviceRegion(fw: nat, id: nat) returns (j: nat)
    requires id < |DEVICES|
    ensures j == 3 + id < |Pages(fw)|
    ensures Pages(fw)[j] ==
      Mapping(DeviceAddress(id), if fw < 8 then DEVICES[id].pa else DEVICES[id].pa7x, DEVICES[id].size,
              if DEVICES[id].secure then {ExecuteNever, InnerShareable, Device}
              else {ExecuteNever, InnerShareable, Device, NonSecure})
  {
    DeviceAddressIsMapped(fw, id);
    j := 3 + id;
    assert Pages(fw)[j] == Placed(MMIO_BASE, Devices(fw))[id];
  }

  /** The two AMS pages are mapped from the start, to physical address 0. */
  lemma {:induction false} AmsPagesAreMapped(fw: nat, id: nat, offset: nat)
    requires (id == AMS_IRAM_PAGE || id == AMS_USER_PAGE) && offset < 0x1000
    ensures DeviceAddress(id) + offset < VA_LIMIT
    ensures Walk(Configured(fw), DeviceAddress(id) + offset) == To(offset, {ExecuteNever, InnerShareable, Device})
  {
    var j := AmsRegion(fw, id);
    EveryRegionTranslates(fw, j, offset);
  }

  lemma {:induction false} AmsRegion(fw: nat, id: nat) returns (j: nat)
    requires id == AMS_IRAM_PAGE || id == AMS_USER_PAGE
    ensures j < |Pages(fw)|
    ensures Pages(fw)[j] == Mapping(DeviceAddress(id), 0, 0x1000, {ExecuteNever, InnerShareable, Device})
  {
    j := DeviceRegion(fw, id);
  }

  /** Whatever its other fields, a row writes no entry if and only if its size is zero. */
  lemma {:induction false} NoEntryIffEmpty(level: Level, m: Mapping)
    ensures (forall i :: !Covers(level, m, i)) <==> m.size == 0
  {
    RoundUp(level, m.size, 0);
    if m.size > 0 {
      assert Covers(level, m, First(level, m));
    }
  }

  lemma {:induction false} TzramOffsets(fw: nat)
    ensures var s := TzramSegments(fw);
      Advance(s[..2]) == 0x14000 && Advance(s[..3]) == 0x16000
  {
    var s := TzramSegments(fw);
    AdvanceOne(s, 0);
    AdvanceOne(s, 1);
    AdvanceOne(s, 2);
    assert Advance(s[..0 + 1]) == 0x10000 && Advance(s[..1 + 1]) == 0x14000;
  }

  lemma {:induction false} TzramSpan(fw: nat, i: nat)
    requires i < |TZRAM|
    ensures var m, from := Placed(TZRAM_BASE, TzramSegments(fw))[i], Advance(TzramSegments(fw)[..i]);
      && First(3, m) == 0x1E0 + from / 0x1000
      && End(3, m) <= 0x1E0 + (from + TzramSegments(fw)[i].step) / 0x1000
  {
    TzramRoomy(fw);
    PlacedIndex(TZRAM_BASE, TzramSegments(fw), 0x200, i);
  }

  lemma {:induction false} BeforeUserpage(fw: nat, i: nat)
    requires i < USERPAGE_SEGMENT
    ensures End(3, Placed(TZRAM_BASE, TzramSegments(fw))[i]) <= 0x1F4
  {
    TzramSpan(fw, i);
    TzramOffsets(fw);
    AdvanceMonotone(TzramSegments(fw), i, 2);
  }

  lemma {:induction false} AfterUserpage(fw: nat, i: nat)
    requires USERPAGE_SEGMENT < i < |TZRAM|
    ensures 0x1F6 <= First(3, Placed(TZRAM_BASE, TzramSegments(fw))[i])
  {
    TzramSpan(fw, i);
    TzramOffsets(fw);
    if i > 3 {
      AdvanceMonotone(TzramSegments(fw), 3, i);
    }
  }

  lemma {:induction false} UserpageUncovered(fw: nat, i: nat)
    requires 0x1F4 <= i < 0x1F6
    ensures Uncovered(3, Pages(fw), i)
  {
    IdentityBand();
    DevicesBand(fw);
    Lp0Band();
    WarmbootBand();
    var tz := Placed(TZRAM_BASE, TzramSegments(fw));
    forall j | 0 <= j < |tz| ensures !Covers(3, tz[j], i) {
      if j < USERPAGE_SEGMENT {
        BeforeUserpage(fw, j);
      } else if j > USERPAGE_SEGMENT {
        AfterUserpage(fw, j);
      } else {
        NoEntryIffEmpty(3, tz[j]);
      }
    }
  }

  lemma {:induction false} UserpageIndex(offset: nat)
    requires offset < 0x2000
    ensures TzramAddress(USERPAGE_SEGMENT) == 0x1_F01F_4000
    ensures var va := TzramAddress(USERPAGE_SEGMENT) + offset;
      va < VA_LIMIT && 0x1F4 <= Index(3, va) < 0x1F6 && !InDram(va)
  {
    var s := TzramSegments(0);
    AdvanceOne(s, 0);
    AdvanceOne(s, 1);
    TzramAddressIsMapped(0, USERPAGE_SEGMENT);
  }

  /** The one row that is left out, the TZRAM user page segment, faults over its whole increment. */
  lemma {:induction false} UserpageFaults(fw: nat, offset: nat)
    requires offset < 0x2000
    ensures TzramAddress(USERPAGE_SEGMENT) + offset < VA_LIMIT
    ensures Walk(Configured(fw), TzramAddress(USERPAGE_SEGMENT) + offset) == NotMapped
  {
    var va := TzramAddress(USERPAGE_SEGMENT) + offset;
    UserpageIndex(offset);
    UserpageUncovered(fw, Index(3, va));
    NothingElseTranslates(fw, va);
  }

  /** MMIO_GET_DEVICE_7X_PA reads the table of the older firmwares. */
  function Device7xPaMacro(id: nat): nat
    requires id < |DEVICES|
  {
    DEVICES[id].pa
  }

  /** It is what 7.0.0 and later map for every device except the bootloader mailbox. */
  lemma {:induction false} Device7xPaMacroIsMapped(fw: nat, id: nat)
    requires fw >= FIRMWARE_700 && id < |DEVICES|
    ensures Placed(MMIO_BASE, Devices(fw))[id].pa == Device7xPaMacro(id) <==> id != MAILBOX
  {
  }

  // ---- The other groups, row by row ----------------------------------------------------------------

  /** DRAM and the identity pages are mapped to themselves, DRAM neither secure nor executable. */
  lemma {:induction false} IdentityTranslates(fw: nat, va: nat)
    requires 0x4000_6000 <= va < 0x4000_7000 || 0x4002_0000 <= va < 0x4004_0000 || 0x7C01_0000 <= va < 0x7C02_0000
          || 0x8000_0000 <= va < 0x1_8000_0000
    ensures Walk(Configured(fw), va) ==
      To(va, if va < 0x8000_0000 then {InnerShareable} else {ExecuteNever, NonSecure, InnerShareable})
  {
    if va < 0x8000_0000 {
      var j := if va < 0x4000_7000 then 0 else if va < 0x4004_0000 then 1 else 2;
      assert Pages(fw)[j] == IdentityPages()[j];
      EveryRegionTranslates(fw, j, va - IdentityPages()[j].va);
    } else {
      WalkExactly(fw, va);
    }
  }

  lemma {:induction false} Lp0Translates(fw: nat, id: nat, offset: nat)
    requires id < |LP0| && offset < LP0[id].size
    ensures 0x1_F018_0000 + 0x10000 * id + offset < VA_LIMIT
    ensures Walk(Configured(fw), 0x1_F018_0000 + 0x10000 * id + offset) ==
      To(LP0[id].pa + offset, {ExecuteNever, InnerShareable} + LP0[id].attribs)
  {
    Lp0AddressIsMapped(id);
    var j := 3 + |DEVICES| + id;
    assert Pages(fw)[j] == Placed(LP0_BASE, Lp0Segments())[id];
    EveryRegionTranslates(fw, j, offset);
  }

  lemma {:induction false} WarmbootTranslates(fw: nat, id: nat, offset: nat)
    requires id < |WARMBOOT| && offset < WARMBOOT[id].size
    ensures WarmbootAddress(id) + offset < VA_LIMIT
    ensures Walk(Configured(fw), WarmbootAddress(id) + offset) ==
      To(WARMBOOT[id].pa + offset, {ExecuteNever, InnerShareable, NonSecure, Device})
  {
    WarmbootAddressIsMapped(id);
    var j := 3 + |DEVICES| + |LP0| + id;
    assert Pages(fw)[j] == Placed(WARMBOOT_BASE, WarmbootSegments())[id];
    EveryRegionTranslates(fw, j, offset);
  }

  /** The running offsets of the TZRAM rows. */
  lemma {:induction false} TzramSteps(fw: nat)
    ensures var s := TzramSegments(fw);
      && Advance(s[..0]) == 0 && Advance(s[..1]) == 0x10000 && Advance(s[..2]) == 0x14000 && Advance(s[..3]) == 0x16000
      && Advance(s[..4]) == 0x18000 && Advance(s[..5]) == 0x1A000
      && Advance(s[..6]) == 0x1C000 && Advance(s[..7]) == 0x1E000
  {
    var s := TzramSegments(fw);
    forall i | 0 <= i < 8
      ensures Advance(s[..i + 1]) == Advance(s[..i]) + TZRAM[i].increment
    {
      AdvanceOne(s, i);
    }
    assert Advance(s[..0 + 1]) == 0x10000;
    assert Advance(s[..1 + 1]) == 0x14000;
    assert Advance(s[..2 + 1]) == 0x16000;
    assert Advance(s[..3 + 1]) == 0x18000;
    assert Advance(s[..4 + 1]) == 0x1A000;
    assert Advance(s[..5 + 1]) == 0x1C000;
    assert Advance(s[..6 + 1]) == 0x1E000;
  }

  /** The macros give the addresses the linker script uses: the main code at 0x1F01E0000, the package2 loader 64 KB
      on, and the vectors, in the upper half of their page, 42 KB after that. */
  lemma {:induction false} LinkerScriptAgrees()
    ensures TzramAddress(0) == 0x1_F01E_0000 && TzramAddress(1) == 0x1_F01E_0000 + 64 * 1024
    ensures TzramAddress(SECMON_EVT) + 0x800 == TzramAddress(1) + 40 * 1024 + 2 * 1024
  {
    TzramSteps(0);
    TzramAddressIsMapped(0, 0);
    TzramAddressIsMapped(0, 1);
    TzramAddressIsMapped(0, SECMON_EVT);
  }

  /** So in both layouts the linked exception vectors are executable memory in the vector page of TZRAM. */
  lemma {:induction false} VectorsTranslate(fw: nat, offset: nat)
    requires offset < 0x800
    ensures 0x1_F01F_A800 + offset < VA_LIMIT
    ensures Walk(Configured(fw), 0x1_F01F_A800 + offset) ==
      To((if fw < 5 then 0x7C01_0800 else 0x7C01_2800) + offset, {InnerShareable})
  {
    LinkerScriptAgrees();
    TzramTranslates(fw, SECMON_EVT, 0x800 + offset);
  }
}

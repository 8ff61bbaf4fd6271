/** The package2 validator and section loader (exosphere/src/package2.c).

    Metadata fields are 32-bit words; the validator's arithmetic wraps modulo 2^32 exactly where the
    C code's does. Physical memory is one byte array indexed by physical address, which the loader
    relocates, copies and wipes in place. SHA-256 and AES-CTR are parameters: the digest unit is a
    function of a physical range, the cipher a length-preserving function of revision, counter and data.
 */
module Package2 {
  import opened Wrappers
  import opened Words
  import opened Memory

  const TWO_32: nat := 0x1_0000_0000
  type U32 = x: int | 0 <= x < 0x1_0000_0000

  const DRAM_BASE: nat := 0x8000_0000
  const DRAM_END: nat := 0x1_8000_0000
  const LOAD_ADDRESS: nat := 0xA980_0000
  const SIZE_MAX: nat := 0x7F_C000
  const HEADER_SIZE: nat := 0x200
  const SECTION_MAX: nat := 3
  const MAGIC_PK21: nat := 0x3132_4B50
  const MASTERKEY_REVISION_MAX: nat := 0xA
  const MINVER_THEORETICAL: nat := 0
  const MAXVER_CURRENT: nat := 0xC

  datatype Section = Section(offset: U32, size: U32, ctr: seq<Byte>, hash: seq<Byte>)

  /** The header has room for four sections; only the first three are validated and loaded. */
  datatype MetadataFields = MetadataFields(
    ctr0: bv32, ctr1: bv32, ctr2: bv32, ctr3: bv32,
    magic: U32, entrypoint: U32, versionMax: nat, versionMin: nat, sections: seq<Section>)

  type Metadata = m: MetadataFields | |m.sections| == 4
    witness MetadataFields(0, 0, 0, 0, 0, 0, 0, 0, seq(4, _ => Section(0, 0, [], [])))

  /** The digest of `size` bytes of physical memory from `start`. */
  type DigestUnit = (nat, nat) -> seq<Byte>

  /** AES-CTR under a master key revision and counter: any length-preserving function. */
  type CtrCipher = f: (nat, seq<Byte>, seq<Byte>) -> seq<Byte> | forall r, c, d :: |f(r, c, d)| == |d|
    witness (r: nat, c: seq<Byte>, d: seq<Byte>) => d

  // ---- Source arithmetic ------------------------------------------------------------------------

  function Wrap32(x: nat): U32 {
    x % TWO_32
  }

  function PackageSize(m: Metadata): U32 {
    (m.ctr0 ^ m.ctr2 ^ m.ctr3) as int
  }

  function HeaderVersion(m: Metadata): nat {
    ((m.ctr1 ^ (m.ctr1 >> 16) ^ (m.ctr1 >> 24)) & 0xFF) as nat
  }

  /** The half-open range test of utils.c. */
  predicate Overlaps(aStart: nat, aEnd: nat, bStart: nat, bEnd: nat) {
    (aStart <= bStart < aEnd) || (bStart <= aStart < bEnd)
  }

  predicate Within(p: nat, start: nat, end: nat) {
    start <= p < end
  }

  /** On non-empty ranges the test is exactly "some address lies in both"; an empty first range still
      "overlaps" when its start lies inside the second. */
  lemma {:induction false} OverlapsMeaning(aStart: nat, aEnd: nat, bStart: nat, bEnd: nat)
    requires bStart < bEnd
    ensures aStart < aEnd ==>
              (Overlaps(aStart, aEnd, bStart, bEnd) <==>
                exists p: nat :: Within(p, aStart, aEnd) && Within(p, bStart, bEnd))
    ensures aStart == aEnd ==> (Overlaps(aStart, aEnd, bStart, bEnd) <==> bStart <= aStart < bEnd)
  {
    if aStart < aEnd && Overlaps(aStart, aEnd, bStart, bEnd) {
      var p := if aStart <= bStart then bStart else aStart;
      assert Within(p, aStart, aEnd) && Within(p, bStart, bEnd);
    }
  }

  // ---- Specification over exact integers --------------------------------------------------------

  function End(s: Section): nat {
    s.offset + s.size
  }

  /** Bytes of section data that precede section i in the image. */
  function DataOffset(m: Metadata, i: nat): (r: nat)
    requires i <= 4
  {
    if i == 0 then 0 else DataOffset(m, i - 1) + m.sections[i - 1].size
  }

  ghost predicate Disjoint(a: Section, b: Section) {
    a.size == 0 || b.size == 0 || End(a) <= b.offset || End(b) <= a.offset
  }

  ghost predicate HashMatches(m: Metadata, i: nat, digest: DigestUnit)
    requires i < SECTION_MAX
  {
    m.sections[i].size != 0 ==>
      digest(LOAD_ADDRESS + HEADER_SIZE + DataOffset(m, i), m.sections[i].size) == m.sections[i].hash
  }

  ghost predicate HoldsEntrypoint(m: Metadata, i: nat)
    requires i < SECTION_MAX
  {
    m.sections[i].offset <= m.entrypoint < End(m.sections[i])
  }

  ghost predicate HasEntrypoint(m: Metadata, upTo: nat)
    requires upTo <= SECTION_MAX
  {
    exists i :: 0 <= i < upTo && HoldsEntrypoint(m, i)
  }

  ghost predicate HashesMatch(m: Metadata, digest: DigestUnit) {
    forall i :: 0 <= i < SECTION_MAX ==> HashMatches(m, i, digest)
  }

  /** The layout a loadable image has, in unbounded arithmetic. */
  ghost predicate SoundLayout(m: Metadata) {
    && 0 < DataOffset(m, 3) <= SIZE_MAX - HEADER_SIZE
    && (forall i :: 0 <= i < SECTION_MAX ==> m.sections[i].size % 4 == 0 && End(m.sections[i]) < TWO_32)
    && (forall i, j :: 0 <= i < j < SECTION_MAX ==> Disjoint(m.sections[i], m.sections[j]))
  }

  /** Acceptance, given the size and version words recovered from the header counter. */
  ghost predicate AcceptableAs(m: Metadata, packageSize: U32, version: nat, digest: DigestUnit, checkHash: bool) {
    && m.magic == MAGIC_PK21
    && version <= MASTERKEY_REVISION_MAX
    && m.entrypoint % 4 == 0
    && SoundLayout(m)
    && packageSize == HEADER_SIZE + DataOffset(m, 3)
    && HasEntrypoint(m, SECTION_MAX)
    && (checkHash ==> HashesMatch(m, digest))
    && m.versionMin < MAXVER_CURRENT
  }

  ghost predicate Acceptable(m: Metadata, digest: DigestUnit, checkHash: bool) {
    AcceptableAs(m, PackageSize(m), HeaderVersion(m), digest, checkHash)
  }

  // ---- What one loop iteration of the validator checks, in wrapping arithmetic -------------------

  ghost predicate ClearOfLater(m: Metadata, i: nat, upTo: nat)
    requires i < SECTION_MAX && upTo <= SECTION_MAX
  {
    m.sections[i].size != 0 ==>
      forall j :: i < j < upTo && m.sections[j].size != 0 ==>
        !Overlaps(m.sections[i].offset, Wrap32(End(m.sections[i])),
                  m.sections[j].offset, Wrap32(End(m.sections[j])))
  }

  ghost predicate SectionPasses(m: Metadata, i: nat, digest: DigestUnit, checkHash: bool)
    requires i < SECTION_MAX
  {
    && m.sections[i].size % 4 == 0
    && End(m.sections[i]) < TWO_32
    && ClearOfLater(m, i, SECTION_MAX)
    && (checkHash ==> HashMatches(m, i, digest))
  }

  ghost predicate AllPass(m: Metadata, upTo: nat, digest: DigestUnit, checkHash: bool)
    requires upTo <= SECTION_MAX
  {
    forall i :: 0 <= i < upTo ==> SectionPasses(m, i, digest, checkHash)
  }

  ghost predicate WrappedSumMatches(m: Metadata, packageSize: U32) {
    Wrap32(Wrap32(m.sections[0].size + m.sections[1].size) + m.sections[2].size) + HEADER_SIZE == packageSize
  }

  lemma {:induction false} DataOffsets(m: Metadata)
    ensures DataOffset(m, 1) == m.sections[0].size
    ensures DataOffset(m, 2) == m.sections[0].size + m.sections[1].size
    ensures DataOffset(m, 3) == m.sections[0].size + m.sections[1].size + m.sections[2].size
  {
    assert DataOffset(m, 0) == 0;
    assert DataOffset(m, 1) == m.sections[0].size;
    assert DataOffset(m, 2) == m.sections[0].size + m.sections[1].size;
  }

  /** Sections that each end below 2^32 and are pairwise disjoint have a true sum below 2^32. */
  lemma {:induction false} DisjointSumFits(m: Metadata)
    requires forall i :: 0 <= i < SECTION_MAX ==> End(m.sections[i]) < TWO_32
    requires Disjoint(m.sections[0], m.sections[1])
    requires Disjoint(m.sections[0], m.sections[2])
    requires Disjoint(m.sections[1], m.sections[2])
    ensures DataOffset(m, 3) < TWO_32
  {
    DataOffsets(m);
    assert End(m.sections[0]) < TWO_32 && End(m.sections[1]) < TWO_32 && End(m.sections[2]) < TWO_32;
  }

  lemma {:induction false} PairwiseFromPasses(m: Metadata, digest: DigestUnit, checkHash: bool)
    requires AllPass(m, SECTION_MAX, digest, checkHash)
    ensures forall i, j :: 0 <= i < j < SECTION_MAX ==> Disjoint(m.sections[i], m.sections[j])
  {
    forall i, j | 0 <= i < j < SECTION_MAX
      ensures Disjoint(m.sections[i], m.sections[j])
    {
      assert SectionPasses(m, i, digest, checkHash) && SectionPasses(m, j, digest, checkHash);
    }
  }

  lemma {:induction false} PassesFromPairwise(m: Metadata, i: nat, digest: DigestUnit, checkHash: bool)
    requires i < SECTION_MAX && SoundLayout(m)
    requires checkHash ==> HashMatches(m, i, digest)
    ensures SectionPasses(m, i, digest, checkHash)
  {
    forall j | i < j < SECTION_MAX && m.sections[i].size != 0 && m.sections[j].size != 0
      ensures !Overlaps(m.sections[i].offset, Wrap32(End(m.sections[i])),
                        m.sections[j].offset, Wrap32(End(m.sections[j])))
    {
      assert Disjoint(m.sections[i], m.sections[j]);
    }
  }

  lemma {:induction false} WrappedSum(m: Metadata, packageSize: U32)
    ensures WrappedSumMatches(m, packageSize) <==> Wrap32(DataOffset(m, 3)) + HEADER_SIZE == packageSize
  {
    DataOffsets(m);
  }

  lemma {:induction false} PassingIsSound(m: Metadata, packageSize: U32, digest: DigestUnit, checkHash: bool)
    requires HEADER_SIZE < packageSize <= SIZE_MAX
    requires WrappedSumMatches(m, packageSize) && AllPass(m, SECTION_MAX, digest, checkHash)
    ensures SoundLayout(m) && packageSize == HEADER_SIZE + DataOffset(m, 3)
    ensures checkHash ==> HashesMatch(m, digest)
  {
    PairwiseFromPasses(m, digest, checkHash);
    forall i | 0 <= i < SECTION_MAX
      ensures m.sections[i].size % 4 == 0 && End(m.sections[i]) < TWO_32 && (checkHash ==> HashMatches(m, i, digest))
    {
      assert SectionPasses(m, i, digest, checkHash);
    }
    DisjointSumFits(m);
    WrappedSum(m, packageSize);
  }

  /** The wrapping checks accept exactly the layouts that are sound in unbounded arithmetic. */
  lemma {:induction false} WrappedChecksAreExact(m: Metadata, packageSize: U32, digest: DigestUnit, checkHash: bool)
    requires HEADER_SIZE < packageSize <= SIZE_MAX
    ensures (WrappedSumMatches(m, packageSize) && AllPass(m, SECTION_MAX, digest, checkHash))
       <==> (SoundLayout(m) && packageSize == HEADER_SIZE + DataOffset(m, 3) && (checkHash ==> HashesMatch(m, digest)))
  {
    if WrappedSumMatches(m, packageSize) && AllPass(m, SECTION_MAX, digest, checkHash) {
      PassingIsSound(m, packageSize, digest, checkHash);
    } else if SoundLayout(m) && packageSize == HEADER_SIZE + DataOffset(m, 3)
              && (checkHash ==> HashesMatch(m, digest)) {
      WrappedSum(m, packageSize);
      forall i | 0 <= i < SECTION_MAX ensures SectionPasses(m, i, digest, checkHash) {
        PassesFromPairwise(m, i, digest, checkHash);
      }
    }
  }

  /** The validator's section loop. */
  method CheckSections(m: Metadata, digest: DigestUnit, checkHash: bool) returns (ok: bool, entrypointFound: bool)
    ensures ok <==> AllPass(m, SECTION_MAX, digest, checkHash)
    ensures ok ==> (entrypointFound <==> HasEntrypoint(m, SECTION_MAX))
  {
    entrypointFound := false;
    var curOffset := 0;
    for i := 0 to SECTION_MAX
      invariant curOffset == DataOffset(m, i)
      invariant AllPass(m, i, digest, checkHash)
      invariant entrypointFound <==> HasEntrypoint(m, i)
    {
      var pass := CheckSection(m, i, curOffset, digest, checkHash);
      if !pass { return false, entrypointFound; }
      var end := Wrap32(m.sections[i].offset + m.sections[i].size);
      if m.sections[i].offset <= m.entrypoint < end {
        assert HoldsEntrypoint(m, i);
        entrypointFound := true;
      }
      curOffset := curOffset + m.sections[i].size;
    }
    ok := true;
  }

  /** One iteration: alignment, overflow, overlap with later sections, hash. */
  method CheckSection(m: Metadata, i: nat, curOffset: nat, digest: DigestUnit, checkHash: bool) returns (ok: bool)
    requires i < SECTION_MAX && curOffset == DataOffset(m, i)
    ensures ok <==> SectionPasses(m, i, digest, checkHash)
  {
    var s := m.sections[i];
    if s.size % 4 != 0 { return false; }
    if s.offset + s.size >= TWO_32 { return false; }
    var end := Wrap32(s.offset + s.size);
    if s.size != 0 {
      for j := i + 1 to SECTION_MAX
        invariant ClearOfLater(m, i, j)
      {
        var t := m.sections[j];
        if t.size != 0 && Overlaps(s.offset, end, t.offset, Wrap32(t.offset + t.size)) {
          return false;
        }
      }
      if checkHash && digest(LOAD_ADDRESS + HEADER_SIZE + curOffset, s.size) != s.hash {
        return false;
      }
    }
    return true;
  }

  method ValidateAs(m: Metadata, packageSize: U32, version: nat, digest: DigestUnit, checkHash: bool) returns (ok: bool)
    ensures ok <==> AcceptableAs(m, packageSize, version, digest, checkHash)
  {
    if m.magic != MAGIC_PK21 { return false; }
    if packageSize <= HEADER_SIZE || packageSize > SIZE_MAX { return false; }
    if version > MASTERKEY_REVISION_MAX { return false; }
    if m.entrypoint % 4 != 0 { return false; }
    WrappedChecksAreExact(m, packageSize, digest, checkHash);
    var sum := Wrap32(Wrap32(m.sections[0].size + m.sections[1].size) + m.sections[2].size);
    if sum + HEADER_SIZE != packageSize { return false; }
    var pass, entrypointFound := CheckSections(m, digest, checkHash);
    if !pass { return false; }
    if !entrypointFound { return false; }
    return m.versionMax >= MINVER_THEORETICAL && m.versionMin < MAXVER_CURRENT;
  }

  /** validate_package2_metadata: the wrapping validator accepts exactly the acceptable metadata. */
  method Validate(m: Metadata, digest: DigestUnit, checkHash: bool) returns (ok: bool)
    ensures ok <==> Acceptable(m, digest, checkHash)
    ensures ok <==> AcceptableAs(m, PackageSize(m), HeaderVersion(m), digest, checkHash)
  {
    ok := ValidateAs(m, PackageSize(m), HeaderVersion(m), digest, checkHash);
  }

  // ---- Acceptance written out ----------------------------------------------------------------------

  /** The size word: header counter word 0 hides it under words 2 and 3. */
  lemma {:induction false} SizeWord(m: Metadata, n: bv32)
    requires m.ctr0 == n ^ m.ctr2 ^ m.ctr3
    ensures PackageSize(m) == n as int
  {
    Unhide(n, m.ctr2, m.ctr3);
  }

  lemma {:induction false} Unhide(n: bv32, a: bv32, b: bv32)
    ensures (n ^ a ^ b) ^ a ^ b == n
  {
  }

  /** The version: bytes 0, 2 and 3 of header counter word 1, XORed. */
  lemma {:induction false} VersionWord(m: Metadata, b0: bv32, b1: bv32, b2: bv32, b3: bv32)
    requires b0 <= 0xFF && b1 <= 0xFF && b2 <= 0xFF && b3 <= 0xFF
    requires m.ctr1 == b0 | (b1 << 8) | (b2 << 16) | (b3 << 24)
    ensures HeaderVersion(m) == (b0 ^ b2 ^ b3) as nat
  {
    FoldBytes(b0, b1, b2, b3, m.ctr1);
  }

  lemma {:induction false} FoldBytes(b0: bv32, b1: bv32, b2: bv32, b3: bv32, w: bv32)
    requires b0 <= 0xFF && b1 <= 0xFF && b2 <= 0xFF && b3 <= 0xFF
    requires w == b0 | (b1 << 8) | (b2 << 16) | (b3 << 24)
    ensures (w ^ (w >> 16) ^ (w >> 24)) & 0xFF == b0 ^ b2 ^ b3
  {
  }

  ghost predicate Apart(a: Section, b: Section) {
    a.size == 0 || b.size == 0 || a.offset + a.size <= b.offset || b.offset + b.size <= a.offset
  }

  ghost predicate GoodSection(s: Section) {
    s.size % 4 == 0 && s.offset + s.size < 0x1_0000_0000
  }

  ghost predicate HashedAt(s: Section, at: nat, digest: DigestUnit) {
    s.size != 0 ==> digest(at, s.size) == s.hash
  }

  /** What an acceptable header is, section by section and in numbers, given its size and version words (which
      SizeWord and VersionWord give in terms of the header's counter). */
  lemma {:induction false} AcceptableAsMeans(m: Metadata, packageSize: U32, version: nat, digest: DigestUnit,
                                             checkHash: bool)
    ensures var a, b, c := m.sections[0], m.sections[1], m.sections[2];
      AcceptableAs(m, packageSize, version, digest, checkHash) <==>
        && m.magic == 0x3132_4B50 && version <= 0xA && m.entrypoint % 4 == 0 && m.versionMin < 0xC
        && GoodSection(a) && GoodSection(b) && GoodSection(c) && Apart(a, b) && Apart(a, c) && Apart(b, c)
        && 0 < a.size + b.size + c.size && packageSize == 0x200 + a.size + b.size + c.size <= 0x7F_C000
        && (|| a.offset <= m.entrypoint < a.offset + a.size
            || b.offset <= m.entrypoint < b.offset + b.size
            || c.offset <= m.entrypoint < c.offset + c.size)
        && (checkHash ==>
              && HashedAt(a, 0xA980_0200, digest) && HashedAt(b, 0xA980_0200 + a.size, digest)
              && HashedAt(c, 0xA980_0200 + a.size + b.size, digest))
  {
    DataOffsets(m);
    LayoutMeans(m);
    EntryMeans(m);
    HashesMean(m, digest);
  }

  lemma {:induction false} LayoutMeans(m: Metadata)
    ensures var a, b, c := m.sections[0], m.sections[1], m.sections[2];
      SoundLayout(m) <==>
        && GoodSection(a) && GoodSection(b) && GoodSection(c) && Apart(a, b) && Apart(a, c) && Apart(b, c)
        && 0 < a.size + b.size + c.size <= 0x7F_C000 - 0x200
  {
    DataOffsets(m);
    var a, b, c := m.sections[0], m.sections[1], m.sections[2];
    if SoundLayout(m) {
      assert Disjoint(m.sections[0], m.sections[1]) && Disjoint(m.sections[0], m.sections[2]);
      assert Disjoint(m.sections[1], m.sections[2]);
    }
  }

  lemma {:induction false} EntryMeans(m: Metadata)
    ensures HasEntrypoint(m, SECTION_MAX) <==>
              HoldsEntrypoint(m, 0) || HoldsEntrypoint(m, 1) || HoldsEntrypoint(m, 2)
  {
  }

  lemma {:induction false} HashesMean(m: Metadata, digest: DigestUnit)
    ensures HashesMatch(m, digest) <==>
              HashMatches(m, 0, digest) && HashMatches(m, 1, digest) && HashMatches(m, 2, digest)
  {
  }

  /** Section i's data lies inside an image of maximal size and its destination inside DRAM. */
  ghost predicate Fits(m: Metadata, i: nat)
    requires i < SECTION_MAX
  {
    HEADER_SIZE + DataOffset(m, i) + m.sections[i].size <= SIZE_MAX && End(m.sections[i]) < TWO_32
  }

  /** What the loader needs of a layout; every sound layout has it. */
  ghost predicate Loadable(m: Metadata) {
    && (forall i :: 0 <= i < SECTION_MAX ==> Fits(m, i))
    && (forall i, j :: 0 <= i < j < SECTION_MAX ==> Disjoint(m.sections[i], m.sections[j]))
  }

  lemma {:induction false} SoundIsLoadable(m: Metadata)
    requires SoundLayout(m)
    ensures Loadable(m)
  {
    DataOffsets(m);
    assert Fits(m, 0);
    assert Fits(m, 1);
    assert Fits(m, 2);
  }

  ghost predicate OnlyEntrySection(m: Metadata, i: nat)
    requires i < SECTION_MAX
  {
    forall j :: 0 <= j < SECTION_MAX ==> (HoldsEntrypoint(m, j) <==> j == i)
  }

  lemma {:induction false} OneEntrySection(m: Metadata, i: nat, j: nat)
    requires i < j < SECTION_MAX && Disjoint(m.sections[i], m.sections[j])
    requires HoldsEntrypoint(m, i)
    ensures !HoldsEntrypoint(m, j)
  {
  }

  /** On acceptance every section is smaller than the size limit and the entrypoint lies in one section only. */
  lemma {:induction false} AcceptedLayoutFacts(m: Metadata, digest: DigestUnit, checkHash: bool)
    requires Acceptable(m, digest, checkHash)
    ensures Loadable(m)
    ensures forall i :: 0 <= i < SECTION_MAX ==> m.sections[i].size < SIZE_MAX
    ensures exists i :: 0 <= i < SECTION_MAX && OnlyEntrySection(m, i)
  {
    SoundIsLoadable(m);
    forall i | 0 <= i < SECTION_MAX ensures m.sections[i].size < SIZE_MAX {
      assert Fits(m, i);
    }
    var i :| 0 <= i < SECTION_MAX && HoldsEntrypoint(m, i);
    forall j | 0 <= j < SECTION_MAX && j != i ensures !HoldsEntrypoint(m, j) {
      if i < j {
        OneEntrySection(m, i, j);
      } else if HoldsEntrypoint(m, j) {
        OneEntrySection(m, j, i);
      }
    }
    assert OnlyEntrySection(m, i);
  }

  // ---- The scratch window ------------------------------------------------------------------------

  function WindowStart(w: nat): nat {
    DRAM_BASE + w * SIZE_MAX
  }

  predicate HitsRegion(s: Section, start: nat) {
    Overlaps(DRAM_BASE + s.offset, DRAM_BASE + s.offset + s.size, start, start + SIZE_MAX)
  }

  ghost predicate RegionClear(m: Metadata, start: nat) {
    forall i :: 0 <= i < SECTION_MAX ==> !HitsRegion(m.sections[i], start)
  }

  /** A section below the size limit meets at most the windows holding its two ends. */
  lemma {:induction false} HitsAtMostTwo(s: Section, w: nat)
    requires s.size < SIZE_MAX && HitsRegion(s, WindowStart(w))
    ensures w in {s.offset / SIZE_MAX, End(s) / SIZE_MAX}
  {
    var lo, hi := w * SIZE_MAX, w * SIZE_MAX + SIZE_MAX;
    if lo <= s.offset < hi {
      assert s.offset / SIZE_MAX == w;
    } else {
      assert s.offset <= lo < s.offset + s.size < hi;
      assert (s.offset + s.size) / SIZE_MAX == w;
    }
  }

  lemma {:induction false} Cardinality(a: set<int>, b: set<int>)
    requires a <= b
    ensures |a| <= |b|
  {
    assert b == a + (b - a);
  }

  lemma {:induction false} SparedWindow(hit: set<int>)
    requires |hit| <= 6
    ensures exists w: nat :: w < 7 && w !in hit
  {
    var all := {0, 1, 2, 3, 4, 5, 6};
    if all <= hit {
      Cardinality(all, hit);
      assert false;
    }
    var w :| w in all && w !in hit;
    assert 0 <= w < 7;
  }

  /** Seven windows, six window indices a section end can fall in: one window is clear. */
  lemma {:induction false} SevenWindowsSuffice(m: Metadata)
    requires forall i :: 0 <= i < SECTION_MAX ==> Fits(m, i)
    ensures exists w: nat :: w < 7 && RegionClear(m, WindowStart(w))
  {
    var s0, s1, s2 := m.sections[0], m.sections[1], m.sections[2];
    var hit := {s0.offset / SIZE_MAX, End(s0) / SIZE_MAX} + {s1.offset / SIZE_MAX, End(s1) / SIZE_MAX}
               + {s2.offset / SIZE_MAX, End(s2) / SIZE_MAX};
    SparedWindow(hit);
    var w: nat :| w < 7 && w !in hit;
    forall i | 0 <= i < SECTION_MAX ensures !HitsRegion(m.sections[i], WindowStart(w)) {
      assert Fits(m, i);
      if HitsRegion(m.sections[i], WindowStart(w)) {
        HitsAtMostTwo(m.sections[i], w);
      }
    }
    assert RegionClear(m, WindowStart(w));
  }

  /** The eight-step window search: the first window that no section touches, or none of the eight. */
  method FindWindow(m: Metadata) returns (r: Option<nat>)
    ensures r.Some? ==> exists w: nat :: w < 8 && r.value == WindowStart(w) && RegionClear(m, WindowStart(w))
                                  && forall v: nat :: v < w ==> !RegionClear(m, WindowStart(v))
    ensures r.None? <==> forall w: nat :: w < 8 ==> !RegionClear(m, WindowStart(w))
  {
    var start := DRAM_BASE;
    for w := 0 to 8
      invariant start == WindowStart(w)
      invariant forall v: nat :: v < w ==> !RegionClear(m, WindowStart(v))
    {
      var safe := true;
      for i := 0 to SECTION_MAX
        invariant safe <==> forall k :: 0 <= k < i ==> !HitsRegion(m.sections[k], start)
      {
        if HitsRegion(m.sections[i], start) { safe := false; }
      }
      assert safe <==> RegionClear(m, WindowStart(w));
      if safe { return Some(start); }
      start := start + SIZE_MAX;
    }
    return None;
  }

  // ---- Loading -----------------------------------------------------------------------------------

  /** Section i's slice of the image. */
  ghost function Slice(m: Metadata, i: nat, image: seq<Byte>): (r: seq<Byte>)
    requires i < SECTION_MAX && |image| == SIZE_MAX && Fits(m, i)
    ensures |r| == m.sections[i].size
  {
    var at := HEADER_SIZE + DataOffset(m, i);
    image[at..at + m.sections[i].size]
  }

  /** What section i must look like once loaded. */
  ghost function Loaded(m: Metadata, i: nat, image: seq<Byte>, plaintext: bool, rev: nat,
                        cipher: CtrCipher): (r: seq<Byte>)
    requires i < SECTION_MAX && |image| == SIZE_MAX && Fits(m, i)
    ensures |r| == m.sections[i].size
  {
    if plaintext then Slice(m, i, image) else cipher(rev, m.sections[i].ctr, Slice(m, i, image))
  }

  predicate InOneSection(s: Section, a: nat) {
    DRAM_BASE + s.offset <= a < DRAM_BASE + s.offset + s.size
  }

  predicate InSection(m: Metadata, a: nat, upTo: nat)
    requires upTo <= SECTION_MAX
  {
    exists i :: 0 <= i < upTo && InOneSection(m.sections[i], a)
  }

  predicate InRegion(a: nat, start: nat) {
    start <= a < start + SIZE_MAX
  }

  /** The bytes of memory from `at` are `data`. */
  ghost predicate Holds(mem: seq<Byte>, at: nat, data: seq<Byte>) {
    at + |data| <= |mem| && forall a :: at <= a < at + |data| ==> mem[a] == data[a - at]
  }

  /** Data stays put when no byte under it changes. */
  lemma {:induction false} HoldsStill(before: seq<Byte>, after: seq<Byte>, at: nat, data: seq<Byte>)
    requires Holds(before, at, data) && |after| == |before|
    requires forall a :: at <= a < at + |data| ==> after[a] == before[a]
    ensures Holds(after, at, data)
  {
  }

  method CopyBytes(ram: array<Byte>, dst: nat, src: nat, n: nat)
    requires dst + n <= ram.Length && src + n <= ram.Length
    requires dst + n <= src || src + n <= dst || n == 0
    modifies ram
    ensures forall a :: 0 <= a < ram.Length && !(dst <= a < dst + n) ==> ram[a] == old(ram[a])
    ensures forall a :: dst <= a < dst + n ==> ram[a] == old(ram[src + (a - dst)])
  {
    var r := Memcpy(ram, dst, src, n);
  }

  method ClearBytes(ram: array<Byte>, dst: nat, n: nat)
    requires dst + n <= ram.Length
    modifies ram
    ensures forall a :: 0 <= a < ram.Length ==> ram[a] == if dst <= a < dst + n then 0 else old(ram[a])
  {
    var r := Memset(ram, dst, 0, n);
  }

  method WriteBytes(ram: array<Byte>, dst: nat, data: seq<Byte>)
    requires dst + |data| <= ram.Length
    modifies ram
    ensures forall a :: 0 <= a < ram.Length && !(dst <= a < dst + |data|) ==> ram[a] == old(ram[a])
    ensures forall a :: dst <= a < dst + |data| ==> ram[a] == data[a - dst]
  {
    for i := 0 to |data|
      invariant forall a :: 0 <= a < ram.Length && !(dst <= a < dst + i) ==> ram[a] == old(ram[a])
      invariant forall a :: dst <= a < dst + i ==> ram[a] == data[a - dst]
    {
      ram[dst + i] := data[i];
    }
  }

  /** Sections 0 to upTo of memory hold the contents load_package2_sections promises for `image`. */
  ghost predicate Placed(mem: seq<Byte>, m: Metadata, upTo: nat, image: seq<Byte>, plaintext: bool, rev: nat,
                         cipher: CtrCipher)
    requires upTo <= SECTION_MAX && |image| == SIZE_MAX && Loadable(m)
  {
    forall i :: 0 <= i < upTo ==> PlacedAt(mem, m, i, image, plaintext, rev, cipher)
  }

  ghost predicate PlacedAt(mem: seq<Byte>, m: Metadata, i: nat, image: seq<Byte>, plaintext: bool, rev: nat,
                           cipher: CtrCipher)
    requires i < SECTION_MAX && |image| == SIZE_MAX && Fits(m, i)
  {
    Holds(mem, DRAM_BASE + m.sections[i].offset, Loaded(m, i, image, plaintext, rev, cipher))
  }

  /** Copy or decrypt one section from the buffer to its destination. */
  method PlaceSection(ram: array<Byte>, s: Section, src: nat, plaintext: bool, rev: nat, cipher: CtrCipher,
                      ghost slice: seq<Byte>)
    requires ram.Length == DRAM_END && End(s) < TWO_32
    requires |slice| == s.size && Holds(ram[..], src, slice)
    requires src + s.size <= DRAM_BASE + s.offset || DRAM_BASE + End(s) <= src
    modifies ram
    ensures forall a :: 0 <= a < ram.Length && !InOneSection(s, a) ==> ram[a] == old(ram[a])
    ensures Holds(ram[..], DRAM_BASE + s.offset, if plaintext then slice else cipher(rev, s.ctr, slice))
  {
    var dst := DRAM_BASE + s.offset;
    if plaintext {
      CopyBytes(ram, dst, src, s.size);
    } else {
      assert ram[src..src + s.size] == slice;
      WriteBytes(ram, dst, cipher(rev, s.ctr, ram[src..src + s.size]));
    }
  }

  /** Writing only inside section s, which is disjoint from section i, keeps section i in place. */
  lemma {:induction false} PlacedStill(before: seq<Byte>, after: seq<Byte>, m: Metadata, i: nat, s: Section,
                                       image: seq<Byte>,
                                       plaintext: bool, rev: nat, cipher: CtrCipher)
    requires i < SECTION_MAX && |image| == SIZE_MAX && Fits(m, i)
    requires PlacedAt(before, m, i, image, plaintext, rev, cipher) && |after| == |before|
    requires s.size != 0 && Disjoint(m.sections[i], s)
    requires forall a :: 0 <= a < |before| && !InOneSection(s, a) ==> after[a] == before[a]
    ensures PlacedAt(after, m, i, image, plaintext, rev, cipher)
  {
    HoldsStill(before, after, DRAM_BASE + m.sections[i].offset, Loaded(m, i, image, plaintext, rev, cipher));
  }

  /** Wiping a region no section touches keeps every section in place. */
  lemma {:induction false} WipeSpares(before: seq<Byte>, after: seq<Byte>, m: Metadata, i: nat, buf: nat,
                                      image: seq<Byte>,
                                      plaintext: bool, rev: nat, cipher: CtrCipher)
    requires i < SECTION_MAX && |image| == SIZE_MAX && Fits(m, i)
    requires PlacedAt(before, m, i, image, plaintext, rev, cipher) && |after| == |before|
    requires !HitsRegion(m.sections[i], buf)
    requires forall a :: 0 <= a < |before| && !InRegion(a, buf) ==> after[a] == before[a]
    ensures PlacedAt(after, m, i, image, plaintext, rev, cipher)
  {
    HoldsStill(before, after, DRAM_BASE + m.sections[i].offset, Loaded(m, i, image, plaintext, rev, cipher));
  }

  lemma {:induction false} SliceInBuffer(mem: seq<Byte>, m: Metadata, i: nat, buf: nat, image: seq<Byte>)
    requires i < SECTION_MAX && |image| == SIZE_MAX && Fits(m, i) && Holds(mem, buf, image)
    ensures Holds(mem, buf + HEADER_SIZE + DataOffset(m, i), Slice(m, i, image))
  {
  }

  /** One iteration of the section loop: section i lands and the buffer stays put. */
  method PlaceNext(ram: array<Byte>, m: Metadata, i: nat, buf: nat, curOffset: nat, plaintext: bool, rev: nat,
                   cipher: CtrCipher, ghost image: seq<Byte>)
    requires |image| == SIZE_MAX && i < SECTION_MAX && Fits(m, i) && m.sections[i].size != 0
    requires curOffset == DataOffset(m, i)
    requires ram.Length == DRAM_END && !HitsRegion(m.sections[i], buf) && Holds(ram[..], buf, image)
    modifies ram
    ensures forall a :: 0 <= a < ram.Length && !InOneSection(m.sections[i], a) ==> ram[a] == old(ram[a])
    ensures Holds(ram[..], buf, image)
    ensures PlacedAt(ram[..], m, i, image, plaintext, rev, cipher)
  {
    ghost var before := ram[..];
    var s := m.sections[i];
    var src := buf + HEADER_SIZE + curOffset;
    SliceInBuffer(before, m, i, buf, image);
    ApartFromBuffer(s, buf);
    PlaceSection(ram, s, src, plaintext, rev, cipher, Slice(m, i, image));
    HoldsStill(before, ram[..], buf, image);
  }

  /** The section loop: every section lands, nothing else but section bytes changes. */
  method PlaceAll(ram: array<Byte>, m: Metadata, buf: nat, plaintext: bool, rev: nat, cipher: CtrCipher,
                  ghost image: seq<Byte>)
    requires Loadable(m) && |image| == SIZE_MAX
    requires ram.Length == DRAM_END && RegionClear(m, buf) && Holds(ram[..], buf, image)
    modifies ram
    ensures forall a :: 0 <= a < ram.Length && !InSection(m, a, SECTION_MAX) ==> ram[a] == old(ram[a])
    ensures Placed(ram[..], m, SECTION_MAX, image, plaintext, rev, cipher)
  {
    var curOffset := 0;
    for i := 0 to SECTION_MAX
      invariant curOffset == DataOffset(m, i)
      invariant forall a :: 0 <= a < ram.Length && !InSection(m, a, i) ==> ram[a] == old(ram[a])
      invariant Holds(ram[..], buf, image)
      invariant Placed(ram[..], m, i, image, plaintext, rev, cipher)
    {
      SectionsGrow(m, i);
      if m.sections[i].size != 0 {
        ghost var before := ram[..];
        PlaceNext(ram, m, i, buf, curOffset, plaintext, rev, cipher, image);
        forall j | 0 <= j < i ensures PlacedAt(ram[..], m, j, image, plaintext, rev, cipher) {
          PlacedStill(before, ram[..], m, j, m.sections[i], image, plaintext, rev, cipher);
        }
      }
      curOffset := curOffset + m.sections[i].size;
    }
  }

  lemma {:induction false} SectionsGrow(m: Metadata, i: nat)
    requires i < SECTION_MAX
    ensures forall a :: InSection(m, a, i + 1) <==> InSection(m, a, i) || InOneSection(m.sections[i], a)
  {
  }

  lemma {:induction false} ApartFromBuffer(s: Section, buf: nat)
    requires s.size != 0 && !HitsRegion(s, buf)
    ensures DRAM_BASE + End(s) <= buf || buf + SIZE_MAX <= DRAM_BASE + s.offset
    ensures forall a :: InOneSection(s, a) ==> !InRegion(a, buf)
  {
  }

  /** Find where to load from: the load address itself when no section touches it, otherwise the first
      clear window, into which the image is moved and the load region wiped. */
  method Relocate(ram: array<Byte>, m: Metadata) returns (r: Option<nat>)
    requires ram.Length == DRAM_END && Loadable(m)
    modifies ram
    ensures r.Some? && RegionClear(m, r.value)
    ensures r.value == LOAD_ADDRESS || exists w: nat :: w < 7 && r.value == WindowStart(w)
    ensures r.value == LOAD_ADDRESS <==> RegionClear(m, LOAD_ADDRESS)
    ensures r.value != LOAD_ADDRESS ==> r.value + SIZE_MAX <= LOAD_ADDRESS
    ensures Holds(ram[..], r.value, old(ram[LOAD_ADDRESS..LOAD_ADDRESS + SIZE_MAX]))
    ensures forall a :: 0 <= a < ram.Length && !InRegion(a, r.value) ==>
              ram[a] == if InRegion(a, LOAD_ADDRESS) then 0 else old(ram[a])
  {
    var needsRelocation := false;
    for i := 0 to SECTION_MAX
      invariant needsRelocation <==> exists k :: 0 <= k < i && HitsRegion(m.sections[k], LOAD_ADDRESS)
    {
      if HitsRegion(m.sections[i], LOAD_ADDRESS) { needsRelocation := true; }
    }
    if !needsRelocation {
      return Some(LOAD_ADDRESS);
    }
    r := FindWindow(m);
    SevenWindowsSuffice(m);
    if r.Some? {
      ghost var w: nat :| w < 7 && r.value == WindowStart(w);
      CopyBytes(ram, r.value, LOAD_ADDRESS, SIZE_MAX);
      ClearBytes(ram, LOAD_ADDRESS, SIZE_MAX);
    }
  }

  datatype LoadOutcome = Done | Panic

  /** load_package2_sections. For accepted metadata the panic is unreachable; every non-empty section
      holds the copied or decrypted bytes of its slice of the image that was at the load address on
      entry; the load region and the scratch window are wiped except where sections landed; and no
      other byte of memory changes. */
  method LoadSections(ram: array<Byte>, m: Metadata, plaintext: bool, rev: nat, cipher: CtrCipher)
    returns (outcome: LoadOutcome, ghost scratch: nat)
    requires ram.Length == DRAM_END && Loadable(m)
    modifies ram
    ensures outcome.Done?
    ensures Placed(ram[..], m, SECTION_MAX, old(ram[LOAD_ADDRESS..LOAD_ADDRESS + SIZE_MAX]), plaintext, rev, cipher)
    ensures scratch == LOAD_ADDRESS || exists w: nat :: w < 7 && scratch == WindowStart(w)
    ensures scratch == LOAD_ADDRESS <==> RegionClear(m, LOAD_ADDRESS)
    ensures scratch != LOAD_ADDRESS ==> RegionClear(m, scratch) && scratch + SIZE_MAX <= LOAD_ADDRESS
    ensures forall a :: 0 <= a < ram.Length && !InSection(m, a, SECTION_MAX) ==>
              ram[a] == if InRegion(a, LOAD_ADDRESS) || InRegion(a, scratch) then 0 else old(ram[a])
  {
    ghost var image := ram[LOAD_ADDRESS..LOAD_ADDRESS + SIZE_MAX];
    var found := Relocate(ram, m);
    scratch := LOAD_ADDRESS;
    if found.None? {
      outcome := Panic;
    } else {
      var buf := found.value;
      scratch := buf;
      PlaceAll(ram, m, buf, plaintext, rev, cipher, image);
      ghost var placed := ram[..];
      ClearBytes(ram, buf, SIZE_MAX);
      forall i | 0 <= i < SECTION_MAX ensures PlacedAt(ram[..], m, i, image, plaintext, rev, cipher) {
        WipeSpares(placed, ram[..], m, i, buf, image, plaintext, rev, cipher);
      }
      outcome := Done;
    }
  }

  // ---- Header decryption -------------------------------------------------------------------------

  datatype HeaderOutcome = Accepted(meta: Metadata, rev: nat) | HeaderPanic

  /** decrypt_and_validate_header: the first master key revision whose decryption validates. The
      candidate for a revision is the decrypted header with the clear counter words put back. */
  method DecryptHeader(header: Metadata, plaintext: bool, revision: nat, decrypt: nat -> Metadata,
                       digest: DigestUnit, checkHash: bool)
    returns (r: HeaderOutcome)
    ensures r.Accepted? ==> Acceptable(r.meta, digest, checkHash)
    ensures plaintext ==> r == if Acceptable(header, digest, checkHash) then Accepted(header, 0) else HeaderPanic
    ensures !plaintext && r.Accepted? ==>
              && r.rev <= revision && r.meta == Candidate(header, decrypt, r.rev)
              && forall k: nat :: k < r.rev ==> !Acceptable(Candidate(header, decrypt, k), digest, checkHash)
    ensures !plaintext ==>
              (r.HeaderPanic? <==>
                 forall k: nat :: k <= revision ==> !Acceptable(Candidate(header, decrypt, k), digest, checkHash))
  {
    if !plaintext {
      for k := 0 to revision + 1
        invariant forall v: nat :: v < k ==> !Acceptable(Candidate(header, decrypt, v), digest, checkHash)
      {
        var candidate := Candidate(header, decrypt, k);
        var ok := Validate(candidate, digest, checkHash);
        if ok { return Accepted(candidate, k); }
      }
      return HeaderPanic;
    }
    var ok := Validate(header, digest, checkHash);
    return if ok then Accepted(header, 0) else HeaderPanic;
  }

  function Candidate(header: Metadata, decrypt: nat -> Metadata, k: nat): Metadata {
    decrypt(k).(ctr0 := header.ctr0, ctr1 := header.ctr1, ctr2 := header.ctr2, ctr3 := header.ctr3)
  }

  /** The digest unit over the contents of memory, for a hash function. */
  function Digests(mem: seq<Byte>, sha: seq<Byte> -> seq<Byte>): DigestUnit {
    (start: nat, size: nat) => if start + size <= |mem| then sha(mem[start..start + size]) else []
  }

  /** Every non-empty section's slice of the image hashes to the digest its header records. */
  ghost predicate SlicesHash(m: Metadata, image: seq<Byte>, sha: seq<Byte> -> seq<Byte>)
    requires |image| == SIZE_MAX && Loadable(m)
  {
    forall i :: 0 <= i < SECTION_MAX ==> SliceHashes(m, i, image, sha)
  }

  ghost predicate SliceHashes(m: Metadata, i: nat, image: seq<Byte>, sha: seq<Byte> -> seq<Byte>)
    requires |image| == SIZE_MAX && i < SECTION_MAX && Fits(m, i)
  {
    m.sections[i].size != 0 ==> sha(Slice(m, i, image)) == m.sections[i].hash
  }

  lemma {:induction false} DigestsOfSlices(mem: seq<Byte>, m: Metadata, sha: seq<Byte> -> seq<Byte>)
    requires |mem| == DRAM_END && Loadable(m) && HashesMatch(m, Digests(mem, sha))
    ensures SlicesHash(m, mem[LOAD_ADDRESS..LOAD_ADDRESS + SIZE_MAX], sha)
  {
    var image := mem[LOAD_ADDRESS..LOAD_ADDRESS + SIZE_MAX];
    forall i | 0 <= i < SECTION_MAX ensures SliceHashes(m, i, image, sha) {
      assert HashMatches(m, i, Digests(mem, sha)) && Fits(m, i);
      SliceOfMemory(mem, m, i);
    }
  }

  lemma {:induction false} SliceOfMemory(mem: seq<Byte>, m: Metadata, i: nat)
    requires |mem| == DRAM_END && i < SECTION_MAX && Fits(m, i)
    ensures var at := LOAD_ADDRESS + HEADER_SIZE + DataOffset(m, i);
      mem[at..at + m.sections[i].size] == Slice(m, i, mem[LOAD_ADDRESS..LOAD_ADDRESS + SIZE_MAX])
  {
    var image, off, n := mem[LOAD_ADDRESS..LOAD_ADDRESS + SIZE_MAX], HEADER_SIZE + DataOffset(m, i), m.sections[i].size;
    var there, here := mem[LOAD_ADDRESS + off..LOAD_ADDRESS + off + n], image[off..off + n];
    forall k | 0 <= k < n
      ensures there[k] == here[k]
    {
      assert image[off + k] == mem[LOAD_ADDRESS + off + k];
    }
  }

  /** The header of one revision: the clear counter words of the header bytes over their decryption. */
  function CandidateOf(bytes: seq<Byte>, parse: seq<Byte> -> Metadata, decrypt: (nat, seq<Byte>) -> Metadata,
                       k: nat): Metadata {
    Candidate(parse(bytes), n => decrypt(n, bytes), k)
  }

  /** The revision's header is acceptable for the image in memory. */
  ghost predicate Validates(mem: seq<Byte>, parse: seq<Byte> -> Metadata, decrypt: (nat, seq<Byte>) -> Metadata,
                            sha: seq<Byte> -> seq<Byte>, checkHash: bool, k: nat)
    requires |mem| == DRAM_END
  {
    Acceptable(CandidateOf(HeaderBytes(mem), parse, decrypt, k), Digests(mem, sha), checkHash)
  }

  function HeaderBytes(mem: seq<Byte>): seq<Byte>
    requires |mem| == DRAM_END
  {
    mem[LOAD_ADDRESS..LOAD_ADDRESS + HEADER_SIZE]
  }

  function Image(mem: seq<Byte>): (image: seq<Byte>)
    requires |mem| == DRAM_END
    ensures |image| == SIZE_MAX
  {
    mem[LOAD_ADDRESS..LOAD_ADDRESS + SIZE_MAX]
  }

  /** What becomes of the header in memory. A plaintext one is taken as parsed, if acceptable. Otherwise the lowest
      revision up to the maximum that validates is taken, and the panic is reached exactly when none does. */
  ghost predicate HeaderDecides(mem: seq<Byte>, parse: seq<Byte> -> Metadata, plaintext: bool, revision: nat,
                                decrypt: (nat, seq<Byte>) -> Metadata, sha: seq<Byte> -> seq<Byte>, checkHash: bool,
                                r: HeaderOutcome)
    requires |mem| == DRAM_END
  {
    if plaintext then
      var header := parse(HeaderBytes(mem));
      r == if Acceptable(header, Digests(mem, sha), checkHash) then Accepted(header, 0) else HeaderPanic
    else
      && (r.Accepted? ==>
            && r.rev <= revision && r.meta == CandidateOf(HeaderBytes(mem), parse, decrypt, r.rev)
            && Validates(mem, parse, decrypt, sha, checkHash, r.rev)
            && forall k: nat :: k < r.rev ==> !Validates(mem, parse, decrypt, sha, checkHash, k))
      && (r.HeaderPanic? <==> forall k: nat :: k <= revision ==> !Validates(mem, parse, decrypt, sha, checkHash, k))
  }

  /** The header bytes at the load address are parsed, decrypted and validated against the section bytes behind
      them. */
  method ReadHeader(ram: array<Byte>, parse: seq<Byte> -> Metadata, plaintext: bool, revision: nat,
                    decrypt: (nat, seq<Byte>) -> Metadata, sha: seq<Byte> -> seq<Byte>, checkHash: bool)
    returns (r: HeaderOutcome)
    requires ram.Length == DRAM_END
    ensures HeaderDecides(ram[..], parse, plaintext, revision, decrypt, sha, checkHash, r)
    ensures !plaintext && r.Accepted? ==>
              var header, clear := parse(HeaderBytes(ram[..])), decrypt(r.rev, HeaderBytes(ram[..]));
              && r.meta.ctr0 == header.ctr0 && r.meta.ctr1 == header.ctr1
              && r.meta.ctr2 == header.ctr2 && r.meta.ctr3 == header.ctr3
              && r.meta.magic == clear.magic && r.meta.entrypoint == clear.entrypoint
              && r.meta.versionMax == clear.versionMax && r.meta.versionMin == clear.versionMin
              && r.meta.sections == clear.sections
    ensures r.Accepted? ==> Acceptable(r.meta, Digests(ram[..], sha), checkHash)
  {
    var bytes := ram[LOAD_ADDRESS..LOAD_ADDRESS + HEADER_SIZE];
    assert bytes == HeaderBytes(ram[..]);
    var header, digest := parse(bytes), Digests(ram[..], sha);
    var decryptBytes := (n: nat) => decrypt(n, bytes);
    r := DecryptHeader(header, plaintext, revision, decryptBytes, digest, checkHash);
    ghost var mem := ram[..];
    if !plaintext && r.HeaderPanic? {
      forall k: nat | k <= revision ensures !Validates(mem, parse, decrypt, sha, checkHash, k) {
        assert !Acceptable(Candidate(header, decryptBytes, k), digest, checkHash);
      }
    } else if !plaintext {
      assert Validates(mem, parse, decrypt, sha, checkHash, r.rev);
      forall k: nat | k < r.rev ensures !Validates(mem, parse, decrypt, sha, checkHash, k) {
        assert !Acceptable(Candidate(header, decryptBytes, k), digest, checkHash);
      }
    }
  }

  /** From the image in memory to the loaded sections: the header is read as above; on success the accepted
      sections hold their slices of the image, load region and scratch are wiped around them, and nothing else
      changes. */
  method LoadPackage2(ram: array<Byte>, parse: seq<Byte> -> Metadata, plaintext: bool, revision: nat,
                      decrypt: (nat, seq<Byte>) -> Metadata, cipher: CtrCipher, sha: seq<Byte> -> seq<Byte>,
                      checkHash: bool)
    returns (r: HeaderOutcome, ghost scratch: nat)
    requires ram.Length == DRAM_END
    modifies ram
    ensures HeaderDecides(old(ram[..]), parse, plaintext, revision, decrypt, sha, checkHash, r)
    ensures !plaintext && r.Accepted? ==>
              var header, clear := parse(HeaderBytes(old(ram[..]))), decrypt(r.rev, HeaderBytes(old(ram[..])));
              && r.meta.ctr0 == header.ctr0 && r.meta.ctr1 == header.ctr1
              && r.meta.ctr2 == header.ctr2 && r.meta.ctr3 == header.ctr3
              && r.meta.magic == clear.magic && r.meta.entrypoint == clear.entrypoint
              && r.meta.versionMax == clear.versionMax && r.meta.versionMin == clear.versionMin
              && r.meta.sections == clear.sections
    ensures r.HeaderPanic? ==> ram[..] == old(ram[..])
    ensures r.Accepted? ==>
              && Acceptable(r.meta, Digests(old(ram[..]), sha), checkHash) && Loadable(r.meta)
              && Placed(ram[..], r.meta, SECTION_MAX, Image(old(ram[..])), plaintext, r.rev, cipher)
              && (checkHash ==> SlicesHash(r.meta, Image(old(ram[..])), sha))
    ensures r.Accepted? ==>
              && (scratch == LOAD_ADDRESS || exists w: nat :: w < 7 && scratch == WindowStart(w))
              && (scratch == LOAD_ADDRESS <==> RegionClear(r.meta, LOAD_ADDRESS))
              && (scratch != LOAD_ADDRESS ==> RegionClear(r.meta, scratch) && scratch + SIZE_MAX <= LOAD_ADDRESS)
    ensures r.Accepted? ==>
              forall a :: 0 <= a < ram.Length && !InSection(r.meta, a, SECTION_MAX) ==>
                ram[a] == if InRegion(a, LOAD_ADDRESS) || InRegion(a, scratch) then 0 else old(ram[a])
  {
    ghost var mem := ram[..];
    scratch := LOAD_ADDRESS;
    r := ReadHeader(ram, parse, plaintext, revision, decrypt, sha, checkHash);
    if r.Accepted? {
      SoundIsLoadable(r.meta);
      if checkHash {
        DigestsOfSlices(mem, r.meta, sha);
      }
      assert Image(mem) == ram[LOAD_ADDRESS..LOAD_ADDRESS + SIZE_MAX];
      var outcome;
      outcome, scratch := LoadSections(ram, r.meta, plaintext, r.rev, cipher);
    }
  }
}

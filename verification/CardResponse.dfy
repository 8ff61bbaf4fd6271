/** Reassembly of the 136-bit card response (emummc/source/emmc/sdmmc_driver.c) and the bit-field reader and
    SD register parsers on top of it (emummc/source/emmc/sdmmc.c). Words are 32-bit strings, most significant
    bit first. */
module CardResponse {
  import opened Bits

  type Word = w: seq<bool> | |w| == 32 witness seq(32, _ => false)

  // ---- Word operations -----------------------------------------------------------------------------

  function ShiftLeft(w: Word, n: nat): (r: Word)
    requires n <= 32
    ensures forall i :: 0 <= i < 32 ==> r[i] == (i + n < 32 && w[i + n])
  {
    w[n..] + Zeros(n)
  }

  function ShiftRight(w: Word, n: nat): (r: Word)
    requires n <= 32
    ensures forall i :: 0 <= i < 32 ==> r[i] == (i >= n && w[i - n])
  {
    Zeros(n) + w[..32 - n]
  }

  function Or(a: Word, b: Word): Word {
    seq(32, i requires 0 <= i < 32 => a[i] || b[i])
  }

  function And(a: Word, b: Word): Word {
    seq(32, i requires 0 <= i < 32 => a[i] && b[i])
  }

  /** The mask (1 << size) - 1, or all ones when size is 32. */
  function LowMask(size: nat): (r: Word)
    requires size <= 32
    ensures forall i :: 0 <= i < 32 ==> r[i] == (i >= 32 - size)
  {
    Zeros(32 - size) + seq(size, _ => true)
  }

  /** Four words as one 128-bit number. */
  function Flat(a: Bits, b: Bits, c: Bits, d: Bits): (r: Block)
    requires |a| == |b| == |c| == |d| == 32
  {
    a + b + c + d
  }

  // ---- The response --------------------------------------------------------------------------------

  datatype ResponseType = Type0 | Type1 | Type2 | Type3 | Type4 | Type5

  /** The controller's response registers, rspreg0 to rspreg3. */
  type Registers = r: seq<Word> | |r| == 4 witness seq(4, _ => seq(32, _ => false))

  /** The 128 bits the registers hold: the response without its checksum byte. */
  function Held(regs: Registers): Block {
    Flat(regs[3], regs[2], regs[1], regs[0])
  }

  function Assembled(rsp: seq<Word>): Block
    requires |rsp| == 4
  {
    Flat(rsp[0], rsp[1], rsp[2], rsp[3])
  }

  /** The word at place k of a long response: its own register without the top byte, then the next one's top byte. */
  function LongWord(regs: Registers, k: nat): Word
    requires k < 4
  {
    regs[3 - k][8..] + if k == 3 then Zeros(8) else regs[2 - k][..8]
  }

  lemma {:induction false} LongAssembled(regs: Registers)
    ensures Flat(LongWord(regs, 0), LongWord(regs, 1), LongWord(regs, 2), LongWord(regs, 3)) ==
      Held(regs)[8..] + Zeros(8)
  {
  }

  lemma {:induction false} Carry(high: Word, low: Word)
    ensures Or(high[8..] + Zeros(8), And(ShiftRight(low, 24), LowMask(8))) == high[8..] + low[..8]
  {
  }

  /** The reassembly loop of _sdmmc_cache_rsp. */
  method CacheLong(regs: Registers, rsp: array<Word>)
    requires rsp.Length >= 4
    modifies rsp
    ensures forall k :: 0 <= k < 4 ==> rsp[k] == LongWord(regs, k)
    ensures forall k :: 4 <= k < rsp.Length ==> rsp[k] == old(rsp[k])
  {
    for i := 0 to 4
      invariant forall k :: 0 <= k < i - 1 ==> rsp[k] == LongWord(regs, k)
      invariant i > 0 ==> rsp[i - 1] == regs[4 - i][8..] + Zeros(8)
      invariant forall k :: 4 <= k < rsp.Length ==> rsp[k] == old(rsp[k])
    {
      var temp := regs[3 - i];
      rsp[i] := ShiftLeft(temp, 8);
      if i != 0 {
        Carry(regs[4 - i], temp);
        rsp[i - 1] := Or(rsp[i - 1], And(ShiftRight(temp, 24), LowMask(8)));
      }
    }
  }

  /** _sdmmc_cache_rsp. A long response comes out as one 128-bit number, highest word first, with the stripped
      checksum byte restored as zero; the others take the first register. */
  method CacheResponse(regs: Registers, rsp: array<Word>, size: nat, kind: ResponseType) returns (ok: bool)
    requires size <= 4 * rsp.Length
    modifies rsp
    ensures ok == (if kind.Type2? then size >= 0x10 else !kind.Type0? && size >= 4)
    ensures ok && kind.Type2? ==> Assembled(rsp[..4]) == Held(regs)[8..] + Zeros(8)
    ensures ok && kind.Type2? ==>
              && rsp[0] == regs[3][8..] + regs[2][..8] && rsp[1] == regs[2][8..] + regs[1][..8]
              && rsp[2] == regs[1][8..] + regs[0][..8] && rsp[3] == regs[0][8..] + Zeros(8)
    ensures ok && !kind.Type2? ==> rsp[0] == regs[0]
    ensures forall i :: 0 <= i < rsp.Length && !(ok && i < if kind.Type2? then 4 else 1) ==> rsp[i] == old(rsp[i])
  {
    match kind
    case Type1 | Type3 | Type4 | Type5 =>
      if size < 4 { return false; }
      rsp[0] := regs[0];
      return true;
    case Type2 =>
      if size < 0x10 { return false; }
      CacheLong(regs, rsp);
      LongAssembled(regs);
      return true;
    case Type0 =>
      return false;
  }

  // ---- Bit fields ----------------------------------------------------------------------------------

  /** The upper part of one word with the lower part of the next above it. */
  function Joined(low: Word, high: Word, shift: nat): (r: Word)
    requires 0 < shift < 32
    ensures forall j :: 0 <= j < 32 ==> r[j] == if j < shift then high[32 - shift + j] else low[j - shift]
  {
    Or(ShiftRight(low, shift), ShiftLeft(high, (32 - shift) % 32))
  }

  /** unstuff_bits. */
  function Unstuff(resp: seq<Word>, start: nat, size: nat): Word
    requires |resp| == 4 && size <= 32 && start < 128 && start + size <= 128
  {
    var off, shift := 3 - start / 32, start % 32;
    var res := if size + shift > 32 then Joined(resp[off], resp[off - 1], shift) else ShiftRight(resp[off], shift);
    And(res, LowMask(size))
  }

  /** Bits [start, start + size) of a 128-bit number. */
  function Field(x: Block, start: nat, size: nat): (r: Bits)
    requires start + size <= 128
    ensures |r| == size
  {
    x[128 - start - size..128 - start]
  }

  lemma {:induction false} AssembledWord(resp: seq<Word>, word: nat)
    requires |resp| == 4 && word < 4
    ensures Assembled(resp)[96 - 32 * word..128 - 32 * word] == resp[3 - word]
  {
  }

  /** A field inside one word. */
  lemma {:induction false} WithinWord(low: Word, shift: nat, size: nat)
    requires shift + size <= 32
    ensures And(ShiftRight(low, shift), LowMask(size)) == Zeros(32 - size) + low[32 - shift - size..32 - shift]
  {
  }

  /** A field that continues in the next word. */
  lemma {:induction false} AcrossWords(low: Word, high: Word, shift: nat, size: nat)
    requires size <= 32 && shift < 32 < shift + size
    ensures And(Joined(low, high, shift), LowMask(size)) ==
      Zeros(32 - size) + (high[64 - shift - size..] + low[..32 - shift])
  {
  }

  lemma {:induction false} SliceOne(x: Block, word: nat, shift: nat, size: nat, low: Word)
    requires word < 4 && shift + size <= 32 && x[96 - 32 * word..128 - 32 * word] == low
    ensures Field(x, 32 * word + shift, size) == low[32 - shift - size..32 - shift]
  {
    SubSlice(x, 96 - 32 * word, 128 - 32 * word, 32 - shift - size, 32 - shift);
  }

  lemma {:induction false} SubSlice(x: Bits, a: nat, b: nat, c: nat, d: nat)
    requires a <= b <= |x| && c <= d <= b - a
    ensures x[a..b][c..d] == x[a + c..a + d]
  {
    forall i | 0 <= i < d - c
      ensures x[a..b][c..d][i] == x[a + c..a + d][i]
    {
      assert x[a..b][c + i] == x[a + c + i];
    }
  }

  lemma {:induction false} SliceTwo(x: Block, word: nat, shift: nat, size: nat, low: Word, high: Word)
    requires word < 3 && shift < 32 < shift + size && size <= 32
    requires x[96 - 32 * word..128 - 32 * word] == low && x[64 - 32 * word..96 - 32 * word] == high
    ensures Field(x, 32 * word + shift, size) == high[64 - shift - size..] + low[..32 - shift]
  {
    var both := x[64 - 32 * word..128 - 32 * word];
    assert both == high + low;
    SubSlice(x, 64 - 32 * word, 128 - 32 * word, 64 - shift - size, 64 - shift);
    assert both[64 - shift - size..64 - shift] == high[64 - shift - size..] + low[..32 - shift];
  }

  lemma {:induction false} UnstuffWithin(resp: seq<Word>, word: nat, shift: nat, size: nat)
    requires |resp| == 4 && word < 4 && shift + size <= 32
    ensures And(ShiftRight(resp[3 - word], shift), LowMask(size)) ==
      Zeros(32 - size) + Field(Assembled(resp), 32 * word + shift, size)
  {
    AssembledWord(resp, word);
    WithinWord(resp[3 - word], shift, size);
    SliceOne(Assembled(resp), word, shift, size, resp[3 - word]);
  }

  lemma {:induction false} UnstuffAcross(resp: seq<Word>, word: nat, shift: nat, size: nat)
    requires |resp| == 4 && word < 3 && shift < 32 < shift + size && size <= 32
    ensures And(Joined(resp[3 - word], resp[2 - word], shift), LowMask(size)) ==
      Zeros(32 - size) + Field(Assembled(resp), 32 * word + shift, size)
  {
    AssembledWord(resp, word);
    AssembledWord(resp, word + 1);
    AcrossWords(resp[3 - word], resp[2 - word], shift, size);
    SliceTwo(Assembled(resp), word, shift, size, resp[3 - word], resp[2 - word]);
  }

  /** The reader returns exactly the named bits of the four words, right-aligned, across word boundaries too. */
  lemma {:induction false} UnstuffIsField(resp: seq<Word>, start: nat, size: nat)
    requires |resp| == 4 && size <= 32 && start < 128 && start + size <= 128
    ensures Unstuff(resp, start, size) == Zeros(32 - size) + Field(Assembled(resp), start, size)
  {
    var word, shift := start / 32, start % 32;
    assert start == 32 * word + shift;
    if shift + size <= 32 {
      UnstuffWithin(resp, word, shift, size);
    } else {
      UnstuffAcross(resp, word, shift, size);
    }
  }

  /** On a cached long response the reader addresses the register as the card numbers it, checksum included. */
  lemma {:induction false} UnstuffReadsRegister(regs: Registers, rsp: seq<Word>, start: nat, size: nat)
    requires |rsp| == 4 && Assembled(rsp) == Held(regs)[8..] + Zeros(8)
    requires 8 <= start && size <= 32 && start + size <= 128 && start < 128
    ensures Unstuff(rsp, start, size) == Zeros(32 - size) + Field(Held(regs), start - 8, size)
  {
    UnstuffIsField(rsp, start, size);
  }

  /** unstuff_bits as a number. */
  function ReadField(rsp: seq<Word>, start: nat, size: nat): nat
    requires |rsp| == 4 && size <= 32 && start < 128 && start + size <= 128
  {
    Number(Unstuff(rsp, start, size))
  }

  /** The cached words of a long response that carried the 128-bit card register. */
  ghost predicate Carries(rsp: seq<Word>, register: Block) {
    |rsp| == 4 && Assembled(rsp) == register[..120] + Zeros(8)
  }

  lemma {:induction false} CachedCarries(regs: Registers, rsp: seq<Word>, register: Block)
    requires |rsp| == 4 && Assembled(rsp) == Held(regs)[8..] + Zeros(8) && Held(regs)[8..] == register[..120]
    ensures Carries(rsp, register)
  {
  }

  lemma {:induction false} ReadsRegister(rsp: seq<Word>, register: Block, start: nat, size: nat)
    requires Carries(rsp, register) && 8 <= start < 128 && size <= 32 && start + size <= 128
    ensures ReadField(rsp, start, size) == Number(Field(register, start, size))
  {
    UnstuffIsField(rsp, start, size);
    assert Field(Assembled(rsp), start, size) == Field(register, start, size);
    NumberLeadingZeros(32 - size, Field(register, start, size));
  }

  // ---- The SD registers ----------------------------------------------------------------------------

  datatype Cid = Cid(manfid: nat, oemid: nat, name: seq<nat>, hwrev: nat, fwrev: nat, serial: nat, month: nat,
    year: nat)
  datatype Csd = Csd(structure: nat, cmdclass: nat, readBlockBits: nat, writeProtect: nat, cSize: nat, capacity: nat)

  const WORD_LIMIT: nat := 0x1_0000_0000

  /** A left shift in an unsigned 32-bit variable. */
  function Shl32(v: nat, n: nat): nat {
    if n == 0 then v % WORD_LIMIT else 2 * Shl32(v, n - 1) % WORD_LIMIT
  }

  /** A shift that loses no bits is a multiplication. */
  lemma {:induction false} ShlExact(v: nat, n: nat)
    requires v * Pow2(n) < WORD_LIMIT
    ensures Shl32(v, n) == v * Pow2(n)
  {
    if n > 0 {
      assert v * Pow2(n) == 2 * (v * Pow2(n - 1));
      ShlExact(v, n - 1);
    }
  }

  function DecodeCid(r: Block): Cid {
    Cid(Number(Field(r, 120, 8)), Number(Field(r, 104, 16)),
        [Number(Field(r, 96, 8)), Number(Field(r, 88, 8)), Number(Field(r, 80, 8)), Number(Field(r, 72, 8)),
          Number(Field(r, 64, 8))],
        Number(Field(r, 60, 4)), Number(Field(r, 56, 4)), Number(Field(r, 24, 32)),
        Number(Field(r, 8, 4)), Number(Field(r, 12, 8)) + 2000)
  }

  /** The fields of a CSD register that the parser reads. */
  datatype CsdFields = CsdFields(structure: nat, cmdclass: nat, readBlockBits: nat, writeProtect: nat,
                                 cSize12: nat, multiplier: nat, cSize22: nat)

  function CsdFieldsOf(r: Block): CsdFields {
    CsdFields(Number(Field(r, 126, 2)), Number(Field(r, 84, 12)), Number(Field(r, 80, 4)), Number(Field(r, 12, 2)),
              Number(Field(r, 62, 12)), Number(Field(r, 47, 3)), Number(Field(r, 48, 22)))
  }

  function CsdFieldsRead(raw: seq<Word>): CsdFields
    requires |raw| == 4
  {
    CsdFields(ReadField(raw, 126, 2), ReadField(raw, 84, 12), ReadField(raw, 80, 4), ReadField(raw, 12, 2),
              ReadField(raw, 62, 12), ReadField(raw, 47, 3), ReadField(raw, 48, 22))
  }

  /** What the parser makes of them, given what the structure held before. */
  function DecodeCsd(f: CsdFields, before: Csd): Csd {
    var common := before.(structure := f.structure, cmdclass := f.cmdclass,
                          readBlockBits := f.readBlockBits, writeProtect := f.writeProtect);
    if f.structure == 0 then
      common.(capacity := Shl32(1 + f.cSize12, f.multiplier + 2))
    else if f.structure == 1 then
      common.(cSize := 1 + f.cSize22, capacity := (1 + f.cSize22) * 1024 % WORD_LIMIT, readBlockBits := 9)
    else common
  }

  class Storage {
    var rawCid: seq<Word>
    var rawCsd: seq<Word>
    var cid: Cid
    var csd: Csd

    constructor (rawCid: seq<Word>, rawCsd: seq<Word>, cid: Cid, csd: Csd)
      ensures this.rawCid == rawCid && this.rawCsd == rawCsd && this.cid == cid && this.csd == csd
    {
      this.rawCid, this.rawCsd, this.cid, this.csd := rawCid, rawCsd, cid, csd;
    }

    /** _sd_storage_parse_cid. */
    method ParseSdCid(ghost register: Block)
      requires Carries(rawCid, register)
      modifies this`cid
      ensures cid == DecodeCid(register)
    {
      FieldsRead(rawCid, register);
      cid := cid.(manfid := ReadField(rawCid, 120, 8));
      cid := cid.(oemid := ReadField(rawCid, 104, 16));
      cid := cid.(name := [ReadField(rawCid, 96, 8), ReadField(rawCid, 88, 8), ReadField(rawCid, 80, 8),
                           ReadField(rawCid, 72, 8), ReadField(rawCid, 64, 8)]);
      cid := cid.(hwrev := ReadField(rawCid, 60, 4), fwrev := ReadField(rawCid, 56, 4));
      cid := cid.(serial := ReadField(rawCid, 24, 32));
      cid := cid.(month := ReadField(rawCid, 8, 4), year := ReadField(rawCid, 12, 8) + 2000);
    }

    /** The assignments of _sd_storage_parse_csd. */
    method StoreCsd(f: CsdFields)
      modifies this`csd
      ensures csd == DecodeCsd(f, old(csd))
    {
      csd := csd.(structure := f.structure);
      csd := csd.(cmdclass := f.cmdclass);
      csd := csd.(readBlockBits := f.readBlockBits);
      csd := csd.(writeProtect := f.writeProtect);
      if csd.structure == 0 {
        csd := csd.(capacity := Shl32(1 + f.cSize12, f.multiplier + 2));
      } else if csd.structure == 1 {
        csd := csd.(cSize := 1 + f.cSize22);
        csd := csd.(capacity := csd.cSize * 1024 % WORD_LIMIT);
        csd := csd.(readBlockBits := 9);
      }
    }

    /** _sd_storage_parse_csd. */
    method ParseSdCsd(ghost register: Block)
      requires Carries(rawCsd, register)
      modifies this`csd
      ensures csd == DecodeCsd(CsdFieldsOf(register), old(csd))
    {
      CsdFieldsAgree(rawCsd, register);
      StoreCsd(CsdFieldsRead(rawCsd));
    }

    /** From the controller's registers to the parsed identification: the response that carried `register` is
        cached, fetched and parsed. */
    method ReceiveSdCid(regs: Registers, ghost register: Block)
      requires Held(regs)[8..] == register[..120]
      modifies this`rawCid, this`cid
      ensures cid == DecodeCid(register)
    {
      rawCid := FetchLong(regs);
      CachedCarries(regs, rawCid, register);
      ParseSdCid(register);
    }

    /** Likewise for the card-specific data. */
    method ReceiveSdCsd(regs: Registers, ghost register: Block)
      requires Held(regs)[8..] == register[..120]
      modifies this`rawCsd, this`csd
      ensures csd == DecodeCsd(CsdFieldsOf(register), old(csd))
    {
      rawCsd := FetchLong(regs);
      CachedCarries(regs, rawCsd, register);
      ParseSdCsd(register);
    }
  }

  /** A long response through the driver's cache: _sdmmc_cache_rsp, then sdmmc_get_rsp. */
  method FetchLong(regs: Registers) returns (rsp: seq<Word>)
    ensures |rsp| == 4 && Assembled(rsp) == Held(regs)[8..] + Zeros(8)
  {
    var cache := new Word[4] (_ => seq(32, _ => false));
    var ok := CacheResponse(regs, cache, 0x10, Type2);
    rsp := cache[..4];
  }

  lemma {:induction false} CsdFieldsAgree(raw: seq<Word>, register: Block)
    requires Carries(raw, register)
    ensures CsdFieldsRead(raw) == CsdFieldsOf(register)
  {
    FieldsRead(raw, register);
  }

  lemma {:induction false} FieldsRead(rsp: seq<Word>, register: Block)
    requires Carries(rsp, register)
    ensures forall start, size :: 8 <= start < 128 && 0 <= size <= 32 && start + size <= 128 ==>
      ReadField(rsp, start, size) == Number(Field(register, start, size))
  {
    forall start, size | 8 <= start < 128 && 0 <= size <= 32 && start + size <= 128
      ensures ReadField(rsp, start, size) == Number(Field(register, start, size))
    {
      ReadsRegister(rsp, register, start, size);
    }
  }

  // ---- The register layouts of the SD specification ------------------------------------------------

  /** The card identification register, section 5.2 of the SD Physical Layer Simplified Specification, as bit
      strings: MID, OID, PNM, PRV, PSN, reserved, MDT, checksum and end bit. */
  datatype CidBits = CidBits(mid: Bits, oid: Bits, pnm: seq<Bits>, hwrev: Bits, fwrev: Bits, psn: Bits,
                             reserved: Bits, year: Bits, month: Bits, tail: Bits)

  ghost predicate CidSized(b: CidBits) {
    && |b.mid| == 8 && |b.oid| == 16 && |b.pnm| == 5 && (forall i :: 0 <= i < 5 ==> |b.pnm[i]| == 8)
    && |b.hwrev| == 4 && |b.fwrev| == 4 && |b.psn| == 32 && |b.reserved| == 4
    && |b.year| == 8 && |b.month| == 4 && |b.tail| == 8
  }

  function CidRegister(b: CidBits): Block
    requires CidSized(b)
  {
    b.mid + b.oid + (b.pnm[0] + b.pnm[1] + b.pnm[2] + b.pnm[3] + b.pnm[4]) + (b.hwrev + b.fwrev) + b.psn
    + b.reserved + (b.year + b.month) + b.tail
  }

  /** The parser's offsets are those of the layout. */
  lemma {:induction false} CidFields(b: CidBits)
    requires CidSized(b)
    ensures DecodeCid(CidRegister(b)) ==
      Cid(Number(b.mid), Number(b.oid), [Number(b.pnm[0]), Number(b.pnm[1]), Number(b.pnm[2]), Number(b.pnm[3]),
        Number(b.pnm[4])],
          Number(b.hwrev), Number(b.fwrev), Number(b.psn), Number(b.month), Number(b.year) + 2000)
  {
    CidNumbers(b);
    CidName(b);
  }

  lemma {:induction false} CidNumbers(b: CidBits)
    requires CidSized(b)
    ensures var x := CidRegister(b);
      && Field(x, 120, 8) == b.mid && Field(x, 104, 16) == b.oid
      && Field(x, 60, 4) == b.hwrev && Field(x, 56, 4) == b.fwrev
      && Field(x, 24, 32) == b.psn && Field(x, 12, 8) == b.year && Field(x, 8, 4) == b.month
  {
  }

  lemma {:induction false} CidName(b: CidBits)
    requires CidSized(b)
    ensures var x := CidRegister(b);
      && Field(x, 96, 8) == b.pnm[0] && Field(x, 88, 8) == b.pnm[1] && Field(x, 80, 8) == b.pnm[2]
      && Field(x, 72, 8) == b.pnm[3] && Field(x, 64, 8) == b.pnm[4]
  {
  }

  /** The card-specific data register of version 1, section 5.3.2; `a` to `e` are the bits the parser skips. */
  datatype Csd1Bits = Csd1Bits(structure: Bits, a: Bits, ccc: Bits, blockLen: Bits, b: Bits, cSize: Bits, c: Bits,
                               multiplier: Bits, d: Bits, protection: Bits, e: Bits)

  ghost predicate Csd1Sized(x: Csd1Bits) {
    && |x.structure| == 2 && |x.a| == 30 && |x.ccc| == 12 && |x.blockLen| == 4 && |x.b| == 6
    && |x.cSize| == 12 && |x.c| == 12
    && |x.multiplier| == 3 && |x.d| == 33 && |x.protection| == 2 && |x.e| == 12
  }

  function Csd1Register(x: Csd1Bits): Block
    requires Csd1Sized(x)
  {
    x.structure + x.a + x.ccc + x.blockLen + x.b + x.cSize + x.c + x.multiplier + x.d + x.protection + x.e
  }

  /** The register of version 2, section 5.3.3. */
  datatype Csd2Bits = Csd2Bits(structure: Bits, a: Bits, ccc: Bits, blockLen: Bits, b: Bits, cSize: Bits, d: Bits,
                               protection: Bits, e: Bits)

  ghost predicate Csd2Sized(x: Csd2Bits) {
    && |x.structure| == 2 && |x.a| == 30 && |x.ccc| == 12 && |x.blockLen| == 4 && |x.b| == 10 && |x.cSize| == 22
    && |x.d| == 34 && |x.protection| == 2 && |x.e| == 12
  }

  function Csd2Register(x: Csd2Bits): Block
    requires Csd2Sized(x)
  {
    x.structure + x.a + x.ccc + x.blockLen + x.b + x.cSize + x.d + x.protection + x.e
  }

  lemma {:induction false} Csd1Slices(x: Csd1Bits)
    requires Csd1Sized(x)
    ensures var r := Csd1Register(x);
      && Field(r, 126, 2) == x.structure && Field(r, 84, 12) == x.ccc && Field(r, 80, 4) == x.blockLen
      && Field(r, 12, 2) == x.protection && Field(r, 62, 12) == x.cSize && Field(r, 47, 3) == x.multiplier
  {
  }

  lemma {:induction false} Csd2Slices(x: Csd2Bits)
    requires Csd2Sized(x)
    ensures var r := Csd2Register(x);
      && Field(r, 126, 2) == x.structure && Field(r, 84, 12) == x.ccc && Field(r, 80, 4) == x.blockLen
      && Field(r, 12, 2) == x.protection && Field(r, 48, 22) == x.cSize
  {
  }

  lemma {:induction false} NumberBound(x: Bits)
    ensures Number(x) < Pow2(|x|)
  {
    if x != [] {
      NumberBound(x[..|x| - 1]);
    }
  }

  lemma {:induction false} PowMonotone(m: nat, n: nat)
    requires m <= n
    ensures Pow2(m) <= Pow2(n)
  {
    if m < n {
      PowMonotone(m, n - 1);
    }
  }

  lemma {:induction false} Capacity1(f: CsdFields, before: Csd)
    requires f.structure == 0 && f.cSize12 < Pow2(12) && f.multiplier < Pow2(3)
    ensures DecodeCsd(f, before) ==
      Csd(0, f.cmdclass, f.readBlockBits, f.writeProtect, before.cSize, (f.cSize12 + 1) * Pow2(f.multiplier + 2))
  {
    var p := Pow2(f.multiplier + 2);
    PowMonotone(f.multiplier + 2, 9);
    assert Pow2(9) == 512;
    assert (1 + f.cSize12) * p <= 4096 * 512 by {
      assert 1 + f.cSize12 <= 4096;
    }
    ShlExact(1 + f.cSize12, f.multiplier + 2);
  }

  lemma {:induction false} Capacity2(f: CsdFields, before: Csd)
    requires f.structure == 1 && f.cSize22 < Pow2(22)
    ensures var csd := DecodeCsd(f, before);
      && csd == Csd(1, f.cmdclass, 9, f.writeProtect, f.cSize22 + 1, csd.capacity)
      && (csd.capacity == (f.cSize22 + 1) * 1024 <==> f.cSize22 != 0x3F_FFFF)
      && (f.cSize22 == 0x3F_FFFF ==> csd.capacity == 0)
  {
    assert Pow2(7) == 0x80;
    assert Pow2(12) == 0x1000;
    assert Pow2(17) == 0x2_0000;
    assert Pow2(22) == 0x40_0000;
  }

  /** Version 1: the capacity is (C_SIZE + 1) * 2^(C_SIZE_MULT + 2) blocks, never wrapped. */
  lemma {:induction false} CsdVersion1(x: Csd1Bits, before: Csd)
    requires Csd1Sized(x) && Number(x.structure) == 0
    ensures DecodeCsd(CsdFieldsOf(Csd1Register(x)), before) ==
      Csd(0, Number(x.ccc), Number(x.blockLen), Number(x.protection), before.cSize,
          (Number(x.cSize) + 1) * Pow2(Number(x.multiplier) + 2))
  {
    Csd1Slices(x);
    NumberBound(x.cSize);
    NumberBound(x.multiplier);
    Capacity1(CsdFieldsOf(Csd1Register(x)), before);
  }

  /** Version 2: the capacity is (C_SIZE + 1) * 1024 blocks exactly when C_SIZE is not all ones, and 0 then. */
  lemma {:induction false} CsdVersion2(x: Csd2Bits, before: Csd)
    requires Csd2Sized(x) && Number(x.structure) == 1
    ensures var csd := DecodeCsd(CsdFieldsOf(Csd2Register(x)), before);
      && csd == Csd(1, Number(x.ccc), 9, Number(x.protection), Number(x.cSize) + 1, csd.capacity)
      && (csd.capacity == (Number(x.cSize) + 1) * 1024 <==> Number(x.cSize) != 0x3F_FFFF)
      && (Number(x.cSize) == 0x3F_FFFF ==> csd.capacity == 0)
  {
    Csd2Slices(x);
    NumberBound(x.cSize);
    Capacity2(CsdFieldsOf(Csd2Register(x)), before);
  }
}

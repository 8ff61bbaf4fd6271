/** GHASH and the non-standard GCM key wrapping of exosphere/src/gcm.c, over an abstract block cipher. */
module Gcm {
  import opened Bits
  import opened Gf128

  type Word = w: seq<bool> | |w| == 64 witness seq(64, _ => false)

  /** The value of a two-word little-endian integer. */
  function Value(val: array<Word>): Block
    requires val.Length == 2
    reads val
  {
    var hi: Bits, lo: Bits := val[1], val[0];
    hi + lo
  }

  method Shr128(val: array<Word>)
    requires val.Length == 2
    modifies val
    ensures Value(val) == Shr(old(Value(val)))
  {
    val[0] := Shr(val[0]);
    val[0] := val[0][0 := val[0][0] || val[1][63]];
    val[1] := Shr(val[1]);
  }

  method Shl128(val: array<Word>)
    requires val.Length == 2
    modifies val
    ensures Value(val) == Shl(old(Value(val)))
  {
    val[1] := Shl(val[1]);
    val[1] := val[1][63 := val[1][63] || val[0][0]];
    val[0] := Shl(val[0]);
  }

  /** 0xE1. */
  const E1: Byte := [true, true, true, false, false, false, false, true]

  /** Load sixteen big-endian bytes by way of a byte-reversed work buffer viewed as two words. */
  method LoadReversed(x: array<Byte>) returns (words: array<Word>)
    requires x.Length == 16
    ensures fresh(words) && words.Length == 2 && Value(words) == Join(x[..])
  {
    var work := new Byte[16];
    for i := 0 to 16
      invariant forall k :: 0 <= k < i ==> work[k] == x[0xF - k]
    {
      work[i] := x[0xF - i];
    }
    assert Reverse(work[..8]) == x[8..];
    assert Reverse(work[8..]) == x[..8];
    words := new Word[2];
    words[0] := LoadLe(work[..8]);
    words[1] := LoadLe(work[8..]);
    JoinConcat(x[..8], x[8..]);
    assert x[..] == x[..8] + x[8..];
  }

  method StoreReversed(dst: array<Byte>, words: array<Word>)
    requires dst.Length == 16 && words.Length == 2
    modifies dst
    ensures Join(dst[..]) == Value(words)
  {
    var work := StoreLe(words[0]) + StoreLe(words[1]);
    for i := 0 to 16
      invariant forall k :: 0 <= k < i ==> dst[k] == work[0xF - k]
    {
      dst[i] := work[0xF - i];
    }
    assert dst[..8] == Split(words[1]);
    assert dst[8..] == Split(words[0]);
    assert dst[..] == dst[..8] + dst[8..];
    JoinConcat(dst[..8], dst[8..]);
    JoinSplit(words[0]);
    JoinSplit(words[1]);
  }

  /** The two conditional XORs of a round. */
  method AddSelected(pDst: array<Word>, pX: array<Word>, bit: bool)
    requires pDst.Length == 2 && pX.Length == 2 && pDst != pX
    modifies pDst
    ensures Value(pDst) == Xor(old(Value(pDst)), Select(bit, Value(pX)))
  {
    pDst[0] := Xor(pDst[0], Select(bit, pX[0]));
    pDst[1] := Xor(pDst[1], Select(bit, pX[1]));
  }

  lemma {:induction false} AddReduction(hi: Word, lo: Word, low: bool)
    ensures (Xor(hi[..8], Select(low, E1)) + hi[8..]) + lo == Xor(hi + lo, Select(low, R))
  {
    assert R == E1 + Zeros(120);
  }

  /** Shift x and reduce: multiplication by the variable. */
  method TimesVariable(pX: array<Word>)
    requires pX.Length == 2
    modifies pX
    ensures Value(pX) == Next(old(Value(pX)))
  {
    var low := pX[0][63];
    Shr128(pX);
    AddReduction(pX[1], pX[0], low);
    pX[1] := Xor(pX[1][..8], Select(low, E1)) + pX[1][8..];
  }

  /** One round: conditional add, shift y, multiply x by the variable. */
  method Round(pDst: array<Word>, pX: array<Word>, pY: array<Word>)
    requires pDst.Length == 2 && pX.Length == 2 && pY.Length == 2
    requires pDst != pX && pDst != pY && pX != pY
    modifies pDst, pX, pY
    ensures Value(pDst) == Xor(old(Value(pDst)), Select(old(Value(pY))[0], old(Value(pX))))
    ensures Value(pY) == Shl(old(Value(pY)))
    ensures Value(pX) == Next(old(Value(pX)))
  {
    AddSelected(pDst, pX, pY[1][0]);
    Shl128(pY);
    TimesVariable(pX);
  }

  lemma {:induction false} RoundAdds(d: Block, v: Block, bits: Bits)
    requires bits != []
    ensures Xor(d, MulBits(v, bits)) == Xor(Xor(d, Select(bits[0], v)), MulBits(Next(v), bits[1..]))
  {
    XorAssociates(d, Select(bits[0], v), MulBits(Next(v), bits[1..]));
  }

  lemma {:induction false} RoundShifts(b: Block, round: nat)
    requires round < 128
    ensures Shl(b[round..] + Zeros(round)) == b[round + 1..] + Zeros(round + 1)
    ensures (b[round..] + Zeros(round))[0] == b[round] == b[round..][0]
    ensures b[round..][1..] == b[round + 1..]
  {
    var x := b[round..] + Zeros(round);
    assert x[1..] == b[round + 1..] + Zeros(round);
    assert Zeros(round) + [false] == Zeros(round + 1);
  }

  /** The 128 rounds, from a cleared accumulator. */
  method Rounds(pDst: array<Word>, pX: array<Word>, pY: array<Word>)
    requires pDst.Length == 2 && pX.Length == 2 && pY.Length == 2
    requires pDst != pX && pDst != pY && pX != pY
    requires Value(pDst) == Zeros(128)
    modifies pDst, pX, pY
    ensures Value(pDst) == Mul(old(Value(pX)), old(Value(pY)))
  {
    ghost var a, b := Value(pX), Value(pY);
    XorZero(Mul(a, b));
    assert b[0..] + Zeros(0) == b == b[0..];
    for round := 0 to 128
      invariant Value(pY) == b[round..] + Zeros(round)
      invariant Xor(Value(pDst), MulBits(Value(pX), b[round..])) == Mul(a, b)
    {
      RoundAdds(Value(pDst), Value(pX), b[round..]);
      RoundShifts(b, round);
      Round(pDst, pX, pY);
    }
    XorZero(Value(pDst));
  }

  /** gf128_mul: the product of the standard, also when dst is one of the operands; it differs from the carry-less
      product by a multiple of x^128 + x^7 + x^2 + x + 1. */
  method Gf128Mul(dst: array<Byte>, x: array<Byte>, y: array<Byte>) returns (ghost quotient: Bits)
    requires dst.Length == 16 && x.Length == 16 && y.Length == 16
    modifies dst
    ensures Join(dst[..]) == StandardMul(old(Join(x[..])), old(Join(y[..])))
    ensures |quotient| == 128
    ensures ClMul(old(Join(x[..])), old(Join(y[..]))) + [false] == Xor(Join(dst[..]) + Zeros(129),
      ClMul(quotient, seq(129, i => i == 0 || i == 1 || i == 2 || i == 7 || i == 128)))
  {
    var pX := LoadReversed(x);
    var pY := LoadReversed(y);
    var pDst := new Word[2] (_ => Zeros(64));
    MulIsStandard(Value(pX), Value(pY));
    quotient := MulIsRemainder(Value(pX), Value(pY));
    assert Value(pDst) == Zeros(128);
    Rounds(pDst, pX, pY);
    StoreReversed(dst, pDst);
  }

  // ---- GHASH ---------------------------------------------------------------------------------------

  /** The block cipher under the key in use. */
  type Cipher = Block -> Block

  /** Section 6.4 of NIST SP 800-38D. */
  function GHash(h: Block, blocks: seq<Block>): Block {
    if blocks == [] then Zeros(128)
    else StandardMul(Xor(GHash(h, blocks[..|blocks| - 1]), blocks[|blocks| - 1]), h)
  }

  lemma {:induction false} GHashLast(h: Block, blocks: seq<Block>, b: Block)
    ensures GHash(h, blocks + [b]) == Mul(Xor(GHash(h, blocks), b), h)
  {
    assert (blocks + [b])[..|blocks|] == blocks;
    MulIsStandard(Xor(GHash(h, blocks), b), h);
  }

  /** The hash is the polynomial of the blocks in H: two blocks a and b give a.H.H + b.H. */
  lemma {:induction false} GHashOfTwo(h: Block, a: Block, b: Block)
    ensures GHash(h, [a]) == Mul(a, h) && GHash(h, [a, b]) == Xor(Mul(Mul(a, h), h), Mul(b, h))
  {
    GHashLast(h, [], a);
    assert [] + [a] == [a] && [a] + [b] == [a, b];
    XorZero(a);
    GHashLast(h, [a], b);
    MulDistributes(Mul(a, h), b, h);
  }

  /** The whole blocks of the data; a shorter tail is not included. */
  function Whole(data: seq<Byte>): (r: seq<Block>)
    ensures |r| == |data| / 16
  {
    seq<Block>(|data| / 16, i requires 0 <= i < |data| / 16 => Join(data[16 * i..16 * i + 16]))
  }

  /** The data length in bits as the code places it: in the first half when encrypting, else the second. */
  function LengthBlock(size: nat, encrypt: bool): Block {
    if encrypt then NatBits(8 * size, 64) + Zeros(64) else Zeros(64) + NatBits(8 * size, 64)
  }

  /** The data blocks the code hashes: a partial last block counts as zero whatever it holds. */
  function DataBlocks(data: seq<Byte>): seq<Block> {
    Whole(data) + if |data| % 16 != 0 then [Zeros(128)] else []
  }

  function HashedBlocks(data: seq<Byte>, encrypt: bool): seq<Block> {
    DataBlocks(data) + [LengthBlock(|data|, encrypt)]
  }

  function GhashResult(enc: Cipher, data: seq<Byte>, j: Block, encrypt: bool): Block {
    var s := GHash(enc(Zeros(128)), HashedBlocks(data, encrypt));
    if encrypt then Xor(s, enc(j)) else s
  }

  lemma {:induction false} JoinXor(a: seq<Byte>, b: seq<Byte>)
    requires |a| == |b|
    ensures Join(XorBytes(a, b)) == Xor(Join(a), Join(b))
  {
    if a != [] {
      assert XorBytes(a, b)[1..] == XorBytes(a[1..], b[1..]);
      JoinXor(a[1..], b[1..]);
      XorConcat(a[0], Join(a[1..]), b[0], Join(b[1..]));
    }
  }

  /** XOR sixteen bytes into a block buffer. */
  method XorInto(x: array<Byte>, bytes: seq<Byte>)
    requires x.Length == 16 == |bytes|
    modifies x
    ensures Join(x[..]) == Xor(old(Join(x[..])), Join(bytes))
  {
    for i := 0 to 16
      invariant forall k :: 0 <= k < 16 ==> x[k] == if k < i then Xor(old(x[k]), bytes[k]) else old(x[k])
    {
      x[i] := Xor(x[i], bytes[i]);
    }
    assert x[..] == XorBytes(old(x[..]), bytes);
    JoinXor(old(x[..]), bytes);
  }

  method MulInto(x: array<Byte>, h: array<Byte>)
    requires x.Length == 16 && h.Length == 16 && x != h
    modifies x
    ensures Join(x[..]) == Mul(old(Join(x[..])), Join(h[..]))
  {
    MulIsStandard(Join(x[..]), Join(h[..]));
    ghost var quotient := Gf128Mul(x, x, h);
  }

  method NewBlock(b: Block) returns (a: array<Byte>)
    ensures fresh(a) && a.Length == 16 && Join(a[..]) == b
  {
    var bytes := Split(b);
    a := new Byte[16] (i requires 0 <= i < 16 => bytes[i]);
    assert a[..] == bytes;
    JoinSplit(b);
  }

  /** Absorb sixteen bytes: x becomes (x ^ bytes).H. */
  method AbsorbBytes(x: array<Byte>, h: array<Byte>, bytes: seq<Byte>, ghost blocks: seq<Block>)
    requires x.Length == 16 && h.Length == 16 && x != h && |bytes| == 16
    requires Join(x[..]) == GHash(Join(h[..]), blocks)
    modifies x
    ensures Join(x[..]) == GHash(Join(h[..]), blocks + [Join(bytes)])
  {
    GHashLast(Join(h[..]), blocks, Join(bytes));
    XorInto(x, bytes);
    MulInto(x, h);
  }

  /** Absorb a block. */
  method Absorb(x: array<Byte>, h: array<Byte>, b: Block, ghost blocks: seq<Block>)
    requires x.Length == 16 && h.Length == 16 && x != h
    requires Join(x[..]) == GHash(Join(h[..]), blocks)
    modifies x
    ensures Join(x[..]) == GHash(Join(h[..]), blocks + [b])
  {
    JoinSplit(b);
    AbsorbBytes(x, h, Split(b), blocks);
  }

  /** Multiplying without adding absorbs a zero block. */
  method AbsorbNothing(x: array<Byte>, h: array<Byte>, ghost blocks: seq<Block>)
    requires x.Length == 16 && h.Length == 16 && x != h
    requires Join(x[..]) == GHash(Join(h[..]), blocks)
    modifies x
    ensures Join(x[..]) == GHash(Join(h[..]), blocks + [Zeros(128)])
  {
    GHashLast(Join(h[..]), blocks, Zeros(128));
    XorZero(GHash(Join(h[..]), blocks));
    MulInto(x, h);
  }

  lemma {:induction false} WholeStep(data: seq<Byte>, done: nat)
    requires 16 * done + 16 <= |data|
    ensures Whole(data)[..done + 1] == Whole(data)[..done] + [Join(data[16 * done..16 * done + 16])]
  {
  }

  /** The block loop of ghash. */
  method HashWhole(x: array<Byte>, h: array<Byte>, data: seq<Byte>) returns (rest: nat)
    requires x.Length == 16 && h.Length == 16 && x != h && Join(x[..]) == Zeros(128)
    modifies x
    ensures rest == |data| % 16
    ensures Join(x[..]) == GHash(Join(h[..]), Whole(data))
  {
    rest := |data|;
    var done := 0;
    while rest >= 0x10
      invariant rest + 16 * done == |data|
      invariant Join(x[..]) == GHash(Join(h[..]), Whole(data)[..done])
    {
      WholeStep(data, done);
      AbsorbBytes(x, h, data[16 * done..16 * done + 16], Whole(data)[..done]);
      rest := rest - 0x10;
      done := done + 1;
    }
    assert Whole(data)[..done] == Whole(data);
  }

  /** The data: whole blocks, then a partial last block multiplied in as if it were zero. */
  method HashData(x: array<Byte>, h: array<Byte>, data: seq<Byte>)
    requires x.Length == 16 && h.Length == 16 && x != h && Join(x[..]) == Zeros(128)
    modifies x
    ensures Join(x[..]) == GHash(Join(h[..]), DataBlocks(data))
  {
    var rest := HashWhole(x, h, data);
    if rest % 16 != 0 {
      AbsorbNothing(x, h, Whole(data));
    } else {
      assert DataBlocks(data) == Whole(data);
    }
  }

  /** ghash, as it is: what it hashes is HashedBlocks. */
  method Ghash(dst: array<Byte>, data: seq<Byte>, enc: Cipher, j: Block, encrypt: bool)
    requires dst.Length == 16
    modifies dst
    ensures Join(dst[..]) == GhashResult(enc, data, j, encrypt)
    ensures var length: Block :=
              if encrypt then NatBits(8 * |data|, 64) + Zeros(64) else Zeros(64) + NatBits(8 * |data|, 64);
            var blocks: seq<Block> := Whole(data) + (if |data| % 16 != 0 then [Zeros(128)] else []) + [length];
            var hash := GHash(enc(Zeros(128)), blocks);
            Join(dst[..]) == if encrypt then Xor(hash, enc(j)) else hash
  {
    var x := NewBlock(Zeros(128));
    var h := NewBlock(enc(Zeros(128)));
    HashData(x, h, data);
    Absorb(x, h, LengthBlock(|data|, encrypt), DataBlocks(data));
    if encrypt {
      var e := enc(j);
      JoinSplit(e);
      XorInto(x, Split(e));
    }
    CopyBlock(dst, x);
  }

  method CopyBlock(dst: array<Byte>, src: array<Byte>)
    requires dst.Length == 16 == src.Length && dst != src
    modifies dst
    ensures dst[..] == src[..]
  {
    for i := 0 to 16
      invariant dst[..i] == src[..i]
    {
      dst[i] := src[i];
    }
    assert dst[..16] == dst[..] && src[..16] == src[..];
  }

  // ---- Where it agrees with the standard -----------------------------------------------------------

  /** The last, partial block of the data padded with zeros (zero when there is none). */
  function Tail(data: seq<Byte>): Block {
    var t := Join(data[|data| - |data| % 16..]);
    t + Zeros(128 - |t|)
  }

  /** The blocks GCM hashes for this data and no additional data (section 7.1 of NIST SP 800-38D). */
  function StandardBlocks(data: seq<Byte>): seq<Block> {
    Whole(data) + (if |data| % 16 != 0 then [Tail(data)] else []) + [Zeros(64) + NatBits(8 * |data|, 64)]
  }

  /** Changing one hashed block t into zero, one step before the end, changes the hash by t.H.H. */
  lemma {:induction false} TailTerm(h: Block, whole: seq<Block>, t: Block, l: Block)
    ensures GHash(h, whole + [t] + [l]) == Xor(GHash(h, whole + [Zeros(128)] + [l]), Mul(Mul(t, h), h))
  {
    var y := GHash(h, whole);
    GHashLast(h, whole, t);
    GHashLast(h, whole + [t], l);
    GHashLast(h, whole, Zeros(128));
    GHashLast(h, whole + [Zeros(128)], l);
    XorZero(y);
    TailAlgebra(y, t, l, h);
  }

  lemma {:induction false} TailAlgebra(y: Block, t: Block, l: Block, h: Block)
    ensures Mul(Xor(Mul(Xor(y, t), h), l), h) == Xor(Mul(Xor(Mul(y, h), l), h), Mul(Mul(t, h), h))
  {
    MulDistributes(y, t, h);
    var a, b := Mul(y, h), Mul(t, h);
    XorAssociates(a, b, l);
    XorCommutes(b, l);
    XorAssociates(a, l, b);
    MulDistributes(Xor(a, l), b, h);
  }

  lemma {:induction false} XorSelf(r: Bits, d: Bits)
    requires |r| == |d|
    ensures Xor(r, d) == r <==> d == Zeros(|d|)
  {
    if Xor(r, d) == r {
      forall i | 0 <= i < |d| ensures !d[i] {
        assert Xor(r, d)[i] == r[i];
      }
    } else {
      XorZero(r);
    }
  }

  /** The hash of the standard differs from the code's by the dropped tail times H squared: they agree
      on all whole-block data, and on other data exactly when that product is zero. */
  lemma {:induction false} GhashVersusStandard(enc: Cipher, data: seq<Byte>, j: Block)
    ensures var h := enc(Zeros(128));
      var code, standard := GhashResult(enc, data, j, false), GHash(h, StandardBlocks(data));
      var dropped := Mul(Mul(Tail(data), h), h);
      if |data| % 16 == 0 then code == standard
      else standard == Xor(code, dropped) && (code == standard <==> dropped == Zeros(128))
  {
    var h := enc(Zeros(128));
    if |data| % 16 != 0 {
      TailTerm(h, Whole(data), Tail(data), LengthBlock(|data|, false));
      XorSelf(GhashResult(enc, data, j, false), Mul(Mul(Tail(data), h), h));
    }
  }

  /** Changing the last hashed block changes the hash by the difference times H. */
  lemma {:induction false} LastTerm(h: Block, blocks: seq<Block>, l: Block, m: Block)
    ensures GHash(h, blocks + [l]) == Xor(GHash(h, blocks + [m]), Mul(Xor(l, m), h))
  {
    var y := GHash(h, blocks);
    GHashLast(h, blocks, l);
    GHashLast(h, blocks, m);
    XorSwap(y, l, m);
    MulDistributes(Xor(y, m), Xor(l, m), h);
  }

  lemma {:induction false} XorSwap(y: Bits, l: Bits, m: Bits)
    requires |y| == |l| == |m|
    ensures Xor(Xor(y, m), Xor(l, m)) == Xor(y, l)
  {
  }

  lemma {:induction false} XorPull(a: Bits, b: Bits, c: Bits)
    requires |a| == |b| == |c|
    ensures Xor(Xor(a, b), c) == Xor(Xor(a, c), b)
  {
  }

  /** What the moved length word contributes: the two placements of the length, XORed. */
  function MovedLength(size: nat): Block {
    Xor(LengthBlock(size, false), LengthBlock(size, true))
  }

  /** What a dropped tail contributes, before the last multiplication; zero when there is none. */
  function DroppedTail(data: seq<Byte>, h: Block): Block {
    if |data| % 16 == 0 then Zeros(128) else Mul(Tail(data), h)
  }

  lemma {:induction false} DroppedTerm(h: Block, data: seq<Byte>)
    ensures GHash(h, StandardBlocks(data))
      == Xor(GHash(h, HashedBlocks(data, false)), Mul(DroppedTail(data, h), h))
  {
    if |data| % 16 != 0 {
      TailTerm(h, Whole(data), Tail(data), LengthBlock(|data|, false));
    } else {
      MulZeroLeft(h);
      XorZero(GHash(h, HashedBlocks(data, false)));
    }
  }

  /** In the encrypting mode the standard's block and the code's differ by H times the moved length plus the
      dropped tail times H, on all data. */
  lemma {:induction false} EncryptingGhashVersusStandard(enc: Cipher, data: seq<Byte>, j: Block)
    ensures var h := enc(Zeros(128));
      var code, standard := GhashResult(enc, data, j, true), Xor(GHash(h, StandardBlocks(data)), enc(j));
      var difference := Mul(Xor(MovedLength(|data|), DroppedTail(data, h)), h);
      standard == Xor(code, difference) && (code == standard <==> difference == Zeros(128))
  {
    var h, e := enc(Zeros(128)), enc(j);
    var moved, dropped := Mul(MovedLength(|data|), h), Mul(DroppedTail(data, h), h);
    var g := GHash(h, HashedBlocks(data, true));
    LastTerm(h, DataBlocks(data), LengthBlock(|data|, false), LengthBlock(|data|, true));
    DroppedTerm(h, data);
    MulDistributes(MovedLength(|data|), DroppedTail(data, h), h);
    XorAssociates(g, moved, dropped);
    XorPull(g, Xor(moved, dropped), e);
    XorSelf(GhashResult(enc, data, j, true), Xor(moved, dropped));
  }

  // ---- The same conditions on the data alone -------------------------------------------------------

  /** Multiplication by an invertible H loses nothing. */
  lemma {:induction false} MulCancels(t: Block, h: Block, g: Block)
    requires Mul(h, g) == ONE
    ensures Mul(t, h) == Zeros(128) <==> t == Zeros(128)
  {
    MulAssociates(t, h, g);
    MulIdentity(t);
    MulZeroLeft(g);
    MulZeroLeft(h);
  }

  lemma {:induction false} MulInjective(a: Block, b: Block, h: Block, g: Block)
    requires Mul(h, g) == ONE && Mul(a, h) == Mul(b, h)
    ensures a == b
  {
    MulAssociates(a, h, g);
    MulAssociates(b, h, g);
    MulIdentity(a);
    MulIdentity(b);
  }

  lemma {:induction false} LastCancels(h: Block, g: Block, p: seq<Block>, x: Block, q: seq<Block>, y: Block)
    requires Mul(h, g) == ONE && GHash(h, p + [x]) == GHash(h, q + [y])
    ensures x == y ==> GHash(h, p) == GHash(h, q)
    ensures p == q ==> x == y
  {
    GHashLast(h, p, x);
    GHashLast(h, q, y);
    MulInjective(Xor(GHash(h, p), x), Xor(GHash(h, q), y), h, g);
    if x == y {
      XorRight(GHash(h, p), GHash(h, q), x);
    }
    if p == q {
      XorLeft(GHash(h, p), x, y);
    }
  }

  /** For an invertible H, lists that differ in at most one block and hash alike are the same. */
  lemma {:induction false} OneBlockFixed(h: Block, g: Block, a: seq<Block>, b: seq<Block>, i: nat)
    requires Mul(h, g) == ONE && |a| == |b| && i < |a| && GHash(h, a) == GHash(h, b)
    requires forall k :: 0 <= k < |a| && k != i ==> a[k] == b[k]
    ensures a == b
  {
    var n := |a| - 1;
    SplitLast(a);
    SplitLast(b);
    LastCancels(h, g, a[..n], a[n], b[..n], b[n]);
    if i == n {
      SamePrefix(a, b, n);
    } else {
      OneBlockFixed(h, g, a[..n], b[..n], i);
    }
  }

  lemma {:induction false} SplitLast(a: seq<Block>)
    requires |a| > 0
    ensures a == a[..|a| - 1] + [a[|a| - 1]]
  {
  }

  lemma {:induction false} SamePrefix(a: seq<Block>, b: seq<Block>, n: nat)
    requires n <= |a| && n <= |b| && forall k :: 0 <= k < n ==> a[k] == b[k]
    ensures a[..n] == b[..n]
  {
  }

  lemma {:induction false} XorRight(x: Bits, y: Bits, a: Bits)
    requires |x| == |y| == |a| && Xor(x, a) == Xor(y, a)
    ensures x == y
  {
    XorCancels(x, a);
    XorCancels(y, a);
  }

  lemma {:induction false} XorLeft(x: Bits, a: Bits, b: Bits)
    requires |x| == |a| == |b| && Xor(x, a) == Xor(x, b)
    ensures a == b
  {
    forall i | 0 <= i < |a| ensures a[i] == b[i] {
      assert Xor(x, a)[i] == Xor(x, b)[i];
    }
  }

  lemma {:induction false} XorEqual(a: Bits, b: Bits)
    requires |a| == |b|
    ensures Xor(a, b) == Zeros(|a|) <==> a == b
  {
    if Xor(a, b) == Zeros(|a|) {
      forall i | 0 <= i < |a| ensures a[i] == b[i] {
        assert !Xor(a, b)[i];
      }
    }
  }

  lemma {:induction false} LengthsDiffer(size: nat)
    ensures MovedLength(size) == Zeros(128) <==> 8 * size % Pow2(64) == 0
  {
    var n := NatBits(8 * size, 64);
    XorEqual(LengthBlock(size, false), LengthBlock(size, true));
    if LengthBlock(size, false) == LengthBlock(size, true) {
      assert (Zeros(64) + n)[64..] == n && (n + Zeros(64))[64..] == Zeros(64);
    }
    NatBitsZero(8 * size, |n|);
  }

  /** For every invertible H: without encrypting the hashes agree if and only if the dropped tail is zero; with
      encrypting, on whole blocks if and only if the length in bits is a multiple of 2^64, so only on empty data
      below that, and otherwise if and only if the tail times H happens to make up for the moved length. */
  lemma {:induction false} GhashAgreesIff(enc: Cipher, data: seq<Byte>, j: Block, g: Block)
    requires Mul(enc(Zeros(128)), g) == ONE
    ensures var h := enc(Zeros(128));
      var standard := GHash(h, StandardBlocks(data));
      && (GhashResult(enc, data, j, false) == standard <==> |data| % 16 == 0 || Tail(data) == Zeros(128))
      && (GhashResult(enc, data, j, true) == Xor(standard, enc(j)) <==>
            if |data| % 16 == 0 then 8 * |data| % Pow2(64) == 0 else Mul(Tail(data), h) == MovedLength(|data|))
  {
    var h := enc(Zeros(128));
    GhashVersusStandard(enc, data, j);
    MulCancels(Mul(Tail(data), h), h, g);
    MulCancels(Tail(data), h, g);
    EncryptingGhashVersusStandard(enc, data, j);
    MulCancels(Xor(MovedLength(|data|), DroppedTail(data, h)), h, g);
    XorEqual(MovedLength(|data|), DroppedTail(data, h));
    LengthsDiffer(|data|);
  }

  /** A cipher whose H is the unit. */
  function Flip(b: Block): Block {
    Xor(b, ONE)
  }

  lemma {:induction false} FlipInvertible()
    ensures Mul(Flip(Zeros(128)), ONE) == ONE
  {
    XorZero(ONE);
    MulIdentity(ONE);
  }

  lemma {:induction false} TailOfOne(b: Byte)
    requires b[0]
    ensures |[b]| % 16 != 0 && Tail([b]) != Zeros(128)
  {
    JoinSingle(b);
    assert [b][0..] == [b];
    assert Tail([b])[0] == b[0];
  }

  /** Concrete differences: a one-byte datum without encrypting, a sixteen-byte datum with. */
  lemma {:induction false} DroppedTailDiffers(b: Byte, j: Block)
    requires b[0]
    ensures GhashResult(Flip, [b], j, false) != GHash(Flip(Zeros(128)), StandardBlocks([b]))
  {
    FlipInvertible();
    TailOfOne(b);
    GhashAgreesIff(Flip, [b], j, ONE);
  }

  lemma {:induction false} MovedLengthDiffers(data: seq<Byte>, j: Block)
    requires |data| == 16
    ensures GhashResult(Flip, data, j, true) != Xor(GHash(Flip(Zeros(128)), StandardBlocks(data)), Flip(j))
  {
    FlipInvertible();
    NotAMultiple(8 * |data|, 64);
    GhashAgreesIff(Flip, data, j, ONE);
  }

  lemma {:induction false} NotAMultiple(v: nat, n: nat)
    requires 0 < v < 256 && n >= 8
    ensures v % Pow2(n) != 0
  {
    Pow2Above(n);
  }

  /** The code's hash does not depend on the contents of a partial last block. */
  lemma {:induction false} TailIsIgnored(enc: Cipher, data: seq<Byte>, other: seq<Byte>, j: Block, encrypt: bool)
    requires |data| == |other| && Whole(data) == Whole(other)
    ensures GhashResult(enc, data, j, encrypt) == GhashResult(enc, other, j, encrypt)
  {
  }
}

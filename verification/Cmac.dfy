/** AES-CMAC as exosphere/src/se.c computes it, against NIST SP 800-38B. */
module Cmac {
  import opened Bits
  import opened Gcm

  /** 10000111 in the last byte. */
  const RB: Block := Zeros(120) + [true, false, false, false, false, true, true, true]
  const B87: Byte := [true, false, false, false, false, true, true, true]

  /** Subkey doubling (section 6.1 of NIST SP 800-38B): shift left, and XOR R_b if a one fell off. */
  function Double(x: Block): Block {
    if x[0] then Xor(Shl(x), RB) else Shl(x)
  }

  lemma {:induction false} JoinFrom(bytes: seq<Byte>, i: nat)
    requires i < |bytes|
    ensures Join(bytes[i..]) == bytes[i] + Join(bytes[i + 1..])
  {
    assert bytes[i..][1..] == bytes[i + 1..];
  }

  /** A shifted byte in front of a shifted suffix is the shifted longer suffix. */
  lemma {:induction false} ShiftCarries(byte: Byte, suffix: Bits)
    ensures (byte + suffix)[1..] + [false] ==
            byte[1..] + [if suffix == [] then false else suffix[0]] + if suffix == [] then [] else suffix[1..] + [false]
  {
  }

  /** The last `n` bytes of the key have been shifted, and `carry` left them. */
  ghost predicate Shifted(key: seq<Byte>, was: seq<Byte>, n: nat, carry: bool)
    requires |key| == |was| == 16 && n <= 16
  {
    && key[..16 - n] == was[..16 - n]
    && carry == (n > 0 && Join(was[16 - n..])[0])
    && Join(key[16 - n..]) == if n == 0 then [] else Join(was[16 - n..])[1..] + [false]
  }

  lemma {:induction false} ShiftOne(key: seq<Byte>, was: seq<Byte>, n: nat, carry: bool)
    requires |key| == |was| == 16 && n < 16 && Shifted(key, was, n, carry)
    ensures key[15 - n] == was[15 - n]
    ensures Shifted(key[15 - n := was[15 - n][1..] + [carry]], was, n + 1, was[15 - n][0])
  {
    assert key[15 - n] == key[..16 - n][15 - n] && was[15 - n] == was[..16 - n][15 - n];
    var byte: Byte := was[15 - n][1..] + [carry];
    var next := key[15 - n := byte];
    JoinFrom(was, 15 - n);
    JoinFrom(next, 15 - n);
    ShiftCarries(was[15 - n], Join(was[16 - n..]));
    assert next[16 - n..] == key[16 - n..];
    assert next[..15 - n] == key[..16 - n][..15 - n] && was[..15 - n] == was[..16 - n][..15 - n];
  }

  /** The byte loop of shift_left_xor_rb: a 128-bit left shift, byte by byte from the last. */
  method ShiftLeftBytes(key: array<Byte>) returns (carry: bool)
    requires key.Length == 16
    modifies key
    ensures Join(key[..]) == Shl(old(Join(key[..])))
    ensures carry == old(Join(key[..]))[0]
  {
    ghost var was := key[..];
    carry := false;
    for i := 0 to 16
      invariant Shifted(key[..], was, i, carry)
    {
      ShiftOne(key[..], was, i, carry);
      var cur := key[0xF - i];
      key[0xF - i] := cur[1..] + [carry];
      carry := cur[0];
    }
    assert key[..][0..] == key[..] && was[0..] == was;
  }

  /** shift_left_xor_rb doubles the subkey. */
  method ShiftLeftXorRb(key: array<Byte>)
    requires key.Length == 16
    modifies key
    ensures Join(key[..]) == Double(old(Join(key[..])))
  {
    var carry := ShiftLeftBytes(key);
    if carry {
      ghost var shifted := key[..];
      key[0xF] := XorByte(key[0xF], B87);
      LastByteXor(shifted, key[..]);
    }
  }

  lemma {:induction false} LastByteXor(before: seq<Byte>, after: seq<Byte>)
    requires |before| == 16 == |after| && after == before[15 := XorByte(before[15], B87)]
    ensures Join(after) == Xor(Join(before), RB)
  {
    assert before == before[..15] + [before[15]] && after == before[..15] + [after[15]];
    JoinConcat(before[..15], [before[15]]);
    JoinConcat(before[..15], [after[15]]);
    JoinSingle(before[15]);
    JoinSingle(after[15]);
    XorConcat(Join(before[..15]), before[15], Zeros(120), B87);
    XorZero(Join(before[..15]));
  }

  // ---- CMAC ----------------------------------------------------------------------------------------

  /** The engine's CBC chaining value after these blocks. */
  function Cbc(enc: Cipher, blocks: seq<Block>): Block {
    if blocks == [] then Zeros(128) else enc(Xor(Cbc(enc, blocks[..|blocks| - 1]), blocks[|blocks| - 1]))
  }

  function K1(enc: Cipher): Block {
    Double(enc(Zeros(128)))
  }

  function K2(enc: Cipher): Block {
    Double(K1(enc))
  }

  /** A partial block followed by a one and zeros. */
  function Pad10(tail: seq<Byte>): Block
    requires |tail| < 16
  {
    Join(tail) + [true] + Zeros(127 - 8 * |tail|)
  }

  /** All the blocks before the last one. */
  function Leading(data: seq<Byte>): (r: seq<Block>) {
    Whole(data[..16 * ((|data| + 15) / 16 - if data == [] then 0 else 1)])
  }

  /** Section 6.2 of NIST SP 800-38B on whole-byte messages. */
  function StandardCmac(enc: Cipher, data: seq<Byte>): Block {
    LeadingSize(data);
    var last := data[16 * |Leading(data)|..];
    var m := if |last| == 16 then Xor(Join(last), K1(enc)) else Xor(Pad10(last), K2(enc));
    enc(Xor(Cbc(enc, Leading(data)), m))
  }

  lemma {:induction false} LeadingSize(data: seq<Byte>)
    ensures data == [] ==> |Leading(data)| == 0
    ensures data != [] ==> |Leading(data)| == (|data| + 15) / 16 - 1 && 0 < |data| - 16 * |Leading(data)| <= 16
    ensures data != [] && |data| % 16 == 0 ==> |data| - 16 * |Leading(data)| == 16
    ensures |data| % 16 != 0 ==> |data| - 16 * |Leading(data)| == |data| % 16
  {
  }

  method DerivedKey(partialBlock: bool, enc: Cipher) returns (key: Block)
    ensures key == if partialBlock then K2(enc) else K1(enc)
  {
    var derived := NewBlock(enc(Zeros(128)));
    ShiftLeftXorRb(derived);
    if partialBlock {
      ShiftLeftXorRb(derived);
    }
    key := Join(derived[..]);
  }

  const B80: Byte := [true] + Zeros(7)

  lemma {:induction false} PaddedBytes(tail: seq<Byte>, zeros: seq<Byte>)
    requires |tail| < 16 && |zeros| == 15 - |tail| && forall k :: 0 <= k < |zeros| ==> zeros[k] == Zeros(8)
    ensures Join(tail + [B80] + zeros) == Pad10(tail)
  {
    JoinConcat(tail + [B80], zeros);
    JoinConcat(tail, [B80]);
    JoinSingle(B80);
    JoinZeros(zeros);
    assert B80 + Zeros(8 * |zeros|) == [true] + Zeros(127 - 8 * |tail|);
  }

  lemma {:induction false} JoinZeros(zeros: seq<Byte>)
    requires forall k :: 0 <= k < |zeros| ==> zeros[k] == Zeros(8)
    ensures Join(zeros) == Zeros(8 * |zeros|)
  {
    if zeros != [] {
      JoinZeros(zeros[1..]);
    }
  }

  /** The final block: the padded tail, the last whole block, or zero for an empty message. */
  method LastBlock(data: seq<Byte>) returns (last: Block)
    ensures |data| % 16 != 0 ==> last == Pad10(data[|data| - |data| % 16..])
    ensures |data| % 16 == 0 && |data| >= 16 ==> last == Join(data[|data| - 16..])
    ensures data == [] ==> last == Zeros(128)
  {
    var r := |data| % 16;
    if r != 0 {
      var tail := data[|data| - r..];
      var zeros := seq<Byte>(15 - r, _ => Zeros(8));
      PaddedBytes(tail, zeros);
      last := Join(tail + [B80] + zeros);
    } else if |data| >= 0x10 {
      last := Join(data[|data| - 0x10..]);
    } else {
      last := Zeros(128);
    }
  }

  /** se_compute_aes_cmac. */
  method ComputeCmac(data: seq<Byte>, enc: Cipher) returns (mac: Block)
    ensures data != [] ==> mac == StandardCmac(enc, data)
    ensures data == [] ==> mac == enc(K1(enc))
  {
    LeadingSize(data);
    var derived := DerivedKey(|data| % 16 != 0, enc);
    var numBlocks := (|data| + 0xF) / 16;
    var state := if numBlocks > 1 then Cbc(enc, Whole(data[..16 * (numBlocks - 1)])) else Zeros(128);
    assert state == Cbc(enc, Leading(data));
    var last := LastBlock(data);
    mac := enc(Xor(state, Xor(last, derived)));
    if data == [] {
      XorZero(derived);
    }
  }

  /** The standard's tag written out on two blocks: E(E(M1) ^ M2 ^ K1) when the second is whole, and with the
      padded block and K2 = 2 K1 when it is not; K1 = 2 E(0). */
  lemma {:induction false} TwoBlockTag(enc: Cipher, first: seq<Byte>, second: seq<Byte>)
    requires |first| == 16 && 0 < |second| <= 16
    ensures var k1 := Double(enc(Zeros(128)));
      StandardCmac(enc, first + second) ==
        if |second| == 16 then enc(Xor(enc(Join(first)), Xor(Join(second), k1)))
        else enc(Xor(enc(Join(first)), Xor(Join(second) + [true] + Zeros(127 - 8 * |second|), Double(k1))))
  {
    var data := first + second;
    LeadingSize(data);
    assert data[..16] == first && first[0..16] == first && data[16..] == second;
    assert Leading(data) == [Join(first)];
    CbcOne(enc, Join(first));
  }

  lemma {:induction false} CbcOne(enc: Cipher, m: Block)
    ensures Cbc(enc, [m]) == enc(m)
  {
    assert [m][..0] == [];
    XorZero(m);
  }

  /** And in general the last block is chained on all the earlier ones, each XORed into the previous ciphertext. */
  lemma {:induction false} CbcChains(enc: Cipher, blocks: seq<Block>, m: Block)
    ensures Cbc(enc, blocks + [m]) == enc(Xor(Cbc(enc, blocks), m)) && Cbc(enc, []) == Zeros(128)
  {
    assert (blocks + [m])[..|blocks|] == blocks;
  }

  /** C0 00 .. 00 7D: the one value of E(0) for which K1 equals the padding block XOR K2. */
  const LUCKY: Block := [true, true] + Zeros(118) + [false, true, true, true, true, true, false, true]

  lemma {:induction false} LuckyWorks()
    ensures Double(LUCKY) == Xor(Pad10([]), Double(Double(LUCKY)))
  {
    var k: Block := [true] + Zeros(119) + [false, true, true, true, true, true, false, true];
    assert Double(LUCKY) == k;
    assert Double(k) == Zeros(120) + [false, true, true, true, true, true, false, true];
    assert Pad10([]) == [true] + Zeros(127);
  }

  /** A fixed point of k = padding XOR Double(k), bit by bit from the last. */
  lemma {:induction false} FixedPointBit(k: Block, i: nat)
    requires i < 128 && k == Xor(Pad10([]), Double(k))
    ensures k[i] == ((i == 0) != ((i < 127 && k[i + 1]) != (k[0] && RB[i])))
  {
    assert Pad10([])[i] == (i == 0);
    assert Shl(k)[i] == (i < 127 && k[i + 1]);
    assert Double(k)[i] == (Shl(k)[i] != (k[0] && RB[i]));
  }

  lemma {:induction false} LastFour(k: Block)
    requires k == Xor(Pad10([]), Double(k))
    ensures k[124] == k[0] && k[125] == k[0] && !k[126] && k[127] == k[0]
  {
    FixedPointBit(k, 127);
    FixedPointBit(k, 126);
    FixedPointBit(k, 125);
    FixedPointBit(k, 124);
  }

  lemma {:induction false} LastEight(k: Block)
    requires k == Xor(Pad10([]), Double(k))
    ensures k[120..] == if k[0] then [false, true, true, true, true, true, false, true] else Zeros(8)
  {
    LastFour(k);
    FixedPointBit(k, 123);
    FixedPointBit(k, 122);
    FixedPointBit(k, 121);
    FixedPointBit(k, 120);
  }

  lemma {:induction false} MiddleClear(k: Block, i: nat)
    requires 0 < i < 120 && k == Xor(Pad10([]), Double(k))
    ensures !k[i]
    decreases 120 - i
  {
    FixedPointBit(k, i);
    if i < 119 {
      MiddleClear(k, i + 1);
    } else {
      LastEight(k);
      assert !k[120..][0];
    }
  }

  lemma {:induction false} FixedPointIsUnique(k: Block)
    requires k == Xor(Pad10([]), Double(k))
    ensures k == [true] + Zeros(119) + [false, true, true, true, true, true, false, true]
  {
    FixedPointBit(k, 0);
    MiddleClear(k, 1);
    LastEight(k);
    forall i | 0 < i < 120 ensures !k[i] {
      MiddleClear(k, i);
    }
    assert k == [k[0]] + k[1..120] + k[120..];
    assert k[1..120] == Zeros(119);
  }

  /** Doubling loses nothing. */
  lemma {:induction false} DoubleInjective(x: Block, y: Block)
    requires Double(x) == Double(y)
    ensures x == y
  {
    LastOfDouble(x);
    LastOfDouble(y);
    if x[0] {
      XorCancels(Shl(x), RB);
      XorCancels(Shl(y), RB);
    }
    assert x == [x[0]] + Shl(x)[..127] && y == [y[0]] + Shl(y)[..127];
  }

  lemma {:induction false} LastOfDouble(x: Block)
    ensures Double(x)[127] == x[0]
  {
    assert !Shl(x)[127] && RB[127];
  }

  /** On the empty message the code's tag E(K1) is the standard's if and only if E(0) is one particular block. */
  lemma {:induction false} EmptyMessage(enc: Cipher)
    requires forall a: Block, b: Block :: enc(a) == enc(b) ==> a == b
    ensures StandardCmac(enc, []) == enc(Xor(Pad10([]), K2(enc)))
    ensures enc(K1(enc)) == StandardCmac(enc, []) <==> enc(Zeros(128)) == LUCKY
  {
    assert Leading([]) == [];
    XorZero(Xor(Pad10([]), K2(enc)));
    LuckyWorks();
    if K1(enc) == Xor(Pad10([]), K2(enc)) {
      FixedPointIsUnique(K1(enc));
      FixedPointIsUnique(Double(LUCKY));
      DoubleInjective(enc(Zeros(128)), LUCKY);
    }
  }

  /** For instance the identity cipher gives a wrong tag. */
  lemma {:induction false} EmptyMessageDiffers()
    ensures var enc := (b: Block) => b;
      enc(K1(enc)) != StandardCmac(enc, [])
  {
    var enc := (b: Block) => b;
    EmptyMessage(enc);
    assert LUCKY[0] && !Zeros(128)[0];
  }

  // ---- Doubling as integer arithmetic --------------------------------------------------------------

  lemma {:induction false} NumberTop(x: Bits)
    requires |x| > 0
    ensures Number(x) == (if x[0] then Pow2(|x| - 1) else 0) + Number(x[1..])
    ensures Number(x[1..]) < Pow2(|x| - 1)
  {
    var n := |x|;
    if n == 1 {
      assert x[..0] == [] && x[1..] == [];
    } else {
      NumberTop(x[..n - 1]);
      assert x[..n - 1][1..] == x[1..][..n - 2];
    }
  }

  /** Bitwise exclusive or of integers. */
  function IntXor(a: nat, b: nat): nat
    decreases a + b
  {
    if a == 0 && b == 0 then 0 else 2 * IntXor(a / 2, b / 2) + (a + b) % 2
  }

  lemma {:induction false} NumberXor(a: Bits, b: Bits)
    requires |a| == |b|
    ensures Number(Xor(a, b)) == IntXor(Number(a), Number(b))
  {
    if a != [] {
      var n := |a| - 1;
      assert Xor(a, b)[..n] == Xor(a[..n], b[..n]);
      NumberXor(a[..n], b[..n]);
      IntXorStep(Number(a[..n]), a[n], Number(b[..n]), b[n]);
    }
  }

  lemma {:induction false} IntXorStep(a: nat, x: bool, b: nat, y: bool)
    ensures IntXor(2 * a + (if x then 1 else 0), 2 * b + (if y then 1 else 0)) ==
      2 * IntXor(a, b) + if x != y then 1 else 0
  {
    var i, j := if x then 1 else 0, if y then 1 else 0;
    var u, v := 2 * a + i, 2 * b + j;
    assert u / 2 == a && v / 2 == b;
    assert (u + v) % 2 == (i + j) % 2;
    if u == 0 && v == 0 {
      assert IntXor(u, v) == 0 && IntXor(a, b) == 0;
    } else {
      assert IntXor(u, v) == 2 * IntXor(a, b) + (u + v) % 2;
    }
  }

  /** shift_left_xor_rb of the signing tool, on integers of `width` bits: the test of the top bit, the shift, the
      XOR with 0x87 or with 0, and the mask. */
  function ToolDouble(n: nat, width: nat): nat
    requires width > 0
  {
    IntXor(2 * n, if n / Pow2(width - 1) % 2 == 1 then 0x87 else 0x00) % Pow2(width)
  }

  /** The register one bit wider, before the mask. */
  lemma {:induction false} WideDouble(x: Block, c: Bits)
    requires |c| == 8
    ensures var wide := Xor(x + [false], Zeros(121) + c);
      && Number(wide) == IntXor(2 * Number(x), Number(c))
      && Number(wide[1..]) == IntXor(2 * Number(x), Number(c)) % Pow2(|x|)
      && wide[1..] == Xor(Shl(x), Zeros(120) + c)
  {
    var wide := Xor(x + [false], Zeros(121) + c);
    assert (x + [false])[..|x|] == x;
    NumberXor(x + [false], Zeros(121) + c);
    NumberLeadingZeros(121, c);
    NumberTop(wide);
    Quotient(Number(wide), Pow2(|x|), if wide[0] then 1 else 0, Number(wide[1..]));
    assert wide[1..] == Xor(Shl(x), Zeros(120) + c);
  }

  lemma {:induction false} TopBitTest(x: Bits)
    requires |x| > 0
    ensures x[0] <==> Number(x) / Pow2(|x| - 1) % 2 == 1
  {
    NumberTop(x);
    Quotient(Number(x), Pow2(|x| - 1), if x[0] then 1 else 0, Number(x[1..]));
  }

  lemma {:induction false} NumberSnoc(x: Bits, b: bool)
    ensures Number(x + [b]) == 2 * Number(x) + if b then 1 else 0
  {
    assert (x + [b])[..|x|] == x;
  }

  lemma {:induction false} NumberOf87()
    ensures Number(B87) == 0x87
  {
    var x1: Bits := [true];
    assert x1[..0] == [];
    var x2, x3, x4 := x1 + [false], x1 + [false] + [false], x1 + [false] + [false] + [false];
    NumberSnoc(x1, false);
    NumberSnoc(x2, false);
    NumberSnoc(x3, false);
    var x5, x6, x7 := x4 + [false], x4 + [false] + [true], x4 + [false] + [true] + [true];
    NumberSnoc(x4, false);
    NumberSnoc(x5, true);
    NumberSnoc(x6, true);
    NumberSnoc(x7, true);
    assert B87 == x7 + [true];
  }

  lemma {:induction false} DoubleTopSet(x: Block)
    requires x[0]
    ensures Number(Double(x)) == IntXor(2 * Number(x), 0x87) % Pow2(|x|)
  {
    NumberOf87();
    WideDouble(x, B87);
  }

  lemma {:induction false} DoubleTopClear(x: Block)
    requires !x[0]
    ensures Number(Double(x)) == IntXor(2 * Number(x), 0) % Pow2(|x|)
  {
    NumberZeros(8);
    WideDouble(x, Zeros(8));
    DoubleClear(x);
  }

  lemma {:induction false} DoubleClear(x: Block)
    requires !x[0]
    ensures Double(x) == Xor(Shl(x), Zeros(120) + Zeros(8))
  {
    assert Zeros(120) + Zeros(8) == Zeros(128);
    XorZero(Shl(x));
  }

  /** The bytewise doubling of the monitor is the integer doubling of the tool, on every subkey. */
  lemma {:induction false} DoubleIsToolDouble(x: Block)
    ensures Number(Double(x)) == ToolDouble(Number(x), |x|)
  {
    TopBitTest(x);
    if x[0] {
      DoubleTopSet(x);
    } else {
      DoubleTopClear(x);
    }
  }
}

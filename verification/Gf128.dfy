/** Multiplication in GF(2^128) (exosphere/src/gcm.c, gf128_mul) and the laws it obeys.

    `Mul` sums the multiples the code's loop accumulates (bits of y, running multiple of x);
    `StandardMul` is the loop of section 6.3 of NIST SP 800-38D (bits of x, running multiple of y).
    That the two agree is commutativity.
 */
module Gf128 {
  import opened Bits

  const ONE: Block := [true] + Zeros(127)
  /** 11100001 followed by 120 zeros. */
  const R: Block := [true, true, true, false, false, false, false, true] + Zeros(120)

  /** Multiplication by the polynomial variable. */
  function Next(x: Block): Block {
    Xor(Shr(x), Select(x[127], R))
  }

  /** What the remaining rounds of gf128_mul add, when x is the running multiple and y the bits to come. */
  function MulBits(x: Block, y: Bits): Block
    decreases |y|
  {
    if y == [] then Zeros(128) else Xor(Select(y[0], x), MulBits(Next(x), y[1..]))
  }

  function Mul(x: Block, y: Block): Block {
    MulBits(x, y)
  }

  /** The blocks Z_i and V_i of section 6.3 of NIST SP 800-38D. */
  function StandardRound(x: Block, y: Block, i: nat): (zv: (Block, Block))
    requires i <= 128
  {
    if i == 0 then (Zeros(128), y)
    else
      var (z, v) := StandardRound(x, y, i - 1);
      (if x[i - 1] then Xor(z, v) else z, Next(v))
  }

  function StandardMul(x: Block, y: Block): Block {
    StandardRound(x, y, |x|).0
  }

  // ---- Linearity -----------------------------------------------------------------------------------

  lemma {:induction false} SelectLinear(b: bool, x: Block, y: Block)
    ensures Select(b, Xor(x, y)) == Xor(Select(b, x), Select(b, y))
  {
    XorZero(Zeros(128));
  }

  lemma {:induction false} SelectXor(a: bool, b: bool, x: Block)
    ensures Select(a != b, x) == Xor(Select(a, x), Select(b, x))
  {
    XorZero(x);
    XorZero(Zeros(128));
    assert Xor(x, x) == Zeros(128);
  }

  lemma {:induction false} NextLinear(a: Block, b: Block)
    ensures Next(Xor(a, b)) == Xor(Next(a), Next(b))
  {
    assert Shr(Xor(a, b)) == Xor(Shr(a), Shr(b));
    SelectXor(a[127], b[127], R);
    XorRegroup(Shr(a), Shr(b), Select(a[127], R), Select(b[127], R));
  }

  lemma {:induction false} NextZero()
    ensures Next(Zeros(128)) == Zeros(128)
  {
    assert Shr(Zeros(128)) == Zeros(128);
    XorZero(Zeros(128));
  }

  lemma {:induction false} NextSelect(b: bool, x: Block)
    ensures Next(Select(b, x)) == Select(b, Next(x))
  {
    NextZero();
  }

  lemma {:induction false} MulLinearLeft(a: Block, b: Block, y: Bits)
    ensures MulBits(Xor(a, b), y) == Xor(MulBits(a, y), MulBits(b, y))
    decreases |y|
  {
    if y == [] {
      XorZero(Zeros(128));
    } else {
      NextLinear(a, b);
      SelectLinear(y[0], a, b);
      MulLinearLeft(Next(a), Next(b), y[1..]);
      XorRegroup(Select(y[0], a), Select(y[0], b), MulBits(Next(a), y[1..]), MulBits(Next(b), y[1..]));
    }
  }

  lemma {:induction false} MulLinearRight(x: Block, a: Bits, b: Bits)
    requires |a| == |b|
    ensures MulBits(x, Xor(a, b)) == Xor(MulBits(x, a), MulBits(x, b))
    decreases |a|
  {
    if a == [] {
      XorZero(Zeros(128));
    } else {
      assert Xor(a, b)[1..] == Xor(a[1..], b[1..]);
      SelectXor(a[0], b[0], x);
      MulLinearRight(Next(x), a[1..], b[1..]);
      XorRegroup(Select(a[0], x), Select(b[0], x), MulBits(Next(x), a[1..]), MulBits(Next(x), b[1..]));
    }
  }

  lemma {:induction false} MulNextLeft(x: Block, y: Bits)
    ensures MulBits(Next(x), y) == Next(MulBits(x, y))
    decreases |y|
  {
    if y == [] {
      NextZero();
    } else {
      MulNextLeft(Next(x), y[1..]);
      NextSelect(y[0], x);
      NextLinear(Select(y[0], x), MulBits(Next(x), y[1..]));
    }
  }

  lemma {:induction false} MulZeroLeft(y: Bits)
    ensures MulBits(Zeros(128), y) == Zeros(128)
    decreases |y|
  {
    if y != [] {
      NextZero();
      MulZeroLeft(y[1..]);
      XorZero(Zeros(128));
    }
  }

  // ---- Commutativity -------------------------------------------------------------------------------

  /** The block whose leading bits are s. */
  function Pad(s: Bits): Block
    requires |s| <= 128
  {
    s + Zeros(128 - |s|)
  }

  /** A block is its top bit plus the variable times the rest. */
  lemma {:induction false} Peel(s: Bits)
    requires 0 < |s| <= 128
    ensures Pad(s) == Xor(Select(s[0], ONE), Next(Pad(s[1..])))
  {
    var rest := Pad(s[1..]);
    assert !rest[127];
    XorZero(Shr(rest));
    assert Next(rest) == Shr(rest);
  }

  lemma {:induction false} MulOneLeft(y: Bits)
    requires |y| <= 128
    ensures MulBits(ONE, y) == Pad(y)
    decreases |y|
  {
    if y != [] {
      MulNextLeft(ONE, y[1..]);
      MulOneLeft(y[1..]);
      Peel(y);
    }
  }

  /** Multiplying a peeled block. */
  lemma {:induction false} MulStep(b: bool, y: Block, rest: Block, z: Block)
    ensures Mul(Xor(Select(b, y), Next(rest)), z) == Xor(Select(b, Mul(y, z)), Next(Mul(rest, z)))
  {
    MulLinearLeft(Select(b, y), Next(rest), z);
    MulNextLeft(rest, z);
    MulZeroLeft(z);
  }

  /** Peeling the top bit off the left operand. */
  lemma {:induction false} MulPeelLeft(s: Bits, y: Block)
    requires 0 < |s| <= 128
    ensures Mul(Pad(s), y) == Xor(Select(s[0], y), Next(Mul(Pad(s[1..]), y)))
  {
    Peel(s);
    MulStep(s[0], ONE, Pad(s[1..]), y);
    MulOneLeft(y);
    assert Pad(y) == y;
  }

  lemma {:induction false} SwapBits(s: Bits, y: Block)
    requires |s| <= 128
    ensures Mul(Pad(s), y) == MulBits(y, s)
    decreases |s|
  {
    if s == [] {
      assert Pad(s) == Zeros(128);
      MulZeroLeft(y);
    } else {
      MulPeelLeft(s, y);
      SwapBits(s[1..], y);
      MulNextLeft(y, s[1..]);
    }
  }

  lemma {:induction false} MulCommutes(x: Block, y: Block)
    ensures Mul(x, y) == Mul(y, x)
  {
    SwapBits(x, y);
    assert Pad(x) == x;
  }

  lemma {:induction false} MulDistributes(a: Block, b: Block, y: Block)
    ensures Mul(Xor(a, b), y) == Xor(Mul(a, y), Mul(b, y))
    ensures Mul(y, Xor(a, b)) == Xor(Mul(y, a), Mul(y, b))
  {
    MulLinearLeft(a, b, y);
    MulLinearRight(y, a, b);
  }

  lemma {:induction false} MulIdentity(x: Block)
    ensures Mul(ONE, x) == x && Mul(x, ONE) == x
  {
    MulOneLeft(x);
    assert Pad(x) == x;
    MulCommutes(x, ONE);
  }

  lemma {:induction false} AssociateBits(s: Bits, y: Block, z: Block)
    requires |s| <= 128
    ensures Mul(Mul(Pad(s), y), z) == Mul(Pad(s), Mul(y, z))
    decreases |s|
  {
    if s == [] {
      assert Pad(s) == Zeros(128);
      MulZeroLeft(y);
      MulZeroLeft(z);
      MulZeroLeft(Mul(y, z));
    } else {
      AssociateBits(s[1..], y, z);
      MulPeelLeft(s, y);
      MulPeelLeft(s, Mul(y, z));
      MulStep(s[0], y, Mul(Pad(s[1..]), y), z);
    }
  }

  lemma {:induction false} MulAssociates(x: Block, y: Block, z: Block)
    ensures Mul(Mul(x, y), z) == Mul(x, Mul(y, z))
  {
    AssociateBits(x, y, z);
    assert Pad(x) == x;
  }

  // ---- Agreement with the standard -----------------------------------------------------------------

  lemma {:induction false} StandardRoundSum(x: Block, y: Block, i: nat)
    requires i <= 128
    ensures Xor(StandardRound(x, y, i).0, MulBits(StandardRound(x, y, i).1, x[i..])) == Mul(y, x)
  {
    if i == 0 {
      assert x[0..] == x;
      XorZero(Mul(y, x));
    } else {
      StandardRoundSum(x, y, i - 1);
      var (z, v) := StandardRound(x, y, i - 1);
      assert x[i - 1..][1..] == x[i..];
      XorZero(z);
      assert StandardRound(x, y, i).0 == Xor(z, Select(x[i - 1], v));
      XorAssociates(z, Select(x[i - 1], v), MulBits(Next(v), x[i..]));
    }
  }

  /** The code's product is the product of the standard, for all operands. */
  lemma {:induction false} MulIsStandard(x: Block, y: Block)
    ensures Mul(x, y) == StandardMul(x, y)
  {
    StandardRoundSum(x, y, |x|);
    assert x[|x|..] == [];
    XorZero(StandardMul(x, y));
    MulCommutes(x, y);
  }

  // ---- The remainder modulo x^128 + x^7 + x^2 + x + 1 ----------------------------------------------

  /** The carry-less product of two polynomials over GF(2); bit i is the coefficient of x^i. */
  function ClMul(x: Bits, y: Bits): (r: Bits)
    ensures |r| == |x| + |y|
  {
    if x == [] then Zeros(|y|) else Xor(Select(x[0], y) + Zeros(|x|), [false] + ClMul(x[1..], y))
  }

  function Modulus(): (p: Bits)
    ensures |p| == 129
  {
    seq(129, i => i == 0 || i == 1 || i == 2 || i == 7 || i == 128)
  }

  lemma {:induction false} ModulusIsR()
    ensures Modulus() == R + [true]
  {
  }

  /** x times m is Next(m) plus the modulus if a term of degree 128 arose. */
  lemma {:induction false} ShiftReduces(m: Block)
    ensures [false] + m == Xor(Next(m) + [false], Select(m[127], Modulus()))
  {
    ModulusIsR();
    var top := m[127];
    assert [false] + m == Shr(m) + [top];
    var reduced := Next(m);
    forall i | 0 <= i < 128 ensures Shr(m)[i] == (reduced[i] != (top && R[i])) {
      assert reduced[i] == (Shr(m)[i] != Select(top, R)[i]);
    }
  }

  lemma {:induction false} WidenShift(m: Block, n: nat)
    ensures [false] + (m + Zeros(n)) == Xor(Next(m) + Zeros(n + 1), Select(m[127], Modulus()) + Zeros(n))
  {
    ShiftReduces(m);
    var a, b := Next(m) + [false], Select(m[127], Modulus());
    XorConcat(a, Zeros(n), b, Zeros(n));
    XorZero(Zeros(n));
    assert [false] + (m + Zeros(n)) == ([false] + m) + Zeros(n);
    assert a + Zeros(n) == Next(m) + Zeros(n + 1);
  }

  /** One coefficient more on the left of the product. */
  lemma {:induction false} RemainderStep(b: bool, y: Block, m: Block, c: Bits, p: Bits, n: nat)
    requires n > 0 && |c| == n + 127 && |p| == n + 128 && c + [false] == Xor(m + Zeros(n), p)
    ensures Xor(Select(b, y) + Zeros(n), [false] + c) + [false] ==
      Xor(Xor(Select(b, y), Next(m)) + Zeros(n + 1), Xor(Select(m[127], Modulus()) + Zeros(n), [false] + p))
  {
    WidenShift(m, n);
    var s, t, u := Select(b, y) + Zeros(n + 1), Next(m) + Zeros(n + 1), Select(m[127], Modulus()) + Zeros(n);
    assert [false] + Xor(m + Zeros(n), p) == Xor([false] + (m + Zeros(n)), [false] + p);
    assert Xor(Select(b, y) + Zeros(n), [false] + c) + [false] == Xor(s, [false] + (c + [false])) by {
      XorConcat(Select(b, y) + Zeros(n), [false], [false] + c, [false]);
      assert Xor([false], [false]) == [false];
      assert s == (Select(b, y) + Zeros(n)) + [false];
      assert [false] + (c + [false]) == ([false] + c) + [false];
    }
    XorAssociates(t, u, [false] + p);
    XorAssociates(s, t, Xor(u, [false] + p));
    assert Xor(s, t) == Xor(Select(b, y), Next(m)) + Zeros(n + 1) by {
      XorConcat(Select(b, y), Zeros(n + 1), Next(m), Zeros(n + 1));
      XorZero(Zeros(n + 1));
    }
  }

  lemma {:induction false} ClMulCons(b: bool, rest: Bits, p: Bits)
    ensures ClMul([b] + rest, p) == Xor(Select(b, p) + Zeros(|rest| + 1), [false] + ClMul(rest, p))
  {
    assert ([b] + rest)[1..] == rest;
  }

  lemma {:induction false} RemainderOfNothing(y: Block)
    ensures ClMul([], y) + [false] == Xor(Mul(Pad([]), y) + Zeros(1), ClMul([], Modulus()))
  {
    assert Pad([]) == Zeros(128);
    MulZeroLeft(y);
    assert ClMul([], y) + [false] == Zeros(129);
    assert Mul(Pad([]), y) + Zeros(1) == Zeros(129);
    XorZero(Zeros(129));
  }

  /** The quotient of the bits so far has the bit shifted out on top of the quotient of the rest. */
  lemma {:induction false} RemainderCons(s: Bits, y: Block, q: Bits)
    requires 0 < |s| <= 128 && |q| == |s| - 1
    requires ClMul(s[1..], y) + [false] == Xor(Mul(Pad(s[1..]), y) + Zeros(|s|), ClMul(q, Modulus()))
    ensures var top := Mul(Pad(s[1..]), y)[127];
      ClMul(s, y) + [false] == Xor(Mul(Pad(s), y) + Zeros(|s| + 1), ClMul([top] + q, Modulus()))
  {
    var m := Mul(Pad(s[1..]), y);
    ClMulCons(m[127], q, Modulus());
    MulPeelLeft(s, y);
    RemainderStep(s[0], y, m, ClMul(s[1..], y), ClMul(q, Modulus()), |s|);
  }

  lemma {:induction false} RemainderBits(s: Bits, y: Block) returns (q: Bits)
    requires |s| <= 128
    ensures |q| == |s|
    ensures ClMul(s, y) + [false] == Xor(Mul(Pad(s), y) + Zeros(|s| + 1), ClMul(q, Modulus()))
    decreases |s|
  {
    if s == [] {
      q := [];
      RemainderOfNothing(y);
    } else {
      var rest := RemainderBits(s[1..], y);
      RemainderCons(s, y, rest);
      q := [Mul(Pad(s[1..]), y)[127]] + rest;
    }
  }

  /** The product is the remainder of the carry-less product modulo x^128 + x^7 + x^2 + x + 1: they differ by a
      multiple of it. */
  lemma {:induction false} MulIsRemainder(x: Block, y: Block) returns (q: Bits)
    ensures |q| == 128
    ensures ClMul(x, y) + [false] == Xor(Mul(x, y) + Zeros(129),
      ClMul(q, seq(129, i => i == 0 || i == 1 || i == 2 || i == 7 || i == 128)))
  {
    q := RemainderBits(x, y);
    assert Pad(x) == x;
    assert Modulus() == seq(129, i => i == 0 || i == 1 || i == 2 || i == 7 || i == 128);
  }

  lemma {:induction false} ClMulLinear(a: Bits, b: Bits, p: Bits)
    requires |a| == |b|
    ensures ClMul(Xor(a, b), p) == Xor(ClMul(a, p), ClMul(b, p))
    decreases |a|
  {
    if a == [] {
      XorZero(Zeros(|p|));
    } else {
      var n := |a|;
      assert Xor(a, b)[1..] == Xor(a[1..], b[1..]);
      ClMulLinear(a[1..], b[1..], p);
      var s, t := Select(a[0], p) + Zeros(n), Select(b[0], p) + Zeros(n);
      var u, v := [false] + ClMul(a[1..], p), [false] + ClMul(b[1..], p);
      assert Xor(u, v) == [false] + Xor(ClMul(a[1..], p), ClMul(b[1..], p));
      assert Xor(s, t) == Select(a[0] != b[0], p) + Zeros(n);
      XorRegroup(s, t, u, v);
    }
  }

  /** A multiple of the modulus of degree below 128 is zero. */
  lemma {:induction false} SmallMultiple(q: Bits)
    requires forall i :: 128 <= i < |q| + 129 ==> !ClMul(q, Modulus())[i]
    ensures ClMul(q, Modulus()) == Zeros(|q| + 129)
    decreases |q|
  {
    if q != [] {
      var rest := ClMul(q[1..], Modulus());
      var c := ClMul(q, Modulus());
      forall i | 128 <= i < |q| + 128 ensures !rest[i] {
        assert c[i + 1] == ((Select(q[0], Modulus()) + Zeros(|q|))[i + 1] != rest[i]);
      }
      SmallMultiple(q[1..]);
      assert c[128] == (Select(q[0], Modulus())[128] != rest[127]);
      assert !q[0];
      XorZero(Zeros(|q| + 129));
      assert Select(q[0], Modulus()) + Zeros(|q|) == Zeros(|q| + 129);
      assert [false] + Zeros(|q| + 128) == Zeros(|q| + 129);
    }
  }

  /** And it is the only one: a 128-bit string that differs from the carry-less product by a multiple is Mul(x, y). */
  lemma {:induction false} RemainderIsUnique(x: Block, y: Block, m: Block, q: Bits)
    requires |q| == 128
    requires ClMul(x, y) + [false] == Xor(m + Zeros(129), ClMul(q, Modulus()))
    ensures m == Mul(x, y)
  {
    var k := MulIsRemainder(x, y);
    var p := Modulus();
    assert p == seq(129, i => i == 0 || i == 1 || i == 2 || i == 7 || i == 128);
    ClMulLinear(q, k, p);
    SameSum(m + Zeros(129), ClMul(q, p), Mul(x, y) + Zeros(129), ClMul(k, p));
    XorConcat(m, Zeros(129), Mul(x, y), Zeros(129));
    XorZero(Zeros(129));
    SmallMultiple(Xor(q, k));
    forall i | 0 <= i < 128 ensures m[i] == Mul(x, y)[i] {
      assert Xor(m, Mul(x, y))[i] == ClMul(Xor(q, k), p)[i];
    }
  }

  lemma {:induction false} SameSum(a: Bits, b: Bits, c: Bits, d: Bits)
    requires |a| == |b| == |c| == |d| && Xor(a, b) == Xor(c, d)
    ensures Xor(b, d) == Xor(a, c)
  {
    forall i | 0 <= i < |a| ensures Xor(b, d)[i] == Xor(a, c)[i] {
      assert Xor(a, b)[i] == Xor(c, d)[i];
    }
  }
}

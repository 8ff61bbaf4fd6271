/** Bit strings, most significant bit first, in the notation of the NIST standards. */
module Bits {

  type Bits = seq<bool>
  type Byte = b: seq<bool> | |b| == 8 witness seq(8, _ => false)
  type Block = b: seq<bool> | |b| == 128 witness seq(128, _ => false)

  function Zeros(n: nat): (r: Bits)
    ensures |r| == n && forall i :: 0 <= i < n ==> !r[i]
  {
    seq(n, _ => false)
  }

  function Xor(a: Bits, b: Bits): (r: Bits)
    requires |a| == |b|
    ensures |r| == |a| && forall i :: 0 <= i < |a| ==> r[i] == (a[i] != b[i])
  {
    seq(|a|, i requires 0 <= i < |a| => a[i] != b[i])
  }

  function XorByte(a: Byte, b: Byte): Byte {
    Xor(a, b)
  }

  /** x << 1 and x >> 1 in a register of |x| bits. */
  function Shl(x: Bits): (r: Bits)
    requires |x| > 0
    ensures |r| == |x|
  {
    x[1..] + [false]
  }

  function Shr(x: Bits): (r: Bits)
    requires |x| > 0
    ensures |r| == |x|
  {
    [false] + x[..|x| - 1]
  }

  function Select(b: bool, x: Bits): (r: Bits)
    ensures |r| == |x|
  {
    if b then x else Zeros(|x|)
  }

  lemma {:induction false} XorRegroup(a: Bits, b: Bits, c: Bits, d: Bits)
    requires |a| == |b| == |c| == |d|
    ensures Xor(Xor(a, b), Xor(c, d)) == Xor(Xor(a, c), Xor(b, d))
  {
  }

  lemma {:induction false} XorAssociates(a: Bits, b: Bits, c: Bits)
    requires |a| == |b| == |c|
    ensures Xor(Xor(a, b), c) == Xor(a, Xor(b, c))
  {
  }

  lemma {:induction false} XorCommutes(a: Bits, b: Bits)
    requires |a| == |b|
    ensures Xor(a, b) == Xor(b, a)
  {
  }

  lemma {:induction false} XorZero(a: Bits)
    ensures Xor(a, Zeros(|a|)) == a && Xor(Zeros(|a|), a) == a
  {
  }

  lemma {:induction false} XorCancels(a: Bits, b: Bits)
    requires |a| == |b|
    ensures Xor(Xor(a, b), b) == a
  {
  }

  lemma {:induction false} XorConcat(a: Bits, b: Bits, c: Bits, d: Bits)
    requires |a| == |c| && |b| == |d|
    ensures Xor(a + b, c + d) == Xor(a, c) + Xor(b, d)
  {
  }

  // ---- Bytes in memory order -----------------------------------------------------------------------

  function Join(bytes: seq<Byte>): (r: Bits)
    ensures |r| == 8 * |bytes|
  {
    if bytes == [] then [] else bytes[0] + Join(bytes[1..])
  }

  lemma {:induction false} JoinConcat(a: seq<Byte>, b: seq<Byte>)
    ensures Join(a + b) == Join(a) + Join(b)
  {
    if a == [] {
      assert a + b == b;
    } else {
      assert (a + b)[1..] == a[1..] + b;
      JoinConcat(a[1..], b);
    }
  }

  /** The bytes of a bit string of whole bytes. */
  function Split(x: Bits): (r: seq<Byte>)
    requires |x| % 8 == 0
    ensures 8 * |r| == |x|
  {
    if x == [] then [] else [x[..8]] + Split(x[8..])
  }

  lemma {:induction false} JoinSplit(x: Bits)
    requires |x| % 8 == 0
    ensures Join(Split(x)) == x
  {
    if x != [] {
      JoinSplit(x[8..]);
      assert Split(x)[1..] == Split(x[8..]);
      assert x == x[..8] + x[8..];
    }
  }

  lemma {:induction false} SplitJoin(bytes: seq<Byte>)
    ensures Split(Join(bytes)) == bytes
  {
    if bytes != [] {
      SplitJoin(bytes[1..]);
      var x := Join(bytes);
      assert x[..8] == bytes[0] && x[8..] == Join(bytes[1..]);
    }
  }

  lemma {:induction false} SplitConcat(a: Bits, b: Bits)
    requires |a| % 8 == 0 && |b| % 8 == 0
    ensures Split(a + b) == Split(a) + Split(b)
  {
    if a == [] {
      assert a + b == b;
    } else {
      SplitConcat(a[8..], b);
      assert (a + b)[..8] == a[..8] && (a + b)[8..] == a[8..] + b;
    }
  }

  function Reverse<T>(s: seq<T>): (r: seq<T>)
    ensures |r| == |s| && forall i :: 0 <= i < |s| ==> r[i] == s[|s| - 1 - i]
  {
    seq(|s|, i requires 0 <= i < |s| => s[|s| - 1 - i])
  }

  /** The value of a little-endian word stored in these bytes. */
  function LoadLe(bytes: seq<Byte>): (r: Bits)
    ensures |r| == 8 * |bytes|
  {
    Join(Reverse(bytes))
  }

  function StoreLe(x: Bits): (r: seq<Byte>)
    requires |x| % 8 == 0
    ensures 8 * |r| == |x|
  {
    Reverse(Split(x))
  }

  function Pow2(n: nat): (r: nat)
    ensures r > 0
  {
    if n == 0 then 1 else 2 * Pow2(n - 1)
  }

  /** The n-bit big-endian representation of v modulo 2^n. */
  function NatBits(v: nat, n: nat): (r: Bits)
    ensures |r| == n
  {
    seq(n, i requires 0 <= i < n => v / Pow2(n - 1 - i) % 2 == 1)
  }

  /** The unsigned integer a bit string denotes. */
  function Number(x: Bits): nat {
    if x == [] then 0 else 2 * Number(x[..|x| - 1]) + if x[|x| - 1] then 1 else 0
  }

  const ZERO_BYTE: Byte := Zeros(8)

  function ZeroBytes(n: nat): (r: seq<Byte>)
    ensures |r| == n && forall k :: 0 <= k < n ==> r[k] == ZERO_BYTE
  {
    seq<Byte>(n, _ => ZERO_BYTE)
  }

  function XorBytes(a: seq<Byte>, b: seq<Byte>): (r: seq<Byte>)
    requires |a| == |b|
    ensures |r| == |a| && forall k :: 0 <= k < |a| ==> r[k] == XorByte(a[k], b[k])
  {
    seq<Byte>(|a|, k requires 0 <= k < |a| => XorByte(a[k], b[k]))
  }

  // ---- Bit strings as numbers ----------------------------------------------------------------------

  lemma {:induction false} Quotient(v: nat, d: nat, q: nat, r: nat)
    requires d > 0 && v == q * d + r && r < d
    ensures v / d == q && v % d == r
  {
    var e := v / d - q;
    assert e * d == r - v % d;
    assert e >= 1 ==> e * d >= d;
    assert e <= -1 ==> e * d + d <= 0;
  }

  lemma {:induction false} Halve(v: nat, k: nat)
    ensures v / Pow2(k + 1) == v / 2 / Pow2(k)
    ensures v % Pow2(k + 1) == 2 * (v / 2 % Pow2(k)) + v % 2
  {
    var p := Pow2(k);
    var q, r := v / 2 / p, v / 2 % p;
    assert v / 2 == q * p + r;
    assert v == q * (2 * p) + (2 * r + v % 2);
    Quotient(v, 2 * p, q, 2 * r + v % 2);
  }

  lemma {:induction false} NatBitsHalve(v: nat, n: nat)
    requires n > 0
    ensures NatBits(v, n)[..n - 1] == NatBits(v / 2, n - 1)
    ensures NatBits(v, n)[n - 1] == (v % 2 == 1)
  {
    forall i | 0 <= i < n - 1
      ensures NatBits(v, n)[i] == NatBits(v / 2, n - 1)[i]
    {
      Halve(v, n - 2 - i);
    }
    assert Pow2(0) == 1;
  }

  lemma {:induction false} NumberNatBits(v: nat, n: nat)
    ensures Number(NatBits(v, n)) == v % Pow2(n)
  {
    if n > 0 {
      NatBitsHalve(v, n);
      NumberNatBits(v / 2, n - 1);
      Halve(v, n - 1);
    }
  }

  lemma {:induction false} NumberZeros(n: nat)
    ensures Number(Zeros(n)) == 0
  {
    if n > 0 {
      assert Zeros(n)[..n - 1] == Zeros(n - 1);
      NumberZeros(n - 1);
    }
  }

  lemma {:induction false} NumberInjective(x: Bits, y: Bits)
    requires |x| == |y|
    ensures Number(x) == Number(y) <==> x == y
  {
    if x != [] {
      var n := |x| - 1;
      NumberInjective(x[..n], y[..n]);
      assert x == x[..n] + [x[n]] && y == y[..n] + [y[n]];
    }
  }

  lemma {:induction false} NatBitsZero(v: nat, n: nat)
    ensures NatBits(v, n) == Zeros(n) <==> v % Pow2(n) == 0
  {
    NumberNatBits(v, n);
    NumberZeros(n);
    NumberInjective(NatBits(v, n), Zeros(n));
  }

  lemma {:induction false} NumberLeadingZeros(n: nat, x: Bits)
    ensures Number(Zeros(n) + x) == Number(x)
    decreases n + |x|
  {
    var y := Zeros(n) + x;
    if x != [] {
      assert y[..|y| - 1] == Zeros(n) + x[..|x| - 1];
      NumberLeadingZeros(n, x[..|x| - 1]);
    } else if n > 0 {
      assert y[..|y| - 1] == Zeros(n - 1) + x;
      NumberLeadingZeros(n - 1, x);
    }
  }

  lemma {:induction false} JoinSingle(b: Byte)
    ensures Join([b]) == b
  {
    assert [b][1..] == [];
    assert Join([]) == [];
  }

  lemma {:induction false} Pow2Above(n: nat)
    requires n >= 8
    ensures Pow2(n) >= 256
  {
    if n == 8 {
      assert Pow2(4) == 16;
    } else {
      Pow2Above(n - 1);
    }
  }
}

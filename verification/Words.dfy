/** Machine words in byte memory: the null-byte detector and the byte-spreading loops of
    exosphere/src/my_libc.c. Words are little-endian, eight bytes; an index is an address. */
module Words {

  type Byte = bv8

  /** The detector is non-zero exactly when one of the eight bytes is zero. */
  lemma {:induction false} DetectNullIsExact(b0: bv64, b1: bv64, b2: bv64, b3: bv64, b4: bv64, b5: bv64, b6: bv64,
                                             b7: bv64, x: bv64)
    requires b0 <= 0xFF && b1 <= 0xFF && b2 <= 0xFF && b3 <= 0xFF
    requires b4 <= 0xFF && b5 <= 0xFF && b6 <= 0xFF && b7 <= 0xFF
    requires x == b0 | (b1 << 8) | (b2 << 16) | (b3 << 24) | (b4 << 32) | (b5 << 40) | (b6 << 48) | (b7 << 56)
    ensures (x - 0x0101_0101_0101_0101) & !x & 0x8080_8080_8080_8080 != 0 <==>
      b0 == 0 || b1 == 0 || b2 == 0 || b3 == 0 || b4 == 0 || b5 == 0 || b6 == 0 || b7 == 0
  {
  }

  /** The same detector on the XOR with a word filled with c finds c. */
  lemma {:induction false} DetectCharIsExact(c0: Byte, c1: Byte, c2: Byte, c3: Byte, c4: Byte, c5: Byte, c6: Byte,
                                             c7: Byte, x: bv64,
                                             c: Byte, mask: bv64)
    requires x == (c0 as bv64) | (c1 as bv64 << 8) | (c2 as bv64 << 16) | (c3 as bv64 << 24)
      | (c4 as bv64 << 32) | (c5 as bv64 << 40) | (c6 as bv64 << 48) | (c7 as bv64 << 56)
    requires mask == (c as bv64) | (c as bv64 << 8) | (c as bv64 << 16) | (c as bv64 << 24)
      | (c as bv64 << 32) | (c as bv64 << 40) | (c as bv64 << 48) | (c as bv64 << 56)
    ensures ((x ^ mask) - 0x0101_0101_0101_0101) & !(x ^ mask) & 0x8080_8080_8080_8080 != 0 <==>
      c0 == c || c1 == c || c2 == c || c3 == c || c4 == c || c5 == c || c6 == c || c7 == c
  {
  }

  /** Three doublings fill a word with one byte. */
  lemma {:induction false} Fill(d: bv64, m2: bv64, m4: bv64, m8: bv64)
    requires d <= 0xFF && m2 == (d << 8) | d && m4 == (m2 << 16) | m2 && m8 == (m4 << 32) | m4
    ensures m8 == d | (d << 8) | (d << 16) | (d << 24) | (d << 32) | (d << 40) | (d << 48) | (d << 56)
    ensures m8 & 0xFF == d && (m8 >> 8) & 0xFF == d && (m8 >> 16) & 0xFF == d && (m8 >> 24) & 0xFF == d
    ensures (m8 >> 32) & 0xFF == d && (m8 >> 40) & 0xFF == d && (m8 >> 48) & 0xFF == d && (m8 >> 56) & 0xFF == d
  {
  }

  /** DETECTNULL on the word made of eight bytes, lowest address first. */
  method DetectNull(c0: Byte, c1: Byte, c2: Byte, c3: Byte, c4: Byte, c5: Byte, c6: Byte, c7: Byte) returns (hit: bool)
    ensures hit <==> c0 == 0 || c1 == 0 || c2 == 0 || c3 == 0 || c4 == 0 || c5 == 0 || c6 == 0 || c7 == 0
  {
    var b0, b1, b2, b3, b4, b5, b6, b7 := c0 as bv64, c1 as bv64, c2 as bv64, c3 as bv64, c4 as bv64, c5 as bv64,
      c6 as bv64, c7 as bv64;
    var x := b0 | (b1 << 8) | (b2 << 16) | (b3 << 24) | (b4 << 32) | (b5 << 40) | (b6 << 48) | (b7 << 56);
    DetectNullIsExact(b0, b1, b2, b3, b4, b5, b6, b7, x);
    hit := (x - 0x0101_0101_0101_0101) & !x & 0x8080_8080_8080_8080 != 0;
  }

  /** DETECTCHAR on the word made of eight bytes, with a mask filled with c. */
  method DetectChar(c0: Byte, c1: Byte, c2: Byte, c3: Byte, c4: Byte, c5: Byte, c6: Byte, c7: Byte, mask: bv64,
                    ghost c: Byte)
    returns (hit: bool)
    requires Filled(mask, c)
    ensures hit <==> c0 == c || c1 == c || c2 == c || c3 == c || c4 == c || c5 == c || c6 == c || c7 == c
  {
    var x := (c0 as bv64) | (c1 as bv64 << 8) | (c2 as bv64 << 16) | (c3 as bv64 << 24)
      | (c4 as bv64 << 32) | (c5 as bv64 << 40) | (c6 as bv64 << 48) | (c7 as bv64 << 56);
    hit := ((x ^ mask) - 0x0101_0101_0101_0101) & !(x ^ mask) & 0x8080_8080_8080_8080 != 0;
    DetectCharIsExact(c0, c1, c2, c3, c4, c5, c6, c7, x, c, mask);
  }

  /** A word all of whose bytes are c. */
  predicate Filled(mask: bv64, c: Byte) {
    var d := c as bv64;
    mask == d | (d << 8) | (d << 16) | (d << 24) | (d << 32) | (d << 40) | (d << 48) | (d << 56)
  }

  /** The mask as memset, memchr and strchr build it. */
  method Spread(c: Byte) returns (mask: bv64)
    ensures Filled(mask, c)
  {
    var d := c as bv64;
    var m2 := (d << 8) | d;
    var m4 := (m2 << 16) | m2;
    mask := (m4 << 32) | m4;
    Fill(d, m2, m4, mask);
  }

  /** Two words compare equal exactly when their bytes do. */
  lemma {:induction false} WordEqualityIsBytewise(c0: Byte, c1: Byte, c2: Byte, c3: Byte, c4: Byte, c5: Byte,
                                                  c6: Byte, c7: Byte, x: bv64,
                                                  d0: Byte, d1: Byte, d2: Byte, d3: Byte, d4: Byte, d5: Byte,
                                                  d6: Byte, d7: Byte, y: bv64)
    requires x == (c0 as bv64) | (c1 as bv64 << 8) | (c2 as bv64 << 16) | (c3 as bv64 << 24)
      | (c4 as bv64 << 32) | (c5 as bv64 << 40) | (c6 as bv64 << 48) | (c7 as bv64 << 56)
    requires y == (d0 as bv64) | (d1 as bv64 << 8) | (d2 as bv64 << 16) | (d3 as bv64 << 24)
      | (d4 as bv64 << 32) | (d5 as bv64 << 40) | (d6 as bv64 << 48) | (d7 as bv64 << 56)
    ensures x == y <==> c0 == d0 && c1 == d1 && c2 == d2 && c3 == d3 && c4 == d4 && c5 == d5 && c6 == d6 && c7 == d7
  {
  }

  method EqualWords(c0: Byte, c1: Byte, c2: Byte, c3: Byte, c4: Byte, c5: Byte, c6: Byte, c7: Byte,
                    d0: Byte, d1: Byte, d2: Byte, d3: Byte, d4: Byte, d5: Byte, d6: Byte, d7: Byte) returns (same: bool)
    ensures same <==> c0 == d0 && c1 == d1 && c2 == d2 && c3 == d3 && c4 == d4 && c5 == d5 && c6 == d6 && c7 == d7
  {
    var x := (c0 as bv64) | (c1 as bv64 << 8) | (c2 as bv64 << 16) | (c3 as bv64 << 24)
      | (c4 as bv64 << 32) | (c5 as bv64 << 40) | (c6 as bv64 << 48) | (c7 as bv64 << 56);
    var y := (d0 as bv64) | (d1 as bv64 << 8) | (d2 as bv64 << 16) | (d3 as bv64 << 24)
      | (d4 as bv64 << 32) | (d5 as bv64 << 40) | (d6 as bv64 << 48) | (d7 as bv64 << 56);
    same := x == y;
    WordEqualityIsBytewise(c0, c1, c2, c3, c4, c5, c6, c7, x, d0, d1, d2, d3, d4, d5, d6, d7, y);
  }

  /** The bytes a store of a filled word writes. */
  method BytesOf(w: bv64, ghost c: Byte)
    returns (c0: Byte, c1: Byte, c2: Byte, c3: Byte, c4: Byte, c5: Byte, c6: Byte, c7: Byte)
    requires Filled(w, c)
    ensures c0 == c && c1 == c && c2 == c && c3 == c && c4 == c && c5 == c && c6 == c && c7 == c
  {
    c0, c1, c2, c3 := (w & 0xFF) as Byte, ((w >> 8) & 0xFF) as Byte, ((w >> 16) & 0xFF) as Byte,
      ((w >> 24) & 0xFF) as Byte;
    c4, c5, c6, c7 := ((w >> 32) & 0xFF) as Byte, ((w >> 40) & 0xFF) as Byte, ((w >> 48) & 0xFF) as Byte,
      ((w >> 56) & 0xFF) as Byte;
  }

  // ---- Words in memory -----------------------------------------------------------------------------

  predicate Aligned(a: nat) {
    a % 8 == 0
  }

  /** The end of the aligned word that holds address a. */
  function WordEnd(a: nat): nat {
    a / 8 * 8 + 8
  }

  lemma {:induction false} AlignedSum(a: nat, k: nat)
    requires Aligned(a) && Aligned(k)
    ensures (a + k) % 8 == 0 && Aligned(k + 8)
  {
  }

  lemma {:induction false} WordEndMeaning(a: nat)
    ensures a < WordEnd(a) <= a + 8 && WordEnd(a) % 8 == 0
  {
  }

  /** DETECTNULL(*a); like every word access, at a multiple of eight. */
  method NullInWord(m: array<Byte>, a: nat) returns (hit: bool)
    requires a % 8 == 0 && a + 8 <= m.Length
    ensures hit <==> exists i :: a <= i < a + 8 && m[i] == 0
  {
    hit := DetectNull(m[a], m[a + 1], m[a + 2], m[a + 3], m[a + 4], m[a + 5], m[a + 6], m[a + 7]);
  }

  /** DETECTCHAR(*a, mask). */
  method CharInWord(m: array<Byte>, a: nat, mask: bv64, ghost c: Byte) returns (hit: bool)
    requires a % 8 == 0 && a + 8 <= m.Length && Filled(mask, c)
    ensures hit <==> exists i :: a <= i < a + 8 && m[i] == c
  {
    hit := DetectChar(m[a], m[a + 1], m[a + 2], m[a + 3], m[a + 4], m[a + 5], m[a + 6], m[a + 7], mask, c);
  }

  /** *p == *q. */
  method SameWord(m: array<Byte>, p: nat, q: nat) returns (same: bool)
    requires p % 8 == 0 && q % 8 == 0 && p + 8 <= m.Length && q + 8 <= m.Length
    ensures same <==> forall a :: p <= a < p + 8 ==> m[a] == m[q + (a - p)]
  {
    same := EqualWords(m[p], m[p + 1], m[p + 2], m[p + 3], m[p + 4], m[p + 5], m[p + 6], m[p + 7],
                       m[q], m[q + 1], m[q + 2], m[q + 3], m[q + 4], m[q + 5], m[q + 6], m[q + 7]);
    if forall a :: p <= a < p + 8 ==> m[a] == m[q + (a - p)] {
      assert m[p] == m[q + (p - p)] && m[p + 1] == m[q + (p + 1 - p)] && m[p + 2] == m[q + (p + 2 - p)];
    }
  }

  /** *d = *s: the whole word is read before any of it is written. */
  method CopyWord(m: array<Byte>, d: nat, s: nat)
    requires d % 8 == 0 && s % 8 == 0 && d + 8 <= m.Length && s + 8 <= m.Length
    modifies m
    ensures forall a :: 0 <= a < m.Length ==> m[a] == if d <= a < d + 8 then old(m[s + (a - d)]) else old(m[a])
  {
    forall i | 0 <= i < 8 {
      m[d + i] := m[s + i];
    }
  }

  /** *d = w. */
  method StoreFilled(m: array<Byte>, d: nat, w: bv64, ghost c: Byte)
    requires d % 8 == 0 && d + 8 <= m.Length && Filled(w, c)
    modifies m
    ensures forall a :: 0 <= a < m.Length ==> m[a] == if d <= a < d + 8 then c else old(m[a])
  {
    var c0, c1, c2, c3, c4, c5, c6, c7 := BytesOf(w, c);
    m[d], m[d + 1], m[d + 2], m[d + 3] := c0, c1, c2, c3;
    m[d + 4], m[d + 5], m[d + 6], m[d + 7] := c4, c5, c6, c7;
  }
}

/** The word-at-a-time memory routines of exosphere/src/my_libc.c, over one byte memory indexed by address. */
module Memory {
  import opened Words
  import opened Wrappers

  /** `n` bytes have moved from `src` to `dst`: the destination holds what the source held before, and nothing
      else changed. */
  ghost predicate Moved(was: seq<Byte>, m: array<Byte>, dst: nat, src: nat, n: nat)
    requires src + n <= |was| == m.Length
    reads m
  {
    forall a {:trigger m[a]} :: 0 <= a < m.Length ==>
      m[a] == if dst <= a < dst + n then was[src + (a - dst)] else was[a]
  }

  /** `n` bytes at `dst` have become c and nothing else changed. */
  ghost predicate Set(was: seq<Byte>, m: array<Byte>, dst: nat, n: nat, c: Byte)
    requires |was| == m.Length
    reads m
  {
    forall a :: 0 <= a < m.Length ==> m[a] == if dst <= a < dst + n then c else was[a]
  }

  /** One round of a forward word copy; the source word has not been overwritten yet. */
  method MoveWord(m: array<Byte>, dst: nat, src: nat, k: nat, ghost n: nat, ghost was: seq<Byte>)
    requires k + 8 <= n && dst + n <= m.Length && src + n <= m.Length == |was| && (dst <= src || src + n <= dst)
    requires Aligned(dst) && Aligned(src) && Aligned(k) && Moved(was, m, dst, src, k)
    modifies m
    ensures Moved(was, m, dst, src, k + 8) && Aligned(k + 8)
  {
    AlignedSum(dst, k);
    AlignedSum(src, k);
    CopyWord(m, dst + k, src + k);
  }

  /** One round of a forward byte copy. */
  method MoveByte(m: array<Byte>, dst: nat, src: nat, k: nat, ghost n: nat, ghost was: seq<Byte>) returns (c: Byte)
    requires k < n && dst + n <= m.Length && src + n <= m.Length == |was| && (dst <= src || src + n <= dst)
    requires Moved(was, m, dst, src, k)
    modifies m
    ensures Moved(was, m, dst, src, k + 1) && c == was[src + k]
  {
    c := m[src + k];
    assert c == was[src + k] == was[src + (dst + k - dst)];
    m[dst + k] := c;
  }

  /** The unrolled and the plain word loop. */
  method CopyWords(m: array<Byte>, dst: nat, src: nat, length: nat) returns (k: nat)
    requires Aligned(dst) && Aligned(src)
    requires dst + length <= m.Length && src + length <= m.Length && (dst <= src || src + length <= dst)
    modifies m
    ensures k <= length && Moved(old(m[..]), m, dst, src, k)
  {
    ghost var was := m[..];
    k := 0;
    while length - k >= 32
      invariant k <= length && Aligned(k) && Moved(was, m, dst, src, k)
    {
      MoveWord(m, dst, src, k, length, was);
      MoveWord(m, dst, src, k + 8, length, was);
      MoveWord(m, dst, src, k + 16, length, was);
      MoveWord(m, dst, src, k + 24, length, was);
      k := k + 32;
    }
    while length - k >= 8
      invariant k <= length && Aligned(k) && Moved(was, m, dst, src, k)
    {
      MoveWord(m, dst, src, k, length, was);
      k := k + 8;
    }
  }

  /** The copy that memcpy makes and memmove makes when going forward is safe. */
  method CopyForward(m: array<Byte>, dst: nat, src: nat, length: nat)
    requires dst + length <= m.Length && src + length <= m.Length && (dst <= src || src + length <= dst)
    modifies m
    ensures Moved(old(m[..]), m, dst, src, length)
  {
    ghost var was := m[..];
    var k: nat := 0;
    if length >= 32 && Aligned(src) && Aligned(dst) {
      k := CopyWords(m, dst, src, length);
    }
    while k < length
      invariant k <= length && Moved(was, m, dst, src, k)
    {
      var c := MoveByte(m, dst, src, k, length, was);
      k := k + 1;
    }
  }

  /** memmove: right for every overlap, alignment and length. */
  method Memmove(m: array<Byte>, dst: nat, src: nat, length: nat) returns (r: nat)
    requires dst + length <= m.Length && src + length <= m.Length
    modifies m
    ensures Moved(old(m[..]), m, dst, src, length) && r == dst
  {
    ghost var was := m[..];
    if src < dst < src + length {
      var rest: nat := length;
      while rest > 0
        invariant rest <= length
        invariant forall a {:trigger m[a]} :: 0 <= a < m.Length ==>
          m[a] == if dst + rest <= a < dst + length then was[src + (a - dst)] else was[a]
      {
        rest := rest - 1;
        assert m[src + rest] == was[src + rest] == was[src + (dst + rest - dst)];
        m[dst + rest] := m[src + rest];
      }
    } else {
      CopyForward(m, dst, src, length);
    }
    return dst;
  }

  /** memcpy, whose regions must not overlap. */
  method Memcpy(m: array<Byte>, dst: nat, src: nat, length: nat) returns (r: nat)
    requires dst + length <= m.Length && src + length <= m.Length
    requires dst + length <= src || src + length <= dst
    modifies m
    ensures Moved(old(m[..]), m, dst, src, length) && r == dst
  {
    CopyForward(m, dst, src, length);
    return dst;
  }

  method FillWord(m: array<Byte>, dst: nat, k: nat, w: bv64, ghost c: Byte, ghost was: seq<Byte>)
    requires Aligned(dst + k) && dst + k + 8 <= m.Length == |was| && Filled(w, c) && Set(was, m, dst, k, c)
    modifies m
    ensures Set(was, m, dst, k + 8, c) && Aligned(dst + (k + 8))
  {
    AlignedSum(0, dst + k);
    StoreFilled(m, dst + k, w, c);
  }

  /** One round of the unrolled loop. */
  method FillFour(m: array<Byte>, dst: nat, k: nat, w: bv64, ghost c: Byte, ghost was: seq<Byte>)
    requires Aligned(dst + k) && dst + k + 32 <= m.Length == |was| && Filled(w, c) && Set(was, m, dst, k, c)
    modifies m
    ensures Set(was, m, dst, k + 32, c) && Aligned(dst + (k + 32))
  {
    FillWord(m, dst, k, w, c, was);
    FillWord(m, dst, k + 8, w, c, was);
    FillWord(m, dst, k + 16, w, c, was);
    FillWord(m, dst, k + 24, w, c, was);
  }

  /** The word loops of memset, on a word-aligned address. */
  method SetWords(m: array<Byte>, dst: nat, from: nat, length: nat, c: Byte, ghost was: seq<Byte>) returns (k: nat)
    requires dst + length <= m.Length == |was| && from <= length && Aligned(dst + from) && Set(was, m, dst, from, c)
    modifies m
    ensures from <= k <= length && Set(was, m, dst, k, c)
  {
    k := from;
    var buffer := Spread(c);
    while length - k >= 32
      invariant from <= k <= length && Aligned(dst + k) && Set(was, m, dst, k, c)
    {
      FillFour(m, dst, k, buffer, c, was);
      k := k + 32;
    }
    while length - k >= 8
      invariant from <= k <= length && Aligned(dst + k) && Set(was, m, dst, k, c)
    {
      FillWord(m, dst, k, buffer, c, was);
      k := k + 8;
    }
  }

  /** memset. */
  method Memset(m: array<Byte>, dst: nat, c: Byte, length: nat) returns (r: nat)
    requires dst + length <= m.Length
    modifies m
    ensures Set(old(m[..]), m, dst, length, c) && r == dst
  {
    ghost var was := m[..];
    var k: nat := 0;
    while !Aligned(dst + k)
      invariant k <= length && Set(was, m, dst, k, c)
      decreases length - k
    {
      if k == length { return dst; }
      m[dst + k] := c;
      k := k + 1;
    }
    if length - k >= 8 {
      k := SetWords(m, dst, k, length, c, was);
    }
    while k < length
      invariant k <= length && Set(was, m, dst, k, c)
    {
      m[dst + k] := c;
      k := k + 1;
    }
    return dst;
  }

  /** The first occurrence of c in the addresses from lo up to hi, or none. */
  ghost predicate FirstOccurrence(m: seq<Byte>, lo: nat, hi: nat, c: Byte, r: Option<nat>)
    requires hi <= |m|
  {
    match r
    case None => forall a :: lo <= a < hi ==> m[a] != c
    case Some(p) => lo <= p < hi && m[p] == c && forall a :: lo <= a < p ==> m[a] != c
  }

  /** memchr. */
  method Memchr(m: array<Byte>, src: nat, c: Byte, length: nat) returns (r: Option<nat>)
    requires src + length <= m.Length
    ensures FirstOccurrence(m[..], src, src + length, c, r)
    ensures r.Some? ==> src <= r.value < src + length && m[r.value] == c && forall a :: src <= a < r.value ==> m[a] != c
    ensures r.None? ==> forall a :: src <= a < src + length ==> m[a] != c
  {
    var s: nat, n: nat := src, length;
    while !Aligned(s)
      invariant s + n == src + length && src <= s && forall a :: src <= a < s ==> m[a] != c
      decreases n
    {
      if n == 0 { return None; }
      n := n - 1;
      if m[s] == c { return Some(s); }
      s := s + 1;
    }
    if n >= 8 {
      var mask := Spread(c);
      while n >= 8
        invariant s + n == src + length && src <= s && s % 8 == 0 && forall a :: src <= a < s ==> m[a] != c
      {
        var hit := CharInWord(m, s, mask, c);
        if hit { break; }
        n := n - 8;
        s := s + 8;
      }
    }
    while n > 0
      invariant s + n == src + length && src <= s && forall a :: src <= a < s ==> m[a] != c
    {
      n := n - 1;
      if m[s] == c { return Some(s); }
      s := s + 1;
    }
    return None;
  }

  /** The first n bytes at p and q are the same. */
  ghost predicate Agree(m: seq<Byte>, p: nat, q: nat, n: nat)
    requires p + n <= |m| && q + n <= |m|
  {
    forall a :: p <= a < p + n ==> m[a] == m[q + (a - p)]
  }

  function Difference(x: Byte, y: Byte): int {
    (x as int) - (y as int)
  }

  lemma {:induction false} AgreeMore(m: seq<Byte>, p: nat, q: nat, i: nat, k: nat)
    requires p + i + k <= |m| && q + i + k <= |m|
    requires Agree(m, p, q, i) && Agree(m, p + i, q + i, k)
    ensures Agree(m, p, q, i + k)
  {
    forall a | p <= a < p + i + k
      ensures m[a] == m[q + (a - p)]
    {
      assert a >= p + i ==> m[a] == m[q + i + (a - (p + i))];
    }
  }

  /** Word equality extends agreement by a word. */
  method AgreeWord(m: array<Byte>, p: nat, q: nat, i: nat) returns (same: bool)
    requires Aligned(p) && Aligned(q) && Aligned(i)
    requires p + i + 8 <= m.Length && q + i + 8 <= m.Length && Agree(m[..], p, q, i)
    ensures same <==> Agree(m[..], p, q, i + 8)
  {
    AlignedSum(p, i);
    AlignedSum(q, i);
    same := SameWord(m, p + i, q + i);
    if same {
      AgreeMore(m[..], p, q, i, 8);
    } else {
      ghost var a :| p + i <= a < p + i + 8 && m[a] != m[q + i + (a - (p + i))];
      assert m[..][a] != m[..][q + (a - p)];
    }
  }

  /** The byte-at-a-time form of memcmp. */
  function ByteMemcmp(m: seq<Byte>, p: nat, q: nat, n: nat): int
    requires p + n <= |m| && q + n <= |m|
    decreases n
  {
    if n == 0 then 0 else if m[p] != m[q] then Difference(m[p], m[q]) else ByteMemcmp(m, p + 1, q + 1, n - 1)
  }

  lemma {:induction false} SkipAgreed(m: seq<Byte>, p: nat, q: nat, n: nat, i: nat)
    requires p + n <= |m| && q + n <= |m| && i <= n && Agree(m, p, q, i)
    ensures ByteMemcmp(m, p, q, n) == ByteMemcmp(m, p + i, q + i, n - i)
    decreases i
  {
    if i > 0 {
      assert m[p] == m[q + (p - p)];
      assert Agree(m, p + 1, q + 1, i - 1) by {
        forall a | p + 1 <= a < p + i
          ensures m[a] == m[q + 1 + (a - (p + 1))]
        {
          assert m[a] == m[q + (a - p)];
        }
      }
      SkipAgreed(m, p + 1, q + 1, n - 1, i - 1);
    }
  }

  /** The word loop of memcmp. */
  method SkipSameWords(m: array<Byte>, p: nat, q: nat, length: nat) returns (k: nat)
    requires Aligned(p) && Aligned(q) && p + length <= m.Length && q + length <= m.Length
    ensures k <= length && Agree(m[..], p, q, k)
  {
    k := 0;
    while length - k >= 8
      invariant k <= length && Aligned(k) && Agree(m[..], p, q, k)
    {
      var same := AgreeWord(m, p, q, k);
      if !same { return; }
      k := k + 8;
    }
  }

  /** memcmp returns what its byte-at-a-time form does. */
  method Memcmp(m: array<Byte>, p: nat, q: nat, length: nat) returns (r: int)
    requires p + length <= m.Length && q + length <= m.Length
    ensures r == ByteMemcmp(m[..], p, q, length)
  {
    var k: nat := 0;
    if length >= 8 && Aligned(p) && Aligned(q) {
      k := SkipSameWords(m, p, q, length);
      SkipAgreed(m[..], p, q, length, k);
    }
    while k < length
      invariant k <= length
      invariant ByteMemcmp(m[..], p, q, length) == ByteMemcmp(m[..], p + k, q + k, length - k)
    {
      if m[p + k] != m[q + k] {
        return Difference(m[p + k], m[q + k]);
      }
      k := k + 1;
    }
    return 0;
  }

  lemma {:induction false} FirstDifference(m: seq<Byte>, p: nat, q: nat, n: nat, from: nat) returns (i: nat)
    requires p + n <= |m| && q + n <= |m| && from <= n && Agree(m, p, q, from)
    ensures i <= n && Agree(m, p, q, i) && (i < n ==> m[p + i] != m[q + i])
    decreases n - from
  {
    if from == n || m[p + from] != m[q + from] {
      i := from;
    } else {
      i := FirstDifference(m, p, q, n, from + 1);
    }
  }

  /** It is the difference at the first place the regions differ, and zero when they do not. */
  lemma {:induction false} MemcmpMeaning(m: seq<Byte>, p: nat, q: nat, n: nat) returns (i: nat)
    requires p + n <= |m| && q + n <= |m|
    ensures i <= n && Agree(m, p, q, i) && (i < n ==> m[p + i] != m[q + i])
    ensures ByteMemcmp(m, p, q, n) == if i < n then (m[p + i] as int) - (m[q + i] as int) else 0
  {
    i := FirstDifference(m, p, q, n, 0);
    SkipAgreed(m, p, q, n, i);
  }
}

/** The word-at-a-time string routines of exosphere/src/my_libc.c. Each asks only that memory reaches the end of
    the aligned word that holds the terminator: they touch nothing past it. */
module Strings {
  import opened Words
  import opened Memory
  import opened Wrappers

  /** A string of `len` characters starts at s. */
  ghost predicate StringAt(m: seq<Byte>, s: nat, len: nat) {
    s + len < |m| && m[s + len] == 0 && NoNull(m, s, len)
  }

  ghost predicate NoNull(m: seq<Byte>, s: nat, len: nat)
    requires s + len <= |m|
  {
    forall a :: s <= a < s + len ==> m[a] != 0
  }

  /** At most n characters at s: `len` of them, ended by a terminator or by n. */
  ghost predicate Ends(m: seq<Byte>, s: nat, n: nat, len: nat) {
    && len <= n && s + len <= |m| && NoNull(m, s, len)
    && (len < n ==> s + len < |m| && m[s + len] == 0)
  }

  /** Memory reaches the end of the word that holds the terminator, if there is one before n. */
  ghost predicate Reaches(m: array<Byte>, s: nat, n: nat, len: nat) {
    len < n ==> WordEnd(s + len) <= m.Length
  }

  /** The scan for the terminator: bytes up to a word boundary, words, then bytes. */
  method FindNull(m: array<Byte>, s: nat, ghost len: nat) returns (e: nat)
    requires StringAt(m[..], s, len) && WordEnd(s + len) <= m.Length
    ensures e == s + len
  {
    e := s;
    while !Aligned(e)
      invariant s <= e <= s + len
      decreases s + len - e
    {
      if m[e] == 0 { return; }
      e := e + 1;
    }
    var hit := NullInWord(m, e);
    while !hit
      invariant s <= e <= s + len && Aligned(e)
      invariant hit <==> exists i :: e <= i < e + 8 && m[i] == 0
      decreases s + len + 8 - e, !hit
    {
      e := e + 8;
      hit := NullInWord(m, e);
    }
    while m[e] != 0
      invariant s <= e <= s + len
      decreases s + len - e
    {
      e := e + 1;
    }
  }

  /** strlen. */
  method Strlen(m: array<Byte>, s: nat, ghost len: nat) returns (n: nat)
    requires StringAt(m[..], s, len) && WordEnd(s + len) <= m.Length
    ensures n == len
  {
    var e := FindNull(m, s, len);
    return e - s;
  }

  /** strchr: the terminator counts as part of the string. */
  method Strchr(m: array<Byte>, s: nat, c: Byte, ghost len: nat) returns (r: Option<nat>)
    requires StringAt(m[..], s, len) && WordEnd(s + len) <= m.Length
    ensures FirstOccurrence(m[..], s, s + len + 1, c, r)
    ensures r.Some? ==> s <= r.value <= s + len && m[r.value] == c && forall a :: s <= a < r.value ==> m[a] != c
    ensures r.None? ==> forall a :: s <= a <= s + len ==> m[a] != c
  {
    if c == 0 {
      var e := FindNull(m, s, len);
      return Some(e);
    }
    var e := s;
    while !Aligned(e)
      invariant s <= e <= s + len && forall a :: s <= a < e ==> m[a] != c
      decreases s + len - e
    {
      if m[e] == 0 { return None; }
      if m[e] == c { return Some(e); }
      e := e + 1;
    }
    var mask := Spread(c);
    e := SkipWords(m, s, e, mask, c, len);
    while m[e] != 0 && m[e] != c
      invariant s <= e <= s + len && forall a :: s <= a < e ==> m[a] != c
      decreases s + len - e
    {
      e := e + 1;
    }
    return if m[e] == c then Some(e) else None;
  }

  /** Words with neither a terminator nor c are passed over. */
  method SkipWords(m: array<Byte>, s: nat, from: nat, mask: bv64, ghost c: Byte, ghost len: nat) returns (e: nat)
    requires StringAt(m[..], s, len) && WordEnd(s + len) <= m.Length
    requires s <= from <= s + len && Aligned(from) && Filled(mask, c)
    requires forall a :: s <= a < from ==> m[a] != c
    ensures s <= e <= s + len && forall a :: s <= a < e ==> m[a] != c
  {
    e := from;
    while true
      invariant s <= e <= s + len && Aligned(e) && forall a :: s <= a < e ==> m[a] != c
      decreases s + len - e
    {
      var ends := NullInWord(m, e);
      if ends { return; }
      var hit := CharInWord(m, e, mask, c);
      if hit { return; }
      e := e + 8;
    }
  }

  lemma {:induction false} AgreeAt(m: seq<Byte>, p: nat, q: nat, n: nat, j: nat)
    requires p + n <= |m| && q + n <= |m| && Agree(m, p, q, n) && j < n
    ensures m[p + j] == m[q + j]
  {
    assert m[p + j] == m[q + (p + j - p)];
  }

  /** Strings that agree past the end of the first end together. */
  lemma {:induction false} EqualStrings(m: seq<Byte>, p: nat, q: nat, n: nat, len1: nat, len2: nat, c: nat)
    requires Ends(m, p, n, len1) && Ends(m, q, n, len2) && c <= n && p + c <= |m| && q + c <= |m|
    requires Agree(m, p, q, c) && !NoNull(m, p, c)
    ensures len1 == len2 < c && Agree(m, p, q, len1)
  {
    AgreeAt(m, p, q, c, len1);
    AgreeAt(m, p, q, c, if len2 < len1 then len2 else len1);
  }

  /** Strings that agree on c bytes without a terminator are both at least that long. */
  lemma {:induction false} LongerThan(m: seq<Byte>, p: nat, q: nat, n: nat, len1: nat, len2: nat, c: nat)
    requires Ends(m, p, n, len1) && Ends(m, q, n, len2) && c <= n && p + c <= |m| && q + c <= |m|
    requires Agree(m, p, q, c) && NoNull(m, p, c)
    ensures c <= len1 && c <= len2
  {
    if c > 0 {
      AgreeAt(m, p, q, c, if len2 < c then len2 else c - 1);
    }
  }

  /** One round of the word loops of strcmp and strncmp: stop at a difference or at the end, or go on. */
  method CompareWord(m: array<Byte>, p: nat, q: nat, k: nat, ghost n: nat, ghost len1: nat, ghost len2: nat)
    returns (same: bool, ends: bool)
    requires Aligned(p) && Aligned(q) && Aligned(k)
    requires Ends(m[..], p, n, len1) && Ends(m[..], q, n, len2) && k + 8 <= n
    requires p + k + 8 <= m.Length && q + k + 8 <= m.Length && Agree(m[..], p, q, k) && NoNull(m[..], p, k)
    ensures same && ends ==> len1 == len2 < k + 8 && Agree(m[..], p, q, len1)
    ensures same && !ends ==>
      k + 8 <= len1 && k + 8 <= len2 && Agree(m[..], p, q, k + 8) && NoNull(m[..], p, k + 8)
  {
    ends := false;
    same := AgreeWord(m, p, q, k);
    if same {
      AlignedSum(p, k);
      ends := NullInWord(m, p + k);
      if ends {
        ghost var a :| p + k <= a < p + k + 8 && m[a] == 0;
        assert m[..][a] == 0;
        EqualStrings(m[..], p, q, n, len1, len2, k + 8);
      } else {
        LongerThan(m[..], p, q, n, len1, len2, k + 8);
      }
    }
  }

  lemma {:induction false} WordFits(p: nat, k: nat, len: nat)
    requires Aligned(p) && Aligned(k) && k <= len
    ensures p + k + 8 <= WordEnd(p + len)
  {
  }

  lemma {:induction false} WordInReach(length: nat, s: nat, n: nat, len: nat, k: nat)
    requires Aligned(s) && Aligned(k) && k + 8 <= n && k <= len <= n
    requires s + len <= length && (len < n ==> WordEnd(s + len) <= length)
    ensures s + k + 8 <= length
  {
    if len < n {
      WordFits(s, k, len);
    }
  }

  /** The word loop of strcmp. */
  method CompareWords(m: array<Byte>, p: nat, q: nat, ghost len1: nat, ghost len2: nat) returns (ends: bool, k: nat)
    requires StringAt(m[..], p, len1) && WordEnd(p + len1) <= m.Length
    requires StringAt(m[..], q, len2) && WordEnd(q + len2) <= m.Length
    requires Aligned(p) && Aligned(q)
    ensures ends ==> len1 == len2 && Agree(m[..], p, q, len1)
    ensures k <= len1 && k <= len2 && Agree(m[..], p, q, k)
  {
    k := 0;
    while true
      invariant k <= len1 && k <= len2 && Aligned(k) && Agree(m[..], p, q, k) && NoNull(m[..], p, k)
      decreases len1 - k
    {
      WordFits(p, k, len1);
      WordFits(q, k, len2);
      var same;
      same, ends := CompareWord(m, p, q, k, len1 + len2 + 8, len1, len2);
      if !same || ends { return same && ends, k; }
      k := k + 8;
    }
  }

  /** The byte loop of strcmp, from a place where the strings still agree. */
  method CompareBytes(m: array<Byte>, p: nat, q: nat, from: nat, ghost len1: nat, ghost len2: nat) returns (i: nat)
    requires StringAt(m[..], p, len1) && StringAt(m[..], q, len2)
    requires from <= len1 && from <= len2 && Agree(m[..], p, q, from)
    ensures i <= len1 && i <= len2 && Agree(m[..], p, q, i) && (m[p + i] == 0 || m[p + i] != m[q + i])
  {
    i := from;
    while m[p + i] != 0 && m[p + i] == m[q + i]
      invariant i <= len1 && i <= len2 && Agree(m[..], p, q, i)
      decreases len1 - i
    {
      i := i + 1;
    }
  }

  /** The byte-at-a-time form of strncmp; with n past the end of the first string, that of strcmp. */
  function ByteStrncmp(m: seq<Byte>, p: nat, q: nat, n: nat): int
    decreases n
  {
    if n == 0 || p >= |m| || q >= |m| then 0
    else if m[p] == 0 || m[p] != m[q] then Difference(m[p], m[q])
    else ByteStrncmp(m, p + 1, q + 1, n - 1)
  }

  /** Where strings agree and none has ended, the comparison goes on. */
  lemma {:induction false} GoesOn(m: seq<Byte>, p: nat, q: nat, n: nat, i: nat)
    requires i <= n && p + i <= |m| && q + i <= |m| && Agree(m, p, q, i) && NoNull(m, p, i)
    ensures ByteStrncmp(m, p, q, n) == ByteStrncmp(m, p + i, q + i, n - i)
    decreases i
  {
    if i > 0 {
      AgreeAt(m, p, q, i, 0);
      assert Agree(m, p + 1, q + 1, i - 1) by {
        forall a | p + 1 <= a < p + i
          ensures m[a] == m[q + 1 + (a - (p + 1))]
        {
          assert m[a] == m[q + (a - p)];
        }
      }
      GoesOn(m, p + 1, q + 1, n - 1, i - 1);
    }
  }

  lemma {:induction false} StopsHere(m: seq<Byte>, p: nat, q: nat, n: nat, i: nat)
    requires i <= n && p + i <= |m| && q + i <= |m| && Agree(m, p, q, i) && NoNull(m, p, i)
    requires i < n ==> p + i < |m| && q + i < |m| && (m[p + i] == 0 || m[p + i] != m[q + i])
    ensures ByteStrncmp(m, p, q, n) == if i < n then (m[p + i] as int) - (m[q + i] as int) else 0
  {
    GoesOn(m, p, q, n, i);
  }

  /** strcmp returns what its byte-at-a-time form does, for every content and alignment. */
  method Strcmp(m: array<Byte>, p: nat, q: nat, ghost len1: nat, ghost len2: nat) returns (r: int)
    requires StringAt(m[..], p, len1) && WordEnd(p + len1) <= m.Length
    requires StringAt(m[..], q, len2) && WordEnd(q + len2) <= m.Length
    ensures r == ByteStrncmp(m[..], p, q, len1 + 1)
  {
    var k: nat := 0;
    if Aligned(p) && Aligned(q) {
      var ends;
      ends, k := CompareWords(m, p, q, len1, len2);
      if ends {
        StopsHere(m[..], p, q, len1 + 1, len1);
        return 0;
      }
    }
    k := CompareBytes(m, p, q, k, len1, len2);
    StopsHere(m[..], p, q, len1 + 1, k);
    return Difference(m[p + k], m[q + k]);
  }

  /** The word loop of strncmp; `done` says that the result is zero. */
  method CompareWordsUpTo(m: array<Byte>, p: nat, q: nat, n: nat, ghost len1: nat, ghost len2: nat)
    returns (done: bool, k: nat, ghost i: nat)
    requires Ends(m[..], p, n, len1) && Reaches(m, p, n, len1) && Ends(m[..], q, n, len2) && Reaches(m, q, n, len2)
    requires Aligned(p) && Aligned(q) && n > 0
    ensures done ==> i <= len1 && i <= len2 && Agree(m[..], p, q, i) && (i < n ==> len1 == i == len2)
    ensures !done ==> k < n && k <= len1 && k <= len2 && Agree(m[..], p, q, k)
  {
    k, i := 0, 0;
    while n - k >= 8
      invariant k < n && k <= len1 && k <= len2 && Aligned(k) && Agree(m[..], p, q, k) && NoNull(m[..], p, k)
      decreases n - k
    {
      WordInReach(m.Length, p, n, len1, k);
      WordInReach(m.Length, q, n, len2, k);
      var same, ends := CompareWord(m, p, q, k, n, len1, len2);
      if !same { return false, k, 0; }
      if ends { return true, k, len1; }
      if k + 8 == n { return true, k, n; }
      k := k + 8;
    }
    return false, k, 0;
  }

  /** The byte loop of strncmp. */
  method CompareBytesUpTo(m: array<Byte>, p: nat, q: nat, from: nat, n: nat, ghost len1: nat, ghost len2: nat)
    returns (i: nat, differ: bool)
    requires Ends(m[..], p, n, len1) && Ends(m[..], q, n, len2)
    requires from < n && from <= len1 && from <= len2 && Agree(m[..], p, q, from)
    ensures i <= len1 && i <= len2 && Agree(m[..], p, q, i)
    ensures if differ then i < n && m[p + i] != m[q + i] else i < n ==> m[p + i] == 0 == m[q + i]
  {
    i := from;
    while m[p + i] == m[q + i]
      invariant i < n && i <= len1 && i <= len2 && Agree(m[..], p, q, i)
      decreases n - i
    {
      if m[p + i] == 0 { return i, false; }
      i := i + 1;
      if i == n { return i, false; }
    }
    differ := true;
  }

  /** strncmp returns what its byte-at-a-time form does; the strings need not end within n. */
  method Strncmp(m: array<Byte>, p: nat, q: nat, n: nat, ghost len1: nat, ghost len2: nat) returns (r: int)
    requires Ends(m[..], p, n, len1) && Reaches(m, p, n, len1) && Ends(m[..], q, n, len2) && Reaches(m, q, n, len2)
    ensures r == ByteStrncmp(m[..], p, q, n)
  {
    if n == 0 { return 0; }
    var k: nat := 0;
    if Aligned(p) && Aligned(q) {
      var done;
      ghost var at;
      done, k, at := CompareWordsUpTo(m, p, q, n, len1, len2);
      if done {
        StopsHere(m[..], p, q, n, at);
        return 0;
      }
    }
    var differ;
    k, differ := CompareBytesUpTo(m, p, q, k, n, len1, len2);
    StopsHere(m[..], p, q, n, k);
    return if differ then Difference(m[p + k], m[q + k]) else 0;
  }

  // ---- Copying strings ------------------------------------------------------------------------------

  /** The word loop of strcpy. */
  method CopyStringWords(m: array<Byte>, dst: nat, src: nat, ghost len: nat) returns (k: nat)
    requires StringAt(m[..], src, len) && WordEnd(src + len) <= m.Length && dst + len + 1 <= m.Length
    requires dst + len + 1 <= src || src + len + 1 <= dst
    requires Aligned(src) && Aligned(dst)
    modifies m
    ensures k <= len && Moved(old(m[..]), m, dst, src, k)
  {
    ghost var was := m[..];
    k := 0;
    while true
      invariant k <= len && Aligned(k) && Moved(was, m, dst, src, k)
      decreases len - k
    {
      WordFits(src, k, len);
      AlignedSum(src, k);
      var hit := NullInWord(m, src + k);
      if hit { return; }
      assert m[src + len] == was[src + len] == 0;
      MoveWord(m, dst, src, k, len, was);
      k := k + 8;
    }
  }

  /** The byte loop of strcpy: it copies the terminator and stops. */
  method CopyStringBytes(m: array<Byte>, dst: nat, src: nat, from: nat, ghost len: nat, ghost was: seq<Byte>)
    requires |was| == m.Length && StringAt(was, src, len) && dst + len + 1 <= m.Length && from <= len
    requires dst + len + 1 <= src || src + len + 1 <= dst
    requires Moved(was, m, dst, src, from)
    modifies m
    ensures Moved(was, m, dst, src, len + 1)
  {
    var k := from;
    while true
      invariant k <= len && Moved(was, m, dst, src, k)
      decreases len - k
    {
      var c := MoveByte(m, dst, src, k, len + 1, was);
      if c == 0 { return; }
      k := k + 1;
    }
  }

  /** strcpy: the string and its terminator arrive, nothing else changes. */
  method Strcpy(m: array<Byte>, dst: nat, src: nat, ghost len: nat) returns (r: nat)
    requires StringAt(m[..], src, len) && WordEnd(src + len) <= m.Length && dst + len + 1 <= m.Length
    requires dst + len + 1 <= src || src + len + 1 <= dst
    modifies m
    ensures Moved(old(m[..]), m, dst, src, len + 1) && r == dst
  {
    ghost var was := m[..];
    var k: nat := 0;
    if Aligned(src) && Aligned(dst) {
      k := CopyStringWords(m, dst, src, len);
    }
    CopyStringBytes(m, dst, src, k, len, was);
    return dst;
  }

  /** The memory after a counted copy: `len` characters, then zeros up to `n`. */
  ghost predicate Padded(was: seq<Byte>, m: array<Byte>, dst: nat, src: nat, len: nat, n: nat)
    requires src + len <= |was| == m.Length
    reads m
  {
    forall a {:trigger m[a]} :: 0 <= a < m.Length ==>
      m[a] == if dst <= a < dst + len then was[src + (a - dst)] else if dst <= a < dst + n then 0 else was[a]
  }

  /** The word loop of strncpy. */
  method CopyWordsUpTo(m: array<Byte>, dst: nat, src: nat, n: nat, ghost len: nat) returns (k: nat)
    requires Ends(m[..], src, n, len) && Reaches(m, src, n, len) && dst + n <= m.Length
    requires dst + n <= src || src + (if len < n then len + 1 else n) <= dst
    requires Aligned(src) && Aligned(dst)
    modifies m
    ensures k <= len && Moved(old(m[..]), m, dst, src, k)
  {
    ghost var was := m[..];
    k := 0;
    while n - k >= 8
      invariant k <= len && Aligned(k) && Moved(was, m, dst, src, k)
      decreases n - k
    {
      WordInReach(m.Length, src, n, len, k);
      AlignedSum(src, k);
      var hit := NullInWord(m, src + k);
      if hit { return; }
      assert len < n ==> was[src + len] == 0 && m[src + len] == was[src + len];
      MoveWord(m, dst, src, k, len, was);
      k := k + 8;
    }
  }

  /** The byte loop of strncpy: it ends at the terminator, which it copies, or at n. */
  method CopyBytesUpTo(m: array<Byte>, dst: nat, src: nat, n: nat, from: nat, ghost len: nat, ghost was: seq<Byte>)
    returns (k: nat)
    requires |was| == m.Length && Ends(was, src, n, len) && dst + n <= m.Length && from <= len
    requires dst + n <= src || src + (if len < n then len + 1 else n) <= dst
    requires Moved(was, m, dst, src, from)
    modifies m
    ensures k == (if len < n then len + 1 else n) && Moved(was, m, dst, src, k)
  {
    k := from;
    while k < n
      invariant k <= len && Moved(was, m, dst, src, k)
      decreases n - k
    {
      var c := MoveByte(m, dst, src, k, if len < n then len + 1 else n, was);
      k := k + 1;
      if c == 0 { return; }
    }
  }

  /** The padding loop of strncpy. */
  method ZeroUpTo(m: array<Byte>, dst: nat, src: nat, n: nat, from: nat, ghost len: nat, ghost was: seq<Byte>)
    requires |was| == m.Length && src + len <= |was| && len <= from <= n && dst + n <= m.Length
    requires Padded(was, m, dst, src, len, from)
    modifies m
    ensures Padded(was, m, dst, src, len, n)
  {
    for k := from to n
      invariant Padded(was, m, dst, src, len, k)
    {
      m[dst + k] := 0;
    }
  }

  /** strncpy. */
  method Strncpy(m: array<Byte>, dst: nat, src: nat, n: nat, ghost len: nat) returns (r: nat)
    requires Ends(m[..], src, n, len) && Reaches(m, src, n, len) && dst + n <= m.Length
    requires dst + n <= src || src + (if len < n then len + 1 else n) <= dst
    modifies m
    ensures Padded(old(m[..]), m, dst, src, len, n) && r == dst
    ensures forall a :: dst <= a < dst + len ==> m[a] == old(m[src + (a - dst)])
    ensures forall a :: dst + len <= a < dst + n ==> m[a] == 0
  {
    ghost var was := m[..];
    var k: nat := 0;
    if Aligned(src) && Aligned(dst) && n >= 8 {
      k := CopyWordsUpTo(m, dst, src, n, len);
    }
    k := CopyBytesUpTo(m, dst, src, n, k, len, was);
    assert Padded(was, m, dst, src, len, k);
    ZeroUpTo(m, dst, src, n, k, len, was);
    return dst;
  }

  // ---- The order the comparison results name --------------------------------------------------------

  /** Lexicographic order of byte strings. */
  predicate Before(s: seq<Byte>, t: seq<Byte>) {
    t != [] && (s == [] || s[0] < t[0] || (s[0] == t[0] && Before(s[1..], t[1..])))
  }

  lemma {:induction false} CommonPrefix(s: seq<Byte>, t: seq<Byte>, i: nat)
    requires i <= |s| && i <= |t| && s[..i] == t[..i]
    ensures Before(s, t) <==> Before(s[i..], t[i..])
  {
    if i > 0 {
      assert s[0] == s[..i][0] && t[0] == t[..i][0];
      assert s[1..][..i - 1] == s[..i][1..] && t[1..][..i - 1] == t[..i][1..];
      CommonPrefix(s[1..], t[1..], i - 1);
      assert s[1..][i - 1..] == s[i..] && t[1..][i - 1..] == t[i..];
    } else {
      assert s[0..] == s && t[0..] == t;
    }
  }

  lemma {:induction false} SignOfDifference(x: Byte, y: Byte)
    ensures Difference(x, y) < 0 <==> x < y
    ensures Difference(x, y) == 0 <==> x == y
  {
  }

  /** Where the comparison of two strings stops. */
  lemma {:induction false} StopOf(m: seq<Byte>, p: nat, q: nat, n: nat, len1: nat, len2: nat, from: nat)
    returns (i: nat)
    requires Ends(m, p, n, len1) && Ends(m, q, n, len2) && from <= len1 && from <= len2 && Agree(m, p, q, from)
    ensures i <= len1 && i <= len2 && Agree(m, p, q, i) && (i < n ==> m[p + i] == 0 || m[p + i] != m[q + i])
    decreases n - from
  {
    if from == n || m[p + from] == 0 || m[p + from] != m[q + from] {
      i := from;
    } else {
      i := StopOf(m, p, q, n, len1, len2, from + 1);
    }
  }

  /** strcmp and strncmp return zero exactly on equal strings, a negative number exactly when the first comes
      before the second in lexicographic order; for strcmp n is one more than the first length. */
  lemma {:induction false} ComparisonOrders(m: seq<Byte>, p: nat, q: nat, n: nat, len1: nat, len2: nat)
    requires Ends(m, p, n, len1) && Ends(m, q, n, len2)
    ensures var r, s, t := ByteStrncmp(m, p, q, n), m[p..p + len1], m[q..q + len2];
      (r == 0 <==> s == t) && (r < 0 <==> Before(s, t))
  {
    var i := StopOf(m, p, q, n, len1, len2, 0);
    StopsHere(m, p, q, n, i);
    StopOrders(m, p, q, n, len1, len2, i, ByteStrncmp(m, p, q, n));
  }

  lemma {:induction false} StopOrders(m: seq<Byte>, p: nat, q: nat, n: nat, len1: nat, len2: nat, i: nat, r: int)
    requires Ends(m, p, n, len1) && Ends(m, q, n, len2) && i <= len1 && i <= len2
    requires Agree(m, p, q, i) && (i < n ==> m[p + i] == 0 || m[p + i] != m[q + i])
    requires r == if i < n then Difference(m[p + i], m[q + i]) else 0
    ensures var s, t := m[p..p + len1], m[q..q + len2];
      (r == 0 <==> s == t) && (r < 0 <==> Before(s, t))
  {
    var s, t := m[p..p + len1], m[q..q + len2];
    assert s[..i] == t[..i] by {
      forall j | 0 <= j < i ensures s[j] == t[j] {
        AgreeAt(m, p, q, i, j);
      }
    }
    CommonPrefix(s, t, i);
    if i < n {
      SignOfDifference(m[p + i], m[q + i]);
      assert i < len1 ==> s[i] == m[p + i] && s[i..][0] == s[i];
      assert i < len2 ==> t[i] == m[q + i] && t[i..][0] == t[i];
    }
    assert i == len1 && i == len2 ==> s == s[..i] && t == t[..i];
  }
}

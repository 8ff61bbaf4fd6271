/** MGF1, RSAES-OAEP decoding (exosphere/src/titlekey.c) and EMSA-PSS verification
    (exosphere/src/se.c) over an abstract 32-byte hash. The code unmasks the message buffer in place.
 */
module RsaEncodings {
  import opened Bits
  import opened Wrappers

  type Digest = d: seq<Byte> | |d| == 32 witness seq<Byte>(32, _ => Zeros(8))
  type Hash = seq<Byte> -> Digest

  const B01: Byte := [false, false, false, false, false, false, false, true]
  const BBC: Byte := [true, false, true, true, true, true, false, false]

  lemma {:induction false} XorBytesTwice(a: seq<Byte>, b: seq<Byte>)
    requires |a| == |b|
    ensures XorBytes(XorBytes(a, b), b) == a
  {
    forall k | 0 <= k < |a| ensures XorBytes(XorBytes(a, b), b)[k] == a[k] {
      XorCancels(a[k], b[k]);
    }
  }

  // ---- MGF1 ----------------------------------------------------------------------------------------

  /** I2OSP(c, 4). */
  function Be32(c: nat): (r: seq<Byte>)
    ensures |r| == 4
  {
    Split(NatBits(c, 32))
  }

  /** The concatenation T after c rounds (section B.2.1 of RFC 8017). */
  function MgfRounds(hash: Hash, seed: seq<Byte>, c: nat): (r: seq<Byte>)
    ensures |r| == 32 * c
  {
    if c == 0 then [] else MgfRounds(hash, seed, c - 1) + hash(seed + Be32(c - 1))
  }

  /** Byte k of the mask. */
  function MaskByte(hash: Hash, seed: seq<Byte>, k: nat): Byte {
    hash(seed + Be32(k / 32))[k % 32]
  }

  function Mgf1(hash: Hash, seed: seq<Byte>, n: nat): (r: seq<Byte>)
    ensures |r| == n && forall k :: 0 <= k < n ==> r[k] == MaskByte(hash, seed, k)
  {
    seq<Byte>(n, k requires 0 <= k < n => MaskByte(hash, seed, k))
  }

  lemma {:induction false} MgfRoundsAt(hash: Hash, seed: seq<Byte>, c: nat, k: nat)
    requires k < 32 * c
    ensures MgfRounds(hash, seed, c)[k] == MaskByte(hash, seed, k)
  {
    if k < 32 * (c - 1) {
      MgfRoundsAt(hash, seed, c - 1, k);
    } else {
      assert k / 32 == c - 1 && k % 32 == k - 32 * (c - 1);
    }
  }

  /** The mask is the leading n octets of T, as the standard defines it. */
  lemma {:induction false} Mgf1IsStandard(hash: Hash, seed: seq<Byte>, n: nat)
    ensures n <= 32 * ((n + 31) / 32)
    ensures Mgf1(hash, seed, n) == MgfRounds(hash, seed, (n + 31) / 32)[..n]
    ensures forall k :: 0 <= k < n ==> Mgf1(hash, seed, n)[k] == hash(seed + Split(NatBits(k / 32, 32)))[k % 32]
  {
    forall k | 0 <= k < n ensures Mgf1(hash, seed, n)[k] == MgfRounds(hash, seed, (n + 31) / 32)[k] {
      MgfRoundsAt(hash, seed, (n + 31) / 32, k);
    }
  }

  /** The buffer is unchanged except that its bytes off to off + n were XORed with the mask. */
  ghost predicate Masked(before: seq<Byte>, after: seq<Byte>, off: nat, n: nat, hash: Hash, seed: seq<Byte>) {
    && |after| == |before| && off + n <= |before|
    && forall i :: 0 <= i < |before| ==>
         after[i] == if off <= i < off + n then XorByte(before[i], MaskByte(hash, seed, i - off)) else before[i]
  }

  /** XOR up to 32 bytes of a digest into the buffer. */
  method XorDigest(buf: array<Byte>, at: nat, n: nat, digest: Digest)
    requires n <= 32 && at + n <= buf.Length
    modifies buf
    ensures forall i :: 0 <= i < buf.Length ==>
              buf[i] == if at <= i < at + n then XorByte(old(buf[i]), digest[i - at]) else old(buf[i])
  {
    for k := 0 to n
      invariant forall i :: 0 <= i < buf.Length ==>
                  buf[i] == if at <= i < at + k then XorByte(old(buf[i]), digest[i - at]) else old(buf[i])
    {
      buf[at + k] := XorByte(buf[at + k], digest[k]);
    }
  }

  lemma {:induction false} MaskedMore(before: seq<Byte>, mid: seq<Byte>, after: seq<Byte>, off: nat, c: nat, n: nat,
                                      hash: Hash,
                                      seed: seq<Byte>)
    requires n <= 32 && Masked(before, mid, off, 32 * c, hash, seed)
    requires |after| == |mid| && off + 32 * c + n <= |before|
    requires var digest := hash(seed + Be32(c));
      forall i :: 0 <= i < |mid| ==>
        after[i] == if off + 32 * c <= i < off + 32 * c + n then XorByte(mid[i], digest[i - (off + 32 * c)]) else mid[i]
    ensures Masked(before, after, off, 32 * c + n, hash, seed)
  {
    forall k: nat | 32 * c <= k < 32 * c + n ensures MaskByte(hash, seed, k) == hash(seed + Be32(c))[k - 32 * c] {
      assert k / 32 == c && k % 32 == k - 32 * c;
    }
  }

  /** calculate_mgf1_and_xor: panics on a seed of 0xE0 bytes or more, else XORs the mask in place. */
  method MgfAndXor(buf: array<Byte>, off: nat, size: nat, seed: seq<Byte>, hash: Hash) returns (panic: bool)
    requires off + size <= buf.Length
    modifies buf
    ensures panic <==> |seed| >= 0xE0
    ensures panic ==> buf[..] == old(buf[..])
    ensures !panic ==> Masked(old(buf[..]), buf[..], off, size, hash, seed)
  {
    if |seed| >= 0xE0 { return true; }
    panic := false;
    ghost var before := buf[..];
    var remaining := size;
    var roundNum := 0;
    while remaining != 0
      invariant 0 <= remaining <= size
      invariant remaining == 0 || remaining == size - 32 * roundNum
      invariant Masked(before, buf[..], off, size - remaining, hash, seed)
    {
      var cur := if remaining > 0x20 then 0x20 else remaining;
      ghost var mid := buf[..];
      XorDigest(buf, off + 32 * roundNum, cur, hash(seed + Be32(roundNum)));
      MaskedMore(before, mid, buf[..], off, roundNum, cur, hash, seed);
      roundNum := roundNum + 1;
      remaining := remaining - cur;
    }
  }

  lemma {:induction false} MaskedSlices(before: seq<Byte>, after: seq<Byte>, off: nat, n: nat, hash: Hash,
                                        seed: seq<Byte>)
    requires Masked(before, after, off, n, hash, seed)
    ensures after[..off] == before[..off] && after[off + n..] == before[off + n..]
    ensures after[off..off + n] == XorBytes(before[off..off + n], Mgf1(hash, seed, n))
  {
  }

  // ---- OAEP ----------------------------------------------------------------------------------------

  const EM_SIZE: nat := 0x100
  const DB_SIZE: nat := 0xDF
  const REST_SIZE: nat := 0xBF // what follows the label hash in DB

  /** PS || 01 || M of RSAES-OAEP (section 7.1.1 of RFC 8017). */
  function PadMessage(m: seq<Byte>): (r: seq<Byte>)
    requires |m| < REST_SIZE
    ensures |r| == REST_SIZE
  {
    ZeroBytes(REST_SIZE - 1 - |m|) + [B01] + m
  }

  /** Masking of seed and DB. */
  function OaepMask(hash: Hash, seed: seq<Byte>, db: seq<Byte>): (em: seq<Byte>)
    requires |seed| == 32 && |db| == DB_SIZE
    ensures |em| == EM_SIZE
  {
    var maskedDb := XorBytes(db, Mgf1(hash, seed, DB_SIZE));
    [ZERO_BYTE] + XorBytes(seed, Mgf1(hash, maskedDb, 32)) + maskedDb
  }

  function OaepEncode(hash: Hash, seed: seq<Byte>, lHash: Digest, m: seq<Byte>): (em: seq<Byte>)
    requires |seed| == 32 && |m| < REST_SIZE
    ensures |em| == EM_SIZE
  {
    OaepMask(hash, seed, lHash + PadMessage(m))
  }

  function OaepSeed(hash: Hash, em: seq<Byte>): (r: seq<Byte>)
    requires |em| == EM_SIZE
    ensures |r| == 32
  {
    XorBytes(em[1..0x21], Mgf1(hash, em[0x21..], 32))
  }

  function OaepDb(hash: Hash, em: seq<Byte>): (r: seq<Byte>)
    requires |em| == EM_SIZE
    ensures |r| == DB_SIZE
  {
    XorBytes(em[0x21..], Mgf1(hash, OaepSeed(hash, em), DB_SIZE))
  }

  lemma {:induction false} UnmaskMask(hash: Hash, seed: seq<Byte>, db: seq<Byte>)
    requires |seed| == 32 && |db| == DB_SIZE
    ensures OaepSeed(hash, OaepMask(hash, seed, db)) == seed
    ensures OaepDb(hash, OaepMask(hash, seed, db)) == db
  {
    var em := OaepMask(hash, seed, db);
    var maskedDb := XorBytes(db, Mgf1(hash, seed, DB_SIZE));
    var seedMask := Mgf1(hash, maskedDb, 32);
    assert em[0x21..] == maskedDb && em[1..0x21] == XorBytes(seed, seedMask);
    XorBytesTwice(seed, seedMask);
    XorBytesTwice(db, Mgf1(hash, seed, DB_SIZE));
  }

  lemma {:induction false} MaskUnmask(hash: Hash, em: seq<Byte>)
    requires |em| == EM_SIZE && em[0] == ZERO_BYTE
    ensures OaepMask(hash, OaepSeed(hash, em), OaepDb(hash, em)) == em
  {
    var seed, db := OaepSeed(hash, em), OaepDb(hash, em);
    XorBytesTwice(em[0x21..], Mgf1(hash, seed, DB_SIZE));
    XorBytesTwice(em[1..0x21], Mgf1(hash, em[0x21..], 32));
    assert em == [em[0]] + em[1..0x21] + em[0x21..];
  }

  /** Index just past a run of zeros and a one, or None if another byte intervenes; the end if all zero. */
  function Scan(rest: seq<Byte>): (r: Option<nat>)
    ensures r.Some? ==> r.value <= |rest|
  {
    if rest == [] then Some(0)
    else if rest[0] == ZERO_BYTE then
      var r := Scan(rest[1..]);
      if r.None? then None else Some(1 + r.value)
    else if rest[0] == B01 then Some(1)
    else None
  }

  /** The message a buffer after the label hash yields, given room for at most dstSize bytes. */
  function ParseRest(rest: seq<Byte>, dstSize: nat): Option<seq<Byte>>
    requires |rest| == REST_SIZE
  {
    if rest[0] != ZERO_BYTE then None
    else
      var at := Scan(rest);
      if at.None? then None
      else if REST_SIZE - at.value > dstSize || at.value == REST_SIZE then None
      else Some(rest[at.value..])
  }

  function OaepDecode(hash: Hash, lHash: Digest, em: seq<Byte>, dstSize: nat): Option<seq<Byte>>
    requires |em| == EM_SIZE
  {
    if em[0] != ZERO_BYTE then None
    else
      var db := OaepDb(hash, em);
      if db[..32] != lHash then None else ParseRest(db[32..], dstSize)
  }

  // ---- tkey_rsa_oaep_unwrap ------------------------------------------------------------------------

  lemma {:induction false} ScanStep(rest: seq<Byte>, i: nat)
    requires i <= |rest| && forall k :: 0 <= k < i ==> rest[k] == ZERO_BYTE
    ensures Scan(rest) == if Scan(rest[i..]).None? then None else Some(i + Scan(rest[i..]).value)
    decreases i
  {
    if i == 0 {
      assert rest[0..] == rest;
    } else {
      assert rest[1..][i - 1..] == rest[i..];
      ScanStep(rest[1..], i - 1);
    }
  }

  /** The search for the message inside DB. */
  method FindMessage(rest: seq<Byte>) returns (r: Option<nat>)
    ensures r == Scan(rest)
  {
    var at := 0;
    while at < |rest|
      invariant at <= |rest|
      invariant forall k :: 0 <= k < at ==> rest[k] == ZERO_BYTE
    {
      ScanStep(rest, at);
      if rest[at] == ZERO_BYTE {
        at := at + 1;
      } else if rest[at] == B01 {
        return Some(at + 1);
      } else {
        return None;
      }
    }
    ScanStep(rest, at);
    return Some(at);
  }

  /** Both unmasking passes over the message buffer. */
  method UnmaskInPlace(message: array<Byte>, hash: Hash)
    requires message.Length == EM_SIZE
    modifies message
    ensures message[0] == old(message[0])
    ensures message[0x21..] == OaepDb(hash, old(message[..]))
  {
    ghost var em := message[..];
    var p1 := MgfAndXor(message, 1, 0x20, message[0x21..], hash);
    ghost var mid := message[..];
    MaskedSlices(em, mid, 1, 0x20, hash, em[0x21..]);
    assert mid[0x21..] == em[0x21..] && mid[1..0x21] == OaepSeed(hash, em);
    var p2 := MgfAndXor(message, 0x21, 0xDF, message[1..0x21], hash);
    MaskedSlices(mid, message[..], 0x21, 0xDF, hash, mid[1..0x21]);
    assert message[..][0x21..0x100] == message[0x21..];
  }

  /** tkey_rsa_oaep_unwrap: the returned message, or none where the code returns size 0. */
  method OaepUnwrap(message: array<Byte>, dstSize: nat, lHash: Digest, hash: Hash) returns (r: Option<seq<Byte>>)
    requires message.Length == EM_SIZE
    modifies message
    ensures r == OaepDecode(hash, lHash, old(message[..]), dstSize)
  {
    if message[0] != ZERO_BYTE { return None; }
    UnmaskInPlace(message, hash);
    var db := message[0x21..];
    if db[..32] != lHash { return None; }
    var rest := db[32..];
    if rest[0] != ZERO_BYTE { return None; }
    var at := FindMessage(rest);
    if at.None? { return None; }
    var size := 0xBF - at.value;
    if size > dstSize || size == 0 { return None; }
    return Some(rest[at.value..]);
  }

  // ---- Mutual inverses -----------------------------------------------------------------------------

  lemma {:induction false} ScanPadded(n: nat, m: seq<Byte>)
    ensures Scan(ZeroBytes(n) + [B01] + m) == Some(n + 1)
  {
    var rest := ZeroBytes(n) + [B01] + m;
    ScanStep(rest, n);
    assert rest[n..] == [B01] + m;
    assert B01[7] && !ZERO_BYTE[7];
  }

  lemma {:induction false} ScanFound(rest: seq<Byte>)
    requires Scan(rest).Some? && Scan(rest).value < |rest|
    ensures Scan(rest).value > 0 && rest == ZeroBytes(Scan(rest).value - 1) + [B01] + rest[Scan(rest).value..]
  {
    if rest[0] == ZERO_BYTE {
      ScanFound(rest[1..]);
      var at := Scan(rest).value;
      assert rest == [ZERO_BYTE] + rest[1..];
      assert ZeroBytes(at - 1) == [ZERO_BYTE] + ZeroBytes(at - 2);
      assert rest[1..][at - 1..] == rest[at..];
    } else {
      assert rest == [B01] + rest[1..];
      assert ZeroBytes(0) + [B01] + rest[1..] == rest;
    }
  }

  lemma {:induction false} ParsePadded(m: seq<Byte>, dstSize: nat)
    requires |m| < REST_SIZE
    ensures ParseRest(PadMessage(m), dstSize) == if 1 <= |m| < REST_SIZE - 1 && |m| <= dstSize then Some(m) else None
  {
    var n := REST_SIZE - 1 - |m|;
    ScanPadded(n, m);
    assert PadMessage(m)[n + 1..] == m;
    assert n > 0 ==> PadMessage(m)[0] == ZERO_BYTE;
    assert n == 0 ==> PadMessage(m)[0] == B01;
  }

  /** Encoding then unwrapping returns the message, unless it is empty, leaves no zero byte of padding
      (length 0xBE, which the standard allows), or does not fit the destination. */
  lemma {:induction false} DecodeEncode(hash: Hash, seed: seq<Byte>, lHash: Digest, m: seq<Byte>, dstSize: nat)
    requires |seed| == 32 && |m| < REST_SIZE
    ensures OaepDecode(hash, lHash, OaepEncode(hash, seed, lHash, m), dstSize)
         == if 1 <= |m| < REST_SIZE - 1 && |m| <= dstSize then Some(m) else None
  {
    var db := lHash + PadMessage(m);
    UnmaskMask(hash, seed, db);
    assert db[..32] == lHash && db[32..] == PadMessage(m);
    ParsePadded(m, dstSize);
  }

  /** Every accepted input is the encoding of its recovered seed, the label hash and the message. */
  lemma {:induction false} EncodeDecode(hash: Hash, lHash: Digest, em: seq<Byte>, dstSize: nat)
    requires |em| == EM_SIZE && OaepDecode(hash, lHash, em, dstSize).Some?
    ensures var m := OaepDecode(hash, lHash, em, dstSize).value;
      1 <= |m| < REST_SIZE - 1 && |m| <= dstSize && OaepEncode(hash, OaepSeed(hash, em), lHash, m) == em
  {
    var db := OaepDb(hash, em);
    var rest := db[32..];
    ScanFound(rest);
    assert db == lHash + rest;
    MaskUnmask(hash, em);
  }

  // ---- PSS -----------------------------------------------------------------------------------------

  const PS_SIZE: nat := 190

  function ClearTop(em: seq<Byte>): (r: seq<Byte>)
    requires |em| > 0
    ensures |r| == |em|
  {
    em[0 := ClearBit(em[0])]
  }

  function ClearBit(b: Byte): Byte {
    b[0 := false]
  }

  /** H of EMSA-PSS for a message digest and salt. */
  function PssH(hash: Hash, data: seq<Byte>, salt: seq<Byte>): Digest {
    hash(ZeroBytes(8) + hash(data) + salt)
  }

  /** EMSA-PSS encoding with a 32-byte salt for a 2048-bit modulus (section 9.1.1 of RFC 8017). */
  function PssEncode(hash: Hash, data: seq<Byte>, salt: seq<Byte>): (em: seq<Byte>)
    requires |salt| == 32
    ensures |em| == EM_SIZE
  {
    var h := PssH(hash, data, salt);
    var db := ZeroBytes(PS_SIZE) + [B01] + salt;
    ClearTop(XorBytes(db, Mgf1(hash, h, DB_SIZE))) + h + [BBC]
  }

  /** DB as the verifier recovers it: unmasked, top bit cleared. */
  function PssDb(hash: Hash, em: seq<Byte>): (r: seq<Byte>)
    requires |em| == EM_SIZE
    ensures |r| == DB_SIZE
  {
    ClearTop(XorBytes(em[..DB_SIZE], Mgf1(hash, em[DB_SIZE..0xFF], DB_SIZE)))
  }

  predicate PssAccepts(hash: Hash, data: seq<Byte>, em: seq<Byte>)
    requires |em| == EM_SIZE
  {
    && em[0xFF] == BBC
    && PssDb(hash, em)[..PS_SIZE] == ZeroBytes(PS_SIZE)
    && PssDb(hash, em)[PS_SIZE] == B01
    && em[DB_SIZE..0xFF] == PssH(hash, data, PssDb(hash, em)[PS_SIZE + 1..])
  }

  lemma {:induction false} NarrowBits(c: nat)
    requires c < 256
    ensures NatBits(c, 32) == Zeros(24) + NatBits(c, 8)
  {
    forall i | 0 <= i < 32 ensures NatBits(c, 32)[i] == (Zeros(24) + NatBits(c, 8))[i] {
      if i < 24 {
        Pow2Above(31 - i);
        DivideSmall(c, Pow2(31 - i));
      } else {
        assert 7 - (i - 24) == 31 - i;
      }
    }
  }

  lemma {:induction false} DivideSmall(c: nat, p: nat)
    requires c < p
    ensures c / p == 0
  {
  }

  /** Three zero bytes and an 8-bit counter are the four-byte counter of MGF1. */
  lemma {:induction false} NarrowCounter(c: nat)
    requires c < 256
    ensures Be32(c) == [ZERO_BYTE, ZERO_BYTE, ZERO_BYTE, NatBits(c, 8)]
  {
    var b := NatBits(c, 8);
    NarrowBits(c);
    assert Zeros(24) + b == ZERO_BYTE + (ZERO_BYTE + (ZERO_BYTE + b));
    SplitConcat(ZERO_BYTE, ZERO_BYTE + (ZERO_BYTE + b));
    SplitConcat(ZERO_BYTE, ZERO_BYTE + b);
    SplitConcat(ZERO_BYTE, b);
    SplitOne(ZERO_BYTE);
    SplitOne(b);
  }

  lemma {:induction false} SplitOne(b: Byte)
    ensures Split(b) == [b]
  {
    assert b[..8] == b && b[8..] == [];
    assert Split([]) == [];
  }

  /** The inline MGF1 of the verifier: an 8-bit counter in the last of 0x24 bytes. */
  method UnmaskDb(message: array<Byte>, h: Digest, hash: Hash)
    requires message.Length == EM_SIZE
    modifies message
    ensures Masked(old(message[..]), message[..], 0, DB_SIZE, hash, h)
  {
    ghost var before := message[..];
    var ofs := 0;
    var seed := 0; // a uint8_t
    while ofs < 0xDF
      invariant 0 <= seed <= 7 && ofs == 32 * seed
      invariant Masked(before, message[..], 0, if ofs < DB_SIZE then ofs else DB_SIZE, hash, h)
    {
      var n := if ofs + 0x20 <= 0xDF then 0x20 else 0xDF - ofs;
      ghost var mid := message[..];
      NarrowCounter(seed);
      var hBuf := h + [ZERO_BYTE, ZERO_BYTE, ZERO_BYTE, NatBits(seed, 8)];
      XorDigest(message, ofs, n, hash(hBuf));
      MaskedMore(before, mid, message[..], 0, seed, n, hash, h);
      seed := seed + 1;
      ofs := ofs + 0x20;
    }
  }

  /** se_rsa2048_pss_verify after the exponentiation. */
  method PssVerify(message: array<Byte>, data: seq<Byte>, hash: Hash) returns (ok: bool)
    requires message.Length == EM_SIZE
    modifies message
    ensures ok <==> PssAccepts(hash, data, old(message[..]))
  {
    ghost var em := message[..];
    if message[0xFF] != BBC { return false; }
    var h := message[0xDF..0xFF];
    UnmaskDb(message, h, hash);
    MaskedSlices(em, message[..], 0, DB_SIZE, hash, h);
    assert message[..][0..DB_SIZE] == message[..DB_SIZE] && em[0..DB_SIZE] == em[..DB_SIZE];
    message[0] := ClearBit(message[0]);
    assert message[..DB_SIZE] == PssDb(hash, em);
    for i := 0 to 190
      invariant forall k :: 0 <= k < i ==> message[k] == ZERO_BYTE
    {
      if message[i] != ZERO_BYTE {
        assert PssDb(hash, em)[..PS_SIZE][i] != ZERO_BYTE;
        return false;
      }
    }
    assert PssDb(hash, em)[..PS_SIZE] == ZeroBytes(PS_SIZE);
    if message[190] != B01 { return false; }
    var salt := message[191..0xDF];
    assert salt == PssDb(hash, em)[PS_SIZE + 1..];
    ok := h == hash(ZeroBytes(8) + hash(data) + salt);
  }

  lemma {:induction false} ClearTopOnce(a: seq<Byte>, b: seq<Byte>)
    requires |a| == |b| > 0
    ensures ClearTop(XorBytes(ClearTop(a), b)) == ClearTop(XorBytes(a, b))
    ensures ClearTop(ClearTop(a)) == ClearTop(a)
  {
    assert ClearBit(XorByte(ClearBit(a[0]), b[0])) == ClearBit(XorByte(a[0], b[0]));
    assert ClearBit(ClearBit(a[0])) == ClearBit(a[0]);
  }

  /** Recovering DB from an encoding gives back the padding and salt. */
  lemma {:induction false} PssDbOfEncoding(hash: Hash, data: seq<Byte>, salt: seq<Byte>, em: seq<Byte>)
    requires |salt| == 32 && |em| == EM_SIZE && ClearTop(em) == PssEncode(hash, data, salt)
    ensures PssDb(hash, em) == ZeroBytes(PS_SIZE) + [B01] + salt
    ensures em[DB_SIZE..0xFF] == PssH(hash, data, salt) && em[0xFF] == BBC
  {
    var h := PssH(hash, data, salt);
    var db := ZeroBytes(PS_SIZE) + [B01] + salt;
    var mask := Mgf1(hash, h, DB_SIZE);
    var enc := PssEncode(hash, data, salt);
    assert em[DB_SIZE..0xFF] == enc[DB_SIZE..0xFF] == h;
    assert em[0xFF] == enc[0xFF];
    assert ClearTop(em[..DB_SIZE]) == enc[..DB_SIZE] == ClearTop(XorBytes(db, mask));
    ClearTopOnce(em[..DB_SIZE], mask);
    ClearTopOnce(XorBytes(db, mask), mask);
    XorBytesTwice(db, mask);
    assert ClearBit(ZERO_BYTE) == ZERO_BYTE;
    assert ClearTop(db) == db;
  }

  lemma {:induction false} EncodingOfPssDb(hash: Hash, data: seq<Byte>, em: seq<Byte>)
    requires |em| == EM_SIZE && PssAccepts(hash, data, em)
    ensures ClearTop(em) == PssEncode(hash, data, PssDb(hash, em)[PS_SIZE + 1..])
  {
    var h := em[DB_SIZE..0xFF];
    var db := PssDb(hash, em);
    var salt := db[PS_SIZE + 1..];
    var mask := Mgf1(hash, h, DB_SIZE);
    assert db == db[..PS_SIZE] + [db[PS_SIZE]] + salt;
    ClearTopOnce(XorBytes(em[..DB_SIZE], mask), mask);
    XorBytesTwice(em[..DB_SIZE], mask);
    assert ClearTop(XorBytes(db, mask)) == ClearTop(em[..DB_SIZE]);
    assert em == em[..DB_SIZE] + h + [em[0xFF]];
    assert ClearTop(em) == ClearTop(em[..DB_SIZE]) + h + [em[0xFF]];
  }

  /** The verifier accepts exactly the messages that, with their top bit cleared, are EMSA-PSS encodings
      of the data under some 32-byte salt. */
  lemma {:induction false} PssAcceptsIffEncoded(hash: Hash, data: seq<Byte>, em: seq<Byte>)
    requires |em| == EM_SIZE
    ensures PssAccepts(hash, data, em) <==>
            exists salt: seq<Byte> :: |salt| == 32 && ClearTop(em) == PssEncode(hash, data, salt)
    ensures PssAccepts(hash, data, em) ==>
            var salt := PssDb(hash, em)[191..];
            && ClearTop(em) == PssEncode(hash, data, salt)
            && em[0xDF..0xFF] == hash(ZeroBytes(8) + hash(data) + salt)
            && em[0xFF] == [true, false, true, true, true, true, false, false]
  {
    if PssAccepts(hash, data, em) {
      EncodingOfPssDb(hash, data, em);
    }
    forall salt: seq<Byte> | |salt| == 32 && ClearTop(em) == PssEncode(hash, data, salt)
      ensures PssAccepts(hash, data, em)
    {
      PssDbOfEncoding(hash, data, salt, em);
      assert PssDb(hash, em)[PS_SIZE + 1..] == salt;
      assert PssDb(hash, em)[..PS_SIZE] == ZeroBytes(PS_SIZE);
    }
  }

  /** The standard's verifier rejects a message whose top bit is set (section 9.1.2 of RFC 8017, step 6);
      this one does not look at it. */
  lemma {:induction false} TopBitIsIgnored(hash: Hash, data: seq<Byte>, em: seq<Byte>)
    requires |em| == EM_SIZE
    ensures PssAccepts(hash, data, em) <==> PssAccepts(hash, data, ClearTop(em))
  {
    PssAcceptsIffEncoded(hash, data, em);
    PssAcceptsIffEncoded(hash, data, ClearTop(em));
    ClearTopOnce(em, em);
  }

  /** The standard's verdict: the message is an EMSA-PSS encoding of the data (section 9.1.2 of RFC 8017). */
  ghost predicate StandardAccepts(hash: Hash, data: seq<Byte>, em: seq<Byte>) {
    exists salt: seq<Byte> :: |salt| == 32 && em == PssEncode(hash, data, salt)
  }

  lemma {:induction false} ClearTopFixes(em: seq<Byte>)
    requires |em| > 0
    ensures ClearTop(em) == em <==> !em[0][0]
  {
    if !em[0][0] {
      assert ClearBit(em[0]) == em[0];
    } else {
      assert ClearTop(em)[0] == ClearBit(em[0]) && !ClearBit(em[0])[0];
    }
  }

  lemma {:induction false} EncodingTopClear(hash: Hash, data: seq<Byte>, salt: seq<Byte>)
    requires |salt| == 32
    ensures !PssEncode(hash, data, salt)[0][0]
  {
  }

  /** The code agrees with the standard exactly when the top bit is clear: what the standard accepts is what the
      code accepts without that bit. */
  lemma {:induction false} StandardAcceptsIff(hash: Hash, data: seq<Byte>, em: seq<Byte>)
    requires |em| == EM_SIZE
    ensures StandardAccepts(hash, data, em) <==> PssAccepts(hash, data, em) && !em[0][0]
  {
    PssAcceptsIffEncoded(hash, data, em);
    ClearTopFixes(em);
    if salt: seq<Byte> :| |salt| == 32 && em == PssEncode(hash, data, salt) {
      EncodingTopClear(hash, data, salt);
    }
  }

  function SetTop(em: seq<Byte>): (r: seq<Byte>)
    requires |em| > 0
    ensures |r| == |em|
  {
    em[0 := SetBit(em[0])]
  }

  function SetBit(b: Byte): Byte {
    b[0 := true]
  }

  /** For every data and salt, the encoding with its top bit set is accepted by the code and by no standard. */
  lemma {:induction false} AcceptedNonEncoding(hash: Hash, data: seq<Byte>, salt: seq<Byte>)
    requires |salt| == 32
    ensures var em := SetTop(PssEncode(hash, data, salt));
      PssAccepts(hash, data, em) && !StandardAccepts(hash, data, em)
  {
    var enc := PssEncode(hash, data, salt);
    var em := SetTop(enc);
    EncodingTopClear(hash, data, salt);
    assert ClearBit(SetBit(enc[0])) == enc[0];
    assert ClearTop(em) == enc;
    PssAcceptsIffEncoded(hash, data, em);
    StandardAcceptsIff(hash, data, em);
  }

  // ---- The encodings written out -------------------------------------------------------------------

  /** EMSA-PSS, slice by slice: DB masked by MGF1 of H with its top bit cleared, H of the data and the salt, BC. */
  lemma {:induction false} PssEncodingWrittenOut(hash: Hash, data: seq<Byte>, salt: seq<Byte>)
    requires |salt| == 32
    ensures var em, h := PssEncode(hash, data, salt), hash(ZeroBytes(8) + hash(data) + salt);
      var one: Byte, bc: Byte :=
        [false, false, false, false, false, false, false, true], [true, false, true, true, true, true, false, false];
      var db := ZeroBytes(190) + [one] + salt;
      && em[0xDF..0xFF] == h && em[0xFF] == bc
      && em[1..0xDF] == XorBytes(db, Mgf1(hash, h, 0xDF))[1..]
      && em[0] == XorByte(db[0], Mgf1(hash, h, 0xDF)[0])[0 := false]
  {
  }

  lemma {:induction false} SameFrame(p: seq<Byte>, d: Digest, e: Digest, t: seq<Byte>)
    ensures p + d + t == p + e + t <==> d == e
  {
    assert (p + d + t)[|p|..|p| + 32] == d && (p + e + t)[|p|..|p| + 32] == e;
  }

  /** A message accepted for two pieces of data shows that they have the same digest, or else two different inputs
      with one digest: the verdict depends on the data. */
  lemma {:induction false} PssBindsData(hash: Hash, a: seq<Byte>, b: seq<Byte>, em: seq<Byte>)
    requires |em| == EM_SIZE && PssAccepts(hash, a, em) && PssAccepts(hash, b, em)
    ensures var salt := PssDb(hash, em)[191..];
            var x, y := ZeroBytes(8) + hash(a) + salt, ZeroBytes(8) + hash(b) + salt;
            hash(x) == hash(y) && (hash(a) == hash(b) || x != y)
  {
    PssHashes(hash, a, em);
    PssHashes(hash, b, em);
    SameFrame(ZeroBytes(8), hash(a), hash(b), PssDb(hash, em)[191..]);
  }

  lemma {:induction false} PssHashes(hash: Hash, data: seq<Byte>, em: seq<Byte>)
    requires |em| == EM_SIZE && PssAccepts(hash, data, em)
    ensures em[0xDF..0xFF] == hash(ZeroBytes(8) + hash(data) + PssDb(hash, em)[191..])
  {
    PssAcceptsIffEncoded(hash, data, em);
  }

  /** And on nothing of the data but its digest. */
  lemma {:induction false} PssSeesDigest(hash: Hash, a: seq<Byte>, b: seq<Byte>, em: seq<Byte>)
    requires |em| == EM_SIZE && hash(a) == hash(b)
    ensures PssAccepts(hash, a, em) <==> PssAccepts(hash, b, em)
  {
  }

  /** RSAES-OAEP, slice by slice: a zero byte, the seed masked by MGF1 of what follows, and label hash, zeros, one
      and message masked by MGF1 of the seed. */
  lemma {:induction false} OaepEncodingWrittenOut(hash: Hash, seed: seq<Byte>, lHash: Digest, m: seq<Byte>)
    requires |seed| == 32 && |m| < 0xBF
    ensures var em := OaepEncode(hash, seed, lHash, m);
      var one: Byte := [false, false, false, false, false, false, false, true];
      && em[0] == ZERO_BYTE
      && em[1..0x21] == XorBytes(seed, Mgf1(hash, em[0x21..], 32))
      && em[0x21..] == XorBytes(lHash + ZeroBytes(0xBE - |m|) + [one] + m, Mgf1(hash, seed, 0xDF))
  {
    var em := OaepEncode(hash, seed, lHash, m);
    assert lHash + PadMessage(m) == lHash + ZeroBytes(0xBE - |m|) + [B01] + m;
  }
}

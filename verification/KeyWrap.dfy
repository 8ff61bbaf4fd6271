/** The GCM-style key wrapping of exosphere/src/gcm.c: gcm_encrypt_key and gcm_decrypt_key.

    The unwrapped key is a parameter: `enc` is the block cipher under it and `stream` its CTR
    keystream, byte k of the stream for a counter block. A wrapped key is
    counter (16 bytes) || CTR(body || device id word) || MAC (16 bytes).
 */
module KeyWrap {
  import opened Bits
  import opened Gf128
  import opened Gcm

  type Keystream = (seq<Byte>, nat) -> Byte
  type DeviceId = d: seq<bool> | |d| == 56 witness seq(56, _ => false)

  const BUFFER_SIZE: nat := 0x400

  function CtrXor(stream: Keystream, ctr: seq<Byte>, data: seq<Byte>): (r: seq<Byte>)
    ensures |r| == |data|
  {
    seq<Byte>(|data|, k requires 0 <= k < |data| => XorByte(data[k], stream(ctr, k)))
  }

  lemma {:induction false} CtrTwice(stream: Keystream, ctr: seq<Byte>, data: seq<Byte>)
    ensures CtrXor(stream, ctr, CtrXor(stream, ctr, data)) == data
  {
    var once := CtrXor(stream, ctr, data);
    forall k | 0 <= k < |data| ensures CtrXor(stream, ctr, once)[k] == data[k] {
      XorCancels(data[k], stream(ctr, k));
    }
  }

  /** The big-endian device id word: high byte, then the 56-bit id. */
  function DeviceWord(high: Byte, id: DeviceId): (r: seq<Byte>)
    ensures |r| == 8
  {
    [high] + Split(id)
  }

  /** MAC = GHASH(plaintext) ^ E(J), with J = GHASH(counter). */
  function Mac(enc: Cipher, ctr: seq<Byte>, plain: seq<Byte>): (r: seq<Byte>)
    ensures |r| == 16
  {
    Split(GhashResult(enc, plain, GhashResult(enc, ctr, Zeros(128), false), true))
  }

  /** The wrapped form of a body (payload and eight more bytes) for a device. */
  function Seal(enc: Cipher, stream: Keystream, ctr: seq<Byte>, body: seq<Byte>, high: Byte,
                id: DeviceId): (r: seq<Byte>)
    requires |ctr| == 16
    ensures |r| == |body| + 0x28
  {
    var plain := body + DeviceWord(high, id);
    ctr + CtrXor(stream, ctr, plain) + Mac(enc, ctr, plain)
  }

  /** Overrun is where the C code writes past its 0x400-byte work buffer and its behaviour is undefined. */
  datatype Unwrap = Panic | Overrun | Rejected | Unwrapped(payload: seq<Byte>, high: Byte)
  datatype Wrap = WrapPanic | WrapOverrun | Wrapped(blob: seq<Byte>)

  /** What gcm_decrypt_key decides about a personalized blob with enough room. */
  function Unseal(enc: Cipher, stream: Keystream, blob: seq<Byte>, id: DeviceId): Unwrap
    requires |blob| > 0x30
  {
    var n := |blob|;
    var plain := CtrXor(stream, blob[..0x10], blob[0x10..n - 0x10]);
    if Mac(enc, blob[..0x10], plain) != blob[n - 0x10..] then Rejected
    else if Join(plain[n - 0x28..])[8..] != id then Rejected
    else Unwrapped(plain[..n - 0x30], plain[n - 0x28])
  }

  /** The buffer with `bytes` written from offset `at`. */
  function Write(buf: seq<Byte>, at: nat, bytes: seq<Byte>): (r: seq<Byte>)
    requires at + |bytes| <= |buf|
    ensures |r| == |buf|
    ensures forall k :: 0 <= k < |buf| ==> r[k] == if at <= k < at + |bytes| then bytes[k - at] else buf[k]
  {
    buf[..at] + bytes + buf[at + |bytes|..]
  }

  // ---- The code ------------------------------------------------------------------------------------

  method GhashBytes(data: seq<Byte>, enc: Cipher, j: Block, encrypt: bool) returns (r: seq<Byte>)
    ensures r == Split(GhashResult(enc, data, j, encrypt)) && Join(r) == GhashResult(enc, data, j, encrypt)
  {
    var dst := new Byte[16] (_ => ZERO_BYTE);
    Ghash(dst, data, enc, j, encrypt);
    r := dst[..];
    SplitJoin(r);
  }

  method CalculateMac(ctr: seq<Byte>, plain: seq<Byte>, enc: Cipher) returns (r: seq<Byte>)
    ensures r == Mac(enc, ctr, plain)
  {
    var j := GhashBytes(ctr, enc, Zeros(128), false);
    r := GhashBytes(plain, enc, Join(j), true);
  }

  /** gcm_encrypt_key: panics without room; otherwise seals an all-zero body of the payload's size. The
      payload itself is never read into the buffer. */
  method GcmEncryptKey(src: seq<Byte>, dstSize: nat, ctr: seq<Byte>, id: DeviceId, high: Byte,
                       enc: Cipher, stream: Keystream)
    returns (r: Wrap)
    requires |ctr| == 16
    ensures r == if |src| + 0x30 > dstSize then WrapPanic
                 else if |src| + 0x30 > 0x400 then WrapOverrun
                 else Wrapped(Seal(enc, stream, ctr, ZeroBytes(|src| + 8), high, id))
  {
    var size := |src|;
    if size + 0x30 > dstSize { return WrapPanic; }
    if size + 0x30 > BUFFER_SIZE { return WrapOverrun; }
    var blob := SealInBuffer(size, ctr, id, high, enc, stream);
    return Wrapped(blob);
  }

  /** The wrapping proper, in the work buffer. */
  method SealInBuffer(size: nat, ctr: seq<Byte>, id: DeviceId, high: Byte, enc: Cipher, stream: Keystream)
    returns (r: seq<Byte>)
    requires |ctr| == 16 && size + 0x30 <= BUFFER_SIZE
    ensures r == Seal(enc, stream, ctr, ZeroBytes(size + 8), high, id)
  {
    var buf := PlainBuffer(size, ctr, high, id);
    ghost var plain := ZeroBytes(size + 8) + DeviceWord(high, id);
    var mac := CalculateMac(buf[..0x10], buf[0x10..size + 0x20], enc);
    buf := Write(buf, size + 0x20, mac);
    assert buf[..0x10] == ctr;
    assert buf[0x10..size + 0x20] == plain;
    var cipher := CtrXor(stream, buf[..0x10], buf[0x10..size + 0x20]);
    buf := Write(buf, 0x10, cipher);
    r := buf[..size + 0x30];
    assert r == ctr + cipher + mac;
  }

  /** The working buffer with the counter and the device id word in place. */
  method PlainBuffer(size: nat, ctr: seq<Byte>, high: Byte, id: DeviceId) returns (buf: seq<Byte>)
    requires |ctr| == 16 && size + 0x30 <= BUFFER_SIZE
    ensures |buf| == BUFFER_SIZE && buf[..0x10] == ctr
    ensures buf[0x10..size + 0x20] == ZeroBytes(size + 8) + DeviceWord(high, id)
  {
    buf := Write(ZeroBytes(BUFFER_SIZE), 0, ctr);
    buf := Write(buf, size + 0x18, DeviceWord(high, id));
  }

  /** How much the engine writes: it stops at whichever of source and destination ends first. */
  function Written(n: nat, dstSize: nat): nat
    requires n >= 0x10
  {
    if n - 0x10 <= dstSize then n - 0x10 else dstSize
  }

  /** gcm_decrypt_key. */
  method GcmDecryptKey(src: seq<Byte>, dstSize: nat, personalized: bool, id: DeviceId, enc: Cipher, stream: Keystream)
    returns (r: Unwrap)
    ensures !personalized ==>
      r == if |src| <= 0x10 || |src| - 0x10 > dstSize then Panic
           else if |src| - 0x10 > 0x400 then Overrun
           else Unwrapped(CtrXor(stream, src[..0x10], src[0x10..]), ZERO_BYTE)
    ensures personalized ==>
      r == if |src| <= 0x30 || |src| - 0x20 > dstSize then Panic
           else if |src| - 0x10 > 0x400 && dstSize > 0x400 then Overrun
           else Unseal(enc, stream, src, id)
  {
    var n := |src|;
    if !personalized {
      if n <= 0x10 || n - 0x10 > dstSize { return Panic; }
    } else {
      if n <= 0x30 || n - 0x20 > dstSize { return Panic; }
    }
    if Written(n, dstSize) > BUFFER_SIZE { return Overrun; }
    var buf := DecryptBuffer(src, dstSize, stream);
    if !personalized {
      assert buf[..n - 0x10] == CtrXor(stream, src[..0x10], src[0x10..]);
      r := Unwrapped(buf[..n - 0x10], ZERO_BYTE);
    } else {
      r := Authenticate(src, buf, id, enc, stream);
    }
  }

  /** CTR decryption into the working buffer. */
  method DecryptBuffer(src: seq<Byte>, dstSize: nat, stream: Keystream) returns (buf: seq<Byte>)
    requires 0x10 < |src| && Written(|src|, dstSize) <= BUFFER_SIZE
    ensures |buf| == BUFFER_SIZE
    ensures forall k :: 0 <= k < Written(|src|, dstSize) ==> buf[k] == XorByte(src[0x10 + k], stream(src[..0x10], k))
  {
    var written := Written(|src|, dstSize);
    buf := CtrXor(stream, src[..0x10], src[0x10..0x10 + written]) + ZeroBytes(BUFFER_SIZE - written);
  }

  /** The MAC and device checks on the decrypted buffer. */
  method Authenticate(src: seq<Byte>, buf: seq<Byte>, id: DeviceId, enc: Cipher, stream: Keystream) returns (r: Unwrap)
    requires 0x30 < |src| && |src| - 0x20 <= BUFFER_SIZE == |buf|
    requires forall k :: 0 <= k < |src| - 0x20 ==> buf[k] == XorByte(src[0x10 + k], stream(src[..0x10], k))
    ensures r == Unseal(enc, stream, src, id)
  {
    var n := |src|;
    assert buf[..n - 0x20] == CtrXor(stream, src[..0x10], src[0x10..n - 0x10]);
    assert buf[n - 0x28..n - 0x20] == buf[..n - 0x20][n - 0x28..];
    assert buf[..n - 0x30] == buf[..n - 0x20][..n - 0x30];
    var mac := CalculateMac(src[..0x10], buf[..n - 0x20], enc);
    if src[n - 0x10..] != mac {
      return Rejected;
    }
    if Join(buf[n - 0x28..n - 0x20])[8..] != id {
      return Rejected;
    }
    return Unwrapped(buf[..n - 0x30], buf[n - 0x28]);
  }

  // ---- Agreement -----------------------------------------------------------------------------------

  lemma {:induction false} DeviceWordBits(high: Byte, id: DeviceId)
    ensures Join(DeviceWord(high, id))[8..] == id
  {
    assert DeviceWord(high, id)[1..] == Split(id);
    JoinSplit(id);
  }

  /** Unwrapping what was sealed, for the same device, returns the payload and the high id byte: for
      every cipher, counter, body of more than eight bytes and device. */
  lemma {:induction false} UnsealSeal(enc: Cipher, stream: Keystream, ctr: seq<Byte>, body: seq<Byte>, high: Byte,
                                      id: DeviceId)
    requires |ctr| == 16 && |body| > 8
    ensures Unseal(enc, stream, Seal(enc, stream, ctr, body, high, id), id) == Unwrapped(body[..|body| - 8], high)
  {
    var blob := Seal(enc, stream, ctr, body, high, id);
    var plain := body + DeviceWord(high, id);
    var n := |blob|;
    assert blob[..0x10] == ctr;
    assert blob[0x10..n - 0x10] == CtrXor(stream, ctr, plain);
    assert blob[n - 0x10..] == Mac(enc, ctr, plain);
    CtrTwice(stream, ctr, plain);
    assert plain[n - 0x28..] == DeviceWord(high, id);
    DeviceWordBits(high, id);
    assert plain[..n - 0x30] == body[..|body| - 8];
  }

  lemma {:induction false} WordFromId(word: seq<Byte>, id: DeviceId)
    requires |word| == 8 && Join(word)[8..] == id
    ensures word == DeviceWord(word[0], id)
  {
    assert word == [word[0]] + word[1..];
    assert Join(word)[8..] == Join(word[1..]);
    SplitJoin(word[1..]);
  }

  /** Conversely every accepted blob is a sealed one: it is reproduced by sealing the recovered body. */
  lemma {:induction false} SealUnseal(enc: Cipher, stream: Keystream, blob: seq<Byte>, id: DeviceId)
    returns (body: seq<Byte>)
    requires |blob| > 0x30 && Unseal(enc, stream, blob, id).Unwrapped?
    ensures |body| == |blob| - 0x28
    ensures body[..|body| - 8] == Unseal(enc, stream, blob, id).payload
    ensures blob == Seal(enc, stream, blob[..0x10], body, Unseal(enc, stream, blob, id).high, id)
  {
    var n := |blob|;
    var ctr, cipher := blob[..0x10], blob[0x10..n - 0x10];
    var plain := CtrXor(stream, ctr, cipher);
    body := plain[..n - 0x28];
    WordFromId(plain[n - 0x28..], id);
    assert plain == body + plain[n - 0x28..];
    CtrTwice(stream, ctr, cipher);
    assert blob == ctr + cipher + blob[n - 0x10..];
  }

  /** The code wraps zeros: unwrapping gcm_encrypt_key's output gives back the payload it was handed if
      and only if that payload was all zero. */
  lemma {:induction false} WrappedPayloadIsLost(enc: Cipher, stream: Keystream, ctr: seq<Byte>, src: seq<Byte>,
                                                high: Byte, id: DeviceId)
    requires |ctr| == 16 && |src| > 0
    ensures var r := Unseal(enc, stream, Seal(enc, stream, ctr, ZeroBytes(|src| + 8), high, id), id);
      && r == Unwrapped(ZeroBytes(|src|), high)
      && (r.payload == src <==> forall k :: 0 <= k < |src| ==> src[k] == ZERO_BYTE)
  {
    var body := ZeroBytes(|src| + 8);
    UnsealSeal(enc, stream, ctr, body, high, id);
    assert body[..|body| - 8] == ZeroBytes(|src|);
    if forall k :: 0 <= k < |src| ==> src[k] == ZERO_BYTE {
      assert ZeroBytes(|src|) == src;
    }
  }

  // ---- What is authenticated -----------------------------------------------------------------------

  /** The decrypted text of a blob, byte by byte. */
  function PlainOf(stream: Keystream, blob: seq<Byte>): (r: seq<Byte>)
    requires |blob| > 0x30
    ensures |r| == |blob| - 0x20
    ensures forall k :: 0 <= k < |r| ==> r[k] == XorByte(blob[0x10 + k], stream(blob[..0x10], k))
  {
    CtrXor(stream, blob[..0x10], blob[0x10..|blob| - 0x10])
  }

  /** An accepted blob ends in GHASH of its plaintext and the length, plus E(J), where J is GHASH of the counter;
      the plaintext ends in the device id, with the payload and the high id byte before it. */
  lemma {:induction false} AcceptedIsAuthentic(enc: Cipher, stream: Keystream, blob: seq<Byte>, id: DeviceId)
    requires |blob| > 0x30 && Unseal(enc, stream, blob, id).Unwrapped?
    ensures var n, h, plain := |blob|, enc(Zeros(128)), PlainOf(stream, blob);
      var counter: Block, counterLength: Block := Join(blob[..0x10]), Zeros(64) + NatBits(128, 64);
      var tail: seq<Block> := if |plain| % 16 != 0 then [Zeros(128)] else [];
      var length: Block := NatBits(8 * |plain|, 64) + Zeros(64);
      && Join(blob[n - 0x10..]) ==
           Xor(GHash(h, Whole(plain) + tail + [length]), enc(GHash(h, [counter, counterLength])))
      && Join(plain[n - 0x28..])[8..] == id
      && Unseal(enc, stream, blob, id) == Unwrapped(plain[..n - 0x30], plain[n - 0x28])
  {
    var plain := PlainOf(stream, blob);
    JoinSplit(GhashResult(enc, plain, GhashResult(enc, blob[..0x10], Zeros(128), false), true));
    CounterHash(enc, blob[..0x10]);
  }

  lemma {:induction false} CounterHash(enc: Cipher, ctr: seq<Byte>)
    requires |ctr| == 16
    ensures var counter: Block, counterLength: Block := Join(ctr), Zeros(64) + NatBits(128, 64);
      GhashResult(enc, ctr, Zeros(128), false) == GHash(enc(Zeros(128)), [counter, counterLength])
  {
    assert ctr[0..16] == ctr;
    assert Whole(ctr) == [Join(ctr)];
    assert HashedBlocks(ctr, false) == [Join(ctr), LengthBlock(16, false)];
  }

  lemma {:induction false} JoinInjective(a: seq<Byte>, b: seq<Byte>)
    requires |a| == |b| && Join(a) == Join(b)
    ensures a == b
  {
    SplitJoin(a);
    SplitJoin(b);
  }

  lemma {:induction false} SameSlice(a: seq<Byte>, b: seq<Byte>, lo: nat, hi: nat)
    requires |a| == |b| && lo <= hi <= |a| && forall k :: lo <= k < hi ==> a[k] == b[k]
    ensures a[lo..hi] == b[lo..hi]
  {
  }

  lemma {:induction false} HashedBlockAt(a: seq<Byte>, k: nat)
    requires 16 * k + 16 <= |a|
    ensures k < |HashedBlocks(a, true)| && HashedBlocks(a, true)[k] == Join(a[16 * k..16 * k + 16])
  {
  }

  lemma {:induction false} BlocksAgree(a: seq<Byte>, b: seq<Byte>, i: nat, k: nat)
    requires |a| == |b| && 16 * i + 16 <= |a| && k < |HashedBlocks(a, true)| && k != i
    requires forall m :: 0 <= m < |a| && !(16 * i <= m < 16 * i + 16) ==> a[m] == b[m]
    ensures |HashedBlocks(a, true)| == |HashedBlocks(b, true)| && HashedBlocks(a, true)[k] == HashedBlocks(b, true)[k]
  {
    if k < |a| / 16 {
      SameSlice(a, b, 16 * k, 16 * k + 16);
      HashedBlockAt(a, k);
      HashedBlockAt(b, k);
    }
  }

  /** Plaintexts of equal length that differ in at most one whole block, hashed alike, are the same. */
  lemma {:induction false} SamePlaintext(h: Block, g: Block, a: seq<Byte>, b: seq<Byte>, i: nat)
    requires Mul(h, g) == ONE && |a| == |b| && 16 * i + 16 <= |a|
    requires forall k :: 0 <= k < |a| && !(16 * i <= k < 16 * i + 16) ==> a[k] == b[k]
    requires GHash(h, HashedBlocks(a, true)) == GHash(h, HashedBlocks(b, true))
    ensures a == b
  {
    HashedBlockAt(a, i);
    HashedBlockAt(b, i);
    SameBlocks(h, g, a, b, i);
    JoinInjective(a[16 * i..16 * i + 16], b[16 * i..16 * i + 16]);
    GluedBlocks(a, b, i);
  }

  lemma {:induction false} SameBlocks(h: Block, g: Block, a: seq<Byte>, b: seq<Byte>, i: nat)
    requires Mul(h, g) == ONE && |a| == |b| && 16 * i + 16 <= |a|
    requires forall k :: 0 <= k < |a| && !(16 * i <= k < 16 * i + 16) ==> a[k] == b[k]
    requires GHash(h, HashedBlocks(a, true)) == GHash(h, HashedBlocks(b, true))
    ensures HashedBlocks(a, true) == HashedBlocks(b, true)
  {
    var p, q := HashedBlocks(a, true), HashedBlocks(b, true);
    HashedBlockAt(a, i);
    forall k | 0 <= k < |p| && k != i ensures p[k] == q[k] {
      BlocksAgree(a, b, i, k);
    }
    OneBlockFixed(h, g, p, q, i);
  }

  lemma {:induction false} GluedBlocks(a: seq<Byte>, b: seq<Byte>, i: nat)
    requires |a| == |b| && 16 * i + 16 <= |a| && a[16 * i..16 * i + 16] == b[16 * i..16 * i + 16]
    requires forall k :: 0 <= k < |a| && !(16 * i <= k < 16 * i + 16) ==> a[k] == b[k]
    ensures a == b
  {
    forall k | 0 <= k < |a| ensures a[k] == b[k] {
      if 16 * i <= k < 16 * i + 16 {
        assert a[16 * i..16 * i + 16][k - 16 * i] == b[16 * i..16 * i + 16][k - 16 * i];
      }
    }
  }

  lemma {:induction false} EqualMacs(enc: Cipher, ctr: seq<Byte>, p: seq<Byte>, q: seq<Byte>)
    requires Mac(enc, ctr, p) == Mac(enc, ctr, q)
    ensures var h := enc(Zeros(128)); GHash(h, HashedBlocks(p, true)) == GHash(h, HashedBlocks(q, true))
  {
    var h, j := enc(Zeros(128)), GhashResult(enc, ctr, Zeros(128), false);
    JoinSplit(GhashResult(enc, p, j, true));
    JoinSplit(GhashResult(enc, q, j, true));
    XorCancels(GHash(h, HashedBlocks(p, true)), enc(j));
    XorCancels(GHash(h, HashedBlocks(q, true)), enc(j));
  }

  lemma {:induction false} SameCiphertext(stream: Keystream, a: seq<Byte>, b: seq<Byte>)
    requires |a| == |b| > 0x30 && a[..0x10] == b[..0x10] && a[|a| - 0x10..] == b[|a| - 0x10..]
    requires PlainOf(stream, a) == PlainOf(stream, b)
    ensures a == b
  {
    var n, ctr := |a|, a[..0x10];
    CtrTwice(stream, ctr, a[0x10..n - 0x10]);
    CtrTwice(stream, ctr, b[0x10..n - 0x10]);
    assert a == a[..0x10] + a[0x10..n - 0x10] + a[n - 0x10..];
    assert b == b[..0x10] + b[0x10..n - 0x10] + b[n - 0x10..];
  }

  lemma {:induction false} PlainsAgree(stream: Keystream, a: seq<Byte>, b: seq<Byte>, i: nat)
    requires |a| == |b| > 0x30 && 16 * i + 16 <= |a| - 0x20
    requires forall k :: 0 <= k < |a| && !(0x10 + 16 * i <= k < 0x20 + 16 * i) ==> a[k] == b[k]
    ensures a[..0x10] == b[..0x10] && a[|a| - 0x10..] == b[|a| - 0x10..]
    ensures forall k :: 0 <= k < |a| - 0x20 && !(16 * i <= k < 16 * i + 16) ==>
              PlainOf(stream, a)[k] == PlainOf(stream, b)[k]
  {
    SameSlice(a, b, 0, 0x10);
    SameSlice(a, b, |a| - 0x10, |a|);
    assert a[0..0x10] == a[..0x10] && b[0..0x10] == b[..0x10];
    forall k | 0 <= k < |a| - 0x20 && !(16 * i <= k < 16 * i + 16)
      ensures PlainOf(stream, a)[k] == PlainOf(stream, b)[k]
    {
      assert a[0x10 + k] == b[0x10 + k];
    }
  }

  /** For an invertible H, no accepted blob becomes another accepted one by changing bytes inside one whole block of
      its ciphertext, whatever device either is accepted for. */
  lemma {:induction false} TamperedBlockIsRejected(enc: Cipher, stream: Keystream, a: seq<Byte>, b: seq<Byte>,
                                                   id: DeviceId,
                                                   other: DeviceId, i: nat, g: Block)
    requires |a| == |b| > 0x30 && 16 * i + 16 <= |a| - 0x20 && Mul(enc(Zeros(128)), g) == ONE
    requires forall k :: 0 <= k < |a| && !(0x10 + 16 * i <= k < 0x20 + 16 * i) ==> a[k] == b[k]
    requires Unseal(enc, stream, a, id).Unwrapped? && Unseal(enc, stream, b, other).Unwrapped?
    ensures a == b
  {
    PlainsAgree(stream, a, b, i);
    EqualMacs(enc, a[..0x10], PlainOf(stream, a), PlainOf(stream, b));
    SamePlaintext(enc(Zeros(128)), g, PlainOf(stream, a), PlainOf(stream, b), i);
    SameCiphertext(stream, a, b);
  }
}

/**
 * MurmurHash3, x64 variant with a 128-bit result (Austin Appleby's public-domain
 * algorithm), and the 64-bit wrapper `ev_hash_murmur3` that keeps the first half.
 *
 * All arithmetic is wrapping 64-bit arithmetic, so words are `bv64`. Blocks are read
 * as little-endian 64-bit words (the byte order of the platforms the library targets).
 *
 * The specification functions keep the statement order of the C code as let-chains;
 * the method `MurmurHash3X64_128` is the imperative C function, proved equal to them.
 */
module Hash {

  const C1: bv64 := 0x87c37b91114253d5
  const C2: bv64 := 0x4cf5ad432745937f

  /** The largest length a `u32` can hold, plus one. */
  const U32_LIMIT: nat := 0x1_0000_0000

  /** `rotl64`: rotate left by `r` bits. */
  function Rotl64(x: bv64, r: bv64): bv64
    requires 0 < r < 64
  {
    (x << r) | (x >> (64 - r))
  }

  /** At the three distances the algorithm uses, `rotl64` is a true bit rotation. */
  lemma RotlIsRotation(x: bv64)
    ensures Rotl64(x, 27) == x.RotateLeft(27)
    ensures Rotl64(x, 31) == x.RotateLeft(31)
    ensures Rotl64(x, 33) == x.RotateLeft(33)
  {
  }

  /** Byte `b` widened to 64 bits and moved up by `shift` bits: `((u64)b) << shift`. */
  function Byte(b: bv8, shift: bv64): bv64
    requires shift < 64
  {
    (b as bv64) << shift
  }

  /**
   * `getblock64`: the `i`-th 64-bit word of the key. The C code loads a `u64` from memory;
   * on the little-endian targets that is byte 8i in the low bits up to byte 8i+7 in the high bits.
   */
  function GetBlock64(p: seq<bv8>, i: nat): bv64
    requires 8 * i + 8 <= |p|
  {
    Byte(p[8 * i], 0) | Byte(p[8 * i + 1], 8) | Byte(p[8 * i + 2], 16) | Byte(p[8 * i + 3], 24)
    | Byte(p[8 * i + 4], 32) | Byte(p[8 * i + 5], 40) | Byte(p[8 * i + 6], 48) | Byte(p[8 * i + 7], 56)
  }

  /** Reference little-endian load of up to eight bytes: `b[0]` is the least significant byte. */
  function LoadLE(b: seq<bv8>): bv64
    requires |b| <= 8
  {
    if b == [] then 0 else (b[0] as bv64) | (LoadLE(b[1..]) << 8)
  }

  /** The bytes of `b` xor-ed in at their little-endian positions (the same shape as the tail switch). */
  function PackedLE(b: seq<bv8>): bv64
    requires |b| <= 8
  {
    (if |b| > 7 then Byte(b[7], 56) else 0)
    ^ (if |b| > 6 then Byte(b[6], 48) else 0)
    ^ (if |b| > 5 then Byte(b[5], 40) else 0)
    ^ (if |b| > 4 then Byte(b[4], 32) else 0)
    ^ (if |b| > 3 then Byte(b[3], 24) else 0)
    ^ (if |b| > 2 then Byte(b[2], 16) else 0)
    ^ (if |b| > 1 then Byte(b[1], 8) else 0)
    ^ (if |b| > 0 then Byte(b[0], 0) else 0)
  }

  lemma PackedLEStep(b: seq<bv8>)
    requires 0 < |b| <= 8
    ensures (b[0] as bv64) | (PackedLE(b[1..]) << 8) == PackedLE(b)
  {
    var n := |b|;
    if n == 1 {} else if n == 2 {} else if n == 3 {} else if n == 4 {}
    else if n == 5 {} else if n == 6 {} else if n == 7 {} else {}
  }

  /** Packing the bytes at their positions is the little-endian load. */
  lemma {:induction false} PackedIsLoadLE(b: seq<bv8>)
    requires |b| <= 8
    ensures PackedLE(b) == LoadLE(b)
  {
    if b != [] {
      PackedIsLoadLE(b[1..]);
      PackedLEStep(b);
    }
  }

  /** `getblock64` reads bytes 8i .. 8i+7 as a little-endian word. */
  lemma GetBlock64IsLoadLE(p: seq<bv8>, i: nat)
    requires 8 * i + 8 <= |p|
    ensures GetBlock64(p, i) == LoadLE(p[8 * i .. 8 * i + 8])
  {
    var b := p[8 * i .. 8 * i + 8];
    PackedIsLoadLE(b);
    hide LoadLE;
    assert b[0] == p[8 * i] && b[1] == p[8 * i + 1] && b[2] == p[8 * i + 2] && b[3] == p[8 * i + 3];
    assert b[4] == p[8 * i + 4] && b[5] == p[8 * i + 5] && b[6] == p[8 * i + 6] && b[7] == p[8 * i + 7];
  }

  /** One xor-shift step of the finalizer, `k ^= k >> 33`. */
  function XorShift33(k: bv64): bv64 {
    k ^ (k >> 33)
  }

  /** An xor-shift by 33 (more than half the width) is its own inverse. */
  lemma XorShiftInvolution(k: bv64)
    ensures XorShift33(XorShift33(k)) == k
  {
    var a := k >> 33;
    assert (k ^ a) >> 33 == (k >> 33) ^ (a >> 33);
    assert a >> 33 == 0;
  }

  /** The first multiplication of `fmix64`, `k *= 0xff51afd7ed558ccd`. */
  function FmixMul1(k: bv64): bv64 {
    k * 0xff51afd7ed558ccd
  }

  /** The second multiplication of `fmix64`, `k *= 0xc4ceb9fe1a85ec53`. */
  function FmixMul2(k: bv64): bv64 {
    k * 0xc4ceb9fe1a85ec53
  }

  /** `fmix64`: xor-shift, multiply, xor-shift, multiply, xor-shift. */
  function Fmix64(k: bv64): (r: bv64)
    ensures k == 0 ==> r == 0
  {
    XorShift33(FmixMul2(XorShift33(FmixMul1(XorShift33(k)))))
  }

  /** Multiplication by the inverse of 0xff51afd7ed558ccd modulo 2^64 (the constant is odd). */
  function FmixUnmul1(k: bv64): bv64 {
    k * 0x4f74430c22a54005
  }

  /** Multiplication by the inverse of 0xc4ceb9fe1a85ec53 modulo 2^64. */
  function FmixUnmul2(k: bv64): bv64 {
    k * 0x9cb4b2f8129337db
  }

  lemma FmixUnmulCancels(k: bv64)
    ensures FmixUnmul1(FmixMul1(k)) == k
    ensures FmixUnmul2(FmixMul2(k)) == k
  {
    assert FmixUnmul1(FmixMul1(k)) == FmixUnmul1(k * 0xff51afd7ed558ccd);
    assert FmixUnmul2(FmixMul2(k)) == FmixUnmul2(k * 0xc4ceb9fe1a85ec53);
  }

  /** The steps of `fmix64` undone in reverse order. */
  function Fmix64Inverse(r: bv64): bv64 {
    XorShift33(FmixUnmul1(XorShift33(FmixUnmul2(XorShift33(r)))))
  }

  /** `fmix64` loses no information: it is a bijection on 64-bit words. */
  lemma Fmix64RoundTrip(k: bv64)
    ensures Fmix64Inverse(Fmix64(k)) == k
  {
    hide XorShift33, FmixMul1, FmixMul2, FmixUnmul1, FmixUnmul2;
    var a := XorShift33(k);
    var c := XorShift33(FmixMul1(a));
    XorShiftInvolution(FmixMul2(c));
    FmixUnmulCancels(c);
    XorShiftInvolution(FmixMul1(a));
    FmixUnmulCancels(a);
    XorShiftInvolution(k);
  }

  /** Different inputs to `fmix64` never give the same output. */
  lemma Fmix64Injective(x: bv64, y: bv64)
    ensures Fmix64(x) == Fmix64(y) <==> x == y
  {
    hide Fmix64, Fmix64Inverse;
    Fmix64RoundTrip(x);
    Fmix64RoundTrip(y);
  }

  /** Mixing of the first word of a block (or of the low tail bytes) before it is folded into `h1`. */
  function MixK1(k1: bv64): bv64 {
    Rotl64(k1 * C1, 31) * C2
  }

  /** Mixing of the second word of a block (or of the high tail bytes) before it is folded into `h2`. */
  function MixK2(k2: bv64): bv64 {
    Rotl64(k2 * C2, 33) * C1
  }

  /** The new `h1` after a block whose first word is `k1`. */
  function Round1(h1: bv64, h2: bv64, k1: bv64): bv64 {
    (Rotl64(h1 ^ MixK1(k1), 27) + h2) * 5 + 0x52dce729
  }

  /** The new `h2` after a block whose second word is `k2`; `h1` is already the updated one. */
  function Round2(h1: bv64, h2: bv64, k2: bv64): bv64 {
    (Rotl64(h2 ^ MixK2(k2), 31) + h1) * 5 + 0x38495ab5
  }

  /** The two running hash words. */
  datatype State = State(h1: bv64, h2: bv64)

  /** The state after the first `n` sixteen-byte blocks, starting from h1 = h2 = seed. */
  function Blocks(data: seq<bv8>, n: nat, seed: bv32): State
    requires 16 * n <= |data|
  {
    if n == 0 then State(seed as bv64, seed as bv64)
    else
      var s := Blocks(data, n - 1, seed);
      var h1 := Round1(s.h1, s.h2, GetBlock64(data, 2 * (n - 1)));
      State(h1, Round2(h1, s.h2, GetBlock64(data, 2 * (n - 1) + 1)))
  }

  /** The word the switch cases 15..9 build: tail bytes 8..14 at their little-endian positions. */
  function TailK2(tail: seq<bv8>): bv64
    requires |tail| < 16
  {
    (if |tail| > 14 then Byte(tail[14], 48) else 0)
    ^ (if |tail| > 13 then Byte(tail[13], 40) else 0)
    ^ (if |tail| > 12 then Byte(tail[12], 32) else 0)
    ^ (if |tail| > 11 then Byte(tail[11], 24) else 0)
    ^ (if |tail| > 10 then Byte(tail[10], 16) else 0)
    ^ (if |tail| > 9 then Byte(tail[9], 8) else 0)
    ^ (if |tail| > 8 then Byte(tail[8], 0) else 0)
  }

  /** The word the switch cases 8..1 build: tail bytes 0..7 at their little-endian positions. */
  function TailK1(tail: seq<bv8>): bv64
    requires |tail| < 16
  {
    (if |tail| > 7 then Byte(tail[7], 56) else 0)
    ^ (if |tail| > 6 then Byte(tail[6], 48) else 0)
    ^ (if |tail| > 5 then Byte(tail[5], 40) else 0)
    ^ (if |tail| > 4 then Byte(tail[4], 32) else 0)
    ^ (if |tail| > 3 then Byte(tail[3], 24) else 0)
    ^ (if |tail| > 2 then Byte(tail[2], 16) else 0)
    ^ (if |tail| > 1 then Byte(tail[1], 8) else 0)
    ^ (if |tail| > 0 then Byte(tail[0], 0) else 0)
  }

  function Min(a: nat, b: nat): nat {
    if a < b then a else b
  }

  /** k1 is the little-endian load of the first (at most eight) tail bytes. */
  lemma TailK1IsLoadLE(tail: seq<bv8>)
    requires |tail| < 16
    ensures TailK1(tail) == LoadLE(tail[..Min(|tail|, 8)])
  {
    var b := tail[..Min(|tail|, 8)];
    PackedIsLoadLE(b);
    hide LoadLE, Byte;
    if |tail| <= 8 {
      assert b == tail;
    } else {
      assert b[0] == tail[0] && b[1] == tail[1] && b[2] == tail[2] && b[3] == tail[3];
      assert b[4] == tail[4] && b[5] == tail[5] && b[6] == tail[6] && b[7] == tail[7];
    }
  }

  /** k2 is the little-endian load of the tail bytes from index 8 on (none when eight or fewer remain). */
  lemma TailK2IsLoadLE(tail: seq<bv8>)
    requires |tail| < 16
    ensures TailK2(tail) == LoadLE(tail[Min(|tail|, 8)..])
  {
    var b := tail[Min(|tail|, 8)..];
    PackedIsLoadLE(b);
    hide LoadLE, Byte;
    var n := |tail|;
    if n <= 8 {} else if n == 9 {} else if n == 10 {} else if n == 11 {}
    else if n == 12 {} else if n == 13 {} else if n == 14 {} else {
      assert b[0] == tail[8] && b[1] == tail[9] && b[2] == tail[10] && b[3] == tail[11];
      assert b[4] == tail[12] && b[5] == tail[13] && b[6] == tail[14];
    }
  }

  /** `h1` after the tail: k1 is mixed in exactly when at least one byte remains. */
  function TailMix1(h1: bv64, tail: seq<bv8>): bv64
    requires |tail| < 16
  {
    if |tail| > 0 then h1 ^ MixK1(TailK1(tail)) else h1
  }

  /** `h2` after the tail: k2 is mixed in exactly when at least nine bytes remain. */
  function TailMix2(h2: bv64, tail: seq<bv8>): bv64
    requires |tail| < 16
  {
    if |tail| > 8 then h2 ^ MixK2(TailK2(tail)) else h2
  }

  /** Finalization: xor the length into both halves, cross-add, `fmix64` both, cross-add. */
  function Finalize(h1: bv64, h2: bv64, len: bv64): State {
    var a1 := h1 ^ len;
    var a2 := h2 ^ len;
    var b1 := a1 + a2;
    var b2 := a2 + b1;
    var c1 := Fmix64(b1);
    var c2 := Fmix64(b2);
    var d1 := c1 + c2;
    State(d1, c2 + d1)
  }

  lemma FinalizeUnfold(h1: bv64, h2: bv64, len: bv64)
    ensures Finalize(h1, h2, len).h1
         == Fmix64((h1 ^ len) + (h2 ^ len)) + Fmix64((h2 ^ len) + ((h1 ^ len) + (h2 ^ len)))
    ensures Finalize(h1, h2, len).h2
         == Fmix64((h2 ^ len) + ((h1 ^ len) + (h2 ^ len)))
            + (Fmix64((h1 ^ len) + (h2 ^ len)) + Fmix64((h2 ^ len) + ((h1 ^ len) + (h2 ^ len))))
  {
    hide Fmix64;
  }

  /** Undoes the first cross-add and the length xor of `Finalize`. */
  function UndoFirstCrossAdd(b1: bv64, b2: bv64, len: bv64): State {
    var a2 := b2 - b1;
    var a1 := b1 - a2;
    State(a1 ^ len, a2 ^ len)
  }

  /** Undoes `Finalize` for a known length: subtract back, invert `fmix64`, subtract back, xor the length out. */
  function FinalizeInverse(d1: bv64, d2: bv64, len: bv64): State {
    var c2 := d2 - d1;
    var c1 := d1 - c2;
    UndoFirstCrossAdd(Fmix64Inverse(c1), Fmix64Inverse(c2), len)
  }

  lemma UndoSecondCrossAdd(c1: bv64, c2: bv64, len: bv64)
    ensures FinalizeInverse(c1 + c2, c2 + (c1 + c2), len)
         == UndoFirstCrossAdd(Fmix64Inverse(c1), Fmix64Inverse(c2), len)
  {
    hide Fmix64Inverse, UndoFirstCrossAdd;
  }

  lemma UndoFirstCrossAddCorrect(h1: bv64, h2: bv64, len: bv64)
    ensures UndoFirstCrossAdd((h1 ^ len) + (h2 ^ len), (h2 ^ len) + ((h1 ^ len) + (h2 ^ len)), len) == State(h1, h2)
  {
  }

  /** Finalization is a bijection for each length: its result determines the state it started from. */
  lemma FinalizeRoundTrip(h1: bv64, h2: bv64, len: bv64)
    ensures FinalizeInverse(Finalize(h1, h2, len).h1, Finalize(h1, h2, len).h2, len) == State(h1, h2)
  {
    hide Fmix64, Fmix64Inverse, UndoFirstCrossAdd, FinalizeInverse, Finalize;
    FinalizeUnfold(h1, h2, len);
    UndoSecondCrossAdd(Fmix64((h1 ^ len) + (h2 ^ len)), Fmix64((h2 ^ len) + ((h1 ^ len) + (h2 ^ len))), len);
    Fmix64RoundTrip((h1 ^ len) + (h2 ^ len));
    Fmix64RoundTrip((h2 ^ len) + ((h1 ^ len) + (h2 ^ len)));
    UndoFirstCrossAddCorrect(h1, h2, len);
  }

  /** Two different states never finalize to the same pair (for the same length). */
  lemma FinalizeInjective(x1: bv64, x2: bv64, y1: bv64, y2: bv64, len: bv64)
    ensures Finalize(x1, x2, len) == Finalize(y1, y2, len) <==> x1 == y1 && x2 == y2
  {
    hide Finalize, FinalizeInverse;
    FinalizeRoundTrip(x1, x2, len);
    FinalizeRoundTrip(y1, y2, len);
  }

  /** MurmurHash3_x64_128 of the first `len` bytes of `key`: exactly len / 16 blocks, then the tail, then finalization. */
  function Murmur3(key: seq<bv8>, len: nat, seed: bv32): State
    requires len <= |key| && len < U32_LIMIT
  {
    var n := len / 16;
    var s := Blocks(key, n, seed);
    var tail := key[n * 16 .. len];
    Finalize(TailMix1(s.h1, tail), TailMix2(s.h2, tail), len as bv64)
  }

  /** `ev_hash_murmur3`: the seed is truncated to 32 bits and only h1 is kept. */
  function HashMurmur3(data: seq<bv8>, len: nat, seed: bv64): bv64
    requires len <= |data| && len < U32_LIMIT
  {
    Murmur3(data, len, (seed & 0xffff_ffff) as bv32).h1
  }

  /** A block lying inside a common prefix reads the same word from both inputs. */
  lemma GetBlock64ReadsPrefix(a: seq<bv8>, b: seq<bv8>, i: nat, m: nat)
    requires 8 * i + 8 <= m <= |a| && m <= |b| && a[..m] == b[..m]
    ensures GetBlock64(a, i) == GetBlock64(b, i)
  {
    hide Byte;
    assert forall j :: 0 <= j < m ==> a[j] == a[..m][j] == b[..m][j] == b[j];
  }

  /** The body only reads bytes below 16 * n. */
  lemma {:induction false} BlocksReadPrefix(a: seq<bv8>, b: seq<bv8>, n: nat, seed: bv32)
    requires 16 * n <= |a| && 16 * n <= |b| && a[..16 * n] == b[..16 * n]
    ensures Blocks(a, n, seed) == Blocks(b, n, seed)
  {
    hide Round1, Round2, GetBlock64;
    if n > 0 {
      var m := n - 1;
      assert a[..16 * m] == a[..16 * n][..16 * m];
      assert b[..16 * m] == b[..16 * n][..16 * m];
      BlocksReadPrefix(a, b, m, seed);
      GetBlock64ReadsPrefix(a, b, 2 * m, 16 * n);
      GetBlock64ReadsPrefix(a, b, 2 * m + 1, 16 * n);
    }
  }

  /** The hash depends only on bytes [0, len) of the input. */
  lemma HashReadsOnlyPrefix(a: seq<bv8>, b: seq<bv8>, len: nat, seed: bv32)
    requires len <= |a| && len <= |b| && len < U32_LIMIT && a[..len] == b[..len]
    ensures Murmur3(a, len, seed) == Murmur3(b, len, seed)
  {
    hide Finalize, TailMix1, TailMix2;
    var n := len / 16;
    assert a[..16 * n] == a[..len][..16 * n];
    assert b[..16 * n] == b[..len][..16 * n];
    BlocksReadPrefix(a, b, n, seed);
    assert a[n * 16 .. len] == a[..len][n * 16 ..];
    assert b[n * 16 .. len] == b[..len][n * 16 ..];
  }

  /** Seeds that differ only in their upper 32 bits give equal 64-bit hashes. */
  lemma SeedUpperBitsIgnored(data: seq<bv8>, len: nat, s1: bv64, s2: bv64)
    requires len <= |data| && len < U32_LIMIT
    requires s1 & 0xffff_ffff == s2 & 0xffff_ffff
    ensures HashMurmur3(data, len, s1) == HashMurmur3(data, len, s2)
  {
    hide Murmur3;
  }

  /** The empty input with seed 0 hashes to (0, 0). */
  lemma EmptyKeyVector()
    ensures Murmur3([], 0, 0) == State(0, 0)
  {
    hide Fmix64, Finalize;
    FinalizeUnfold(0, 0, 0);
    assert Fmix64(0) == 0;
  }

  lemma HelloWord()
    ensures TailK1([0x68, 0x65, 0x6c, 0x6c, 0x6f]) == 0x6f6c6c6568
  {
  }

  lemma HelloMix()
    ensures MixK1(0x6f6c6c6568) == 0x8c3f01c9e77511c7
  {
  }

  lemma HelloFmix()
    ensures Fmix64(0x8c3f01c9e77511c7) == 0x3c92befc3acd18eb
    ensures Fmix64(0x8c3f01c9e77511cc) == 0x8f45e8b706f08217
  {
  }

  /** Published reference value: MurmurHash3_x64_128 of the five bytes "hello" with seed 0. */
  lemma HelloVector()
    ensures Murmur3([0x68, 0x65, 0x6c, 0x6c, 0x6f], 5, 0) == State(0xcbd8a7b341bd9b02, 0x5b1e906a48ae1d19)
  {
    hide MixK1, TailK1, Fmix64, Finalize;
    var key: seq<bv8> := [0x68, 0x65, 0x6c, 0x6c, 0x6f];
    assert key[0 * 16 .. 5] == key;
    HelloWord();
    HelloMix();
    HelloFmix();
    FinalizeUnfold(0x8c3f01c9e77511c7, 0, 5);
  }

  /** The switch cases 15..9: tail bytes 14 down to 8 xor-ed into k2. */
  method TailHigh(tail: seq<bv8>) returns (k2: bv64)
    requires |tail| < 16
    ensures k2 == TailK2(tail)
  {
    var t := |tail|;
    k2 := 0;
    if t >= 15 { k2 := k2 ^ ((tail[14] as bv64) << 48); }
    if t >= 14 { k2 := k2 ^ ((tail[13] as bv64) << 40); }
    if t >= 13 { k2 := k2 ^ ((tail[12] as bv64) << 32); }
    if t >= 12 { k2 := k2 ^ ((tail[11] as bv64) << 24); }
    if t >= 11 { k2 := k2 ^ ((tail[10] as bv64) << 16); }
    if t >= 10 { k2 := k2 ^ ((tail[9] as bv64) << 8); }
    if t >= 9 { k2 := k2 ^ ((tail[8] as bv64) << 0); }
  }

  /** The switch cases 8..1: tail bytes 7 down to 0 xor-ed into k1. */
  method TailLow(tail: seq<bv8>) returns (k1: bv64)
    requires |tail| < 16
    ensures k1 == TailK1(tail)
  {
    var t := |tail|;
    k1 := 0;
    if t >= 8 { k1 := k1 ^ ((tail[7] as bv64) << 56); }
    if t >= 7 { k1 := k1 ^ ((tail[6] as bv64) << 48); }
    if t >= 6 { k1 := k1 ^ ((tail[5] as bv64) << 40); }
    if t >= 5 { k1 := k1 ^ ((tail[4] as bv64) << 32); }
    if t >= 4 { k1 := k1 ^ ((tail[3] as bv64) << 24); }
    if t >= 3 { k1 := k1 ^ ((tail[2] as bv64) << 16); }
    if t >= 2 { k1 := k1 ^ ((tail[1] as bv64) << 8); }
    if t >= 1 { k1 := k1 ^ ((tail[0] as bv64) << 0); }
  }

  /** The high half of the switch: build k2, and from case 9 on mix it into h2. */
  method MixTailHigh(h2: bv64, tail: seq<bv8>) returns (r2: bv64)
    requires |tail| < 16
    ensures r2 == TailMix2(h2, tail)
  {
    hide MixK2, TailK2;
    r2 := h2;
    var k2 := TailHigh(tail);
    if |tail| >= 9 {
      k2 := MixK2(k2);
      r2 := r2 ^ k2;
    }
  }

  /** The low half of the switch: build k1, and from case 1 on mix it into h1. */
  method MixTailLow(h1: bv64, tail: seq<bv8>) returns (r1: bv64)
    requires |tail| < 16
    ensures r1 == TailMix1(h1, tail)
  {
    hide MixK1, TailK1;
    r1 := h1;
    var k1 := TailLow(tail);
    if |tail| >= 1 {
      k1 := MixK1(k1);
      r1 := r1 ^ k1;
    }
  }

  /**
   * The body of `MurmurHash3_x64_128` up to its stores: the block loop updating h1/h2, the
   * fall-through switch over the `len & 15` tail bytes, and finalization.
   */
  method Hash128(key: seq<bv8>, len: nat, seed: bv32) returns (h1: bv64, h2: bv64)
    requires len <= |key| && len < U32_LIMIT
    ensures State(h1, h2) == Murmur3(key, len, seed)
  {
    hide Round1, Round2, GetBlock64, TailMix1, TailMix2, Finalize, Fmix64, MixK1, MixK2, Byte, TailK1, TailK2;
    var nblocks := len / 16;
    h1 := seed as bv64;
    h2 := seed as bv64;

    var i := 0;
    while i < nblocks
      invariant 0 <= i <= nblocks
      invariant State(h1, h2) == Blocks(key, i, seed)
    {
      var k1 := GetBlock64(key, i * 2 + 0);
      var k2 := GetBlock64(key, i * 2 + 1);
      h1 := Round1(h1, h2, k1);
      h2 := Round2(h1, h2, k2);
      i := i + 1;
    }

    var tail := key[nblocks * 16 .. len];
    h2 := MixTailHigh(h2, tail);
    h1 := MixTailLow(h1, tail);

    var f := Finalize(h1, h2, len as bv64);
    h1, h2 := f.h1, f.h2;
  }

  /** `MurmurHash3_x64_128`: the hash, with both halves written into `out`. */
  method MurmurHash3X64_128(key: seq<bv8>, len: nat, seed: bv32, out: array<bv64>)
    requires len <= |key| && len < U32_LIMIT
    requires out.Length >= 2
    modifies out
    ensures out[0] == Murmur3(key, len, seed).h1
    ensures out[1] == Murmur3(key, len, seed).h2
    ensures forall j :: 2 <= j < out.Length ==> out[j] == old(out[j])
  {
    var h1, h2 := Hash128(key, len, seed);
    out[0] := h1;
    out[1] := h2;
  }

  /** `ev_hash_murmur3`: calls the 128-bit hash with the seed cast to `u32` and returns the first word. */
  method EvHashMurmur3(data: seq<bv8>, len: nat, seed: bv64) returns (h: bv64)
    requires len <= |data| && len < U32_LIMIT
    ensures h == HashMurmur3(data, len, seed)
  {
    hide Murmur3;
    var out := new bv64[2];
    MurmurHash3X64_128(data, len, (seed & 0xffff_ffff) as bv32, out);
    h := out[0];
  }
}

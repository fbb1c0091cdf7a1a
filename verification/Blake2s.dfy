/** BLAKE2s with its lazy buffer of two blocks, against the one-shot definition
    of section 3.3 of RFC 7693. The compression function is a parameter. */
module Blake2s {
  import opened Bytes
  import opened Blocks
  import opened Words

  type Chain = h: seq<bv32> | |h| == 8 witness [0, 0, 0, 0, 0, 0, 0, 0]

  // Chain value, block, low and high counter word, last-block flag.
  type Compression = (Chain, seq<Byte>, nat, nat, bool) -> Chain

  const IV: Chain := [
    0x6A09E667, 0xBB67AE85, 0x3C6EF372, 0xA54FF53A, 0x510E527F, 0x9B05688C, 0x1F83D9AB, 0x5BE0CD19
  ]

  /** x is the fractional part, in 32 bits, of the square root of a prime with integer part r. */
  predicate RootPart(x: bv32, prime: nat, r: nat) {
    var root := r * TWO_32 + Num32(x);
    root * root <= prime * (TWO_32 * TWO_32) < (root + 1) * (root + 1)
  }

  /** The square roots of the first eight primes, section 2.6 of RFC 7693. */
  lemma IvRoots()
    ensures RootPart(IV[0], 2, 1) && RootPart(IV[1], 3, 1) && RootPart(IV[2], 5, 2) && RootPart(IV[3], 7, 2)
    ensures RootPart(IV[4], 11, 3) && RootPart(IV[5], 13, 3) && RootPart(IV[6], 17, 4) && RootPart(IV[7], 19, 4)
  {
    hide RootPart;
    FirstRoots();
    LastRoots();
  }

  lemma FirstRoots()
    ensures RootPart(IV[0], 2, 1) && RootPart(IV[1], 3, 1) && RootPart(IV[2], 5, 2) && RootPart(IV[3], 7, 2)
  {
  }

  lemma LastRoots()
    ensures RootPart(IV[4], 11, 3) && RootPart(IV[5], 13, 3) && RootPart(IV[6], 17, 4) && RootPart(IV[7], 19, 4)
  {
  }

  function Lo(n: nat): nat { n % TWO_32 }

  function Hi(n: nat): nat { n / TWO_32 % TWO_32 }

  // One-shot definition.

  /** The parameter block has one non-zero word: lengths, fan-out 1 and depth 1. */
  function InitialChain(outlen: nat, keylen: nat): Chain
    requires 0 < outlen <= 32 && keylen <= 32
  {
    IV[0 := IV[0] ^ 0x01010000 ^ ((keylen as bv32) << 8) ^ (outlen as bv32)]
  }

  lemma NumOf(n: nat)
    requires n < 256
    ensures Num32(n as bv32) == n
  {
    assert n % TWO_32 == n;
  }

  lemma ParameterBits(iv: bv32, k: bv32, n: bv32)
    ensures iv ^ (iv ^ 0x01010000 ^ (k << 8) ^ n) == 0x01010000 ^ (k << 8) ^ n
  {
  }

  lemma ParameterSum(k: bv32, n: bv32)
    requires k <= 32 && n <= 32
    ensures (0x01010000 ^ (k << 8) ^ n) as nat == 0x0101_0000 + 0x100 * (k as nat) + n as nat
  {
  }

  lemma NotAbove(n: nat)
    requires n <= 32
    ensures n as bv32 <= 32
  {
    NumOf(n);
  }

  lemma ParameterOf(iv: bv32, k: bv32, n: bv32)
    requires k <= 32 && n <= 32
    ensures Num32(Xor32(iv, iv ^ 0x01010000 ^ (k << 8) ^ n)) == 0x0101_0000 + 0x100 * Num32(k) + Num32(n)
  {
    ParameterBits(iv, k, n);
    ParameterSum(k, n);
  }

  /** What is xored into the first word is 0x0101kknn, section 2.5 of RFC 7693. */
  lemma ParameterBlock(outlen: nat, keylen: nat)
    requires 0 < outlen <= 32 && keylen <= 32
    ensures var h := InitialChain(outlen, keylen);
      Num32(Xor32(IV[0], h[0])) == 0x0101_0000 + 0x100 * keylen + outlen && h[1..] == IV[1..]
  {
    hide Num32, Xor32;
    NumOf(outlen);
    NumOf(keylen);
    NotAbove(outlen);
    NotAbove(keylen);
    ParameterOf(IV[0], keylen as bv32, outlen as bv32);
  }

  /** A key is the first block, filled up with zeros. */
  function KeyBlock(key: seq<Byte>): (s: seq<Byte>)
    requires |key| <= 32
    ensures |s| == if key == [] then 0 else 64
  {
    if key == [] then [] else key + Repeat(64 - |key|, 0)
  }

  function NextBlock(F: Compression): (Chain, nat, seq<Byte>) -> Chain {
    (h: Chain, at: nat, block: seq<Byte>) => F(h, block, Lo(at + 64), Hi(at + 64), false)
  }

  /** Where the last block of d begins, be it full or the end of d. */
  function Last(d: seq<Byte>): (k: nat)
    ensures k % 64 == 0 && k <= |d| <= k + 64 && (d != [] ==> k < |d|)
  {
    if d == [] then 0 else (|d| - 1) / 64 * 64
  }

  function HashData(F: Compression, h: Chain, d: seq<Byte>): Chain {
    var k := Last(d);
    F(Fold(NextBlock(F), h, d[..k], 64), d[k..] + Repeat(k + 64 - |d|, 0), Lo(|d|), Hi(|d|), true)
  }

  /** Byte i of a chain value, little-endian word by word. */
  function OutByte(h: Chain, i: nat): Byte
    requires i < 32
  {
    ByteAt32(h[i / 4], i % 4)
  }

  function OutBytes(h: Chain, outlen: nat): (out: seq<Byte>)
    requires outlen <= 32
    ensures |out| == outlen
  {
    seq(outlen, i requires 0 <= i < outlen => OutByte(h, i))
  }

  lemma OutByteAt(h: Chain, k: nat, j: nat)
    requires k < 8 && j < 4
    ensures OutByte(h, 4 * k + j) == ByteAt32(h[k], j)
  {
    hide ByteAt32;
    assert (4 * k + j) / 4 == k && (4 * k + j) % 4 == j;
  }

  /** Word k of the chain value reads back from its place in the output. */
  lemma OutReadsBack(h: Chain, outlen: nat, k: nat)
    requires 4 * k + 4 <= outlen <= 32
    ensures OutBytes(h, outlen)[4 * k..4 * k + 4] == Enc32Le(h[k])
    ensures FromLittle(OutBytes(h, outlen)[4 * k..4 * k + 4]) == Num32(h[k])
  {
    hide OutByte, ByteAt32, Enc32Le, FromLittle, Num32;
    var out, w := OutBytes(h, outlen)[4 * k..4 * k + 4], Enc32Le(h[k]);
    forall j | 0 <= j < 4
      ensures out[j] == w[j]
    {
      OutByteAt(h, k, j);
      ByteIs32(h[k], j);
    }
    Enc32LeReadsBack(h[k]);
  }

  function Digest(F: Compression, outlen: nat, key: seq<Byte>, m: seq<Byte>): (out: seq<Byte>)
    requires 0 < outlen <= 32 && |key| <= 32
    ensures |out| == outlen
  {
    OutBytes(HashData(F, InitialChain(outlen, |key|), KeyBlock(key) + m), outlen)
  }

  lemma CountUp(n: nat, c: nat)
    requires c < TWO_32
    ensures (Lo(n) + c) % TWO_32 == Lo(n + c)
    ensures Hi(n + c) == (Hi(n) + if Lo(n + c) < c then 1 else 0) % TWO_32
  {
    CarryWord(n, c, TWO_32);
  }

  /** The state of a context that has received d, with up to two blocks in its
      buffer: what was compressed is full blocks, and never the last one. */
  ghost predicate Tracks(F: Compression, h0: Chain, d: seq<Byte>, h: Chain, t0: nat, t1: nat, buf: seq<Byte>) {
    var k := |d| - |buf|;
    0 <= k && k % 64 == 0 && |buf| <= 128 && (d == [] || buf != []) &&
    buf == d[k..] && t0 == Lo(k) && t1 == Hi(k) && h == Fold(NextBlock(F), h0, d[..k], 64)
  }

  lemma TracksMore(F: Compression, h0: Chain, d: seq<Byte>, h: Chain, t0: nat, t1: nat, buf: seq<Byte>, data: seq<Byte>)
    requires Tracks(F, h0, d, h, t0, t1, buf) && |buf| + |data| <= 128
    ensures Tracks(F, h0, d + data, h, t0, t1, buf + data)
  {
    var k := |d| - |buf|;
    assert d[..k] == (d + data)[..k];
  }

  /** Compressing the first of two buffered blocks, when the second holds something. */
  lemma TracksNext(F: Compression, h0: Chain, d: seq<Byte>, h: Chain, t0: nat, t1: nat, buf: seq<Byte>)
    requires Tracks(F, h0, d, h, t0, t1, buf) && 64 < |buf|
    ensures var t0' := (t0 + 64) % TWO_32;
      var t1' := (t1 + if t0' < 64 then 1 else 0) % TWO_32;
      Tracks(F, h0, d, F(h, buf[..64], t0', t1', false), t0', t1', buf[64..])
  {
    hide Lo, Hi, Fold;
    var k := |d| - |buf|;
    CountUp(k, 64);
    FoldSnoc(NextBlock(F), h0, d[..k], buf[..64], 64);
    assert d[..k + 64] == d[..k] + buf[..64];
  }

  /** The last block, up to 64 buffered bytes and zeros, completes the hash. */
  lemma TracksLast(F: Compression, h0: Chain, d: seq<Byte>, h: Chain, t0: nat, t1: nat, buf: seq<Byte>)
    requires Tracks(F, h0, d, h, t0, t1, buf) && |buf| < 65
    ensures var t0' := (t0 + |buf|) % TWO_32;
      var t1' := (t1 + if t0' < |buf| then 1 else 0) % TWO_32;
      F(h, buf + Repeat(64 - |buf|, 0), t0', t1', true) == HashData(F, h0, d)
  {
    hide Lo, Hi, Fold;
    var k := |d| - |buf|;
    CountUp(k, |buf|);
    assert Last(d) == k;
  }

  class Context {
    const F: Compression
    const buf: array<Byte>
    var h: Chain
    var t0: nat
    var t1: nat
    var f0: bool
    var buflen: nat
    ghost var h0: Chain              // chain value at the last initialization
    ghost var absorbed: seq<Byte>    // key block and message bytes since then

    ghost predicate Valid()
      reads this, buf
    {
      buf.Length == 128 && buflen <= 128 && !f0 && t0 < TWO_32 && t1 < TWO_32 &&
      Tracks(F, h0, absorbed, h, t0, t1, buf[..buflen])
    }

    constructor (F: Compression)
      ensures this.F == F && fresh(buf) && buf.Length == 128
    {
      this.F := F;
      buf := new Byte[128];
      h := IV;
    }

    method InitParam(outlen: nat, keylen: nat)
      requires buf.Length == 128 && 0 < outlen <= 32 && keylen <= 32
      modifies this, buf
      ensures Valid() && absorbed == [] && h0 == InitialChain(outlen, keylen)
    {
      Fill(buf, 0, 128, 0);
      h := InitialChain(outlen, keylen);
      t0, t1, f0, buflen := 0, 0, false, 0;
      h0, absorbed := h, [];
      assert buf[..0] == [];
    }

    method Init(outlen: nat) returns (ret: int)
      requires buf.Length == 128
      modifies this, buf
      ensures ret == if outlen == 0 || outlen > 32 then -1 else 0
      ensures ret == 0 ==> Valid() && absorbed == [] && h0 == InitialChain(outlen, 0)
      ensures ret != 0 ==> unchanged(this) && unchanged(buf)
    {
      if outlen == 0 || outlen > 32 {
        return -1;
      }
      InitParam(outlen, 0);
      return 0;
    }

    /** A missing key is refused here, like one that is too long. */
    method InitKey(outlen: nat, key: seq<Byte>) returns (ret: int)
      requires buf.Length == 128
      modifies this, buf
      ensures ret == if outlen == 0 || outlen > 32 || key == [] || |key| > 32 then -1 else 0
      ensures ret == 0 ==> Valid() && absorbed == KeyBlock(key) && h0 == InitialChain(outlen, |key|)
      ensures ret != 0 ==> unchanged(this) && unchanged(buf)
    {
      if outlen == 0 || outlen > 32 {
        return -1;
      }
      if key == [] || |key| > 32 {
        return -1;
      }
      hide Tracks, InitialChain;
      InitParam(outlen, |key|);
      Update(key + Repeat(64 - |key|, 0));
      return 0;
    }

    method IncrementCounter(inc: nat)
      requires t0 < TWO_32 && t1 < TWO_32
      modifies this`t0, this`t1
      ensures t0 == (old(t0) + inc) % TWO_32
      ensures t1 == (old(t1) + if t0 < inc then 1 else 0) % TWO_32
    {
      t0 := (t0 + inc) % TWO_32;
      t1 := (t1 + if t0 < inc then 1 else 0) % TWO_32;
    }

    /** Compresses the first block of the buffer and shifts the rest down. */
    method CompressFirst()
      requires Valid() && buflen > 64
      modifies this`h, this`t0, this`t1, this`buflen, buf
      ensures Valid() && buflen == old(buflen) - 64
    {
      hide Tracks;
      ghost var held := buf[..buflen];
      TracksNext(F, h0, absorbed, h, t0, t1, held);
      assert buf[..64] == held[..64];
      IncrementCounter(64);
      h := F(h, buf[..64], t0, t1, f0);
      buflen := buflen - 64;
      CopyInto(buf, 0, buf[64..64 + buflen]);
      assert buf[..buflen] == held[64..];
    }

    /** Never compresses before more input is at hand. */
    method Update(data: seq<Byte>)
      requires Valid()
      modifies this, buf
      ensures Valid() && absorbed == old(absorbed) + data && h0 == old(h0)
    {
      hide Tracks;
      var rest := data;
      while rest != []
        invariant Valid() && absorbed + rest == old(absorbed) + data && h0 == old(h0)
        decreases |rest|, buflen
      {
        var fill := 128 - buflen;
        ghost var was := absorbed;
        if |rest| > fill {
          Store(rest[..fill]);
          CompressFirst();
          Regroup(was, [], rest, fill);
          rest := rest[fill..];
        } else {
          Store(rest);
          rest := [];
        }
      }
    }

    method Store(data: seq<Byte>)
      requires Valid() && buflen + |data| <= 128
      modifies this`buflen, this`absorbed, buf
      ensures Valid() && absorbed == old(absorbed) + data && buflen == old(buflen) + |data|
    {
      hide Tracks;
      TracksMore(F, h0, absorbed, h, t0, t1, buf[..buflen], data);
      CopyInto(buf, buflen, data);
      buflen, absorbed := buflen + |data|, absorbed + data;
    }

    method Final(outlen: nat) returns (out: seq<Byte>)
      requires Valid() && outlen <= 32
      modifies this, buf
      ensures out == OutBytes(HashData(F, old(h0), old(absorbed)), outlen)
    {
      hide HashData, OutByte, Tracks;
      if buflen > 64 {
        CompressFirst();
      }
      ghost var held := buf[..buflen];
      TracksLast(F, h0, absorbed, h, t0, t1, held);
      IncrementCounter(buflen);
      f0 := true;
      Fill(buf, buflen, 128 - buflen, 0);
      assert buf[..64] == held + Repeat(64 - buflen, 0);
      h := F(h, buf[..64], t0, t1, f0);
      var buffer := OutBytes(h, 32);
      out := buffer[..outlen];
    }
  }

  /** Initialization with or without a key, any number of updates and final. */
  method DigestOfPieces(F: Compression, outlen: nat, key: seq<Byte>, pieces: seq<seq<Byte>>) returns (ret: int, out: seq<Byte>)
    ensures ret == if 0 < outlen <= 32 && |key| <= 32 then 0 else -1
    ensures ret == 0 ==> out == Digest(F, outlen, key, Flatten(pieces))
  {
    hide Tracks, HashData, InitialChain, OutBytes, KeyBlock;
    var ctx := new Context(F);
    out := [];
    if |key| > 0 {
      ret := ctx.InitKey(outlen, key);
    } else {
      ret := ctx.Init(outlen);
    }
    if ret < 0 {
      return;
    }
    for i := 0 to |pieces|
      invariant ctx.Valid() && fresh(ctx) && fresh(ctx.buf)
      invariant ctx.absorbed == KeyBlock(key) + Flatten(pieces[..i]) && ctx.h0 == InitialChain(outlen, |key|)
    {
      FlattenSnoc(pieces, i);
      ctx.Update(pieces[i]);
    }
    assert pieces[..|pieces|] == pieces;
    out := ctx.Final(outlen);
  }
}

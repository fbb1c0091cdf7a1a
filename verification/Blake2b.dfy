/** BLAKE2b fed byte by byte, with its two-word byte counter, against the one-shot
    definition of section 3.3 of RFC 7693. The compression function is a parameter. */
module Blake2b {
  import opened Bytes
  import opened Blocks
  import opened Words

  type Chain = h: seq<bv64> | |h| == 8 witness [0, 0, 0, 0, 0, 0, 0, 0]

  // Chain value, block, low and high counter word, last-block flag.
  type Compression = (Chain, seq<Byte>, nat, nat, bool) -> Chain

  const IV: Chain := [
    0x6A09E667F3BCC908, 0xBB67AE8584CAA73B, 0x3C6EF372FE94F82B, 0xA54FF53A5F1D36F1,
    0x510E527FADE682D1, 0x9B05688C2B3E6C1F, 0x1F83D9ABFB41BD6B, 0x5BE0CD19137E2179
  ]

  /** x is the fractional part, in 64 bits, of the square root of a prime with integer part r. */
  predicate RootPart(x: bv64, prime: nat, r: nat) {
    var root := r * TWO_64 + Num64(x);
    root * root <= prime * (TWO_64 * TWO_64) < (root + 1) * (root + 1)
  }

  /** The square roots of the first eight primes, section 2.6 of RFC 7693. */
  lemma IvRoots()
    ensures RootPart(IV[0], 2, 1) && RootPart(IV[1], 3, 1) && RootPart(IV[2], 5, 2) && RootPart(IV[3], 7, 2)
    ensures RootPart(IV[4], 11, 3) && RootPart(IV[5], 13, 3) && RootPart(IV[6], 17, 4) && RootPart(IV[7], 19, 4)
  {
    hide RootPart;
    FirstRoots();
    LastRoots();
  }

  lemma FirstRoots()
    ensures RootPart(IV[0], 2, 1) && RootPart(IV[1], 3, 1) && RootPart(IV[2], 5, 2) && RootPart(IV[3], 7, 2)
  {
  }

  lemma LastRoots()
    ensures RootPart(IV[4], 11, 3) && RootPart(IV[5], 13, 3) && RootPart(IV[6], 17, 4) && RootPart(IV[7], 19, 4)
  {
  }

  function Lo(n: nat): nat { n % TWO_64 }

  function Hi(n: nat): nat { n / TWO_64 % TWO_64 }

  // One-shot definition.

  function InitialChain(outlen: nat, keylen: nat): Chain
    requires 0 < outlen <= 64 && keylen <= 64
  {
    IV[0 := IV[0] ^ 0x01010000 ^ ((keylen as bv64) << 8) ^ (outlen as bv64)]
  }

  lemma NumOf(n: nat)
    requires n < 256
    ensures Num64(n as bv64) == n
  {
    assert n % TWO_64 == n;
  }

  lemma ParameterBits(iv: bv64, k: bv64, n: bv64)
    ensures iv ^ (iv ^ 0x01010000 ^ (k << 8) ^ n) == 0x01010000 ^ (k << 8) ^ n
  {
  }

  lemma ParameterSum(k: bv64, n: bv64)
    requires k <= 64 && n <= 64
    ensures (0x01010000 ^ (k << 8) ^ n) as nat == 0x0101_0000 + 0x100 * (k as nat) + n as nat
  {
  }

  lemma NotAbove(n: nat)
    requires n <= 64
    ensures n as bv64 <= 64
  {
    NumOf(n);
  }

  lemma ParameterOf(iv: bv64, k: bv64, n: bv64)
    requires k <= 64 && n <= 64
    ensures Num64(Xor64(iv, iv ^ 0x01010000 ^ (k << 8) ^ n)) == 0x0101_0000 + 0x100 * Num64(k) + Num64(n)
  {
    ParameterBits(iv, k, n);
    ParameterSum(k, n);
  }

  /** What is xored into the first word is 0x0101kknn, section 2.5 of RFC 7693. */
  lemma ParameterBlock(outlen: nat, keylen: nat)
    requires 0 < outlen <= 64 && keylen <= 64
    ensures var h := InitialChain(outlen, keylen);
      Num64(Xor64(IV[0], h[0])) == 0x0101_0000 + 0x100 * keylen + outlen && h[1..] == IV[1..]
  {
    hide Num64, Xor64;
    NumOf(outlen);
    NumOf(keylen);
    NotAbove(outlen);
    NotAbove(keylen);
    ParameterOf(IV[0], keylen as bv64, outlen as bv64);
  }

  /** A key is the first block, filled up with zeros. */
  function KeyBlock(key: seq<Byte>): seq<Byte>
    requires |key| <= 64
  {
    if key == [] then [] else key + Repeat(128 - |key|, 0)
  }

  function NextBlock(F: Compression): (Chain, nat, seq<Byte>) -> Chain {
    (h: Chain, at: nat, block: seq<Byte>) => F(h, block, Lo(at + 128), Hi(at + 128), false)
  }

  /** Where the last block of d begins, be it full or the end of d. */
  function Last(d: seq<Byte>): (k: nat)
    ensures k % 128 == 0 && k <= |d| <= k + 128 && (d != [] ==> k < |d|)
  {
    if d == [] then 0 else (|d| - 1) / 128 * 128
  }

  function HashData(F: Compression, h: Chain, d: seq<Byte>): Chain {
    var k := Last(d);
    F(Fold(NextBlock(F), h, d[..k], 128), d[k..] + Repeat(k + 128 - |d|, 0), Lo(|d|), Hi(|d|), true)
  }

  /** Byte i of a chain value, little-endian word by word. */
  function OutByte(h: Chain, i: nat): Byte
    requires i < 64
  {
    ByteAt64(h[i / 8], i % 8)
  }

  function OutBytes(h: Chain, outlen: nat): (out: seq<Byte>)
    requires outlen <= 64
    ensures |out| == outlen
  {
    seq(outlen, i requires 0 <= i < outlen => OutByte(h, i))
  }

  lemma OutByteAt(h: Chain, k: nat, j: nat)
    requires k < 8 && j < 8
    ensures OutByte(h, 8 * k + j) == ByteAt64(h[k], j)
  {
    hide ByteAt64;
    assert (8 * k + j) / 8 == k && (8 * k + j) % 8 == j;
  }

  /** Word k of the chain value reads back from its place in the output. */
  lemma OutReadsBack(h: Chain, outlen: nat, k: nat)
    requires 8 * k + 8 <= outlen <= 64
    ensures OutBytes(h, outlen)[8 * k..8 * k + 8] == Enc64Le(h[k])
    ensures FromLittle(OutBytes(h, outlen)[8 * k..8 * k + 8]) == Num64(h[k])
  {
    hide OutByte, ByteAt64, Enc64Le, FromLittle, Num64;
    var out, w := OutBytes(h, outlen)[8 * k..8 * k + 8], Enc64Le(h[k]);
    forall j | 0 <= j < 8
      ensures out[j] == w[j]
    {
      OutByteAt(h, k, j);
      ByteIs64(h[k], j);
    }
    Enc64LeReadsBack(h[k]);
  }

  function Digest(F: Compression, outlen: nat, key: seq<Byte>, m: seq<Byte>): (out: seq<Byte>)
    requires 0 < outlen <= 64 && |key| <= 64
    ensures |out| == outlen
  {
    OutBytes(HashData(F, InitialChain(outlen, |key|), KeyBlock(key) + m), outlen)
  }

  /** The counter step: the carry is seen by comparing the sum with the addend. */
  lemma CountUp(n: nat, c: nat)
    requires c < TWO_64
    ensures (Lo(n) + c) % TWO_64 == Lo(n + c)
    ensures Hi(n + c) == if Lo(n + c) < c then (Hi(n) + 1) % TWO_64 else Hi(n)
  {
    CarryWord(n, c, TWO_64);
  }

  /** The state of a context that has received d, with buf in its buffer:
      everything but the last block, full or not, has been compressed. */
  ghost predicate Tracks(F: Compression, h0: Chain, d: seq<Byte>, h: Chain, t0: nat, t1: nat, buf: seq<Byte>) {
    var k := Last(d);
    buf == d[k..] && t0 == Lo(k) && t1 == Hi(k) && h == Fold(NextBlock(F), h0, d[..k], 128)
  }

  /** Nothing is compressed before the second block begins. */
  lemma TracksFirst(F: Compression, h0: Chain, d: seq<Byte>, h: Chain, t0: nat, t1: nat, buf: seq<Byte>)
    requires |d| <= 128
    ensures Tracks(F, h0, d, h, t0, t1, buf) <==> buf == d && t0 == t1 == 0 && h == h0
  {
    assert d[0..] == d;
  }

  lemma TracksMore(F: Compression, h0: Chain, d: seq<Byte>, h: Chain, t0: nat, t1: nat, buf: seq<Byte>, x: Byte)
    requires |buf| < 128 && Tracks(F, h0, d, h, t0, t1, buf)
    ensures Tracks(F, h0, d + [x], h, t0, t1, buf + [x])
  {
    var k := Last(d);
    assert Last(d + [x]) == k && d[..k] == (d + [x])[..k];
  }

  lemma TracksNext(F: Compression, h0: Chain, d: seq<Byte>, h: Chain, t0: nat, t1: nat, buf: seq<Byte>, x: Byte)
    requires Tracks(F, h0, d, h, t0, t1, buf) && |buf| == 128
    ensures var t0' := (t0 + 128) % TWO_64;
      var t1' := if t0' < 128 then (t1 + 1) % TWO_64 else t1;
      Tracks(F, h0, d + [x], F(h, buf, t0', t1', false), t0', t1', [x])
  {
    hide Fold, Lo, Hi, Last;
    var k := Last(d);
    NextLast(d, x);
    CountUp(k, 128);
    FoldSnoc(NextBlock(F), h0, d[..k], buf, 128);
    assert (d + [x])[..k + 128] == d[..k] + buf && (d + [x])[k + 128..] == [x];
  }

  /** The last block and its zeros complete the hash. */
  lemma TracksLast(F: Compression, h0: Chain, d: seq<Byte>, h: Chain, t0: nat, t1: nat, buf: seq<Byte>)
    requires Tracks(F, h0, d, h, t0, t1, buf)
    ensures |buf| <= 128
    ensures var t0' := (t0 + |buf|) % TWO_64;
      var t1' := if t0' < |buf| then (t1 + 1) % TWO_64 else t1;
      F(h, buf + Repeat(128 - |buf|, 0), t0', t1', true) == HashData(F, h0, d)
  {
    hide Fold, Lo, Hi;
    CountUp(Last(d), |buf|);
  }

  lemma NextLast(d: seq<Byte>, x: Byte)
    requires |d| == Last(d) + 128
    ensures Last(d + [x]) == Last(d) + 128
  {
  }

  class Context {
    const F: Compression
    const b: array<Byte>
    var h: Chain
    var t0: nat
    var t1: nat
    var c: nat
    var outlen: nat
    ghost var h0: Chain              // chain value at the last initialization
    ghost var absorbed: seq<Byte>    // key block and message bytes since then

    ghost predicate Valid()
      reads this, b
    {
      b.Length == 128 && 0 < outlen <= 64 && c <= 128 && t0 < TWO_64 && t1 < TWO_64 &&
      Tracks(F, h0, absorbed, h, t0, t1, b[..c])
    }

    constructor (F: Compression)
      ensures this.F == F && fresh(b) && b.Length == 128
    {
      this.F := F;
      b := new Byte[128];
      h := IV;
    }

    method Init(outlen: nat, key: seq<Byte>) returns (ret: int)
      requires b.Length == 128
      modifies this, b
      ensures ret == if outlen == 0 || outlen > 64 || |key| > 64 then -1 else 0
      ensures ret == 0 ==> Valid() && absorbed == KeyBlock(key) && this.outlen == outlen && h0 == InitialChain(outlen, |key|)
      ensures ret != 0 ==> unchanged(this) && unchanged(b)
    {
      if outlen == 0 || outlen > 64 || |key| > 64 {
        return -1;
      }
      hide Tracks, InitialChain;
      h := InitialChain(outlen, |key|);
      h0, absorbed := h, [];
      t0, t1, c := 0, 0, 0;
      this.outlen := outlen;
      Fill(b, |key|, 128 - |key|, 0);
      TracksFirst(F, h0, [], h, t0, t1, b[..0]);
      if |key| > 0 {
        LoadKey(key);
      }
      return 0;
    }

    /** The key is read like data; then the pointer is set to the end of the block. */
    method LoadKey(key: seq<Byte>)
      requires 0 < |key| <= 64 && Valid() && absorbed == [] && h0 == h
      requires b[|key|..] == Repeat(128 - |key|, 0)
      modifies this, b
      ensures Valid() && absorbed == KeyBlock(key) && outlen == old(outlen) && h0 == old(h0)
    {
      hide Tracks;
      TracksFirst(F, h0, [], h, t0, t1, b[..c]);
      Update(key);
      assert absorbed == key;
      TracksFirst(F, h0, key, h, t0, t1, b[..c]);
      c := 128;
      absorbed := KeyBlock(key);
      TracksFirst(F, h0, absorbed, h, t0, t1, b[..c]);
    }

    method Update(data: seq<Byte>)
      requires Valid()
      modifies this, b
      ensures Valid() && absorbed == old(absorbed) + data && outlen == old(outlen) && h0 == old(h0)
      ensures old(c) + |data| <= 128 ==> c == old(c) + |data| && b[c..] == old(b[..])[c..]
    {
      hide Tracks;
      for i := 0 to |data|
        invariant Valid() && absorbed == old(absorbed) + data[..i] && outlen == old(outlen) && h0 == old(h0)
        invariant old(c) + i <= 128 ==> c == old(c) + i && b[c..] == old(b[..])[c..]
      {
        PutByte(data[i]);
        assert data[..i + 1] == data[..i] + [data[i]];
      }
      assert data[..|data|] == data;
    }

    /** One turn of the loop in the update. */
    method PutByte(x: Byte)
      requires Valid()
      modifies this, b
      ensures Valid() && absorbed == old(absorbed) + [x] && outlen == old(outlen) && h0 == old(h0)
      ensures old(c) < 128 ==> c == old(c) + 1 && b[c..] == old(b[..])[c..]
      ensures old(c) == 128 ==> c == 1
    {
      hide Tracks;
      if c == 128 {
        TracksNext(F, h0, absorbed, h, t0, t1, b[..c], x);
        Increment();
        assert b[..] == b[..c];
        h := F(h, b[..], t0, t1, false);
        c := 0;
      } else {
        TracksMore(F, h0, absorbed, h, t0, t1, b[..c], x);
      }
      ghost var buf := b[..c];
      b[c] := x;
      c := c + 1;
      assert b[..c] == buf + [x] && (buf == [] ==> buf + [x] == [x]);
      absorbed := absorbed + [x];
    }

    /** Adds the bytes in the buffer to the two-word counter. */
    method Increment()
      requires t0 < TWO_64 && t1 < TWO_64
      modifies this`t0, this`t1
      ensures t0 == (old(t0) + c) % TWO_64
      ensures t1 == if t0 < c then (old(t1) + 1) % TWO_64 else old(t1)
    {
      t0 := (t0 + c) % TWO_64;
      if t0 < c {
        t1 := (t1 + 1) % TWO_64;
      }
    }

    method Final() returns (out: seq<Byte>)
      requires Valid()
      modifies this, b
      ensures out == OutBytes(HashData(F, old(h0), old(absorbed)), old(outlen))
    {
      hide OutBytes, Tracks, HashData;
      ghost var buf := b[..c];
      TracksLast(F, h0, absorbed, h, t0, t1, buf);
      Increment();
      Fill(b, c, 128 - c, 0);
      assert b[..] == buf + Repeat(128 - |buf|, 0);
      c := 128;
      h := F(h, b[..], t0, t1, true);
      out := WriteBytes();
    }

    /** The loop over the output. */
    method WriteBytes() returns (out: seq<Byte>)
      requires outlen <= 64
      ensures out == OutBytes(h, outlen)
    {
      hide OutByte;
      out := [];
      for i := 0 to outlen
        invariant |out| == i
        invariant forall j :: 0 <= j < i ==> out[j] == OutByte(h, j)
      {
        out := out + [OutByte(h, i)];
      }
    }

    /** A copy of the whole structure. */
    method CopyFrom(other: Context)
      requires other.Valid() && F == other.F && b.Length == 128 && this != other && b != other.b
      modifies this, b
      ensures Valid() && absorbed == other.absorbed && h0 == other.h0 && outlen == other.outlen
    {
      hide Tracks;
      ghost var buf := other.b[..other.c];
      forall i | 0 <= i < 128 { b[i] := other.b[i]; }
      assert b[..other.c] == buf;
      h, t0, t1, c, outlen := other.h, other.t0, other.t1, other.c, other.outlen;
      h0, absorbed := other.h0, other.absorbed;
      assert b[..c] == buf;
    }
  }

  /** Init, any number of updates and final: the one-shot digest, keyed or not. */
  method DigestOfPieces(F: Compression, outlen: nat, key: seq<Byte>, pieces: seq<seq<Byte>>) returns (out: seq<Byte>)
    requires 0 < outlen <= 64 && |key| <= 64
    ensures out == Digest(F, outlen, key, Flatten(pieces))
  {
    hide Tracks, HashData, InitialChain, OutBytes;
    var ctx := new Context(F);
    var ret := ctx.Init(outlen, key);
    for i := 0 to |pieces|
      invariant ctx.Valid() && fresh(ctx) && fresh(ctx.b) && ctx.F == F && ctx.outlen == outlen
      invariant ctx.absorbed == KeyBlock(key) + Flatten(pieces[..i]) && ctx.h0 == InitialChain(outlen, |key|)
    {
      FlattenSnoc(pieces, i);
      ctx.Update(pieces[i]);
    }
    assert pieces[..|pieces|] == pieces;
    out := ctx.Final();
  }
}

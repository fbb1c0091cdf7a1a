/** ECHO as an incremental hash: its 128-bit bit counter, the block buffer and
    the close, for either compression function. */
module EchoHash {
  import opened Bytes
  import opened Blocks
  import opened Echo
  import opened EchoWords
  import opened Words

  // Chain value, block, counter.
  type Compression<!V> = (V, seq<Byte>, Counter) -> V

  /** n as four words. */
  function CounterOf(n: nat): (c: Counter)
    ensures c.Valid()
  {
    var q1 := n / TWO_32;
    var q2 := q1 / TWO_32;
    var q3 := q2 / TWO_32;
    Counter(n % TWO_32, q1 % TWO_32, q2 % TWO_32, q3 % TWO_32)
  }

  /** INCR_COUNTER. */
  function Incr(c: Counter, val: nat): (r: Counter)
    requires c.Valid() && val < TWO_32
    ensures r.Valid()
  {
    var c0 := (c.c0 + val) % TWO_32;
    if val <= c0 then Counter(c0, c.c1, c.c2, c.c3)
    else if Inc(c.c1) != 0 then Counter(c0, Inc(c.c1), c.c2, c.c3)
    else if Inc(c.c2) != 0 then Counter(c0, 0, Inc(c.c2), c.c3)
    else Counter(c0, 0, 0, Inc(c.c3))
  }

  lemma Carry(q: nat)
    ensures Inc(q % TWO_32) == (q + 1) % TWO_32
    ensures (q + 1) / TWO_32 == if (q + 1) % TWO_32 == 0 then q / TWO_32 + 1 else q / TWO_32
  {
  }

  /** The carries ripple as in a 128-bit addition. */
  lemma IncrCounts(n: nat, val: nat)
    requires val < TWO_32
    ensures Incr(CounterOf(n), val) == CounterOf(n + val)
  {
    var q1 := n / TWO_32;
    var q2 := q1 / TWO_32;
    assert (n + val) / TWO_32 == if val <= (n % TWO_32 + val) % TWO_32 then q1 else q1 + 1;
    assert (n % TWO_32 + val) % TWO_32 == (n + val) % TWO_32;
    Carry(q1);
    Carry(q2);
    Carry(q2 / TWO_32);
  }

  // One-shot definition.

  /** Message bits hashed once the block at byte offset d is, of bits in all;
      0 for a block that holds none of them. */
  function Count(size: nat, bits: nat, d: nat): nat {
    if bits <= 8 * d then 0 else Min(8 * (d + size), bits)
  }

  function Step<V>(F: Compression<V>, size: nat, bits: nat): (V, nat, seq<Byte>) -> V {
    (v: V, d: nat, block: seq<Byte>) => F(v, block, CounterOf(Count(size, bits, d)))
  }

  function Word32(w: nat): (s: seq<Byte>)
    ensures |s| == 4
  {
    LittleEndian(w, 4)
  }

  function CounterBytes(c: Counter): (s: seq<Byte>)
    ensures |s| == 16
  {
    Word32(c.c0) + Word32(c.c1) + Word32(c.c2) + Word32(c.c3)
  }

  /** Zeros after the partial byte of a message with rest bytes in its last block. */
  function Zeros(size: nat, rest: nat): nat
    requires size == 128 || size == 192
    requires rest < size
  {
    if rest + 1 <= size - 18 then size - 19 - rest else 2 * size - 19 - rest
  }

  /** The bits, a one, zeros, the digest length and the bit count. */
  function Padded(size: nat, m: seq<Byte>, ub: bv32, n: nat, outBits: nat): (p: seq<Byte>)
    requires (size == 128 || size == 192) && n < 8
  {
    var rest := if size == 128 then |m| % 128 else |m| % 192;
    m + ([TrailingByte(ub, n)] + Repeat(Zeros(size, rest), 0) +
         (LittleEndian(outBits, 2) + CounterBytes(CounterOf(8 * |m| + n))))
  }

  lemma PaddedWhole(size: nat, m: seq<Byte>, ub: bv32, n: nat, outBits: nat)
    requires (size == 128 || size == 192) && n < 8
    ensures if size == 128 then |Padded(size, m, ub, n, outBits)| % 128 == 0
            else |Padded(size, m, ub, n, outBits)| % 192 == 0
    ensures |Padded(size, m, ub, n, outBits)| <= |m| + size + 18
  {
    hide TrailingByte, CounterOf, LittleEndian;
    var rest := if size == 128 then |m| % 128 else |m| % 192;
    var more := 19 + Zeros(size, rest);
    assert |Padded(size, m, ub, n, outBits)| == |m| + more;
    hide Padded;
    var blocks := if rest + 1 <= size - 18 then 1 else 2;
    if size == 128 {
      Completes(|m|, 128, |m| / 128, rest, more, blocks);
    } else {
      Completes(|m|, 192, |m| / 192, rest, more, blocks);
    }
  }

  lemma CounterOfValue(n: nat)
    ensures CounterOf(n).Value() == n % TWO_128
  {
    var q1 := n / TWO_32;
    var q2 := q1 / TWO_32;
    var q3 := q2 / TWO_32;
    assert n == TWO_32 * q1 + n % TWO_32 && q1 == TWO_32 * q2 + q1 % TWO_32 && q2 == TWO_32 * q3 + q2 % TWO_32;
    assert q3 == TWO_32 * (q3 / TWO_32) + q3 % TWO_32;
    ModUnique(n, TWO_128, q3 / TWO_32, CounterOf(n).Value());
  }

  lemma Word32Value(w: nat)
    requires w < TWO_32
    ensures FromLittle(Word32(w)) == w
  {
    hide FromLittle, LittleEndian;
    LittleReadsBack(w, 4);
    Pow256Four();
    ModUnique(w, TWO_32, 0, w);
  }

  lemma LittlePair(a: seq<Byte>, b: seq<Byte>)
    requires |a| == 4
    ensures FromLittle(a + b) == FromLittle(a) + TWO_32 * FromLittle(b)
  {
    LittleConcat(a, b);
    Pow256Four();
  }

  /** The four words go out as one number of 128 bits. */
  lemma CounterBytesValue(c: Counter)
    requires c.Valid()
    ensures FromLittle(CounterBytes(c)) == c.Value()
  {
    hide FromLittle, Word32;
    var w0, w1, w2, w3 := Word32(c.c0), Word32(c.c1), Word32(c.c2), Word32(c.c3);
    Word32Value(c.c0);
    Word32Value(c.c1);
    Word32Value(c.c2);
    Word32Value(c.c3);
    LittlePair(w2, w3);
    LittlePair(w1, w2 + w3);
    LittlePair(w0, w1 + (w2 + w3));
    assert w0 + w1 + w2 + w3 == w0 + (w1 + (w2 + w3));
  }

  /** The padded message ends in the digest length and its own length in bits. */
  lemma PaddedEnds(size: nat, m: seq<Byte>, ub: bv32, n: nat, outBits: nat)
    requires (size == 128 || size == 192) && n < 8
    ensures var p := Padded(size, m, ub, n, outBits);
      |p| >= 18 && FromLittle(p[|p| - 16..]) == (8 * |m| + n) % TWO_128 &&
      FromLittle(p[|p| - 18..|p| - 16]) == outBits % 0x1_0000
  {
    hide FromLittle, LittleEndian, CounterBytes, CounterOf, TrailingByte;
    var c := CounterOf(8 * |m| + n);
    CounterOfValue(8 * |m| + n);
    CounterBytesValue(c);
    LittleReadsBack(outBits, 2);
    assert Pow256(2) == 0x1_0000;
    var p := Padded(size, m, ub, n, outBits);
    assert p[|p| - 16..] == CounterBytes(c) && p[|p| - 18..|p| - 16] == LittleEndian(outBits, 2);
  }

  /** The chain value after the padded message. */
  function Chain<V>(F: Compression<V>, size: nat, iv: V, m: seq<Byte>, ub: bv32, n: nat, outBits: nat): V
    requires (size == 128 || size == 192) && n < 8
  {
    Fold(Step(F, size, 8 * |m| + n), iv, Padded(size, m, ub, n, outBits), size)
  }

  // What a build writes of a chain value, as so many 32-bit words.
  type Writer<!V> = (V, nat) -> seq<Byte>

  /** The digest of outWords 32-bit words. */
  function Digest<V>(F: Compression<V>, out: Writer<V>, size: nat, iv: V, m: seq<Byte>, ub: bv32, n: nat, outWords: nat): seq<Byte>
    requires (size == 128 || size == 192) && n < 8
  {
    out(Chain(F, size, iv, m, ub, n, 32 * outWords), outWords)
  }

  /** The step while the message goes on: every block is full of message bits. */
  function FullStep<V>(F: Compression<V>, size: nat): (V, nat, seq<Byte>) -> V {
    (v: V, d: nat, block: seq<Byte>) => F(v, block, CounterOf(8 * (d + size)))
  }

  /** Counting towards the whole length makes no difference before its end. */
  lemma FullIsCounted<V(!new)>(F: Compression<V>, size: nat, iv: V, done: seq<Byte>, bits: nat)
    requires size > 0 && 8 * |done| <= bits
    ensures Fold(FullStep(F, size), iv, done, size) == Fold(Step(F, size, bits), iv, done, size)
  {
    forall v: V, d: nat, b: seq<Byte> | d + size <= |done|
      ensures FullStep(F, size)(v, d, b) == Step(F, size, bits)(v, d, b)
    {
      assert Count(size, bits, d) == 8 * (d + size);
    }
    FoldAgree(FullStep(F, size), Step(F, size, bits), iv, done, size);
  }

  /** What follows the message in a close of one block. */
  function OnlyTail(size: nat, rest: nat, bits: nat, ub: bv32, n: nat, outBits: nat): (t: seq<Byte>)
    requires rest + 19 <= size && n < 8
    ensures rest + |t| == size
  {
    [TrailingByte(ub, n)] + Repeat(size - 19 - rest, 0) + (LittleEndian(outBits, 2) + CounterBytes(CounterOf(bits)))
  }

  function FirstTail(size: nat, rest: nat, ub: bv32, n: nat): (t: seq<Byte>)
    requires rest < size && n < 8
    ensures rest + |t| == size
  {
    [TrailingByte(ub, n)] + Repeat(size - 1 - rest, 0)
  }

  function SecondBlock(size: nat, bits: nat, outBits: nat): (t: seq<Byte>)
    requires size >= 18
    ensures |t| == size
  {
    Repeat(size - 18, 0) + (LittleEndian(outBits, 2) + CounterBytes(CounterOf(bits)))
  }

  lemma PaddedTwice(size: nat, m: seq<Byte>, ub: bv32, n: nat, outBits: nat, rest: nat)
    requires (size == 128 || size == 192) && n < 8
    requires rest == (if size == 128 then |m| % 128 else |m| % 192) && rest + 1 > size - 18
    ensures Padded(size, m, ub, n, outBits) ==
      m + FirstTail(size, rest, ub, n) + SecondBlock(size, 8 * |m| + n, outBits)
  {
    hide TrailingByte, CounterBytes, CounterOf, LittleEndian;
    assert Repeat(Zeros(size, rest), 0) == Repeat(size - 1 - rest, 0) + Repeat(size - 18, 0);
  }

  lemma ChainOnce<V(!new)>(F: Compression<V>, size: nat, iv: V, m: seq<Byte>, v: V, held: seq<Byte>, ub: bv32, n: nat, outBits: nat)
    requires (size == 128 || size == 192) && n < 8
    requires |held| == (if size == 128 then |m| % 128 else |m| % 192) && |held| + 19 <= size
    requires Buffered(FullStep(F, size), iv, m, v, held, size)
    ensures var bits := 8 * |m| + n;
      Chain(F, size, iv, m, ub, n, outBits) ==
      F(v, held + OnlyTail(size, |held|, bits, ub, n, outBits), CounterOf(Count(size, bits, |m| - |held|)))
  {
    hide TrailingByte, CounterBytes, CounterOf, LittleEndian, FullStep, Fold, Count;
    var bits, k := 8 * |m| + n, |m| - |held|;
    FullIsCounted(F, size, iv, m[..k], bits);
    var tail := OnlyTail(size, |held|, bits, ub, n, outBits);
    assert Padded(size, m, ub, n, outBits) == m + tail;
    hide OnlyTail, Padded;
    FoldSnoc(Step(F, size, bits), iv, m[..k], held + tail, size);
    assert m[..k] + (held + tail) == m + tail;
  }

  lemma ChainTwice<V(!new)>(F: Compression<V>, size: nat, iv: V, m: seq<Byte>, v: V, held: seq<Byte>, ub: bv32, n: nat, outBits: nat)
    requires (size == 128 || size == 192) && n < 8
    requires |held| == (if size == 128 then |m| % 128 else |m| % 192) && |held| + 19 > size
    requires Buffered(FullStep(F, size), iv, m, v, held, size)
    ensures var bits := 8 * |m| + n;
      Chain(F, size, iv, m, ub, n, outBits) ==
      F(F(v, held + FirstTail(size, |held|, ub, n), CounterOf(Count(size, bits, |m| - |held|))),
        SecondBlock(size, bits, outBits), ZERO)
  {
    var bits, k := 8 * |m| + n, |m| - |held|;
    FullIsCounted(F, size, iv, m[..k], bits);
    PaddedTwice(size, m, ub, n, outBits, |held|);
    var tail, second := FirstTail(size, |held|, ub, n), SecondBlock(size, bits, outBits);
    assert Count(size, bits, |m + tail|) == 0 && CounterOf(0) == ZERO;
    hide TrailingByte, CounterBytes, CounterOf, LittleEndian, FirstTail, SecondBlock, Padded, FullStep, Count;
    FoldSnoc(Step(F, size, bits), iv, m[..k], held + tail, size);
    assert m[..k] + (held + tail) == m + tail;
    FoldSnoc(Step(F, size, bits), iv, m + tail, second, size);
  }

  class Context<V(!new)> {
    const size: nat           // bytes in a block: 192 or 128
    const F: Compression<V>
    const out: Writer<V>
    const iv: V
    const buf: array<Byte>
    var v: V
    var c: Counter
    var ptr: nat
    ghost var absorbed: seq<Byte>   // every byte received since the last initialization

    ghost predicate Structure()
      reads this
    {
      (size == 128 || size == 192) && buf.Length == size && ptr < size && c.Valid()
    }

    ghost predicate Valid()
      reads this, buf
    {
      Structure() && ptr == (if size == 128 then |absorbed| % 128 else |absorbed| % 192) &&
      c == CounterOf(8 * (|absorbed| - ptr)) &&
      Buffered(FullStep(F, size), iv, absorbed, v, buf[..ptr], size)
    }

    constructor (size: nat, F: Compression<V>, out: Writer<V>, iv: V)
      requires size == 128 || size == 192
      ensures Valid() && fresh(buf) && absorbed == []
      ensures this.size == size && this.F == F && this.out == out && this.iv == iv
    {
      this.size, this.F, this.out, this.iv, v := size, F, out, iv, iv;
      buf := new Byte[size];
      c, ptr, absorbed := ZERO, 0, [];
      new;
      BufferedStart(FullStep(F, size), iv, size);
    }

    method Init()
      requires Structure()
      modifies this
      ensures Valid() && absorbed == []
    {
      v, c, ptr, absorbed := iv, ZERO, 0, [];
      BufferedStart(FullStep(F, size), iv, size);
    }

    method Core(data: seq<Byte>)
      requires Valid()
      modifies this, buf
      ensures Valid() && absorbed == old(absorbed) + data
    {
      hide Buffered, CounterOf;
      if |data| < buf.Length - ptr {
        Buffer(data);
        return;
      }
      var rest := data;
      while rest != []
        invariant Valid() && absorbed + rest == old(absorbed) + data
        decreases |rest|
      {
        var clen := Min(buf.Length - ptr, |rest|);
        assert rest == rest[..clen] + rest[clen..];
        Buffer(rest[..clen]);
        rest := rest[clen..];
      }
    }

    /** Copies input that fits into the buffer; counts and compresses it when full. */
    method Buffer(data: seq<Byte>)
      requires Valid() && ptr + |data| <= size
      modifies this, buf
      ensures Valid() && absorbed == old(absorbed) + data
    {
      hide Buffered, CounterOf, Incr;
      ghost var m, held := absorbed, buf[..ptr];
      WrapAdd(|m|, |data|, size);
      CopyInto(buf, ptr, data);
      ptr := ptr + |data|;
      absorbed := absorbed + data;
      if ptr == buf.Length {
        ghost var k := |m| - |held|;
        BufferedFull(FullStep(F, size), iv, m, v, held, size, data);
        assert buf[..] == buf[..ptr];
        IncrCounts(8 * k, 8 * size);
        c := Incr(c, 8 * size);
        v := F(v, buf[..], c);
        ptr := 0;
        assert buf[..ptr] == [];
      } else {
        BufferedMore(FullStep(F, size), iv, m, v, held, size, data);
      }
    }

    /** The end of the last block: the digest length and the bit count. */
    method PutLength(outBits: nat, count: seq<Byte>)
      requires Structure() && |count| == 16
      modifies buf
      ensures buf[..] == old(buf[..size - 18]) + (LittleEndian(outBits, 2) + count)
    {
      hide LittleEndian;
      CopyInto(buf, size - 18, LittleEndian(outBits, 2));
      CopyInto(buf, size - 16, count);
    }

    /** Counts the last bits, notes the count, and clears it when there are none. */
    method CountLast(n: nat, ghost k: nat) returns (count: seq<Byte>)
      requires Structure() && n < 8 && c == CounterOf(8 * k)
      modifies this`c
      ensures Structure() && count == CounterBytes(CounterOf(8 * k + (8 * ptr + n)))
      ensures c == CounterOf(Count(size, 8 * k + (8 * ptr + n), k))
    {
      hide CounterOf, Incr, CounterBytes;
      var elen := 8 * ptr + n;
      IncrCounts(8 * k, elen);
      c := Incr(c, elen);
      count := CounterBytes(c);
      if elen == 0 {
        c := ZERO;
      }
      ClearedCount(k, elen, c);
    }

    /** Pads and compresses one or two last blocks; the counter is already set. */
    method LastBlocks(ub: bv32, n: nat, outBits: nat, count: seq<Byte>, ghost m: seq<Byte>)
      requires Structure() && n < 8 && ptr == (if size == 128 then |m| % 128 else |m| % 192)
      requires Buffered(FullStep(F, size), iv, m, v, buf[..ptr], size)
      requires count == CounterBytes(CounterOf(8 * |m| + n)) && c == CounterOf(Count(size, 8 * |m| + n, |m| - ptr))
      modifies this`v, this`c, buf
      ensures Structure() && v == Chain(F, size, iv, m, ub, n, outBits)
    {
      hide Buffered, CounterOf, Count, Chain, FullStep, TrailingByte, CounterBytes, LittleEndian;
      ghost var held := buf[..ptr];
      buf[ptr] := TrailingByte(ub, n);
      Fill(buf, ptr + 1, size - 1 - ptr, 0);
      assert buf[..] == held + FirstTail(size, ptr, ub, n);
      if ptr + 1 > size - 18 {
        ChainTwice(F, size, iv, m, v, held, ub, n, outBits);
        v, c := F(v, buf[..], c), ZERO;
        PutSecond(outBits, count, 8 * |m| + n);
      } else {
        ChainOnce(F, size, iv, m, v, held, ub, n, outBits);
        PutOnly(held, ub, n, outBits, count, 8 * |m| + n);
      }
      v := F(v, buf[..], c);
    }

    /** A block of zeros with the length at its end. */
    method PutSecond(outBits: nat, count: seq<Byte>, ghost bits: nat)
      requires Structure() && count == CounterBytes(CounterOf(bits))
      modifies buf
      ensures buf[..] == SecondBlock(size, bits, outBits)
    {
      hide CounterOf, CounterBytes, LittleEndian;
      Fill(buf, 0, size, 0);
      PutLength(outBits, count);
    }

    /** The length over the end of the zeros. */
    method PutOnly(ghost held: seq<Byte>, ub: bv32, n: nat, outBits: nat, count: seq<Byte>, ghost bits: nat)
      requires Structure() && n < 8 && count == CounterBytes(CounterOf(bits)) && |held| + 19 <= size
      requires buf[..] == held + FirstTail(size, |held|, ub, n)
      modifies buf
      ensures buf[..] == held + OnlyTail(size, |held|, bits, ub, n, outBits)
    {
      hide CounterOf, CounterBytes, LittleEndian, TrailingByte;
      assert buf[..size - 18] == held + ([TrailingByte(ub, n)] + Repeat(size - 19 - |held|, 0));
      PutLength(outBits, count);
    }

    /** The digest of the message and its n trailing bits, whatever the splits were. */
    method Close(ub: bv32, n: nat, outWords: nat) returns (dst: seq<Byte>)
      requires Valid() && n < 8
      modifies this, buf
      ensures dst == Digest(F, out, size, iv, old(absorbed), ub, n, outWords)
      ensures Valid() && absorbed == []
    {
      hide Buffered, CounterOf, Count, Chain, FullStep, CounterBytes;
      var count := CountLast(n, |absorbed| - ptr);
      LastBlocks(ub, n, 32 * outWords, count, absorbed);
      dst := out(v, outWords);
      Init();
    }

    /** A block without message bits is counted as zero. */
    lemma ClearedCount(k: nat, elen: nat, c: Counter)
      requires size > 0 && elen < 8 * size
      requires c == if elen == 0 then ZERO else CounterOf(8 * k + elen)
      ensures c == CounterOf(Count(size, 8 * k + elen, k))
    {
    }
  }

  /** Any run of the interface on one message: every split gives the same digest. */
  method DigestOfPieces<V(!new)>(size: nat, F: Compression<V>, out: Writer<V>, iv: V, pieces: seq<seq<Byte>>,
                                 ub: bv32, n: nat, outWords: nat) returns (dst: seq<Byte>)
    requires (size == 128 || size == 192) && n < 8
    ensures dst == Digest(F, out, size, iv, Flatten(pieces), ub, n, outWords)
  {
    hide Digest, Buffered, CounterOf, FullStep;
    var sc := new Context(size, F, out, iv);
    for i := 0 to |pieces|
      invariant sc.Valid() && fresh(sc) && fresh(sc.buf)
      invariant sc.size == size && sc.F == F && sc.out == out && sc.iv == iv && sc.absorbed == Flatten(pieces[..i])
    {
      FlattenSnoc(pieces, i);
      sc.Core(pieces[i]);
    }
    assert pieces[..|pieces|] == pieces;
    dst := sc.Close(ub, n, outWords);
  }

  // The two builds of the code give the same digests.

  predicate Fits(v: nat, block: seq<Byte>, c: Counter) {
    (v == 4 || v == 8) && |block| == 16 * (16 - v) && c.Valid()
  }

  function Packed(aes: Aes): Compression<seq<Row64>> {
    (v: seq<Row64>, block: seq<Byte>, c: Counter) => if Fits(|v|, block, c) then Compress64(aes, v, block, c) else v
  }

  function Plain(aes: Aes): Compression<seq<Row32>> {
    (v: seq<Row32>, block: seq<Byte>, c: Counter) => if Fits(|v|, block, c) then Compress32(aes, v, block, c) else v
  }

  function InitialRow64(outLen: bv32): Row64 { Row64(outLen as bv64, 0) }

  function Initial64(rows: nat, outLen: bv32): (v: seq<Row64>)
    ensures |v| == rows
  {
    seq(rows, i => InitialRow64(outLen))
  }

  function Initial32(rows: nat, outLen: bv32): (v: seq<Row32>)
    ensures |v| == rows
  {
    seq(rows, i => Row32(outLen, 0, 0, 0))
  }

  lemma InitialHolds(rows: nat, outLen: bv32)
    ensures AllHold(Initial64(rows, outLen), Initial32(rows, outLen))
  {
    assert RowHolds(InitialRow64(outLen), Row32(outLen, 0, 0, 0));
    hide RowHolds;
  }

  lemma {:induction false} FoldHolds(aes: Aes, size: nat, bits: nat, x: seq<Row64>, y: seq<Row32>, m: seq<Byte>)
    requires AllHold(x, y) && (|x| == 4 || |x| == 8) && size == 16 * (16 - |x|)
    ensures var x' := Fold(Step(Packed(aes), size, bits), x, m, size);
      |x'| == |x| && AllHold(x', Fold(Step(Plain(aes), size, bits), y, m, size))
    decreases |m|
  {
    hide Count, CounterOf, Compress64, Compress32, RowHolds;
    if size <= |m| {
      var d := |m| - size;
      FoldHolds(aes, size, bits, x, y, m[..d]);
      CompressHolds(aes, Fold(Step(Packed(aes), size, bits), x, m[..d], size),
                    Fold(Step(Plain(aes), size, bits), y, m[..d], size), m[d..], CounterOf(Count(size, bits, d)));
    }
  }

  /** Word k of a matrix, row by row. */
  function Word32At(v: seq<Row32>, k: nat): bv32
    requires k < 4 * |v|
  {
    var y := v[k / 4];
    match k % 4
    case 0 => y.w0
    case 1 => y.w1
    case 2 => y.w2
    case _ => y.w3
  }

  function Word64At(v: seq<Row64>, k: nat): bv64
    requires k < 2 * |v|
  {
    if k % 2 == 0 then v[k / 2].lo else v[k / 2].hi
  }

  function Words32(v: seq<Row32>, n: nat): (s: seq<Byte>)
    requires n <= 4 * |v|
    ensures |s| == 4 * n
  {
    if n == 0 then [] else Words32(v, n - 1) + Enc32Le(Word32At(v, n - 1))
  }

  function Words64(v: seq<Row64>, n: nat): (s: seq<Byte>)
    requires n <= 2 * |v|
    ensures |s| == 8 * n
  {
    if n == 0 then [] else Words64(v, n - 1) + Enc64Le(Word64At(v, n - 1))
  }

  /** Word k of the chain value reads back from its place. */
  lemma {:induction false} Words32ReadBack(v: seq<Row32>, n: nat, k: nat)
    requires k < n <= 4 * |v|
    ensures FromLittle(Words32(v, n)[4 * k..4 * k + 4]) == Num32(Word32At(v, k))
  {
    hide FromLittle, LittleEndian, Enc32Le, Num32, Word32At;
    var before := Words32(v, n - 1);
    if k < n - 1 {
      Words32ReadBack(v, n - 1, k);
      assert Words32(v, n)[4 * k..4 * k + 4] == before[4 * k..4 * k + 4];
    } else {
      assert Words32(v, n)[4 * k..4 * k + 4] == Enc32Le(Word32At(v, k));
      Enc32LeReadsBack(Word32At(v, k));
    }
  }

  /** The loop of the 32-bit build. */
  method WriteWords32(v: seq<Row32>, outWords: nat) returns (dst: seq<Byte>)
    requires outWords <= 4 * |v|
    ensures dst == Words32(v, outWords)
  {
    hide Enc32Le, Word32At;
    var tmp := [];
    for k := 0 to outWords
      invariant tmp == Words32(v, k)
    {
      tmp := tmp + Enc32Le(Word32At(v, k));
    }
    dst := tmp[..4 * outWords];
  }

  /** The loop of the 64-bit build writes whole double words, half a one too many for
      an odd digest; the copy cuts it off. */
  method WriteWords64(v: seq<Row64>, outWords: nat) returns (dst: seq<Byte>)
    requires outWords <= 4 * |v|
    ensures dst == Words64(v, (outWords + 1) / 2)[..4 * outWords]
  {
    hide Enc64Le, Word64At;
    var tmp := [];
    for k := 0 to (outWords + 1) / 2
      invariant tmp == Words64(v, k)
    {
      tmp := tmp + Enc64Le(Word64At(v, k));
    }
    dst := tmp[..4 * outWords];
  }

  function Out32(): Writer<seq<Row32>> {
    (v: seq<Row32>, n: nat) => if n <= 4 * |v| then Words32(v, n) else []
  }

  function Out64(): Writer<seq<Row64>> {
    (v: seq<Row64>, n: nat) => if n <= 4 * |v| then Words64(v, (n + 1) / 2)[..4 * n] else []
  }

  lemma EncHolds(x: bv64, lo: bv32, hi: bv32)
    requires Holds(x, lo, hi)
    ensures Enc64Le(x) == Enc32Le(lo) + Enc32Le(hi)
  {
    EncBits(x, lo, hi);
  }

  lemma EncBits(x: bv64, lo: bv32, hi: bv32)
    requires x == (lo as bv64) | ((hi as bv64) << 32)
    ensures (x & 0xFF) as Byte == (lo & 0xFF) as Byte
    ensures ((x >> 8) & 0xFF) as Byte == ((lo >> 8) & 0xFF) as Byte
    ensures ((x >> 16) & 0xFF) as Byte == ((lo >> 16) & 0xFF) as Byte
    ensures ((x >> 24) & 0xFF) as Byte == (lo >> 24) as Byte
    ensures ((x >> 32) & 0xFF) as Byte == (hi & 0xFF) as Byte
    ensures ((x >> 40) & 0xFF) as Byte == ((hi >> 8) & 0xFF) as Byte
    ensures ((x >> 48) & 0xFF) as Byte == ((hi >> 16) & 0xFF) as Byte
    ensures (x >> 56) as Byte == (hi >> 24) as Byte
  {
  }

  /** A double word of the packed matrix is two words of the other. */
  lemma WordHolds(x: seq<Row64>, y: seq<Row32>, k: nat)
    requires AllHold(x, y) && k < 2 * |x|
    ensures Enc64Le(Word64At(x, k)) == Enc32Le(Word32At(y, 2 * k)) + Enc32Le(Word32At(y, 2 * k + 1))
  {
    hide Holds, Enc64Le, Enc32Le;
    assert RowHolds(x[k / 2], y[k / 2]);
    if k % 2 == 0 {
      assert 2 * k / 4 == k / 2 && (2 * k + 1) / 4 == k / 2 && 2 * k % 4 == 0 && (2 * k + 1) % 4 == 1;
      EncHolds(x[k / 2].lo, y[k / 2].w0, y[k / 2].w1);
    } else {
      assert 2 * k / 4 == k / 2 && (2 * k + 1) / 4 == k / 2 && 2 * k % 4 == 2 && (2 * k + 1) % 4 == 3;
      EncHolds(x[k / 2].hi, y[k / 2].w2, y[k / 2].w3);
    }
  }

  lemma {:induction false} WordsHold(x: seq<Row64>, y: seq<Row32>, k: nat)
    requires AllHold(x, y) && |x| == |y| && k <= 2 * |x|
    ensures Words64(x, k) == Words32(y, 2 * k)
  {
    hide AllHold, Enc64Le, Enc32Le, Word64At, Word32At;
    if k > 0 {
      WordsHold(x, y, k - 1);
      WordHolds(x, y, k - 1);
      var a, b := Enc32Le(Word32At(y, 2 * k - 2)), Enc32Le(Word32At(y, 2 * k - 1));
      assert Words32(y, 2 * k - 1) == Words32(y, 2 * k - 2) + a;
      assert Words32(y, 2 * k - 2) + (a + b) == Words32(y, 2 * k - 2) + a + b;
    }
  }

  lemma BytesHold(x: seq<Row64>, y: seq<Row32>, n: nat)
    requires AllHold(x, y) && |x| == |y| && n <= 4 * |x|
    ensures (n + 1) / 2 <= 2 * |x| && Words64(x, (n + 1) / 2)[..4 * n] == Words32(y, n)
  {
    hide AllHold, Words64, Words32;
    var k := (n + 1) / 2;
    WordsHold(x, y, k);
    CutWords(y, n, 2 * k);
  }

  /** Agreeing matrices go out as the same bytes, for an even and an odd number of words. */
  lemma OutputHolds(x: seq<Row64>, y: seq<Row32>, outWords: nat)
    requires AllHold(x, y)
    ensures Out64()(x, outWords) == Out32()(y, outWords)
  {
    SameRows(x, y);
    hide AllHold, Words64, Words32;
    if outWords <= 4 * |x| {
      BytesHold(x, y, outWords);
    }
  }

  /** Half a double word too many is cut off again. */
  lemma CutWords(y: seq<Row32>, n: nat, k: nat)
    requires n <= 4 * |y| && (k == n || k == n + 1 <= 4 * |y|)
    ensures Words32(y, k)[..4 * n] == Words32(y, n)
  {
    hide Words32;
    if k == n + 1 {
      MoreWords(y, n);
    }
  }

  lemma MoreWords(y: seq<Row32>, n: nat)
    requires n < 4 * |y|
    ensures Words32(y, n + 1) == Words32(y, n) + Enc32Le(Word32At(y, n))
  {
  }

  lemma SameRows(x: seq<Row64>, y: seq<Row32>)
    requires AllHold(x, y)
    ensures |x| == |y|
  {
  }

  /** For every message, trailing bits and digest length, the packed build and the
      32-bit build write the same bytes. */
  lemma BuildsAgree(aes: Aes, rows: nat, outLen: bv32, m: seq<Byte>, ub: bv32, n: nat, outWords: nat)
    requires (rows == 4 || rows == 8) && n < 8
    ensures var size := 16 * (16 - rows);
      Digest(Packed(aes), Out64(), size, Initial64(rows, outLen), m, ub, n, outWords) ==
      Digest(Plain(aes), Out32(), size, Initial32(rows, outLen), m, ub, n, outWords)
  {
    var size := 16 * (16 - rows);
    InitialHolds(rows, outLen);
    hide AllHold, Padded, Initial64, Initial32, Out64, Out32;
    FoldHolds(aes, size, 8 * |m| + n, Initial64(rows, outLen), Initial32(rows, outLen), Padded(size, m, ub, n, 32 * outWords));
    OutputHolds(Chain(Packed(aes), size, Initial64(rows, outLen), m, ub, n, 32 * outWords),
                Chain(Plain(aes), size, Initial32(rows, outLen), m, ub, n, 32 * outWords), outWords);
  }
}

/** Blue Midnight Wish: two chaining arrays that change roles at every block,
    the last pass under a constant chain value, and the two ways of writing the
    message expansion. The compression function is a parameter of the stream. */
module Bmw {
  import opened Bytes
  import opened Blocks

  /** The 32-bit functions (224 and 256) and the 64-bit ones (384 and 512). */
  datatype Variant = Small | Big {
    function Word(): nat { if Small? then 4 else 8 }

    function Block(): nat { if Small? then 64 else 128 }
  }

  type Chain = h: seq<nat> | |h| == 16 witness seq(16, i => 0)

  type Compression = (seq<Byte>, Chain) -> Chain

  function Step(F: Compression): (Chain, nat, seq<Byte>) -> Chain {
    (h: Chain, at: nat, block: seq<Byte>) => F(block, h)
  }

  /** Words, little-endian. */
  function Encode(v: Variant, words: seq<nat>): (s: seq<Byte>)
    ensures |s| == v.Word() * |words|
  {
    if words == [] then []
    else Encode(v, words[..|words| - 1]) + LittleEndian(words[|words| - 1], v.Word())
  }

  lemma EncodeSnoc(v: Variant, words: seq<nat>, k: nat)
    requires k < |words|
    ensures Encode(v, words[..k + 1]) == Encode(v, words[..k]) + LittleEndian(words[k], v.Word())
  {
    assert words[..k + 1][..k] == words[..k];
  }

  /** The chain value of the last pass. */
  function FinalKey(v: Variant): Chain {
    var base := if v.Small? then 0xaaaaaaa0 else 0xaaaaaaaaaaaaaaa0;
    seq(16, i requires 0 <= i < 16 => base + i)
  }

  // The tables that the code has of it.
  const FINAL_SMALL: seq<nat> := [
    0xaaaaaaa0, 0xaaaaaaa1, 0xaaaaaaa2, 0xaaaaaaa3, 0xaaaaaaa4, 0xaaaaaaa5, 0xaaaaaaa6, 0xaaaaaaa7,
    0xaaaaaaa8, 0xaaaaaaa9, 0xaaaaaaaa, 0xaaaaaaab, 0xaaaaaaac, 0xaaaaaaad, 0xaaaaaaae, 0xaaaaaaaf
  ]

  const FINAL_BIG: seq<nat> := [
    0xaaaaaaaaaaaaaaa0, 0xaaaaaaaaaaaaaaa1, 0xaaaaaaaaaaaaaaa2, 0xaaaaaaaaaaaaaaa3,
    0xaaaaaaaaaaaaaaa4, 0xaaaaaaaaaaaaaaa5, 0xaaaaaaaaaaaaaaa6, 0xaaaaaaaaaaaaaaa7,
    0xaaaaaaaaaaaaaaa8, 0xaaaaaaaaaaaaaaa9, 0xaaaaaaaaaaaaaaaa, 0xaaaaaaaaaaaaaaab,
    0xaaaaaaaaaaaaaaac, 0xaaaaaaaaaaaaaaad, 0xaaaaaaaaaaaaaaae, 0xaaaaaaaaaaaaaaaf
  ]

  lemma FinalTables(v: Variant)
    ensures FinalKey(v) == if v.Small? then FINAL_SMALL else FINAL_BIG
  {
  }

  /** Word k reads back from its place. */
  lemma {:induction false} EncodedReadsBack(v: Variant, words: seq<nat>, k: nat)
    requires k < |words|
    ensures FromLittle(Encode(v, words)[v.Word() * k..v.Word() * k + v.Word()]) == words[k] % Pow256(v.Word())
  {
    hide FromLittle, LittleEndian, Pow256;
    var n := |words| - 1;
    var before := Encode(v, words[..n]);
    if k < n {
      EncodedReadsBack(v, words[..n], k);
      match v
      case Small => assert (before + LittleEndian(words[n], 4))[4 * k..4 * k + 4] == before[4 * k..4 * k + 4];
      case Big => assert (before + LittleEndian(words[n], 8))[8 * k..8 * k + 8] == before[8 * k..8 * k + 8];
    } else {
      LittleReadsBack(words[k], v.Word());
      match v
      case Small => assert (before + LittleEndian(words[n], 4))[4 * k..4 * k + 4] == LittleEndian(words[n], 4);
      case Big => assert (before + LittleEndian(words[n], 8))[8 * k..8 * k + 8] == LittleEndian(words[n], 8);
    }
  }

  // One-shot definition.

  function Zeros(v: Variant, fill: nat): nat
    requires fill < v.Block()
  {
    if fill + 1 <= v.Block() - 8 then v.Block() - 9 - fill else 2 * v.Block() - 9 - fill
  }

  /** The n last bits, a one, zeros and the bit length in 64 bits. */
  function Padding(v: Variant, len: nat, ub: bv32, n: nat): seq<Byte>
    requires n < 8
  {
    [TrailingByte(ub, n)] + Repeat(Zeros(v, len % v.Block()), 0) + LittleEndian(BitCount(len) + n, 8)
  }

  lemma PaddedWhole(v: Variant, len: nat, ub: bv32, n: nat)
    requires n < 8
    ensures (len + |Padding(v, len, ub, n)|) % v.Block() == 0 && |Padding(v, len, ub, n)| <= v.Block() + 8
  {
    var b := v.Block();
    var size := |Padding(v, len, ub, n)|;
    Completes(len, b, len / b, len % b, size, if len % b + 1 <= b - 8 then 1 else 2);
  }

  /** The padding begins with the last bits and ends in the bit length, modulo 2^64 and
      less significant byte first. */
  lemma PaddingEnds(v: Variant, len: nat, ub: bv32, n: nat)
    requires n < 8
    ensures var p := Padding(v, len, ub, n);
      |p| >= 9 && p[0] == TrailingByte(ub, n) && FromLittle(p[|p| - 8..]) == (8 * len + n) % TWO_64
  {
    hide LittleEndian, FromLittle, BitCount, TrailingByte;
    var count := BitCount(len) + n;
    BitCountRoom(len, n);
    CountOfBits(len, n);
    LittleReadsBack(count, 8);
    Pow256Word();
    var p := Padding(v, len, ub, n);
    assert p[|p| - 8..] == LittleEndian(count, 8);
  }

  lemma CountOfBits(len: nat, n: nat)
    requires n < 8
    ensures (BitCount(len) + n) % TWO_64 == (8 * len + n) % TWO_64
  {
    ModAdd(8 * len, n, TWO_64);
  }

  function Digest(F: Compression, v: Variant, iv: Chain, m: seq<Byte>, ub: bv32, n: nat, outWords: nat): seq<Byte>
    requires n < 8 && outWords <= 16
  {
    Output(F, v, Fold(Step(F), iv, m + Padding(v, |m|, ub, n), v.Block()), outWords)
  }

  /** The chain value is compressed as a block of its own; its last words go out. */
  function Output(F: Compression, v: Variant, h: Chain, outWords: nat): seq<Byte>
    requires outWords <= 16
  {
    Encode(v, F(Encode(v, h), FinalKey(v))[16 - outWords..])
  }

  // Padding, one or two blocks.

  /** m, its whole blocks folded into h and the rest held in the buffer. */
  ghost predicate Held(F: Compression, v: Variant, iv: Chain, m: seq<Byte>, h: Chain, held: seq<Byte>) {
    Buffered(Step(F), iv, m, h, held, v.Block()) && |held| == |m| % v.Block()
  }

  lemma HeldMore(F: Compression, v: Variant, iv: Chain, m: seq<Byte>, h: Chain, held: seq<Byte>, data: seq<Byte>)
    requires Held(F, v, iv, m, h, held) && |held| + |data| < v.Block()
    ensures Held(F, v, iv, m + data, h, held + data)
  {
    hide Buffered, Step;
    WrapAdd(|m|, |data|, v.Block());
    BufferedMore(Step(F), iv, m, h, held, v.Block(), data);
  }

  lemma HeldFull(F: Compression, v: Variant, iv: Chain, m: seq<Byte>, h: Chain, held: seq<Byte>, data: seq<Byte>)
    requires Held(F, v, iv, m, h, held) && |held| + |data| == v.Block()
    ensures Held(F, v, iv, m + data, F(held + data, h), [])
    ensures Fold(Step(F), iv, m + data, v.Block()) == F(held + data, h)
  {
    hide Buffered, Fold;
    WrapAdd(|m|, |data|, v.Block());
    BufferedFull(Step(F), iv, m, h, held, v.Block(), data);
    BufferedFold(Step(F), iv, m, h, held, v.Block(), data);
  }

  lemma ClosesOnce(F: Compression, v: Variant, iv: Chain, m: seq<Byte>, h: Chain, held: seq<Byte>, ub: bv32, n: nat)
    requires n < 8 && Held(F, v, iv, m, h, held) && |held| + 1 <= v.Block() - 8
    ensures F(held + [TrailingByte(ub, n)] + Repeat(v.Block() - 9 - |held|, 0) + LittleEndian(BitCount(|m|) + n, 8), h)
         == Fold(Step(F), iv, m + Padding(v, |m|, ub, n), v.Block())
  {
    hide TrailingByte, LittleEndian, BitCount, Fold, Step;
    var pad := Padding(v, |m|, ub, n);
    assert |pad| == v.Block() - |held|;
    HeldFull(F, v, iv, m, h, held, pad);
    assert held + pad == held + [TrailingByte(ub, n)] + Repeat(v.Block() - 9 - |held|, 0) + LittleEndian(BitCount(|m|) + n, 8);
  }

  lemma ClosesTwice(F: Compression, v: Variant, iv: Chain, m: seq<Byte>, h: Chain, held: seq<Byte>, ub: bv32, n: nat)
    requires n < 8 && Held(F, v, iv, m, h, held) && |held| + 1 > v.Block() - 8
    ensures (var h' := F(held + [TrailingByte(ub, n)] + Repeat(v.Block() - 1 - |held|, 0), h);
             F(Repeat(v.Block() - 8, 0) + LittleEndian(BitCount(|m|) + n, 8), h'))
         == Fold(Step(F), iv, m + Padding(v, |m|, ub, n), v.Block())
  {
    hide TrailingByte, LittleEndian, BitCount, Fold, Step;
    var first, code := [TrailingByte(ub, n)], LittleEndian(BitCount(|m|) + n, 8);
    var a, b := Repeat(v.Block() - 1 - |held|, 0), Repeat(v.Block() - 8, 0);
    HeldFull(F, v, iv, m, h, held, first + a);
    HeldFull(F, v, iv, m + (first + a), F(held + (first + a), h), [], b + code);
    assert [] + (b + code) == b + code && held + (first + a) == held + first + a;
    assert a + b == Repeat(Zeros(v, |held|), 0);
    Reassociate(m, first, a, b, code);
  }

  lemma Reassociate(m: seq<Byte>, f: seq<Byte>, a: seq<Byte>, b: seq<Byte>, c: seq<Byte>)
    ensures m + (f + a) + (b + c) == m + (f + (a + b) + c)
  {
  }

  class Context {
    const F: Compression
    const v: Variant
    const iv: Chain
    const H: array<nat>
    const buf: array<Byte>
    var ptr: nat
    var bitCount: nat
    ghost var absorbed: seq<Byte>   // every byte received since the initialization

    ghost predicate Shaped() {
      H.Length == 16 && buf.Length == v.Block()
    }

    ghost predicate Valid()
      reads this, buf, H
    {
      Shaped() && ptr < v.Block() && bitCount == BitCount(|absorbed|) &&
      Held(F, v, iv, absorbed, H[..], buf[..ptr])
    }

    constructor (F: Compression, v: Variant, iv: Chain)
      ensures Valid() && fresh(buf) && fresh(H) && absorbed == []
      ensures this.F == F && this.v == v && this.iv == iv
    {
      this.F, this.v, this.iv := F, v, iv;
      H := new nat[16](i requires 0 <= i < 16 => iv[i]);
      buf := new Byte[v.Block()];
      ptr, bitCount, absorbed := 0, 0, [];
      new;
      assert H[..] == iv && buf[..0] == [];
    }

    /** Compresses a block under h into dh, another array. */
    method Compress(data: seq<Byte>, h: array<nat>, dh: array<nat>)
      requires h != dh && h.Length == 16 && dh.Length == 16
      modifies dh
      ensures dh[..] == F(data, h[..])
    {
      var next := F(data, h[..]);
      forall i | 0 <= i < 16 {
        dh[i] := next[i];
      }
      assert dh[..] == next && h[..] == old(h[..]);
    }

    /** Each full buffer is compressed from one chaining array into the other;
        the result is copied home if it ends up in the local one. */
    method Update(data: seq<Byte>)
      requires Valid()
      modifies this, buf, H
      ensures Valid() && absorbed == old(absorbed) + data
    {
      hide Held, BitCount;
      BitCountAdd(|absorbed|, |data|);
      bitCount := (bitCount + 8 * |data|) % TWO_64;
      var htmp := new nat[16];
      var h1, h2 := H, htmp;
      var rest := data;
      ghost var m := absorbed;
      while rest != []
        invariant (h1 == H && h2 == htmp) || (h1 == htmp && h2 == H)
        invariant ptr < v.Block() && m + rest == old(absorbed) + data
        invariant Held(F, v, iv, m, h1[..], buf[..ptr])
        invariant bitCount == BitCount(|old(absorbed)| + |data|)
        decreases |rest|
      {
        var clen := Min(v.Block() - ptr, |rest|);
        Regroup(m, [], rest, clen);
        Buffer(m, h1, rest[..clen]);
        m, rest := m + rest[..clen], rest[clen..];
        if ptr == v.Block() {
          assert buf[..ptr] == buf[..];
          Compress(buf[..], h1, h2);
          h1, h2 := h2, h1;
          ptr := 0;
          assert buf[..0] == [];
        }
      }
      assert m + [] == m;
      absorbed := m;
      assert |m| == |old(absorbed)| + |data|;
      ghost var chain, held := h1[..], buf[..ptr];
      if h1 != H {
        forall i | 0 <= i < 16 {
          H[i] := h1[i];
        }
      }
      assert H[..] == chain && buf[..ptr] == held;
    }

    /** Copies data, which fits, behind what the buffer holds. */
    method Buffer(ghost m: seq<Byte>, ghost h: array<nat>, data: seq<Byte>)
      requires Shaped() && h.Length == 16 && ptr < v.Block() && ptr + |data| <= v.Block()
      requires Held(F, v, iv, m, h[..], buf[..ptr])
      modifies this`ptr, buf
      ensures ptr == old(ptr) + |data|
      ensures ptr < v.Block() ==> Held(F, v, iv, m + data, h[..], buf[..ptr])
      ensures ptr == v.Block() ==> Held(F, v, iv, m + data, F(buf[..], h[..]), [])
    {
      hide Held;
      ghost var held := buf[..ptr];
      CopyInto(buf, ptr, data);
      ptr := ptr + |data|;
      assert buf[..ptr] == held + data;
      if ptr < v.Block() {
        HeldMore(F, v, iv, m, h[..], held, data);
      } else {
        assert buf[..] == held + data;
        HeldFull(F, v, iv, m, h[..], held, data);
      }
    }

    /** Pads, with the n extra bits of ub, into one or two blocks; one array takes
        the middle chain value, if there is one, the other the last. */
    method LastBlocks(ub: bv32, n: nat, h1: array<nat>, h2: array<nat>)
      requires Valid() && n < 8 && h1 != h2 && h1 != H && h2 != H && h1.Length == 16 && h2.Length == 16
      modifies buf, h1, h2
      ensures h2[..] == Fold(Step(F), iv, absorbed + Padding(v, |absorbed|, ub, n), v.Block())
    {
      hide Held, TrailingByte, LittleEndian, Fold, Step, Padding, BitCount;
      ghost var held := buf[..ptr];
      var size := v.Block();
      var end, h := ptr, H;
      buf[end] := TrailingByte(ub, n);
      end := end + 1;
      assert buf[..end] == held + [TrailingByte(ub, n)];
      if end > size - 8 {
        Fill(buf, end, size - end, 0);
        ClosesTwice(F, v, iv, absorbed, H[..], held, ub, n);
        assert buf[..] == held + [TrailingByte(ub, n)] + Repeat(size - 1 - |held|, 0);
        Compress(buf[..], h, h1);
        end, h := 0, h1;
      } else {
        ClosesOnce(F, v, iv, absorbed, H[..], held, ub, n);
      }
      PutLength(end, n);
      Compress(buf[..], h, h2);
    }

    /** Zeros and the bit count, to the end of the buffer. */
    method PutLength(end: nat, n: nat)
      requires Shaped() && end <= v.Block() - 8 && n < 8 && bitCount == BitCount(|absorbed|)
      modifies buf
      ensures buf[..] == old(buf[..end]) + Repeat(v.Block() - 8 - end, 0) + LittleEndian(BitCount(|absorbed|) + n, 8)
      ensures end == 0 ==> buf[..] == Repeat(v.Block() - 8, 0) + LittleEndian(BitCount(|absorbed|) + n, 8)
    {
      hide LittleEndian, BitCount;
      BitCountRoom(|absorbed|, n);
      ghost var before := buf[..end];
      Fill(buf, end, v.Block() - 8 - end, 0);
      CopyInto(buf, v.Block() - 8, LittleEndian((bitCount + n) % TWO_64, 8));
    }

    /** Writes the words of h over the buffer. */
    method EncodeInto(h: array<nat>)
      requires Shaped() && h.Length == 16
      modifies buf
      ensures buf[..] == Encode(v, h[..])
    {
      hide LittleEndian, Encode;
      var w := v.Word();
      for u := 0 to 16
        invariant buf[..w * u] == Encode(v, h[..u])
      {
        EncodeSnoc(v, h[..], u);
        CopyInto(buf, w * u, LittleEndian(h[u], w));
      }
      assert h[..16] == h[..] && buf[..w * 16] == buf[..];
    }

    method Close(ub: bv32, n: nat, outWords: nat) returns (out: seq<Byte>)
      requires Valid() && n < 8 && outWords <= 16
      modifies this, buf
      ensures out == Digest(F, v, iv, old(absorbed), ub, n, outWords)
    {
      hide Held, LittleEndian, Fold, Step, Encode, FinalKey, BitCount, Padding;
      var h1, h2 := new nat[16], new nat[16];
      LastBlocks(ub, n, h1, h2);
      ghost var last := h2[..];
      EncodeInto(h2);
      FinalTables(v);
      var table := if v.Small? then FINAL_SMALL else FINAL_BIG;
      var final := new nat[16](i requires 0 <= i < 16 => table[i]);
      assert final[..] == FinalKey(v);
      Compress(buf[..], final, h1);
      out := OutputWords(h1, outWords);
    }

    method OutputWords(h: array<nat>, outWords: nat) returns (out: seq<Byte>)
      requires h.Length == 16 && outWords <= 16
      ensures out == Encode(v, h[16 - outWords..])
    {
      hide LittleEndian;
      out := [];
      ghost var words := h[16 - outWords..];
      for u := 0 to outWords
        invariant out == Encode(v, words[..u])
      {
        EncodeSnoc(v, words, u);
        out := out + LittleEndian(h[16 - outWords + u], v.Word());
      }
      assert words[..outWords] == words;
    }
  }

  /** Any split, with any number of blocks in each piece, odd or even. */
  method DigestOfPieces(F: Compression, v: Variant, iv: Chain, pieces: seq<seq<Byte>>, ub: bv32, n: nat, outWords: nat)
    returns (out: seq<Byte>)
    requires n < 8 && outWords <= 16
    ensures out == Digest(F, v, iv, Flatten(pieces), ub, n, outWords)
  {
    hide Held, Digest;
    var ctx := new Context(F, v, iv);
    for i := 0 to |pieces|
      invariant fresh(ctx) && fresh(ctx.buf) && fresh(ctx.H) && ctx.Valid() && ctx.absorbed == Flatten(pieces[..i])
    {
      FlattenSnoc(pieces, i);
      ctx.Update(pieces[i]);
    }
    assert pieces[..|pieces|] == pieces;
    out := ctx.Close(ub, n, outWords);
  }
}

/** The Merkle-Damgard helper that several hash files include with macros for the
    block size, the length field and the round function. */
module MdHelper {
  import opened Bits
  import opened Bytes
  import opened Blocks
  import opened Output

  // Arithmetic on powers of two.

  predicate IsPowerOfTwo(b: nat) {
    b == 1 || (b > 1 && b % 2 == 0 && IsPowerOfTwo(b / 2))
  }

  lemma HalveMod(a: nat, h: nat)
    requires h > 0
    ensures a % (2 * h) == 2 * (a / 2 % h) + a % 2
  {
    var q, r := a / 2 / h, a / 2 % h;
    assert a / 2 == h * q + r;
    assert 2 * h * q == 2 * (h * q);
    ModUnique(a, 2 * h, q, 2 * r + a % 2);
  }

  /** Masking with a power of two less one is the remainder. */
  lemma {:induction false} AndIsMod(a: nat, b: nat)
    requires IsPowerOfTwo(b)
    ensures And(a, b - 1) == a % b
  {
    if b == 1 {
      ModUnique(a, 1, a, 0);
    } else {
      AndIsMod(a / 2, b / 2);
      HalveMod(a, b / 2);
      assert (b - 1) / 2 == b / 2 - 1 && (b - 1) % 2 == 1;
    }
  }

  lemma {:induction false} PowersDivide(b: nat, m: nat) returns (p: nat)
    requires IsPowerOfTwo(b) && IsPowerOfTwo(m) && b <= m
    ensures m == b * p
  {
    if b == 1 {
      p := m;
    } else {
      p := PowersDivide(b / 2, m / 2);
      assert 2 * (b / 2 * p) == b * p;
    }
  }

  lemma {:induction false} PowersMultiply(a: nat, b: nat)
    requires IsPowerOfTwo(a) && IsPowerOfTwo(b)
    ensures IsPowerOfTwo(a * b)
  {
    if a > 1 {
      var h := a / 2;
      PowersMultiply(h, b);
      MulFactor(2, h, b);
      MulBound(b, h);
      DoublePower(h * b);
    }
  }

  lemma DoublePower(p: nat)
    requires IsPowerOfTwo(p)
    ensures IsPowerOfTwo(2 * p)
  {
  }

  lemma CountIsPower()
    ensures IsPowerOfTwo(TWO_64)
  {
    assert IsPowerOfTwo(2);
    PowersMultiply(2, 2);
    PowersMultiply(4, 4);
    PowersMultiply(16, 16);
    PowersMultiply(256, 256);
    PowersMultiply(65536, 65536);
    PowersMultiply(TWO_32, TWO_32);
  }

  /** Bytes of a message of this length that are past its last whole block. */
  function Left(len: nat, blen: nat): (k: nat)
    requires blen > 0
    ensures k < blen
  {
    len % blen
  }

  lemma LeftAdd(len: nat, k: nat, blen: nat)
    requires blen > 0 && Left(len, blen) + k <= blen
    ensures Left(len + k, blen) == if Left(len, blen) + k == blen then 0 else Left(len, blen) + k
  {
    var q, r := len / blen, len % blen;
    if r + k == blen {
      assert len + k == blen * (q + 1);
      ModUnique(len + k, blen, q + 1, 0);
    } else {
      ModUnique(len + k, blen, q, r + k);
    }
  }

  /** The 64-bit count of bytes. */
  function Wrapped(len: nat): (c: nat)
    ensures c < TWO_64
  {
    len % TWO_64
  }

  lemma WrappedAdd(len: nat, k: nat)
    ensures (Wrapped(len) + k) % TWO_64 == Wrapped(len + k)
  {
    ModAdd(len, k, TWO_64);
  }

  /** The 64-bit count, masked, is the fill of the buffer, even after it wraps. */
  lemma MaskedCount(blen: nat, len: nat)
    requires IsPowerOfTwo(blen) && 0 < blen <= TWO_64
    ensures And(Wrapped(len), blen - 1) == Left(len, blen)
  {
    CountIsPower();
    var p := PowersDivide(blen, TWO_64);
    ModOfMod(len, TWO_64, blen, p);
    AndIsMod(Wrapped(len), blen);
  }

  // One-shot definition.

  /** How the length field is laid out: PLW1 has one word, PLW4 four, the others two. */
  datatype Field = BE32 | LE32 | BE64 | BE64PLW1 | BE64PLW4 | LE64 | LE64PLW1 {
    function Length(): nat {
      match this
      case BE64 | LE64 => 16
      case BE64PLW4 => 32
      case _ => 8
    }

    /** Bytes in a machine word. */
    function Word(): (w: nat)
      ensures w > 0
    {
      if BE32? || LE32? then 4 else 8
    }

    /** Words go out most significant byte first. */
    predicate Big() { BE32? || BE64? || BE64PLW1? || BE64PLW4? }

    /** The bit length of count bytes and n bits. */
    function Code(count: nat, n: nat): (s: seq<Byte>)
      ensures |s| == Length()
    {
      var low, high := (8 * count) % TWO_64 + n, count / 0x2000_0000_0000_0000;
      match this
      case BE32 | BE64PLW1 => BigEndian(low, 8)
      case LE32 | LE64PLW1 => LittleEndian(low, 8)
      case BE64 => BigEndian(high, 8) + BigEndian(low, 8)
      case BE64PLW4 => Repeat(16, 0) + BigEndian(high, 8) + BigEndian(low, 8)
      case LE64 => LittleEndian(low, 8) + LittleEndian(high, 8)
    }
  }

  /** The two words of the length field are the bit length, in 128 bits. */
  lemma LengthIsExact(len: nat, n: nat)
    requires len < TWO_64 && n < 8
    ensures (8 * len) % TWO_64 + n < TWO_64
    ensures len / 0x2000_0000_0000_0000 * TWO_64 + ((8 * len) % TWO_64 + n) == 8 * len + n
  {
  }

  /** The number in a length field. */
  function FieldValue(field: Field, code: seq<Byte>): nat {
    if field.LE32? || field.LE64? || field.LE64PLW1? then FromLittle(code) else FromBig(code)
  }

  /** Read back, a field of one word is the bit length modulo 2^64, and a longer one
      is the bit length itself. */
  lemma LengthReadsBack(field: Field, len: nat, n: nat)
    requires len < TWO_64 && n < 8
    ensures FieldValue(field, field.Code(len, n)) ==
            if field.Length() == 8 then (8 * len + n) % TWO_64 else 8 * len + n
  {
    hide BigEndian, LittleEndian, FromBig, FromLittle;
    var low, high := (8 * len) % TWO_64 + n, len / 0x2000_0000_0000_0000;
    LengthIsExact(len, n);
    BitCountRoom(len, n);
    ModAdd(8 * len, n, TWO_64);
    Pow256Word();
    LittleReadsBack(low, 8);
    BigReadsBack(low, 8);
    LittleReadsBack(high, 8);
    BigReadsBack(high, 8);
    ModUnique(low, TWO_64, 0, low);
    ModUnique(high, TWO_64, 0, high);
    match field
    case BE64 =>
      BigConcat(BigEndian(high, 8), BigEndian(low, 8));
    case BE64PLW4 =>
      BigConcat(Repeat(16, 0), BigEndian(high, 8));
      BigConcat(Repeat(16, 0) + BigEndian(high, 8), BigEndian(low, 8));
      ZerosAreNothing(16);
    case LE64 =>
      LittleConcat(LittleEndian(low, 8), LittleEndian(high, 8));
    case _ =>
  }

  lemma {:induction false} ZerosAreNothing(k: nat)
    ensures FromBig(Repeat(k, 0)) == 0
  {
    if k > 0 {
      ZerosAreNothing(k - 1);
      assert Repeat(k, 0)[..k - 1] == Repeat(k - 1, 0);
    }
  }

  /** The byte under PW01: a one and, below it, the n bits. */
  function LowPad(ub: bv32, n: nat): Byte
    requires n < 8
  {
    (((0x100 | (ub & 0xFF)) >> (8 - n)) & 0xFF) as Byte
  }

  lemma LowPadShifted(ub: bv32, n: nat)
    requires n < 8
    ensures LowPad(ub, n) == Or8(OneAt(7 - n), if n == 0 then 0 else Shr8(BitsByte(ub), 8 - n))
  {
    if n == 0 {
    } else if n == 1 {
    } else if n == 2 {
    } else if n == 3 {
    } else if n == 4 {
    } else if n == 5 {
    } else if n == 6 {
    } else {
      assert n == 7;
    }
  }

  lemma LowPadBits(ub: bv32, n: nat, i: nat)
    requires n < 8 && i < 8
    ensures Bit(LowPad(ub, n), i) == (i == 7 - n || (i > 7 - n && Bit(BitsByte(ub), i - (8 - n))))
  {
    hide LowPad, BitsByte, Bit, Shr8, Or8, OneAt;
    LowPadShifted(ub, n);
    var rest := if n == 0 then 0 else Shr8(BitsByte(ub), 8 - n);
    OrBit(OneAt(7 - n), rest, i);
    OneAtBit(7 - n, i);
    if n == 0 {
      NoBits(i);
    } else {
      ShiftedBit(BitsByte(ub), 8 - n, i);
    }
  }

  /** The byte after the message: the n bits and a one, or, under PW01, a one
      and the n bits in the low positions. */
  function FirstPad(pw01: bool, ub: bv32, n: nat): Byte
    requires n < 8
  {
    if pw01 then LowPad(ub, n) else TrailingByte(ub, n)
  }

  lemma FirstPadBits(pw01: bool, ub: bv32, n: nat, i: nat)
    requires n < 8 && i < 8
    ensures Bit(FirstPad(pw01, ub, n), i) ==
      if pw01 then i == 7 - n || (i > 7 - n && Bit(BitsByte(ub), i - (8 - n)))
      else if i < n then Bit(BitsByte(ub), i) else i == n
  {
    hide LowPad, TrailingByte, BitsByte, Bit;
    LowPadBits(ub, n, i);
    TrailingByteBits(ub, n, i);
  }

  /** Zeros between that byte and the length field. */
  function Zeros(blen: nat, field: Field, fill: nat): nat
    requires fill < blen && field.Length() < blen
  {
    var maxPad := blen - field.Length();
    if fill + 1 <= maxPad then maxPad - fill - 1 else blen + maxPad - fill - 1
  }

  function Padding(blen: nat, field: Field, pw01: bool, len: nat, ub: bv32, n: nat): seq<Byte>
    requires field.Length() < blen && n < 8
  {
    [FirstPad(pw01, ub, n)] + Repeat(Zeros(blen, field, Left(len, blen)), 0) + field.Code(Wrapped(len), n)
  }

  lemma PaddedWhole(blen: nat, field: Field, pw01: bool, len: nat, ub: bv32, n: nat)
    requires field.Length() < blen && n < 8
    ensures (len + |Padding(blen, field, pw01, len, ub, n)|) % blen == 0
    ensures |Padding(blen, field, pw01, len, ub, n)| <= blen + field.Length()
  {
    hide FirstPad, Field.Code, Wrapped, Field.Length;
    var q, fill := len / blen, Left(len, blen);
    var size := |Padding(blen, field, pw01, len, ub, n)|;
    assert size == 1 + Zeros(blen, field, fill) + field.Length();
    hide Padding;
    if fill + 1 <= blen - field.Length() {
      Completes(len, blen, q, fill, size, 1);
    } else {
      Completes(len, blen, q, fill, size, 2);
    }
  }

  function Step<S>(rfun: (S, seq<Byte>) -> S): (S, nat, seq<Byte>) -> S {
    (s: S, d: nat, block: seq<Byte>) => rfun(s, block)
  }

  /** The chain value after the padded message. */
  function Chain<S>(rfun: (S, seq<Byte>) -> S, iv: S, blen: nat, field: Field, pw01: bool, m: seq<Byte>, ub: bv32, n: nat): S
    requires field.Length() < blen && n < 8
  {
    Fold(Step(rfun), iv, m + Padding(blen, field, pw01, |m|, ub, n), blen)
  }

  /** The first rnum words of that chain value. */
  function Digest<S>(rfun: (S, seq<Byte>) -> S, word: (S, nat) -> nat, iv: S, blen: nat, field: Field, pw01: bool, m: seq<Byte>,
                     ub: bv32, n: nat, rnum: nat): seq<Byte>
    requires field.Length() < blen && n < 8
  {
    Written(word, Chain(rfun, iv, blen, field, pw01, m, ub, n), rnum, field.Word(), field.Big())
  }

  /** Word u of the digest, four bytes under the 32-bit layouts and eight under the others. */
  lemma DigestReadsBack<S>(rfun: (S, seq<Byte>) -> S, word: (S, nat) -> nat, iv: S, blen: nat, field: Field, pw01: bool, m: seq<Byte>,
                           ub: bv32, n: nat, rnum: nat, u: nat)
    requires field.Length() < blen && n < 8 && u < rnum
    ensures var d := Digest(rfun, word, iv, blen, field, pw01, m, ub, n, rnum);
      var w := word(Chain(rfun, iv, blen, field, pw01, m, ub, n), u);
      match field
      case BE32 => |d| == 4 * rnum && FromBig(d[4 * u..4 * u + 4]) == w % TWO_32
      case LE32 => |d| == 4 * rnum && FromLittle(d[4 * u..4 * u + 4]) == w % TWO_32
      case BE64 | BE64PLW1 | BE64PLW4 => |d| == 8 * rnum && FromBig(d[8 * u..8 * u + 8]) == w % TWO_64
      case LE64 | LE64PLW1 => |d| == 8 * rnum && FromLittle(d[8 * u..8 * u + 8]) == w % TWO_64
  {
    hide Chain, Written, FromBig, FromLittle, Field.Length;
    OutputReadsBack(word, Chain(rfun, iv, blen, field, pw01, m, ub, n), rnum, field.Word(), field.Big(), u);
    Pow256Word();
    assert Pow256(4) == 256 * Pow256(3) && Pow256(3) == 256 * Pow256(2);
  }

  lemma Reassociate(m: seq<Byte>, f: seq<Byte>, a: seq<Byte>, b: seq<Byte>, c: seq<Byte>)
    ensures m + (f + a) + (b + c) == m + (f + (a + b) + c)
  {
  }

  lemma Reassociate1(a: seq<Byte>, b: seq<Byte>, c: seq<Byte>, d: seq<Byte>)
    ensures a + (b + c + d) == a + b + c + d
  {
  }

  class Context<S(!new)> {
    const blen: nat
    const field: Field
    const pw01: bool
    const rfun: (S, seq<Byte>) -> S
    const word: (S, nat) -> nat   // word u of a chain value
    const iv: S
    const buf: array<Byte>
    var val: S
    var count: nat
    ghost var absorbed: seq<Byte>   // every byte received since the initialization

    ghost predicate Structure() {
      IsPowerOfTwo(blen) && field.Length() < blen <= TWO_32 && buf.Length == blen
    }

    ghost predicate Valid()
      reads this, buf
    {
      Structure() && count == Wrapped(|absorbed|) &&
      Buffered(Step(rfun), iv, absorbed, val, buf[..Left(|absorbed|, blen)], blen)
    }

    constructor (blen: nat, field: Field, pw01: bool, rfun: (S, seq<Byte>) -> S, word: (S, nat) -> nat, iv: S)
      requires IsPowerOfTwo(blen) && field.Length() < blen <= TWO_32
      ensures Valid() && fresh(buf) && absorbed == []
      ensures this.blen == blen && this.field == field && this.pw01 == pw01
      ensures this.rfun == rfun && this.word == word && this.iv == iv
    {
      hide Buffered, IsPowerOfTwo, Step;
      this.blen, this.field, this.pw01, this.rfun, this.word, this.iv, val := blen, field, pw01, rfun, word, iv, iv;
      buf := new Byte[blen];
      count, absorbed := 0, [];
      new;
      assert buf[..Left(0, blen)] == [];
      BufferedStart(Step(rfun), iv, blen);
    }

    /** count & (BLEN - 1). */
    method Masked() returns (current: nat)
      requires Valid()
      ensures current == Left(|absorbed|, blen)
    {
      hide Buffered, Step, Field.Length, Left, Wrapped, And, IsPowerOfTwo;
      current := And(count, blen - 1);
      MaskedCount(blen, |absorbed|);
    }

    /** The buffered update. */
    method Short(data: seq<Byte>)
      requires Valid()
      modifies this, buf
      ensures Valid() && absorbed == old(absorbed) + data
    {
      hide Buffered, Step, Field.Length, Left, Wrapped, And, IsPowerOfTwo;
      var current := Masked();
      var rest := data;
      while rest != []
        invariant Valid() && current == Left(|absorbed|, blen)
        invariant absorbed + rest == old(absorbed) + data
        decreases |rest|
      {
        ghost var was := absorbed;
        var clen := Min(blen - current, |rest|);
        current := Buffer(current, rest[..clen]);
        Regroup(was, [], rest, clen);
        rest := rest[clen..];
      }
    }

    /** One turn of the loop: copies what fits, processes a full buffer, counts. */
    method Buffer(current: nat, data: seq<Byte>) returns (current': nat)
      requires Valid() && current == Left(|absorbed|, blen) && current + |data| <= blen
      modifies this, buf
      ensures Valid() && absorbed == old(absorbed) + data
      ensures current' == Left(|absorbed|, blen)
    {
      hide Buffered, Step, Field.Length, Left, Wrapped, And, IsPowerOfTwo;
      ghost var m, held := absorbed, buf[..current];
      LeftAdd(|m|, |data|, blen);
      WrappedAdd(|m|, |data|);
      CopyInto(buf, current, data);
      current' := current + |data|;
      assert buf[..current'] == held + data;
      if current' == blen {
        FilledBy(m, val, held, data);
        assert buf[..] == held + data;
        val := rfun(val, buf[..]);
        current' := 0;
        assert buf[..current'] == [];
      } else {
        BufferedMore(Step(rfun), iv, m, val, held, blen, data);
      }
      count := (count + |data|) % TWO_64;
      absorbed := m + data;
    }

    lemma FilledBy(m: seq<Byte>, s: S, held: seq<Byte>, data: seq<Byte>)
      requires blen > 0 && Buffered(Step(rfun), iv, m, s, held, blen) && |held| + |data| == blen
      ensures Buffered(Step(rfun), iv, m + data, rfun(s, held + data), [], blen)
      ensures Fold(Step(rfun), iv, m + data, blen) == rfun(s, held + data)
    {
      BufferedFull(Step(rfun), iv, m, s, held, blen, data);
      BufferedFold(Step(rfun), iv, m, s, held, blen, data);
    }

    /** The update: whole blocks of long, well-placed input are processed where
        they are. addr is the address of the data; unaligned says that the
        machine reads misplaced words. */
    method Update(data: seq<Byte>, addr: nat, unaligned: bool)
      requires Valid()
      modifies this, buf
      ensures Valid() && absorbed == old(absorbed) + data
    {
      hide Buffered, Step, Field.Length, Field.Word, Left, Wrapped, And, IsPowerOfTwo;
      if |data| < 2 * blen {
        Short(data);
        return;
      }
      var current := Masked();
      var rest, at := data, addr;
      if current > 0 {
        var t := blen - current;
        LeftAdd(|absorbed|, t, blen);
        Regroup(absorbed, [], data, t);
        Short(data[..t]);
        rest, at := data[t..], at + t;
      }
      if !unaligned && And(at, field.Word() - 1) != 0 {
        Short(rest);
      } else {
        Direct(rest);
      }
    }

    /** Processes whole blocks of the data itself and buffers what is left. */
    method Direct(data: seq<Byte>)
      requires Valid() && Left(|absorbed|, blen) == 0
      modifies this, buf
      ensures Valid() && absorbed == old(absorbed) + data
    {
      hide Buffered, Step, Field.Length, Left, Wrapped, And, IsPowerOfTwo;
      ghost var m, was := absorbed, absorbed;
      var rest := data;
      assert buf[..0] == [];
      while |rest| >= blen
        invariant m + rest == was + data && Left(|m|, blen) == 0
        invariant Buffered(Step(rfun), iv, m, val, [], blen) && count == Wrapped(|was|)
        decreases |rest|
      {
        OneMore(m, val, rest);
        val := rfun(val, rest[..blen]);
        m, rest := m + rest[..blen], rest[blen..];
      }
      LeftAdd(|m|, |rest|, blen);
      BufferedMore(Step(rfun), iv, m, val, [], blen, rest);
      CopyInto(buf, 0, rest);
      assert [] + rest == rest;
      WrappedAdd(|was|, |data|);
      count := (count + |data|) % TWO_64;
      absorbed := was + data;
      assert buf[..Left(|absorbed|, blen)] == rest && absorbed == m + rest;
    }

    /** A block at the front of the input, with nothing buffered. */
    lemma OneMore(m: seq<Byte>, s: S, rest: seq<Byte>)
      requires 0 < blen <= |rest| && Left(|m|, blen) == 0 && Buffered(Step(rfun), iv, m, s, [], blen)
      ensures var m' := m + rest[..blen];
        Left(|m'|, blen) == 0 && Buffered(Step(rfun), iv, m', rfun(s, rest[..blen]), [], blen) && m' + rest[blen..] == m + rest
    {
      hide Buffered, Step, Left;
      LeftAdd(|m|, blen, blen);
      FilledBy(m, s, [], rest[..blen]);
      assert [] + rest[..blen] == rest[..blen];
      Regroup(m, [], rest, blen);
    }

    /** Pads, with the n extra bits of ub, and processes the last one or two
        blocks; the context is not initialized again. */
    method Close(ub: bv32, n: nat, rnum: nat) returns (dst: seq<Byte>)
      requires Valid() && n < 8
      modifies this, buf
      ensures dst == Digest(rfun, word, iv, blen, field, pw01, old(absorbed), ub, n, rnum)
    {
      LastBlocks(ub, n);
      dst := WriteWords(word, val, rnum, field.Word(), field.Big());
    }

    /** Padding, length and the last compression. */
    method LastBlocks(ub: bv32, n: nat)
      requires Valid() && n < 8
      modifies this, buf
      ensures val == Chain(rfun, iv, blen, field, pw01, old(absorbed), ub, n)
    {
      hide Buffered, Step, Field.Length, Field.Code, Left, Wrapped, IsPowerOfTwo, FirstPad, Chain;
      var maxPad := blen - field.Length();
      var current := Masked();
      ghost var held := buf[..current];
      buf[current] := FirstPad(pw01, ub, n);
      assert buf[..current + 1] == held + [FirstPad(pw01, ub, n)];
      PadToLength(held, current + 1, ub, n);
      ghost var padded := buf[..maxPad];
      CopyInto(buf, maxPad, field.Code(count, n));
      assert buf[..] == padded + field.Code(count, n);
      val := rfun(val, buf[..]);
    }

    /** Zeros up to the length field, through one more block if there is no room. */
    method PadToLength(ghost held: seq<Byte>, current: nat, ub: bv32, n: nat)
      requires Structure() && n < 8 && Buffered(Step(rfun), iv, absorbed, val, held, blen)
      requires |held| == Left(|absorbed|, blen) == current - 1
      requires buf[..current] == held + [FirstPad(pw01, ub, n)]
      modifies this`val, buf
      ensures var code := field.Code(Wrapped(|absorbed|), n);
              rfun(val, buf[..blen - field.Length()] + code) == Chain(rfun, iv, blen, field, pw01, absorbed, ub, n)
    {
      hide Buffered, Step, Field.Length, Field.Code, Left, Wrapped, IsPowerOfTwo, FirstPad, Chain;
      var maxPad := blen - field.Length();
      ghost var first := [FirstPad(pw01, ub, n)];
      if current > maxPad {
        Fill(buf, current, blen - current, 0);
        ClosesTwice(absorbed, val, held, ub, n);
        assert buf[..] == held + (first + Repeat(blen - current, 0));
        val := rfun(val, buf[..]);
        Fill(buf, 0, maxPad, 0);
        assert buf[..maxPad] == Repeat(maxPad, 0);
      } else {
        Fill(buf, current, maxPad - current, 0);
        ClosesOnce(absorbed, val, held, ub, n);
        Reassociate1(held, first, Repeat(maxPad - current, 0), field.Code(Wrapped(|absorbed|), n));
        assert buf[..maxPad] == held + first + Repeat(maxPad - current, 0);
      }
    }

    /** When the length still fits, one more block is processed. */
    lemma ClosesOnce(m: seq<Byte>, s: S, held: seq<Byte>, ub: bv32, n: nat)
      requires Structure() && n < 8 && Buffered(Step(rfun), iv, m, s, held, blen)
      requires |held| == Left(|m|, blen) && |held| + 1 <= blen - field.Length()
      ensures var zeros := blen - field.Length() - (|held| + 1);
              Chain(rfun, iv, blen, field, pw01, m, ub, n)
              == rfun(s, held + ([FirstPad(pw01, ub, n)] + Repeat(zeros, 0) + field.Code(Wrapped(|m|), n)))
    {
      hide FirstPad, Field.Code, Field.Length, Left, Fold, Step, IsPowerOfTwo, Buffered;
      FilledBy(m, s, held, Padding(blen, field, pw01, |m|, ub, n));
    }

    /** When it does not, two more are. */
    lemma ClosesTwice(m: seq<Byte>, s: S, held: seq<Byte>, ub: bv32, n: nat)
      requires Structure() && n < 8 && Buffered(Step(rfun), iv, m, s, held, blen)
      requires |held| == Left(|m|, blen) && |held| + 1 > blen - field.Length()
      ensures var top := [FirstPad(pw01, ub, n)] + Repeat(blen - (|held| + 1), 0);
              var end := Repeat(blen - field.Length(), 0) + field.Code(Wrapped(|m|), n);
              Chain(rfun, iv, blen, field, pw01, m, ub, n) == rfun(rfun(s, held + top), end)
    {
      hide FirstPad, Field.Code, Field.Length, Left, Fold, Step, IsPowerOfTwo, Buffered;
      var a, b := blen - (|held| + 1), blen - field.Length();
      var first, code := [FirstPad(pw01, ub, n)], field.Code(Wrapped(|m|), n);
      var top, end := first + Repeat(a, 0), Repeat(b, 0) + code;
      FilledBy(m, s, held, top);
      FilledBy(m + top, rfun(s, held + top), [], end);
      assert [] + end == end;
      assert Repeat(a, 0) + Repeat(b, 0) == Repeat(a + b, 0);
      assert Zeros(blen, field, |held|) == a + b;
      Reassociate(m, first, Repeat(a, 0), Repeat(b, 0), code);
    }
  }

  /** Any split, with any address for each piece, on either kind of machine:
      the fold over the padded message. */
  method DigestOfPieces<S(!new)>(rfun: (S, seq<Byte>) -> S, word: (S, nat) -> nat, iv: S, blen: nat, field: Field, pw01: bool,
                                 pieces: seq<seq<Byte>>, addresses: seq<nat>, unaligned: bool, ub: bv32, n: nat, rnum: nat)
    returns (dst: seq<Byte>)
    requires IsPowerOfTwo(blen) && field.Length() < blen <= TWO_32 && n < 8 && |addresses| == |pieces|
    ensures dst == Digest(rfun, word, iv, blen, field, pw01, Flatten(pieces), ub, n, rnum)
  {
    hide Buffered, Step, Field.Length, Left, Wrapped, Digest, IsPowerOfTwo;
    var ctx := new Context(blen, field, pw01, rfun, word, iv);
    for i := 0 to |pieces|
      invariant fresh(ctx) && fresh(ctx.buf) && ctx.Valid() && ctx.absorbed == Flatten(pieces[..i])
    {
      FlattenSnoc(pieces, i);
      ctx.Update(pieces[i], addresses[i], unaligned);
    }
    assert pieces[..|pieces|] == pieces;
    dst := ctx.Close(ub, n, rnum);
  }
}

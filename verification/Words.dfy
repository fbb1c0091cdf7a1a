/** Machine words as bit vectors: the numbers they stand for, their bytes in either
    order, sums and rotations. */
module Words {
  import opened Bytes

  /** The number of a word. */
  function Num32(w: bv32): nat { w as nat }

  function Num64(w: bv64): nat { w as nat }

  // Words and their lowest byte.

  function Upper32(w: bv32): bv32 { w >> 8 }

  function Lower32(w: bv32): Byte { (w & 0xFF) as Byte }

  /** A word with one more byte read into it. */
  function Shift32(p: bv32, b: Byte): bv32 { (p << 8) | (b as bv32) }

  lemma Join32(p: bv32, b: Byte)
    requires p < 0x100_0000
    ensures ((p << 8) | (b as bv32)) as nat == 256 * (p as nat) + (b as nat)
  {
  }

  lemma Joined32(p: bv32, b: Byte)
    requires p < 0x100_0000
    ensures Num32(Shift32(p, b)) == 256 * Num32(p) + (b as nat)
  {
    Join32(p, b);
  }

  lemma Rejoined32(w: bv32)
    ensures Shift32(Upper32(w), Lower32(w)) == w && Upper32(w) < 0x100_0000
  {
  }

  lemma LowByte32(w: bv32)
    ensures LowByte(Num32(w)) == Lower32(w) && Num32(w) / 256 == Num32(Upper32(w))
  {
    hide Num32, Upper32, Lower32, Shift32, LowByte;
    Rejoined32(w);
    Joined32(Upper32(w), Lower32(w));
    LowOf(Num32(Upper32(w)), Lower32(w));
  }

  function Upper64(w: bv64): bv64 { w >> 8 }

  function Lower64(w: bv64): Byte { (w & 0xFF) as Byte }

  function Shift64(p: bv64, b: Byte): bv64 { (p << 8) | (b as bv64) }

  lemma Join64(p: bv64, b: Byte)
    requires p < 0x100_0000_0000_0000
    ensures ((p << 8) | (b as bv64)) as nat == 256 * (p as nat) + (b as nat)
  {
  }

  lemma Joined64(p: bv64, b: Byte)
    requires p < 0x100_0000_0000_0000
    ensures Num64(Shift64(p, b)) == 256 * Num64(p) + (b as nat)
  {
    Join64(p, b);
  }

  lemma Rejoined64(w: bv64)
    ensures Shift64(Upper64(w), Lower64(w)) == w && Upper64(w) < 0x100_0000_0000_0000
  {
  }

  lemma LowByte64(w: bv64)
    ensures LowByte(Num64(w)) == Lower64(w) && Num64(w) / 256 == Num64(Upper64(w))
  {
    hide Num64, Upper64, Lower64, Shift64, LowByte;
    Rejoined64(w);
    Joined64(Upper64(w), Lower64(w));
    LowOf(Num64(Upper64(w)), Lower64(w));
  }

  // Words and their bytes.

  function Enc32Le(w: bv32): (s: seq<Byte>)
    ensures |s| == 4
  {
    [(w & 0xFF) as Byte, ((w >> 8) & 0xFF) as Byte, ((w >> 16) & 0xFF) as Byte, (w >> 24) as Byte]
  }

  function Enc32Be(w: bv32): (s: seq<Byte>)
    ensures |s| == 4
  {
    [(w >> 24) as Byte, ((w >> 16) & 0xFF) as Byte, ((w >> 8) & 0xFF) as Byte, (w & 0xFF) as Byte]
  }

  function Enc64Le(w: bv64): (s: seq<Byte>)
    ensures |s| == 8
  {
    [(w & 0xFF) as Byte, ((w >> 8) & 0xFF) as Byte, ((w >> 16) & 0xFF) as Byte, ((w >> 24) & 0xFF) as Byte,
     ((w >> 32) & 0xFF) as Byte, ((w >> 40) & 0xFF) as Byte, ((w >> 48) & 0xFF) as Byte, (w >> 56) as Byte]
  }

  function Dec32Le(b: seq<Byte>): bv32
    requires |b| == 4
  {
    (b[0] as bv32) | ((b[1] as bv32) << 8) | ((b[2] as bv32) << 16) | ((b[3] as bv32) << 24)
  }

  function Dec32Be(b: seq<Byte>): bv32
    requires |b| == 4
  {
    ((b[0] as bv32) << 24) | ((b[1] as bv32) << 16) | ((b[2] as bv32) << 8) | (b[3] as bv32)
  }

  /** The low len bytes of a word, taken off one by one. */
  function Bytes32(w: bv32, len: nat): (s: seq<Byte>)
    ensures |s| == len
  {
    if len == 0 then [] else [Lower32(w)] + Bytes32(Upper32(w), len - 1)
  }

  function Bytes64(w: bv64, len: nat): (s: seq<Byte>)
    ensures |s| == len
  {
    if len == 0 then [] else [Lower64(w)] + Bytes64(Upper64(w), len - 1)
  }

  lemma {:induction false} Bytes32Value(w: bv32, len: nat)
    ensures Bytes32(w, len) == LittleEndian(Num32(w), len)
    decreases len
  {
    hide Num32, LittleEndian, LowByte, Upper32, Lower32;
    if len == 0 {
      assert LittleEndian(Num32(w), 0) == [];
    } else {
      LowByte32(w);
      Bytes32Value(Upper32(w), len - 1);
      LittleEndianCons(Num32(w), len);
    }
  }

  lemma {:induction false} Bytes64Value(w: bv64, len: nat)
    ensures Bytes64(w, len) == LittleEndian(Num64(w), len)
    decreases len
  {
    hide Num64, LittleEndian, LowByte, Upper64, Lower64;
    if len == 0 {
      assert LittleEndian(Num64(w), 0) == [];
    } else {
      LowByte64(w);
      Bytes64Value(Upper64(w), len - 1);
      LittleEndianCons(Num64(w), len);
    }
  }

  lemma FourBytes(w: bv32)
    ensures Bytes32(w, 4) == [Lower32(w), Lower32(Upper32(w)), Lower32(Upper32(Upper32(w))), Lower32(Upper32(Upper32(Upper32(w))))]
  {
    hide Upper32, Lower32;
    var a := Upper32(w);
    var b := Upper32(a);
    var c := Upper32(b);
    assert Bytes32(Upper32(c), 0) == [];
    assert Bytes32(c, 1) == [Lower32(c)];
    assert Bytes32(b, 2) == [Lower32(b), Lower32(c)];
    assert Bytes32(a, 3) == [Lower32(a), Lower32(b), Lower32(c)];
  }

  lemma LowerBytes32(w: bv32)
    ensures Lower32(Upper32(w)) == ((w >> 8) & 0xFF) as Byte
    ensures Lower32(Upper32(Upper32(w))) == ((w >> 16) & 0xFF) as Byte
    ensures Lower32(Upper32(Upper32(Upper32(w)))) == (w >> 24) as Byte
  {
  }

  lemma FourTaken(w: bv32)
    ensures Enc32Le(w) == Bytes32(w, 4)
  {
    FourBytes(w);
    LowerBytes32(w);
    hide Bytes32;
  }

  /** The bytes of a word, less significant first, are those of its number. */
  lemma Enc32LeValue(w: bv32)
    ensures Enc32Le(w) == LittleEndian(Num32(w), 4)
  {
    hide Num32, LittleEndian, Bytes32, Enc32Le;
    FourTaken(w);
    Bytes32Value(w, 4);
  }

  /** The word shifted down by j bytes. */
  function Down32(w: bv32, j: nat): bv32 {
    if j == 0 then w else Down32(Upper32(w), j - 1)
  }

  /** Byte j of a word, the least significant first. */
  function ByteAt32(w: bv32, j: nat): Byte { Lower32(Down32(w, j)) }

  lemma {:induction false} TakenAt32(w: bv32, len: nat, j: nat)
    requires j < len
    ensures Bytes32(w, len)[j] == ByteAt32(w, j)
    decreases len
  {
    hide Upper32, Lower32;
    if j > 0 {
      TakenAt32(Upper32(w), len - 1, j - 1);
    }
  }

  lemma ByteIs32(w: bv32, j: nat)
    requires j < 4
    ensures Enc32Le(w)[j] == ByteAt32(w, j)
  {
    hide Enc32Le, Bytes32, ByteAt32;
    FourTaken(w);
    TakenAt32(w, 4, j);
  }

  lemma Enc32LeReadsBack(w: bv32)
    ensures FromLittle(Enc32Le(w)) == Num32(w)
  {
    hide Num32, Enc32Le, LittleEndian, FromLittle;
    Enc32LeValue(w);
    LittleReadsBack(Num32(w), 4);
    Pow256Four();
    WordRange32(w);
    ModUnique(Num32(w), TWO_32, 0, Num32(w));
  }

  /** And more significant first. */
  lemma Enc32BeValue(w: bv32)
    ensures Enc32Be(w) == BigEndian(Num32(w), 4)
  {
    Enc32LeValue(w);
    hide Num32, Enc32Be, Enc32Le;
    TurnedWord(w);
    TurnedNumber(Num32(w));
  }

  lemma TurnedWord(w: bv32)
    ensures Enc32Be(w) == [Enc32Le(w)[3], Enc32Le(w)[2], Enc32Le(w)[1], Enc32Le(w)[0]]
  {
  }

  lemma TurnedNumber(v: nat)
    ensures var s := LittleEndian(v, 4); BigEndian(v, 4) == [s[3], s[2], s[1], s[0]]
  {
    hide ByteOf;
  }

  lemma EightBytes(w: bv64)
    ensures Enc64Le(w) == Enc32Le((w & 0xFFFF_FFFF) as bv32) + Enc32Le((w >> 32) as bv32)
  {
  }

  lemma FourBytes64(w: bv64)
    ensures Bytes64(w, 4) == [Lower64(w), Lower64(Upper64(w)), Lower64(Upper64(Upper64(w))), Lower64(Upper64(Upper64(Upper64(w))))]
  {
    hide Upper64, Lower64;
    var a := Upper64(w);
    var b := Upper64(a);
    var c := Upper64(b);
    assert Bytes64(Upper64(c), 0) == [];
    assert Bytes64(c, 1) == [Lower64(c)];
    assert Bytes64(b, 2) == [Lower64(b), Lower64(c)];
    assert Bytes64(a, 3) == [Lower64(a), Lower64(b), Lower64(c)];
  }

  function FourUp(w: bv64): bv64 { Upper64(Upper64(Upper64(Upper64(w)))) }

  lemma {:induction false} BytesSplit64(w: bv64)
    ensures Bytes64(w, 8) == Bytes64(w, 4) + Bytes64(FourUp(w), 4)
  {
    hide Upper64, Lower64;
    var a := Upper64(w);
    var b := Upper64(a);
    var c := Upper64(b);
    var d := Upper64(c);
    var end := Bytes64(d, 4);
    assert Bytes64(c, 5) == [Lower64(c)] + end;
    assert Bytes64(b, 6) == [Lower64(b)] + Bytes64(c, 5);
    assert Bytes64(a, 7) == [Lower64(a)] + Bytes64(b, 6);
    assert Bytes64(w, 8) == [Lower64(w)] + Bytes64(a, 7);
    FourBytes64(w);
  }

  lemma EightBytesTaken(w: bv64)
    ensures Bytes64(w, 8) == Enc64Le(w)
  {
    hide Upper64, Lower64, Bytes64, Enc64Le;
    BytesSplit64(w);
    FourBytes64(w);
    FourBytes64(FourUp(w));
    LowerBytes64(w);
    EightElements(w);
  }

  lemma EightElements(w: bv64)
    ensures Enc64Le(w) == [Lower64(w), ((w >> 8) & 0xFF) as Byte, ((w >> 16) & 0xFF) as Byte, ((w >> 24) & 0xFF) as Byte,
      ((w >> 32) & 0xFF) as Byte, ((w >> 40) & 0xFF) as Byte, ((w >> 48) & 0xFF) as Byte, (w >> 56) as Byte]
  {
  }

  lemma LowerBytes64(w: bv64)
    ensures var a := Upper64(w); var b := Upper64(a); var c := Upper64(b); var d := Upper64(c);
      var e := Upper64(d); var f := Upper64(e); var g := Upper64(f);
      Lower64(a) == ((w >> 8) & 0xFF) as Byte && Lower64(b) == ((w >> 16) & 0xFF) as Byte &&
      Lower64(c) == ((w >> 24) & 0xFF) as Byte && Lower64(d) == ((w >> 32) & 0xFF) as Byte &&
      Lower64(e) == ((w >> 40) & 0xFF) as Byte && Lower64(f) == ((w >> 48) & 0xFF) as Byte &&
      Lower64(g) == (w >> 56) as Byte
  {
  }

  lemma Enc64LeValue(w: bv64)
    ensures Enc64Le(w) == LittleEndian(Num64(w), 8)
  {
    hide Num64, Enc64Le, LittleEndian, Bytes64;
    EightBytesTaken(w);
    Bytes64Value(w, 8);
  }

  /** The word shifted down by j bytes. */
  function Down64(w: bv64, j: nat): bv64 {
    if j == 0 then w else Down64(Upper64(w), j - 1)
  }

  /** Byte j of a word, the least significant first. */
  function ByteAt64(w: bv64, j: nat): Byte { Lower64(Down64(w, j)) }

  lemma {:induction false} TakenAt64(w: bv64, len: nat, j: nat)
    requires j < len
    ensures Bytes64(w, len)[j] == ByteAt64(w, j)
    decreases len
  {
    hide Upper64, Lower64;
    if j > 0 {
      TakenAt64(Upper64(w), len - 1, j - 1);
    }
  }

  lemma ByteIs64(w: bv64, j: nat)
    requires j < 8
    ensures Enc64Le(w)[j] == ByteAt64(w, j)
  {
    hide Enc64Le, Bytes64, ByteAt64;
    EightBytesTaken(w);
    TakenAt64(w, 8, j);
  }

  lemma Enc64LeReadsBack(w: bv64)
    ensures FromLittle(Enc64Le(w)) == Num64(w)
  {
    hide Num64, Enc64Le, LittleEndian, FromLittle;
    Enc64LeValue(w);
    LittleReadsBack(Num64(w), 8);
    Pow256Word();
    WordRange64(w);
    ModUnique(Num64(w), TWO_64, 0, Num64(w));
  }

  /** Writing what was read gives the bytes again. */
  lemma DecodedLe(b: seq<Byte>)
    requires |b| == 4
    ensures Enc32Le(Dec32Le(b)) == b
  {
    DecodedBytes(b[0], b[1], b[2], b[3]);
  }

  lemma DecodedBytes(a: Byte, b: Byte, c: Byte, d: Byte)
    ensures var w: bv32 := (a as bv32) | ((b as bv32) << 8) | ((c as bv32) << 16) | ((d as bv32) << 24);
      (w & 0xFF) as Byte == a && ((w >> 8) & 0xFF) as Byte == b && ((w >> 16) & 0xFF) as Byte == c && (w >> 24) as Byte == d
  {
  }

  lemma Dec32LeValue(b: seq<Byte>)
    requires |b| == 4
    ensures Num32(Dec32Le(b)) == FromLittle(b)
  {
    hide Num32, Dec32Le, Enc32Le, LittleEndian, FromLittle;
    DecodedLe(b);
    Enc32LeValue(Dec32Le(b));
    WordRange32(Dec32Le(b));
    LittleReadsBack(Num32(Dec32Le(b)), 4);
    Pow256Four();
    ModUnique(Num32(Dec32Le(b)), TWO_32, 0, Num32(Dec32Le(b)));
  }

  lemma Pow256Four()
    ensures Pow256(4) == TWO_32
  {
    assert Pow256(2) == 0x1_0000;
  }

  lemma WordRange32(w: bv32)
    ensures Num32(w) < TWO_32
  {
  }

  lemma WordRange64(w: bv64)
    ensures Num64(w) < TWO_64
  {
  }

  /** Words in a row, less significant bytes first. */
  function EncodeLe(ws: seq<bv32>): (s: seq<Byte>)
    ensures |s| == 4 * |ws|
  {
    if ws == [] then [] else EncodeLe(ws[..|ws| - 1]) + Enc32Le(ws[|ws| - 1])
  }

  /** More significant bytes first. */
  function EncodeBe(ws: seq<bv32>): (s: seq<Byte>)
    ensures |s| == 4 * |ws|
  {
    if ws == [] then [] else EncodeBe(ws[..|ws| - 1]) + Enc32Be(ws[|ws| - 1])
  }

  lemma Before(s: seq<Byte>, last: seq<Byte>, from: nat, to: nat)
    requires from <= to <= |s|
    ensures (s + last)[from..to] == s[from..to]
  {
  }

  lemma AtEnd(s: seq<Byte>, last: seq<Byte>)
    ensures (s + last)[|s|..|s| + |last|] == last
  {
  }

  lemma {:induction false} EncodedLeAt(ws: seq<bv32>, k: nat)
    requires k < |ws|
    ensures EncodeLe(ws)[4 * k..4 * k + 4] == Enc32Le(ws[k])
  {
    hide Enc32Le;
    var n := |ws| - 1;
    var before := EncodeLe(ws[..n]);
    if k < n {
      EncodedLeAt(ws[..n], k);
      Before(before, Enc32Le(ws[n]), 4 * k, 4 * k + 4);
    } else {
      AtEnd(before, Enc32Le(ws[n]));
    }
  }

  lemma {:induction false} EncodedBeAt(ws: seq<bv32>, k: nat)
    requires k < |ws|
    ensures EncodeBe(ws)[4 * k..4 * k + 4] == Enc32Be(ws[k])
  {
    hide Enc32Be;
    var n := |ws| - 1;
    var before := EncodeBe(ws[..n]);
    if k < n {
      EncodedBeAt(ws[..n], k);
      Before(before, Enc32Be(ws[n]), 4 * k, 4 * k + 4);
    } else {
      AtEnd(before, Enc32Be(ws[n]));
    }
  }

  /** Every word can be read back from its place. */
  lemma EncodedReadsBack(ws: seq<bv32>, k: nat)
    requires k < |ws|
    ensures FromLittle(EncodeLe(ws)[4 * k..4 * k + 4]) == Num32(ws[k]) == FromBig(EncodeBe(ws)[4 * k..4 * k + 4])
  {
    hide Num32, EncodeLe, EncodeBe, Enc32Le, Enc32Be, FromLittle, FromBig, LittleEndian, BigEndian;
    EncodedLeAt(ws, k);
    EncodedBeAt(ws, k);
    var v := Num32(ws[k]);
    Enc32LeValue(ws[k]);
    Enc32BeValue(ws[k]);
    LittleReadsBack(v, 4);
    BigReadsBack(v, 4);
    Pow256Four();
    WordRange32(ws[k]);
    ModUnique(v, TWO_32, 0, v);
  }

  // Sums and rotations.

  lemma WordOf32(n: nat)
    requires n < TWO_32
    ensures Num32(n as bv32) == n
  {
    assert n % TWO_32 == n;
  }

  /** T32. */
  function Word32(n: int): bv32 { (n % TWO_32) as bv32 }

  lemma Word32Value(n: int)
    ensures Num32(Word32(n)) == n % TWO_32
  {
    WordOf32(n % TWO_32);
  }

  function Add32(x: bv32, y: bv32): bv32 { Word32(Num32(x) + Num32(y)) }

  lemma Add32Value(x: bv32, y: bv32)
    ensures Num32(Add32(x, y)) == (Num32(x) + Num32(y)) % TWO_32
  {
    hide Num32, Word32;
    Word32Value(Num32(x) + Num32(y));
  }

  lemma WordOf64(n: nat)
    requires n < TWO_64
    ensures Num64(n as bv64) == n
  {
    assert n % TWO_64 == n;
  }

  /** T64. */
  function Word64(n: int): bv64 { (n % TWO_64) as bv64 }

  lemma Word64Value(n: int)
    ensures Num64(Word64(n)) == n % TWO_64
  {
    WordOf64(n % TWO_64);
  }

  function Add64(x: bv64, y: bv64): bv64 { Word64(Num64(x) + Num64(y)) }

  function Sub64(x: bv64, y: bv64): bv64 { Word64(Num64(x) - Num64(y)) }

  lemma Add64Value(x: bv64, y: bv64)
    ensures Num64(Add64(x, y)) == (Num64(x) + Num64(y)) % TWO_64
  {
    hide Num64, Word64;
    Word64Value(Num64(x) + Num64(y));
  }

  lemma Sub64Value(x: bv64, y: bv64)
    ensures Num64(Sub64(x, y)) == (Num64(x) - Num64(y)) % TWO_64
  {
    hide Num64, Word64;
    Word64Value(Num64(x) - Num64(y));
  }

  function Rotl32(x: bv32, k: nat): bv32
    requires 0 < k < 32
  {
    (x << k) | (x >> (32 - k))
  }

  /** The upper k bits come out below, the others above. */
  lemma Rotl32By7(x: bv32)
    ensures Rotl32(x, 7) & 0x7F == x >> 25 && Rotl32(x, 7) >> 7 == x & 0x01FF_FFFF
  {
  }

  lemma Rotl32By11(x: bv32)
    ensures Rotl32(x, 11) & 0x7FF == x >> 21 && Rotl32(x, 11) >> 11 == x & 0x001F_FFFF
  {
  }

  // Exclusive or.

  lemma XorMeans8(a: Byte, b: Byte)
    ensures Xor8(a, b) == (a | b) & !(a & b)
  {
  }

  lemma XorMeans32(a: bv32, b: bv32)
    ensures Xor32(a, b) == (a | b) & !(a & b)
  {
  }

  lemma XorMeans64(a: bv64, b: bv64)
    ensures Xor64(a, b) == (a | b) & !(a & b)
  {
  }

  lemma XorLower(w: bv32, v: bv32)
    ensures Lower32(Xor32(w, v)) == Xor8(Lower32(w), Lower32(v))
  {
  }

  lemma XorUpper(w: bv32, v: bv32)
    ensures Upper32(Xor32(w, v)) == Xor32(Upper32(w), Upper32(v))
  {
  }

  lemma {:induction false} XorTaken(w: bv32, v: bv32, len: nat, j: nat)
    requires j < len
    ensures Bytes32(Xor32(w, v), len)[j] == Xor8(Bytes32(w, len)[j], Bytes32(v, len)[j])
    decreases len
  {
    hide Upper32, Lower32, Xor32, Xor8;
    XorLower(w, v);
    XorUpper(w, v);
    if j > 0 {
      XorTaken(Upper32(w), Upper32(v), len - 1, j - 1);
    }
  }

  lemma XorEncoded(w: bv32, v: bv32, j: nat)
    requires j < 4
    ensures Enc32Le(Xor32(w, v))[j] == Xor8(Enc32Le(w)[j], Enc32Le(v)[j])
  {
    hide Enc32Le, Bytes32, Xor32, Xor8;
    FourTaken(w);
    FourTaken(v);
    FourTaken(Xor32(w, v));
    XorTaken(w, v, 4, j);
  }

  /** The bytes of a word xored with one that was read are the bytes, xored. */
  lemma XorBytes(w: bv32, b: seq<Byte>, j: nat)
    requires |b| == 4 && j < 4
    ensures Enc32Le(Xor32(w, Dec32Le(b)))[j] == Xor8(Enc32Le(w)[j], b[j])
  {
    hide Enc32Le, Dec32Le, Xor32, Xor8;
    DecodedLe(b);
    XorEncoded(w, Dec32Le(b), j);
  }
}

/** Bytes, machine words and the few C library calls that the hash files share. */
module Bytes {

  type Byte = bv8

  // Machine words wrap modulo a power of two.
  const TWO_32: nat := 0x1_0000_0000
  const TWO_64: nat := 0x1_0000_0000_0000_0000

  function Xor8(a: Byte, b: Byte): Byte { a ^ b }

  function Xor32(a: bv32, b: bv32): bv32 { a ^ b }

  function Xor64(a: bv64, b: bv64): bv64 { a ^ b }

  function Min(a: nat, b: nat): nat { if a <= b then a else b }

  function Repeat(n: nat, v: Byte): (s: seq<Byte>)
    ensures |s| == n && forall i :: 0 <= i < n ==> s[i] == v
  {
    seq(n, i => v)
  }

  /** memcpy into a byte buffer. */
  method CopyInto(dst: array<Byte>, at: nat, src: seq<Byte>)
    requires at + |src| <= dst.Length
    modifies dst
    ensures dst[..] == old(dst[..at]) + src + old(dst[at + |src|..])
    ensures dst[..at + |src|] == old(dst[..at]) + src
  {
    forall i | 0 <= i < |src| {
      dst[at + i] := src[i];
    }
  }

  /** memset of count bytes from position at. */
  method Fill(dst: array<Byte>, at: nat, count: nat, v: Byte)
    requires at + count <= dst.Length
    modifies dst
    ensures dst[..] == old(dst[..at]) + Repeat(count, v) + old(dst[at + count..])
    ensures dst[..at + count] == old(dst[..at]) + Repeat(count, v)
  {
    forall i | 0 <= i < count {
      dst[at + i] := v;
    }
  }

  /** The last, partial byte of a message that ends in n < 8 extra bits: the
      n bits, a one bit, then zeros. ub holds the bits in its upper positions. */
  function TrailingByte(ub: bv32, n: nat): Byte
    requires n < 8
  {
    var z: bv32 := 0x80 >> n;
    (((ub & (0 - z)) | z) & 0xFF) as Byte
  }

  function Pow256(k: nat): (r: nat)
    ensures r > 0
  {
    if k == 0 then 1 else 256 * Pow256(k - 1)
  }

  /** Byte k of v, counted from the least significant one. */
  function ByteOf(v: nat, k: nat): Byte {
    ((v / Pow256(k)) % 256) as Byte
  }

  /** The len low bytes of v, most significant first. */
  function BigEndian(v: nat, len: nat): (s: seq<Byte>)
    ensures |s| == len
  {
    seq(len, i requires 0 <= i < len => ByteOf(v, len - 1 - i))
  }

  /** The len low bytes of v, least significant first. */
  function LittleEndian(v: nat, len: nat): (s: seq<Byte>)
    ensures |s| == len
  {
    seq(len, i requires 0 <= i < len => ByteOf(v, i))
  }

  function Flatten(pieces: seq<seq<Byte>>): seq<Byte> {
    if pieces == [] then [] else Flatten(pieces[..|pieces| - 1]) + pieces[|pieces| - 1]
  }

  lemma FlattenSnoc(pieces: seq<seq<Byte>>, k: nat)
    requires k < |pieces|
    ensures Flatten(pieces[..k + 1]) == Flatten(pieces[..k]) + pieces[k]
  {
    assert pieces[..k + 1][..k] == pieces[..k];
  }

  /** Reading the first k bytes of d early does not change the whole. */
  lemma Regroup(a: seq<Byte>, b: seq<Byte>, d: seq<Byte>, k: nat)
    requires k <= |d|
    ensures a + (b + d[..k]) + d[k..] == a + b + d
  {
  }

  /** The bit length of n bytes, in a 64-bit counter. */
  function BitCount(n: nat): (c: nat)
    ensures c < TWO_64
  {
    8 * n % TWO_64
  }

  /** The count of whole bytes leaves room for less than a byte. */
  lemma BitCountRoom(n: nat, bits: nat)
    requires bits < 8
    ensures BitCount(n) + bits < TWO_64 && (BitCount(n) + bits) % TWO_64 == BitCount(n) + bits
  {
    assert 8 * n % 8 == 0;
    AlignedWord(8 * n, 8, TWO_64, 0x2000_0000_0000_0000);
    ModUnique(BitCount(n) + bits, TWO_64, 0, BitCount(n) + bits);
  }

  lemma BitCountAdd(n: nat, k: nat)
    ensures (BitCount(n) + 8 * k) % TWO_64 == BitCount(n + k)
  {
    ModAdd(8 * n, 8 * k, TWO_64);
  }

  /** Quotient and remainder are unique. */
  lemma ModUnique(x: nat, m: nat, q: nat, r: nat)
    requires r < m && x == m * q + r
    ensures x % m == r && x / m == q
  {
    var d := x / m - q;
    assert m * d == r - x % m by {
      assert x == m * (x / m) + x % m;
      assert m * d == m * (x / m) - m * q;
    }
    MulBound(m, d);
  }

  lemma MulBound(m: int, d: int)
    requires m >= 0
    ensures d >= 1 ==> m * d >= m
    ensures d <= -1 ==> m * d <= -m
  {
    if d >= 1 {
      assert m * d == m + m * (d - 1);
    } else if d <= -1 {
      assert m * d == -m + m * (d + 1);
    }
  }

  /** Remainders by a divisor of the modulus. */
  lemma ModOfMod(len: nat, big: nat, small: nat, p: nat)
    requires small > 0 && big > 0 && big == small * p
    ensures len % big % small == len % small
  {
    var k, c := len / big, len % big;
    var c1, c2 := c / small, c % small;
    assert len == big * k + c;
    assert c == small * c1 + c2;
    Nest(small, p, k, c1);
    ModUnique(len, small, p * k + c1, c2);
  }

  lemma Nest(a: nat, b: nat, c: nat, d: nat)
    ensures a * b * c + a * d == a * (b * c + d)
  {
  }

  lemma ModAdd(n: nat, k: nat, w: nat)
    requires 0 < w
    ensures (n % w + k) % w == (n + k) % w
  {
    ModShift(n + k, w, n / w, n % w + k);
  }

  /** Whole multiples do not change the remainder. */
  lemma ModShift(y: nat, w: nat, q: nat, x: nat)
    requires 0 < w && y == w * q + x
    ensures y % w == x % w
  {
    var a, b := x / w, x % w;
    ModSum(y, w, q, a, b);
  }

  lemma ModSum(y: nat, w: nat, q: nat, a: nat, b: nat)
    requires b < w && y == w * q + (w * a + b)
    ensures y % w == b
  {
    Spread(w, q, a);
    ModUnique(y, w, q + a, b);
  }

  lemma Spread(w: nat, a: nat, b: nat)
    ensures w * (a + b) == w * a + w * b
  {
  }

  lemma MulOrder(a: nat, p: nat, j: nat)
    ensures p <= j ==> a * p <= a * j
  {
    if p <= j {
      assert a * j == a * p + a * (j - p);
    }
  }

  /** A multiple of a that wraps at a multiple of a stays one, and leaves room for another. */
  lemma AlignedWord(n: nat, a: nat, w: nat, p: nat)
    requires 0 < a && 0 < w && w == a * p && n % a == 0
    ensures n % w % a == 0 && (n % w == 0 || n % w >= a) && n % w + a <= w
  {
    ModOfMod(n, w, a, p);
    var j := n % w / a;
    assert n % w == a * j;
    MulOrder(a, p, j);
    assert a * p == a * j + a * (p - j);
    MulBound(a, p - j);
    MulBound(a, j);
  }

  /** Going past a whole number of blocks. */
  lemma PastWhole(whole: nat, k: nat, b: nat)
    requires 0 < b && whole % b == 0 && k < 2 * b
    ensures (whole + k) % b == if k < b then k else k - b
  {
    var q := whole / b;
    assert whole == b * q;
    if k < b {
      ModUnique(whole + k, b, q, k);
    } else {
      assert b * (q + 1) == b * q + b;
      ModUnique(whole + k, b, q + 1, k - b);
    }
  }

  /** Filling up a block. */
  lemma Completes(len: nat, blen: nat, q: nat, fill: nat, size: nat, k: nat)
    requires blen > 0 && len == blen * q + fill && fill + size == blen * k
    ensures (len + size) % blen == 0
  {
    assert len + size == blen * (q + k) + 0;
    ModUnique(len + size, blen, q + k, 0);
  }

  lemma RoundsUp(x: nat, b: nat)
    requires 0 < b
    ensures (x + b - x % b) % b == 0
  {
    assert b * (x / b + 1) == b * (x / b) + b;
    ModUnique(x + b - x % b, b, x / b + 1, 0);
  }

  /** Adding to a word that wraps. */
  lemma WrapAdd(n: nat, k: nat, w: nat)
    requires 0 < w && k <= w
    ensures (n % w + k) % w == (n + k) % w
    ensures (n + k) % w == if n % w + k < w then n % w + k else n % w + k - w
    ensures (n + k) / w == n / w + if n % w + k < w then 0 else 1
  {
    var q, r := n / w, n % w;
    assert n == w * q + r;
    if r + k < w {
      ModUnique(n + k, w, q, r + k);
      ModUnique(r + k, w, 0, r + k);
    } else {
      assert w * (q + 1) == w * q + w;
      ModUnique(n + k, w, q + 1, r + k - w);
      ModUnique(r + k, w, 1, r + k - w);
    }
  }

  /** A counter of two words: the carry is seen by comparing the sum with the addend. */
  lemma CarryWord(n: nat, c: nat, w: nat)
    requires 0 < w && c < w
    ensures (n % w + c) % w == (n + c) % w
    ensures (n + c) / w % w == (n / w % w + if (n + c) % w < c then 1 else 0) % w
    ensures (n + c) / w % w == if (n + c) % w < c then (n / w % w + 1) % w else n / w % w
  {
    WrapAdd(n, c, w);
    WrapAdd(n / w, 0, w);
    WrapAdd(n / w, 1, w);
  }

  lemma ByteValue(n: nat)
    requires n < 256
    ensures (n as Byte) as nat == n
  {
    assert n % 256 == n;
  }

  // Numbers and their bytes.

  lemma DivDiv(v: nat, p: nat)
    requires p > 0
    ensures v / (256 * p) == v / 256 / p
  {
    var a, b := v / 256 / p, v / 256 % p;
    assert v / 256 == p * a + b;
    assert 256 * (p * a) == 256 * p * a;
    ModUnique(v, 256 * p, a, 256 * b + v % 256);
  }

  function LowByte(v: nat): Byte { (v % 256) as Byte }

  /** Less significant byte first: the rest is the encoding of the quotient. */
  lemma LittleEndianCons(v: nat, len: nat)
    requires len > 0
    ensures LittleEndian(v, len) == [LowByte(v)] + LittleEndian(v / 256, len - 1)
  {
    hide ByteOf, LowByte;
    LowestByte(v);
    var a, b := LittleEndian(v, len), LittleEndian(v / 256, len - 1);
    forall i | 0 <= i < len - 1
      ensures a[i + 1] == b[i]
    {
      NextByte(v, i);
    }
    assert a == [LowByte(v)] + b;
  }

  lemma NextByte(v: nat, k: nat)
    ensures ByteOf(v, k + 1) == ByteOf(v / 256, k)
  {
    DivDiv(v, Pow256(k));
  }

  /** Most significant byte first: the last byte is the remainder. */
  lemma BigEndianSnoc(v: nat, len: nat)
    requires len > 0
    ensures BigEndian(v, len) == BigEndian(v / 256, len - 1) + [LowByte(v)]
  {
    hide ByteOf, LowByte;
    LowestByte(v);
    var a, b := BigEndian(v, len), BigEndian(v / 256, len - 1);
    forall i | 0 <= i < len - 1
      ensures a[i] == b[i]
    {
      NextByte(v, len - 2 - i);
    }
    assert a == b + [LowByte(v)];
  }

  lemma LowestByte(v: nat)
    ensures ByteOf(v, 0) == LowByte(v)
  {
    assert Pow256(0) == 1;
  }

  lemma LowValue(v: nat)
    ensures LowByte(v) as nat == v % 256
  {
    ByteValue(v % 256);
  }

  lemma LowMod(v: nat)
    ensures LowByte(v) == LowByte(v % 256)
  {
  }

  lemma LowZero()
    ensures LowByte(0) == 0 && (0 as Byte) as nat == 0
  {
  }

  lemma SplitMod(v: nat, p: nat)
    requires p > 0
    ensures v % (256 * p) == 256 * (v / 256 % p) + v % 256
  {
    var q, r := v / 256 / p, v / 256 % p;
    assert v / 256 == p * q + r;
    assert 256 * (p * q) == 256 * p * q;
    ModUnique(v, 256 * p, q, 256 * r + v % 256);
  }

  /** The number whose bytes these are, less significant first. */
  function FromLittle(s: seq<Byte>): nat {
    if s == [] then 0 else s[0] as nat + 256 * FromLittle(s[1..])
  }

  /** The same, more significant first. */
  function FromBig(s: seq<Byte>): nat {
    if s == [] then 0 else 256 * FromBig(s[..|s| - 1]) + s[|s| - 1] as nat
  }

  lemma {:induction false} LittleReadsBack(v: nat, len: nat)
    ensures FromLittle(LittleEndian(v, len)) == v % Pow256(len)
  {
    hide LittleEndian, LowByte;
    if len == 0 {
      assert LittleEndian(v, 0) == [];
    } else {
      LittleEndianCons(v, len);
      LittleReadsBack(v / 256, len - 1);
      LowValue(v);
      SplitMod(v, Pow256(len - 1));
      assert ([LowByte(v)] + LittleEndian(v / 256, len - 1))[1..] == LittleEndian(v / 256, len - 1);
    }
  }

  lemma {:induction false} BigReadsBack(v: nat, len: nat)
    ensures FromBig(BigEndian(v, len)) == v % Pow256(len)
  {
    hide BigEndian, LowByte;
    if len == 0 {
      assert BigEndian(v, 0) == [];
    } else {
      BigEndianSnoc(v, len);
      BigReadsBack(v / 256, len - 1);
      LowValue(v);
      SplitMod(v, Pow256(len - 1));
      assert (BigEndian(v / 256, len - 1) + [LowByte(v)])[..len - 1] == BigEndian(v / 256, len - 1);
    }
  }

  lemma {:induction false} LittleRestores(s: seq<Byte>)
    ensures LittleEndian(FromLittle(s), |s|) == s
  {
    hide LittleEndian, LowByte;
    if s == [] {
      assert LittleEndian(0, 0) == [];
    } else {
      var rest := FromLittle(s[1..]);
      LittleRestores(s[1..]);
      LittleEndianCons(s[0] as nat + 256 * rest, |s|);
      LowOf(rest, s[0]);
    }
  }

  lemma {:induction false} BigRestores(s: seq<Byte>)
    ensures BigEndian(FromBig(s), |s|) == s
  {
    hide BigEndian, LowByte;
    if s == [] {
      assert BigEndian(0, 0) == [];
    } else {
      var n := |s| - 1;
      var rest := FromBig(s[..n]);
      BigRestores(s[..n]);
      BigEndianSnoc(256 * rest + s[n] as nat, |s|);
      LowOf(rest, s[n]);
    }
  }

  lemma LowOf(rest: nat, b: Byte)
    ensures var v := 256 * rest + b as nat; LowByte(v) == b && v / 256 == rest
  {
    hide LowByte;
    var v := 256 * rest + b as nat;
    ModUnique(v, 256, rest, b as nat);
    LowValue(v);
  }

  lemma {:induction false} LittleConcat(a: seq<Byte>, b: seq<Byte>)
    ensures FromLittle(a + b) == FromLittle(a) + Pow256(|a|) * FromLittle(b)
  {
    if a == [] {
      assert a + b == b;
    } else {
      LittleConcat(a[1..], b);
      assert (a + b)[1..] == a[1..] + b;
      MulFactor(256, Pow256(|a| - 1), FromLittle(b));
    }
  }

  lemma {:induction false} BigConcat(a: seq<Byte>, b: seq<Byte>)
    ensures FromBig(a + b) == FromBig(a) * Pow256(|b|) + FromBig(b)
  {
    if b == [] {
      assert a + b == a;
    } else {
      var k := |b| - 1;
      BigConcat(a, b[..k]);
      assert (a + b)[..|a + b| - 1] == a + b[..k];
      MulFactor(256, FromBig(a), Pow256(k));
    }
  }

  lemma MulFactor(c: nat, x: nat, y: nat)
    ensures c * (x * y) == c * x * y == x * (c * y)
  {
  }

  lemma Pow256Word()
    ensures Pow256(8) == TWO_64
  {
    assert Pow256(4) == 256 * Pow256(3) && Pow256(3) == 256 * Pow256(2);
    assert Pow256(8) == 256 * Pow256(7) && Pow256(7) == 256 * Pow256(6);
    assert Pow256(6) == 256 * Pow256(5) && Pow256(5) == 256 * Pow256(4);
  }

  /** Bitwise and of two naturals. */
  function And(a: nat, b: nat): nat {
    if a == 0 || b == 0 then 0
    else 2 * And(a / 2, b / 2) + (if a % 2 == 1 && b % 2 == 1 then 1 else 0)
  }

  lemma {:induction false} AndSelf(a: nat)
    ensures And(a, a) == a
  {
    if a > 0 {
      AndSelf(a / 2);
    }
  }

  function Pow2(k: nat): (p: nat)
    ensures p > 0
  {
    if k == 0 then 1 else 2 * Pow2(k - 1)
  }

  /** Bits below the lowest one of a number do not matter to it. */
  lemma {:induction false} AndLow(a: nat, low: nat, k: nat)
    requires low < Pow2(k)
    ensures And(a * Pow2(k), a * Pow2(k) + low) == a * Pow2(k)
    decreases k
  {
    if k == 0 {
      AndSelf(a);
    } else {
      var p := Pow2(k - 1);
      AndLow(a, low / 2, k - 1);
      MulFactor(2, a, p);
      HalfSum(a * p, low);
    }
  }

  lemma HalfSum(x: nat, low: nat)
    requires And(x, x + low / 2) == x
    ensures And(2 * x, 2 * x + low) == 2 * x
  {
    hide And;
    AndZero(2 * x + low);
    if x > 0 {
      AndEven(x, 2 * x + low);
      assert (2 * x + low) / 2 == x + low / 2;
    }
  }

  lemma AndZero(b: nat)
    ensures And(0, b) == 0
  {
  }

  lemma AndEven(x: nat, b: nat)
    requires x > 0 && b > 0
    ensures And(2 * x, b) == 2 * And(x, b / 2)
  {
    assert 2 * x / 2 == x && 2 * x % 2 == 0;
  }

  lemma AndLow32(a: nat, low: nat)
    requires low < TWO_32
    ensures And(a * TWO_32, a * TWO_32 + low) == a * TWO_32
  {
    hide And, Pow2;
    Pow2At32();
    AndLow(a, low, 32);
  }

  lemma Pow2At32()
    ensures Pow2(32) == TWO_32
  {
    hide Pow2;
    Pow2At4();
    Pow2Adds(4, 4);
    Pow2Adds(8, 8);
    Pow2Adds(16, 16);
  }

  lemma Pow2At4()
    ensures Pow2(4) == 16
  {
  }

  lemma {:induction false} Pow2Adds(a: nat, b: nat)
    ensures Pow2(a + b) == Pow2(a) * Pow2(b)
  {
    if a > 0 {
      Pow2Adds(a - 1, b);
      MulFactor(2, Pow2(a - 1), Pow2(b));
    }
  }
}

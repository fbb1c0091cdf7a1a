/** The word functions of the 64-bit BMW. */
module BmwWords {
  import opened Bytes
  import opened Words

  function Rotl(x: bv64, n: bv7): bv64
    requires 0 < n < 64
  {
    (x << n) | (x >> (64 - n))
  }

  function Sb0(x: bv64): bv64 { (x >> 1) ^ (x << 3) ^ Rotl(x, 4) ^ Rotl(x, 37) }

  function Sb1(x: bv64): bv64 { (x >> 1) ^ (x << 2) ^ Rotl(x, 13) ^ Rotl(x, 43) }

  function Sb2(x: bv64): bv64 { (x >> 2) ^ (x << 1) ^ Rotl(x, 19) ^ Rotl(x, 53) }

  function Sb3(x: bv64): bv64 { (x >> 2) ^ (x << 2) ^ Rotl(x, 28) ^ Rotl(x, 59) }

  function Sb4(x: bv64): bv64 { (x >> 1) ^ x }

  function Sb5(x: bv64): bv64 { (x >> 2) ^ x }

  function Rb1(x: bv64): bv64 { Rotl(x, 5) }

  function Rb2(x: bv64): bv64 { Rotl(x, 11) }

  function Rb3(x: bv64): bv64 { Rotl(x, 27) }

  function Rb4(x: bv64): bv64 { Rotl(x, 32) }

  function Rb5(x: bv64): bv64 { Rotl(x, 37) }

  function Rb6(x: bv64): bv64 { Rotl(x, 43) }

  function Rb7(x: bv64): bv64 { Rotl(x, 53) }

  // The rotations: the upper bits come out below.

  lemma Rb1Rotates(x: bv64)
    ensures Rb1(x) == x.RotateLeft(5)
  {
  }

  lemma Rb2Rotates(x: bv64)
    ensures Rb2(x) == x.RotateLeft(11)
  {
  }

  lemma Rb3Rotates(x: bv64)
    ensures Rb3(x) == x.RotateLeft(27)
  {
  }

  lemma Rb4Rotates(x: bv64)
    ensures Rb4(x) == x.RotateLeft(32)
  {
  }

  lemma Rb5Rotates(x: bv64)
    ensures Rb5(x) == x.RotateLeft(37)
  {
  }

  lemma Rb6Rotates(x: bv64)
    ensures Rb6(x) == x.RotateLeft(43)
  {
  }

  lemma Rb7Rotates(x: bv64)
    ensures Rb7(x) == x.RotateLeft(53)
  {
  }

  /** Where one bit goes: two shifts and two rotations, or one shift and the bit itself. */
  lemma OneBit()
    ensures Sb0(0x1_0000_0000) == 0x0000_0018_8000_0020
    ensures Sb1(0x1_0000_0000) == 0x0000_2004_8000_0800
    ensures Sb2(0x1_0000_0000) == 0x0008_0002_4020_0000
    ensures Sb3(0x1_0000_0000) == 0x1000_0004_4800_0000
    ensures Sb4(0x1_0000_0000) == 0x0000_0001_8000_0000
    ensures Sb5(0x1_0000_0000) == 0x0000_0001_4000_0000
  {
  }

  /** Where all of them do: the rotations cancel, and the shifts lose bits at the ends. */
  lemma AllBits()
    ensures Sb0(0xFFFF_FFFF_FFFF_FFFF) == 0x8000_0000_0000_0007
    ensures Sb1(0xFFFF_FFFF_FFFF_FFFF) == 0x8000_0000_0000_0003
    ensures Sb2(0xFFFF_FFFF_FFFF_FFFF) == 0xC000_0000_0000_0001
    ensures Sb3(0xFFFF_FFFF_FFFF_FFFF) == 0xC000_0000_0000_0003
    ensures Sb4(0xFFFF_FFFF_FFFF_FFFF) == 0x8000_0000_0000_0000
    ensures Sb5(0xFFFF_FFFF_FFFF_FFFF) == 0xC000_0000_0000_0000
  {
  }

  function Kb(j: nat): bv64 { Word64(j * 0x0555_5555_5555_5555) }

  /** The constants are one multiple after the other. */
  lemma KbSteps(j: nat)
    ensures Kb(j + 1) == Add64(Kb(j), 0x0555_5555_5555_5555)
  {
    hide Num64, Word64;
    var step := 0x0555_5555_5555_5555;
    Word64Value(j * step);
    StepNumber();
    SameWord((j + 1) * step, j * step % TWO_64 + step);
    ModAdd(j * step, step, TWO_64);
  }

  /** From the first one that is used on. */
  lemma KbFirst()
    ensures Num64(Kb(16)) == 0x5555_5555_5555_5550
  {
    hide Num64, Word64;
    Word64Value(16 * 0x0555_5555_5555_5555);
  }

  lemma SameWord(a: int, b: int)
    ensures a % TWO_64 == b % TWO_64 ==> Word64(a) == Word64(b)
  {
  }

  lemma StepNumber()
    ensures Num64(0x0555_5555_5555_5555) == 0x0555_5555_5555_5555
  {
  }

  function Sum4(a: bv64, b: bv64, c: bv64, d: bv64): bv64 { Add64(Add64(Add64(a, b), c), d) }

  lemma Sum4Value(a: bv64, b: bv64, c: bv64, d: bv64)
    ensures Num64(Sum4(a, b, c, d)) == (Num64(a) + Num64(b) + Num64(c) + Num64(d)) % TWO_64
  {
    hide Num64, Add64;
    Add64Value(a, b);
    Add64Value(Add64(a, b), c);
    Add64Value(Add64(Add64(a, b), c), d);
    ModAdd(Num64(a) + Num64(b), Num64(c), TWO_64);
    ModAdd(Num64(a) + Num64(b) + Num64(c), Num64(d), TWO_64);
  }

  /** All sixteen terms, modulo 2^64. */
  function Sum16(a: bv64, b: bv64, c: bv64, d: bv64, e: bv64, f: bv64, g: bv64, h: bv64,
                 i: bv64, j: bv64, k: bv64, l: bv64, m: bv64, n: bv64, o: bv64, p: bv64): bv64
  {
    Sum4(Sum4(a, b, c, d), Sum4(e, f, g, h), Sum4(i, j, k, l), Sum4(m, n, o, p))
  }

  lemma Sum16Value(a: bv64, b: bv64, c: bv64, d: bv64, e: bv64, f: bv64, g: bv64, h: bv64,
                   i: bv64, j: bv64, k: bv64, l: bv64, m: bv64, n: bv64, o: bv64, p: bv64)
    ensures Num64(Sum16(a, b, c, d, e, f, g, h, i, j, k, l, m, n, o, p)) ==
      (Num64(a) + Num64(b) + Num64(c) + Num64(d) + Num64(e) + Num64(f) + Num64(g) + Num64(h) +
       Num64(i) + Num64(j) + Num64(k) + Num64(l) + Num64(m) + Num64(n) + Num64(o) + Num64(p)) % TWO_64
  {
    hide Num64, Sum4;
    Sum4Value(a, b, c, d);
    Sum4Value(e, f, g, h);
    Sum4Value(i, j, k, l);
    Sum4Value(m, n, o, p);
    SumOfSums(Sum4(a, b, c, d), Sum4(e, f, g, h), Sum4(i, j, k, l), Sum4(m, n, o, p),
              Num64(a) + Num64(b) + Num64(c) + Num64(d), Num64(e) + Num64(f) + Num64(g) + Num64(h),
              Num64(i) + Num64(j) + Num64(k) + Num64(l), Num64(m) + Num64(n) + Num64(o) + Num64(p));
  }

  lemma SumOfSums(s: bv64, t: bv64, u: bv64, v: bv64, a: nat, b: nat, c: nat, d: nat)
    requires Num64(s) == a % TWO_64 && Num64(t) == b % TWO_64 && Num64(u) == c % TWO_64 && Num64(v) == d % TWO_64
    ensures Num64(Sum4(s, t, u, v)) == (a + b + c + d) % TWO_64
  {
    hide Num64, Sum4;
    Sum4Value(s, t, u, v);
    FourMods(a, b, c, d, TWO_64);
  }

  lemma FourMods(a: nat, b: nat, c: nat, d: nat, w: nat)
    requires w > 0
    ensures (a % w + b % w + c % w + d % w) % w == (a + b + c + d) % w
  {
    ModAdd(a, b % w + c % w + d % w, w);
    ModAdd(b, a + c % w + d % w, w);
    ModAdd(c, a + b + d % w, w);
    ModAdd(d, a + b + c, w);
  }

  /** Two message words less a third, and the constant, under a chain word. */
  function Elt(a: bv64, b: bv64, c: bv64, constant: bv64, chain: bv64): bv64 {
    Xor64(Add64(Sub64(Add64(a, b), c), constant), chain)
  }

  lemma EltValue(a: bv64, b: bv64, c: bv64, constant: bv64, chain: bv64)
    ensures Num64(Xor64(Elt(a, b, c, constant, chain), chain)) == (Num64(a) + Num64(b) - Num64(c) + Num64(constant)) % TWO_64
  {
    hide Num64, Add64, Sub64, Xor64;
    var s := Add64(a, b);
    XorTwice(Add64(Sub64(s, c), constant), chain);
    Add64Value(a, b);
    Sub64Value(s, c);
    Add64Value(Sub64(s, c), constant);
    SubMod(Num64(a) + Num64(b), Num64(c), TWO_64);
    AddMod(Num64(a) + Num64(b) - Num64(c), Num64(constant), TWO_64);
  }

  lemma XorTwice(x: bv64, y: bv64)
    ensures Xor64(Xor64(x, y), y) == x
  {
  }

  lemma AddMod(n: int, k: int, w: nat)
    requires w > 0
    ensures (n % w + k) % w == (n + k) % w
  {
    SameMod(n % w + k, n + k, n / w, w);
  }

  lemma SubMod(n: int, k: int, w: nat)
    requires w > 0
    ensures (n % w - k) % w == (n - k) % w
  {
    SameMod(n % w - k, n - k, n / w, w);
  }

  lemma SameMod(x: int, y: int, q: int, w: nat)
    requires w > 0 && y == w * q + x
    ensures x % w == y % w
  {
    var d := y / w - x / w - q;
    assert w * d == x % w - y % w by {
      assert x == w * (x / w) + x % w && y == w * (y / w) + y % w;
      assert w * d == w * (y / w) - w * (x / w) - w * q;
    }
    MulBound(w, d);
  }

  /** A term of a sum that has signs. */
  function Signed(a: bv64, plus: bool, b: bv64): bv64 { if plus then Add64(a, b) else Sub64(a, b) }

  function Term(plus: bool, b: bv64): int { var n: int := Num64(b); if plus then n else -n }

  lemma SignedValue(a: bv64, plus: bool, b: bv64, n: int)
    requires Num64(a) == n % TWO_64
    ensures Num64(Signed(a, plus, b)) == (n + Term(plus, b)) % TWO_64
  {
    hide Num64, Add64, Sub64;
    Add64Value(a, b);
    Sub64Value(a, b);
    AddMod(n, Num64(b), TWO_64);
    SubMod(n, Num64(b), TWO_64);
  }
}

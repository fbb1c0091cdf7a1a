/** Share difficulty and the 256-bit target: the comparison of words and the
    conversions, over real difficulties. */
module Target {
  import B = Bytes

  const WORD: nat := 0x1_0000_0000

  type Words = t: seq<nat> | |t| == 8 && forall i :: 0 <= i < 8 ==> t[i] < WORD witness [0, 0, 0, 0, 0, 0, 0, 0]

  function Pow32(k: nat): (p: nat)
    ensures p > 0
  {
    if k == 0 then 1 else WORD * Pow32(k - 1)
  }

  /** The number whose words, from word i up, are those of t, least significant first. */
  function ValueFrom(t: Words, i: nat): nat
    requires i <= 8
    decreases 8 - i
  {
    if i == 8 then 0 else t[i] + WORD * ValueFrom(t, i + 1)
  }

  function Value(t: Words): nat { ValueFrom(t, 0) }

  // The comparison.

  /** The higher words decide. */
  lemma {:induction false} HigherWordsDecide(a: Words, b: Words, i: nat)
    requires i <= 8 && ValueFrom(a, i) < ValueFrom(b, i)
    ensures Value(a) < Value(b)
    decreases i
  {
    if i > 0 {
      HigherWordsDecide(a, b, i - 1);
    }
  }

  method FullTest(hash: Words, target: Words) returns (rc: bool)
    ensures rc <==> Value(hash) <= Value(target)
  {
    rc := true;
    var i := 7;
    while i >= 0
      invariant -1 <= i <= 7 && rc && ValueFrom(hash, i + 1) == ValueFrom(target, i + 1)
    {
      if hash[i] > target[i] {
        HigherWordsDecide(target, hash, i);
        return false;
      }
      if hash[i] < target[i] {
        HigherWordsDecide(hash, target, i);
        return true;
      }
      i := i - 1;
    }
  }

  // From difficulty to target.

  const RANGE: real := 4294967296.0
  const NUMERATOR: real := 4294901760.0

  /** The loop: the difficulty brought down to at most one, or k to zero. */
  function Scaled(d: real, k: nat): (s: (real, nat))
    requires d > 0.0
    ensures s.0 > 0.0 && s.1 <= k
    decreases k
  {
    if k > 0 && d > 1.0 then Scaled(d / RANGE, k - 1) else (d, k)
  }

  function Mantissa(d: real): (m: nat)
    requires d > 0.0
  {
    (NUMERATOR / d).Floor
  }

  /** The target of a difficulty, as a number. */
  function TargetOf(d: real): nat
    requires d > 0.0
  {
    var (s, k) := Scaled(d, 6);
    Mantissa(s) * Pow32(k)
  }

  lemma DivAntitone(a: real, x: real, y: real)
    requires a >= 0.0 && 0.0 < x <= y
    ensures a / y <= a / x
  {
    DivMul(a, x);
    DivMul(a, y);
    if a / y > a / x {
      MulMono(a / x, a / y, x);
      MulMono(x, y, a / y);
      assert a / x * x == a && a / y * y == a;
      assert a / y * x > a by {
        MulStrict(a / x, a / y, x);
      }
    }
  }

  lemma DivMul(a: real, x: real)
    requires x > 0.0
    ensures a / x * x == a && (a >= 0.0 ==> a / x >= 0.0)
  {
  }

  lemma MulMono(a: real, b: real, c: real)
    requires a <= b && c >= 0.0
    ensures a * c <= b * c && c * a <= c * b
  {
  }

  lemma MulStrict(a: real, b: real, c: real)
    requires a < b && c > 0.0
    ensures a * c < b * c
  {
  }

  lemma MantissaAntitone(x: real, y: real)
    requires 0.0 < x <= y
    ensures Mantissa(y) <= Mantissa(x)
  {
    DivAntitone(NUMERATOR, x, y);
  }

  /** The 64-bit conversion does not overflow exactly above this difficulty. */
  const LEAST: real := NUMERATOR / (RANGE * RANGE)

  lemma MantissaFits(d: real)
    requires d > 0.0
    ensures Mantissa(d) < WORD * WORD <==> d > LEAST
  {
    DivMul(NUMERATOR, d);
    if d > LEAST {
      MulStrict(LEAST, d, RANGE * RANGE);
      if NUMERATOR / d >= RANGE * RANGE {
        MulMono(RANGE * RANGE, NUMERATOR / d, d);
      }
    } else {
      DivAntitone(NUMERATOR, d, LEAST);
    }
  }

  /** Scaling never leaves the range in which the conversion is defined. */
  lemma {:induction false} ScaledFits(d: real, k: nat)
    requires d > LEAST
    ensures Scaled(d, k).0 > LEAST
    decreases k
  {
    if k > 0 && d > 1.0 {
      ScaledFits(d / RANGE, k - 1);
    }
  }

  lemma LeastBelow()
    ensures LEAST < 1.0 / RANGE
  {
  }

  /** The two words that are set. */
  function TargetWords(d: real): Words
    requires d > LEAST
  {
    ScaledFits(d, 6);
    var (s, k) := Scaled(d, 6);
    MantissaFits(s);
    var m := Mantissa(s);
    seq(8, i requires 0 <= i < 8 => if i == k then m % WORD else if i == k + 1 then m / WORD else 0)
  }

  lemma WordsAreTarget(d: real)
    requires d > LEAST
    ensures Value(TargetWords(d)) == TargetOf(d)
  {
    ScaledFits(d, 6);
    var (s, k) := Scaled(d, 6);
    MantissaFits(s);
    ScaledShape(d, 6);
    if k == 6 {
      NoZeroMantissa(s);
    }
    TwoWords(TargetWords(d), k, Mantissa(s));
  }

  method DiffToTarget(target: array<nat>, diff: real)
    requires target.Length == 8 && diff > LEAST
    modifies target
    ensures target[..] == TargetWords(diff)
  {
    var d, k := diff, 6;
    while k > 0 && d > 1.0
      invariant d > LEAST && 0 <= k <= 6 && Scaled(d, k) == Scaled(diff, 6)
      decreases k
    {
      d, k := d / RANGE, k - 1;
    }
    MantissaFits(d);
    var m := Mantissa(d);
    if m == 0 && k == 6 {
      NoZeroMantissa(d);
      assert false;
    } else {
      forall i | 0 <= i < 8 {
        target[i] := 0;
      }
      target[k] := m % WORD;
      target[k + 1] := m / WORD;
    }
  }

  /** With difficulties up to one the mantissa is large: the all-ones target is never used. */
  lemma NoZeroMantissa(d: real)
    requires 0.0 < d <= 1.0
    ensures Mantissa(d) >= 4294901760
  {
    DivAntitone(NUMERATOR, d, 1.0);
  }

  lemma TwoWords(t: Words, k: nat, m: nat)
    requires k < 7 && t[k] == m % WORD && t[k + 1] == m / WORD
    requires forall i :: 0 <= i < 8 && i != k && i != k + 1 ==> t[i] == 0
    ensures Value(t) == m * Pow32(k)
  {
    ZeroAbove(t, k + 2);
    assert ValueFrom(t, k) == m;
    ZeroBelow(t, k, k);
  }

  lemma {:induction false} ZeroAbove(t: Words, i: nat)
    requires i <= 8 && forall j :: i <= j < 8 ==> t[j] == 0
    ensures ValueFrom(t, i) == 0
    decreases 8 - i
  {
    if i < 8 {
      ZeroAbove(t, i + 1);
    }
  }

  lemma {:induction false} ZeroBelow(t: Words, k: nat, i: nat)
    requires i <= k < 8 && forall j :: 0 <= j < k ==> t[j] == 0
    ensures ValueFrom(t, k - i) == ValueFrom(t, k) * Pow32(i)
  {
    if i > 0 {
      ZeroBelow(t, k, i - 1);
      MoveFactor(ValueFrom(t, k), Pow32(i - 1));
    }
  }

  lemma MoveFactor(v: nat, p: nat)
    ensures WORD * (v * p) == v * (WORD * p)
  {
  }

  // What the target means.

  lemma {:induction false} ScaledShape(d: real, k: nat)
    requires d > 0.0
    ensures var (s, j) := Scaled(d, k);
      (j == 0 || s <= 1.0) && (j < k ==> s > 1.0 / RANGE) && (j == k ==> s == d) && s * Pow32(k - j) as real == d
    decreases k
  {
    if k > 0 && d > 1.0 {
      ScaledShape(d / RANGE, k - 1);
      var (s, j) := Scaled(d, k);
      PowReal(k - 1 - j);
      var p := Pow32(k - 1 - j) as real;
      assert s * (RANGE * p) == s * p * RANGE;
      if j == k - 1 {
        assert d / RANGE > 1.0 / RANGE;
      }
    }
  }

  lemma PowReal(k: nat)
    ensures Pow32(k + 1) as real == RANGE * Pow32(k) as real
  {
  }

  lemma {:induction false} PowSplit(a: nat, b: nat)
    requires b <= a
    ensures Pow32(a) == Pow32(a - b) * Pow32(b)
  {
    if b > 0 {
      PowSplit(a - 1, b - 1);
      var x, y := Pow32(a - b), Pow32(b - 1);
      assert WORD * (x * y) == x * (WORD * y);
    }
  }

  /** The target is 0xFFFF * 2^208 / d, rounded down to a multiple of the unit 2^(32k). */
  lemma TargetIsQuotient(d: real)
    requires d > 0.0
    ensures var unit := Pow32(Scaled(d, 6).1) as real;
      TargetOf(d) as real * d <= NUMERATOR * Pow32(6) as real < (TargetOf(d) as real + unit) * d
  {
    hide Scaled, Mantissa, Pow32;
    var (s, k) := Scaled(d, 6);
    ScaledShape(d, 6);
    PowSplit(6, 6 - k);
    UnitsAround(TargetOf(d), Pow32(6), Mantissa(s), s, d, Pow32(k), Pow32(6 - k));
  }

  lemma UnitsAround(target: nat, whole: nat, m: nat, s: real, d: real, p: nat, q: nat)
    requires p > 0 && q > 0 && s > 0.0 && m == Mantissa(s) && s * q as real == d
    requires target == m * p && whole == p * q
    ensures target as real * d <= NUMERATOR * whole as real < (target as real + p as real) * d
  {
    hide Mantissa;
    MantissaBounds(s);
    RealProduct(p, q);
    RealProduct(m, p);
    QuotientUnits(m as real, s, p as real, q as real, NUMERATOR);
  }

  lemma RealProduct(a: nat, b: nat)
    ensures (a * b) as real == a as real * b as real
  {
  }

  lemma MantissaBounds(s: real)
    requires s > 0.0
    ensures Mantissa(s) as real * s <= NUMERATOR < (Mantissa(s) as real + 1.0) * s
  {
    var m, q := Mantissa(s), NUMERATOR / s;
    DivMul(NUMERATOR, s);
    MulMono(m as real, q, s);
    MulStrict(q, m as real + 1.0, s);
  }

  lemma QuotientUnits(m: real, s: real, p: real, q: real, n: real)
    requires p > 0.0 && q > 0.0 && m * s <= n < (m + 1.0) * s
    ensures (m * p) * (s * q) <= n * (p * q) < (m * p + p) * (s * q)
  {
    var u := p * q;
    MulMono(m * s, n, u);
    MulStrict(n, (m + 1.0) * s, u);
    assert (m * p) * (s * q) == (m * s) * u;
    assert (m * p + p) * (s * q) == ((m + 1.0) * s) * u;
  }

  lemma {:induction false} ScaledOrder(x: real, y: real, k: nat)
    requires 0.0 < x <= y
    ensures Scaled(y, k).1 <= Scaled(x, k).1
    ensures Scaled(y, k).1 == Scaled(x, k).1 ==> Scaled(x, k).0 <= Scaled(y, k).0
    decreases k
  {
    if k > 0 && x > 1.0 {
      ScaledOrder(x / RANGE, y / RANGE, k - 1);
    }
  }

  /** A greater difficulty has no greater target. */
  lemma TargetAntitone(d1: real, d2: real)
    requires 0.0 < d1 <= d2
    ensures TargetOf(d2) <= TargetOf(d1)
  {
    var (s1, k1) := Scaled(d1, 6);
    var (s2, k2) := Scaled(d2, 6);
    ScaledOrder(d1, d2, 6);
    ScaledShape(d1, 6);
    ScaledShape(d2, 6);
    if k1 == k2 {
      MantissaAntitone(s1, s2);
      NatMul(Mantissa(s2), Mantissa(s1), Pow32(k1));
    } else {
      NoZeroMantissa(s1);
      SmallMantissa(s2);
      PowSplit(k1, k1 - k2 - 1);
      CrossUnits(Mantissa(s1), Mantissa(s2), k1, k2);
    }
  }

  lemma SmallMantissa(s: real)
    requires s > 1.0 / RANGE
    ensures Mantissa(s) <= 4294901760 * WORD
  {
    DivAntitone(NUMERATOR, 1.0 / RANGE, s);
    assert NUMERATOR / (1.0 / RANGE) == NUMERATOR * RANGE;
  }

  lemma NatMul(a: nat, b: nat, c: nat)
    requires a <= b
    ensures a * c <= b * c
  {
  }

  lemma CrossUnits(m1: nat, m2: nat, k1: nat, k2: nat)
    requires k2 < k1 && m1 >= 4294901760 && m2 <= 4294901760 * WORD
    ensures m2 * Pow32(k2) <= m1 * Pow32(k1)
  {
    PowGrows(k2 + 1, k1);
    var p := Pow32(k2);
    NatMul(m2, 4294901760 * WORD, p);
    assert 4294901760 * WORD * p == 4294901760 * (WORD * p);
    NatMul(WORD * p, Pow32(k1), 4294901760);
    NatMul(4294901760, m1, Pow32(k1));
  }

  lemma {:induction false} PowGrows(a: nat, b: nat)
    requires a <= b
    ensures Pow32(a) <= Pow32(b)
  {
    if a < b {
      PowGrows(a, b - 1);
    }
  }

  /** A hash that passes the test at one difficulty passes it at every lower one. */
  method PassesBelow(hash: Words, d1: real, d2: real) returns (at1: bool, at2: bool)
    requires LEAST < d1 <= d2
    ensures at2 ==> at1
    ensures at1 <==> Value(hash) <= TargetOf(d1)
    ensures at2 <==> Value(hash) <= TargetOf(d2)
  {
    var t1, t2 := new nat[8], new nat[8];
    DiffToTarget(t1, d1);
    DiffToTarget(t2, d2);
    WordsAreTarget(d1);
    WordsAreTarget(d2);
    at1 := FullTest(hash, t1[..]);
    at2 := FullTest(hash, t2[..]);
    TargetAntitone(d1, d2);
  }

  // From target to difficulty.

  /** Byte i of the target in memory, words being little-endian. */
  function TargetByte(t: Words, i: nat): (b: nat)
    requires i < 32
    ensures b < 256
  {
    t[i / 4] / B.Pow256(i % 4) % 256
  }

  /** The 64 bits from byte 22 up. */
  function Window(t: Words): nat {
    TargetByte(t, 29) * 0x100_0000_0000_0000 + TargetByte(t, 28) * 0x1_0000_0000_0000 +
    TargetByte(t, 27) * 0x100_0000_0000 + TargetByte(t, 26) * 0x1_0000_0000 +
    TargetByte(t, 25) * 0x100_0000 + TargetByte(t, 24) * 0x1_0000 +
    TargetByte(t, 23) * 0x100 + TargetByte(t, 22)
  }

  function TargetToDiff(t: Words): real {
    var m := Window(t);
    if m == 0 then 0.0 else TOP / m as real
  }

  lemma BytesOfWord(t: Words, j: nat)
    requires j < 8
    ensures TargetByte(t, 4 * j) == t[j] % 256 && TargetByte(t, 4 * j + 1) == t[j] / 256 % 256
    ensures TargetByte(t, 4 * j + 2) == t[j] / 0x1_0000 % 256 && TargetByte(t, 4 * j + 3) == t[j] / 0x100_0000 % 256
  {
    assert B.Pow256(1) == 256 && B.Pow256(2) == 0x1_0000 && B.Pow256(3) == 0x100_0000;
  }

  /** The bytes are bits 176 to 239 of the target. */
  lemma WindowBits(t: Words)
    ensures Window(t) == t[5] / 0x1_0000 + t[6] * 0x1_0000 + t[7] % 0x1_0000 * 0x1_0000_0000_0000
  {
    hide TargetByte;
    BytesOfWord(t, 5);
    BytesOfWord(t, 6);
    BytesOfWord(t, 7);
    UpperBytes(t[5]);
    WordBytes(t[6]);
    LowerBytes(t[7]);
  }

  lemma UpperBytes(w: nat)
    requires w < WORD
    ensures w / 0x1_0000 == w / 0x1_0000 % 256 + w / 0x100_0000 % 256 * 256
  {
    assert w / 0x100_0000 == w / 0x1_0000 / 256;
  }

  lemma LowerBytes(w: nat)
    ensures w % 0x1_0000 == w % 256 + w / 256 % 256 * 256
  {
    B.SplitMod(w, 256);
  }

  lemma WordBytes(w: nat)
    requires w < WORD
    ensures w == w % 256 + w / 256 % 256 * 256 + w / 0x1_0000 % 256 * 0x1_0000 + w / 0x100_0000 % 256 * 0x100_0000
  {
    assert w / 0x1_0000 == w / 256 / 256 && w / 0x100_0000 == w / 0x1_0000 / 256;
  }

  /** The words of a target between difficulties 1 and 2^32 come back without the low 16 bits. */
  lemma WindowOfTarget(d: real)
    requires 1.0 < d <= RANGE
    ensures Window(TargetWords(d)) == Mantissa(d / RANGE) / 0x1_0000
  {
    hide Window, Mantissa;
    var t := TargetWords(d);
    assert Scaled(d, 6) == Scaled(d / RANGE, 5) == (d / RANGE, 5);
    WindowBits(t);
    Shifted(Mantissa(d / RANGE));
  }

  lemma Shifted(m: nat)
    ensures m % WORD / 0x1_0000 + m / WORD * 0x1_0000 == m / 0x1_0000
  {
  }

  /** Back from the target, the difficulty is not below the one it came from, and
      above it by at most one part in 65535. */
  lemma RoundTrip(d: real)
    requires 1.0 < d <= RANGE
    ensures d <= TargetToDiff(TargetWords(d)) <= d + d / 65535.0 <= d * (1.0 + 1.0 / 32768.0)
  {
    hide TargetWords, Window, Mantissa;
    WindowOfTarget(d);
    var m := Mantissa(d / RANGE);
    MantissaBounds(d / RANGE);
    WideBounds(m as real, d);
    Quotient(m, m / 0x1_0000, d);
    Closeness((m / 0x1_0000) as real, d);
  }

  lemma WideBounds(m: real, d: real)
    requires m * (d / RANGE) <= NUMERATOR < (m + 1.0) * (d / RANGE)
    ensures m * d <= NUMERATOR * RANGE < (m + 1.0) * d
  {
    assert m * (d / RANGE) * RANGE == m * d && (m + 1.0) * (d / RANGE) * RANGE == (m + 1.0) * d;
  }

  const TOP: real := 281470681743360.0

  lemma Quotient(m: nat, q: nat, d: real)
    requires d > 0.0 && q == m / 0x1_0000 && m as real * d <= NUMERATOR * RANGE < (m as real + 1.0) * d
    ensures q as real * d <= TOP < (q as real + 1.0) * d
  {
    assert 65536.0 * q as real <= m as real && m as real + 1.0 <= 65536.0 * (q as real + 1.0);
    MulMono(65536.0 * q as real, m as real, d);
    MulMono(m as real + 1.0, 65536.0 * (q as real + 1.0), d);
    assert 65536.0 * q as real * d == 65536.0 * (q as real * d);
    assert 65536.0 * (q as real + 1.0) * d == 65536.0 * ((q as real + 1.0) * d);
  }

  lemma Closeness(q: real, d: real)
    requires 1.0 < d <= RANGE && q * d <= TOP < (q + 1.0) * d && q == q.Floor as real
    ensures q >= 65535.0 && d <= TOP / q <= d + d / 65535.0
  {
    if q < 65535.0 {
      assert q + 1.0 <= 65535.0;
      MulMono(q + 1.0, 65535.0, d);
      assert false;
    }
    var back := TOP / q;
    DivMul(TOP, q);
    if back < d {
      MulStrict(back, d, q);
    }
    if back > d + d / 65535.0 {
      MulStrict(d + d / 65535.0, back, q);
      MulMono(65535.0, q, d / 65535.0);
    }
  }
}

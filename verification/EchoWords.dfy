/** ECHO's arithmetic on packed words: multiplication by two in GF(2^8) on four
    or eight bytes at once, and the mix of a column built from it. */
module EchoWords {
  import opened Bytes
  import opened Words

  // GF(2^8), sections 4.2 and 4.2.1 of FIPS 197.

  function XTimes(b: Byte): Byte { (b << 1) ^ (if b & 0x80 != 0 then 0x1B else 0) }

  /** The product of {01}, {02} or {03} with b, the only ones MixColumns needs. */
  function Times(k: nat, b: Byte): Byte
    requires 1 <= k <= 3
  {
    if k == 1 then b else if k == 2 then XTimes(b) else Xor8(XTimes(b), b)
  }

  datatype Column<W> = Column(a: W, b: W, c: W, d: W)

  /** One row of the MixColumns matrix of section 5.1.3 of FIPS 197. */
  function MixRow(ka: nat, kb: nat, kc: nat, kd: nat, x: Column<Byte>): Byte
    requires 1 <= ka <= 3 && 1 <= kb <= 3 && 1 <= kc <= 3 && 1 <= kd <= 3
  {
    Xor8(Xor8(Times(ka, x.a), Times(kb, x.b)), Xor8(Times(kc, x.c), Times(kd, x.d)))
  }

  function MixColumn8(x: Column<Byte>): Column<Byte> {
    Column(MixRow(2, 3, 1, 1, x), MixRow(1, 2, 3, 1, x), MixRow(1, 1, 2, 3, x), MixRow(3, 1, 1, 2, x))
  }

  // The packed forms.

  function High64(x: bv64): bv64 { (x & 0x8080808080808080) >> 7 }

  function Low64(x: bv64): bv64 { (x & 0x7F7F7F7F7F7F7F7F) << 1 }

  function By27_64(x: bv64): bv64 { x * 27 }

  function Double64(x: bv64): bv64 { Xor64(By27_64(High64(x)), Low64(x)) }

  function High32(x: bv32): bv32 { (x & 0x80808080) >> 7 }

  function Low32(x: bv32): bv32 { (x & 0x7F7F7F7F) << 1 }

  function By27_32(x: bv32): bv32 { x * 27 }

  function Double32(x: bv32): bv32 { Xor32(By27_32(High32(x)), Low32(x)) }

  /** MIX_COLUMN1 of the 64-bit form. */
  function MixColumn64(x: Column<bv64>): Column<bv64> {
    var ab, bc, cd := Xor64(x.a, x.b), Xor64(x.b, x.c), Xor64(x.c, x.d);
    var abx, bcx, cdx := Double64(ab), Double64(bc), Double64(cd);
    Column(Xor64(Xor64(abx, bc), x.d),
           Xor64(Xor64(bcx, x.a), cd),
           Xor64(Xor64(cdx, ab), x.d),
           Xor64(Xor64(Xor64(Xor64(abx, bcx), cdx), ab), x.c))
  }

  /** MIX_COLUMN1 of the 32-bit form. */
  function MixColumn32(x: Column<bv32>): Column<bv32> {
    var ab, bc, cd := Xor32(x.a, x.b), Xor32(x.b, x.c), Xor32(x.c, x.d);
    var abx, bcx, cdx := Double32(ab), Double32(bc), Double32(cd);
    Column(Xor32(Xor32(abx, bc), x.d),
           Xor32(Xor32(bcx, x.a), cd),
           Xor32(Xor32(cdx, ab), x.d),
           Xor32(Xor32(Xor32(Xor32(abx, bcx), cdx), ab), x.c))
  }

  // A 64-bit word holds two 32-bit ones.

  predicate Holds(x: bv64, lo: bv32, hi: bv32) { x == (lo as bv64) | ((hi as bv64) << 32) }

  lemma HighHolds(x: bv64, lo: bv32, hi: bv32)
    requires Holds(x, lo, hi)
    ensures Holds(High64(x), High32(lo), High32(hi))
  {
  }

  lemma LowHolds(x: bv64, lo: bv32, hi: bv32)
    requires Holds(x, lo, hi)
    ensures Holds(Low64(x), Low32(lo), Low32(hi))
  {
    LowBits(x, lo, hi);
  }

  lemma LowBits(x: bv64, lo: bv32, hi: bv32)
    requires x == (lo as bv64) | ((hi as bv64) << 32)
    ensures (x & 0x7F7F7F7F7F7F7F7F) << 1
         == (((lo & 0x7F7F7F7F) << 1) as bv64) | ((((hi & 0x7F7F7F7F) << 1) as bv64) << 32)
  {
  }

  lemma XorHolds(x: bv64, lo: bv32, hi: bv32, y: bv64, lo': bv32, hi': bv32)
    requires Holds(x, lo, hi) && Holds(y, lo', hi')
    ensures Holds(Xor64(x, y), Xor32(lo, lo'), Xor32(hi, hi'))
  {
  }

  // Multiplying isolated bits by 27 is shifting them: nothing carries.

  lemma By27Shifts64(x: bv64)
    requires x & 0x0101010101010101 == x
    ensures x * 27 == x ^ (x << 1) ^ (x << 3) ^ (x << 4)
  {
  }

  lemma By27Shifts32(x: bv32)
    requires x & 0x01010101 == x
    ensures x * 27 == x ^ (x << 1) ^ (x << 3) ^ (x << 4)
  {
  }

  lemma ShiftsHold(x: bv64, lo: bv32, hi: bv32, y: bv64, lo': bv32, hi': bv32)
    requires x == (lo as bv64) | ((hi as bv64) << 32)
    requires lo & 0x01010101 == lo && hi & 0x01010101 == hi
    requires y == x ^ (x << 1) ^ (x << 3) ^ (x << 4)
    requires lo' == lo ^ (lo << 1) ^ (lo << 3) ^ (lo << 4)
    requires hi' == hi ^ (hi << 1) ^ (hi << 3) ^ (hi << 4)
    ensures y == (lo' as bv64) | ((hi' as bv64) << 32)
    ensures x & 0x0101010101010101 == x
  {
  }

  lemma By27Holds(x: bv64, lo: bv32, hi: bv32)
    requires Holds(x, lo, hi)
    requires lo & 0x01010101 == lo && hi & 0x01010101 == hi
    ensures Holds(By27_64(x), By27_32(lo), By27_32(hi))
  {
    ShiftsHold(x, lo, hi, x ^ (x << 1) ^ (x << 3) ^ (x << 4),
               lo ^ (lo << 1) ^ (lo << 3) ^ (lo << 4), hi ^ (hi << 1) ^ (hi << 3) ^ (hi << 4));
    By27Shifts64(x);
    By27Shifts32(lo);
    By27Shifts32(hi);
  }

  lemma HighIsolated(x: bv32)
    ensures High32(x) & 0x01010101 == High32(x)
  {
  }

  lemma DoubleHolds(x: bv64, lo: bv32, hi: bv32)
    requires Holds(x, lo, hi)
    ensures Holds(Double64(x), Double32(lo), Double32(hi))
  {
    hide Xor64, Xor32, By27_64, By27_32;
    HighHolds(x, lo, hi);
    LowHolds(x, lo, hi);
    HighIsolated(lo);
    HighIsolated(hi);
    By27Holds(High64(x), High32(lo), High32(hi));
    XorHolds(By27_64(High64(x)), By27_32(High32(lo)), By27_32(High32(hi)), Low64(x), Low32(lo), Low32(hi));
  }

  predicate ColumnHolds(x: Column<bv64>, lo: Column<bv32>, hi: Column<bv32>) {
    Holds(x.a, lo.a, hi.a) && Holds(x.b, lo.b, hi.b) && Holds(x.c, lo.c, hi.c) && Holds(x.d, lo.d, hi.d)
  }

  lemma MixColumnHolds(x: Column<bv64>, l: Column<bv32>, h: Column<bv32>)
    requires ColumnHolds(x, l, h)
    ensures ColumnHolds(MixColumn64(x), MixColumn32(l), MixColumn32(h))
  {
    hide Holds, Xor64, Xor32, Double64, Double32;
    var ab, bc, cd := Xor64(x.a, x.b), Xor64(x.b, x.c), Xor64(x.c, x.d);
    var abl, bcl, cdl := Xor32(l.a, l.b), Xor32(l.b, l.c), Xor32(l.c, l.d);
    var abh, bch, cdh := Xor32(h.a, h.b), Xor32(h.b, h.c), Xor32(h.c, h.d);
    XorHolds(x.a, l.a, h.a, x.b, l.b, h.b);
    XorHolds(x.b, l.b, h.b, x.c, l.c, h.c);
    XorHolds(x.c, l.c, h.c, x.d, l.d, h.d);
    DoubleHolds(ab, abl, abh);
    DoubleHolds(bc, bcl, bch);
    DoubleHolds(cd, cdl, cdh);
    var abx, abxl, abxh := Double64(ab), Double32(abl), Double32(abh);
    var bcx, bcxl, bcxh := Double64(bc), Double32(bcl), Double32(bch);
    var cdx, cdxl, cdxh := Double64(cd), Double32(cdl), Double32(cdh);
    XorHolds(abx, abxl, abxh, bc, bcl, bch);
    XorHolds(Xor64(abx, bc), Xor32(abxl, bcl), Xor32(abxh, bch), x.d, l.d, h.d);
    XorHolds(bcx, bcxl, bcxh, x.a, l.a, h.a);
    XorHolds(Xor64(bcx, x.a), Xor32(bcxl, l.a), Xor32(bcxh, h.a), cd, cdl, cdh);
    XorHolds(cdx, cdxl, cdxh, ab, abl, abh);
    XorHolds(Xor64(cdx, ab), Xor32(cdxl, abl), Xor32(cdxh, abh), x.d, l.d, h.d);
    var p, pl, ph := Xor64(abx, bcx), Xor32(abxl, bcxl), Xor32(abxh, bcxh);
    XorHolds(abx, abxl, abxh, bcx, bcxl, bcxh);
    XorHolds(p, pl, ph, cdx, cdxl, cdxh);
    XorHolds(Xor64(p, cdx), Xor32(pl, cdxl), Xor32(ph, cdxh), ab, abl, abh);
    XorHolds(Xor64(Xor64(p, cdx), ab), Xor32(Xor32(pl, cdxl), abl), Xor32(Xor32(ph, cdxh), abh), x.c, l.c, h.c);
  }

  // Byte lanes.

  function Lane(x: bv32, j: nat): Byte
    requires j < 4
  {
    if j == 0 then (x & 0xFF) as Byte
    else if j == 1 then ((x >> 8) & 0xFF) as Byte
    else if j == 2 then ((x >> 16) & 0xFF) as Byte
    else (x >> 24) as Byte
  }

  /** The lanes are the bytes of the word, the least significant first. */
  lemma LaneIsByte(x: bv32, j: nat)
    requires j < 4
    ensures Lane(x, j) == Enc32Le(x)[j]
  {
    if j == 0 {
    } else if j == 1 {
    } else if j == 2 {
    } else {
      assert j == 3;
    }
  }

  lemma LaneXor(x: bv32, y: bv32, j: nat)
    requires j < 4
    ensures Lane(Xor32(x, y), j) == Xor8(Lane(x, j), Lane(y, j))
  {
    if j == 0 {
    } else if j == 1 {
    } else if j == 2 {
    } else {
    }
  }

  lemma XTimesXor(x: Byte, y: Byte)
    ensures XTimes(Xor8(x, y)) == Xor8(XTimes(x), XTimes(y))
  {
    ShiftXor(x, y);
    TopXor(x, y);
    var a, b := x << 1, y << 1;
    Xor8Laws(a, b, 0x1B);
  }

  lemma ShiftXor(x: Byte, y: Byte)
    ensures (x ^ y) << 1 == (x << 1) ^ (y << 1)
  {
  }

  lemma TopXor(x: Byte, y: Byte)
    ensures ((x ^ y) & 0x80 != 0) == ((x & 0x80 != 0) != (y & 0x80 != 0))
  {
  }

  lemma Xor8Laws(a: Byte, b: Byte, c: Byte)
    ensures (a ^ c) ^ (b ^ c) == a ^ b && (a ^ c) ^ b == (a ^ b) ^ c && a ^ (b ^ c) == (a ^ b) ^ c
  {
  }

  // Doubling, lane by lane. The product by 27 is written as shifts here.

  lemma DoubleLane0(x: bv32, y: bv32)
    requires y == (x & 0x80808080) >> 7
    ensures var b := (x & 0xFF) as Byte;
      (((y ^ (y << 1) ^ (y << 3) ^ (y << 4)) ^ ((x & 0x7F7F7F7F) << 1)) & 0xFF) as Byte
      == (b << 1) ^ (if b & 0x80 != 0 then 0x1B else 0)
  {
  }

  lemma DoubleLane1(x: bv32, y: bv32)
    requires y == (x & 0x80808080) >> 7
    ensures var b := ((x >> 8) & 0xFF) as Byte;
      ((((y ^ (y << 1) ^ (y << 3) ^ (y << 4)) ^ ((x & 0x7F7F7F7F) << 1)) >> 8) & 0xFF) as Byte
      == (b << 1) ^ (if b & 0x80 != 0 then 0x1B else 0)
  {
  }

  lemma DoubleLane2(x: bv32, y: bv32)
    requires y == (x & 0x80808080) >> 7
    ensures var b := ((x >> 16) & 0xFF) as Byte;
      ((((y ^ (y << 1) ^ (y << 3) ^ (y << 4)) ^ ((x & 0x7F7F7F7F) << 1)) >> 16) & 0xFF) as Byte
      == (b << 1) ^ (if b & 0x80 != 0 then 0x1B else 0)
  {
  }

  lemma DoubleLane3(x: bv32, y: bv32)
    requires y == (x & 0x80808080) >> 7
    ensures var b := (x >> 24) as Byte;
      (((y ^ (y << 1) ^ (y << 3) ^ (y << 4)) ^ ((x & 0x7F7F7F7F) << 1)) >> 24) as Byte
      == (b << 1) ^ (if b & 0x80 != 0 then 0x1B else 0)
  {
  }

  lemma LaneDouble(x: bv32, j: nat)
    requires j < 4
    ensures Lane(Double32(x), j) == XTimes(Lane(x, j))
  {
    var y := High32(x);
    HighIsolated(x);
    By27Shifts32(y);
    if j == 0 {
      DoubleLane0(x, y);
    } else if j == 1 {
      DoubleLane1(x, y);
    } else if j == 2 {
      DoubleLane2(x, y);
    } else {
      DoubleLane3(x, y);
    }
  }

  function Lanes(x: Column<bv32>, j: nat): Column<Byte>
    requires j < 4
  {
    Column(Lane(x.a, j), Lane(x.b, j), Lane(x.c, j), Lane(x.d, j))
  }

  // What the code's grouping leaves of the doubled bytes pa .. pd, entry by entry.

  lemma XorCommutes(a: Byte, b: Byte)
    ensures Xor8(a, b) == Xor8(b, a)
  {
  }

  lemma XorAssociates(a: Byte, b: Byte, c: Byte)
    ensures Xor8(Xor8(a, b), c) == Xor8(a, Xor8(b, c))
  {
  }

  lemma Telescope(p: Byte, q: Byte, r: Byte)
    ensures Xor8(Xor8(p, q), Xor8(q, r)) == Xor8(p, r)
  {
  }

  lemma EndsMeet(a: Byte, b: Byte, c: Byte, pa: Byte, pd: Byte)
    ensures Xor8(Xor8(Xor8(pa, pd), Xor8(a, b)), c) == Xor8(Xor8(Xor8(pa, a), b), Xor8(c, pd))
  {
    hide Xor8;
    var ab, x := Xor8(a, b), Xor8(Xor8(pa, a), b);
    XorAssociates(pa, pd, ab);
    XorCommutes(pd, ab);
    XorAssociates(pa, ab, pd);
    XorAssociates(pa, a, b);
    XorAssociates(x, pd, c);
    XorCommutes(pd, c);
  }

  lemma MixA(b: Byte, c: Byte, d: Byte, pa: Byte, pb: Byte)
    ensures Xor8(Xor8(Xor8(pa, pb), Xor8(b, c)), d) == Xor8(Xor8(pa, Xor8(pb, b)), Xor8(c, d))
  {
    hide Xor8;
    var p := Xor8(pa, pb);
    XorAssociates(p, b, c);
    XorAssociates(pa, pb, b);
    XorAssociates(Xor8(p, b), c, d);
  }

  lemma MixB(a: Byte, c: Byte, d: Byte, pb: Byte, pc: Byte)
    ensures Xor8(Xor8(Xor8(pb, pc), a), Xor8(c, d)) == Xor8(Xor8(a, pb), Xor8(Xor8(pc, c), d))
  {
    hide Xor8;
    XorCommutes(Xor8(pb, pc), a);
    XorAssociates(a, pb, pc);
    XorAssociates(Xor8(a, pb), pc, Xor8(c, d));
    XorAssociates(pc, c, d);
  }

  lemma MixC(a: Byte, b: Byte, d: Byte, pc: Byte, pd: Byte)
    ensures Xor8(Xor8(Xor8(pc, pd), Xor8(a, b)), d) == Xor8(Xor8(a, b), Xor8(pc, Xor8(pd, d)))
  {
    hide Xor8;
    XorCommutes(Xor8(pc, pd), Xor8(a, b));
    XorAssociates(Xor8(a, b), Xor8(pc, pd), d);
    XorAssociates(pc, pd, d);
  }

  lemma MixD(a: Byte, b: Byte, c: Byte, pa: Byte, pb: Byte, pc: Byte, pd: Byte)
    ensures Xor8(Xor8(Xor8(Xor8(Xor8(pa, pb), Xor8(pb, pc)), Xor8(pc, pd)), Xor8(a, b)), c)
         == Xor8(Xor8(Xor8(pa, a), b), Xor8(c, pd))
  {
    hide Xor8;
    Telescope(pa, pb, pc);
    Telescope(pa, pc, pd);
    EndsMeet(a, b, c, pa, pd);
  }

  /** The code's column mix, on bytes. */
  function MixGrouped(x: Column<Byte>): Column<Byte> {
    var ab, bc, cd := Xor8(x.a, x.b), Xor8(x.b, x.c), Xor8(x.c, x.d);
    var abx, bcx, cdx := XTimes(ab), XTimes(bc), XTimes(cd);
    Column(Xor8(Xor8(abx, bc), x.d), Xor8(Xor8(bcx, x.a), cd), Xor8(Xor8(cdx, ab), x.d),
           Xor8(Xor8(Xor8(Xor8(abx, bcx), cdx), ab), x.c))
  }

  lemma GroupedIsMixColumn(x: Column<Byte>)
    ensures MixGrouped(x) == MixColumn8(x)
  {
    hide XTimes, Xor8;
    var pa, pb, pc, pd := XTimes(x.a), XTimes(x.b), XTimes(x.c), XTimes(x.d);
    XTimesXor(x.a, x.b);
    XTimesXor(x.b, x.c);
    XTimesXor(x.c, x.d);
    MixA(x.b, x.c, x.d, pa, pb);
    MixB(x.a, x.c, x.d, pb, pc);
    MixC(x.a, x.b, x.d, pc, pd);
    MixD(x.a, x.b, x.c, pa, pb, pc, pd);
  }

  /** Every byte lane of the packed column mix is a MixColumns column. */
  lemma MixColumnLanes(x: Column<bv32>, j: nat)
    requires j < 4
    ensures Lanes(MixColumn32(x), j) == MixColumn8(Lanes(x, j))
  {
    hide Lane, Xor32, Xor8, XTimes, Double32, MixColumn8;
    GroupedIsMixColumn(Lanes(x, j));
    var ab, bc, cd := Xor32(x.a, x.b), Xor32(x.b, x.c), Xor32(x.c, x.d);
    var abx, bcx, cdx := Double32(ab), Double32(bc), Double32(cd);
    LaneXor(x.a, x.b, j);
    LaneXor(x.b, x.c, j);
    LaneXor(x.c, x.d, j);
    LaneDouble(ab, j);
    LaneDouble(bc, j);
    LaneDouble(cd, j);
    LaneXor(abx, bc, j);
    LaneXor(Xor32(abx, bc), x.d, j);
    LaneXor(bcx, x.a, j);
    LaneXor(Xor32(bcx, x.a), cd, j);
    LaneXor(cdx, ab, j);
    LaneXor(Xor32(cdx, ab), x.d, j);
    LaneXor(abx, bcx, j);
    LaneXor(Xor32(abx, bcx), cdx, j);
    LaneXor(Xor32(Xor32(abx, bcx), cdx), ab, j);
    LaneXor(Xor32(Xor32(Xor32(abx, bcx), cdx), ab), x.c, j);
  }

  // The eight lanes of a 64-bit word are those of its two halves.

  function Low(x: bv64): bv32 { (x & 0xFFFF_FFFF) as bv32 }

  function Upper(x: bv64): bv32 { (x >> 32) as bv32 }

  lemma HalvesHold(x: bv64)
    ensures Holds(x, Low(x), Upper(x))
  {
  }

  lemma HalvesUnique(x: bv64, lo: bv32, hi: bv32)
    requires Holds(x, lo, hi)
    ensures Low(x) == lo && Upper(x) == hi
  {
  }

  function Lane64(x: bv64, j: nat): Byte
    requires j < 8
  {
    if j < 4 then Lane(Low(x), j) else Lane(Upper(x), j - 4)
  }

  function Lanes64(x: Column<bv64>, j: nat): Column<Byte>
    requires j < 8
  {
    Column(Lane64(x.a, j), Lane64(x.b, j), Lane64(x.c, j), Lane64(x.d, j))
  }

  lemma MixColumnLanes64(x: Column<bv64>, j: nat)
    requires j < 8
    ensures Lanes64(MixColumn64(x), j) == MixColumn8(Lanes64(x, j))
  {
    hide Holds, Low, Upper, Lane, MixColumn64, MixColumn32, MixColumn8;
    var l := Column(Low(x.a), Low(x.b), Low(x.c), Low(x.d));
    var h := Column(Upper(x.a), Upper(x.b), Upper(x.c), Upper(x.d));
    HalvesHold(x.a);
    HalvesHold(x.b);
    HalvesHold(x.c);
    HalvesHold(x.d);
    MixColumnHolds(x, l, h);
    var y, yl, yh := MixColumn64(x), MixColumn32(l), MixColumn32(h);
    HalvesUnique(y.a, yl.a, yh.a);
    HalvesUnique(y.b, yl.b, yh.b);
    HalvesUnique(y.c, yl.c, yh.c);
    HalvesUnique(y.d, yl.d, yh.d);
    if j < 4 {
      MixColumnLanes(l, j);
    } else {
      MixColumnLanes(h, j - 4);
    }
  }
}

/** The two compression functions of ECHO: packed into 64-bit words, and on
    32-bit words. The packed one refines the other. */
module Echo {
  import opened Bytes
  import opened EchoWords

  datatype Row64 = Row64(lo: bv64, hi: bv64)

  datatype Row32 = Row32(w0: bv32, w1: bv32, w2: bv32, w3: bv32)

  /** A 128-bit counter in four words, the lowest first. */
  datatype Counter = Counter(c0: nat, c1: nat, c2: nat, c3: nat) {
    predicate Valid() { c0 < TWO_32 && c1 < TWO_32 && c2 < TWO_32 && c3 < TWO_32 }

    function Value(): nat { c0 + TWO_32 * c1 + TWO_64 * c2 + TWO_96 * c3 }
  }

  const TWO_96: nat := 0x1_0000_0000_0000_0000_0000_0000

  const TWO_128: nat := 0x1_0000_0000_0000_0000_0000_0000_0000_0000

  const ZERO: Counter := Counter(0, 0, 0, 0)

  // One AES round on a row, with the words of a counter as the key.
  type Aes = (Row32, Counter) -> Row32

  function Inc(x: nat): nat { (x + 1) % TWO_32 }

  /** The key counter goes up by one, word by word. */
  function NextKey(k: Counter): (r: Counter)
    requires k.Valid()
    ensures r.Valid()
  {
    if Inc(k.c0) != 0 then Counter(Inc(k.c0), k.c1, k.c2, k.c3)
    else if Inc(k.c1) != 0 then Counter(0, Inc(k.c1), k.c2, k.c3)
    else if Inc(k.c2) != 0 then Counter(0, 0, Inc(k.c2), k.c3)
    else Counter(0, 0, 0, Inc(k.c3))
  }

  function KeyAt(k: Counter, n: nat): (r: Counter)
    requires k.Valid()
    ensures r.Valid()
  {
    if n == 0 then k else NextKey(KeyAt(k, n - 1))
  }

  lemma ValueBound(k: Counter)
    requires k.Valid()
    ensures k.Value() < TWO_128
  {
    assert k.c0 + TWO_32 * k.c1 < TWO_64;
    assert k.c0 + TWO_32 * k.c1 + TWO_64 * k.c2 < TWO_96;
  }

  lemma NextKeyValue(k: Counter)
    requires k.Valid()
    ensures NextKey(k).Value() == if k.Value() + 1 == TWO_128 then 0 else k.Value() + 1
  {
    ValueBound(k);
    ValueBound(NextKey(k));
  }

  lemma ModNext(x: nat)
    ensures (x + 1) % TWO_128 == if x % TWO_128 + 1 == TWO_128 then 0 else x % TWO_128 + 1
  {
  }

  /** Row n of a run is keyed with the block's counter plus n, modulo 2^128. */
  lemma {:induction false} KeyAtValue(k: Counter, n: nat)
    requires k.Valid()
    ensures KeyAt(k, n).Value() == (k.Value() + n) % TWO_128
  {
    hide Counter.Value;
    if n == 0 {
      ValueBound(k);
    } else {
      KeyAtValue(k, n - 1);
      NextKeyValue(KeyAt(k, n - 1));
      ModNext(k.Value() + n - 1);
    }
  }

  // The steps of a round, on sixteen rows.

  /** Two AES rounds on the four words, the first keyed, the second not. */
  function TwoRounds(aes: Aes, x: Row32, k: Counter): Row32 {
    aes(aes(x, k), ZERO)
  }

  function Unpack(x: Row64): Row32 { Row32(Low(x.lo), Upper(x.lo), Low(x.hi), Upper(x.hi)) }

  function JoinWords(lo: bv32, hi: bv32): bv64 { (lo as bv64) | ((hi as bv64) << 32) }

  function Pack(y: Row32): Row64 { Row64(JoinWords(y.w0, y.w1), JoinWords(y.w2, y.w3)) }

  function SubWords32(aes: Aes, w: seq<Row32>, k: Counter): (t: seq<Row32>)
    requires |w| == 16 && k.Valid()
    ensures |t| == 16
  {
    seq(16, n requires 0 <= n < 16 => TwoRounds(aes, w[n], KeyAt(k, n)))
  }

  function SubWords64(aes: Aes, w: seq<Row64>, k: Counter): (t: seq<Row64>)
    requires |w| == 16 && k.Valid()
    ensures |t| == 16
  {
    seq(16, n requires 0 <= n < 16 => Pack(TwoRounds(aes, Unpack(w[n]), KeyAt(k, n))))
  }

  /** Row i % 4 of the four-by-four matrix moves left by as many columns. */
  function ShiftedFrom(i: nat): (j: nat)
    requires i < 16
    ensures j < 16 && j % 4 == i % 4
  {
    4 * ((i / 4 + i % 4) % 4) + i % 4
  }

  function ShiftRows<R>(w: seq<R>): (t: seq<R>)
    requires |w| == 16
    ensures |t| == 16
  {
    seq(16, i requires 0 <= i < 16 => w[ShiftedFrom(i)])
  }

  function Entry<W>(x: Column<W>, r: nat): W {
    if r == 0 then x.a else if r == 1 then x.b else if r == 2 then x.c else x.d
  }

  function Mixed32(w: seq<Row32>, i: nat): Row32
    requires |w| == 16 && i < 16
  {
    MixedAt32(w, i / 4 * 4, i % 4)
  }

  function MixedAt32(w: seq<Row32>, c: nat, r: nat): Row32
    requires |w| == 16 && c + 3 < 16
  {
    Row32(Entry(MixColumn32(Column(w[c].w0, w[c + 1].w0, w[c + 2].w0, w[c + 3].w0)), r),
          Entry(MixColumn32(Column(w[c].w1, w[c + 1].w1, w[c + 2].w1, w[c + 3].w1)), r),
          Entry(MixColumn32(Column(w[c].w2, w[c + 1].w2, w[c + 2].w2, w[c + 3].w2)), r),
          Entry(MixColumn32(Column(w[c].w3, w[c + 1].w3, w[c + 2].w3, w[c + 3].w3)), r))
  }

  function Mixed64(w: seq<Row64>, i: nat): Row64
    requires |w| == 16 && i < 16
  {
    MixedAt64(w, i / 4 * 4, i % 4)
  }

  function MixedAt64(w: seq<Row64>, c: nat, r: nat): Row64
    requires |w| == 16 && c + 3 < 16
  {
    Row64(Entry(MixColumn64(Column(w[c].lo, w[c + 1].lo, w[c + 2].lo, w[c + 3].lo)), r),
          Entry(MixColumn64(Column(w[c].hi, w[c + 1].hi, w[c + 2].hi, w[c + 3].hi)), r))
  }

  function MixColumns32(w: seq<Row32>): (t: seq<Row32>)
    requires |w| == 16
    ensures |t| == 16
  {
    seq(16, i requires 0 <= i < 16 => Mixed32(w, i))
  }

  function MixColumns64(w: seq<Row64>): (t: seq<Row64>)
    requires |w| == 16
    ensures |t| == 16
  {
    seq(16, i requires 0 <= i < 16 => Mixed64(w, i))
  }

  /** n rounds from key counter k; each round uses sixteen keys. */
  function Rounds32(aes: Aes, n: nat, w: seq<Row32>, k: Counter): (t: seq<Row32>)
    requires |w| == 16 && k.Valid()
    ensures |t| == 16
  {
    if n == 0 then w
    else MixColumns32(ShiftRows(SubWords32(aes, Rounds32(aes, n - 1, w, k), KeyAt(k, 16 * (n - 1)))))
  }

  function Rounds64(aes: Aes, n: nat, w: seq<Row64>, k: Counter): (t: seq<Row64>)
    requires |w| == 16 && k.Valid()
    ensures |t| == 16
  {
    if n == 0 then w
    else MixColumns64(ShiftRows(SubWords64(aes, Rounds64(aes, n - 1, w, k), KeyAt(k, 16 * (n - 1)))))
  }

  // Refinement.

  predicate RowHolds(x: Row64, y: Row32) { Holds(x.lo, y.w0, y.w1) && Holds(x.hi, y.w2, y.w3) }

  predicate AllHold(x: seq<Row64>, y: seq<Row32>) {
    |x| == |y| && forall i :: 0 <= i < |x| ==> RowHolds(x[i], y[i])
  }

  lemma PackHolds(y: Row32)
    ensures RowHolds(Pack(y), y)
  {
  }

  lemma UnpackHolds(x: Row64, y: Row32)
    requires RowHolds(x, y)
    ensures Unpack(x) == y
  {
    HalvesUnique(x.lo, y.w0, y.w1);
    HalvesUnique(x.hi, y.w2, y.w3);
  }

  lemma SubWordsHold(aes: Aes, x: seq<Row64>, y: seq<Row32>, k: Counter)
    requires AllHold(x, y) && |x| == 16 && k.Valid()
    ensures AllHold(SubWords64(aes, x, k), SubWords32(aes, y, k))
  {
    hide RowHolds, Unpack, Pack, TwoRounds;
    forall n | 0 <= n < 16 ensures RowHolds(SubWords64(aes, x, k)[n], SubWords32(aes, y, k)[n]) {
      UnpackHolds(x[n], y[n]);
      PackHolds(TwoRounds(aes, y[n], KeyAt(k, n)));
    }
  }

  lemma ShiftRowsHold(x: seq<Row64>, y: seq<Row32>)
    requires AllHold(x, y) && |x| == 16
    ensures AllHold(ShiftRows(x), ShiftRows(y))
  {
    hide RowHolds, ShiftedFrom;
  }

  lemma MixedHolds(x: seq<Row64>, y: seq<Row32>, i: nat)
    requires AllHold(x, y) && |x| == 16 && i < 16
    ensures RowHolds(Mixed64(x, i), Mixed32(y, i))
  {
    hide RowHolds, MixedAt64, MixedAt32;
    var c := i / 4 * 4;
    MixedAtHolds(x, y, c, i % 4);
  }

  lemma MixedAtHolds(x: seq<Row64>, y: seq<Row32>, c: nat, r: nat)
    requires AllHold(x, y) && |x| == |y| == 16 && c + 3 < 16
    ensures RowHolds(MixedAt64(x, c, r), MixedAt32(y, c, r))
  {
    hide Holds, MixColumn64, MixColumn32, Entry;
    assert RowHolds(x[c], y[c]) && RowHolds(x[c + 1], y[c + 1]) && RowHolds(x[c + 2], y[c + 2]) && RowHolds(x[c + 3], y[c + 3]);
    EntryHolds(Column(x[c].lo, x[c + 1].lo, x[c + 2].lo, x[c + 3].lo),
               Column(y[c].w0, y[c + 1].w0, y[c + 2].w0, y[c + 3].w0),
               Column(y[c].w1, y[c + 1].w1, y[c + 2].w1, y[c + 3].w1), r);
    EntryHolds(Column(x[c].hi, x[c + 1].hi, x[c + 2].hi, x[c + 3].hi),
               Column(y[c].w2, y[c + 1].w2, y[c + 2].w2, y[c + 3].w2),
               Column(y[c].w3, y[c + 1].w3, y[c + 2].w3, y[c + 3].w3), r);
  }

  lemma EntryHolds(x: Column<bv64>, l: Column<bv32>, h: Column<bv32>, r: nat)
    requires ColumnHolds(x, l, h)
    ensures Holds(Entry(MixColumn64(x), r), Entry(MixColumn32(l), r), Entry(MixColumn32(h), r))
  {
    hide Holds, MixColumn64, MixColumn32;
    MixColumnHolds(x, l, h);
  }

  lemma MixColumnsHold(x: seq<Row64>, y: seq<Row32>)
    requires AllHold(x, y) && |x| == 16
    ensures AllHold(MixColumns64(x), MixColumns32(y))
  {
    hide RowHolds, Mixed64, Mixed32;
    forall i | 0 <= i < 16 ensures RowHolds(MixColumns64(x)[i], MixColumns32(y)[i]) {
      MixedHolds(x, y, i);
    }
  }

  /** The packed rounds refine the 32-bit ones, for every state and counter. */
  lemma {:induction false} RoundsHold(aes: Aes, n: nat, x: seq<Row64>, y: seq<Row32>, k: Counter)
    requires AllHold(x, y) && |x| == |y| == 16 && k.Valid()
    ensures AllHold(Rounds64(aes, n, x, k), Rounds32(aes, n, y, k))
  {
    hide AllHold, SubWords64, SubWords32, ShiftRows, MixColumns64, MixColumns32;
    if n > 0 {
      RoundsHold(aes, n - 1, x, y, k);
      var x', y' := Rounds64(aes, n - 1, x, k), Rounds32(aes, n - 1, y, k);
      var k' := KeyAt(k, 16 * (n - 1));
      SubWordsHold(aes, x', y', k');
      ShiftRowsHold(SubWords64(aes, x', k'), SubWords32(aes, y', k'));
      MixColumnsHold(ShiftRows(SubWords64(aes, x', k')), ShiftRows(SubWords32(aes, y', k')));
    }
  }

  // The steps as the code performs them, in place.

  function Rotated<R>(w: seq<R>, a: nat, b: nat, c: nat, d: nat): seq<R>
    requires |w| == 16 && a < 16 && b < 16 && c < 16 && d < 16
  {
    w[a := w[b]][b := w[c]][c := w[d]][d := w[a]]
  }

  function Swapped<R>(w: seq<R>, a: nat, b: nat, c: nat, d: nat): seq<R>
    requires |w| == 16 && a < 16 && b < 16 && c < 16 && d < 16
  {
    w[a := w[c]][c := w[a]][b := w[d]][d := w[b]]
  }

  method RotateRows<R>(W: array<R>, a: nat, b: nat, c: nat, d: nat)
    requires W.Length == 16 && a < 16 && b < 16 && c < 16 && d < 16
    requires a != b && a != c && a != d && b != c && b != d && c != d
    modifies W
    ensures W[..] == Rotated(old(W[..]), a, b, c, d)
  {
    var tmp := W[a];
    W[a] := W[b];
    W[b] := W[c];
    W[c] := W[d];
    W[d] := tmp;
  }

  method SwapRows<R>(W: array<R>, a: nat, b: nat, c: nat, d: nat)
    requires W.Length == 16 && a < 16 && b < 16 && c < 16 && d < 16
    requires a != b && a != c && a != d && b != c && b != d && c != d
    modifies W
    ensures W[..] == Swapped(old(W[..]), a, b, c, d)
  {
    var tmp := W[a];
    W[a] := W[c];
    W[c] := tmp;
    tmp := W[b];
    W[b] := W[d];
    W[d] := tmp;
  }

  lemma RowOne<R>(w: seq<R>)
    requires |w| == 16
    ensures var t := Rotated(w, 1, 5, 9, 13);
      |t| == 16 && t[1] == w[5] && t[5] == w[9] && t[9] == w[13] && t[13] == w[1] &&
      forall i :: 0 <= i < 16 && i % 4 != 1 ==> t[i] == w[i]
  {
  }

  lemma RowTwo<R>(w: seq<R>)
    requires |w| == 16
    ensures var t := Swapped(w, 2, 6, 10, 14);
      |t| == 16 && t[2] == w[10] && t[6] == w[14] && t[10] == w[2] && t[14] == w[6] &&
      forall i :: 0 <= i < 16 && i % 4 != 2 ==> t[i] == w[i]
  {
  }

  lemma RowThree<R>(w: seq<R>)
    requires |w| == 16
    ensures var t := Rotated(w, 15, 11, 7, 3);
      |t| == 16 && t[15] == w[11] && t[11] == w[7] && t[7] == w[3] && t[3] == w[15] &&
      forall i :: 0 <= i < 16 && i % 4 != 3 ==> t[i] == w[i]
  {
  }

  /** Where the rows come from. */
  lemma Sources()
    ensures ShiftedFrom(0) == 0 && ShiftedFrom(4) == 4 && ShiftedFrom(8) == 8 && ShiftedFrom(12) == 12
    ensures ShiftedFrom(1) == 5 && ShiftedFrom(5) == 9 && ShiftedFrom(9) == 13 && ShiftedFrom(13) == 1
    ensures ShiftedFrom(2) == 10 && ShiftedFrom(6) == 14 && ShiftedFrom(10) == 2 && ShiftedFrom(14) == 6
    ensures ShiftedFrom(3) == 15 && ShiftedFrom(7) == 3 && ShiftedFrom(11) == 7 && ShiftedFrom(15) == 11
  {
  }

  /** Rotating one row, swapping in the next and rotating the last the other way. */
  lemma RowsMoved<R>(w: seq<R>)
    requires |w| == 16
    ensures Rotated(Swapped(Rotated(w, 1, 5, 9, 13), 2, 6, 10, 14), 15, 11, 7, 3) == ShiftRows(w)
  {
    hide Rotated, Swapped, ShiftedFrom;
    Sources();
    var x := Rotated(w, 1, 5, 9, 13);
    RowOne(w);
    var y := Swapped(x, 2, 6, 10, 14);
    RowTwo(x);
    RowThree(y);
  }

  method ShiftRowsInPlace<R>(W: array<R>)
    requires W.Length == 16
    modifies W
    ensures W[..] == ShiftRows(old(W[..]))
  {
    hide Rotated, Swapped, ShiftRows;
    RowsMoved(W[..]);
    RotateRows(W, 1, 5, 9, 13);
    SwapRows(W, 2, 6, 10, 14);
    RotateRows(W, 15, 11, 7, 3);
  }

  lemma KeyAtSteps(k: Counter, n: nat)
    requires k.Valid()
    ensures KeyAt(k, 0) == k && KeyAt(k, n + 1) == NextKey(KeyAt(k, n))
  {
  }

  lemma SubWordsFrom64(aes: Aes, w: seq<Row64>, k: Counter, t: seq<Row64>)
    requires |w| == |t| == 16 && k.Valid()
    requires forall i :: 0 <= i < 16 ==> t[i] == Pack(TwoRounds(aes, Unpack(w[i]), KeyAt(k, i)))
    ensures t == SubWords64(aes, w, k)
  {
    hide TwoRounds, Pack, Unpack, KeyAt;
  }

  method SubWordsInPlace64(aes: Aes, W: array<Row64>, k: Counter) returns (k': Counter)
    requires W.Length == 16 && k.Valid()
    modifies W
    ensures W[..] == SubWords64(aes, old(W[..]), k) && k' == KeyAt(k, 16)
  {
    hide TwoRounds, NextKey, Pack, Unpack, SubWords64, KeyAt;
    ghost var w := W[..];
    k' := k;
    KeyAtSteps(k, 0);
    for n := 0 to 16
      invariant k' == KeyAt(k, n)
      invariant forall i :: 0 <= i < n ==> W[i] == Pack(TwoRounds(aes, Unpack(w[i]), KeyAt(k, i)))
      invariant forall i :: n <= i < 16 ==> W[i] == w[i]
    {
      W[n] := Pack(TwoRounds(aes, Unpack(W[n]), k'));
      KeyAtSteps(k, n);
      k' := NextKey(k');
    }
    SubWordsFrom64(aes, w, k, W[..]);
  }

  lemma ColumnPut64(w: seq<Row64>, col: nat, t: seq<Row64>)
    requires |w| == |t| == 16 && col < 4
    requires t[4 * col] == MixedAt64(w, 4 * col, 0) && t[4 * col + 1] == MixedAt64(w, 4 * col, 1)
    requires t[4 * col + 2] == MixedAt64(w, 4 * col, 2) && t[4 * col + 3] == MixedAt64(w, 4 * col, 3)
    requires forall i :: 0 <= i < 16 && i / 4 != col ==> t[i] == w[i]
    ensures forall i :: 0 <= i < 16 ==> t[i] == if i / 4 == col then Mixed64(w, i) else w[i]
  {
    hide MixedAt64;
    forall i | 0 <= i < 16 && i / 4 == col
      ensures t[i] == Mixed64(w, i)
    {
      assert i == 4 * col + i % 4;
    }
  }

  method MixColumnInPlace64(W: array<Row64>, col: nat)
    requires W.Length == 16 && col < 4
    modifies W
    ensures forall i :: 0 <= i < 16 ==> W[i] == if i / 4 == col then Mixed64(old(W[..]), i) else old(W[i])
  {
    hide MixColumn64;
    ghost var w := W[..];
    var a, b, c, d := W[4 * col], W[4 * col + 1], W[4 * col + 2], W[4 * col + 3];
    var m0 := MixColumn64(Column(a.lo, b.lo, c.lo, d.lo));
    var m1 := MixColumn64(Column(a.hi, b.hi, c.hi, d.hi));
    var r0, r1, r2, r3 := Row64(m0.a, m1.a), Row64(m0.b, m1.b), Row64(m0.c, m1.c), Row64(m0.d, m1.d);
    assert r0 == MixedAt64(w, 4 * col, 0) && r1 == MixedAt64(w, 4 * col, 1);
    assert r2 == MixedAt64(w, 4 * col, 2) && r3 == MixedAt64(w, 4 * col, 3);
    hide MixedAt64;
    W[4 * col], W[4 * col + 1], W[4 * col + 2], W[4 * col + 3] := r0, r1, r2, r3;
    ColumnPut64(w, col, W[..]);
  }

  lemma SubWordsFrom32(aes: Aes, w: seq<Row32>, k: Counter, t: seq<Row32>)
    requires |w| == |t| == 16 && k.Valid()
    requires forall i :: 0 <= i < 16 ==> t[i] == TwoRounds(aes, w[i], KeyAt(k, i))
    ensures t == SubWords32(aes, w, k)
  {
    hide TwoRounds, Pack, Unpack, KeyAt;
  }

  method SubWordsInPlace32(aes: Aes, W: array<Row32>, k: Counter) returns (k': Counter)
    requires W.Length == 16 && k.Valid()
    modifies W
    ensures W[..] == SubWords32(aes, old(W[..]), k) && k' == KeyAt(k, 16)
  {
    hide TwoRounds, NextKey, Pack, Unpack, SubWords32, KeyAt;
    ghost var w := W[..];
    k' := k;
    KeyAtSteps(k, 0);
    for n := 0 to 16
      invariant k' == KeyAt(k, n)
      invariant forall i :: 0 <= i < n ==> W[i] == TwoRounds(aes, w[i], KeyAt(k, i))
      invariant forall i :: n <= i < 16 ==> W[i] == w[i]
    {
      W[n] := TwoRounds(aes, W[n], k');
      KeyAtSteps(k, n);
      k' := NextKey(k');
    }
    SubWordsFrom32(aes, w, k, W[..]);
  }

  lemma ColumnPut32(w: seq<Row32>, col: nat, t: seq<Row32>)
    requires |w| == |t| == 16 && col < 4
    requires t[4 * col] == MixedAt32(w, 4 * col, 0) && t[4 * col + 1] == MixedAt32(w, 4 * col, 1)
    requires t[4 * col + 2] == MixedAt32(w, 4 * col, 2) && t[4 * col + 3] == MixedAt32(w, 4 * col, 3)
    requires forall i :: 0 <= i < 16 && i / 4 != col ==> t[i] == w[i]
    ensures forall i :: 0 <= i < 16 ==> t[i] == if i / 4 == col then Mixed32(w, i) else w[i]
  {
    hide MixedAt32;
    forall i | 0 <= i < 16 && i / 4 == col
      ensures t[i] == Mixed32(w, i)
    {
      assert i == 4 * col + i % 4;
    }
  }

  method MixColumnInPlace32(W: array<Row32>, col: nat)
    requires W.Length == 16 && col < 4
    modifies W
    ensures forall i :: 0 <= i < 16 ==> W[i] == if i / 4 == col then Mixed32(old(W[..]), i) else old(W[i])
  {
    hide MixColumn32;
    ghost var w := W[..];
    var a, b, c, d := W[4 * col], W[4 * col + 1], W[4 * col + 2], W[4 * col + 3];
    var m0 := MixColumn32(Column(a.w0, b.w0, c.w0, d.w0));
    var m1 := MixColumn32(Column(a.w1, b.w1, c.w1, d.w1));
    var m2 := MixColumn32(Column(a.w2, b.w2, c.w2, d.w2));
    var m3 := MixColumn32(Column(a.w3, b.w3, c.w3, d.w3));
    var r0, r1, r2, r3 := Row32(m0.a, m1.a, m2.a, m3.a), Row32(m0.b, m1.b, m2.b, m3.b), Row32(m0.c, m1.c, m2.c, m3.c), Row32(m0.d, m1.d, m2.d, m3.d);
    assert r0 == MixedAt32(w, 4 * col, 0) && r1 == MixedAt32(w, 4 * col, 1);
    assert r2 == MixedAt32(w, 4 * col, 2) && r3 == MixedAt32(w, 4 * col, 3);
    hide MixedAt32;
    W[4 * col], W[4 * col + 1], W[4 * col + 2], W[4 * col + 3] := r0, r1, r2, r3;
    ColumnPut32(w, col, W[..]);
  }

  lemma {:induction false} KeyAtAdds(k: Counter, m: nat, n: nat)
    requires k.Valid()
    ensures KeyAt(KeyAt(k, m), n) == KeyAt(k, m + n)
  {
    hide NextKey;
    if n > 0 {
      KeyAtAdds(k, m, n - 1);
    }
  }

  method RoundsInPlace64(aes: Aes, n: nat, W: array<Row64>, k: Counter)
    requires W.Length == 16 && k.Valid()
    modifies W
    ensures W[..] == Rounds64(aes, n, old(W[..]), k)
  {
    hide SubWords64, ShiftRows, Mixed64, NextKey;
    var k' := k;
    for u := 0 to n
      invariant k' == KeyAt(k, 16 * u) && W[..] == Rounds64(aes, u, old(W[..]), k)
    {
      k' := SubWordsInPlace64(aes, W, k');
      KeyAtAdds(k, 16 * u, 16);
      ShiftRowsInPlace(W);
      ghost var w := W[..];
      for col := 0 to 4
        invariant forall i :: 0 <= i < 16 ==> W[i] == if i / 4 < col then Mixed64(w, i) else w[i]
      {
        ghost var before := W[..];
        MixColumnInPlace64(W, col);
        forall i | 0 <= i < 16 && i / 4 == col ensures Mixed64(before, i) == Mixed64(w, i) {
          SameColumn64(before, w, i);
        }
      }
      assert W[..] == MixColumns64(w);
    }
  }

  lemma SameColumn64(x: seq<Row64>, y: seq<Row64>, i: nat)
    requires |x| == |y| == 16 && i < 16
    requires forall j :: 0 <= j < 16 && j / 4 == i / 4 ==> x[j] == y[j]
    ensures Mixed64(x, i) == Mixed64(y, i)
  {
    hide MixColumn64, Entry;
    var c := i / 4 * 4;
    assert c / 4 == i / 4 && (c + 1) / 4 == i / 4 && (c + 2) / 4 == i / 4 && (c + 3) / 4 == i / 4;
  }

  method RoundsInPlace32(aes: Aes, n: nat, W: array<Row32>, k: Counter)
    requires W.Length == 16 && k.Valid()
    modifies W
    ensures W[..] == Rounds32(aes, n, old(W[..]), k)
  {
    hide SubWords32, ShiftRows, Mixed32, NextKey;
    var k' := k;
    for u := 0 to n
      invariant k' == KeyAt(k, 16 * u) && W[..] == Rounds32(aes, u, old(W[..]), k)
    {
      k' := SubWordsInPlace32(aes, W, k');
      KeyAtAdds(k, 16 * u, 16);
      ShiftRowsInPlace(W);
      ghost var w := W[..];
      for col := 0 to 4
        invariant forall i :: 0 <= i < 16 ==> W[i] == if i / 4 < col then Mixed32(w, i) else w[i]
      {
        ghost var before := W[..];
        MixColumnInPlace32(W, col);
        forall i | 0 <= i < 16 && i / 4 == col ensures Mixed32(before, i) == Mixed32(w, i) {
          SameColumn32(before, w, i);
        }
      }
      assert W[..] == MixColumns32(w);
    }
  }

  lemma SameColumn32(x: seq<Row32>, y: seq<Row32>, i: nat)
    requires |x| == |y| == 16 && i < 16
    requires forall j :: 0 <= j < 16 && j / 4 == i / 4 ==> x[j] == y[j]
    ensures Mixed32(x, i) == Mixed32(y, i)
  {
    hide MixColumn32, Entry;
    var c := i / 4 * 4;
    assert c / 4 == i / 4 && (c + 1) / 4 == i / 4 && (c + 2) / 4 == i / 4 && (c + 3) / 4 == i / 4;
  }

  // Message blocks and the final feed-forward.

  function Dec32Le(b: seq<Byte>): bv32
    requires |b| == 4
  {
    (b[0] as bv32) | ((b[1] as bv32) << 8) | ((b[2] as bv32) << 16) | ((b[3] as bv32) << 24)
  }

  function Dec64Le(b: seq<Byte>): bv64
    requires |b| == 8
  {
    (b[0] as bv64) | ((b[1] as bv64) << 8) | ((b[2] as bv64) << 16) | ((b[3] as bv64) << 24) |
    ((b[4] as bv64) << 32) | ((b[5] as bv64) << 40) | ((b[6] as bv64) << 48) | ((b[7] as bv64) << 56)
  }

  lemma Dec64Holds(b: seq<Byte>)
    requires |b| == 8
    ensures Holds(Dec64Le(b), Dec32Le(b[..4]), Dec32Le(b[4..]))
  {
    EightBytes(b[0], b[1], b[2], b[3], b[4], b[5], b[6], b[7]);
  }

  lemma EightBytes(a: Byte, b: Byte, c: Byte, d: Byte, e: Byte, f: Byte, g: Byte, h: Byte)
    ensures (a as bv64) | ((b as bv64) << 8) | ((c as bv64) << 16) | ((d as bv64) << 24) |
            ((e as bv64) << 32) | ((f as bv64) << 40) | ((g as bv64) << 48) | ((h as bv64) << 56)
         == (((a as bv32) | ((b as bv32) << 8) | ((c as bv32) << 16) | ((d as bv32) << 24)) as bv64) |
            ((((e as bv32) | ((f as bv32) << 8) | ((g as bv32) << 16) | ((h as bv32) << 24)) as bv64) << 32)
  {
  }

  function Input32(block: seq<Byte>, u: nat): Row32
    requires 16 * u + 16 <= |block|
  {
    var b := block[16 * u..16 * u + 16];
    Row32(Dec32Le(b[0..4]), Dec32Le(b[4..8]), Dec32Le(b[8..12]), Dec32Le(b[12..16]))
  }

  function Input64(block: seq<Byte>, u: nat): Row64
    requires 16 * u + 16 <= |block|
  {
    var b := block[16 * u..16 * u + 16];
    Row64(Dec64Le(b[0..8]), Dec64Le(b[8..16]))
  }

  lemma InputHolds(block: seq<Byte>, u: nat)
    requires 16 * u + 16 <= |block|
    ensures RowHolds(Input64(block, u), Input32(block, u))
  {
    hide Holds, Dec64Le, Dec32Le;
    var b := block[16 * u..16 * u + 16];
    assert b[0..8][..4] == b[0..4] && b[0..8][4..] == b[4..8];
    assert b[8..16][..4] == b[8..12] && b[8..16][4..] == b[12..16];
    Dec64Holds(b[0..8]);
    Dec64Holds(b[8..16]);
  }

  function XorRow32(x: Row32, y: Row32): Row32 {
    Row32(Xor32(x.w0, y.w0), Xor32(x.w1, y.w1), Xor32(x.w2, y.w2), Xor32(x.w3, y.w3))
  }

  function XorRow64(x: Row64, y: Row64): Row64 { Row64(Xor64(x.lo, y.lo), Xor64(x.hi, y.hi)) }

  lemma XorRowHolds(x: Row64, y: Row32, x': Row64, y': Row32)
    requires RowHolds(x, y) && RowHolds(x', y')
    ensures RowHolds(XorRow64(x, x'), XorRow32(y, y'))
  {
    hide Holds, Xor64, Xor32;
    XorHolds(x.lo, y.w0, y.w1, x'.lo, y'.w0, y'.w1);
    XorHolds(x.hi, y.w2, y.w3, x'.hi, y'.w2, y'.w3);
  }

  /** The message rows of a block, sixteen less those of the chain value. */
  function Message32(block: seq<Byte>, size: nat): (m: seq<Row32>)
    requires 0 < size < 16 && |block| == 16 * (16 - size)
    ensures |m| == 16 - size
  {
    seq(16 - size, u requires 0 <= u < 16 - size => Input32(block, u))
  }

  /** Row i of the new chain value: the old one, the message rows and the state
      rows of its column. */
  function FinalRow32(v: seq<Row32>, m: seq<Row32>, w: seq<Row32>, i: nat): Row32
    requires i < |v| && |v| + |m| == 16 == |w| && (|v| == 4 || |v| == 8)
  {
    XorRow32(v[i], if |v| == 4 then
      XorRow32(XorRow32(XorRow32(XorRow32(XorRow32(XorRow32(m[i], m[i + 4]), m[i + 8]), w[i]), w[i + 4]), w[i + 8]), w[i + 12])
    else
      XorRow32(XorRow32(m[i], w[i]), w[i + 8]))
  }

  /** COMPRESS_SMALL for four rows, COMPRESS_BIG for eight. */
  function Compress32(aes: Aes, v: seq<Row32>, block: seq<Byte>, k: Counter): (r: seq<Row32>)
    requires (|v| == 4 || |v| == 8) && |block| == 16 * (16 - |v|) && k.Valid()
    ensures |r| == |v|
  {
    var m := Message32(block, |v|);
    var w := Rounds32(aes, if |v| == 4 then 8 else 10, v + m, k);
    seq(|v|, i requires 0 <= i < |v| => FinalRow32(v, m, w, i))
  }

  /** The message rows of a block, sixteen less those of the chain value. */
  function Message64(block: seq<Byte>, size: nat): (m: seq<Row64>)
    requires 0 < size < 16 && |block| == 16 * (16 - size)
    ensures |m| == 16 - size
  {
    seq(16 - size, u requires 0 <= u < 16 - size => Input64(block, u))
  }

  /** Row i of the new chain value: the old one, the message rows and the state
      rows of its column. */
  function FinalRow64(v: seq<Row64>, m: seq<Row64>, w: seq<Row64>, i: nat): Row64
    requires i < |v| && |v| + |m| == 16 == |w| && (|v| == 4 || |v| == 8)
  {
    XorRow64(v[i], if |v| == 4 then
      XorRow64(XorRow64(XorRow64(XorRow64(XorRow64(XorRow64(m[i], m[i + 4]), m[i + 8]), w[i]), w[i + 4]), w[i + 8]), w[i + 12])
    else
      XorRow64(XorRow64(m[i], w[i]), w[i + 8]))
  }

  /** COMPRESS_SMALL for four rows, COMPRESS_BIG for eight. */
  function Compress64(aes: Aes, v: seq<Row64>, block: seq<Byte>, k: Counter): (r: seq<Row64>)
    requires (|v| == 4 || |v| == 8) && |block| == 16 * (16 - |v|) && k.Valid()
    ensures |r| == |v|
  {
    var m := Message64(block, |v|);
    var w := Rounds64(aes, if |v| == 4 then 8 else 10, v + m, k);
    seq(|v|, i requires 0 <= i < |v| => FinalRow64(v, m, w, i))
  }

  lemma FinalRowHolds(v: seq<Row64>, m: seq<Row64>, w: seq<Row64>, v': seq<Row32>, m': seq<Row32>, w': seq<Row32>, i: nat)
    requires i < |v| && |v| + |m| == 16 == |w| && (|v| == 4 || |v| == 8)
    requires AllHold(v, v') && AllHold(m, m') && AllHold(w, w')
    ensures RowHolds(FinalRow64(v, m, w, i), FinalRow32(v', m', w', i))
  {
    hide RowHolds, XorRow64, XorRow32;
    if |v| == 4 {
      var p, p' := XorRow64(m[i], m[i + 4]), XorRow32(m'[i], m'[i + 4]);
      XorRowHolds(m[i], m'[i], m[i + 4], m'[i + 4]);
      XorRowHolds(p, p', m[i + 8], m'[i + 8]);
      p, p' := XorRow64(p, m[i + 8]), XorRow32(p', m'[i + 8]);
      XorRowHolds(p, p', w[i], w'[i]);
      p, p' := XorRow64(p, w[i]), XorRow32(p', w'[i]);
      XorRowHolds(p, p', w[i + 4], w'[i + 4]);
      p, p' := XorRow64(p, w[i + 4]), XorRow32(p', w'[i + 4]);
      XorRowHolds(p, p', w[i + 8], w'[i + 8]);
      p, p' := XorRow64(p, w[i + 8]), XorRow32(p', w'[i + 8]);
      XorRowHolds(p, p', w[i + 12], w'[i + 12]);
      p, p' := XorRow64(p, w[i + 12]), XorRow32(p', w'[i + 12]);
      XorRowHolds(v[i], v'[i], p, p');
    } else {
      var p, p' := XorRow64(m[i], w[i]), XorRow32(m'[i], w'[i]);
      XorRowHolds(m[i], m'[i], w[i], w'[i]);
      XorRowHolds(p, p', w[i + 8], w'[i + 8]);
      p, p' := XorRow64(p, w[i + 8]), XorRow32(p', w'[i + 8]);
      XorRowHolds(v[i], v'[i], p, p');
    }
  }

  /** The packed compression refines the 32-bit one: for every chain value,
      block and counter, small or big. */
  lemma CompressHolds(aes: Aes, x: seq<Row64>, y: seq<Row32>, block: seq<Byte>, k: Counter)
    requires AllHold(x, y) && (|x| == 4 || |x| == 8) && |block| == 16 * (16 - |x|) && k.Valid()
    ensures AllHold(Compress64(aes, x, block, k), Compress32(aes, y, block, k))
  {
    hide RowHolds, Rounds64, Rounds32, FinalRow64, FinalRow32, Input64, Input32;
    var m, m' := Message64(block, |x|), Message32(block, |x|);
    forall u | 0 <= u < 16 - |x| ensures RowHolds(m[u], m'[u]) {
      InputHolds(block, u);
    }
    var n := if |x| == 4 then 8 else 10;
    RoundsHold(aes, n, x + m, y + m', k);
    forall i | 0 <= i < |x| ensures RowHolds(Compress64(aes, x, block, k)[i], Compress32(aes, y, block, k)[i]) {
      FinalRowHolds(x, m, Rounds64(aes, n, x + m, k), y, m', Rounds32(aes, n, y + m', k), i);
    }
  }

  method CompressInPlace64(aes: Aes, V: array<Row64>, block: seq<Byte>, k: Counter)
    requires (V.Length == 4 || V.Length == 8) && |block| == 16 * (16 - V.Length) && k.Valid()
    modifies V
    ensures V[..] == Compress64(aes, old(V[..]), block, k)
  {
    hide Rounds64, Input64, XorRow64;
    ghost var v, m := V[..], Message64(block, V.Length);
    var W := new Row64[16];
    forall u | 0 <= u < V.Length { W[u] := V[u]; }
    forall u | 0 <= u < 16 - V.Length { W[V.Length + u] := Input64(block, u); }
    assert W[..] == v + m;
    RoundsInPlace64(aes, if V.Length == 4 then 8 else 10, W, k);
    ghost var w := W[..];
    for u := 0 to V.Length
      invariant W[..] == w
      invariant forall i :: 0 <= i < u ==> V[i] == FinalRow64(v, m, w, i)
      invariant forall i :: u <= i < V.Length ==> V[i] == v[i]
    {
      FeedForward64(V, u, block, W, m);
    }
  }

  method FeedForward64(V: array<Row64>, u: nat, block: seq<Byte>, W: array<Row64>, ghost m: seq<Row64>)
    requires (V.Length == 4 || V.Length == 8) && |block| == 16 * (16 - V.Length) && W.Length == 16 && V != W
    requires u < V.Length && m == Message64(block, V.Length)
    modifies V
    ensures V[..] == old(V[..])[u := FinalRow64(old(V[..]), m, W[..], u)]
  {
    hide Input64, XorRow64;
    if V.Length == 4 {
      var x := XorRow64(XorRow64(Input64(block, u), Input64(block, u + 4)), Input64(block, u + 8));
      x := XorRow64(XorRow64(XorRow64(XorRow64(x, W[u]), W[u + 4]), W[u + 8]), W[u + 12]);
      V[u] := XorRow64(V[u], x);
    } else {
      V[u] := XorRow64(V[u], XorRow64(XorRow64(Input64(block, u), W[u]), W[u + 8]));
    }
  }

  method CompressInPlace32(aes: Aes, V: array<Row32>, block: seq<Byte>, k: Counter)
    requires (V.Length == 4 || V.Length == 8) && |block| == 16 * (16 - V.Length) && k.Valid()
    modifies V
    ensures V[..] == Compress32(aes, old(V[..]), block, k)
  {
    hide Rounds32, Input32, XorRow32;
    ghost var v, m := V[..], Message32(block, V.Length);
    var W := new Row32[16];
    forall u | 0 <= u < V.Length { W[u] := V[u]; }
    forall u | 0 <= u < 16 - V.Length { W[V.Length + u] := Input32(block, u); }
    assert W[..] == v + m;
    RoundsInPlace32(aes, if V.Length == 4 then 8 else 10, W, k);
    ghost var w := W[..];
    for u := 0 to V.Length
      invariant W[..] == w
      invariant forall i :: 0 <= i < u ==> V[i] == FinalRow32(v, m, w, i)
      invariant forall i :: u <= i < V.Length ==> V[i] == v[i]
    {
      FeedForward32(V, u, block, W, m);
    }
  }

  method FeedForward32(V: array<Row32>, u: nat, block: seq<Byte>, W: array<Row32>, ghost m: seq<Row32>)
    requires (V.Length == 4 || V.Length == 8) && |block| == 16 * (16 - V.Length) && W.Length == 16 && V != W
    requires u < V.Length && m == Message32(block, V.Length)
    modifies V
    ensures V[..] == old(V[..])[u := FinalRow32(old(V[..]), m, W[..], u)]
  {
    hide Input32, XorRow32;
    if V.Length == 4 {
      var x := XorRow32(XorRow32(Input32(block, u), Input32(block, u + 4)), Input32(block, u + 8));
      x := XorRow32(XorRow32(XorRow32(XorRow32(x, W[u]), W[u + 4]), W[u + 8]), W[u + 12]);
      V[u] := XorRow32(V[u], x);
    } else {
      V[u] := XorRow32(V[u], XorRow32(XorRow32(Input32(block, u), W[u]), W[u + 8]));
    }
  }
}

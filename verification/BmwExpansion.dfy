/** The 64-bit message expansion of BMW, written twice: loops over index
    arithmetic modulo 16, and straight-line code driven by index tables. */
module BmwExpansion {
  import opened Bytes
  import opened BmwWords
  import opened Words

  // The sums that the first sixteen words start from.

  /** Five indices, each but the first added or subtracted. */
  datatype WRow = WRow(i0: nat, plus1: bool, i1: nat, plus2: bool, i2: nat, plus3: bool, i3: nat, plus4: bool, i4: nat)

  function W16(i: nat): (r: WRow)
    requires i < 16
    ensures r.i0 < 16 && r.i1 < 16 && r.i2 < 16 && r.i3 < 16 && r.i4 < 16
  {
    if i == 0 then WRow(5, false, 7, true, 10, true, 13, true, 14)
    else if i == 1 then WRow(6, false, 8, true, 11, true, 14, false, 15)
    else if i == 2 then WRow(0, true, 7, true, 9, false, 12, true, 15)
    else if i == 3 then WRow(0, false, 1, true, 8, false, 10, true, 13)
    else if i == 4 then WRow(1, true, 2, true, 9, false, 11, false, 14)
    else if i == 5 then WRow(3, false, 2, true, 10, false, 12, true, 15)
    else if i == 6 then WRow(4, false, 0, false, 3, false, 11, true, 13)
    else if i == 7 then WRow(1, false, 4, false, 5, false, 12, false, 14)
    else if i == 8 then WRow(2, false, 5, false, 6, true, 13, false, 15)
    else if i == 9 then WRow(0, false, 3, true, 6, false, 7, true, 14)
    else if i == 10 then WRow(8, false, 1, false, 4, false, 7, true, 15)
    else if i == 11 then WRow(8, false, 0, false, 2, false, 5, true, 9)
    else if i == 12 then WRow(1, true, 3, false, 6, false, 9, true, 10)
    else if i == 13 then WRow(2, true, 4, true, 7, true, 10, true, 11)
    else if i == 14 then WRow(3, false, 5, true, 8, false, 11, false, 12)
    else WRow(12, false, 4, false, 6, false, 9, true, 13)
  }

  /** Every row takes the words at the same five distances. */
  lemma RowIndices(i: nat)
    requires i < 16
    ensures var r := W16(i);
      {r.i0, r.i1, r.i2, r.i3, r.i4} == {(i + 5) % 16, (i + 7) % 16, (i + 10) % 16, (i + 13) % 16, (i + 14) % 16}
  {
  }

  /** How a row counts word j. */
  function SignIn(r: WRow, j: nat): int {
    if j == r.i0 then 1 else if j == r.i1 then Sign(r.plus1) else if j == r.i2 then Sign(r.plus2)
    else if j == r.i3 then Sign(r.plus3) else if j == r.i4 then Sign(r.plus4) else 0
  }

  function Sign(plus: bool): int { if plus then 1 else -1 }

  /** The same signs column by column: the rows that add word j, and those that subtract it. */
  function ColumnOf(j: nat): (set<nat>, set<nat>)
    requires j < 16
  {
    if j == 0 then ({2, 3, 9}, {6, 11})
    else if j == 1 then ({4, 7, 12}, {3, 10})
    else if j == 2 then ({4, 8, 13}, {5, 11})
    else if j == 3 then ({5, 12, 14}, {6, 9})
    else if j == 4 then ({6, 13}, {7, 10, 15})
    else if j == 5 then ({0}, {7, 8, 11, 14})
    else if j == 6 then ({1, 9}, {8, 12, 15})
    else if j == 7 then ({2, 13}, {0, 9, 10})
    else if j == 8 then ({3, 10, 11, 14}, {1})
    else if j == 9 then ({2, 4, 11}, {12, 15})
    else if j == 10 then ({0, 5, 12, 13}, {3})
    else if j == 11 then ({1, 13}, {4, 6, 14})
    else if j == 12 then ({15}, {2, 5, 7, 14})
    else if j == 13 then ({0, 3, 6, 8, 15}, {})
    else if j == 14 then ({0, 1, 9}, {4, 7})
    else ({2, 5, 10}, {1, 8})
  }

  predicate SignsMatch(i: nat, j: nat)
    requires i < 16 && j < 16
  {
    SignIn(W16(i), j) == if i in ColumnOf(j).0 then 1 else if i in ColumnOf(j).1 then -1 else 0
  }

  lemma ColumnSigns(i: nat, j: nat)
    requires i < 16 && j < 16
    ensures SignIn(W16(i), j) == if i in ColumnOf(j).0 then 1 else if i in ColumnOf(j).1 then -1 else 0
  {
    hide W16, ColumnOf, SignIn;
    if i < 4 {
      ColumnSigns0(i, j);
    } else if i < 8 {
      ColumnSigns4(i, j);
    } else if i < 12 {
      ColumnSigns8(i, j);
    } else {
      ColumnSigns12(i, j);
    }
  }

  lemma ColumnSigns0(i: nat, j: nat)
    requires i < 4 && j < 16
    ensures SignsMatch(i, j)
  {
  }

  lemma ColumnSigns4(i: nat, j: nat)
    requires 4 <= i < 8 && j < 16
    ensures SignsMatch(i, j)
  {
  }

  lemma ColumnSigns8(i: nat, j: nat)
    requires 8 <= i < 12 && j < 16
    ensures SignsMatch(i, j)
  {
  }

  lemma ColumnSigns12(i: nat, j: nat)
    requires 12 <= i < 16 && j < 16
    ensures SignsMatch(i, j)
  {
  }

  /** Message and chain word, combined. */
  function Both(m: seq<bv64>, h: seq<bv64>, i: nat): bv64
    requires |m| == |h| == 16 && i < 16
  {
    Xor64(m[i], h[i])
  }

  function MakeW(m: seq<bv64>, h: seq<bv64>, i: nat): bv64
    requires |m| == |h| == 16 && i < 16
  {
    var r := W16(i);
    Signed(Signed(Signed(Signed(Both(m, h, r.i0), r.plus1, Both(m, h, r.i1)), r.plus2, Both(m, h, r.i2)),
      r.plus3, Both(m, h, r.i3)), r.plus4, Both(m, h, r.i4))
  }

  /** The five terms with their signs, modulo 2^64. */
  lemma MakeWValue(m: seq<bv64>, h: seq<bv64>, i: nat)
    requires |m| == |h| == 16 && i < 16
    ensures var r := W16(i);
      Num64(MakeW(m, h, i)) == (Num64(Both(m, h, r.i0)) + Term(r.plus1, Both(m, h, r.i1)) + Term(r.plus2, Both(m, h, r.i2)) +
        Term(r.plus3, Both(m, h, r.i3)) + Term(r.plus4, Both(m, h, r.i4))) % TWO_64
  {
    hide Num64, Signed, Term, Both, W16;
    var r := W16(i);
    var x0, x1, x2, x3, x4 := Both(m, h, r.i0), Both(m, h, r.i1), Both(m, h, r.i2), Both(m, h, r.i3), Both(m, h, r.i4);
    var s1 := Signed(x0, r.plus1, x1);
    var s2 := Signed(s1, r.plus2, x2);
    var s3 := Signed(s2, r.plus3, x3);
    var n1 := Num64(x0) + Term(r.plus1, x1);
    var n2 := n1 + Term(r.plus2, x2);
    WordRange64(x0);
    ModUnique(Num64(x0), TWO_64, 0, Num64(x0));
    SignedValue(x0, r.plus1, x1, Num64(x0));
    SignedValue(s1, r.plus2, x2, n1);
    SignedValue(s2, r.plus3, x3, n2);
    SignedValue(s3, r.plus4, x4, n2 + Term(r.plus3, x3));
  }

  function Sums(m: seq<bv64>, h: seq<bv64>): (w: seq<bv64>)
    requires |m| == |h| == 16
    ensures |w| == 16
  {
    seq(16, i requires 0 <= i < 16 => MakeW(m, h, i))
  }

  // The definition: word i from the sixteen before it.

  /** A message word, rotated by one more than its index. */
  function RolOff(m: seq<bv64>, j: nat, off: nat): bv64
    requires |m| == 16
  {
    var k := (j + off) % 16;
    Rotl(m[k], (k + 1) as bv7)
  }

  function AddElt(m: seq<bv64>, h: seq<bv64>, j: nat): bv64
    requires |m| == |h| == 16
  {
    Elt(RolOff(m, j, 0), RolOff(m, j, 3), RolOff(m, j, 10), Kb(j + 16), h[(j + 7) % 16])
  }

  function Sum1(q: seq<bv64>, i: nat): bv64
    requires 16 <= i <= |q|
  {
    Sum16(Sb1(q[i - 16]), Sb2(q[i - 15]), Sb3(q[i - 14]), Sb0(q[i - 13]),
      Sb1(q[i - 12]), Sb2(q[i - 11]), Sb3(q[i - 10]), Sb0(q[i - 9]),
      Sb1(q[i - 8]), Sb2(q[i - 7]), Sb3(q[i - 6]), Sb0(q[i - 5]),
      Sb1(q[i - 4]), Sb2(q[i - 3]), Sb3(q[i - 2]), Sb0(q[i - 1]))
  }

  function Sum2(q: seq<bv64>, i: nat): bv64
    requires 16 <= i <= |q|
  {
    Sum16(q[i - 16], Rb1(q[i - 15]), q[i - 14], Rb2(q[i - 13]),
      q[i - 12], Rb3(q[i - 11]), q[i - 10], Rb4(q[i - 9]),
      q[i - 8], Rb5(q[i - 7]), q[i - 6], Rb6(q[i - 5]),
      q[i - 4], Rb7(q[i - 3]), Sb4(q[i - 2]), Sb5(q[i - 1]))
  }

  function Expand(q: seq<bv64>, m: seq<bv64>, h: seq<bv64>, i: nat): bv64
    requires |m| == |h| == 16 <= i <= |q|
  {
    Add64(if i < 18 then Sum1(q, i) else Sum2(q, i), AddElt(m, h, i - 16))
  }

  /** The first sixteen words come from w, with the functions in turn. */
  function First(w: seq<bv64>, h: seq<bv64>, i: nat): bv64
    requires |w| == |h| == 16 && i < 16
  {
    Add64(Mixed(w, i), h[(i + 1) % 16])
  }

  function Mixed(w: seq<bv64>, i: nat): bv64
    requires i < |w|
  {
    var x := w[i];
    if i % 5 == 0 then Sb0(x) else if i % 5 == 1 then Sb1(x) else if i % 5 == 2 then Sb2(x)
    else if i % 5 == 3 then Sb3(x) else Sb4(x)
  }

  function FirstWords(w: seq<bv64>, m: seq<bv64>, h: seq<bv64>, k: nat): (q: seq<bv64>)
    requires |w| == |m| == |h| == 16 && k <= 32
    ensures |q| == k
  {
    if k == 0 then []
    else
      var q := FirstWords(w, m, h, k - 1);
      q + [if k <= 16 then First(w, h, k - 1) else Expand(q, m, h, k - 1)]
  }

  /** The 32 words of the expansion. */
  function Expansion(m: seq<bv64>, h: seq<bv64>): seq<bv64>
    requires |m| == |h| == 16
  {
    FirstWords(Sums(m, h), m, h, 32)
  }

  lemma NoWords(w: seq<bv64>, m: seq<bv64>, h: seq<bv64>)
    requires |w| == |m| == |h| == 16
    ensures FirstWords(w, m, h, 0) == []
  {
  }

  /** One assignment among the first sixteen. */
  method PutFirst(ghost w: seq<bv64>, ghost m: seq<bv64>, h: seq<bv64>, qt: array<bv64>, i: nat, mixed: bv64, next: nat)
    requires |w| == |m| == |h| == 16 && i < 16 && next == if i == 15 then 0 else i + 1
    requires qt.Length == 32 && qt[..i] == FirstWords(w, m, h, i)
    requires mixed == Mixed(w, i)
    modifies qt
    ensures qt[..i + 1] == FirstWords(w, m, h, i + 1)
  {
    hide Mixed, Add64, Expand;
    ghost var q := qt[..i];
    qt[i] := Add64(mixed, h[next]);
    assert qt[..i + 1] == q + [qt[i]];
  }

  // The compact build.

  /** The table of constants. */
  function KbTab(j: nat): bv64
    requires j < 16
  {
    if j == 0 then Kb(16)
    else if j == 1 then Kb(17)
    else if j == 2 then Kb(18)
    else if j == 3 then Kb(19)
    else if j == 4 then Kb(20)
    else if j == 5 then Kb(21)
    else if j == 6 then Kb(22)
    else if j == 7 then Kb(23)
    else if j == 8 then Kb(24)
    else if j == 9 then Kb(25)
    else if j == 10 then Kb(26)
    else if j == 11 then Kb(27)
    else if j == 12 then Kb(28)
    else if j == 13 then Kb(29)
    else if j == 14 then Kb(30)
    else Kb(31)
  }

  lemma Constants(j: nat)
    requires j < 16
    ensures KbTab(j) == Kb(j + 16)
  {
    hide Kb;
  }

  function TabAddElt(m: seq<bv64>, h: seq<bv64>, j: nat): bv64
    requires |m| == |h| == 16 && j < 16
  {
    Elt(RolOff(m, j, 0), RolOff(m, j, 3), RolOff(m, j, 10), KbTab(j), h[(j + 7) % 16])
  }

  /** One turn of either loop over the last sixteen words. */
  method PutExpanded(ghost w: seq<bv64>, m: seq<bv64>, h: seq<bv64>, qt: array<bv64>, i: nat)
    requires |w| == |m| == |h| == 16 <= i < 32 == qt.Length && qt[..i] == FirstWords(w, m, h, i)
    modifies qt
    ensures qt[..i + 1] == FirstWords(w, m, h, i + 1)
  {
    hide Sum1, Sum2, RolOff, Kb, KbTab, Add64, Elt;
    Constants(i - 16);
    var q := qt[..i];
    qt[i] := Add64(if i < 18 then Sum1(q, i) else Sum2(q, i), TabAddElt(m, h, i - 16));
    assert qt[..i + 1] == q + [qt[i]];
  }

  /** The array of the sums. */
  method FillW(m: seq<bv64>, h: seq<bv64>) returns (w: seq<bv64>)
    requires |m| == |h| == 16
    ensures w == Sums(m, h)
  {
    hide Sums;
    var wb := new bv64[16];
    FillEight(m, h, wb, 0);
    FillEight(m, h, wb, 8);
    assert wb[..16] == wb[..] && Sums(m, h)[..16] == Sums(m, h);
    w := wb[..];
  }

  method FillEight(m: seq<bv64>, h: seq<bv64>, wb: array<bv64>, i: nat)
    requires |m| == |h| == 16 == wb.Length && i <= 8 && wb[..i] == Sums(m, h)[..i]
    modifies wb
    ensures wb[..i + 8] == Sums(m, h)[..i + 8]
  {
    hide Sums;
    PutSum(m, h, wb, i);
    PutSum(m, h, wb, i + 1);
    PutSum(m, h, wb, i + 2);
    PutSum(m, h, wb, i + 3);
    PutSum(m, h, wb, i + 4);
    PutSum(m, h, wb, i + 5);
    PutSum(m, h, wb, i + 6);
    PutSum(m, h, wb, i + 7);
  }

  method PutSum(m: seq<bv64>, h: seq<bv64>, wb: array<bv64>, i: nat)
    requires |m| == |h| == 16 == wb.Length && i < 16 && wb[..i] == Sums(m, h)[..i]
    modifies wb
    ensures wb[..i + 1] == Sums(m, h)[..i + 1]
  {
    hide MakeW;
    ghost var before := wb[..i];
    wb[i] := MakeW(m, h, i);
    assert wb[..i + 1] == before + [wb[i]];
    assert Sums(m, h)[..i + 1] == Sums(m, h)[..i] + [MakeW(m, h, i)];
  }

  method ExpandCompact(m: seq<bv64>, h: seq<bv64>, qt: array<bv64>)
    requires |m| == |h| == 16 && qt.Length == 32
    modifies qt
    ensures qt[..] == Expansion(m, h)
  {
    hide FirstWords, Expand, Add64, Sb0, Sb1, Sb2, Sb3, Sb4, Sums;
    var w := FillW(m, h);
    NoWords(w, m, h);
    var u := 0;
    while u < 15
      invariant u % 5 == 0 && u <= 15
      invariant qt[..u] == FirstWords(w, m, h, u)
    {
      PutFive(w, m, h, qt, u);
      u := u + 5;
    }
    PutFirst(w, m, h, qt, 15, Sb0(w[15]), 0);
    for i := 16 to 18
      invariant qt[..i] == FirstWords(w, m, h, i)
    {
      PutExpanded(w, m, h, qt, i);
    }
    for i := 18 to 32
      invariant qt[..i] == FirstWords(w, m, h, i)
    {
      PutExpanded(w, m, h, qt, i);
    }
    assert qt[..32] == qt[..];
  }

  /** The five functions take their turns. */
  lemma Turns(w: seq<bv64>, u: nat)
    requires u + 5 <= |w| && u % 5 == 0
    ensures Mixed(w, u) == Sb0(w[u]) && Mixed(w, u + 1) == Sb1(w[u + 1]) && Mixed(w, u + 2) == Sb2(w[u + 2])
    ensures Mixed(w, u + 3) == Sb3(w[u + 3]) && Mixed(w, u + 4) == Sb4(w[u + 4])
  {
    hide Sb0, Sb1, Sb2, Sb3, Sb4;
  }

  /** One turn of the loop over the first fifteen words. */
  method PutFive(w: seq<bv64>, ghost m: seq<bv64>, h: seq<bv64>, qt: array<bv64>, u: nat)
    requires |w| == |m| == |h| == 16 && u < 15 && u % 5 == 0
    requires qt.Length == 32 && qt[..u] == FirstWords(w, m, h, u)
    modifies qt
    ensures qt[..u + 5] == FirstWords(w, m, h, u + 5)
  {
    hide FirstWords, Mixed, Sb0, Sb1, Sb2, Sb3, Sb4;
    Turns(w, u);
    PutFirst(w, m, h, qt, u, Sb0(w[u]), u + 1);
    PutFirst(w, m, h, qt, u + 1, Sb1(w[u + 1]), u + 2);
    PutFirst(w, m, h, qt, u + 2, Sb2(w[u + 2]), u + 3);
    PutFirst(w, m, h, qt, u + 3, Sb3(w[u + 3]), u + 4);
    PutFirst(w, m, h, qt, u + 4, Sb4(w[u + 4]), u + 5);
  }

  // The table-driven build.

  /** A row of indices into the words computed so far. */
  datatype QRow = QRow(i0: nat, i1: nat, i2: nat, i3: nat, i4: nat, i5: nat, i6: nat, i7: nat,
                       i8: nat, i9: nat, i10: nat, i11: nat, i12: nat, i13: nat, i14: nat, i15: nat)

  /** A row of message indices, three of them followed by the rotation, and one chain index. */
  datatype MRow = MRow(j0: nat, r0: nat, j3: nat, r3: nat, j7: nat, j10: nat, r10: nat)

  function I16(i: nat): QRow
    requires 16 <= i < 32
  {
    if i == 16 then QRow(0, 1, 2, 3, 4, 5, 6, 7, 8, 9, 10, 11, 12, 13, 14, 15)
    else if i == 17 then QRow(1, 2, 3, 4, 5, 6, 7, 8, 9, 10, 11, 12, 13, 14, 15, 16)
    else if i == 18 then QRow(2, 3, 4, 5, 6, 7, 8, 9, 10, 11, 12, 13, 14, 15, 16, 17)
    else if i == 19 then QRow(3, 4, 5, 6, 7, 8, 9, 10, 11, 12, 13, 14, 15, 16, 17, 18)
    else if i == 20 then QRow(4, 5, 6, 7, 8, 9, 10, 11, 12, 13, 14, 15, 16, 17, 18, 19)
    else if i == 21 then QRow(5, 6, 7, 8, 9, 10, 11, 12, 13, 14, 15, 16, 17, 18, 19, 20)
    else if i == 22 then QRow(6, 7, 8, 9, 10, 11, 12, 13, 14, 15, 16, 17, 18, 19, 20, 21)
    else if i == 23 then QRow(7, 8, 9, 10, 11, 12, 13, 14, 15, 16, 17, 18, 19, 20, 21, 22)
    else if i == 24 then QRow(8, 9, 10, 11, 12, 13, 14, 15, 16, 17, 18, 19, 20, 21, 22, 23)
    else if i == 25 then QRow(9, 10, 11, 12, 13, 14, 15, 16, 17, 18, 19, 20, 21, 22, 23, 24)
    else if i == 26 then QRow(10, 11, 12, 13, 14, 15, 16, 17, 18, 19, 20, 21, 22, 23, 24, 25)
    else if i == 27 then QRow(11, 12, 13, 14, 15, 16, 17, 18, 19, 20, 21, 22, 23, 24, 25, 26)
    else if i == 28 then QRow(12, 13, 14, 15, 16, 17, 18, 19, 20, 21, 22, 23, 24, 25, 26, 27)
    else if i == 29 then QRow(13, 14, 15, 16, 17, 18, 19, 20, 21, 22, 23, 24, 25, 26, 27, 28)
    else if i == 30 then QRow(14, 15, 16, 17, 18, 19, 20, 21, 22, 23, 24, 25, 26, 27, 28, 29)
    else QRow(15, 16, 17, 18, 19, 20, 21, 22, 23, 24, 25, 26, 27, 28, 29, 30)
  }

  function M16(i: nat): MRow
    requires 16 <= i < 32
  {
    if i == 16 then MRow(0, 1, 3, 4, 7, 10, 11)
    else if i == 17 then MRow(1, 2, 4, 5, 8, 11, 12)
    else if i == 18 then MRow(2, 3, 5, 6, 9, 12, 13)
    else if i == 19 then MRow(3, 4, 6, 7, 10, 13, 14)
    else if i == 20 then MRow(4, 5, 7, 8, 11, 14, 15)
    else if i == 21 then MRow(5, 6, 8, 9, 12, 15, 16)
    else if i == 22 then MRow(6, 7, 9, 10, 13, 0, 1)
    else if i == 23 then MRow(7, 8, 10, 11, 14, 1, 2)
    else if i == 24 then MRow(8, 9, 11, 12, 15, 2, 3)
    else if i == 25 then MRow(9, 10, 12, 13, 0, 3, 4)
    else if i == 26 then MRow(10, 11, 13, 14, 1, 4, 5)
    else if i == 27 then MRow(11, 12, 14, 15, 2, 5, 6)
    else if i == 28 then MRow(12, 13, 15, 16, 3, 6, 7)
    else if i == 29 then MRow(13, 14, 0, 1, 4, 7, 8)
    else if i == 30 then MRow(14, 15, 1, 2, 5, 8, 9)
    else MRow(15, 16, 2, 3, 6, 9, 10)
  }

  /** The index row of word i is the sixteen positions before it. */
  lemma IndexRows(i: nat)
    requires 16 <= i < 32
    ensures I16(i) == QRow(i - 16, i - 15, i - 14, i - 13, i - 12, i - 11, i - 10, i - 9, i - 8, i - 7, i - 6, i - 5, i - 4, i - 3, i - 2, i - 1)
  {
  }

  /** The message row of word i is the masked positions, each with its rotation. */
  lemma MessageRows(i: nat)
    requires 16 <= i < 32
    ensures var r := M16(i);
      r.j0 == (i - 16) % 16 && r.j3 == (i - 16 + 3) % 16 && r.j7 == (i - 16 + 7) % 16 && r.j10 == (i - 16 + 10) % 16 &&
      r.r0 == r.j0 + 1 && r.r3 == r.j3 + 1 && r.r10 == r.j10 + 1
  {
  }

  predicate Inside(r: QRow, n: nat) {
    r.i0 < n && r.i1 < n && r.i2 < n && r.i3 < n && r.i4 < n && r.i5 < n && r.i6 < n && r.i7 < n && r.i8 < n && r.i9 < n && r.i10 < n && r.i11 < n && r.i12 < n && r.i13 < n && r.i14 < n && r.i15 < n
  }

  predicate InsideM(r: MRow) {
    r.j0 < 16 && r.j3 < 16 && r.j7 < 16 && r.j10 < 16 && 0 < r.r0 < 64 && 0 < r.r3 < 64 && 0 < r.r10 < 64
  }

  function RowSum1(q: seq<bv64>, r: QRow): bv64
    requires Inside(r, |q|)
  {
    Sum16(Sb1(q[r.i0]), Sb2(q[r.i1]), Sb3(q[r.i2]), Sb0(q[r.i3]),
      Sb1(q[r.i4]), Sb2(q[r.i5]), Sb3(q[r.i6]), Sb0(q[r.i7]),
      Sb1(q[r.i8]), Sb2(q[r.i9]), Sb3(q[r.i10]), Sb0(q[r.i11]),
      Sb1(q[r.i12]), Sb2(q[r.i13]), Sb3(q[r.i14]), Sb0(q[r.i15]))
  }

  function RowSum2(q: seq<bv64>, r: QRow): bv64
    requires Inside(r, |q|)
  {
    Sum16(q[r.i0], Rb1(q[r.i1]), q[r.i2], Rb2(q[r.i3]),
      q[r.i4], Rb3(q[r.i5]), q[r.i6], Rb4(q[r.i7]),
      q[r.i8], Rb5(q[r.i9]), q[r.i10], Rb6(q[r.i11]),
      q[r.i12], Rb7(q[r.i13]), Sb4(q[r.i14]), Sb5(q[r.i15]))
  }

  function RowAddElt(m: seq<bv64>, h: seq<bv64>, r: MRow, j16: nat): bv64
    requires |m| == |h| == 16 && InsideM(r)
  {
    Elt(Rotl(m[r.j0], r.r0 as bv7), Rotl(m[r.j3], r.r3 as bv7), Rotl(m[r.j10], r.r10 as bv7), Kb(j16), h[r.j7])
  }

  lemma TableRow(q: seq<bv64>, m: seq<bv64>, h: seq<bv64>, i: nat)
    requires |m| == |h| == 16 <= i < 32 && i <= |q|
    ensures Inside(I16(i), |q|) && InsideM(M16(i))
    ensures RowSum1(q, I16(i)) == Sum1(q, i) && RowSum2(q, I16(i)) == Sum2(q, i)
    ensures RowAddElt(m, h, M16(i), i) == AddElt(m, h, i - 16)
  {
    hide Sum1, Sum2, RowSum1, RowSum2, I16, M16, RowAddElt, AddElt;
    IndexRows(i);
    TableSums(q, I16(i), i);
    TableElt(m, h, i);
  }

  lemma TableSums(q: seq<bv64>, r: QRow, i: nat)
    requires 16 <= i <= |q|
    requires r == QRow(i - 16, i - 15, i - 14, i - 13, i - 12, i - 11, i - 10, i - 9, i - 8, i - 7, i - 6, i - 5, i - 4, i - 3, i - 2, i - 1)
    ensures Inside(r, |q|) && RowSum1(q, r) == Sum1(q, i) && RowSum2(q, r) == Sum2(q, i)
  {
    hide Sb0, Sb1, Sb2, Sb3, Sb4, Sb5, Rb1, Rb2, Rb3, Rb4, Rb5, Rb6, Rb7, Sum16;
  }

  lemma TableElt(m: seq<bv64>, h: seq<bv64>, i: nat)
    requires |m| == |h| == 16 <= i < 32
    ensures InsideM(M16(i)) && RowAddElt(m, h, M16(i), i) == AddElt(m, h, i - 16)
  {
    hide Rotl, Kb, Elt, M16;
    MessageRows(i);
  }

  /** One line of the straight-line expansion. */
  method PutWord(ghost w: seq<bv64>, m: seq<bv64>, h: seq<bv64>, qt: array<bv64>, i: nat)
    requires |w| == |m| == |h| == 16 <= i < 32 == qt.Length && qt[..i] == FirstWords(w, m, h, i)
    modifies qt
    ensures qt[..i + 1] == FirstWords(w, m, h, i + 1)
  {
    hide RowSum1, RowSum2, RowAddElt, Sum1, Sum2, AddElt, I16, M16, Inside, InsideM, Add64;
    var q := qt[..i];
    TableRow(q, m, h, i);
    qt[i] := Add64(if i < 18 then RowSum1(q, I16(i)) else RowSum2(q, I16(i)), RowAddElt(m, h, M16(i), i));
    assert qt[..i + 1] == q + [qt[i]];
  }

  method ExpandTable(m: seq<bv64>, h: seq<bv64>, qt: array<bv64>)
    requires |m| == |h| == 16 && qt.Length == 32
    modifies qt
    ensures qt[..] == Expansion(m, h)
  {
    hide FirstWords, Sums;
    ghost var w := Sums(m, h);
    NoWords(w, m, h);
    assert qt[..0] == [];
    Expand0(w, m, h, qt);
    Expand8(w, m, h, qt, 8);
    ExpandEight(w, m, h, qt, 16);
    ExpandEight(w, m, h, qt, 24);
    assert qt[..32] == qt[..];
  }

  lemma SumIs(w: seq<bv64>, m: seq<bv64>, h: seq<bv64>)
    requires |m| == |h| == 16 && w == Sums(m, h)
    ensures forall i :: 0 <= i < 16 ==> w[i] == MakeW(m, h, i)
  {
    hide MakeW;
  }

  method Expand0(ghost w: seq<bv64>, m: seq<bv64>, h: seq<bv64>, qt: array<bv64>)
    requires |w| == |m| == |h| == 16 && w == Sums(m, h) && qt.Length == 32 && qt[..0] == FirstWords(w, m, h, 0)
    modifies qt
    ensures qt[..8] == FirstWords(w, m, h, 8)
  {
    hide FirstWords, Expand, Add64, MakeW, Sums, Sb0, Sb1, Sb2, Sb3, Sb4;
    SumIs(w, m, h);
    PutFirst(w, m, h, qt, 0, Sb0(MakeW(m, h, 0)), 1);
    PutFirst(w, m, h, qt, 1, Sb1(MakeW(m, h, 1)), 2);
    PutFirst(w, m, h, qt, 2, Sb2(MakeW(m, h, 2)), 3);
    PutFirst(w, m, h, qt, 3, Sb3(MakeW(m, h, 3)), 4);
    PutFirst(w, m, h, qt, 4, Sb4(MakeW(m, h, 4)), 5);
    PutFirst(w, m, h, qt, 5, Sb0(MakeW(m, h, 5)), 6);
    PutFirst(w, m, h, qt, 6, Sb1(MakeW(m, h, 6)), 7);
    PutFirst(w, m, h, qt, 7, Sb2(MakeW(m, h, 7)), 8);
  }

  method Expand8(ghost w: seq<bv64>, m: seq<bv64>, h: seq<bv64>, qt: array<bv64>, ghost i: nat)
    requires |w| == |m| == |h| == 16 && w == Sums(m, h) && qt.Length == 32 && i == 8 && qt[..i] == FirstWords(w, m, h, i)
    modifies qt
    ensures qt[..16] == FirstWords(w, m, h, 16)
  {
    hide FirstWords, Expand, Add64, MakeW, Sums, Sb0, Sb1, Sb2, Sb3, Sb4;
    SumIs(w, m, h);
    PutFirst(w, m, h, qt, 8, Sb3(MakeW(m, h, 8)), 9);
    PutFirst(w, m, h, qt, 9, Sb4(MakeW(m, h, 9)), 10);
    PutFirst(w, m, h, qt, 10, Sb0(MakeW(m, h, 10)), 11);
    PutFirst(w, m, h, qt, 11, Sb1(MakeW(m, h, 11)), 12);
    PutFirst(w, m, h, qt, 12, Sb2(MakeW(m, h, 12)), 13);
    PutFirst(w, m, h, qt, 13, Sb3(MakeW(m, h, 13)), 14);
    PutFirst(w, m, h, qt, 14, Sb4(MakeW(m, h, 14)), 15);
    PutFirst(w, m, h, qt, 15, Sb0(MakeW(m, h, 15)), 0);
  }

  /** Eight lines of the last sixteen, from i on. */
  method ExpandEight(ghost w: seq<bv64>, m: seq<bv64>, h: seq<bv64>, qt: array<bv64>, i: nat)
    requires |w| == |m| == |h| == 16 <= i <= 24 && qt.Length == 32 && qt[..i] == FirstWords(w, m, h, i)
    modifies qt
    ensures qt[..i + 8] == FirstWords(w, m, h, i + 8)
  {
    hide FirstWords;
    PutWord(w, m, h, qt, i);
    PutWord(w, m, h, qt, i + 1);
    PutWord(w, m, h, qt, i + 2);
    PutWord(w, m, h, qt, i + 3);
    PutWord(w, m, h, qt, i + 4);
    PutWord(w, m, h, qt, i + 5);
    PutWord(w, m, h, qt, i + 6);
    PutWord(w, m, h, qt, i + 7);
  }

  /** Both builds fill the same 32 words. */
  method BuildsAgree(m: seq<bv64>, h: seq<bv64>) returns (compact: seq<bv64>, table: seq<bv64>)
    requires |m| == |h| == 16
    ensures compact == table == Expansion(m, h)
  {
    hide Expansion;
    var a, b := new bv64[32], new bv64[32];
    ExpandCompact(m, h, a);
    ExpandTable(m, h, b);
    compact, table := a[..], b[..];
  }
}

/** The last rounds of Fugue. The code rotates the state after each turn of a final
    round; here that is also done without moving a word. */
module FugueClose {
  import opened Bytes
  import opened FugueRing
  import opened Words

  // What the macros do to the words.

  lemma RunNext(ops: seq<Op>, k: nat, s: seq<bv32>, q: bv32, mix: Quad -> Quad)
    requires All(ops, |s|) && k < |ops|
    ensures Run(ops[..k + 1], s, q, mix) == Exec(ops[k], Run(ops[..k], s, q, mix), q, mix)
    ensures k == 0 ==> Run(ops[..k + 1], s, q, mix) == Exec(ops[k], s, q, mix)
    ensures k + 1 == |ops| ==> ops[..k + 1] == ops
  {
    hide Exec;
    assert ops[..k + 1][..k] == ops[..k];
    if k == 0 {
      assert ops[..k] == [];
    }
  }

  /** TIX2 at its fixed positions. */
  lemma Tix2Does(s: seq<bv32>, q: bv32, mix: Quad -> Quad, k: nat)
    requires |s| == 30 && k < 30
    ensures Run(Tix(Small), s, q, mix)[k] ==
      if k == 0 then q else if k == 1 then Xor32(s[1], s[24]) else if k == 8 then Xor32(s[8], q)
      else if k == 10 then Xor32(s[10], s[0]) else s[k]
  {
    hide Xor32, Run;
    var ops := Tix(Small);
    RunNext(ops, 0, s, q, mix);
    RunNext(ops, 1, s, q, mix);
    RunNext(ops, 2, s, q, mix);
    RunNext(ops, 3, s, q, mix);
  }

  /** TIX3. */
  lemma Tix3Does(s: seq<bv32>, q: bv32, mix: Quad -> Quad, k: nat)
    requires |s| == 36 && k < 36
    ensures Run(Tix(Medium), s, q, mix)[k] ==
      if k == 0 then q else if k == 1 then Xor32(s[1], s[27]) else if k == 4 then Xor32(s[4], s[30])
      else if k == 8 then Xor32(s[8], q) else if k == 16 then Xor32(s[16], s[0]) else s[k]
  {
    hide Xor32, Run;
    var ops := Tix(Medium);
    RunNext(ops, 0, s, q, mix);
    RunNext(ops, 1, s, q, mix);
    RunNext(ops, 2, s, q, mix);
    RunNext(ops, 3, s, q, mix);
    RunNext(ops, 4, s, q, mix);
  }

  /** TIX4. */
  lemma Tix4Does(s: seq<bv32>, q: bv32, mix: Quad -> Quad, k: nat)
    requires |s| == 36 && k < 36
    ensures Run(Tix(Big), s, q, mix)[k] ==
      if k == 0 then q else if k == 1 then Xor32(s[1], s[24]) else if k == 4 then Xor32(s[4], s[27])
      else if k == 7 then Xor32(s[7], s[30]) else if k == 8 then Xor32(s[8], q)
      else if k == 22 then Xor32(s[22], s[0]) else s[k]
  {
    hide Xor32, Run;
    var ops := Tix(Big);
    RunNext(ops, 0, s, q, mix);
    RunNext(ops, 1, s, q, mix);
    RunNext(ops, 2, s, q, mix);
    RunNext(ops, 3, s, q, mix);
    RunNext(ops, 4, s, q, mix);
    RunNext(ops, 5, s, q, mix);
  }

  lemma RunThree(ops: seq<Op>, s: seq<bv32>, q: bv32, mix: Quad -> Quad)
    requires |ops| == 3 && All(ops, |s|)
    ensures Run(ops, s, q, mix) == Exec(ops[2], Exec(ops[1], Exec(ops[0], s, q, mix), q, mix), q, mix)
  {
    hide Exec;
    var a, b := ops[..1], ops[..2];
    assert b[..1] == a && a[..0] == [];
    assert Run(a, s, q, mix) == Exec(ops[0], s, q, mix);
    assert Run(b, s, q, mix) == Exec(ops[1], Run(a, s, q, mix), q, mix);
  }

  function XorAt(s: seq<bv32>, i: nat, j: nat): (t: seq<bv32>)
    requires i < |s| && j < |s|
    ensures |t| == |s|
  {
    s[i := Xor32(s[i], s[j])]
  }

  lemma ThreeRun(ops: seq<Op>, i: nat, j: nat, s: seq<bv32>, q: bv32, mix: Quad -> Quad)
    requires i + 2 < |s| && j + 2 < |s|
    requires ops == [Xor(i, j), Xor(i + 1, j + 1), Xor(i + 2, j + 2)]
    ensures All(ops, |s|) && Run(ops, s, q, mix) == XorAt(XorAt(XorAt(s, i, j), i + 1, j + 1), i + 2, j + 2)
  {
    RunThree(ops, s, q, mix);
    hide Run, Xor32;
  }

  lemma ThreeUpdates<W>(s: seq<W>, i: nat, j: nat, f: (W, W) -> W)
    requires i + 3 <= |s| && j + 3 <= |s| && (i + 3 <= j || j + 3 <= i)
    ensures s[i := f(s[i], s[j])][i + 1 := f(s[i + 1], s[j + 1])][i + 2 := f(s[i + 2], s[j + 2])] ==
      var a := s[i := f(s[i], s[j])]; var b := a[i + 1 := f(a[i + 1], a[j + 1])]; b[i + 2 := f(b[i + 2], b[j + 2])]
  {
  }

  /** Three words from i on with the three from j on xored into them. */
  function Xored(s: seq<bv32>, i: nat, j: nat): (t: seq<bv32>)
    requires i + 3 <= |s| && j + 3 <= |s|
    ensures |t| == |s|
  {
    s[i := Xor32(s[i], s[j])][i + 1 := Xor32(s[i + 1], s[j + 1])][i + 2 := Xor32(s[i + 2], s[j + 2])]
  }

  lemma XoredDoes(s: seq<bv32>, i: nat, j: nat, k: nat)
    requires i + 3 <= |s| && j + 3 <= |s| && k < |s|
    ensures Xored(s, i, j)[k] == if i <= k < i + 3 then Xor32(s[k], s[k - i + j]) else s[k]
  {
    hide Xor32;
  }

  /** Three xors of words that none of them writes. */
  lemma ThreeXors(ops: seq<Op>, i: nat, j: nat, s: seq<bv32>, q: bv32, mix: Quad -> Quad)
    requires i + 3 <= |s| && j + 3 <= |s| && (i + 3 <= j || j + 3 <= i)
    requires ops == [Xor(i, j), Xor(i + 1, j + 1), Xor(i + 2, j + 2)]
    ensures All(ops, |s|) && Run(ops, s, q, mix) == Xored(s, i, j)
  {
    hide Xor32, Run;
    ThreeRun(ops, i, j, s, q, mix);
    ThreeUpdates(s, i, j, Xor32);
  }

  /** CMIX and SMIX: words 4 to 6 go into the first three and into those half a state
      away, and the first four are mixed. */
  lemma CmixSmixDoes(v: Variant, s: seq<bv32>, mix: Quad -> Quad)
    requires |s| == v.Size()
    ensures Run(CmixSmix(v), s, 0, mix) == Exec(Mix(0, 1, 2, 3), Xored(Xored(s, 0, 4), v.Size() / 2, 4), 0, mix)
  {
    var c := v.Size() / 2;
    var low, high, last := [Xor(0, 4), Xor(1, 5), Xor(2, 6)], [Xor(c, 4), Xor(c + 1, 5), Xor(c + 2, 6)], [Mix(0, 1, 2, 3)];
    CmixSmixParts(v, low, high, last);
    hide Xored, Run, Exec, CmixSmix, All;
    ThreeXors(low, 0, 4, s, 0, mix);
    var t := Run(low, s, 0, mix);
    ThreeXors(high, c, 4, t, 0, mix);
    RunParts(low, high, last, s, mix);
  }

  lemma CmixSmixParts(v: Variant, low: seq<Op>, high: seq<Op>, last: seq<Op>)
    requires var c := v.Size() / 2;
      low == [Xor(0, 4), Xor(1, 5), Xor(2, 6)] && high == [Xor(c, 4), Xor(c + 1, 5), Xor(c + 2, 6)] && last == [Mix(0, 1, 2, 3)]
    ensures CmixSmix(v) == low + high + last && All(low, v.Size()) && All(high, v.Size()) && All(last, v.Size())
  {
  }

  lemma RunParts(low: seq<Op>, high: seq<Op>, last: seq<Op>, s: seq<bv32>, mix: Quad -> Quad)
    requires All(low, |s|) && All(high, |s|) && All(last, |s|) && |last| == 1
    ensures All(low + high + last, |s|)
    ensures Run(low + high + last, s, 0, mix) == Exec(last[0], Run(high, Run(low, s, 0, mix), 0, mix), 0, mix)
  {
    hide Run, Exec;
    RunAppend(low + high, last, s, 0, mix);
    RunAppend(low, high, s, 0, mix);
    RunOne(last, Run(high, Run(low, s, 0, mix), 0, mix), 0, mix);
  }

  lemma RunOne(ops: seq<Op>, s: seq<bv32>, q: bv32, mix: Quad -> Quad)
    requires |ops| == 1 && All(ops, |s|)
    ensures Run(ops, s, q, mix) == Exec(ops[0], s, q, mix)
  {
    hide Exec;
    assert ops[..0] == [];
  }

  /** SMIX. */
  lemma SmixDoes(s: seq<bv32>, q: bv32, mix: Quad -> Quad, k: nat)
    requires 4 <= |s| && k < |s|
    ensures var m := mix((s[0], s[1], s[2], s[3]));
      Exec(Mix(0, 1, 2, 3), s, q, mix)[k] == if k == 0 then m.0 else if k == 1 then m.1 else if k == 2 then m.2 else if k == 3 then m.3 else s[k]
  {
  }

  // The final rounds.

  function XorInto(s: seq<bv32>, i: nat): (t: seq<bv32>)
    requires i < |s|
    ensures |t| == |s|
  {
    s[i := Xor32(s[i], s[0])]
  }

  /** Turn i of a final round xors the first word into word 4, and into the head of
      every further column, or the word after it when the column has had its turn. */
  function Target(v: Variant, i: nat, j: nat): (x: nat)
    requires i < v.Columns() && j < v.Columns()
    ensures 0 < x < v.Size()
  {
    if j == 0 then 4 else if j <= i then j * v.Width() + 1 else j * v.Width()
  }

  function XorColumns(v: Variant, i: nat, n: nat, s: seq<bv32>): (t: seq<bv32>)
    requires i < v.Columns() && n <= v.Columns() && |s| == v.Size()
    ensures |t| == |s|
  {
    if n == 0 then s else XorInto(XorColumns(v, i, n - 1, s), Target(v, i, n - 1))
  }

  /** The last rotation is one word short of a column. */
  function Turn(v: Variant, i: nat): nat
    requires i < v.Columns()
  {
    if i + 1 < v.Columns() then v.Width() else v.Width() - 1
  }

  /** The first i turns of a final round. */
  function FinalSteps(v: Variant, i: nat, s: seq<bv32>, mix: Quad -> Quad): (t: seq<bv32>)
    requires i <= v.Columns() && |s| == v.Size()
    ensures |t| == v.Size()
  {
    if i == 0 then s
    else
      var s := XorColumns(v, i - 1, v.Columns(), FinalSteps(v, i - 1, s, mix));
      Run(Smix(v.Size(), 0, 1, 2, 3), Ror(s, Turn(v, i - 1)), 0, mix)
  }

  function FinalRounds(v: Variant, k: nat, s: seq<bv32>, mix: Quad -> Quad): (t: seq<bv32>)
    requires |s| == v.Size()
    ensures |t| == v.Size()
  {
    if k == 0 then s else FinalSteps(v, v.Columns(), FinalRounds(v, k - 1, s, mix), mix)
  }

  function Finish(v: Variant, mix: Quad -> Quad, s: seq<bv32>): (t: seq<bv32>)
    requires |s| == v.Size()
    ensures |t| == v.Size()
  {
    XorColumns(v, 0, v.Columns(), FinalRounds(v, 13, SubRounds(v, v.CloseRounds(), s, mix), mix))
  }

  /** Four words of a column; the first column is read from its second word on. */
  function ColumnWords(v: Variant, j: nat, s: seq<bv32>): (ws: seq<bv32>)
    requires j < v.Columns() && |s| == v.Size()
    ensures |ws| == 4
  {
    var x := if j == 0 then 1 else j * v.Width();
    s[x..x + 4]
  }

  function ColumnsOut(v: Variant, n: nat, s: seq<bv32>): (ws: seq<bv32>)
    requires n <= v.Columns() && |s| == v.Size()
    ensures |ws| == 4 * n
  {
    if n == 0 then [] else ColumnsOut(v, n - 1, s) + ColumnWords(v, n - 1, s)
  }

  /** The words of the finished state that make the digest. */
  function Output(v: Variant, words: nat, s: seq<bv32>): (ws: seq<bv32>)
    requires |s| == v.Size() && words <= 4 * v.Columns()
    ensures |ws| == words
  {
    ColumnsOut(v, v.Columns(), s)[..words]
  }

  // A final round with no rotation.

  /** Where logical word 0 lies after i turns. */
  function TurnedTo(v: Variant, i: nat): (k: nat)
    requires i <= v.Columns()
    ensures k < v.Size()
  {
    if i == 0 then 0 else if i == v.Columns() then 1 else v.Size() - i * v.Width()
  }

  function XorOps(v: Variant, i: nat, n: nat): (ops: seq<Op>)
    requires i < v.Columns() && n <= v.Columns()
    ensures |ops| == n && All(ops, v.Size())
  {
    seq(n, j requires 0 <= j < n => Xor(Target(v, i, j), 0))
  }

  lemma {:induction false} XorColumnsRun(v: Variant, i: nat, n: nat, s: seq<bv32>, mix: Quad -> Quad)
    requires i < v.Columns() && n <= v.Columns() && |s| == v.Size()
    ensures XorColumns(v, i, n, s) == Run(XorOps(v, i, n), s, 0, mix)
  {
    hide Xor32, Target;
    if n > 0 {
      XorColumnsRun(v, i, n - 1, s, mix);
      assert XorOps(v, i, n)[..n - 1] == XorOps(v, i, n - 1);
    }
  }

  function TurnOps(v: Variant, i: nat): (ops: seq<Op>)
    requires i < v.Columns()
    ensures All(ops, v.Size())
  {
    var n := v.Size();
    Then(n, Renumber(XorOps(v, i, v.Columns()), n, TurnedTo(v, i)), Renumber(Smix(n, 0, 1, 2, 3), n, TurnedTo(v, i + 1)))
  }

  function FinalOps(v: Variant, i: nat): (ops: seq<Op>)
    requires i <= v.Columns()
    ensures All(ops, v.Size())
  {
    if i == 0 then [] else Then(v.Size(), FinalOps(v, i - 1), TurnOps(v, i - 1))
  }

  lemma RorRot(v: Variant, i: nat, s: seq<bv32>)
    requires i < v.Columns() && |s| == v.Size()
    ensures Ror(Rot(s, TurnedTo(v, i)), Turn(v, i)) == Rot(s, TurnedTo(v, i + 1))
  {
    hide Ror, Rot;
    RorBack(s, TurnedTo(v, i), Turn(v, i), TurnedTo(v, i + 1));
  }

  lemma RorBack(s: seq<bv32>, k: nat, m: nat, k': nat)
    requires k < |s| && m <= |s| && k' < |s| && (k' == k - m || k' == k - m + |s|)
    ensures Ror(Rot(s, k), m) == Rot(s, k')
  {
  }

  lemma TurnRefines(v: Variant, i: nat, s: seq<bv32>, mix: Quad -> Quad)
    requires i < v.Columns() && |s| == v.Size()
    ensures Rot(Run(TurnOps(v, i), s, 0, mix), TurnedTo(v, i + 1)) ==
      Run(Smix(v.Size(), 0, 1, 2, 3), Ror(XorColumns(v, i, v.Columns(), Rot(s, TurnedTo(v, i))), Turn(v, i)), 0, mix)
  {
    hide All, Run, Renumber, XorOps, TurnedTo, Turn, Ror, Rot, XorColumns, Smix;
    var n, k, k' := v.Size(), TurnedTo(v, i), TurnedTo(v, i + 1);
    var xors, smix := XorOps(v, i, v.Columns()), Smix(n, 0, 1, 2, 3);
    var t := Run(Renumber(xors, n, k), s, 0, mix);
    RunAppend(Renumber(xors, n, k), Renumber(smix, n, k'), s, 0, mix);
    RunRot(xors, s, k, 0, mix);
    XorColumnsRun(v, i, v.Columns(), Rot(s, k), mix);
    RorRot(v, i, t);
    RunRot(smix, t, k', 0, mix);
  }

  /** The turns of a final round, on words that stay. */
  lemma {:induction false} FinalOpsRefine(v: Variant, i: nat, s: seq<bv32>, mix: Quad -> Quad)
    requires i <= v.Columns() && |s| == v.Size()
    ensures Rot(Run(FinalOps(v, i), s, 0, mix), TurnedTo(v, i)) == FinalSteps(v, i, s, mix)
  {
    hide All, TurnOps, TurnedTo, Turn, Ror, Rot, XorColumns, Smix, FinalOps, FinalSteps, Run;
    if i == 0 {
      NoTurn(v, s, mix);
    } else {
      FinalOpsRefine(v, i - 1, s, mix);
      OneMoreTurn(v, i, s, mix);
    }
  }

  lemma OneMoreTurn(v: Variant, i: nat, s: seq<bv32>, mix: Quad -> Quad)
    requires 0 < i <= v.Columns() && |s| == v.Size()
    requires Rot(Run(FinalOps(v, i - 1), s, 0, mix), TurnedTo(v, i - 1)) == FinalSteps(v, i - 1, s, mix)
    ensures Rot(Run(FinalOps(v, i), s, 0, mix), TurnedTo(v, i)) == FinalSteps(v, i, s, mix)
  {
    hide All, TurnOps, TurnedTo, Turn, Ror, Rot, XorColumns, Smix, Run;
    RunAppend(FinalOps(v, i - 1), TurnOps(v, i - 1), s, 0, mix);
    TurnRefines(v, i - 1, Run(FinalOps(v, i - 1), s, 0, mix), mix);
  }

  lemma NoTurn(v: Variant, s: seq<bv32>, mix: Quad -> Quad)
    requires |s| == v.Size()
    ensures Rot(Run(FinalOps(v, 0), s, 0, mix), TurnedTo(v, 0)) == FinalSteps(v, 0, s, mix)
  {
  }

  lemma NextTurn(v: Variant, i: nat, before: seq<Op>, turn: seq<Op>)
    requires i < v.Columns() && before == FinalOps(v, i) && turn == TurnOps(v, i)
    ensures FinalOps(v, i + 1) == before + turn
  {
    hide TurnOps, All;
  }

  /** A final round of the small variant, without moving the words. */
  lemma FinalSmall(s: seq<bv32>, mix: Quad -> Quad)
    requires |s| == 30
    ensures var ops :=
        [Xor(4, 0), Xor(15, 0), Mix(15, 16, 17, 18)] +
        [Xor(19, 15), Xor(1, 15), Mix(1, 2, 3, 4)];
      All(ops, 30) && FinalSteps(Small, 2, s, mix) == Rot(Run(ops, s, 0, mix), 1)
  {
    hide All, Run, Rot, FinalSteps, FinalOps;
    FinalOpsRefine(Small, 2, s, mix);
    SmallOps();
  }

  lemma SmallOps()
    ensures FinalOps(Small, 2) ==
        [Xor(4, 0), Xor(15, 0), Mix(15, 16, 17, 18)] +
        [Xor(19, 15), Xor(1, 15), Mix(1, 2, 3, 4)]
  {
    SmallTurns();
    hide TurnOps, All;
    assert FinalOps(Small, 0) == [];
    NextTurn(Small, 0, FinalOps(Small, 0), [Xor(4, 0), Xor(15, 0), Mix(15, 16, 17, 18)]);
    NextTurn(Small, 1, FinalOps(Small, 1), [Xor(19, 15), Xor(1, 15), Mix(1, 2, 3, 4)]);
  }

  lemma SmallTurns()
    ensures TurnOps(Small, 0) == [Xor(4, 0), Xor(15, 0), Mix(15, 16, 17, 18)]
    ensures TurnOps(Small, 1) == [Xor(19, 15), Xor(1, 15), Mix(1, 2, 3, 4)]
  {
  }

  /** Of the medium one. */
  lemma FinalMedium(s: seq<bv32>, mix: Quad -> Quad)
    requires |s| == 36
    ensures var ops :=
        [Xor(4, 0), Xor(12, 0), Xor(24, 0), Mix(24, 25, 26, 27)] +
        [Xor(28, 24), Xor(1, 24), Xor(12, 24), Mix(12, 13, 14, 15)] +
        [Xor(16, 12), Xor(25, 12), Xor(1, 12), Mix(1, 2, 3, 4)];
      All(ops, 36) && FinalSteps(Medium, 3, s, mix) == Rot(Run(ops, s, 0, mix), 1)
  {
    hide All, Run, Rot, FinalSteps, FinalOps;
    FinalOpsRefine(Medium, 3, s, mix);
    MediumOps();
  }

  lemma MediumOps()
    ensures FinalOps(Medium, 3) ==
        [Xor(4, 0), Xor(12, 0), Xor(24, 0), Mix(24, 25, 26, 27)] +
        [Xor(28, 24), Xor(1, 24), Xor(12, 24), Mix(12, 13, 14, 15)] +
        [Xor(16, 12), Xor(25, 12), Xor(1, 12), Mix(1, 2, 3, 4)]
  {
    MediumTurns();
    hide TurnOps, All;
    assert FinalOps(Medium, 0) == [];
    NextTurn(Medium, 0, FinalOps(Medium, 0), [Xor(4, 0), Xor(12, 0), Xor(24, 0), Mix(24, 25, 26, 27)]);
    NextTurn(Medium, 1, FinalOps(Medium, 1), [Xor(28, 24), Xor(1, 24), Xor(12, 24), Mix(12, 13, 14, 15)]);
    NextTurn(Medium, 2, FinalOps(Medium, 2), [Xor(16, 12), Xor(25, 12), Xor(1, 12), Mix(1, 2, 3, 4)]);
  }

  lemma MediumTurns()
    ensures TurnOps(Medium, 0) == [Xor(4, 0), Xor(12, 0), Xor(24, 0), Mix(24, 25, 26, 27)]
    ensures TurnOps(Medium, 1) == [Xor(28, 24), Xor(1, 24), Xor(12, 24), Mix(12, 13, 14, 15)]
    ensures TurnOps(Medium, 2) == [Xor(16, 12), Xor(25, 12), Xor(1, 12), Mix(1, 2, 3, 4)]
  {
  }

  /** Of the big one. */
  lemma FinalBig(s: seq<bv32>, mix: Quad -> Quad)
    requires |s| == 36
    ensures var ops :=
        [Xor(4, 0), Xor(9, 0), Xor(18, 0), Xor(27, 0), Mix(27, 28, 29, 30)] +
        [Xor(31, 27), Xor(1, 27), Xor(9, 27), Xor(18, 27), Mix(18, 19, 20, 21)] +
        [Xor(22, 18), Xor(28, 18), Xor(1, 18), Xor(9, 18), Mix(9, 10, 11, 12)] +
        [Xor(13, 9), Xor(19, 9), Xor(28, 9), Xor(1, 9), Mix(1, 2, 3, 4)];
      All(ops, 36) && FinalSteps(Big, 4, s, mix) == Rot(Run(ops, s, 0, mix), 1)
  {
    hide All, Run, Rot, FinalSteps, FinalOps;
    FinalOpsRefine(Big, 4, s, mix);
    BigOps();
  }

  lemma BigOps()
    ensures FinalOps(Big, 4) ==
        [Xor(4, 0), Xor(9, 0), Xor(18, 0), Xor(27, 0), Mix(27, 28, 29, 30)] +
        [Xor(31, 27), Xor(1, 27), Xor(9, 27), Xor(18, 27), Mix(18, 19, 20, 21)] +
        [Xor(22, 18), Xor(28, 18), Xor(1, 18), Xor(9, 18), Mix(9, 10, 11, 12)] +
        [Xor(13, 9), Xor(19, 9), Xor(28, 9), Xor(1, 9), Mix(1, 2, 3, 4)]
  {
    BigTurns();
    hide TurnOps, All;
    assert FinalOps(Big, 0) == [];
    NextTurn(Big, 0, FinalOps(Big, 0), [Xor(4, 0), Xor(9, 0), Xor(18, 0), Xor(27, 0), Mix(27, 28, 29, 30)]);
    NextTurn(Big, 1, FinalOps(Big, 1), [Xor(31, 27), Xor(1, 27), Xor(9, 27), Xor(18, 27), Mix(18, 19, 20, 21)]);
    NextTurn(Big, 2, FinalOps(Big, 2), [Xor(22, 18), Xor(28, 18), Xor(1, 18), Xor(9, 18), Mix(9, 10, 11, 12)]);
    NextTurn(Big, 3, FinalOps(Big, 3), [Xor(13, 9), Xor(19, 9), Xor(28, 9), Xor(1, 9), Mix(1, 2, 3, 4)]);
  }

  lemma BigTurns()
    ensures TurnOps(Big, 0) == [Xor(4, 0), Xor(9, 0), Xor(18, 0), Xor(27, 0), Mix(27, 28, 29, 30)]
    ensures TurnOps(Big, 1) == [Xor(31, 27), Xor(1, 27), Xor(9, 27), Xor(18, 27), Mix(18, 19, 20, 21)]
    ensures TurnOps(Big, 2) == [Xor(22, 18), Xor(28, 18), Xor(1, 18), Xor(9, 18), Mix(9, 10, 11, 12)]
    ensures TurnOps(Big, 3) == [Xor(13, 9), Xor(19, 9), Xor(28, 9), Xor(1, 9), Mix(1, 2, 3, 4)]
  {
  }

  // The code.

  lemma TwoColumns(i: nat, s: seq<bv32>)
    requires i < 2 && |s| == 30
    ensures XorColumns(Small, i, 2, s) == XorInto(XorInto(s, 4), Target(Small, i, 1))
  {
    hide XorInto;
    assert XorColumns(Small, i, 0, s) == s;
    assert XorColumns(Small, i, 1, s) == XorInto(s, 4);
  }

  lemma ThreeColumns(i: nat, s: seq<bv32>)
    requires i < 3 && |s| == 36
    ensures XorColumns(Medium, i, 3, s) == XorInto(XorInto(XorInto(s, 4), Target(Medium, i, 1)), Target(Medium, i, 2))
  {
    hide XorInto;
    assert XorColumns(Medium, i, 0, s) == s;
    assert XorColumns(Medium, i, 1, s) == XorInto(s, 4);
  }

  lemma FourColumns(i: nat, s: seq<bv32>)
    requires i < 4 && |s| == 36
    ensures XorColumns(Big, i, 4, s) == XorInto(XorInto(XorInto(XorInto(s, 4), Target(Big, i, 1)), Target(Big, i, 2)), Target(Big, i, 3))
  {
    hide XorInto;
    assert XorColumns(Big, i, 0, s) == s;
    assert XorColumns(Big, i, 1, s) == XorInto(s, 4);
    assert XorColumns(Big, i, 2, s) == XorInto(XorInto(s, 4), Target(Big, i, 1));
  }

  method RoundSmall(s: seq<bv32>, mix: Quad -> Quad) returns (t: seq<bv32>)
    requires |s| == 30
    ensures t == FinalSteps(Small, 2, s, mix)
  {
    hide XorInto, XorColumns, Ror, Run, Smix;
    TwoColumns(0, s);
    t := XorInto(s, 4);
    t := XorInto(t, 15);
    t := Ror(t, 15);
    t := Run(Smix(30, 0, 1, 2, 3), t, 0, mix);
    assert FinalSteps(Small, 0, s, mix) == s;
    assert t == FinalSteps(Small, 1, s, mix);
    TwoColumns(1, t);
    t := XorInto(t, 4);
    t := XorInto(t, 16);
    t := Ror(t, 14);
    t := Run(Smix(30, 0, 1, 2, 3), t, 0, mix);
  }

  method RoundMedium(s: seq<bv32>, mix: Quad -> Quad) returns (t: seq<bv32>)
    requires |s| == 36
    ensures t == FinalSteps(Medium, 3, s, mix)
  {
    hide XorInto, XorColumns, Ror, Run, Smix;
    ThreeColumns(0, s);
    t := XorInto(s, 4);
    t := XorInto(t, 12);
    t := XorInto(t, 24);
    t := Ror(t, 12);
    t := Run(Smix(36, 0, 1, 2, 3), t, 0, mix);
    assert FinalSteps(Medium, 0, s, mix) == s;
    assert t == FinalSteps(Medium, 1, s, mix);
    ThreeColumns(1, t);
    t := XorInto(t, 4);
    t := XorInto(t, 13);
    t := XorInto(t, 24);
    t := Ror(t, 12);
    t := Run(Smix(36, 0, 1, 2, 3), t, 0, mix);
    assert t == FinalSteps(Medium, 2, s, mix);
    ThreeColumns(2, t);
    t := XorInto(t, 4);
    t := XorInto(t, 13);
    t := XorInto(t, 25);
    t := Ror(t, 11);
    t := Run(Smix(36, 0, 1, 2, 3), t, 0, mix);
  }

  method RoundBig(s: seq<bv32>, mix: Quad -> Quad) returns (t: seq<bv32>)
    requires |s| == 36
    ensures t == FinalSteps(Big, 4, s, mix)
  {
    hide XorInto, XorColumns, Ror, Run, Smix;
    FourColumns(0, s);
    t := XorInto(s, 4);
    t := XorInto(t, 9);
    t := XorInto(t, 18);
    t := XorInto(t, 27);
    t := Ror(t, 9);
    t := Run(Smix(36, 0, 1, 2, 3), t, 0, mix);
    assert FinalSteps(Big, 0, s, mix) == s;
    assert t == FinalSteps(Big, 1, s, mix);
    FourColumns(1, t);
    t := XorInto(t, 4);
    t := XorInto(t, 10);
    t := XorInto(t, 18);
    t := XorInto(t, 27);
    t := Ror(t, 9);
    t := Run(Smix(36, 0, 1, 2, 3), t, 0, mix);
    assert t == FinalSteps(Big, 2, s, mix);
    FourColumns(2, t);
    t := XorInto(t, 4);
    t := XorInto(t, 10);
    t := XorInto(t, 19);
    t := XorInto(t, 27);
    t := Ror(t, 9);
    t := Run(Smix(36, 0, 1, 2, 3), t, 0, mix);
    assert t == FinalSteps(Big, 3, s, mix);
    FourColumns(3, t);
    t := XorInto(t, 4);
    t := XorInto(t, 10);
    t := XorInto(t, 19);
    t := XorInto(t, 28);
    t := Ror(t, 8);
    t := Run(Smix(36, 0, 1, 2, 3), t, 0, mix);
  }

  method FinalRound(v: Variant, s: seq<bv32>, mix: Quad -> Quad) returns (t: seq<bv32>)
    requires |s| == v.Size()
    ensures t == FinalSteps(v, v.Columns(), s, mix)
  {
    hide FinalSteps;
    match v
    case Small => t := RoundSmall(s, mix);
    case Medium => t := RoundMedium(s, mix);
    case Big => t := RoundBig(s, mix);
  }

  /** All that follows the realignment, up to the output. */
  method FinishRounds(v: Variant, s: seq<bv32>, mix: Quad -> Quad) returns (t: seq<bv32>)
    requires |s| == v.Size()
    ensures t == Finish(v, mix, s)
  {
    hide SubRound, FinalSteps, XorInto, XorColumns, Target;
    t := s;
    var close := match v case Small => 10 case Medium => 18 case Big => 32;
    for i := 0 to close
      invariant |t| == v.Size() && t == SubRounds(v, i, s, mix)
    {
      t := SubRound(v, t, mix);
    }
    ghost var t0 := t;
    for i := 0 to 13
      invariant |t| == v.Size() && t == FinalRounds(v, i, t0, mix)
    {
      t := FinalRound(v, t, mix);
    }
    t := LastXors(v, t);
  }

  method LastXors(v: Variant, s: seq<bv32>) returns (t: seq<bv32>)
    requires |s| == v.Size()
    ensures t == XorColumns(v, 0, v.Columns(), s)
  {
    hide XorInto, XorColumns;
    t := XorInto(s, 4);
    match v {
      case Small =>
        TwoColumns(0, s);
        t := XorInto(t, 15);
      case Medium =>
        ThreeColumns(0, s);
        t := XorInto(t, 12);
        t := XorInto(t, 24);
      case Big =>
        FourColumns(0, s);
        t := XorInto(t, 9);
        t := XorInto(t, 18);
        t := XorInto(t, 27);
    }
  }

  lemma FourOf<W>(s: seq<W>, x: nat)
    requires x + 4 <= |s|
    ensures s[x..x + 4] == [s[x], s[x + 1], s[x + 2], s[x + 3]]
  {
  }

  lemma ColumnsGo<W>(a: seq<W>, b: seq<W>, words: nat)
    requires |a| == |b| == 4 && (words == 7 || words == 8)
    ensures (a + b)[..words] == a + ([b[0], b[1], b[2]] + (if words == 8 then [b[3]] else []))
  {
  }

  lemma FirstColumn(v: Variant, s: seq<bv32>)
    requires |s| == v.Size()
    ensures ColumnsOut(v, 1, s) == ColumnWords(v, 0, s)
  {
    hide ColumnWords;
    assert ColumnsOut(v, 0, s) == [];
  }

  lemma WholeOutput(v: Variant, s: seq<bv32>)
    requires |s| == v.Size()
    ensures Output(v, 4 * v.Columns(), s) == ColumnsOut(v, v.Columns(), s)
  {
    hide ColumnsOut;
  }

  /** The words that the closes write, in their order. */
  method DigestWords(v: Variant, words: nat, s: seq<bv32>) returns (ws: seq<bv32>)
    requires |s| == v.Size() && words <= 4 * v.Columns()
    requires v.Small? ==> words == 7 || words == 8
    requires !v.Small? ==> words == 4 * v.Columns()
    ensures ws == Output(v, words, s)
  {
    hide Output;
    match v
    case Small => ws := WordsSmall(words, s);
    case Medium => ws := WordsMedium(s);
    case Big => ws := WordsBig(s);
  }

  method WordsSmall(words: nat, s: seq<bv32>) returns (ws: seq<bv32>)
    requires |s| == 30 && (words == 7 || words == 8)
    ensures ws == Output(Small, words, s)
  {
    FirstColumn(Small, s);
    FourOf(s, 1);
    FourOf(s, 15);
    var first := [s[1], s[2], s[3], s[4]];
    ws := first + ([s[15], s[16], s[17]] + (if words == 8 then [s[18]] else []));
    ColumnsGo(first, s[15..19], words);
  }

  method WordsMedium(s: seq<bv32>) returns (ws: seq<bv32>)
    requires |s| == 36
    ensures ws == Output(Medium, 12, s)
  {
    FirstColumn(Medium, s);
    FourOf(s, 1);
    FourOf(s, 12);
    FourOf(s, 24);
    WholeOutput(Medium, s);
    hide Output;
    ws := [s[1], s[2], s[3], s[4]] + [s[12], s[13], s[14], s[15]] + [s[24], s[25], s[26], s[27]];
  }

  method WordsBig(s: seq<bv32>) returns (ws: seq<bv32>)
    requires |s| == 36
    ensures ws == Output(Big, 16, s)
  {
    FirstColumn(Big, s);
    FourOf(s, 1);
    FourOf(s, 9);
    FourOf(s, 18);
    FourOf(s, 27);
    WholeOutput(Big, s);
    hide Output;
    ws := [s[1], s[2], s[3], s[4]] + [s[9], s[10], s[11], s[12]] + [s[18], s[19], s[20], s[21]] + [s[27], s[28], s[29], s[30]];
    assert ColumnsOut(Big, 2, s) == ColumnsOut(Big, 1, s) + ColumnWords(Big, 1, s);
  }
}

/** The word state of Fugue. The code never rotates it: it renumbers the words
    phase by phase. Here that form is related to the rotating one, in which the
    same statements act at fixed positions after explicit rotations. */
module FugueRing {
  import opened Bytes

  type Quad = (bv32, bv32, bv32, bv32)

  datatype Variant = Small | Medium | Big {
    // Words in the state: 30 for Fugue-224/256, 36 for Fugue-384 and Fugue-512.
    function Size(): nat { if Small? then 30 else 36 }

    // Words the state is rotated by for each absorbed word.
    function Step(): nat { match this case Small => 6 case Medium => 9 case Big => 12 }

    // Absorbed words after which the rotation is back at the start.
    function Phases(): nat { match this case Small => 5 case Medium => 4 case Big => 3 }

    // Columns of the state: as many rotations are in one of the last thirteen rounds of
    // the close, most of them by the width of a column.
    function Columns(): nat { match this case Small => 2 case Medium => 3 case Big => 4 }

    function Width(): nat { match this case Small => 15 case Medium => 12 case Big => 9 }

    // ROR3, CMIX, SMIX rounds at the start of the close.
    function CloseRounds(): nat { match this case Small => 10 case Medium => 18 case Big => 32 }

    // The third group of words that CMIX changes.
    function Column(): nat { if Small? then 15 else 18 }
  }

  /** The statements that the macros expand to, over word indices:
      S[i] ^= S[j], S[i] = q, and the four-word SMIX. */
  datatype Op = Xor(i: nat, j: nat) | Load(i: nat) | Mix(a: nat, b: nat, c: nat, d: nat) {
    predicate Within(n: nat) {
      match this
      case Xor(i, j) => i < n && j < n
      case Load(i) => i < n
      case Mix(a, b, c, d) => a < n && b < n && c < n && d < n
    }
  }

  predicate All(ops: seq<Op>, n: nat) {
    forall x :: 0 <= x < |ops| ==> ops[x].Within(n)
  }

  function Exec(op: Op, s: seq<bv32>, q: bv32, mix: Quad -> Quad): (t: seq<bv32>)
    requires op.Within(|s|)
    ensures |t| == |s|
  {
    match op
    case Xor(i, j) => s[i := Xor32(s[i], s[j])]
    case Load(i) => s[i := q]
    case Mix(a, b, c, d) =>
      var m := mix((s[a], s[b], s[c], s[d]));
      s[a := m.0][b := m.1][c := m.2][d := m.3]
  }

  function Run(ops: seq<Op>, s: seq<bv32>, q: bv32, mix: Quad -> Quad): (t: seq<bv32>)
    requires All(ops, |s|)
    ensures |t| == |s|
  {
    if ops == [] then s
    else Exec(ops[|ops| - 1], Run(ops[..|ops| - 1], s, q, mix), q, mix)
  }

  // The macros TIX2, TIX3, TIX4, CMIX30 and CMIX36, SMIX, over a state of n words.

  function Tix2(n: nat, x00: nat, x01: nat, x08: nat, x10: nat, x24: nat): (ops: seq<Op>)
    requires x00 < n && x01 < n && x08 < n && x10 < n && x24 < n
    ensures All(ops, n)
  {
    [Xor(x10, x00), Load(x00), Xor(x08, x00), Xor(x01, x24)]
  }

  function Tix3(n: nat, x00: nat, x01: nat, x04: nat, x08: nat, x16: nat, x27: nat, x30: nat): (ops: seq<Op>)
    requires x00 < n && x01 < n && x04 < n && x08 < n && x16 < n && x27 < n && x30 < n
    ensures All(ops, n)
  {
    [Xor(x16, x00), Load(x00), Xor(x08, x00), Xor(x01, x27), Xor(x04, x30)]
  }

  function Tix4(n: nat, x00: nat, x01: nat, x04: nat, x07: nat, x08: nat, x22: nat, x24: nat, x27: nat, x30: nat): (ops: seq<Op>)
    requires x00 < n && x01 < n && x04 < n && x07 < n && x08 < n && x22 < n && x24 < n && x27 < n && x30 < n
    ensures All(ops, n)
  {
    [Xor(x22, x00), Load(x00), Xor(x08, x00), Xor(x01, x24), Xor(x04, x27), Xor(x07, x30)]
  }

  function Cmix(n: nat, x00: nat, x01: nat, x02: nat, x04: nat, x05: nat, x06: nat, c0: nat, c1: nat, c2: nat): (ops: seq<Op>)
    requires x00 < n && x01 < n && x02 < n && x04 < n && x05 < n && x06 < n && c0 < n && c1 < n && c2 < n
    ensures All(ops, n)
  {
    [Xor(x00, x04), Xor(x01, x05), Xor(x02, x06), Xor(c0, x04), Xor(c1, x05), Xor(c2, x06)]
  }

  function Smix(n: nat, x0: nat, x1: nat, x2: nat, x3: nat): (ops: seq<Op>)
    requires x0 < n && x1 < n && x2 < n && x3 < n
    ensures All(ops, n)
  {
    [Mix(x0, x1, x2, x3)]
  }

  /** One piece of straight-line code after another. */
  function Then(n: nat, ops: seq<Op>, ops': seq<Op>): (r: seq<Op>)
    requires All(ops, n) && All(ops', n)
    ensures All(r, n)
  {
    ops + ops'
  }

  /** The cases of fugue2_core. No word of the state moves: the indices do. */
  function Phase2(r: nat): (ops: seq<Op>)
    requires r < 5
    ensures All(ops, 30)
  {
    match r
    case 0 =>
      var ops := Tix2(30, 0, 1, 8, 10, 24);
      var ops := Then(30, ops, Then(30, Cmix(30, 27, 28, 29, 1, 2, 3, 12, 13, 14), Smix(30, 27, 28, 29, 0)));
      Then(30, ops, Then(30, Cmix(30, 24, 25, 26, 28, 29, 0, 9, 10, 11), Smix(30, 24, 25, 26, 27)))
    case 1 =>
      var ops := Tix2(30, 24, 25, 2, 4, 18);
      var ops := Then(30, ops, Then(30, Cmix(30, 21, 22, 23, 25, 26, 27, 6, 7, 8), Smix(30, 21, 22, 23, 24)));
      Then(30, ops, Then(30, Cmix(30, 18, 19, 20, 22, 23, 24, 3, 4, 5), Smix(30, 18, 19, 20, 21)))
    case 2 =>
      var ops := Tix2(30, 18, 19, 26, 28, 12);
      var ops := Then(30, ops, Then(30, Cmix(30, 15, 16, 17, 19, 20, 21, 0, 1, 2), Smix(30, 15, 16, 17, 18)));
      Then(30, ops, Then(30, Cmix(30, 12, 13, 14, 16, 17, 18, 27, 28, 29), Smix(30, 12, 13, 14, 15)))
    case 3 =>
      var ops := Tix2(30, 12, 13, 20, 22, 6);
      var ops := Then(30, ops, Then(30, Cmix(30, 9, 10, 11, 13, 14, 15, 24, 25, 26), Smix(30, 9, 10, 11, 12)));
      Then(30, ops, Then(30, Cmix(30, 6, 7, 8, 10, 11, 12, 21, 22, 23), Smix(30, 6, 7, 8, 9)))
    case _ =>
      var ops := Tix2(30, 6, 7, 14, 16, 0);
      var ops := Then(30, ops, Then(30, Cmix(30, 3, 4, 5, 7, 8, 9, 18, 19, 20), Smix(30, 3, 4, 5, 6)));
      Then(30, ops, Then(30, Cmix(30, 0, 1, 2, 4, 5, 6, 15, 16, 17), Smix(30, 0, 1, 2, 3)))
  }

  /** The cases of fugue3_core. No word of the state moves: the indices do. */
  function Phase3(r: nat): (ops: seq<Op>)
    requires r < 4
    ensures All(ops, 36)
  {
    match r
    case 0 =>
      var ops := Tix3(36, 0, 1, 4, 8, 16, 27, 30);
      var ops := Then(36, ops, Then(36, Cmix(36, 33, 34, 35, 1, 2, 3, 15, 16, 17), Smix(36, 33, 34, 35, 0)));
      var ops := Then(36, ops, Then(36, Cmix(36, 30, 31, 32, 34, 35, 0, 12, 13, 14), Smix(36, 30, 31, 32, 33)));
      Then(36, ops, Then(36, Cmix(36, 27, 28, 29, 31, 32, 33, 9, 10, 11), Smix(36, 27, 28, 29, 30)))
    case 1 =>
      var ops := Tix3(36, 27, 28, 31, 35, 7, 18, 21);
      var ops := Then(36, ops, Then(36, Cmix(36, 24, 25, 26, 28, 29, 30, 6, 7, 8), Smix(36, 24, 25, 26, 27)));
      var ops := Then(36, ops, Then(36, Cmix(36, 21, 22, 23, 25, 26, 27, 3, 4, 5), Smix(36, 21, 22, 23, 24)));
      Then(36, ops, Then(36, Cmix(36, 18, 19, 20, 22, 23, 24, 0, 1, 2), Smix(36, 18, 19, 20, 21)))
    case 2 =>
      var ops := Tix3(36, 18, 19, 22, 26, 34, 9, 12);
      var ops := Then(36, ops, Then(36, Cmix(36, 15, 16, 17, 19, 20, 21, 33, 34, 35), Smix(36, 15, 16, 17, 18)));
      var ops := Then(36, ops, Then(36, Cmix(36, 12, 13, 14, 16, 17, 18, 30, 31, 32), Smix(36, 12, 13, 14, 15)));
      Then(36, ops, Then(36, Cmix(36, 9, 10, 11, 13, 14, 15, 27, 28, 29), Smix(36, 9, 10, 11, 12)))
    case _ =>
      var ops := Tix3(36, 9, 10, 13, 17, 25, 0, 3);
      var ops := Then(36, ops, Then(36, Cmix(36, 6, 7, 8, 10, 11, 12, 24, 25, 26), Smix(36, 6, 7, 8, 9)));
      var ops := Then(36, ops, Then(36, Cmix(36, 3, 4, 5, 7, 8, 9, 21, 22, 23), Smix(36, 3, 4, 5, 6)));
      Then(36, ops, Then(36, Cmix(36, 0, 1, 2, 4, 5, 6, 18, 19, 20), Smix(36, 0, 1, 2, 3)))
  }

  /** The cases of fugue4_core. No word of the state moves: the indices do. */
  function Phase4(r: nat): (ops: seq<Op>)
    requires r < 3
    ensures All(ops, 36)
  {
    match r
    case 0 =>
      var ops := Tix4(36, 0, 1, 4, 7, 8, 22, 24, 27, 30);
      var ops := Then(36, ops, Then(36, Cmix(36, 33, 34, 35, 1, 2, 3, 15, 16, 17), Smix(36, 33, 34, 35, 0)));
      var ops := Then(36, ops, Then(36, Cmix(36, 30, 31, 32, 34, 35, 0, 12, 13, 14), Smix(36, 30, 31, 32, 33)));
      var ops := Then(36, ops, Then(36, Cmix(36, 27, 28, 29, 31, 32, 33, 9, 10, 11), Smix(36, 27, 28, 29, 30)));
      Then(36, ops, Then(36, Cmix(36, 24, 25, 26, 28, 29, 30, 6, 7, 8), Smix(36, 24, 25, 26, 27)))
    case 1 =>
      var ops := Tix4(36, 24, 25, 28, 31, 32, 10, 12, 15, 18);
      var ops := Then(36, ops, Then(36, Cmix(36, 21, 22, 23, 25, 26, 27, 3, 4, 5), Smix(36, 21, 22, 23, 24)));
      var ops := Then(36, ops, Then(36, Cmix(36, 18, 19, 20, 22, 23, 24, 0, 1, 2), Smix(36, 18, 19, 20, 21)));
      var ops := Then(36, ops, Then(36, Cmix(36, 15, 16, 17, 19, 20, 21, 33, 34, 35), Smix(36, 15, 16, 17, 18)));
      Then(36, ops, Then(36, Cmix(36, 12, 13, 14, 16, 17, 18, 30, 31, 32), Smix(36, 12, 13, 14, 15)))
    case _ =>
      var ops := Tix4(36, 12, 13, 16, 19, 20, 34, 0, 3, 6);
      var ops := Then(36, ops, Then(36, Cmix(36, 9, 10, 11, 13, 14, 15, 27, 28, 29), Smix(36, 9, 10, 11, 12)));
      var ops := Then(36, ops, Then(36, Cmix(36, 6, 7, 8, 10, 11, 12, 24, 25, 26), Smix(36, 6, 7, 8, 9)));
      var ops := Then(36, ops, Then(36, Cmix(36, 3, 4, 5, 7, 8, 9, 21, 22, 23), Smix(36, 3, 4, 5, 6)));
      Then(36, ops, Then(36, Cmix(36, 0, 1, 2, 4, 5, 6, 18, 19, 20), Smix(36, 0, 1, 2, 3)))
  }

  function Phase(v: Variant, r: nat): (ops: seq<Op>)
    requires r < v.Phases()
    ensures All(ops, v.Size())
  {
    match v
    case Small => Phase2(r)
    case Medium => Phase3(r)
    case Big => Phase4(r)
  }

  // The rotating form.

  /** The macro ROR: the last m words move to the front. */
  function Ror(s: seq<bv32>, m: nat): (t: seq<bv32>)
    requires m <= |s|
    ensures |t| == |s|
  {
    s[|s| - m..] + s[..|s| - m]
  }

  function Tix(v: Variant): (ops: seq<Op>)
    ensures All(ops, v.Size())
  {
    match v
    case Small => Tix2(30, 0, 1, 8, 10, 24)
    case Medium => Tix3(36, 0, 1, 4, 8, 16, 27, 30)
    case Big => Tix4(36, 0, 1, 4, 7, 8, 22, 24, 27, 30)
  }

  function CmixSmix(v: Variant): (ops: seq<Op>)
    ensures All(ops, v.Size())
    ensures forall x :: 0 <= x < |ops| ==> !ops[x].Load?
  {
    var n, c := v.Size(), v.Column();
    Then(n, Cmix(n, 0, 1, 2, 4, 5, 6, c, c + 1, c + 2), Smix(n, 0, 1, 2, 3))
  }

  /** ROR3, then CMIX and SMIX at fixed positions. */
  function SubRound(v: Variant, s: seq<bv32>, mix: Quad -> Quad): (t: seq<bv32>)
    requires |s| == v.Size()
    ensures |t| == v.Size()
  {
    Run(CmixSmix(v), Ror(s, 3), 0, mix)
  }

  function SubRounds(v: Variant, n: nat, s: seq<bv32>, mix: Quad -> Quad): (t: seq<bv32>)
    requires |s| == v.Size()
    ensures |t| == v.Size()
  {
    if n == 0 then s else SubRound(v, SubRounds(v, n - 1, s, mix), mix)
  }

  /** One absorbed word of the rotating form. */
  function AbsorbWord(v: Variant, s: seq<bv32>, q: bv32, mix: Quad -> Quad): (t: seq<bv32>)
    requires |s| == v.Size()
    ensures |t| == v.Size()
  {
    SubRounds(v, v.Step() / 3, Run(Tix(v), s, q, mix), mix)
  }

  // Renumbering.

  /** The physical index of logical word j when logical word 0 is physical word k. */
  function At(n: nat, k: nat, j: nat): (i: nat)
    requires j < n && k < n
    ensures i < n && (i == j + k || i == j + k - n)
  {
    if j + k < n then j + k else j + k - n
  }

  function RenumberOp(op: Op, n: nat, k: nat): (op': Op)
    requires op.Within(n) && k < n
    ensures op'.Within(n)
  {
    match op
    case Xor(i, j) => Xor(At(n, k, i), At(n, k, j))
    case Load(i) => Load(At(n, k, i))
    case Mix(a, b, c, d) => Mix(At(n, k, a), At(n, k, b), At(n, k, c), At(n, k, d))
  }

  function Renumber(ops: seq<Op>, n: nat, k: nat): (ops': seq<Op>)
    requires All(ops, n) && k < n
    ensures All(ops', n) && |ops'| == |ops|
  {
    seq(|ops|, x requires 0 <= x < |ops| => RenumberOp(ops[x], n, k))
  }

  /** The state as it reads when logical word 0 is physical word k. */
  function Rot(s: seq<bv32>, k: nat): (t: seq<bv32>)
    requires k < |s|
    ensures |t| == |s|
    ensures forall j :: 0 <= j < |s| ==> t[j] == s[At(|s|, k, j)]
  {
    s[k..] + s[..k]
  }

  /** Where logical word 0 lies in phase r. */
  function Origin(v: Variant, r: nat): (k: nat)
    requires r < v.Phases()
    ensures k < v.Size()
    ensures (k + v.Step() * r) % v.Size() == 0
  {
    if r == 0 then 0 else v.Size() - v.Step() * r
  }

  /** The rotating state that a physical state stands for in phase r. */
  function Logical(v: Variant, r: nat, s: seq<bv32>): (t: seq<bv32>)
    requires r < v.Phases() && |s| == v.Size()
    ensures |t| == v.Size()
    ensures forall j :: 0 <= j < v.Size() ==> t[j] == s[At(v.Size(), Origin(v, r), j)]
  {
    Rot(s, Origin(v, r))
  }

  lemma RotUpdate(s: seq<bv32>, k: nat, j: nat, x: bv32)
    requires k < |s| && j < |s|
    ensures Rot(s[At(|s|, k, j) := x], k) == Rot(s, k)[j := x]
  {
  }

  lemma MixRot(s: seq<bv32>, k: nat, a: nat, b: nat, c: nat, d: nat, m: Quad)
    requires k < |s| && a < |s| && b < |s| && c < |s| && d < |s|
    ensures Rot(s[At(|s|, k, a) := m.0][At(|s|, k, b) := m.1][At(|s|, k, c) := m.2][At(|s|, k, d) := m.3], k)
         == Rot(s, k)[a := m.0][b := m.1][c := m.2][d := m.3]
  {
    var s1 := s[At(|s|, k, a) := m.0];
    var s2 := s1[At(|s|, k, b) := m.1];
    var s3 := s2[At(|s|, k, c) := m.2];
    RotUpdate(s, k, a, m.0);
    RotUpdate(s1, k, b, m.1);
    RotUpdate(s2, k, c, m.2);
    RotUpdate(s3, k, d, m.3);
  }

  /** A renumbered statement acts on the renumbered state as the original on the original. */
  lemma ExecRot(op: Op, s: seq<bv32>, k: nat, q: bv32, mix: Quad -> Quad)
    requires op.Within(|s|) && k < |s|
    ensures Rot(Exec(RenumberOp(op, |s|, k), s, q, mix), k) == Exec(op, Rot(s, k), q, mix)
  {
    match op
    case Xor(i, j) => RotUpdate(s, k, i, Xor32(Rot(s, k)[i], Rot(s, k)[j]));
    case Load(i) => RotUpdate(s, k, i, q);
    case Mix(a, b, c, d) =>
      var r := Rot(s, k);
      MixRot(s, k, a, b, c, d, mix((r[a], r[b], r[c], r[d])));
  }

  lemma {:induction false} RunRot(ops: seq<Op>, s: seq<bv32>, k: nat, q: bv32, mix: Quad -> Quad)
    requires All(ops, |s|) && k < |s|
    ensures Rot(Run(Renumber(ops, |s|, k), s, q, mix), k) == Run(ops, Rot(s, k), q, mix)
  {
    if ops != [] {
      var init := ops[..|ops| - 1];
      assert Renumber(ops, |s|, k)[..|ops| - 1] == Renumber(init, |s|, k);
      RunRot(init, s, k, q, mix);
      ExecRot(ops[|ops| - 1], Run(Renumber(init, |s|, k), s, q, mix), k, q, mix);
    }
  }

  lemma {:induction false} RunAppend(ops: seq<Op>, ops': seq<Op>, s: seq<bv32>, q: bv32, mix: Quad -> Quad)
    requires All(ops, |s|) && All(ops', |s|)
    ensures Run(ops + ops', s, q, mix) == Run(ops', Run(ops, s, q, mix), q, mix)
  {
    if ops' == [] {
      assert ops + ops' == ops;
    } else {
      var init := ops'[..|ops'| - 1];
      assert (ops + ops')[..|ops + ops'| - 1] == ops + init;
      RunAppend(ops, init, s, q, mix);
    }
  }

  /** Only Load reads the absorbed word. */
  lemma {:induction false} RunWithoutLoad(ops: seq<Op>, s: seq<bv32>, q: bv32, q': bv32, mix: Quad -> Quad)
    requires All(ops, |s|)
    requires forall x :: 0 <= x < |ops| ==> !ops[x].Load?
    ensures Run(ops, s, q, mix) == Run(ops, s, q', mix)
  {
    if ops != [] {
      RunWithoutLoad(ops[..|ops| - 1], s, q, q', mix);
    }
  }

  /** Logical word 0 after i sub-rounds that began at k. */
  function Back(v: Variant, k: nat, i: nat): (k': nat)
    requires k < v.Size() && 3 * i < v.Size()
    ensures k' < v.Size() && (k' == k - 3 * i || k' == k - 3 * i + v.Size())
  {
    if 3 * i <= k then k - 3 * i else k - 3 * i + v.Size()
  }

  /** TIX and i sub-rounds with no rotation: each sub-round is renumbered
      three words further back. */
  function Layers(v: Variant, k: nat, i: nat): (ops: seq<Op>)
    requires k < v.Size() && 3 * i <= v.Step()
    ensures All(ops, v.Size())
  {
    if i == 0 then Renumber(Tix(v), v.Size(), k)
    else Then(v.Size(), Layers(v, k, i - 1), Renumber(CmixSmix(v), v.Size(), Back(v, k, i)))
  }

  /** Three words of rotation are three words of renumbering. */
  lemma LayerRefines(v: Variant, k: nat, k': nat, t: seq<bv32>, q: bv32, mix: Quad -> Quad)
    requires |t| == v.Size() && k < v.Size()
    requires k' < v.Size() && (k' == k - 3 || k' == k - 3 + v.Size())
    ensures Rot(Run(Renumber(CmixSmix(v), v.Size(), k'), t, q, mix), k') == SubRound(v, Rot(t, k), mix)
  {
    assert Ror(Rot(t, k), 3) == Rot(t, k');
    hide All, Run, Renumber, Rot, Ror, CmixSmix;
    RunRot(CmixSmix(v), t, k', q, mix);
    RunWithoutLoad(CmixSmix(v), Rot(t, k'), q, 0, mix);
  }

  lemma {:induction false} LayersRefine(v: Variant, k: nat, i: nat, s: seq<bv32>, q: bv32, mix: Quad -> Quad)
    requires |s| == v.Size() && k < v.Size() && 3 * i <= v.Step()
    ensures Rot(Run(Layers(v, k, i), s, q, mix), Back(v, k, i)) == SubRounds(v, i, Run(Tix(v), Rot(s, k), q, mix), mix)
  {
    hide All, Run, Renumber, Rot, CmixSmix, Tix, SubRound;
    if i == 0 {
      RunRot(Tix(v), s, k, q, mix);
    } else {
      var k' := Back(v, k, i);
      LayersRefine(v, k, i - 1, s, q, mix);
      RunAppend(Layers(v, k, i - 1), Renumber(CmixSmix(v), v.Size(), k'), s, q, mix);
      LayerRefines(v, Back(v, k, i - 1), k', Run(Layers(v, k, i - 1), s, q, mix), q, mix);
    }
  }

  // The indices written in the three cores are these renumberings.

  function CmixSmixAt(v: Variant, k: nat): (ops: seq<Op>)
    requires k < v.Size()
    ensures All(ops, v.Size())
  {
    var n, c := v.Size(), v.Column();
    Then(n, Cmix(n, At(n, k, 0), At(n, k, 1), At(n, k, 2), At(n, k, 4), At(n, k, 5), At(n, k, 6),
                 At(n, k, c), At(n, k, c + 1), At(n, k, c + 2)),
            Smix(n, At(n, k, 0), At(n, k, 1), At(n, k, 2), At(n, k, 3)))
  }

  lemma NextLayer(v: Variant, k: nat, i: nat)
    requires k < v.Size() && 0 < i && 3 * i <= v.Step()
    ensures Layers(v, k, i) == Then(v.Size(), Layers(v, k, i - 1), CmixSmixAt(v, Back(v, k, i)))
  {
    var k' := Back(v, k, i);
    assert Renumber(CmixSmix(v), v.Size(), k') == CmixSmixAt(v, k');
  }

  lemma Tix2Layer(k: nat)
    requires k < 30
    ensures Layers(Small, k, 0) == Tix2(30, At(30, k, 0), At(30, k, 1), At(30, k, 8), At(30, k, 10), At(30, k, 24))
  {
  }

  lemma Phase2Layers(r: nat)
    requires r < 5
    ensures Phase2(r) == Layers(Small, Origin(Small, r), 2)
  {
    hide All, Layers, Renumber, Then, Cmix, Smix, Tix2;
    var k := Origin(Small, r);
    Tix2Layer(k);
    NextLayer(Small, k, 1);
    NextLayer(Small, k, 2);
  }

  lemma Tix3Layer(k: nat)
    requires k < 36
    ensures Layers(Medium, k, 0) == Tix3(36, At(36, k, 0), At(36, k, 1), At(36, k, 4), At(36, k, 8), At(36, k, 16), At(36, k, 27), At(36, k, 30))
  {
  }

  lemma Phase3Layers(r: nat)
    requires r < 4
    ensures Phase3(r) == Layers(Medium, Origin(Medium, r), 3)
  {
    hide All, Layers, Renumber, Then, Cmix, Smix, Tix3;
    var k := Origin(Medium, r);
    Tix3Layer(k);
    NextLayer(Medium, k, 1);
    NextLayer(Medium, k, 2);
    NextLayer(Medium, k, 3);
  }

  lemma Tix4Layer(k: nat)
    requires k < 36
    ensures Layers(Big, k, 0) == Tix4(36, At(36, k, 0), At(36, k, 1), At(36, k, 4), At(36, k, 7), At(36, k, 8), At(36, k, 22), At(36, k, 24), At(36, k, 27), At(36, k, 30))
  {
  }

  lemma Phase4Layers(r: nat)
    requires r < 3
    ensures Phase4(r) == Layers(Big, Origin(Big, r), 4)
  {
    hide All, Layers, Renumber, Then, Cmix, Smix, Tix4;
    var k := Origin(Big, r);
    Tix4Layer(k);
    NextLayer(Big, k, 1);
    NextLayer(Big, k, 2);
    NextLayer(Big, k, 3);
    NextLayer(Big, k, 4);
  }

  lemma PhaseLayers(v: Variant, r: nat)
    requires r < v.Phases()
    ensures Phase(v, r) == Layers(v, Origin(v, r), v.Step() / 3)
  {
    hide All, Layers, Phase2, Phase3, Phase4, Origin;
    match v
    case Small => Phase2Layers(r);
    case Medium => Phase3Layers(r);
    case Big => Phase4Layers(r);
  }

  lemma NextOrigin(v: Variant, r: nat)
    requires r < v.Phases()
    ensures Origin(v, (r + 1) % v.Phases()) == Back(v, Origin(v, r), v.Step() / 3)
  {
  }

  /** The renumbered phases compute the rotating form, phase after phase. */
  lemma PhaseRefines(v: Variant, r: nat, s: seq<bv32>, q: bv32, mix: Quad -> Quad)
    requires r < v.Phases() && |s| == v.Size()
    ensures Logical(v, (r + 1) % v.Phases(), Run(Phase(v, r), s, q, mix)) == AbsorbWord(v, Logical(v, r, s), q, mix)
  {
    hide All, Run, Layers, Phase, Rot, SubRounds, Tix, Origin, Back;
    PhaseLayers(v, r);
    NextOrigin(v, r);
    LayersRefine(v, Origin(v, r), v.Step() / 3, s, q, mix);
  }
}

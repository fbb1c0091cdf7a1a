/** CubeHash. The code never swaps words: it renames registers from round to round. */
module CubeHash {
  import opened Bytes
  import opened Blocks
  import opened Words

  datatype Registers<W> = Registers(
    x0: W, x1: W, x2: W, x3: W, x4: W, x5: W, x6: W, x7: W,
    x8: W, x9: W, xa: W, xb: W, xc: W, xd: W, xe: W, xf: W,
    xg: W, xh: W, xi: W, xj: W, xk: W, xl: W, xm: W, xn: W,
    xo: W, xp: W, xq: W, xr: W, xs: W, xt: W, xu: W, xv: W)

  type State = Registers<bv32>

  /** A function of both halves into the high half. */
  function IntoHigh<W>(s: Registers<W>, f: (W, W) -> W): Registers<W> {
    Registers(
      s.x0, s.x1, s.x2, s.x3, s.x4, s.x5, s.x6, s.x7,
      s.x8, s.x9, s.xa, s.xb, s.xc, s.xd, s.xe, s.xf,
      f(s.x0, s.xg), f(s.x1, s.xh), f(s.x2, s.xi), f(s.x3, s.xj), f(s.x4, s.xk), f(s.x5, s.xl), f(s.x6, s.xm), f(s.x7, s.xn),
      f(s.x8, s.xo), f(s.x9, s.xp), f(s.xa, s.xq), f(s.xb, s.xr), f(s.xc, s.xs), f(s.xd, s.xt), f(s.xe, s.xu), f(s.xf, s.xv))
  }

  /** And into the low half. */
  function IntoLow<W>(s: Registers<W>, f: (W, W) -> W): Registers<W> {
    Registers(
      f(s.x0, s.xg), f(s.x1, s.xh), f(s.x2, s.xi), f(s.x3, s.xj), f(s.x4, s.xk), f(s.x5, s.xl), f(s.x6, s.xm), f(s.x7, s.xn),
      f(s.x8, s.xo), f(s.x9, s.xp), f(s.xa, s.xq), f(s.xb, s.xr), f(s.xc, s.xs), f(s.xd, s.xt), f(s.xe, s.xu), f(s.xf, s.xv),
      s.xg, s.xh, s.xi, s.xj, s.xk, s.xl, s.xm, s.xn,
      s.xo, s.xp, s.xq, s.xr, s.xs, s.xt, s.xu, s.xv)
  }

  // Steps 1 and 6: the low half is added into the high half.
  function AddHalf(s: State): State { IntoHigh(s, Add32) }

  // Steps 2 and 7.
  function Rotate7(s: State): State { IntoLow(s, (x: bv32, y: bv32) => Rotl32(x, 7)) }

  function Rotate11(s: State): State { IntoLow(s, (x: bv32, y: bv32) => Rotl32(x, 11)) }

  // Steps 4 and 9: the high half is xored into the low half.
  function XorHalf(s: State): State { IntoLow(s, Xor32) }

  // Step 3: word swaps in the low half.
  function Swap8<W>(s: Registers<W>): Registers<W> {
    Registers(
      s.x8, s.x9, s.xa, s.xb, s.xc, s.xd, s.xe, s.xf,
      s.x0, s.x1, s.x2, s.x3, s.x4, s.x5, s.x6, s.x7,
      s.xg, s.xh, s.xi, s.xj, s.xk, s.xl, s.xm, s.xn,
      s.xo, s.xp, s.xq, s.xr, s.xs, s.xt, s.xu, s.xv)
  }

  // Step 8.
  function Swap4<W>(s: Registers<W>): Registers<W> {
    Registers(
      s.x4, s.x5, s.x6, s.x7, s.x0, s.x1, s.x2, s.x3,
      s.xc, s.xd, s.xe, s.xf, s.x8, s.x9, s.xa, s.xb,
      s.xg, s.xh, s.xi, s.xj, s.xk, s.xl, s.xm, s.xn,
      s.xo, s.xp, s.xq, s.xr, s.xs, s.xt, s.xu, s.xv)
  }

  // Step 5: word swaps in the high half.
  function Swap2<W>(s: Registers<W>): Registers<W> {
    Registers(
      s.x0, s.x1, s.x2, s.x3, s.x4, s.x5, s.x6, s.x7,
      s.x8, s.x9, s.xa, s.xb, s.xc, s.xd, s.xe, s.xf,
      s.xi, s.xj, s.xg, s.xh, s.xm, s.xn, s.xk, s.xl,
      s.xq, s.xr, s.xo, s.xp, s.xu, s.xv, s.xs, s.xt)
  }

  // Step 10.
  function Swap1<W>(s: Registers<W>): Registers<W> {
    Registers(
      s.x0, s.x1, s.x2, s.x3, s.x4, s.x5, s.x6, s.x7,
      s.x8, s.x9, s.xa, s.xb, s.xc, s.xd, s.xe, s.xf,
      s.xh, s.xg, s.xj, s.xi, s.xl, s.xk, s.xn, s.xm,
      s.xp, s.xo, s.xr, s.xq, s.xt, s.xs, s.xv, s.xu)
  }

  /** One round as defined, with all four word swaps performed. */
  function Round(s: State): State {
    Swap1(XorHalf(Swap4(Rotate11(AddHalf(Swap2(XorHalf(Swap8(Rotate7(AddHalf(s))))))))))
  }

  /** Word k of the state. */
  function At<W>(s: Registers<W>, k: nat): W
    requires k < 32
  {
    if k < 4 then
      if k == 0 then s.x0 else if k == 1 then s.x1 else if k == 2 then s.x2 else s.x3
    else if k < 8 then
      if k == 4 then s.x4 else if k == 5 then s.x5 else if k == 6 then s.x6 else s.x7
    else if k < 12 then
      if k == 8 then s.x8 else if k == 9 then s.x9 else if k == 10 then s.xa else s.xb
    else if k < 16 then
      if k == 12 then s.xc else if k == 13 then s.xd else if k == 14 then s.xe else s.xf
    else if k < 20 then
      if k == 16 then s.xg else if k == 17 then s.xh else if k == 18 then s.xi else s.xj
    else if k < 24 then
      if k == 20 then s.xk else if k == 21 then s.xl else if k == 22 then s.xm else s.xn
    else if k < 28 then
      if k == 24 then s.xo else if k == 25 then s.xp else if k == 26 then s.xq else s.xr
    else
      if k == 28 then s.xs else if k == 29 then s.xt else if k == 30 then s.xu else s.xv
  }

  // The ten steps, index by index.

  lemma IntoHighAt<W>(s: Registers<W>, f: (W, W) -> W, k: nat)
    requires k < 32
    ensures At(IntoHigh(s, f), k) == if k < 16 then At(s, k) else f(At(s, k - 16), At(s, k))
  {
  }

  lemma IntoLowAt<W>(s: Registers<W>, f: (W, W) -> W, k: nat)
    requires k < 32
    ensures At(IntoLow(s, f), k) == if k < 16 then f(At(s, k), At(s, k + 16)) else At(s, k)
  {
  }

  /** Swaps of words 8 and 4 apart in the low half. */
  lemma SwapLowAt<W>(s: Registers<W>, k: nat)
    requires k < 32
    ensures At(Swap8(s), k) == At(s, if k >= 16 then k else if k < 8 then k + 8 else k - 8)
    ensures At(Swap4(s), k) == At(s, if k >= 16 then k else if k % 8 < 4 then k + 4 else k - 4)
  {
  }

  /** Swaps of words 2 and 1 apart in the high half. */
  lemma SwapHighAt<W>(s: Registers<W>, k: nat)
    requires k < 32
    ensures At(Swap2(s), k) == At(s, if k < 16 then k else if k % 4 < 2 then k + 2 else k - 2)
    ensures At(Swap1(s), k) == At(s, if k < 16 then k else if k % 2 == 0 then k + 1 else k - 1)
  {
  }

  // Which register holds which word after an odd number of rounds.
  function Rename<W>(s: Registers<W>): Registers<W> {
    Registers(
      s.xc, s.xd, s.xe, s.xf, s.x8, s.x9, s.xa, s.xb,
      s.x4, s.x5, s.x6, s.x7, s.x0, s.x1, s.x2, s.x3,
      s.xj, s.xi, s.xh, s.xg, s.xn, s.xm, s.xl, s.xk,
      s.xr, s.xq, s.xp, s.xo, s.xv, s.xu, s.xt, s.xs)
  }

  method RoundEven(s: State) returns (t: State)
    ensures t == Rename(Round(s))
  {
    hide Add32, Rotl32, Xor32;
    var x0, x1, x2, x3, x4, x5, x6, x7 := s.x0, s.x1, s.x2, s.x3, s.x4, s.x5, s.x6, s.x7;
    var x8, x9, xa, xb, xc, xd, xe, xf := s.x8, s.x9, s.xa, s.xb, s.xc, s.xd, s.xe, s.xf;
    var xg, xh, xi, xj, xk, xl, xm, xn := s.xg, s.xh, s.xi, s.xj, s.xk, s.xl, s.xm, s.xn;
    var xo, xp, xq, xr, xs, xt, xu, xv := s.xo, s.xp, s.xq, s.xr, s.xs, s.xt, s.xu, s.xv;
    xg := Add32(x0, xg); x0 := Rotl32(x0, 7); xh := Add32(x1, xh); x1 := Rotl32(x1, 7); xi := Add32(x2, xi);
    x2 := Rotl32(x2, 7); xj := Add32(x3, xj); x3 := Rotl32(x3, 7); xk := Add32(x4, xk); x4 := Rotl32(x4, 7);
    xl := Add32(x5, xl); x5 := Rotl32(x5, 7); xm := Add32(x6, xm); x6 := Rotl32(x6, 7); xn := Add32(x7, xn);
    x7 := Rotl32(x7, 7); xo := Add32(x8, xo); x8 := Rotl32(x8, 7); xp := Add32(x9, xp); x9 := Rotl32(x9, 7);
    xq := Add32(xa, xq); xa := Rotl32(xa, 7); xr := Add32(xb, xr); xb := Rotl32(xb, 7); xs := Add32(xc, xs);
    xc := Rotl32(xc, 7); xt := Add32(xd, xt); xd := Rotl32(xd, 7); xu := Add32(xe, xu); xe := Rotl32(xe, 7);
    xv := Add32(xf, xv); xf := Rotl32(xf, 7);
    x8 := Xor32(x8, xg); x9 := Xor32(x9, xh); xa := Xor32(xa, xi); xb := Xor32(xb, xj); xc := Xor32(xc, xk);
    xd := Xor32(xd, xl); xe := Xor32(xe, xm); xf := Xor32(xf, xn); x0 := Xor32(x0, xo); x1 := Xor32(x1, xp);
    x2 := Xor32(x2, xq); x3 := Xor32(x3, xr); x4 := Xor32(x4, xs); x5 := Xor32(x5, xt); x6 := Xor32(x6, xu);
    x7 := Xor32(x7, xv);
    xi := Add32(x8, xi); x8 := Rotl32(x8, 11); xj := Add32(x9, xj); x9 := Rotl32(x9, 11); xg := Add32(xa, xg);
    xa := Rotl32(xa, 11); xh := Add32(xb, xh); xb := Rotl32(xb, 11); xm := Add32(xc, xm); xc := Rotl32(xc, 11);
    xn := Add32(xd, xn); xd := Rotl32(xd, 11); xk := Add32(xe, xk); xe := Rotl32(xe, 11); xl := Add32(xf, xl);
    xf := Rotl32(xf, 11); xq := Add32(x0, xq); x0 := Rotl32(x0, 11); xr := Add32(x1, xr); x1 := Rotl32(x1, 11);
    xo := Add32(x2, xo); x2 := Rotl32(x2, 11); xp := Add32(x3, xp); x3 := Rotl32(x3, 11); xu := Add32(x4, xu);
    x4 := Rotl32(x4, 11); xv := Add32(x5, xv); x5 := Rotl32(x5, 11); xs := Add32(x6, xs); x6 := Rotl32(x6, 11);
    xt := Add32(x7, xt); x7 := Rotl32(x7, 11);
    xc := Xor32(xc, xi); xd := Xor32(xd, xj); xe := Xor32(xe, xg); xf := Xor32(xf, xh); x8 := Xor32(x8, xm);
    x9 := Xor32(x9, xn); xa := Xor32(xa, xk); xb := Xor32(xb, xl); x4 := Xor32(x4, xq); x5 := Xor32(x5, xr);
    x6 := Xor32(x6, xo); x7 := Xor32(x7, xp); x0 := Xor32(x0, xu); x1 := Xor32(x1, xv); x2 := Xor32(x2, xs);
    x3 := Xor32(x3, xt);
    t := Registers(
      x0, x1, x2, x3, x4, x5, x6, x7,
      x8, x9, xa, xb, xc, xd, xe, xf,
      xg, xh, xi, xj, xk, xl, xm, xn,
      xo, xp, xq, xr, xs, xt, xu, xv);
  }

  method RoundOdd(s: State) returns (t: State)
    ensures t == Round(Rename(s))
  {
    hide Add32, Rotl32, Xor32;
    var x0, x1, x2, x3, x4, x5, x6, x7 := s.x0, s.x1, s.x2, s.x3, s.x4, s.x5, s.x6, s.x7;
    var x8, x9, xa, xb, xc, xd, xe, xf := s.x8, s.x9, s.xa, s.xb, s.xc, s.xd, s.xe, s.xf;
    var xg, xh, xi, xj, xk, xl, xm, xn := s.xg, s.xh, s.xi, s.xj, s.xk, s.xl, s.xm, s.xn;
    var xo, xp, xq, xr, xs, xt, xu, xv := s.xo, s.xp, s.xq, s.xr, s.xs, s.xt, s.xu, s.xv;
    xj := Add32(xc, xj); xc := Rotl32(xc, 7); xi := Add32(xd, xi); xd := Rotl32(xd, 7); xh := Add32(xe, xh);
    xe := Rotl32(xe, 7); xg := Add32(xf, xg); xf := Rotl32(xf, 7); xn := Add32(x8, xn); x8 := Rotl32(x8, 7);
    xm := Add32(x9, xm); x9 := Rotl32(x9, 7); xl := Add32(xa, xl); xa := Rotl32(xa, 7); xk := Add32(xb, xk);
    xb := Rotl32(xb, 7); xr := Add32(x4, xr); x4 := Rotl32(x4, 7); xq := Add32(x5, xq); x5 := Rotl32(x5, 7);
    xp := Add32(x6, xp); x6 := Rotl32(x6, 7); xo := Add32(x7, xo); x7 := Rotl32(x7, 7); xv := Add32(x0, xv);
    x0 := Rotl32(x0, 7); xu := Add32(x1, xu); x1 := Rotl32(x1, 7); xt := Add32(x2, xt); x2 := Rotl32(x2, 7);
    xs := Add32(x3, xs); x3 := Rotl32(x3, 7);
    x4 := Xor32(x4, xj); x5 := Xor32(x5, xi); x6 := Xor32(x6, xh); x7 := Xor32(x7, xg); x0 := Xor32(x0, xn);
    x1 := Xor32(x1, xm); x2 := Xor32(x2, xl); x3 := Xor32(x3, xk); xc := Xor32(xc, xr); xd := Xor32(xd, xq);
    xe := Xor32(xe, xp); xf := Xor32(xf, xo); x8 := Xor32(x8, xv); x9 := Xor32(x9, xu); xa := Xor32(xa, xt);
    xb := Xor32(xb, xs);
    xh := Add32(x4, xh); x4 := Rotl32(x4, 11); xg := Add32(x5, xg); x5 := Rotl32(x5, 11); xj := Add32(x6, xj);
    x6 := Rotl32(x6, 11); xi := Add32(x7, xi); x7 := Rotl32(x7, 11); xl := Add32(x0, xl); x0 := Rotl32(x0, 11);
    xk := Add32(x1, xk); x1 := Rotl32(x1, 11); xn := Add32(x2, xn); x2 := Rotl32(x2, 11); xm := Add32(x3, xm);
    x3 := Rotl32(x3, 11); xp := Add32(xc, xp); xc := Rotl32(xc, 11); xo := Add32(xd, xo); xd := Rotl32(xd, 11);
    xr := Add32(xe, xr); xe := Rotl32(xe, 11); xq := Add32(xf, xq); xf := Rotl32(xf, 11); xt := Add32(x8, xt);
    x8 := Rotl32(x8, 11); xs := Add32(x9, xs); x9 := Rotl32(x9, 11); xv := Add32(xa, xv); xa := Rotl32(xa, 11);
    xu := Add32(xb, xu); xb := Rotl32(xb, 11);
    x0 := Xor32(x0, xh); x1 := Xor32(x1, xg); x2 := Xor32(x2, xj); x3 := Xor32(x3, xi); x4 := Xor32(x4, xl);
    x5 := Xor32(x5, xk); x6 := Xor32(x6, xn); x7 := Xor32(x7, xm); x8 := Xor32(x8, xp); x9 := Xor32(x9, xo);
    xa := Xor32(xa, xr); xb := Xor32(xb, xq); xc := Xor32(xc, xt); xd := Xor32(xd, xs); xe := Xor32(xe, xv);
    xf := Xor32(xf, xu);
    t := Registers(
      x0, x1, x2, x3, x4, x5, x6, x7,
      x8, x9, xa, xb, xc, xd, xe, xf,
      xg, xh, xi, xj, xk, xl, xm, xn,
      xo, xp, xq, xr, xs, xt, xu, xv);
  }

  function Rounds(n: nat, s: State): State {
    if n == 0 then s else Round(Rounds(n - 1, s))
  }

  /** The renaming undoes itself, so rounds are done in pairs. */
  lemma RenameTwice(s: State)
    ensures Rename(Rename(s)) == s
  {
  }

  lemma {:induction false} RoundsAdd(m: nat, n: nat, s: State)
    ensures Rounds(m + n, s) == Rounds(n, Rounds(m, s))
  {
    hide Round;
    if n > 0 {
      RoundsAdd(m, n - 1, s);
    }
  }

  method TwoRounds(s: State) returns (t: State)
    ensures t == Round(Round(s))
  {
    hide Round, Rename;
    t := RoundEven(s);
    RenameTwice(Round(s));
    t := RoundOdd(t);
  }

  lemma TwoMore(n: nat, s: State)
    ensures Rounds(n + 2, s) == Round(Round(Rounds(n, s)))
  {
    hide Round;
    assert Rounds(n + 1, s) == Round(Rounds(n, s));
  }

  // SIXTEEN_ROUNDS, for every setting of SPH_CUBEHASH_UNROLL.

  method SixteenRounds2(s: State) returns (t: State)
    ensures t == Rounds(16, s)
  {
    hide Rounds, Round;
    t := s;
    NoRounds(s);
    for j := 0 to 8
      invariant t == Rounds(2 * j, s)
    {
      TwoMore(2 * j, s);
      t := TwoRounds(t);
    }
  }

  lemma NoRounds(s: State)
    ensures Rounds(0, s) == s
  {
  }

  method SixteenRounds4(s: State) returns (t: State)
    ensures t == Rounds(16, s)
  {
    hide Rounds, Round;
    t := s;
    NoRounds(s);
    for j := 0 to 4
      invariant t == Rounds(4 * j, s)
    {
      TwoMore(4 * j, s);
      t := TwoRounds(t);
      TwoMore(4 * j + 2, s);
      t := TwoRounds(t);
    }
  }

  method SixteenRounds8(s: State) returns (t: State)
    ensures t == Rounds(16, s)
  {
    hide Rounds, Round;
    t := s;
    NoRounds(s);
    for j := 0 to 2
      invariant t == Rounds(8 * j, s)
    {
      TwoMore(8 * j, s);
      t := TwoRounds(t);
      TwoMore(8 * j + 2, s);
      t := TwoRounds(t);
      TwoMore(8 * j + 4, s);
      t := TwoRounds(t);
      TwoMore(8 * j + 6, s);
      t := TwoRounds(t);
    }
  }

  method SixteenRoundsUnrolled(s: State) returns (t: State)
    ensures t == Rounds(16, s)
  {
    hide Rounds, Round;
    NoRounds(s);
    TwoMore(0, s);
    t := TwoRounds(s);
    TwoMore(2, s);
    t := TwoRounds(t);
    TwoMore(4, s);
    t := TwoRounds(t);
    TwoMore(6, s);
    t := TwoRounds(t);
    TwoMore(8, s);
    t := TwoRounds(t);
    TwoMore(10, s);
    t := TwoRounds(t);
    TwoMore(12, s);
    t := TwoRounds(t);
    TwoMore(14, s);
    t := TwoRounds(t);
  }

  // One-shot definition.

  /** INPUT_BLOCK. */
  function XorBlock(s: State, b: seq<Byte>): State
    requires |b| == 32
  {
    s.(x0 := Xor32(s.x0, Dec32Le(b[0..4])), x1 := Xor32(s.x1, Dec32Le(b[4..8])),
       x2 := Xor32(s.x2, Dec32Le(b[8..12])), x3 := Xor32(s.x3, Dec32Le(b[12..16])),
       x4 := Xor32(s.x4, Dec32Le(b[16..20])), x5 := Xor32(s.x5, Dec32Le(b[20..24])),
       x6 := Xor32(s.x6, Dec32Le(b[24..28])), x7 := Xor32(s.x7, Dec32Le(b[28..32])))
  }

  /** The state read from the words of an array. */
  function FromWords<W>(w: seq<W>): Registers<W>
    requires |w| == 32
  {
    Registers(
      w[0], w[1], w[2], w[3], w[4], w[5], w[6], w[7],
      w[8], w[9], w[10], w[11], w[12], w[13], w[14], w[15],
      w[16], w[17], w[18], w[19], w[20], w[21], w[22], w[23],
      w[24], w[25], w[26], w[27], w[28], w[29], w[30], w[31])
  }

  lemma WordsInOrder<W>(w: seq<W>, k: nat)
    requires |w| == 32 && k < 32
    ensures At(FromWords(w), k) == w[k]
  {
  }

  /** The block is xored into the bytes of the first eight words, and the others stay. */
  lemma XorBlockBytes(s: State, b: seq<Byte>, k: nat, j: nat)
    requires |b| == 32 && k < 32 && j < 4
    ensures var v, w := At(s, k), At(XorBlock(s, b), k);
      if k < 8 then Enc32Le(w)[j] == Xor8(Enc32Le(v)[j], b[4 * k + j]) else w == v
  {
    hide Enc32Le, Dec32Le, Xor32, Xor8, At, XorBlock;
    XorBlockWords(s, b, k);
    if k < 8 {
      XorBytes(At(s, k), b[4 * k..4 * k + 4], j);
    }
  }

  lemma XorBlockWords(s: State, b: seq<Byte>, k: nat)
    requires |b| == 32 && k < 32
    ensures At(XorBlock(s, b), k) == if k < 8 then Xor32(At(s, k), Dec32Le(b[4 * k..4 * k + 4])) else At(s, k)
  {
    hide Dec32Le, Xor32;
    if k >= 8 {
      Same8(s, XorBlock(s, b), k);
    }
  }

  lemma Same8<W>(s: Registers<W>, t: Registers<W>, k: nat)
    requires 8 <= k < 32
    requires t == s.(x0 := t.x0, x1 := t.x1, x2 := t.x2, x3 := t.x3, x4 := t.x4, x5 := t.x5, x6 := t.x6, x7 := t.x7)
    ensures At(t, k) == At(s, k)
  {
  }

  function Absorb(s: State, d: nat, b: seq<Byte>): State {
    if |b| == 32 then Rounds(16, XorBlock(s, b)) else s
  }

  /** The bits, a one and zeros up to a whole block. */
  function Padded(m: seq<Byte>, ub: bv32, n: nat): (p: seq<Byte>)
    requires n < 8
    ensures |p| % 32 == 0
  {
    m + ([TrailingByte(ub, n)] + Repeat(31 - |m| % 32, 0))
  }

  /** A one is xored into the last word, then ten times sixteen rounds. */
  function Finish(s: State): State {
    Rounds(160, s.(xv := Xor32(s.xv, 1)))
  }

  function LowHalf<W>(s: Registers<W>): (ws: seq<W>)
    ensures |ws| == 16
  {
    [s.x0, s.x1, s.x2, s.x3, s.x4, s.x5, s.x6, s.x7, s.x8, s.x9, s.xa, s.xb, s.xc, s.xd, s.xe, s.xf]
  }

  lemma LowHalfAt<W>(s: Registers<W>, k: nat)
    requires k < 16
    ensures LowHalf(s)[k] == At(s, k)
  {
  }

  /** The words of a digest are the first of the state, less significant bytes first. */
  lemma DigestReadsBack(end: State, words: nat, k: nat)
    requires k < words <= 16
    ensures FromLittle(EncodeLe(LowHalf(end)[..words])[4 * k..4 * k + 4]) == Num32(At(end, k))
  {
    hide At, LowHalf, EncodeLe, Num32, FromLittle;
    LowHalfAt(end, k);
    EncodedReadsBack(LowHalf(end)[..words], k);
  }

  function Digest(iv: State, m: seq<Byte>, ub: bv32, n: nat, words: nat): seq<Byte>
    requires n < 8 && words <= 16
  {
    EncodeLe(LowHalf(Finish(Fold(Absorb, iv, Padded(m, ub, n), 32)))[..words])
  }

  class Context {
    const iv: State
    const buf: array<Byte>
    var state: State
    var ptr: nat
    ghost var absorbed: seq<Byte>   // every byte received since the last initialization

    ghost predicate Valid()
      reads this, buf
    {
      buf.Length == 32 && ptr == |absorbed| % 32 && Buffered(Absorb, iv, absorbed, state, buf[..ptr], 32)
    }

    constructor (iv: State)
      ensures Valid() && fresh(buf) && absorbed == [] && this.iv == iv
    {
      this.iv, state := iv, iv;
      buf := new Byte[32];
      ptr, absorbed := 0, [];
      BufferedStart(Absorb, iv, 32);
    }

    method Init()
      requires buf.Length == 32
      modifies this
      ensures Valid() && absorbed == []
    {
      state, ptr, absorbed := iv, 0, [];
      BufferedStart(Absorb, iv, 32);
    }

    method Core(data: seq<Byte>)
      requires Valid()
      modifies this, buf
      ensures Valid() && absorbed == old(absorbed) + data
    {
      hide Absorb, Buffered;
      if |data| < buf.Length - ptr {
        Buffer(data);
        return;
      }
      var rest := data;
      while rest != []
        invariant Valid() && absorbed + rest == old(absorbed) + data
        decreases |rest|
      {
        var clen := Min(buf.Length - ptr, |rest|);
        assert rest == rest[..clen] + rest[clen..];
        Buffer(rest[..clen]);
        rest := rest[clen..];
      }
    }

    /** Copies input that fits into the buffer, and absorbs the buffer when full. */
    method Buffer(data: seq<Byte>)
      requires Valid() && ptr + |data| <= 32
      modifies this, buf
      ensures Valid() && absorbed == old(absorbed) + data
    {
      hide Absorb, Buffered;
      ghost var m, held := absorbed, buf[..ptr];
      CopyInto(buf, ptr, data);
      ptr := ptr + |data|;
      absorbed := absorbed + data;
      assert buf[..ptr] == held + data;
      if ptr == buf.Length {
        BufferedFull(Absorb, iv, m, state, held, 32, data);
        assert buf[..] == buf[..ptr];
        AbsorbBuffer(|m| - |held|, held + data);
        ptr := 0;
        assert buf[..ptr] == [];
      } else {
        BufferedMore(Absorb, iv, m, state, held, 32, data);
      }
    }

    method AbsorbBuffer(ghost d: nat, ghost block: seq<Byte>)
      requires buf.Length == 32 && buf[..] == block
      modifies this`state
      ensures state == Absorb(old(state), d, block)
    {
      hide Rounds;
      state := XorBlock(state, buf[..]);
      state := SixteenRoundsUnrolled(state);
    }

    /** The close: whatever the splits of the input were, the digest of the whole. */
    method Close(ub: bv32, n: nat, words: nat) returns (out: seq<Byte>)
      requires Valid() && n < 8 && words <= 16
      modifies this, buf
      ensures out == Digest(iv, old(absorbed), ub, n, words)
      ensures Valid() && absorbed == []
    {
      hide Absorb, Buffered, TrailingByte, EncodeLe, Finish;
      ghost var m, held := absorbed, buf[..ptr];
      ghost var tail := [TrailingByte(ub, n)] + Repeat(31 - ptr, 0);
      assert Padded(m, ub, n) == m + tail;
      hide Padded, LowHalf, Repeat;
      buf[ptr] := TrailingByte(ub, n);
      Fill(buf, ptr + 1, 31 - ptr, 0);
      assert buf[..] == held + tail;
      BufferedFold(Absorb, iv, m, state, held, 32, tail);
      AbsorbBuffer(|m| - |held|, held + tail);
      FinishState();
      assert state == Finish(Fold(Absorb, iv, Padded(m, ub, n), 32));
      out := EncodeLe(LowHalf(state)[..words]);
      Init();
    }

    method FinishState()
      modifies this`state
      ensures state == Finish(old(state))
    {
      hide Rounds;
      state := state.(xv := Xor32(state.xv, 1));
      ghost var s := state;
      NoRounds(s);
      for i := 1 to 11
        invariant state == Rounds(16 * (i - 1), s)
      {
        RoundsAdd(16 * (i - 1), 16, s);
        state := SixteenRoundsUnrolled(state);
      }
    }
  }

  /** Any run of the interface on one message: every split gives the same digest. */
  method DigestOfPieces(iv: seq<bv32>, pieces: seq<seq<Byte>>, ub: bv32, n: nat, words: nat) returns (out: seq<Byte>)
    requires |iv| == 32 && n < 8 && words <= 16
    ensures out == Digest(FromWords(iv), Flatten(pieces), ub, n, words)
  {
    hide Digest, Absorb, Buffered, FromWords;
    var sc := new Context(FromWords(iv));
    for i := 0 to |pieces|
      invariant sc.Valid() && fresh(sc) && fresh(sc.buf) && sc.iv == FromWords(iv) && sc.absorbed == Flatten(pieces[..i])
    {
      FlattenSnoc(pieces, i);
      sc.Core(pieces[i]);
    }
    assert pieces[..|pieces|] == pieces;
    out := sc.Close(ub, n, words);
  }
}

/** The two ways in which BLAKE's compression runs its rounds: a loop over a table of
    sixteen permutations, and straight-line code over ten macro-generated ones. */
module BlakeRounds {

  /** A permutation of the message words. */
  datatype Row = Row(i0: nat, i1: nat, i2: nat, i3: nat, i4: nat, i5: nat, i6: nat, i7: nat,
                     i8: nat, i9: nat, iA: nat, iB: nat, iC: nat, iD: nat, iE: nat, iF: nat)

  /** The table of the compact build. */
  function Sigma(r: nat): Row
    requires r < 16
  {
    if r == 0 then Row(0, 1, 2, 3, 4, 5, 6, 7, 8, 9, 10, 11, 12, 13, 14, 15)
    else if r == 1 then Row(14, 10, 4, 8, 9, 15, 13, 6, 1, 12, 0, 2, 11, 7, 5, 3)
    else if r == 2 then Row(11, 8, 12, 0, 5, 2, 15, 13, 10, 14, 3, 6, 7, 1, 9, 4)
    else if r == 3 then Row(7, 9, 3, 1, 13, 12, 11, 14, 2, 6, 5, 10, 4, 0, 15, 8)
    else if r == 4 then Row(9, 0, 5, 7, 2, 4, 10, 15, 14, 1, 11, 12, 6, 8, 3, 13)
    else if r == 5 then Row(2, 12, 6, 10, 0, 11, 8, 3, 4, 13, 7, 5, 15, 14, 1, 9)
    else if r == 6 then Row(12, 5, 1, 15, 14, 13, 4, 10, 0, 7, 6, 3, 9, 2, 8, 11)
    else if r == 7 then Row(13, 11, 7, 14, 12, 1, 3, 9, 5, 0, 15, 4, 8, 6, 2, 10)
    else if r == 8 then Row(6, 15, 14, 9, 11, 3, 0, 8, 12, 2, 13, 7, 1, 4, 10, 5)
    else if r == 9 then Row(10, 2, 8, 4, 7, 6, 1, 5, 15, 11, 9, 14, 3, 12, 13, 0)
    else if r == 10 then Row(0, 1, 2, 3, 4, 5, 6, 7, 8, 9, 10, 11, 12, 13, 14, 15)
    else if r == 11 then Row(14, 10, 4, 8, 9, 15, 13, 6, 1, 12, 0, 2, 11, 7, 5, 3)
    else if r == 12 then Row(11, 8, 12, 0, 5, 2, 15, 13, 10, 14, 3, 6, 7, 1, 9, 4)
    else if r == 13 then Row(7, 9, 3, 1, 13, 12, 11, 14, 2, 6, 5, 10, 4, 0, 15, 8)
    else if r == 14 then Row(9, 0, 5, 7, 2, 4, 10, 15, 14, 1, 11, 12, 6, 8, 3, 13)
    else Row(2, 12, 6, 10, 0, 11, 8, 3, 4, 13, 7, 5, 15, 14, 1, 9)
  }

  /** The macros of the unrolled build. */
  function Z(r: nat): Row
    requires r < 10
  {
    if r == 0 then Row(0, 1, 2, 3, 4, 5, 6, 7, 8, 9, 10, 11, 12, 13, 14, 15)
    else if r == 1 then Row(14, 10, 4, 8, 9, 15, 13, 6, 1, 12, 0, 2, 11, 7, 5, 3)
    else if r == 2 then Row(11, 8, 12, 0, 5, 2, 15, 13, 10, 14, 3, 6, 7, 1, 9, 4)
    else if r == 3 then Row(7, 9, 3, 1, 13, 12, 11, 14, 2, 6, 5, 10, 4, 0, 15, 8)
    else if r == 4 then Row(9, 0, 5, 7, 2, 4, 10, 15, 14, 1, 11, 12, 6, 8, 3, 13)
    else if r == 5 then Row(2, 12, 6, 10, 0, 11, 8, 3, 4, 13, 7, 5, 15, 14, 1, 9)
    else if r == 6 then Row(12, 5, 1, 15, 14, 13, 4, 10, 0, 7, 6, 3, 9, 2, 8, 11)
    else if r == 7 then Row(13, 11, 7, 14, 12, 1, 3, 9, 5, 0, 15, 4, 8, 6, 2, 10)
    else if r == 8 then Row(6, 15, 14, 9, 11, 3, 0, 8, 12, 2, 13, 7, 1, 4, 10, 5)
    else Row(10, 2, 8, 4, 7, 6, 1, 5, 15, 11, 9, 14, 3, 12, 13, 0)
  }

  lemma TableRepeats(r: nat)
    requires r < 16
    ensures Sigma(r) == Z(if r < 10 then r else r - 10)
  {
  }

  /** A round is a function of the working words and a permutation. */
  function RunRows<V>(round: (V, Row) -> V, v: V, rows: seq<Row>): V {
    if rows == [] then v else round(RunRows(round, v, rows[..|rows| - 1]), rows[|rows| - 1])
  }

  lemma RunSnoc<V>(round: (V, Row) -> V, v: V, rows: seq<Row>, row: Row)
    ensures RunRows(round, v, rows + [row]) == round(RunRows(round, v, rows), row)
  {
    assert (rows + [row])[..|rows|] == rows;
  }

  lemma RunNone<V>(round: (V, Row) -> V, v: V)
    ensures RunRows(round, v, []) == v
  {
  }

  function CompactRows(rounds: nat): (rows: seq<Row>)
    requires rounds <= 16
    ensures |rows| == rounds
  {
    seq(rounds, r requires 0 <= r < rounds => Sigma(r))
  }

  /** The 32-bit unrolled form knows one number of rounds, and falls back to eight. */
  function UnrolledRows(rounds: nat): seq<Row> {
    [Z(0), Z(1), Z(2), Z(3), Z(4), Z(5), Z(6), Z(7)] +
    if rounds == 14 then [Z(8), Z(9), Z(0), Z(1), Z(2), Z(3)] else []
  }

  /** The loop of the compact build. */
  method CompressCompact<V>(round: (V, Row) -> V, v: V, rounds: nat) returns (w: V)
    requires rounds <= 16
    ensures w == RunRows(round, v, CompactRows(rounds))
  {
    hide Sigma;
    w := v;
    for r := 0 to rounds
      invariant w == RunRows(round, v, CompactRows(rounds)[..r])
    {
      RunSnoc(round, v, CompactRows(rounds)[..r], Sigma(r));
      assert CompactRows(rounds)[..r + 1] == CompactRows(rounds)[..r] + [Sigma(r)];
      w := round(w, Sigma(r));
    }
    assert CompactRows(rounds)[..rounds] == CompactRows(rounds);
  }

  method CompressUnrolled<V>(round: (V, Row) -> V, v: V, rounds: nat) returns (w: V)
    ensures w == RunRows(round, v, UnrolledRows(rounds))
  {
    hide Z, RunRows;
    w := Eight(round, v);
    if rounds == 14 {
      ghost var eight := [Z(0), Z(1), Z(2), Z(3), Z(4), Z(5), Z(6), Z(7)];
      RunSnoc(round, v, eight, Z(8));
      RunSnoc(round, v, eight + [Z(8)], Z(9));
      RunSnoc(round, v, eight + [Z(8)] + [Z(9)], Z(0));
      RunSnoc(round, v, eight + [Z(8)] + [Z(9)] + [Z(0)], Z(1));
      RunSnoc(round, v, eight + [Z(8)] + [Z(9)] + [Z(0)] + [Z(1)], Z(2));
      RunSnoc(round, v, eight + [Z(8)] + [Z(9)] + [Z(0)] + [Z(1)] + [Z(2)], Z(3));
      w := round(w, Z(8));
      w := round(w, Z(9));
      w := round(w, Z(0));
      w := round(w, Z(1));
      w := round(w, Z(2));
      w := round(w, Z(3));
      assert eight + [Z(8)] + [Z(9)] + [Z(0)] + [Z(1)] + [Z(2)] + [Z(3)] == UnrolledRows(rounds);
    } else {
      assert [Z(0), Z(1), Z(2), Z(3), Z(4), Z(5), Z(6), Z(7)] == UnrolledRows(rounds);
    }
  }

  method Eight<V>(round: (V, Row) -> V, v: V) returns (w: V)
    ensures w == RunRows(round, v, [Z(0), Z(1), Z(2), Z(3), Z(4), Z(5), Z(6), Z(7)])
  {
    hide Z, RunRows;
    RunNone(round, v);
    RunSnoc(round, v, [], Z(0));
    RunSnoc(round, v, [] + [Z(0)], Z(1));
    RunSnoc(round, v, [] + [Z(0)] + [Z(1)], Z(2));
    RunSnoc(round, v, [] + [Z(0)] + [Z(1)] + [Z(2)], Z(3));
    RunSnoc(round, v, [] + [Z(0)] + [Z(1)] + [Z(2)] + [Z(3)], Z(4));
    RunSnoc(round, v, [] + [Z(0)] + [Z(1)] + [Z(2)] + [Z(3)] + [Z(4)], Z(5));
    RunSnoc(round, v, [] + [Z(0)] + [Z(1)] + [Z(2)] + [Z(3)] + [Z(4)] + [Z(5)], Z(6));
    RunSnoc(round, v, [] + [Z(0)] + [Z(1)] + [Z(2)] + [Z(3)] + [Z(4)] + [Z(5)] + [Z(6)], Z(7));
    assert [] + [Z(0)] + [Z(1)] + [Z(2)] + [Z(3)] + [Z(4)] + [Z(5)] + [Z(6)] + [Z(7)] == [Z(0), Z(1), Z(2), Z(3), Z(4), Z(5), Z(6), Z(7)];
    w := round(v, Z(0));
    w := round(w, Z(1));
    w := round(w, Z(2));
    w := round(w, Z(3));
    w := round(w, Z(4));
    w := round(w, Z(5));
    w := round(w, Z(6));
    w := round(w, Z(7));
  }

  /** The number of rounds can be set to any value; the two builds run the same rounds
      exactly for 8 and 14. */
  lemma SameRowsIff(rounds: nat)
    requires rounds <= 16
    ensures CompactRows(rounds) == UnrolledRows(rounds) <==> rounds == 8 || rounds == 14
  {
    hide Sigma, Z;
    forall r | 0 <= r < rounds
      ensures CompactRows(rounds)[r] == Z(if r < 10 then r else r - 10)
    {
      TableRepeats(r);
    }
  }

  /** The 64-bit form always runs sixteen rounds, in both builds the same. */
  lemma BigRowsAgree()
    ensures CompactRows(16) == [Z(0), Z(1), Z(2), Z(3), Z(4), Z(5), Z(6), Z(7), Z(8), Z(9), Z(0), Z(1), Z(2), Z(3), Z(4), Z(5)]
  {
    hide Sigma, Z;
    forall r | 0 <= r < 16
      ensures CompactRows(16)[r] == Z(if r < 10 then r else r - 10)
    {
      TableRepeats(r);
    }
  }

  function CountRound(k: nat, row: Row): nat { k + 1 }

  lemma {:induction false} CountsRows(rows: seq<Row>)
    ensures RunRows(CountRound, 0, rows) == |rows|
  {
    if rows != [] {
      CountsRows(rows[..|rows| - 1]);
    }
  }

  /** For every round function the builds agree at 8 and 14 rounds; at any other number
      there is one that tells them apart. */
  lemma BuildsAgree<V>(round: (V, Row) -> V, v: V, rounds: nat)
    requires rounds <= 16
    ensures rounds == 8 || rounds == 14 ==> RunRows(round, v, CompactRows(rounds)) == RunRows(round, v, UnrolledRows(rounds))
    ensures rounds != 8 && rounds != 14 ==>
      RunRows(CountRound, 0, CompactRows(rounds)) != RunRows(CountRound, 0, UnrolledRows(rounds))
  {
    hide Sigma, Z;
    SameRowsIff(rounds);
    CountsRows(CompactRows(rounds));
    CountsRows(UnrolledRows(rounds));
  }
}

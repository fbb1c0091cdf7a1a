/** Single bits of a byte, through shifts, masks and unions, and what the bytes at the
    end of a message hold bit by bit. */
module Bits {
  import opened Bytes

  function And8(a: Byte, b: Byte): Byte { a & b }

  function Or8(a: Byte, b: Byte): Byte { a | b }

  function Shr8(b: Byte, k: nat): Byte
    requires k < 8
  {
    b >> k
  }

  predicate LastBit(b: Byte) { b & 1 == 1 }

  /** Bit i of a byte, counted from the most significant one. */
  predicate Bit(b: Byte, i: nat)
    requires i < 8
  {
    LastBit(Shr8(b, 7 - i))
  }

  lemma LastOr(a: Byte, b: Byte)
    ensures LastBit(Or8(a, b)) == (LastBit(a) || LastBit(b))
  {
  }

  lemma LastAnd(a: Byte, b: Byte)
    ensures LastBit(And8(a, b)) == (LastBit(a) && LastBit(b))
  {
  }

  lemma ShiftNone(b: Byte)
    ensures Shr8(b, 0) == b
  {
  }

  lemma ShiftOnce(b: Byte, k: nat)
    requires k < 7
    ensures Shr8(Shr8(b, k), 1) == Shr8(b, k + 1)
  {
    if k == 0 {
    } else if k == 1 {
    } else if k == 2 {
    } else if k == 3 {
    } else if k == 4 {
    } else if k == 5 {
    } else {
      assert k == 6;
    }
  }

  lemma ShiftMore(b: Byte, k: nat)
    requires k < 7
    ensures Shr8(Shr8(b, 1), k) == Shr8(b, k + 1)
  {
    if k == 0 {
    } else if k == 1 {
    } else if k == 2 {
    } else if k == 3 {
    } else if k == 4 {
    } else if k == 5 {
    } else {
      assert k == 6;
    }
  }

  lemma AndShiftOne(a: Byte, b: Byte)
    ensures Shr8(And8(a, b), 1) == And8(Shr8(a, 1), Shr8(b, 1))
  {
  }

  lemma {:induction false} AndShift(a: Byte, b: Byte, k: nat)
    requires k < 8
    ensures Shr8(And8(a, b), k) == And8(Shr8(a, k), Shr8(b, k))
  {
    hide Shr8, And8;
    if k == 0 {
      ShiftNone(a);
      ShiftNone(b);
      ShiftNone(And8(a, b));
    } else {
      AndShift(a, b, k - 1);
      AndShiftOne(Shr8(a, k - 1), Shr8(b, k - 1));
      ShiftOnce(a, k - 1);
      ShiftOnce(b, k - 1);
      ShiftOnce(And8(a, b), k - 1);
    }
  }

  lemma OrShiftOne(a: Byte, b: Byte)
    ensures Shr8(Or8(a, b), 1) == Or8(Shr8(a, 1), Shr8(b, 1))
  {
  }

  lemma {:induction false} OrShift(a: Byte, b: Byte, k: nat)
    requires k < 8
    ensures Shr8(Or8(a, b), k) == Or8(Shr8(a, k), Shr8(b, k))
  {
    hide Shr8, Or8;
    if k == 0 {
      ShiftNone(a);
      ShiftNone(b);
      ShiftNone(Or8(a, b));
    } else {
      OrShift(a, b, k - 1);
      OrShiftOne(Shr8(a, k - 1), Shr8(b, k - 1));
      ShiftOnce(a, k - 1);
      ShiftOnce(b, k - 1);
      ShiftOnce(Or8(a, b), k - 1);
    }
  }

  lemma OrBit(a: Byte, b: Byte, i: nat)
    requires i < 8
    ensures Bit(Or8(a, b), i) == (Bit(a, i) || Bit(b, i))
  {
    hide Or8, Shr8, LastBit;
    OrShift(a, b, 7 - i);
    LastOr(Shr8(a, 7 - i), Shr8(b, 7 - i));
  }

  lemma AndBit(a: Byte, b: Byte, i: nat)
    requires i < 8
    ensures Bit(And8(a, b), i) == (Bit(a, i) && Bit(b, i))
  {
    hide And8, Shr8, LastBit;
    AndShift(a, b, 7 - i);
    LastAnd(Shr8(a, 7 - i), Shr8(b, 7 - i));
  }

  lemma {:induction false} ShiftShift(b: Byte, k: nat, r: nat)
    requires k + r < 8
    ensures Shr8(Shr8(b, k), r) == Shr8(b, k + r)
  {
    hide Shr8;
    if k == 0 {
      ShiftNone(b);
    } else {
      ShiftOnce(b, k - 1);
      ShiftMore(Shr8(b, k - 1), r);
      ShiftShift(b, k - 1, r + 1);
    }
  }

  lemma NoneLeft(b: Byte, k: nat)
    requires 0 < k < 8
    ensures !LastBit(Shr8(Shr8(b, 7), k))
  {
    if k == 0 {
    } else if k == 1 {
    } else if k == 2 {
    } else if k == 3 {
    } else if k == 4 {
    } else if k == 5 {
    } else if k == 6 {
    } else {
      assert k == 7;
    }
  }

  lemma ShiftedBit(b: Byte, k: nat, i: nat)
    requires k < 8 && i < 8
    ensures Bit(Shr8(b, k), i) == (i >= k && Bit(b, i - k))
  {
    hide Shr8, LastBit;
    if i >= k {
      ShiftShift(b, k, 7 - i);
    } else {
      ShiftShift(Shr8(b, k), 7 - k, k - i);
      ShiftShift(b, k, 7 - k);
      NoneLeft(b, k - i);
    }
  }

  lemma NoBits(i: nat)
    requires i < 8
    ensures !Bit(0, i)
  {
    if i == 0 {
    } else if i == 1 {
    } else if i == 2 {
    } else if i == 3 {
    } else if i == 4 {
    } else if i == 5 {
    } else if i == 6 {
    } else {
      assert i == 7;
    }
  }

  /** A one at position n. */
  function OneAt(n: nat): Byte
    requires n < 8
  {
    0x80 >> n
  }

  lemma OneAtBit(n: nat, i: nat)
    requires n < 8 && i < 8
    ensures Bit(OneAt(n), i) == (i == n)
  {
    if n == 0 {
    } else if n == 1 {
    } else if n == 2 {
    } else if n == 3 {
    } else if n == 4 {
    } else if n == 5 {
    } else if n == 6 {
    } else {
      assert n == 7;
    }
  }

  /** Ones in the first n positions. */
  function Ones(n: nat): Byte
    requires n < 8
  {
    !(0xFF >> n)
  }

  lemma OnesBit(n: nat, i: nat)
    requires n < 8 && i < 8
    ensures Bit(Ones(n), i) == (i < n)
  {
    if n == 0 {
    } else if n == 1 {
    } else if n == 2 {
    } else if n == 3 {
    } else if n == 4 {
    } else if n == 5 {
    } else if n == 6 {
    } else {
      assert n == 7;
    }
  }

  /** The byte that a caller's extra bits are in. */
  function BitsByte(ub: bv32): Byte { (ub & 0xFF) as Byte }

  lemma TrailingMasked(ub: bv32, n: nat)
    requires n < 8
    ensures TrailingByte(ub, n) == Or8(And8(BitsByte(ub), Ones(n)), OneAt(n))
  {
    if n == 0 {
    } else if n == 1 {
    } else if n == 2 {
    } else if n == 3 {
    } else if n == 4 {
    } else if n == 5 {
    } else if n == 6 {
    } else {
      assert n == 7;
    }
  }

  lemma TrailingByteBits(ub: bv32, n: nat, i: nat)
    requires n < 8 && i < 8
    ensures Bit(TrailingByte(ub, n), i) == if i < n then Bit(BitsByte(ub), i) else i == n
  {
    hide TrailingByte, BitsByte, Bit, And8, Or8, Ones, OneAt;
    TrailingMasked(ub, n);
    OrBit(And8(BitsByte(ub), Ones(n)), OneAt(n), i);
    AndBit(BitsByte(ub), Ones(n), i);
    OnesBit(n, i);
    OneAtBit(n, i);
  }
}

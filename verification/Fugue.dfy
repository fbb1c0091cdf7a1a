/** Fugue as an incremental hash: words absorbed as they arrive, up to four bytes
    held back, and a close that realigns the unrotated state. */
module Fugue {
  import opened Bits
  import opened Bytes
  import opened FugueClose
  import opened FugueRing
  import opened Words

  /** The word whose big-endian bytes are b. */
  function BeWord(b: seq<Byte>): bv32 {
    if b == [] then 0 else Shift32(BeWord(b[..|b| - 1]), b[|b| - 1])
  }

  lemma ShiftFour(a: Byte, b: Byte, c: Byte, d: Byte)
    ensures Shift32(Shift32(Shift32(Shift32(0, a), b), c), d)
         == ((a as bv32) << 24) | ((b as bv32) << 16) | ((c as bv32) << 8) | (d as bv32)
  {
  }

  lemma BeWordIsDec32Be(b: seq<Byte>)
    requires |b| == 4
    ensures BeWord(b) == Dec32Be(b)
  {
    hide Shift32;
    assert b[..3][..2] == b[..2] && b[..2][..1] == b[..1] && b[..1][..0] == [];
    assert BeWord(b[..1]) == Shift32(0, b[0]);
    assert BeWord(b[..2]) == Shift32(BeWord(b[..1]), b[1]);
    assert BeWord(b[..3]) == Shift32(BeWord(b[..2]), b[2]);
    ShiftFour(b[0], b[1], b[2], b[3]);
  }

  /** What words of at most len bytes stay below. */
  function Below(len: nat): bv32
    requires len <= 3
  {
    if len == 0 then 1 else if len == 1 then 0x100 else if len == 2 then 0x1_0000 else 0x100_0000
  }

  lemma ShiftBelow(p: bv32, b: Byte)
    ensures p < 1 ==> Shift32(p, b) < 0x100
    ensures p < 0x100 ==> Shift32(p, b) < 0x1_0000
    ensures p < 0x1_0000 ==> Shift32(p, b) < 0x100_0000
  {
  }

  lemma {:induction false} BeWordBelow(b: seq<Byte>)
    requires |b| <= 3
    ensures BeWord(b) < Below(|b|)
  {
    hide Shift32;
    if b != [] {
      BeWordBelow(b[..|b| - 1]);
      ShiftBelow(BeWord(b[..|b| - 1]), b[|b| - 1]);
    }
  }

  lemma BelowTop(p: bv32, len: nat)
    requires len <= 3 && p < Below(len)
    ensures p < 0x100_0000
  {
  }

  lemma ZeroWord()
    ensures Num32(0) == 0
  {
  }

  /** Up to four bytes make the number that they are, most significant first. */
  lemma {:induction false} BeWordValue(b: seq<Byte>)
    requires |b| <= 4
    ensures Num32(BeWord(b)) == FromBig(b)
  {
    hide Shift32, Num32, Below;
    if b == [] {
      ZeroWord();
    } else {
      var init := b[..|b| - 1];
      BeWordValue(init);
      BeWordBelow(init);
      BelowTop(BeWord(init), |init|);
      Joined32(BeWord(init), b[|b| - 1]);
    }
  }

  // One-shot definition, in the rotating form.

  predicate IvFor(v: Variant, iv: seq<bv32>) {
    match v
    case Small => |iv| == 7 || |iv| == 8
    case Medium => |iv| == 12
    case Big => |iv| == 16
  }

  function InitialState(v: Variant, iv: seq<bv32>): (s: seq<bv32>)
    requires IvFor(v, iv)
    ensures |s| == v.Size()
  {
    seq(v.Size() - |iv|, i => 0) + iv
  }

  function AbsorbAll(v: Variant, mix: Quad -> Quad, s: seq<bv32>, m: seq<Byte>): (t: seq<bv32>)
    requires |s| == v.Size() && |m| % 4 == 0
    ensures |t| == v.Size()
    decreases |m|
  {
    if m == [] then s
    else AbsorbWord(v, AbsorbAll(v, mix, s, m[..|m| - 4]), BeWord(m[|m| - 4..]), mix)
  }

  /** The n leading bits of ub, then zeros. */
  function LeadingBits(ub: bv32, n: nat): Byte
    requires n < 8
  {
    ((ub & !(0xFF >> n)) & 0xFF) as Byte
  }

  lemma LeadingMasked(ub: bv32, n: nat)
    requires n < 8
    ensures LeadingBits(ub, n) == And8(BitsByte(ub), Ones(n))
  {
    if n == 0 {
    } else if n == 1 {
    } else if n == 2 {
    } else if n == 3 {
    } else if n == 4 {
    } else if n == 5 {
    } else if n == 6 {
    } else {
      assert n == 7;
    }
  }

  /** The n bits, then zeros. */
  lemma LeadingBitsAre(ub: bv32, n: nat, i: nat)
    requires n < 8 && i < 8
    ensures Bit(LeadingBits(ub, n), i) == (i < n && Bit(BitsByte(ub), i))
  {
    hide LeadingBits, BitsByte, Bit, And8, Ones;
    LeadingMasked(ub, n);
    AndBit(BitsByte(ub), Ones(n), i);
    OnesBit(n, i);
  }

  function ZeroFill(b: seq<Byte>): (p: seq<Byte>)
    ensures |p| % 4 == 0 && |b| <= |p| < |b| + 4
  {
    var r := |b| % 4;
    if r == 0 then b else b + Repeat(4 - r, 0)
  }

  lemma EightMore(k: nat)
    requires k % 4 == 0
    ensures (k + 8) % 4 == 0
  {
  }

  /** The message bits, zeros up to a whole word, and the bit length as 64 bits. */
  function Padded(m: seq<Byte>, ub: bv32, n: nat): (p: seq<Byte>)
    requires n < 8
    ensures |p| % 4 == 0
  {
    var body := ZeroFill(if n == 0 then m else m + [LeadingBits(ub, n)]);
    EightMore(|body|);
    body + BigEndian((8 * |m| + n) % TWO_64, 8)
  }

  /** The padded message begins with the message, has at most a word of zeros and extra
      bits, and ends in the bit length, most significant byte first. */
  lemma PaddedEnds(m: seq<Byte>, ub: bv32, n: nat)
    requires n < 8
    ensures var p := Padded(m, ub, n);
      |m| + 8 <= |p| <= |m| + 12 && p[..|m|] == m && FromBig(p[|p| - 8..]) == (8 * |m| + n) % TWO_64
  {
    hide LeadingBits, BigEndian, FromBig;
    var bits := (8 * |m| + n) % TWO_64;
    BigReadsBack(bits, 8);
    Pow256Word();
    ModUnique(bits, TWO_64, 0, bits);
    var body := ZeroFill(if n == 0 then m else m + [LeadingBits(ub, n)]);
    assert Padded(m, ub, n) == body + BigEndian(bits, 8);
    assert (body + BigEndian(bits, 8))[|body|..] == BigEndian(bits, 8);
    assert body[..|m|] == m;
  }

  /** What completes the last word of a message of len bytes and n bits. */
  function Filler(len: nat, ub: bv32, n: nat): seq<Byte>
    requires n < 8
  {
    if len % 4 == 0 && n == 0 then [] else [LeadingBits(ub, n)] + Repeat(3 - len % 4, 0)
  }

  lemma LeadingNone(ub: bv32)
    ensures LeadingBits(ub, 0) == 0
  {
  }

  lemma PaddedFiller(m: seq<Byte>, ub: bv32, n: nat)
    requires n < 8
    ensures m + (Filler(|m|, ub, n) + BigEndian((8 * |m| + n) % TWO_64, 8)) == Padded(m, ub, n)
  {
    LeadingNone(ub);
    hide LeadingBits, BigEndian;
    var bits := if n == 0 then m else m + [LeadingBits(ub, n)];
    assert ZeroFill(bits) == m + Filler(|m|, ub, n);
  }

  /** The buffer of the close from plen on, without its four unset bytes. */
  lemma SplitTail(b: seq<Byte>, plen: nat)
    requires |b| == 16 && plen <= 4
    ensures b[plen..][..12 - plen] == b[plen..4] + b[4..12]
  {
  }

  /** The digest of the message m followed by the n leading bits of ub. */
  function Digest(v: Variant, mix: Quad -> Quad, iv: seq<bv32>, m: seq<Byte>, ub: bv32, n: nat): seq<Byte>
    requires IvFor(v, iv) && n < 8
  {
    EncodeBe(Output(v, |iv|, Finish(v, mix, AbsorbAll(v, mix, InitialState(v, iv), Padded(m, ub, n)))))
  }

  lemma FourMore(m: seq<Byte>, w: seq<Byte>)
    requires |m| % 4 == 0 && |w| == 4
    ensures |m + w| % 4 == 0
  {
  }

  /** One case of the switch absorbs one word. */
  lemma PhaseAbsorbs(v: Variant, mix: Quad -> Quad, s0: seq<bv32>, m: seq<Byte>, w: seq<Byte>, s: seq<bv32>, r: nat, p: bv32)
    requires |s0| == |s| == v.Size() && r < v.Phases()
    requires |m| % 4 == 0 && |w| == 4 && p == BeWord(w)
    requires Logical(v, r, s) == AbsorbAll(v, mix, s0, m)
    ensures |m + w| % 4 == 0
    ensures Logical(v, (r + 1) % v.Phases(), Run(Phase(v, r), s, p, mix)) == AbsorbAll(v, mix, s0, m + w)
  {
    hide Shift32, Logical, Run, Phase, AbsorbWord;
    FourMore(m, w);
    PhaseRefines(v, r, s, p, mix);
    assert (m + w)[..|m|] == m && (m + w)[|m|..] == w;
  }

  /** A context holds the message m: its words are absorbed, up to phase r, and
      the plen bytes that are left are in p. */
  ghost predicate Holds(v: Variant, mix: Quad -> Quad, iv: seq<bv32>, m: seq<Byte>, s: seq<bv32>, r: nat, p: bv32, plen: nat)
    requires IvFor(v, iv) && |s| == v.Size() && r < v.Phases()
  {
    var k := |m| - plen;
    0 <= k && plen <= 4 && k % 4 == 0 && p == BeWord(m[k..]) &&
    Logical(v, r, s) == AbsorbAll(v, mix, InitialState(v, iv), m[..k])
  }

  lemma Hold(v: Variant, mix: Quad -> Quad, iv: seq<bv32>, words: seq<Byte>, held: seq<Byte>, s: seq<bv32>, r: nat, p: bv32)
    requires IvFor(v, iv) && |s| == v.Size() && r < v.Phases()
    requires |words| % 4 == 0 && |held| <= 4 && p == BeWord(held)
    requires Logical(v, r, s) == AbsorbAll(v, mix, InitialState(v, iv), words)
    ensures Holds(v, mix, iv, words + held, s, r, p, |held|)
  {
    hide Logical, AbsorbWord, InitialState;
    var m := words + held;
    assert m[..|words|] == words && m[|words|..] == held;
  }

  lemma Held(v: Variant, mix: Quad -> Quad, iv: seq<bv32>, m: seq<Byte>, s: seq<bv32>, r: nat, p: bv32, plen: nat)
    returns (words: seq<Byte>, held: seq<Byte>)
    requires IvFor(v, iv) && |s| == v.Size() && r < v.Phases()
    requires Holds(v, mix, iv, m, s, r, p, plen)
    ensures m == words + held && |words| % 4 == 0 && |held| == plen && p == BeWord(held)
    ensures Logical(v, r, s) == AbsorbAll(v, mix, InitialState(v, iv), words)
  {
    words, held := m[..|m| - plen], m[|m| - plen..];
  }

  class Context {
    const v: Variant
    const mix: Quad -> Quad    // SMIX on four words
    const iv: seq<bv32>
    const S: array<bv32>
    var partial: bv32
    var partialLen: nat
    var roundShift: nat
    var bitCount: nat
    ghost var absorbed: seq<Byte>   // every byte received since the last initialization

    ghost predicate Valid()
      reads this, S
    {
      IvFor(v, iv) && S.Length == 36 && partialLen <= 4 && roundShift < v.Phases() &&
      bitCount == BitCount(|absorbed|) &&
      Holds(v, mix, iv, absorbed, S[..v.Size()], roundShift, partial, partialLen)
    }

    constructor (v: Variant, mix: Quad -> Quad, iv: seq<bv32>)
      requires IvFor(v, iv)
      ensures Valid() && fresh(S) && absorbed == []
      ensures this.v == v && this.mix == mix && this.iv == iv
    {
      this.v, this.mix, this.iv := v, mix, iv;
      S := new bv32[36];
      new;
      Init();
    }

    method Init()
      requires IvFor(v, iv) && S.Length == 36
      modifies this, S
      ensures Valid() && absorbed == []
    {
      hide Holds, Shift32, AbsorbWord;
      var z := v.Size() - |iv|;
      forall u | 0 <= u < z { S[u] := 0; }
      forall u | 0 <= u < |iv| { S[z + u] := iv[u]; }
      assert S[..v.Size()] == InitialState(v, iv);
      assert Logical(v, 0, S[..v.Size()]) == S[..v.Size()];
      partial, partialLen, roundShift, bitCount := 0, 0, 0, 0;
      absorbed := [];
      assert [] + [] == absorbed;
      Hold(v, mix, iv, [], [], S[..v.Size()], 0, 0);
    }

    /** CORE_ENTRY and CORE_EXIT: more bytes shifted into a partial word. */
    method ReadBytes(p: bv32, b: seq<Byte>, ghost before: seq<Byte>) returns (q: bv32)
      requires p == BeWord(before)
      ensures q == BeWord(before + b)
    {
      q := p;
      var i := 0;
      assert before + b[..0] == before;
      while i < |b|
        invariant 0 <= i <= |b|
        invariant q == BeWord(before + b[..i])
      {
        assert (before + b[..i + 1])[..|before| + i] == before + b[..i];
        q, i := Shift32(q, b[i]), i + 1;
      }
      assert b[..i] == b;
    }

    /** The switch into the endless loop: absorbs p, then the words of data as
        long as more than four bytes remain. Returns the bytes it used. */
    method AbsorbWords(s: seq<bv32>, r: nat, p: bv32, data: seq<Byte>, ghost m: seq<Byte>, ghost w: seq<Byte>)
      returns (s': seq<bv32>, r': nat, used: nat, ghost m': seq<Byte>)
      requires IvFor(v, iv) && |s| == v.Size() && r < v.Phases()
      requires |m| % 4 == 0 && |w| == 4 && p == BeWord(w)
      requires Logical(v, r, s) == AbsorbAll(v, mix, InitialState(v, iv), m)
      ensures |s'| == v.Size() && r' < v.Phases()
      ensures used <= |data| <= used + 4 && (data != [] ==> used < |data|)
      ensures |m'| % 4 == 0 && m' == m + (w + data[..used])
      ensures Logical(v, r', s') == AbsorbAll(v, mix, InitialState(v, iv), m')
    {
      hide Shift32, BeWord, Logical, Run, Phase, InitialState, AbsorbAll, Dec32Be;
      var q := p;
      s', r', used, m' := s, r, 0, m;
      ghost var w' := w;
      while true
        invariant |s'| == v.Size() && r' < v.Phases()
        invariant used <= |data| && (data != [] ==> used < |data|)
        invariant |m'| % 4 == 0 && |w'| == 4 && q == BeWord(w')
        invariant Logical(v, r', s') == AbsorbAll(v, mix, InitialState(v, iv), m')
        invariant m' + w' == m + (w + data[..used])
        decreases |data| - used
      {
        PhaseAbsorbs(v, mix, InitialState(v, iv), m', w', s', r', q);
        s' := Run(Phase(v, r'), s', q, mix);
        r' := (r' + 1) % v.Phases();
        m' := m' + w';
        if |data| - used <= 4 {
          break;
        }
        w' := data[used..used + 4];
        BeWordIsDec32Be(w');
        q := Dec32Be(data[used..used + 4]);
        assert data[..used] + w' == data[..used + 4];
        used := used + 4;
      }
    }

    /** The bytes that complete the partial word, as far as there are any. */
    method TopUp(p: bv32, plen: nat, data: seq<Byte>, ghost m: seq<Byte>, ghost w: seq<Byte>)
      returns (p': bv32, plen': nat, rest: seq<Byte>, ghost w': seq<Byte>)
      requires |w| == plen < 4 && p == BeWord(w)
      ensures |w'| == plen' <= 4 && p' == BeWord(w') && m + w' + rest == m + w + data
      ensures (rest != [] ==> plen' == 4) && (data != [] ==> plen' > 0)
    {
      hide BeWord;
      var count := Min(4 - plen, |data|);
      Regroup(m, w, data, count);
      p' := ReadBytes(p, data[..count], w);
      plen', rest, w' := plen + count, data[count..], w + data[..count];
    }

    /** The body of a core, on the local copies of the fields. */
    method Absorb(s: seq<bv32>, r: nat, p: bv32, plen: nat, data: seq<Byte>, ghost m0: seq<Byte>)
      returns (s': seq<bv32>, r': nat, p': bv32, plen': nat)
      requires IvFor(v, iv) && |s| == v.Size() && r < v.Phases() && plen <= 4
      requires Holds(v, mix, iv, m0, s, r, p, plen)
      ensures |s'| == v.Size() && r' < v.Phases() && plen' <= 4
      ensures Holds(v, mix, iv, m0 + data, s', r', p', plen')
      ensures data != [] ==> plen' > 0
    {
      hide Shift32, Logical, Run, Phase, InitialState, Holds, AbsorbAll, BeWord;
      ghost var m, w := Held(v, mix, iv, m0, s, r, p, plen);
      s', r', p', plen' := s, r, p, plen;
      var rest := data;
      if plen < 4 {
        p', plen', rest, w := TopUp(p, plen, data, m, w);
        if rest == [] {
          assert m + w + [] == m + w;
          Hold(v, mix, iv, m, w, s', r', p');
          return;
        }
      }
      s', r', p', plen' := AbsorbRest(s, r, p', rest, m, w);
    }

    /** From the switch on: a whole partial word, the words of the data, what is left of it. */
    method AbsorbRest(s: seq<bv32>, r: nat, p: bv32, data: seq<Byte>, ghost m: seq<Byte>, ghost w: seq<Byte>)
      returns (s': seq<bv32>, r': nat, p': bv32, plen': nat)
      requires IvFor(v, iv) && |s| == v.Size() && r < v.Phases()
      requires |m| % 4 == 0 && |w| == 4 && p == BeWord(w)
      requires Logical(v, r, s) == AbsorbAll(v, mix, InitialState(v, iv), m)
      ensures |s'| == v.Size() && r' < v.Phases() && plen' <= 4
      ensures Holds(v, mix, iv, m + w + data, s', r', p', plen')
      ensures data != [] ==> plen' > 0
    {
      NoBytes();
      hide Shift32, Logical, Run, Phase, InitialState, Holds, AbsorbAll, BeWord;
      var used: nat;
      ghost var m';
      s', r', used, m' := AbsorbWords(s, r, p, data, m, w);
      Regroup(m, w, data, used);
      var held := data[used..];
      p' := ReadBytes(0, held, []);
      plen' := |held|;
      assert [] + held == held;
      Hold(v, mix, iv, m', held, s', r', p');
    }

    lemma NoBytes()
      ensures BeWord([]) == 0
    {
    }

    method Core(data: seq<Byte>)
      requires Valid()
      modifies this, S
      ensures Valid() && absorbed == old(absorbed) + data
      ensures data != [] ==> partialLen > 0
    {
      hide Holds, BitCount;
      var s, r, p, plen := Absorb(S[..v.Size()], roundShift, partial, partialLen, data, absorbed);
      BitCountAdd(|absorbed|, |data|);
      bitCount := (bitCount + 8 * |data|) % TWO_64;
      partial, partialLen, roundShift := p, plen, r;
      absorbed := absorbed + data;
      forall u | 0 <= u < v.Size() { S[u] := s[u]; }
      assert S[..v.Size()] == s;
    }

    /** The last bits, in the first four bytes of the buffer; from plen on they complete
        the last word. */
    method PutBits(buf: array<Byte>, ub: bv32, n: nat, ghost len: nat) returns (plen: nat)
      requires buf.Length == 16 && n < 8 && partialLen <= 4 && len % 4 == partialLen % 4
      modifies buf
      ensures plen <= 4 && buf[plen..4] == Filler(len, ub, n) && buf[4..12] == old(buf[4..12])
    {
      hide LeadingBits;
      plen := partialLen;
      if plen == 0 && n == 0 {
        plen := 4;
      } else if plen < 4 || n != 0 {
        if plen == 4 {
          plen := 0;
        }
        PutFirst(buf, plen, LeadingBits(ub, n));
      }
    }

    method PutFirst(buf: array<Byte>, plen: nat, first: Byte)
      requires buf.Length == 16 && plen < 4
      modifies buf
      ensures buf[plen..4] == [first] + Repeat(3 - plen, 0) && buf[4..12] == old(buf[4..12])
    {
      buf[plen] := first;
      Fill(buf, plen + 1, 3 - plen, 0);
    }

    /** The start of CLOSE_ENTRY: what the core is fed after the message m. The
        last four bytes of the buffer are never set. */
    method CloseInput(ub: bv32, n: nat, ghost m: seq<Byte>) returns (tail: seq<Byte>)
      requires n < 8 && partialLen <= 4
      requires |m| % 4 == partialLen % 4 && bitCount == BitCount(|m|)
      ensures |tail| > 4 && m + tail[..|tail| - 4] == Padded(m, ub, n)
    {
      hide Filler, Padded, BigEndian;
      ModAdd(8 * |m|, n, TWO_64);
      var buf := new Byte[16];
      CopyInto(buf, 4, BigEndian((bitCount + n) % TWO_64, 8));
      ghost var count := BigEndian((8 * |m| + n) % TWO_64, 8);
      assert buf[4..12] == count;
      var plen := PutBits(buf, ub, n, |m|);
      tail := buf[plen..];
      ghost var all := buf[..];
      SplitTail(all, plen);
      assert tail == all[plen..] && all[plen..4] == buf[plen..4] && all[4..12] == buf[4..12];
      PaddedFiller(m, ub, n);
    }

    /** The close: whatever the splits of the input were, the digest of the whole
        message; the context starts afresh. */
    method Close(ub: bv32, n: nat) returns (out: seq<Byte>)
      requires Valid() && n < 8
      modifies this, S
      ensures out == Digest(v, mix, iv, old(absorbed), ub, n)
      ensures Valid() && absorbed == []
    {
      hide Holds, BitCount, Logical, AbsorbAll, Padded, InitialState, Finish, Output, EncodeBe;
      ghost var m := absorbed;
      ghost var words, held := Held(v, mix, iv, m, S[..v.Size()], roundShift, partial, partialLen);
      var tail := CloseInput(ub, n, m);
      Core(tail);
      words, held := Held(v, mix, iv, absorbed, S[..v.Size()], roundShift, partial, partialLen);
      AbsorbedPadding(m, tail, words, held, Padded(m, ub, n));
      var s := Realign(S[..v.Size()], roundShift);
      s := FinishRounds(v, s, mix);
      s := DigestWords(v, |iv|, s);
      out := EncodeBe(s);
      Init();
    }

    lemma AbsorbedPadding(m: seq<Byte>, tail: seq<Byte>, words: seq<Byte>, held: seq<Byte>, padded: seq<Byte>)
      requires m + tail == words + held && |tail| > 4 && m + tail[..|tail| - 4] == padded
      requires |words| % 4 == 0 && 0 < |held| <= 4 && |padded| % 4 == 0
      ensures words == padded
    {
      assert words == (words + held)[..|words|] && padded == (m + tail)[..|padded|];
    }

    /** The end of CLOSE_ENTRY: the two copies undo the rotation. */
    method Realign(s: seq<bv32>, r: nat) returns (t: seq<bv32>)
      requires |s| == v.Size() && r < v.Phases()
      ensures t == Logical(v, r, s)
    {
      var rms := r * v.Step();
      t := s[v.Size() - rms..] + s[..v.Size() - rms];
    }
  }

  /** Any run of the interface on one message: every split gives the same digest. */
  method DigestOfPieces(v: Variant, mix: Quad -> Quad, iv: seq<bv32>, pieces: seq<seq<Byte>>, ub: bv32, n: nat) returns (out: seq<Byte>)
    requires IvFor(v, iv) && n < 8
    ensures out == Digest(v, mix, iv, Flatten(pieces), ub, n)
  {
    hide Digest, Holds;
    var sc := new Context(v, mix, iv);
    for i := 0 to |pieces|
      invariant sc.Valid() && fresh(sc) && fresh(sc.S)
      invariant sc.v == v && sc.mix == mix && sc.iv == iv && sc.absorbed == Flatten(pieces[..i])
    {
      FlattenSnoc(pieces, i);
      sc.Core(pieces[i]);
    }
    assert pieces[..|pieces|] == pieces;
    out := sc.Close(ub, n);
  }
}

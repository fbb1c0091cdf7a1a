/** BLAKE-224/256 and BLAKE-384/512 as incremental hashes. Their two-word bit
    counter always goes up before a block is compressed, so the close presets it
    below the value that the last block needs. */
module Blake {
  import opened Bits
  import opened Bytes
  import opened Blocks
  import opened Output

  datatype Variant = Small | Big {
    // Bytes in a block.
    function Block(): (b: nat)
      ensures b > 0
    {
      if Small? then 64 else 128
    }

    // Bytes in a word of the counter and of the length field.
    function WordBytes(): nat { if Small? then 4 else 8 }

    // One more than the largest word.
    function Word(): (w: nat)
      ensures w > 0
    {
      if Small? then TWO_32 else TWO_64
    }
  }

  /** n bytes are a whole number of blocks. */
  predicate Whole(v: Variant, n: nat) { if v.Small? then n % 64 == 0 else n % 128 == 0 }

  lemma NextWhole(v: Variant, n: nat)
    ensures Whole(v, 0) && Whole(v, n + v.Block()) == Whole(v, n)
  {
    match v
    case Small => ModShift(n + 64, 64, 1, n);
    case Big => ModShift(n + 128, 128, 1, n);
  }

  lemma OneBlock(v: Variant, n: nat)
    ensures Whole(v, n) && n <= v.Block() ==> n == 0 || n == v.Block()
  {
  }

  lemma WholeSum(v: Variant, a: nat, b: nat)
    requires Whole(v, a) && Whole(v, b)
    ensures Whole(v, a + b)
  {
    match v
    case Small => ModShift(a + b, 64, a / 64, b);
    case Big => ModShift(a + b, 128, a / 128, b);
  }

  /** Anything whole ends with a block. */
  lemma LastWhole(v: Variant, n: nat)
    requires Whole(v, n) && n > 0
    ensures n >= v.Block() && Whole(v, n - v.Block())
  {
  }

  // Chain value, block, low and high counter word.
  type Compression<!H> = (H, seq<Byte>, nat, nat) -> H

  // Two-word counters.

  function Lo(v: Variant, n: nat): nat { n % v.Word() }

  function Hi(v: Variant, n: nat): nat { n / v.Word() % v.Word() }

  // One-shot definition.

  /** Message bits hashed once the block at byte offset d is, of bits in all;
      0 for a block that holds none of them. */
  function Count(v: Variant, bits: nat, d: nat): nat {
    if bits <= 8 * d then 0 else Min(8 * (d + v.Block()), bits)
  }

  function Step<H>(v: Variant, F: Compression<H>, bits: nat): (H, nat, seq<Byte>) -> H {
    (h: H, d: nat, block: seq<Byte>) =>
      F(h, block, Lo(v, Count(v, bits, d)), Hi(v, Count(v, bits, d)))
  }

  /** Length of the padded message without its length field: room for the bits,
      a one bit and, as a bit of its own, the marker. */
  function BodyLength(v: Variant, len: nat, n: nat): (r: nat)
    requires n < 8
    ensures r > len && Whole(v, r + 2 * v.WordBytes())
  {
    var least := if n == 7 then len + 2 else len + 1;
    var field := least + 2 * v.WordBytes();
    var over := if v.Small? then field % 64 else field % 128;
    RoundsUp(field, v.Block());
    if over == 0 then least else least + v.Block() - over
  }

  function LengthField(v: Variant, bits: nat): seq<Byte> {
    BigEndian(Hi(v, bits), v.WordBytes()) + BigEndian(Lo(v, bits), v.WordBytes())
  }

  /** The two words are one number, the bit count modulo the square of a word. */
  lemma LengthFieldValue(v: Variant, bits: nat)
    ensures |LengthField(v, bits)| == 2 * v.WordBytes()
    ensures FromBig(LengthField(v, bits)) == bits % (v.Word() * v.Word())
  {
    hide BigEndian, FromBig, Lo, Hi, Variant.Word;
    var hi, lo := Hi(v, bits), Lo(v, bits);
    WordIs(v);
    BigConcat(BigEndian(hi, v.WordBytes()), BigEndian(lo, v.WordBytes()));
    BigReadsBack(hi, v.WordBytes());
    BigReadsBack(lo, v.WordBytes());
    TwoWords(v, bits);
  }

  lemma WordIs(v: Variant)
    ensures Pow256(v.WordBytes()) == v.Word() && v.Block() == 16 * v.WordBytes()
  {
    Pow256Word();
    assert Pow256(4) == 256 * Pow256(3) && Pow256(3) == 256 * Pow256(2);
  }

  lemma TwoWords(v: Variant, bits: nat)
    ensures Lo(v, bits) % v.Word() == Lo(v, bits) && Hi(v, bits) % v.Word() == Hi(v, bits)
    ensures Hi(v, bits) * v.Word() + Lo(v, bits) == bits % (v.Word() * v.Word())
  {
    TwoDigits(bits, v.Word());
  }

  lemma TwoDigits(n: nat, w: nat)
    requires w > 0
    ensures n % w % w == n % w && n / w % w % w == n / w % w
    ensures n / w % w * w + n % w == n % (w * w)
  {
    var lo, hi := n % w, n / w % w;
    ModUnique(lo, w, 0, lo);
    ModUnique(hi, w, 0, hi);
    DigitsBelow(w, hi, lo);
    DigitsOf(n, w, n / w, n / w / w, hi, lo);
    RestOf(n, w * w, n / w / w, hi * w + lo);
  }

  lemma RestOf(n: nat, big: nat, top: nat, rest: nat)
    requires rest < big && n == big * top + rest
    ensures n % big == rest
  {
    ModUnique(n, big, top, rest);
  }

  lemma DigitsOf(n: nat, w: nat, q: nat, top: nat, hi: nat, lo: nat)
    requires n == w * q + lo && q == w * top + hi
    ensures n == w * w * top + (hi * w + lo)
  {
    Distributes(w, w * top, hi);
    MulFactor(w, w, top);
  }

  lemma Distributes(w: nat, a: nat, b: nat)
    ensures w * (a + b) == w * a + b * w
  {
  }

  lemma DigitsBelow(w: nat, hi: nat, lo: nat)
    requires hi < w && lo < w
    ensures hi * w + lo < w * w
  {
    MulOrder(w, hi + 1, w);
    Distributes(w, hi, 1);
  }

  /** The bits, a one, zeros, the marker (only for the longer digests), the length. */
  function Padded(v: Variant, m: seq<Byte>, ub: bv32, n: nat, marker: bool): (p: seq<Byte>)
    requires n < 8
  {
    var zeros := Repeat(BodyLength(v, |m|, n) - |m| - 1, 0);
    var body := m + [TrailingByte(ub, n)] + zeros;
    Mark(body, marker) + LengthField(v, 8 * |m| + n)
  }

  function Mark(body: seq<Byte>, marker: bool): seq<Byte>
    requires body != []
  {
    if marker then body[|body| - 1 := body[|body| - 1] | 1] else body
  }

  lemma MarkBits(body: seq<Byte>, marker: bool, i: nat)
    requires body != [] && i < 8
    ensures |Mark(body, marker)| == |body| && Mark(body, marker)[..|body| - 1] == body[..|body| - 1]
    ensures Bit(Mark(body, marker)[|body| - 1], i) == (Bit(body[|body| - 1], i) || (marker && i == 7))
  {
    hide Bit, Or8, OneAt;
    OrBit(body[|body| - 1], OneAt(7), i);
    OneAtBit(7, i);
    MarkIsOr(body);
  }

  lemma MarkIsOr(body: seq<Byte>)
    requires body != []
    ensures Mark(body, true)[|body| - 1] == Or8(body[|body| - 1], OneAt(7))
  {
  }

  /** The padded message is whole blocks with the fewest zeros, and ends in its own
      length in bits; the bit before that is the marker. */
  lemma PaddedEnds(v: Variant, m: seq<Byte>, ub: bv32, n: nat, marker: bool)
    requires n < 8
    ensures var p, k := Padded(v, m, ub, n, marker), 2 * v.WordBytes();
      |m| + 1 + k <= |p| < |m| + (if n == 7 then 2 else 1) + k + v.Block() && Whole(v, |p|) &&
      FromBig(p[|p| - k..]) == (8 * |m| + n) % (v.Word() * v.Word()) &&
      Bit(p[|p| - k - 1], 7) == marker
  {
    hide FromBig, LengthField, Mark, Bit, TrailingByte, BitsByte;
    LengthFieldValue(v, 8 * |m| + n);
    var zeros := Repeat(BodyLength(v, |m|, n) - |m| - 1, 0);
    var body := m + [TrailingByte(ub, n)] + zeros;
    MarkBits(body, marker, 7);
    Bits.NoBits(7);
    TrailingByteBits(ub, n, 7);
    var p, k := Padded(v, m, ub, n, marker), 2 * v.WordBytes();
    assert p[|p| - k..] == LengthField(v, 8 * |m| + n) && p[|p| - k - 1] == Mark(body, marker)[|body| - 1];
  }

  /** The chain value after the padded message. */
  function Chain<H>(v: Variant, F: Compression<H>, iv: H, m: seq<Byte>, ub: bv32, n: nat, marker: bool): H
    requires n < 8
  {
    Fold(Step(v, F, 8 * |m| + n), iv, Padded(v, m, ub, n, marker), v.Block())
  }

  /** The first words of that chain value. The longer digest of each size has the marker. */
  function Digest<H>(v: Variant, F: Compression<H>, word: (H, nat) -> nat, iv: H, m: seq<Byte>, ub: bv32, n: nat, outWords: nat): seq<Byte>
    requires n < 8
  {
    Written(word, Chain(v, F, iv, m, ub, n, outWords == 8), outWords, v.WordBytes(), true)
  }

  // The code's counter.

  function IncLo(v: Variant, t0: nat): nat { (t0 + 8 * v.Block()) % v.Word() }

  function IncHi(v: Variant, t0: nat, t1: nat): nat {
    if IncLo(v, t0) < 8 * v.Block() then (t1 + 1) % v.Word() else t1
  }

  lemma IncIsCount(v: Variant, n: nat)
    ensures IncLo(v, Lo(v, n)) == Lo(v, n + 8 * v.Block())
    ensures IncHi(v, Lo(v, n), Hi(v, n)) == Hi(v, n + 8 * v.Block())
  {
    CarryWord(n, 8 * v.Block(), v.Word());
  }

  /** The counter of whole blocks is zero or a block, and one more does not overflow its low word. */
  lemma AlignedCount(v: Variant, done: nat)
    requires Whole(v, done)
    ensures (Lo(v, 8 * done) == 0 || Lo(v, 8 * done) >= 8 * v.Block()) && Lo(v, 8 * done) + 8 * v.Block() <= v.Word()
  {
    match v
    case Small =>
      ModUnique(8 * done, 512, done / 64, 0);
      AlignedWord(8 * done, 512, TWO_32, 0x80_0000);
    case Big =>
      ModUnique(8 * done, 1024, done / 128, 0);
      AlignedWord(8 * done, 1024, TWO_64, 0x40_0000_0000_0000);
  }

  /** What close leaves in the counter before the last block with message bits:
      done bytes are compressed, and rest bits are not. */
  function Preset(v: Variant, t0: nat, t1: nat, rest: nat): (int, int) {
    if rest == 0 then (v.Word() - 8 * v.Block(), v.Word() - 1)
    else if t0 == 0 then (v.Word() - 8 * v.Block() + rest, (t1 - 1) % v.Word())
    else (t0 - (8 * v.Block() - rest), t1)
  }

  /** The presets underflow on purpose: the increment lands on the right count. */
  lemma PresetLands(v: Variant, done: nat, rest: nat)
    requires Whole(v, done) && rest < 8 * v.Block()
    ensures var (p0, p1) := Preset(v, Lo(v, 8 * done), Hi(v, 8 * done), rest);
      var count := Count(v, 8 * done + rest, done);
      0 <= p0 < v.Word() && 0 <= p1 < v.Word() &&
      IncLo(v, p0) == Lo(v, count) && IncHi(v, p0, p1) == Hi(v, count)
  {
    hide Count, Whole, Preset, Lo, Hi, IncLo, IncHi;
    AlignedCount(v, done);
    CountOf(v, done, rest);
    if rest == 0 {
      PresetZero(v, Lo(v, 8 * done), Hi(v, 8 * done));
    } else if Lo(v, 8 * done) == 0 {
      PresetBorrows(v, 8 * done, rest);
    } else {
      PresetBack(v, 8 * done, rest);
    }
  }

  lemma PresetZero(v: Variant, t0: nat, t1: nat)
    ensures var (p0, p1) := Preset(v, t0, t1, 0);
      0 <= p0 < v.Word() && 0 <= p1 < v.Word() && IncLo(v, p0) == Lo(v, 0) && IncHi(v, p0, p1) == Hi(v, 0)
  {
    ModUnique(v.Word(), v.Word(), 1, 0);
  }

  lemma PresetBorrows(v: Variant, n: nat, rest: nat)
    requires 0 < rest < 8 * v.Block() && Lo(v, n) == 0
    ensures var (p0, p1) := Preset(v, Lo(v, n), Hi(v, n), rest);
      0 <= p0 < v.Word() && 0 <= p1 < v.Word() && IncLo(v, p0) == Lo(v, n + rest) && IncHi(v, p0, p1) == Hi(v, n + rest)
  {
    PresetBelow(v.Word(), 8 * v.Block(), n, rest);
  }

  lemma PresetBack(v: Variant, n: nat, rest: nat)
    requires 0 < rest < 8 * v.Block() && Lo(v, n) >= 8 * v.Block() && Lo(v, n) + 8 * v.Block() <= v.Word()
    ensures var (p0, p1) := Preset(v, Lo(v, n), Hi(v, n), rest);
      0 <= p0 < v.Word() && 0 <= p1 < v.Word() && IncLo(v, p0) == Lo(v, n + rest) && IncHi(v, p0, p1) == Hi(v, n + rest)
  {
    PresetWithin(v.Word(), 8 * v.Block(), n, rest);
  }

  lemma CountOf(v: Variant, done: nat, rest: nat)
    requires rest < 8 * v.Block()
    ensures Count(v, 8 * done + rest, done) == if rest == 0 then 0 else 8 * done + rest
  {
  }

  /** A zero low word: the preset borrows from the high one, and the carry gives back. */
  lemma PresetBelow(w: nat, a: nat, n: nat, rest: nat)
    requires 0 < rest < a <= w && n % w == 0
    ensures var p1 := (n / w % w - 1) % w;
      0 <= p1 < w && w - a + rest < w && (w - a + rest + a) % w == rest == (n + rest) % w &&
      (p1 + 1) % w == n / w % w == (n + rest) / w % w
  {
    WrapAdd(n, rest, w);
    ModUnique(w + rest, w, 1, rest);
    var t1 := n / w % w;
    if t1 == 0 {
      ModMinusOne(w);
      ModUnique(w, w, 1, 0);
    } else {
      ModUnique(t1 - 1, w, 0, t1 - 1);
      ModUnique(t1, w, 0, t1);
    }
  }

  lemma ModMinusOne(w: nat)
    requires w > 0
    ensures (-1) % w == w - 1
  {
    assert -1 == w * (-1) + (w - 1);
  }

  lemma PresetWithin(w: nat, a: nat, n: nat, rest: nat)
    requires 0 < w && 0 < rest < a && a <= n % w && n % w + a <= w
    ensures (n % w - (a - rest) + a) % w == (n + rest) % w >= a && (n + rest) / w % w == n / w % w
  {
    WrapAdd(n, rest, w);
    ModUnique(n % w + rest, w, 0, n % w + rest);
  }

  /** The length words are the counter with the last bits added, with no carry. */
  lemma LengthWords(v: Variant, done: nat, rest: nat)
    requires Whole(v, done) && rest < 8 * v.Block()
    ensures Lo(v, 8 * done + rest) == (Lo(v, 8 * done) + rest) % v.Word()
    ensures Hi(v, 8 * done + rest) == Hi(v, 8 * done)
  {
    AlignedCount(v, done);
    WrapAdd(8 * done, rest, v.Word());
  }

  // Blocks compressed with the code's counter.

  type Raw<!H> = (H, nat, nat)

  function RawStep<H>(v: Variant, F: Compression<H>): (Raw<H>, nat, seq<Byte>) -> Raw<H> {
    (s: Raw<H>, d: nat, block: seq<Byte>) =>
      var t0, t1 := IncLo(v, s.1), IncHi(v, s.1, s.2);
      (F(s.0, block, t0, t1), t0, t1)
  }

  /** The step while the message goes on: every block is full of message bits. */
  function FullStep<H>(v: Variant, F: Compression<H>): (H, nat, seq<Byte>) -> H {
    (h: H, d: nat, block: seq<Byte>) =>
      F(h, block, Lo(v, 8 * (d + v.Block())), Hi(v, 8 * (d + v.Block())))
  }

  /** Where the code's state is after the full blocks done of a message. */
  function Reached<H>(v: Variant, F: Compression<H>, iv: H, done: seq<Byte>): Raw<H> {
    (Fold(FullStep(v, F), iv, done, v.Block()), Lo(v, 8 * |done|), Hi(v, 8 * |done|))
  }

  ghost predicate Reaches<H>(v: Variant, F: Compression<H>, iv: H, done: seq<Byte>, h: H, t0: nat, t1: nat) {
    (h, t0, t1) == Reached(v, F, iv, done)
  }

  lemma StartReached<H>(v: Variant, F: Compression<H>, iv: H)
    ensures Whole(v, 0) && Reaches(v, F, iv, [], iv, 0, 0)
  {
  }

  lemma NextReached<H>(v: Variant, F: Compression<H>, iv: H, done: seq<Byte>, block: seq<Byte>, d: nat)
    requires |block| == v.Block()
    ensures RawStep(v, F)(Reached(v, F, iv, done), d, block) == Reached(v, F, iv, done + block)
  {
    hide Lo, Hi, IncLo, IncHi;
    FoldSnoc(FullStep(v, F), iv, done, block, v.Block());
    IncIsCount(v, 8 * |done|);
  }

  lemma {:induction false} RawReaches<H>(v: Variant, F: Compression<H>, iv: H, done: seq<Byte>, more: seq<Byte>)
    requires Whole(v, |more|)
    ensures Fold(RawStep(v, F), Reached(v, F, iv, done), more, v.Block()) == Reached(v, F, iv, done + more)
    decreases |more|
  {
    hide Reached, RawStep, Whole, Fold;
    if more == [] {
      assert done + more == done;
      FoldNothing(RawStep(v, F), Reached(v, F, iv, done), v.Block());
    } else {
      var d := |more| - v.Block();
      LastWhole(v, |more|);
      assert more[..d] + more[d..] == more;
      FoldSnoc(RawStep(v, F), Reached(v, F, iv, done), more[..d], more[d..], v.Block());
      RawReaches(v, F, iv, done, more[..d]);
      NextReached(v, F, iv, done + more[..d], more[d..], d);
      assert done + more[..d] + more[d..] == done + more;
    }
  }

  /** Counting towards the whole length makes no difference before its end. */
  lemma FullIsCounted<H>(v: Variant, F: Compression<H>, iv: H, done: seq<Byte>, bits: nat)
    requires 8 * |done| <= bits
    ensures Fold(FullStep(v, F), iv, done, v.Block()) == Fold(Step(v, F, bits), iv, done, v.Block())
  {
    forall t: H, d: nat, b: seq<Byte> | d + v.Block() <= |done|
      ensures FullStep(v, F)(t, d, b) == Step(v, F, bits)(t, d, b)
    {
      assert Count(v, bits, d) == 8 * (d + v.Block());
    }
    FoldAgree(FullStep(v, F), Step(v, F, bits), iv, done, v.Block());
  }

  /** Bits in the last block that still leave room for a one bit, the marker and the length. */
  function Limit(v: Variant): nat { if v.Small? then 446 else 894 }

  lemma BodyEnds(v: Variant, done: nat, rest: nat, n: nat)
    requires n < 8 && Whole(v, done) && rest < v.Block()
    ensures BodyLength(v, done + rest, n) + 2 * v.WordBytes() ==
      done + (if 8 * rest + n <= Limit(v) then v.Block() else 2 * v.Block())
  {
    PastWhole(done, rest + (if n == 7 then 2 else 1) + 2 * v.WordBytes(), v.Block());
  }

  lemma MarkLast(a: seq<Byte>, z: seq<Byte>, marker: bool)
    requires z != []
    ensures Mark(a + z, marker) == a + Mark(z, marker)
  {
  }

  lemma Reassociate(a: seq<Byte>, b: seq<Byte>, c: seq<Byte>)
    ensures a + b + c == a + (b + c)
  {
  }

  /** What follows the end of the message in a close of one block. */
  function OnlyTail(v: Variant, rest: nat, bits: nat, ub: bv32, n: nat, marker: bool): (t: seq<Byte>)
    requires n < 8 && 8 * rest + n <= Limit(v)
    ensures rest + |t| == v.Block()
  {
    Mark([TrailingByte(ub, n)] + Repeat(v.Block() - 2 * v.WordBytes() - 1 - rest, 0), marker) + LengthField(v, bits)
  }

  function FirstTail(v: Variant, rest: nat, ub: bv32, n: nat): (t: seq<Byte>)
    requires n < 8 && rest < v.Block()
    ensures rest + |t| == v.Block()
  {
    [TrailingByte(ub, n)] + Repeat(v.Block() - 1 - rest, 0)
  }

  function SecondBlock(v: Variant, bits: nat, marker: bool): (t: seq<Byte>)
    ensures |t| == v.Block()
  {
    Mark(Repeat(v.Block() - 2 * v.WordBytes(), 0), marker) + LengthField(v, bits)
  }

  /** Marking and the length field concern only what follows the message. */
  lemma PaddedAfter(v: Variant, m: seq<Byte>, ub: bv32, n: nat, marker: bool, end: seq<Byte>)
    requires n < 8 && end == [TrailingByte(ub, n)] + Repeat(BodyLength(v, |m|, n) - |m| - 1, 0)
    ensures Padded(v, m, ub, n, marker) == m + (Mark(end, marker) + LengthField(v, 8 * |m| + n))
  {
    hide TrailingByte, LengthField, BodyLength, Mark;
    var zeros := Repeat(BodyLength(v, |m|, n) - |m| - 1, 0);
    Reassociate(m, [TrailingByte(ub, n)], zeros);
    MarkLast(m, end, marker);
    Reassociate(m, Mark(end, marker), LengthField(v, 8 * |m| + n));
  }

  lemma PaddedOnce(v: Variant, done: seq<Byte>, rest: seq<Byte>, ub: bv32, n: nat, marker: bool)
    requires n < 8 && Whole(v, |done|) && |rest| < v.Block() && 8 * |rest| + n <= Limit(v)
    ensures Padded(v, done + rest, ub, n, marker) ==
      done + (rest + OnlyTail(v, |rest|, 8 * |done + rest| + n, ub, n, marker))
  {
    hide TrailingByte, LengthField, BodyLength, Mark, Whole, Padded;
    var end := [TrailingByte(ub, n)] + Repeat(v.Block() - 2 * v.WordBytes() - 1 - |rest|, 0);
    BodyEnds(v, |done|, |rest|, n);
    PaddedAfter(v, done + rest, ub, n, marker, end);
    Reassociate(done, rest, Mark(end, marker) + LengthField(v, 8 * |done + rest| + n));
  }

  lemma PaddedTwice(v: Variant, done: seq<Byte>, rest: seq<Byte>, ub: bv32, n: nat, marker: bool)
    requires n < 8 && Whole(v, |done|) && |rest| < v.Block() && 8 * |rest| + n > Limit(v)
    ensures Padded(v, done + rest, ub, n, marker) ==
      done + (rest + FirstTail(v, |rest|, ub, n)) + SecondBlock(v, 8 * |done + rest| + n, marker)
  {
    hide TrailingByte, LengthField, BodyLength, Mark, Whole, Padded;
    var a, b := v.Block() - 1 - |rest|, v.Block() - 2 * v.WordBytes();
    var first, zeros, field := FirstTail(v, |rest|, ub, n), Repeat(b, 0), LengthField(v, 8 * |done + rest| + n);
    BodyEnds(v, |done|, |rest|, n);
    assert Repeat(a, 0) + Repeat(b, 0) == Repeat(a + b, 0);
    Reassociate([TrailingByte(ub, n)], Repeat(a, 0), Repeat(b, 0));
    PaddedAfter(v, done + rest, ub, n, marker, first + zeros);
    MarkLast(first, zeros, marker);
    Reassociate(first, Mark(zeros, marker), field);
    Reassociate(done, rest, first);
    Reassociate(done + rest, first, Mark(zeros, marker) + field);
  }

  lemma NoBits(v: Variant, bits: nat, d: nat)
    requires bits <= 8 * d
    ensures Lo(v, Count(v, bits, d)) == Hi(v, Count(v, bits, d)) == 0
  {
  }

  lemma ChainOnce<H(!new)>(v: Variant, F: Compression<H>, iv: H, done: seq<Byte>, rest: seq<Byte>, ub: bv32, n: nat, marker: bool)
    requires n < 8 && Whole(v, |done|) && |rest| < v.Block() && 8 * |rest| + n <= Limit(v)
    ensures var bits := 8 * |done + rest| + n;
      var count := Count(v, bits, |done|);
      Chain(v, F, iv, done + rest, ub, n, marker) ==
      F(Fold(FullStep(v, F), iv, done, v.Block()), rest + OnlyTail(v, |rest|, bits, ub, n, marker), Lo(v, count), Hi(v, count))
  {
    hide Padded, BodyLength, FullStep, Fold, LengthField, Mark, TrailingByte, Count, Lo, Hi, Whole, OnlyTail, FirstTail, SecondBlock;
    var bits := 8 * |done + rest| + n;
    PaddedOnce(v, done, rest, ub, n, marker);
    FullIsCounted(v, F, iv, done, bits);
    FoldSnoc(Step(v, F, bits), iv, done, rest + OnlyTail(v, |rest|, bits, ub, n, marker), v.Block());
  }

  lemma ChainTwice<H(!new)>(v: Variant, F: Compression<H>, iv: H, done: seq<Byte>, rest: seq<Byte>, ub: bv32, n: nat, marker: bool)
    requires n < 8 && Whole(v, |done|) && |rest| < v.Block() && 8 * |rest| + n > Limit(v)
    ensures var bits := 8 * |done + rest| + n;
      var count := Count(v, bits, |done|);
      Chain(v, F, iv, done + rest, ub, n, marker) ==
      F(F(Fold(FullStep(v, F), iv, done, v.Block()), rest + FirstTail(v, |rest|, ub, n), Lo(v, count), Hi(v, count)),
        SecondBlock(v, bits, marker), 0, 0)
  {
    hide Padded, BodyLength, FullStep, Fold, LengthField, Mark, TrailingByte, Count, Lo, Hi, Whole, OnlyTail, FirstTail, SecondBlock;
    var bits := 8 * |done + rest| + n;
    var first := rest + FirstTail(v, |rest|, ub, n);
    PaddedTwice(v, done, rest, ub, n, marker);
    FullIsCounted(v, F, iv, done, bits);
    NoBits(v, bits, |done + first|);
    FoldSnoc(Step(v, F, bits), iv, done, first, v.Block());
    FoldSnoc(Step(v, F, bits), iv, done + first, SecondBlock(v, bits, marker), v.Block());
  }

  lemma ZeroComes(v: Variant)
    ensures IncLo(v, v.Word() - 8 * v.Block()) == 0 && IncHi(v, v.Word() - 8 * v.Block(), v.Word() - 1) == 0
    ensures 8 * v.Block() <= v.Word()
  {
  }

  class Context<H(!new)> {
    const v: Variant
    const F: Compression<H>   // the rounds, with the salt fixed
    const word: (H, nat) -> nat   // word k of a chain value
    const iv: H
    const buf: array<Byte>
    var h: H
    var t0: nat
    var t1: nat
    var ptr: nat
    ghost var absorbed: seq<Byte>   // every byte received since the last initialization

    ghost predicate Structure()
      reads this
    {
      buf.Length == v.Block() && ptr < v.Block() && t0 < v.Word() && t1 < v.Word()
    }

    ghost predicate Valid()
      reads this, buf
    {
      Structure() && ptr <= |absorbed| &&
      var k := |absorbed| - ptr;
      Whole(v, k) && buf[..ptr] == absorbed[k..] && Reaches(v, F, iv, absorbed[..k], h, t0, t1)
    }

    constructor (v: Variant, F: Compression<H>, word: (H, nat) -> nat, iv: H)
      ensures Valid() && fresh(buf) && absorbed == []
      ensures this.v == v && this.F == F && this.word == word && this.iv == iv
    {
      hide Valid, Structure, Variant.Block;
      this.v, this.F, this.word, this.iv, this.h := v, F, word, iv, iv;
      buf := new Byte[v.Block()];
      t0, t1, ptr, absorbed := 0, 0, 0, [];
      new;
      Init();
    }

    method Init()
      requires buf.Length == v.Block()
      modifies this
      ensures Valid() && absorbed == []
    {
      hide Whole, Reaches, Variant.Block, Variant.Word;
      h, t0, t1, ptr, absorbed := iv, 0, 0, 0, [];
      StartReached(v, F, iv);
    }

    /** blake32 and blake64: the counter goes up, then a full buffer is compressed. */
    method Hash(data: seq<Byte>) returns (ghost done: seq<Byte>)
      requires Structure()
      modifies this`h, this`t0, this`t1, this`ptr, buf
      ensures Structure() && Whole(v, |done|)
      ensures done + buf[..ptr] == old(buf[..ptr]) + data
      ensures (h, t0, t1) == Fold(RawStep(v, F), (old(h), old(t0), old(t1)), done, v.Block())
    {
      hide RawStep, Whole;
      ghost var base := (h, t0, t1);
      done := [];
      NextWhole(v, 0);
      if |data| < buf.Length - ptr {
        CopyInto(buf, ptr, data);
        ptr := ptr + |data|;
        assert buf[..ptr] == old(buf[..ptr]) + data;
        return;
      }
      var rest := data;
      while rest != []
        invariant Structure() && Whole(v, |done|)
        invariant done + buf[..ptr] + rest == old(buf[..ptr]) + data
        invariant (h, t0, t1) == Fold(RawStep(v, F), base, done, v.Block())
        decreases |rest|
      {
        var clen := Min(buf.Length - ptr, |rest|);
        ghost var before, was := buf[..ptr], done;
        done := Turn(rest[..clen], base, done);
        Regroup(was, before, rest, clen);
        rest := rest[clen..];
      }
      assert done + buf[..ptr] + [] == done + buf[..ptr];
    }

    /** One turn of the loop: copies what fits and compresses a full buffer. */
    method Turn(data: seq<Byte>, ghost base: Raw<H>, ghost done: seq<Byte>) returns (ghost done': seq<Byte>)
      requires Structure() && Whole(v, |done|) && ptr + |data| <= v.Block()
      requires (h, t0, t1) == Fold(RawStep(v, F), base, done, v.Block())
      modifies this`h, this`t0, this`t1, this`ptr, buf
      ensures Structure() && Whole(v, |done'|) && ptr == (old(ptr) + |data|) % v.Block()
      ensures done' + buf[..ptr] == done + (old(buf[..ptr]) + data)
      ensures (h, t0, t1) == Fold(RawStep(v, F), base, done', v.Block())
    {
      hide RawStep, Whole, Fold;
      ghost var held := buf[..ptr] + data;
      CopyInto(buf, ptr, data);
      ptr := ptr + |data|;
      assert buf[..ptr] == held;
      if ptr == buf.Length {
        assert buf[..] == held;
        FoldSnoc(RawStep(v, F), base, done, held, v.Block());
        NextWhole(v, |done|);
        Compress(|done|);
        done' := done + held;
        assert buf[..0] == [] && done' + [] == done';
      } else {
        done' := done;
      }
    }

    method Compress(ghost d: nat)
      requires buf.Length == v.Block() && t0 < v.Word() && t1 < v.Word()
      modifies this`h, this`t0, this`t1, this`ptr
      ensures Structure() && ptr == 0
      ensures (h, t0, t1) == RawStep(v, F)((old(h), old(t0), old(t1)), d, buf[..])
    {
      t0 := (t0 + 8 * v.Block()) % v.Word();
      if t0 < 8 * v.Block() {
        t1 := (t1 + 1) % v.Word();
      }
      assert t0 == IncLo(v, old(t0)) && t1 == IncHi(v, old(t0), old(t1));
      hide IncLo, IncHi;
      h := F(h, buf[..], t0, t1);
      ptr := 0;
    }

    method Update(data: seq<Byte>)
      requires Valid()
      modifies this, buf
      ensures Valid() && absorbed == old(absorbed) + data
    {
      hide Reached, RawStep, Whole;
      ghost var k := |absorbed| - ptr;
      ghost var done, rest := absorbed[..k], buf[..ptr];
      assert absorbed == done + rest;
      ghost var more := Hash(data);
      Reassociate(done, rest, data);
      Reassociate(done, more, buf[..ptr]);
      RawReaches(v, F, iv, done, more);
      absorbed := absorbed + data;
      assert absorbed == (done + more) + buf[..ptr];
      assert absorbed[..|done + more|] == done + more && absorbed[|done + more|..] == buf[..ptr];
      WholeSum(v, |done|, |more|);
    }

    method PutLength(u: array<Byte>, th: nat, tl: nat, ghost bits: nat)
      requires u.Length == v.Block() && tl == Lo(v, bits) && th == Hi(v, bits)
      modifies u
      ensures u[..] == old(u[..v.Block() - 2 * v.WordBytes()]) + LengthField(v, bits)
    {
      hide Lo, Hi, BigEndian;
      CopyInto(u, v.Block() - 2 * v.WordBytes(), BigEndian(th, v.WordBytes()));
      CopyInto(u, v.Block() - v.WordBytes(), BigEndian(tl, v.WordBytes()));
    }

    method PutMark(u: array<Byte>, end: nat, marker: bool)
      requires 0 < end <= u.Length
      modifies u
      ensures u[..end] == Mark(old(u[..end]), marker)
    {
      if marker {
        u[end - 1] := u[end - 1] | 1;
      }
    }

    /** The buffer that the close builds, from position ptr on. */
    method OnlyInput(ub: bv32, n: nat, marker: bool, th: nat, tl: nat, ghost bits: nat) returns (tail: seq<Byte>)
      requires Structure() && n < 8 && 8 * ptr + n <= Limit(v)
      requires tl == Lo(v, bits) && th == Hi(v, bits)
      ensures tail == OnlyTail(v, ptr, bits, ub, n, marker)
    {
      hide TrailingByte, LengthField, Mark, Lo, Hi;
      var B, w := v.Block(), v.WordBytes();
      var end := B - 2 * w;
      var u := new Byte[B];
      ghost var front, body := u[..ptr], [TrailingByte(ub, n)] + Repeat(end - 1 - ptr, 0);
      u[ptr] := TrailingByte(ub, n);
      assert u[..ptr + 1] == front + [TrailingByte(ub, n)];
      Fill(u, ptr + 1, end - 1 - ptr, 0);
      Reassociate(front, [TrailingByte(ub, n)], Repeat(end - 1 - ptr, 0));
      PutMark(u, end, marker);
      MarkLast(front, body, marker);
      PutLength(u, th, tl, bits);
      Reassociate(front, Mark(body, marker), LengthField(v, bits));
      tail := u[ptr..];
      assert tail == u[..][ptr..];
    }

    method SecondInput(marker: bool, th: nat, tl: nat, ghost bits: nat) returns (block: seq<Byte>)
      requires tl == Lo(v, bits) && th == Hi(v, bits)
      ensures block == SecondBlock(v, bits, marker)
    {
      hide LengthField;
      var B, w := v.Block(), v.WordBytes();
      var u := new Byte[B];
      Fill(u, 0, B - 2 * w, 0);
      assert u[..B - 2 * w] == Repeat(B - 2 * w, 0);
      if marker {
        assert u[B - 2 * w - 1] | 1 == 1;
        u[B - 2 * w - 1] := 1;
      }
      PutLength(u, th, tl, bits);
      block := u[..];
    }

    /** Feeds what is missing from a block. */
    method HashBlock(tail: seq<Byte>)
      requires Structure() && ptr + |tail| == v.Block()
      modifies this`h, this`t0, this`t1, this`ptr, buf
      ensures Structure() && ptr == 0
      ensures h == F(old(h), old(buf[..ptr]) + tail, IncLo(v, old(t0)), IncHi(v, old(t0), old(t1)))
    {
      ghost var block := buf[..ptr] + tail;
      ghost var done := Hash(tail);
      OneBlock(v, |done|);
      assert buf[..ptr] == [] && done + [] == done;
      FoldOne(RawStep(v, F), (old(h), old(t0), old(t1)), block, v.Block());
    }

    /** Sets the counter for the last block that may hold message bits. */
    method SetCounter(n: nat, ghost done: nat)
      requires Structure() && n < 8 && Whole(v, done)
      requires t0 == Lo(v, 8 * done) && t1 == Hi(v, 8 * done)
      modifies this`t0, this`t1
      ensures Structure()
      ensures var count := Count(v, 8 * done + (8 * ptr + n), done);
        IncLo(v, t0) == Lo(v, count) && IncHi(v, t0, t1) == Hi(v, count)
    {
      var bitLen := 8 * ptr + n;
      PresetLands(v, done, bitLen);
      hide IncLo, IncHi, Lo, Hi, Count, Whole;
      if ptr == 0 && n == 0 {
        t0, t1 := v.Word() - 8 * v.Block(), v.Word() - 1;
      } else if t0 == 0 {
        t0, t1 := v.Word() - 8 * v.Block() + bitLen, (t1 - 1) % v.Word();
      } else {
        t0 := t0 - (8 * v.Block() - bitLen);
      }
    }

    /** Pads and compresses one or two last blocks; the counter is already set. */
    method LastBlocks(ub: bv32, n: nat, marker: bool, th: nat, tl: nat, ghost done: seq<Byte>, ghost rest: seq<Byte>)
      requires Structure() && n < 8 && Whole(v, |done|) && buf[..ptr] == rest
      requires h == Fold(FullStep(v, F), iv, done, v.Block())
      requires var bits := 8 * |done + rest| + n;
        var count := Count(v, bits, |done|);
        tl == Lo(v, bits) && th == Hi(v, bits) && IncLo(v, t0) == Lo(v, count) && IncHi(v, t0, t1) == Hi(v, count)
      modifies this, buf
      ensures Structure() && h == Chain(v, F, iv, done + rest, ub, n, marker)
    {
      hide Whole, Chain, Count, Lo, Hi, IncLo, IncHi, OnlyTail, FirstTail, SecondBlock, FullStep, Fold, Variant.Word;
      ghost var bits := 8 * |done + rest| + n;
      if 8 * ptr + n <= Limit(v) {
        ChainOnce(v, F, iv, done, rest, ub, n, marker);
        var tail := OnlyInput(ub, n, marker, th, tl, bits);
        HashBlock(tail);
      } else {
        ChainTwice(v, F, iv, done, rest, ub, n, marker);
        var first := FirstInput(ub, n);
        HashBlock(first);
        HashSecond(marker, th, tl, bits);
      }
    }

    /** A block of its own with the length, under a counter that goes up to zero. */
    method HashSecond(marker: bool, th: nat, tl: nat, ghost bits: nat)
      requires Structure() && ptr == 0 && tl == Lo(v, bits) && th == Hi(v, bits)
      modifies this, buf
      ensures Structure() && h == F(old(h), SecondBlock(v, bits, marker), 0, 0)
    {
      ZeroComes(v);
      hide Lo, Hi, IncLo, IncHi, SecondBlock;
      t0, t1 := v.Word() - 8 * v.Block(), v.Word() - 1;
      var second := SecondInput(marker, th, tl, bits);
      assert buf[..0] + second == second;
      HashBlock(second);
    }

    /** The digest of the message and its n trailing bits, whatever the splits were. */
    method Close(ub: bv32, n: nat, outWords: nat) returns (out: seq<Byte>)
      requires Valid() && n < 8 && outWords <= 8
      modifies this, buf
      ensures out == Digest(v, F, word, iv, old(absorbed), ub, n, outWords)
      ensures Valid() && absorbed == []
    {
      hide Whole, Chain, Count, Lo, Hi, IncLo, IncHi, FullStep, Written;
      ghost var done, rest := absorbed[..|absorbed| - ptr], buf[..ptr];
      assert absorbed == done + rest;
      var bitLen := 8 * ptr + n;
      LengthWords(v, |done|, bitLen);
      var tl, th := (t0 + bitLen) % v.Word(), t1;
      SetCounter(n, |done|);
      LastBlocks(ub, n, outWords == 8, th, tl, done, rest);
      out := WriteWords(word, h, outWords, v.WordBytes(), true);
      Init();
    }

    method FirstInput(ub: bv32, n: nat) returns (tail: seq<Byte>)
      requires Structure() && n < 8
      ensures tail == FirstTail(v, ptr, ub, n)
    {
      hide TrailingByte;
      var u := new Byte[v.Block()];
      u[ptr] := TrailingByte(ub, n);
      Fill(u, ptr + 1, v.Block() - 1 - ptr, 0);
      tail := u[ptr..];
    }
  }

  /** Any run of the interface on one message: every split gives the same digest. */
  method DigestOfPieces<H(!new)>(v: Variant, F: Compression<H>, word: (H, nat) -> nat, iv: H, pieces: seq<seq<Byte>>,
                                 ub: bv32, n: nat, outWords: nat) returns (out: seq<Byte>)
    requires n < 8 && outWords <= 8
    ensures out == Digest(v, F, word, iv, Flatten(pieces), ub, n, outWords)
  {
    hide Digest, Reaches, Whole;
    var sc := new Context(v, F, word, iv);
    for i := 0 to |pieces|
      invariant sc.Valid() && fresh(sc) && fresh(sc.buf)
      invariant sc.v == v && sc.F == F && sc.word == word && sc.iv == iv && sc.absorbed == Flatten(pieces[..i])
    {
      FlattenSnoc(pieces, i);
      sc.Update(pieces[i]);
    }
    assert pieces[..|pieces|] == pieces;
    out := sc.Close(ub, n, outWords);
  }
}

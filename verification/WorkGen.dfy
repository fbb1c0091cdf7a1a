/** Work for a standard stratum job: the coinbase with its rolling extranonce, the
    merkle root over it, and the extranonce counted up once per unit. */
module WorkGen {
  import opened Bytes
  import HashLog

  type Digest = s: seq<Byte> | |s| == 32 witness Repeat(32, 0)

  type Hash = seq<Byte> -> Digest

  // The extranonce as a counter.

  /** Increment with carry, as on the bytes. */
  function Inc(s: seq<Byte>): (t: seq<Byte>)
    ensures |t| == |s|
  {
    if s == [] then [] else if Next(s[0]) == 0 then [0] + Inc(s[1..]) else [Next(s[0])] + s[1..]
  }

  /** The byte after this one, and zero after the last. */
  function Next(b: Byte): Byte { LowByte(b as nat + 1) }

  lemma LowZeroIff(v: nat)
    ensures LowByte(v) == 0 <==> v % 256 == 0
  {
    hide LowByte;
    LowValue(v);
    LowMod(v);
    LowZero();
  }

  lemma NextLow(v: nat)
    ensures Next(LowByte(v)) == LowByte(v + 1) && (Next(LowByte(v)) == 0 <==> v % 256 == 255)
  {
    hide LowByte;
    LowValue(v);
    LowMod(v % 256 + 1);
    LowMod(v + 1);
    ModAdd(v, 1, 256);
    LowZeroIff(v + 1);
  }

  lemma IncNothing()
    ensures Inc([]) == []
  {
  }

  lemma IncStep(rest: seq<Byte>)
    requires rest != []
    ensures Inc(rest) == if Next(rest[0]) == 0 then [Next(rest[0])] + Inc(rest[1..]) else [Next(rest[0])] + rest[1..]
  {
  }

  lemma {:induction false} IncCounts(v: nat, len: nat)
    ensures Inc(LittleEndian(v, len)) == LittleEndian(v + 1, len)
    decreases len
  {
    hide LittleEndian, Next, Inc, LowByte;
    if len == 0 {
      assert LittleEndian(v, 0) == [] == LittleEndian(v + 1, 0);
      IncNothing();
    } else {
      IncStep(LittleEndian(v, len));
      LittleEndianCons(v, len);
      LittleEndianCons(v + 1, len);
      NextLow(v);
      if v % 256 == 255 {
        IncCounts(v / 256, len - 1);
        assert (v + 1) / 256 == v / 256 + 1;
      } else {
        assert (v + 1) / 256 == v / 256;
      }
    }
  }

  /** Two counts have the same bytes exactly when they are congruent. */
  lemma {:induction false} SameBytes(a: nat, b: nat, len: nat)
    ensures LittleEndian(a, len) == LittleEndian(b, len) <==> a % Pow256(len) == b % Pow256(len)
    decreases len
  {
    hide LittleEndian, LowByte;
    if len == 0 {
      assert a % 1 == b % 1;
    } else {
      LittleEndianCons(a, len);
      LittleEndianCons(b, len);
      SameBytes(a / 256, b / 256, len - 1);
      LowInjective(a, b);
      var x, y := LittleEndian(a / 256, len - 1), LittleEndian(b / 256, len - 1);
      assert ([LowByte(a)] + x)[1..] == x && ([LowByte(b)] + y)[1..] == y;
      SplitMod(a, Pow256(len - 1));
      SplitMod(b, Pow256(len - 1));
    }
  }

  lemma LowInjective(a: nat, b: nat)
    ensures LowByte(a) == LowByte(b) <==> a % 256 == b % 256
  {
    hide LowByte;
    LowValue(a);
    LowValue(b);
    LowMod(a);
    LowMod(b);
  }

  // Merkle roots.

  function Node(H: Hash, left: Digest, right: Digest): Digest { H(left + right) }

  /** The next level up of a row, the last node paired with itself if it is left over. */
  function PairUp(H: Hash, row: seq<Digest>): (up: seq<Digest>)
    ensures |up| == (|row| + 1) / 2
  {
    if row == [] then []
    else if |row| == 1 then [Node(H, row[0], row[0])]
    else [Node(H, row[0], row[1])] + PairUp(H, row[2..])
  }

  function Root(H: Hash, row: seq<Digest>): Digest
    requires row != []
    decreases |row|
  {
    if |row| == 1 then row[0] else Root(H, PairUp(H, row))
  }

  /** The siblings on the path from the first leaf to the root. */
  function Branch(H: Hash, row: seq<Digest>): seq<Digest>
    requires row != []
    decreases |row|
  {
    if |row| == 1 then [] else [row[1]] + Branch(H, PairUp(H, row))
  }

  /** What the miner does with a branch. */
  function BranchFold(H: Hash, leaf: Digest, branch: seq<Digest>): Digest {
    if branch == [] then leaf
    else Node(H, BranchFold(H, leaf, branch[..|branch| - 1]), branch[|branch| - 1])
  }

  lemma {:induction false} BranchFoldCons(H: Hash, leaf: Digest, first: Digest, branch: seq<Digest>)
    ensures BranchFold(H, leaf, [first] + branch) == BranchFold(H, Node(H, leaf, first), branch)
  {
    var all := [first] + branch;
    if branch == [] {
      assert all[..0] == [];
    } else {
      var init := branch[..|branch| - 1];
      assert all[..|all| - 1] == [first] + init;
      BranchFoldCons(H, leaf, first, init);
    }
  }

  /** The branch that a pool took from a tree with any first leaf gives the root of
      the tree with the miner's first leaf. */
  lemma {:induction false} RootFromBranch(H: Hash, mine: Digest, theirs: Digest, others: seq<Digest>)
    ensures BranchFold(H, mine, Branch(H, [theirs] + others)) == Root(H, [mine] + others)
    decreases |others|
  {
    var a, b := [mine] + others, [theirs] + others;
    if others != [] {
      assert a[2..] == b[2..] == others[1..];
      var up := PairUp(H, others[1..]);
      BranchFoldCons(H, mine, others[0], Branch(H, PairUp(H, b)));
      RootFromBranch(H, Node(H, mine, others[0]), Node(H, theirs, others[0]), up);
    }
  }

  // The header.

  type Quad = s: seq<Byte> | |s| == 4 witness Repeat(4, 0)

  /** The parts of a notification that go into the work. */
  datatype Job = Job(id: string, version: Quad, prevhash: Digest, coinb1: seq<Byte>, coinb2: seq<Byte>,
                     merkle: seq<Digest>, nbits: Quad, ntime: Quad, height: nat)

  /** The bytes of word i of s. */
  function QuadAt(s: seq<Byte>, i: nat): Quad
    requires 4 * i + 4 <= |s|
  {
    s[4 * i..4 * i + 4]
  }

  function LittleWords(s: seq<Byte>, n: nat): (w: seq<nat>)
    requires 4 * n <= |s|
    ensures |w| == n
  {
    seq(n, i requires 0 <= i < n => FromLittle(QuadAt(s, i)))
  }

  function BigWords(s: seq<Byte>, n: nat): (w: seq<nat>)
    requires 4 * n <= |s|
    ensures |w| == n
  {
    seq(n, i requires 0 <= i < n => FromBig(QuadAt(s, i)))
  }

  /** The header words of the default algorithms, with the padding of an 80-byte message. */
  function HeaderWords(job: Job, root: Digest): seq<nat> {
    [FromLittle(job.version)] + LittleWords(job.prevhash, 8) + BigWords(root, 8) +
    Ending(FromLittle(job.ntime), FromLittle(job.nbits))
  }

  /** Time, bits and the nonce, then a one bit, zeros and the bit length. */
  function Ending(time: nat, bits: nat): (w: seq<nat>)
    ensures |w| == 15
  {
    Zeros(15)[0 := time][1 := bits][3 := 0x8000_0000][14 := 0x280]
  }

  function Zeros(n: nat): (z: seq<nat>)
    ensures |z| == n
  {
    seq(n, i => 0)
  }

  /** The bytes that are hashed: every word most significant byte first. */
  function Wire(words: seq<nat>): seq<Byte> {
    if words == [] then [] else Wire(words[..|words| - 1]) + BigEndian(words[|words| - 1], 4)
  }

  /** Every four bytes in reverse order. */
  function Swapped(s: seq<Byte>, n: nat): (t: seq<Byte>)
    requires 4 * n <= |s|
    ensures |t| == 4 * n
  {
    if n == 0 then [] else Swapped(s, n - 1) + Reversed(QuadAt(s, n - 1))
  }

  function Reversed(q: Quad): Quad { [q[3], q[2], q[1], q[0]] }

  lemma {:induction false} WireConcat(a: seq<nat>, b: seq<nat>)
    ensures Wire(a + b) == Wire(a) + Wire(b)
  {
    hide BigEndian;
    if b == [] {
      assert a + b == a;
    } else {
      WireConcat(a, b[..|b| - 1]);
      assert (a + b)[..|a + b| - 1] == a + b[..|b| - 1];
    }
  }

  lemma WireOne(w: nat)
    ensures Wire([w]) == BigEndian(w, 4)
  {
    hide BigEndian;
    assert [w][..0] == [];
    assert Wire([]) == [];
  }

  lemma WireSnoc(words: seq<nat>, w: nat)
    ensures Wire(words + [w]) == Wire(words) + BigEndian(w, 4)
  {
    hide BigEndian;
    assert (words + [w])[..|words|] == words;
  }

  /** Words read most significant byte first go out as they came in. */
  lemma {:induction false} WireBig(s: seq<Byte>, n: nat)
    requires 4 * n <= |s|
    ensures Wire(BigWords(s, n)) == s[..4 * n]
  {
    hide BigEndian, FromBig;
    if n > 0 {
      var q := QuadAt(s, n - 1);
      WireBig(s, n - 1);
      assert BigWords(s, n) == BigWords(s, n - 1) + [FromBig(q)];
      WireSnoc(BigWords(s, n - 1), FromBig(q));
      BigRestores(q);
    }
  }

  /** Words read least significant byte first go out swapped. */
  lemma {:induction false} WireLittle(s: seq<Byte>, n: nat)
    requires 4 * n <= |s|
    ensures Wire(LittleWords(s, n)) == Swapped(s, n)
  {
    hide BigEndian, FromLittle, Reversed;
    if n > 0 {
      var q := QuadAt(s, n - 1);
      WireLittle(s, n - 1);
      assert LittleWords(s, n) == LittleWords(s, n - 1) + [FromLittle(q)];
      WireSnoc(LittleWords(s, n - 1), FromLittle(q));
      SwapsQuad(q);
    }
  }

  lemma SwapsQuad(q: Quad)
    ensures BigEndian(FromLittle(q), 4) == Reversed(q)
  {
    hide ByteOf, FromLittle;
    var v := FromLittle(q);
    LittleRestores(q);
    assert forall i :: 0 <= i < 4 ==> LittleEndian(v, 4)[i] == ByteOf(v, i);
    assert BigEndian(v, 4) == [ByteOf(v, 3), ByteOf(v, 2), ByteOf(v, 1), ByteOf(v, 0)];
  }

  /** The 80 bytes that are hashed: the pool's fields with swapped words, the root as
      the node hash left it, and the nonce. */
  lemma HeaderOnWire(job: Job, root: Digest)
    ensures |HeaderWords(job, root)| == 32
    ensures Wire(HeaderWords(job, root)[..20]) ==
      Reversed(job.version) + Swapped(job.prevhash, 8) + root + Reversed(job.ntime) + Reversed(job.nbits) + Repeat(4, 0)
  {
    hide Wire, Swapped, LittleWords, BigWords, FromLittle, Reversed;
    assert Ending(FromLittle(job.ntime), FromLittle(job.nbits))[..3] == [FromLittle(job.ntime), FromLittle(job.nbits), 0];
    var v, t, b := FromLittle(job.version), FromLittle(job.ntime), FromLittle(job.nbits);
    var p, r := LittleWords(job.prevhash, 8), BigWords(root, 8);
    assert HeaderWords(job, root)[..20] == [v] + p + r + [t] + [b] + [0];
    WireSnoc([v] + p + r + [t] + [b], 0);
    WireSnoc([v] + p + r + [t], b);
    WireSnoc([v] + p + r, t);
    WireConcat([v] + p, r);
    WireConcat([v], p);
    WireOne(v);
    WireLittle(job.prevhash, 8);
    WireBig(root, 8);
    assert root[..32] == root;
    SwapsQuad(job.version);
    SwapsQuad(job.ntime);
    SwapsQuad(job.nbits);
    ZeroBig();
  }

  lemma {:induction false} ZerosOnWire(n: nat)
    ensures Wire(Zeros(n)) == Repeat(4 * n, 0)
  {
    hide BigEndian;
    if n > 0 {
      ZerosOnWire(n - 1);
      ZeroBig();
      assert Zeros(n)[..n - 1] == Zeros(n - 1);
      assert Repeat(4 * n, 0) == Repeat(4 * (n - 1), 0) + Repeat(4, 0);
    }
  }

  /** Numbers of two bytes. */
  lemma SmallBig(v: nat, len: nat)
    requires v < 0x1_0000 && len >= 2
    ensures BigEndian(v, len) == Repeat(len - 2, 0) + [ByteOf(v, 1), ByteOf(v, 0)]
  {
    hide ByteOf;
    forall k | 2 <= k < len
      ensures ByteOf(v, k) == 0
    {
      AboveTwo(v, k);
    }
  }

  lemma AboveTwo(v: nat, k: nat)
    requires v < 0x1_0000 && k >= 2
    ensures ByteOf(v, k) == 0
  {
    hide ByteOf;
    NextByte(v, k - 1);
    NextByte(v / 256, k - 2);
    assert v / 256 / 256 == 0;
    ZeroByte(k - 2);
  }

  lemma ZeroByte(k: nat)
    ensures ByteOf(0, k) == 0
  {
    LowZero();
  }

  lemma OneBitBig()
    ensures BigEndian(0x8000_0000, 4) == [0x80] + Repeat(3, 0)
  {
    hide BigEndian, FromBig;
    var s := [0x80 as Byte] + Repeat(3, 0);
    ShiftsUp([0x80], 0);
    ShiftsUp([0x80] + [0], 0);
    ShiftsUp([0x80] + [0] + [0], 0);
    EightyNumber();
    assert s == [0x80] + [0] + [0] + [0];
    BigRestores(s);
  }

  lemma ShiftsUp(s: seq<Byte>, b: Byte)
    ensures FromBig(s + [b]) == 256 * FromBig(s) + b as nat
  {
    assert (s + [b])[..|s|] == s;
  }

  lemma EightyNumber()
    ensures FromBig([0x80]) == 0x80 && (0 as Byte) as nat == 0
  {
    assert [0x80 as Byte][..0] == [];
    assert FromBig([]) == 0;
  }

  /** After the 80 bytes: a one bit, zeros, and the length of 640 bits as eight bytes. */
  lemma PaddingOnWire(job: Job, root: Digest)
    ensures Wire(HeaderWords(job, root)) == Wire(HeaderWords(job, root)[..20]) + ([0x80] + Repeat(39, 0) + BigEndian(640, 8))
  {
    hide Wire, LittleWords, BigWords, FromLittle, BigEndian, ByteOf;
    var words := HeaderWords(job, root);
    var tail := [0x8000_0000] + Zeros(10) + [0x280];
    assert words == words[..20] + tail;
    WireConcat(words[..20], tail);
    WireSnoc([0x8000_0000] + Zeros(10), 0x280);
    WireConcat([0x8000_0000], Zeros(10));
    WireOne(0x8000_0000);
    ZerosOnWire(10);
    OneBitBig();
    SmallBig(0x280, 4);
    SmallBig(640, 8);
    var low := [ByteOf(640, 1), ByteOf(640, 0)];
    assert [0x80] + Repeat(3, 0) + Repeat(40, 0) + (Repeat(2, 0) + low) == [0x80] + Repeat(39, 0) + (Repeat(6, 0) + low);
  }

  lemma ZeroBig()
    ensures BigEndian(0, 4) == Repeat(4, 0)
  {
    forall i | 0 <= i < 4
      ensures ByteOf(0, i) == 0
    {
      assert 0 / Pow256(i) == 0;
    }
  }

  // Jobs and units.

  /** What a connection fixes: its hashes of leaf and node, and its number. */
  datatype Pool = Pool(Leaf: Hash, H: Hash, number: nat)

  datatype Unit = Unit(jobId: string, xnonce2: seq<Byte>, height: nat, pool: nat, data: seq<nat>)

  datatype Option<T> = None | Some(value: T)

  /** The coinbase of a job with this extranonce. */
  function Coinbase(job: Job, xnonce1: seq<Byte>, xnonce2: seq<Byte>): seq<Byte> {
    job.coinb1 + xnonce1 + xnonce2 + job.coinb2
  }

  /** The unit whose header covers these bytes. */
  function UnitOf(pool: Pool, job: Job, coinbase: seq<Byte>, xnonce2: seq<Byte>): Unit {
    var root := BranchFold(pool.H, pool.Leaf(coinbase), job.merkle);
    Unit(HashLog.JobId(FromBig(job.ntime), job.id), xnonce2, job.height, pool.number, HeaderWords(job, root))
  }

  /** The job with its buffer and the place of the extranonce in it, as the last
      notification left them; and the extranonces that the pool set last. */
  datatype State = State(job: Option<Job>, coinbase: seq<Byte>, at: nat, xnonce1: seq<Byte>, size: nat) {
    /** The extranonce lies in the buffer. */
    predicate Inside() { at + size <= |coinbase| }

    function Field(): (x: seq<Byte>)
      requires Inside()
      ensures |x| == size
    {
      coinbase[at..at + size]
    }
  }

  /** The state after a notification that leaves this extranonce. */
  function Noted(job: Job, xnonce1: seq<Byte>, x: seq<Byte>): (s: State)
    ensures s.Inside()
  {
    State(Some(job), Coinbase(job, xnonce1, x), |job.coinb1| + |xnonce1|, xnonce1, |x|)
  }

  lemma NotedField(job: Job, xnonce1: seq<Byte>, x: seq<Byte>)
    ensures Noted(job, xnonce1, x).Field() == x
    ensures var s := Noted(job, xnonce1, x);
            s.coinbase[..s.at] == job.coinb1 + xnonce1 && s.coinbase[s.at + s.size..] == job.coinb2
  {
  }

  /** Sizes of the second extranonce that are accepted. */
  predicate SizeOk(size: int) { 2 <= size <= 16 }

  /** A notification carries the job, and what realloc left in the bytes it added. */
  datatype Event = Generate | Notify(job: Job, beyond: nat -> Byte) | SetExtranonce(xnonce1: seq<Byte>, size: int)

  /** Overrun: the extranonce reaches past the buffer, where nothing is known. */
  datatype Made = Work(unit: Unit) | NoJob | Overrun | Nothing

  /** What lies at [at, at + size) of the old bytes, and beyond them. */
  function Taken(bytes: seq<Byte>, beyond: nat -> Byte, at: nat, size: nat): (x: seq<Byte>)
    ensures |x| == size
  {
    seq(size, i requires 0 <= i < size => if at + i < |bytes| then bytes[at + i] else beyond(at + i))
  }

  lemma TakenPart(bytes: seq<Byte>, beyond: nat -> Byte, at: nat, size: nat, all: nat)
    requires at + size <= all
    ensures Taken(bytes, beyond, 0, all)[at..at + size] == Taken(bytes, beyond, at, size)
  {
  }

  /** The extranonce after a notification: zero for a new job id; for the id at hand it
      is what the old coinbase holds at the new place. */
  function Renewed(s: State, job: Job, beyond: nat -> Byte): (x: seq<Byte>)
    ensures |x| == s.size
  {
    if s.job.None? || s.job.value.id != job.id then Repeat(s.size, 0)
    else Taken(s.coinbase, beyond, |job.coinb1| + |s.xnonce1|, s.size)
  }

  /** The buffer with its extranonce counted up. */
  function Counted(s: State): (t: State)
    requires s.Inside()
    ensures t.Inside()
  {
    s.(coinbase := s.coinbase[..s.at] + Inc(s.Field()) + s.coinbase[s.at + s.size..])
  }

  function Step(pool: Pool, s: State, e: Event): (State, Made) {
    match e
    case Notify(job, beyond) => (Noted(job, s.xnonce1, Renewed(s, job, beyond)), Nothing)
    case SetExtranonce(xnonce1, size) =>
      (if SizeOk(size) then s.(xnonce1 := xnonce1, size := size) else s, Nothing)
    case Generate =>
      if s.job.None? then (s, NoJob)
      else if !s.Inside() then (s, Overrun)
      else (Counted(s), Work(UnitOf(pool, s.job.value, s.coinbase, s.Field())))
  }

  datatype Outcome = Outcome(state: State, units: seq<Unit>, overrun: bool)

  function Run(pool: Pool, start: State, events: seq<Event>): Outcome {
    if events == [] then Outcome(start, [], false)
    else
      var before := Run(pool, start, events[..|events| - 1]);
      var (s, made) := Step(pool, before.state, events[|events| - 1]);
      After(before, s, made)
  }

  function After(before: Outcome, s: State, made: Made): Outcome {
    Outcome(s, before.units + if made.Work? then [made.unit] else [], before.overrun || made.Overrun?)
  }

  lemma RunNothing(pool: Pool, start: State)
    ensures Run(pool, start, []) == Outcome(start, [], false)
  {
  }

  lemma RunMore(pool: Pool, start: State, events: seq<Event>, i: nat)
    requires i < |events|
    ensures var before := Run(pool, start, events[..i]);
            var (s, made) := Step(pool, before.state, events[i]);
            Run(pool, start, events[..i + 1]) == After(before, s, made)
  {
    hide Step;
    assert events[..i + 1][..i] == events[..i];
  }

  // The code.

  class Context {
    const pool: Pool
    var xnonce1: seq<Byte>
    var xnonce2Size: nat
    var coinbase: array<Byte>
    var xnonce2At: nat
    var current: Option<Job>

    ghost function Abs(): State
      reads this, coinbase
    {
      State(current, coinbase[..], xnonce2At, xnonce1, xnonce2Size)
    }

    constructor (pool: Pool)
      ensures Abs() == State(None, [], 0, [], 0) && fresh(coinbase) && this.pool == pool
    {
      this.pool, current, xnonce2At, xnonce1, xnonce2Size := pool, None, 0, [], 0;
      coinbase := new Byte[0];
    }

    /** The answer to the subscription, or a later change; the job keeps its place. */
    method SetExtranonce(xnonce1: seq<Byte>, size: int) returns (ok: bool)
      modifies this`xnonce1, this`xnonce2Size
      ensures ok == SizeOk(size)
      ensures Abs() == Step(pool, old(Abs()), Event.SetExtranonce(xnonce1, size)).0
    {
      if size < 2 || size > 16 {
        return false;
      }
      this.xnonce1, xnonce2Size := xnonce1, size;
      return true;
    }

    /** A notification. */
    method Notify(job: Job, beyond: nat -> Byte)
      modifies this
      ensures fresh(coinbase)
      ensures Abs() == Step(pool, old(Abs()), Event.Notify(job, beyond)).0
    {
      hide Coinbase;
      var at := |job.coinb1| + |xnonce1|;
      var bigger := Realloc(at + xnonce2Size + |job.coinb2|, beyond);
      var zero := current.None? || current.value.id != job.id;
      ghost var renewed := Renewed(Abs(), job, beyond);
      TakenPart(coinbase[..], beyond, at, xnonce2Size, bigger.Length);
      PutParts(bigger, job, zero);
      coinbase, current, xnonce2At := bigger, Some(job), at;
      assert coinbase[..] == Coinbase(job, xnonce1, renewed);
    }

    /** The old bytes as far as they go, and what the heap holds beyond them. */
    method Realloc(size: nat, beyond: nat -> Byte) returns (bigger: array<Byte>)
      ensures fresh(bigger) && bigger[..] == Taken(coinbase[..], beyond, 0, size)
    {
      bigger := new Byte[size];
      forall i | 0 <= i < size {
        bigger[i] := if i < coinbase.Length then coinbase[i] else beyond(i);
      }
    }

    /** Writes the parts of the coinbase around the extranonce, and zeros it if asked. */
    method PutParts(dst: array<Byte>, job: Job, zero: bool)
      requires var at := |job.coinb1| + |xnonce1|; dst.Length == at + xnonce2Size + |job.coinb2|
      modifies dst
      ensures var at := |job.coinb1| + |xnonce1|;
              dst[..] == Coinbase(job, xnonce1, if zero then Repeat(xnonce2Size, 0) else old(dst[at..at + xnonce2Size]))
    {
      var at, size := |job.coinb1| + |xnonce1|, xnonce2Size;
      ghost var x := if zero then Repeat(size, 0) else dst[at..at + size];
      PutFront(dst, job.coinb1, xnonce1);
      PutField(dst, at, size, zero);
      assert dst[..at + size] == job.coinb1 + xnonce1 + x;
      CopyInto(dst, at + size, job.coinb2);
    }

    static method PutFront(dst: array<Byte>, a: seq<Byte>, b: seq<Byte>)
      requires |a| + |b| <= dst.Length
      modifies dst
      ensures dst[..|a| + |b|] == a + b
      ensures forall i :: |a| + |b| <= i < dst.Length ==> dst[i] == old(dst[i])
    {
      forall i | 0 <= i < |a| {
        dst[i] := a[i];
      }
      forall i | 0 <= i < |b| {
        dst[|a| + i] := b[i];
      }
    }

    static method PutField(dst: array<Byte>, at: nat, size: nat, zero: bool)
      requires at + size <= dst.Length
      modifies dst
      ensures dst[..at + size] == old(dst[..at]) + if zero then Repeat(size, 0) else old(dst[at..at + size])
    {
      if zero {
        Fill(dst, at, size, 0);
      } else {
        assert dst[..at + size] == dst[..at] + dst[at..at + size];
      }
    }

    /** One unit of work, if there is a job. What the code reads and writes when the
        extranonce reaches past the buffer is not known; here it stops. */
    method Generate() returns (made: Made)
      modifies coinbase
      ensures (Abs(), made) == Step(pool, old(Abs()), Event.Generate)
    {
      hide HeaderWords, BranchFold, Inc;
      if current.None? {
        return NoJob;
      }
      if xnonce2At + xnonce2Size > coinbase.Length {
        return Overrun;
      }
      var job := current.value;
      var copied := coinbase[xnonce2At..xnonce2At + xnonce2Size];
      var root := MerkleRoot(job.merkle);
      Increment();
      var data := AssembleHeader(job, root);
      return Work(Unit(HashLog.JobId(FromBig(job.ntime), job.id), copied, job.height, pool.number, data));
    }

    /** The loop over the branch. */
    method MerkleRoot(merkle: seq<Digest>) returns (root: Digest)
      ensures root == BranchFold(pool.H, pool.Leaf(coinbase[..]), merkle)
    {
      root := pool.Leaf(coinbase[..]);
      for i := 0 to |merkle|
        invariant root == BranchFold(pool.H, pool.Leaf(coinbase[..]), merkle[..i])
      {
        assert merkle[..i + 1][..i] == merkle[..i];
        root := Node(pool.H, root, merkle[i]);
      }
      assert merkle[..|merkle|] == merkle;
    }

    /** The words of the header, one by one into cleared memory. */
    static method AssembleHeader(job: Job, root: Digest) returns (data: seq<nat>)
      ensures data == HeaderWords(job, root)
    {
      hide FromLittle, LittleWords, BigWords;
      var words := new nat[32];
      forall i | 0 <= i < 32 {
        words[i] := 0;
      }
      words[0] := FromLittle(job.version);
      assert words[..1] == [FromLittle(job.version)] && words[1..] == Zeros(31);
      PutLittle(words, 1, job.prevhash, 8);
      PutBig(words, 9, root, 8);
      ghost var front := [FromLittle(job.version)] + LittleWords(job.prevhash, 8) + BigWords(root, 8);
      assert words[..17] == front && words[17..] == Zeros(15);
      PutEnding(words, 17, FromLittle(job.ntime), FromLittle(job.nbits));
      data := words[..];
    }

    static method PutEnding(words: array<nat>, at: nat, time: nat, bits: nat)
      requires at + 15 == words.Length && words[at..] == Zeros(15)
      modifies words
      ensures words[..] == old(words[..at]) + Ending(time, bits)
    {
      words[at] := time;
      words[at + 1] := bits;
      words[at + 3] := 0x8000_0000;
      words[at + 14] := 0x280;
    }

    static method PutLittle(words: array<nat>, at: nat, s: seq<Byte>, n: nat)
      requires at + n <= words.Length && 4 * n <= |s|
      modifies words
      ensures words[..] == old(words[..at]) + LittleWords(s, n) + old(words[at + n..])
    {
      hide FromLittle;
      for i := 0 to n
        invariant forall k :: 0 <= k < words.Length && !(at <= k < at + i) ==> words[k] == old(words[k])
        invariant forall k :: 0 <= k < i ==> words[at + k] == FromLittle(QuadAt(s, k))
      {
        words[at + i] := FromLittle(QuadAt(s, i));
      }
    }

    static method PutBig(words: array<nat>, at: nat, s: seq<Byte>, n: nat)
      requires at + n <= words.Length && 4 * n <= |s|
      modifies words
      ensures words[..] == old(words[..at]) + BigWords(s, n) + old(words[at + n..])
    {
      hide FromBig;
      for i := 0 to n
        invariant forall k :: 0 <= k < words.Length && !(at <= k < at + i) ==> words[k] == old(words[k])
        invariant forall k :: 0 <= k < i ==> words[at + k] == FromBig(QuadAt(s, k))
      {
        words[at + i] := FromBig(QuadAt(s, i));
      }
    }

    /** Counts the extranonce up where it lies in the coinbase. */
    method Increment()
      requires xnonce2At + xnonce2Size <= coinbase.Length
      modifies coinbase
      ensures Abs() == Counted(old(Abs()))
    {
      hide Inc;
      CountUp(coinbase, xnonce2At, xnonce2Size);
    }

    /** The loop with the carry. */
    static method CountUp(a: array<Byte>, at: nat, size: nat)
      requires at + size <= a.Length
      modifies a
      ensures a[..] == old(a[..at]) + Inc(old(a[at..at + size])) + old(a[at + size..])
    {
      hide Inc, Next, Rolling;
      ghost var pre, post, x := a[..at], a[at + size..], a[at..at + size];
      ghost var done, rest: seq<Byte> := [], x;
      RollingStart(x);
      assert done + rest == x;
      assert a[..] == pre + x + post;
      var i := 0;
      while i < size
        invariant |done| == i && |done| + |rest| == size && Rolling(x, done, rest)
        invariant a[..] == pre + (done + rest) + post
        decreases size - i
      {
        RollingStep(x, done, rest);
        SetMiddle(pre, done, rest, post, Next(rest[0]));
        a[at + i] := Next(a[at + i]);
        done, rest := done + [Next(rest[0])], rest[1..];
        if a[at + i] != 0 {
          break;
        }
        i := i + 1;
      }
      if i == size {
        assert rest == [];
        RollingEnd(x, done);
      }
    }
  }

  /** The extranonce x while it is counted up: done is in place, rest is still to come. */
  ghost predicate Rolling(x: seq<Byte>, done: seq<Byte>, rest: seq<Byte>) {
    Inc(x) == done + Inc(rest)
  }

  lemma RollingStart(x: seq<Byte>)
    ensures Rolling(x, [], x)
  {
    assert [] + Inc(x) == Inc(x);
  }

  lemma RollingStep(x: seq<Byte>, done: seq<Byte>, rest: seq<Byte>)
    requires Rolling(x, done, rest) && rest != []
    ensures var b := Next(rest[0]);
      if b == 0 then Rolling(x, done + [b], rest[1..]) else Inc(x) == done + [b] + rest[1..]
  {
    hide Inc, Next;
    IncStep(rest);
    var b := Next(rest[0]);
    Reassociate(done, [b], Inc(rest[1..]));
    Reassociate(done, [b], rest[1..]);
  }

  lemma Reassociate(a: seq<Byte>, b: seq<Byte>, c: seq<Byte>)
    ensures a + (b + c) == a + b + c
  {
  }

  lemma RollingEnd(x: seq<Byte>, done: seq<Byte>)
    requires Rolling(x, done, [])
    ensures done + [] == Inc(x)
  {
  }

  lemma SetMiddle(a: seq<Byte>, done: seq<Byte>, rest: seq<Byte>, c: seq<Byte>, b: Byte)
    requires rest != []
    ensures (a + (done + rest) + c)[|a| + |done|] == rest[0]
    ensures (a + (done + rest) + c)[|a| + |done| := b] == a + (done + [b] + rest[1..]) + c
  {
  }

  /** The code, through any run of notifications, changes of the extranonce and units,
      makes the units of the state machine. */
  method Execute(ctx: Context, events: seq<Event>) returns (units: seq<Unit>, overrun: bool)
    modifies ctx, ctx.coinbase
    ensures Outcome(ctx.Abs(), units, overrun) == Run(ctx.pool, old(ctx.Abs()), events)
  {
    hide Step, Run;
    ghost var start := ctx.Abs();
    RunNothing(ctx.pool, start);
    assert events[..0] == [];
    units, overrun := [], false;
    for i := 0 to |events|
      invariant ctx.coinbase == old(ctx.coinbase) || fresh(ctx.coinbase)
      invariant Outcome(ctx.Abs(), units, overrun) == Run(ctx.pool, start, events[..i])
    {
      RunMore(ctx.pool, start, events, i);
      match events[i] {
        case Generate =>
          var made := ctx.Generate();
          units := units + if made.Work? then [made.unit] else [];
          overrun := overrun || made.Overrun?;
        case Notify(job, beyond) =>
          OnlyUnitsAreMade(ctx.pool, ctx.Abs(), events[i]);
          ctx.Notify(job, beyond);
        case SetExtranonce(xnonce1, size) =>
          OnlyUnitsAreMade(ctx.pool, ctx.Abs(), events[i]);
          var _ := ctx.SetExtranonce(xnonce1, size);
      }
      assert units + [] == units;
    }
    assert events[..|events|] == events;
  }

  lemma OnlyUnitsAreMade(pool: Pool, s: State, e: Event)
    ensures !e.Generate? ==> Step(pool, s, e).1 == Nothing
  {
  }

  /** The root in a unit's header is the root of the whole tree under the bytes that the
      unit covers, if the branch was taken from such a tree with any coinbase. */
  lemma UnitCommits(pool: Pool, job: Job, coinbase: seq<Byte>, xnonce2: seq<Byte>, theirs: Digest, others: seq<Digest>)
    requires job.merkle == Branch(pool.H, [theirs] + others)
    ensures var unit := UnitOf(pool, job, coinbase, xnonce2);
            |unit.data| == 32 && Wire(unit.data[9..17]) == Root(pool.H, [pool.Leaf(coinbase)] + others)
  {
    hide Wire, Root, BranchFold, LittleWords;
    var leaf := pool.Leaf(coinbase);
    RootFromBranch(pool.H, leaf, theirs, others);
    var root := Root(pool.H, [leaf] + others);
    assert HeaderWords(job, root)[9..17] == BigWords(root, 8);
    WireBig(root, 8);
    assert root[..32] == root;
  }
}

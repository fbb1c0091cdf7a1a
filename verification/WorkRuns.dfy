/** Runs of notifications, changes of the extranonce and units: which extranonces the
    units carry, and which coinbase they cover. */
module WorkRuns {
  import opened Bytes
  import opened WorkGen
  import HashLog

  // Runs on one job.

  /** The extranonce lies where the job's first part and the pool's extranonce put it. */
  predicate Sound(s: State) {
    s.job.Some? && s.Inside() && s.at == |s.job.value.coinb1| + |s.xnonce1|
  }

  /** Repeats keep the id and the length of the first part, and the pool keeps the sizes
      of its extranonces. */
  predicate Fits(s: State, e: Event)
    requires s.job.Some?
  {
    match e
    case Generate => true
    case Notify(job, _) => job.id == s.job.value.id && |job.coinb1| == |s.job.value.coinb1|
    case SetExtranonce(xnonce1, size) => SizeOk(size) ==> size == s.size && |xnonce1| == |s.xnonce1|
  }

  predicate SameJob(s: State, events: seq<Event>)
    requires s.job.Some?
  {
    forall k :: 0 <= k < |events| ==> Fits(s, events[k])
  }

  predicate Alike(s: State, t: State)
    requires s.job.Some?
  {
    Sound(t) && t.job.value.id == s.job.value.id && |t.job.value.coinb1| == |s.job.value.coinb1| &&
    t.at == s.at && t.size == s.size && |t.xnonce1| == |s.xnonce1|
  }

  /** A repeat that leaves the extranonce at its place keeps it. */
  lemma Keeps(s: State, job: Job, beyond: nat -> Byte)
    requires s.job.Some? && s.job.value.id == job.id && s.Inside() && s.at == |job.coinb1| + |s.xnonce1|
    ensures Renewed(s, job, beyond) == s.Field()
  {
  }

  lemma CountedField(s: State)
    requires s.Inside()
    ensures Counted(s).Field() == Inc(s.Field()) && |Counted(s).coinbase| == |s.coinbase|
    ensures Counted(s).coinbase[..s.at] == s.coinbase[..s.at]
    ensures Counted(s).coinbase[s.at + s.size..] == s.coinbase[s.at + s.size..]
  {
    hide Inc;
  }

  lemma StepAlike(pool: Pool, start: State, s: State, e: Event)
    requires start.job.Some? && Alike(start, s) && Fits(start, e)
    ensures var (t, made) := Step(pool, s, e);
      Alike(start, t) && made.Work? == e.Generate? && !made.Overrun? &&
      (made.Work? ==> made.unit.xnonce2 == s.Field()) &&
      t.Field() == if e.Generate? then Inc(s.Field()) else s.Field()
  {
    hide Inc, HeaderWords, BranchFold, State.Field, Renewed, Counted;
    match e {
      case Generate => CountedFixes(s);
      case Notify(job, beyond) =>
        Keeps(s, job, beyond);
        NotedField(job, s.xnonce1, Renewed(s, job, beyond));
      case SetExtranonce(_, _) => SameField(s, Step(pool, s, e).0);
    }
  }

  lemma CountedFixes(s: State)
    requires s.Inside()
    ensures var t := Counted(s); t == s.(coinbase := t.coinbase) && t.Field() == Inc(s.Field())
  {
    CountedField(s);
  }

  lemma SameField(s: State, t: State)
    requires s.Inside() && t.coinbase == s.coinbase && t.at == s.at && t.size == s.size
    ensures t.Field() == s.Field()
  {
  }

  /** From any extranonce on, unit k of a run on one job carries the k-th count after it. */
  lemma {:induction false} Counts(pool: Pool, start: State, events: seq<Event>)
    requires Sound(start) && SameJob(start, events)
    ensures var r, v := Run(pool, start, events), FromLittle(start.Field());
      && Alike(start, r.state) && !r.overrun
      && r.state.Field() == LittleEndian(v + |r.units|, start.size)
      && forall k :: 0 <= k < |r.units| ==> r.units[k].xnonce2 == LittleEndian(v + k, start.size)
  {
    hide LittleEndian, FromLittle, Inc, Step, State.Field, Fits;
    if events == [] {
      LittleRestores(start.Field());
    } else {
      var i := |events| - 1;
      assert Fits(start, events[i]);
      Counts(pool, start, events[..i]);
      var before := Run(pool, start, events[..i]);
      StepAlike(pool, start, before.state, events[i]);
      IncCounts(FromLittle(start.Field()) + |before.units|, start.size);
    }
  }

  /** So units of one job fewer than 256^size apart have different extranonces, and those
      256^size apart the same. */
  lemma Distinct(pool: Pool, start: State, events: seq<Event>, j: nat, k: nat)
    requires Sound(start) && SameJob(start, events)
    requires j < k < |Run(pool, start, events).units|
    ensures var u, p := Run(pool, start, events).units, Pow256(start.size);
            (k < j + p ==> u[j].xnonce2 != u[k].xnonce2) && (k == j + p ==> u[j].xnonce2 == u[k].xnonce2)
  {
    hide Run, LittleEndian, FromLittle, State.Field;
    Counts(pool, start, events);
    var v, p := FromLittle(start.Field()), Pow256(start.size);
    SameBytes(v + j, v + k, start.size);
    if k < j + p {
      WrapAdd(v + j, k - j, p);
    } else if k == j + p {
      WrapAdd(v + j, p, p);
    }
  }

  /** A new job id starts at zero, wherever the run was. */
  lemma FreshStart(pool: Pool, s: State, first: Job, beyond: nat -> Byte)
    requires s.job.None? || s.job.value.id != first.id
    ensures Step(pool, s, Event.Notify(first, beyond)).0 == Noted(first, s.xnonce1, LittleEndian(0, s.size))
  {
    ZeroBytes(s.size);
  }

  lemma ZeroBytes(size: nat)
    ensures LittleEndian(0, size) == Repeat(size, 0)
  {
    forall i | 0 <= i < size
      ensures ByteOf(0, i) == 0
    {
      assert 0 / Pow256(i) == 0;
    }
  }

  /** A run after one event. */
  lemma {:induction false} RunCons(pool: Pool, s: State, e: Event, events: seq<Event>)
    ensures var (t, made) := Step(pool, s, e);
      var r := Run(pool, t, events);
      Run(pool, s, [e] + events) ==
        Outcome(r.state, (if made.Work? then [made.unit] else []) + r.units, made.Overrun? || r.overrun)
  {
    hide Step;
    var all := [e] + events;
    var (t, made) := Step(pool, s, e);
    if events == [] {
      assert all[..0] == [] && all[0] == e;
    } else {
      var i := |events| - 1;
      RunCons(pool, s, e, events[..i]);
      assert all[..|all| - 1] == [e] + events[..i] && all[|all| - 1] == events[i];
      var before := Run(pool, t, events[..i]);
      var next := Step(pool, before.state, events[i]).1;
      ReassociateUnits(if made.Work? then [made.unit] else [], before.units, if next.Work? then [next.unit] else []);
    }
  }

  lemma ReassociateUnits(a: seq<Unit>, b: seq<Unit>, c: seq<Unit>)
    ensures a + (b + c) == a + b + c
  {
  }

  /** After a notification of a new job id, whatever happened before, unit k of the run on
      that job carries the number k. */
  lemma NewJobCounts(pool: Pool, s: State, first: Job, beyond: nat -> Byte, events: seq<Event>)
    requires s.job.None? || s.job.value.id != first.id
    requires SameJob(Noted(first, s.xnonce1, LittleEndian(0, s.size)), events)
    ensures var r := Run(pool, s, [Event.Notify(first, beyond)] + events);
      !r.overrun && forall k :: 0 <= k < |r.units| ==> r.units[k].xnonce2 == LittleEndian(k, s.size)
  {
    hide LittleEndian, Run, Step, SameJob, Noted, Sound, State.Field;
    var e := Event.Notify(first, beyond);
    var start := Noted(first, s.xnonce1, LittleEndian(0, s.size));
    FreshStart(pool, s, first, beyond);
    OnlyUnitsAreMade(pool, s, e);
    RunCons(pool, s, e, events);
    NotedField(first, s.xnonce1, LittleEndian(0, s.size));
    NotedSound(first, s.xnonce1, LittleEndian(0, s.size));
    CountsFromZero(pool, start, events);
  }

  lemma NotedSound(job: Job, xnonce1: seq<Byte>, x: seq<Byte>)
    ensures var s := Noted(job, xnonce1, x); Sound(s) && s.size == |x| && s.job == Some(job) && s.xnonce1 == xnonce1
  {
  }

  lemma CountsFromZero(pool: Pool, start: State, events: seq<Event>)
    requires Sound(start) && SameJob(start, events) && start.Field() == LittleEndian(0, start.size)
    ensures var r := Run(pool, start, events);
      !r.overrun && forall k :: 0 <= k < |r.units| ==> r.units[k].xnonce2 == LittleEndian(k, start.size)
  {
    hide LittleEndian, FromLittle, Run, SameJob, State.Field;
    LittleReadsBack(0, start.size);
    ModUnique(0, Pow256(start.size), 0, 0);
    Counts(pool, start, events);
  }

  // Repeats of a job whose first part has another length.

  function AnyJob(coinb1: seq<Byte>, coinb2: seq<Byte>): Job {
    Job("", Repeat(4, 0), Repeat(32, 0), coinb1, coinb2, [], Repeat(4, 0), Repeat(4, 0), 0)
  }

  /** The extranonce is kept whatever the bytes are. now is the pool's extranonce at the
      repeat, which it may have changed since. */
  ghost predicate AlwaysKept(xnonce1: seq<Byte>, now: seq<Byte>, size: nat, before: nat, after: nat) {
    forall first: Job, x: seq<Byte>, again: Job, beyond: nat -> Byte ::
      first.id == again.id && |x| == size && |first.coinb1| == before && |again.coinb1| == after ==>
        Renewed(Noted(first, xnonce1, x).(xnonce1 := now), again, beyond) == x
  }

  /** A repeat is sure to keep the extranonce exactly if it stays at its place. */
  lemma KeptIff(xnonce1: seq<Byte>, now: seq<Byte>, size: nat, before: nat, after: nat)
    requires size > 0
    ensures AlwaysKept(xnonce1, now, size, before, after) <==> before + |xnonce1| == after + |now|
  {
    hide Renewed, Coinbase;
    if before + |xnonce1| == after + |now| {
      forall first: Job, x: seq<Byte>, again: Job, beyond: nat -> Byte |
        first.id == again.id && |x| == size && |first.coinb1| == before && |again.coinb1| == after
        ensures Renewed(Noted(first, xnonce1, x).(xnonce1 := now), again, beyond) == x
      {
        NotedField(first, xnonce1, x);
        Keeps(Noted(first, xnonce1, x).(xnonce1 := now), again, beyond);
      }
    } else {
      var first, x, again, beyond := Moves(xnonce1, now, size, before, after);
    }
  }

  /** A repeat at another place after which the extranonce is another. */
  lemma Moves(xnonce1: seq<Byte>, now: seq<Byte>, size: nat, before: nat, after: nat)
    returns (first: Job, x: seq<Byte>, again: Job, beyond: nat -> Byte)
    requires size > 0 && before + |xnonce1| != after + |now|
    ensures first.id == again.id && |x| == size && |first.coinb1| == before && |again.coinb1| == after
    ensures Renewed(Noted(first, xnonce1, x).(xnonce1 := now), again, beyond) != x
  {
    hide Renewed, Noted, Coinbase, Taken;
    var front := Repeat(before, 0) + xnonce1;
    var at := after + |now|;
    var v: Byte := if at < |front| && front[at] == 1 then 0 else 1;
    x := Repeat(size, v);
    first, again, beyond := AnyJob(Repeat(before, 0), Repeat(at, 0)), AnyJob(Repeat(after, 0), []), i => 0;
    RenewedNow(xnonce1, first, x, now, again, beyond);
    CoinbaseParts(first, xnonce1, x);
    var whole := front + x + Repeat(at, 0);
    if at < |front| {
      TakenAt(whole, beyond, at, size, 0);
      assert whole[at] == front[at] != v;
    } else {
      TakenAt(whole, beyond, at, size, size - 1);
      assert at + size - 1 < |whole| ==> whole[at + size - 1] == 0;
    }
  }

  lemma TakenAt(bytes: seq<Byte>, beyond: nat -> Byte, at: nat, size: nat, k: nat)
    requires k < size
    ensures Taken(bytes, beyond, at, size)[k] == if at + k < |bytes| then bytes[at + k] else beyond(at + k)
  {
  }

  lemma CoinbaseParts(job: Job, xnonce1: seq<Byte>, x: seq<Byte>)
    ensures Coinbase(job, xnonce1, x) == (job.coinb1 + xnonce1) + x + job.coinb2
  {
  }

  lemma RenewedNow(xnonce1: seq<Byte>, first: Job, x: seq<Byte>, now: seq<Byte>, again: Job, beyond: nat -> Byte)
    requires first.id == again.id
    ensures Renewed(Noted(first, xnonce1, x).(xnonce1 := now), again, beyond)
         == Taken(Coinbase(first, xnonce1, x), beyond, |again.coinb1| + |now|, |x|)
  {
    hide Taken, Coinbase;
  }

  /** A unit, the repeat and another unit: both units have the same extranonce. */
  ghost predicate HandedOutTwice(pool: Pool, xnonce1: seq<Byte>, first: Job, x: seq<Byte>, again: Job, beyond: nat -> Byte) {
    var u := Run(pool, Noted(first, xnonce1, x), [Event.Generate, Event.Notify(again, beyond), Event.Generate]).units;
    first.id == again.id && |u| == 2 && u[0].jobId == u[1].jobId && u[0].xnonce2 == u[1].xnonce2
  }

  /** A repeat of these lengths can hand out an extranonce again. */
  ghost predicate CanRepeat(pool: Pool, xnonce1: seq<Byte>, size: nat, before: nat, after: nat) {
    exists first: Job, x: seq<Byte>, again: Job, beyond: nat -> Byte ::
      |x| == size && |first.coinb1| == before && |again.coinb1| == after &&
      HandedOutTwice(pool, xnonce1, first, x, again, beyond)
  }

  lemma TwoUnits(pool: Pool, s: State, again: Job, beyond: nat -> Byte)
    requires s.job.Some? && s.Inside()
    ensures var t := Counted(s);
      var v := Noted(again, t.xnonce1, Renewed(t, again, beyond));
      Run(pool, s, [Event.Generate, Event.Notify(again, beyond), Event.Generate]).units ==
        [UnitOf(pool, s.job.value, s.coinbase, s.Field()), UnitOf(pool, again, v.coinbase, v.Field())]
  {
    hide UnitOf, Counted, Renewed, Coinbase, State.Field;
    var events := [Event.Generate, Event.Notify(again, beyond), Event.Generate];
    assert events[..0] == [] && events[..3] == events;
    RunNothing(pool, s);
    hide Run;
    RunMore(pool, s, events, 0);
    RunMore(pool, s, events, 1);
    RunMore(pool, s, events, 2);
  }

  lemma IdOf(pool: Pool, job: Job, coinbase: seq<Byte>, x: seq<Byte>)
    ensures UnitOf(pool, job, coinbase, x).xnonce2 == x
    ensures UnitOf(pool, job, coinbase, x).jobId == HashLog.JobId(FromBig(job.ntime), job.id)
  {
  }

  lemma CountedNoted(job: Job, xnonce1: seq<Byte>, x: seq<Byte>)
    ensures Counted(Noted(job, xnonce1, x)) == Noted(job, xnonce1, Inc(x))
  {
    hide Inc;
    NotedField(job, xnonce1, x);
  }

  /** The two units, when the run starts after a notification. */
  lemma TwoNoted(pool: Pool, xnonce1: seq<Byte>, first: Job, x: seq<Byte>, again: Job, beyond: nat -> Byte)
    ensures var y := Renewed(Noted(first, xnonce1, Inc(x)), again, beyond);
      Run(pool, Noted(first, xnonce1, x), [Event.Generate, Event.Notify(again, beyond), Event.Generate]).units ==
        [UnitOf(pool, first, Coinbase(first, xnonce1, x), x), UnitOf(pool, again, Coinbase(again, xnonce1, y), y)]
  {
    var y := Renewed(Noted(first, xnonce1, Inc(x)), again, beyond);
    hide UnitOf, Counted, State.Field, Run, Inc, Coinbase, Renewed;
    CountedNoted(first, xnonce1, x);
    NotedField(first, xnonce1, x);
    NotedField(again, xnonce1, y);
    TwoUnits(pool, Noted(first, xnonce1, x), again, beyond);
  }

  /** What the bytes must be for it. */
  lemma TwiceIff(pool: Pool, xnonce1: seq<Byte>, first: Job, x: seq<Byte>, again: Job, beyond: nat -> Byte)
    requires first.id == again.id && first.ntime == again.ntime
    ensures HandedOutTwice(pool, xnonce1, first, x, again, beyond) <==>
      Taken(Coinbase(first, xnonce1, Inc(x)), beyond, |again.coinb1| + |xnonce1|, |x|) == x
  {
    hide UnitOf, Run, Taken, Inc, FromBig, Coinbase, Renewed;
    var y := Renewed(Noted(first, xnonce1, Inc(x)), again, beyond);
    TwoNoted(pool, xnonce1, first, x, again, beyond);
    RenewedNow(xnonce1, first, Inc(x), xnonce1, again, beyond);
    assert Noted(first, xnonce1, Inc(x)).(xnonce1 := xnonce1) == Noted(first, xnonce1, Inc(x));
    hide Noted;
    IdOf(pool, first, Coinbase(first, xnonce1, x), x);
    IdOf(pool, again, Coinbase(again, xnonce1, y), y);
  }

  lemma IncMoves(x: seq<Byte>)
    requires x != []
    ensures Inc(x) != x
  {
    hide Next, Inc;
    IncStep(x);
    NextOther(x[0]);
  }

  lemma NextOther(b: Byte)
    ensures Next(b) != b
  {
    hide LowByte;
    var v := b as nat + 1;
    LowValue(v);
    if v == 256 {
      assert v % 256 == 0;
    } else {
      ModUnique(v, 256, 0, v);
    }
  }

  lemma {:induction false} IncPrefix(x: seq<Byte>, y: seq<Byte>)
    ensures Inc(x + y)[..|x|] == Inc(x)
  {
    hide Inc, Next;
    if x == [] {
      IncNothing();
    } else {
      var all := x + y;
      assert all[1..] == x[1..] + y;
      IncStep(x);
      IncStep(all);
      IncPrefix(x[1..], y);
    }
  }

  /** An extranonce that, once counted up, shows again when it is read d bytes earlier,
      behind the d bytes f. */
  function Recurring(f: seq<Byte>, n: nat): (x: seq<Byte>)
    requires f != []
    ensures |x| == n
  {
    if n == 0 then []
    else
      var x := Recurring(f, n - 1);
      x + [if n - 1 < |f| then f[n - 1] else Inc(x)[n - 1 - |f|]]
  }

  lemma {:induction false} RecurringAt(f: seq<Byte>, n: nat, i: nat)
    requires f != [] && i < n
    ensures Recurring(f, n)[i] == (f + Inc(Recurring(f, n)))[i]
    decreases n
  {
    hide Inc;
    var x := Recurring(f, n - 1);
    var last := [Recurring(f, n)[n - 1]];
    assert Recurring(f, n) == x + last;
    IncPrefix(x, last);
    if i < n - 1 {
      RecurringAt(f, n - 1, i);
    }
    if i >= |f| {
      assert Inc(x + last)[..n - 1][i - |f|] == Inc(x)[i - |f|];
    }
  }

  lemma ZerosCounted(size: nat, i: nat)
    requires 0 < i < size
    ensures Inc(Repeat(size, 0))[i] == 0
  {
    hide Inc, Next;
    IncStep(Repeat(size, 0));
    LowIsOne();
  }

  lemma LowIsOne()
    ensures Next(0) == 1
  {
  }

  /** A shorter first part: the extranonce is read from the bytes before it on. */
  lemma ShorterRepeats(pool: Pool, xnonce1: seq<Byte>, size: nat, after: nat, d: nat)
    requires d > 0
    ensures CanRepeat(pool, xnonce1, size, after + d, after)
  {
    hide Inc, HandedOutTwice;
    var front := Repeat(after + d, 0) + xnonce1;
    var at := after + |xnonce1|;
    var f := front[at..];
    var x := Recurring(f, size);
    var first, again, beyond: nat -> Byte := AnyJob(Repeat(after + d, 0), []), AnyJob(Repeat(after, 0), []), i => 0;
    var whole := Coinbase(first, xnonce1, Inc(x));
    assert whole == front + Inc(x);
    assert whole[at..] == f + Inc(x);
    forall i | 0 <= i < size
      ensures whole[at + i] == x[i]
    {
      RecurringAt(f, size, i);
      assert whole[at + i] == whole[at..][i];
    }
    assert Taken(whole, beyond, at, size) == x;
    TwiceIff(pool, xnonce1, first, x, again, beyond);
  }

  /** A longer one, on the first unit of a job: the zeros behind the count are read. */
  lemma LongerRepeats(pool: Pool, xnonce1: seq<Byte>, size: nat, before: nat, d: nat)
    requires d > 0
    ensures CanRepeat(pool, xnonce1, size, before, before + d)
  {
    hide Inc, HandedOutTwice;
    var x := Repeat(size, 0);
    var first, again, beyond: nat -> Byte :=
      AnyJob(Repeat(before, 0), Repeat(d, 0)), AnyJob(Repeat(before + d, 0), []), i => 0;
    var front := Repeat(before, 0) + xnonce1;
    var whole := Coinbase(first, xnonce1, Inc(x));
    assert whole == front + Inc(x) + Repeat(d, 0);
    var at := before + d + |xnonce1|;
    forall i | 0 <= i < size
      ensures whole[at + i] == x[i]
    {
      if d + i < size {
        ZerosCounted(size, d + i);
      }
    }
    assert Taken(whole, beyond, at, size) == x;
    TwiceIff(pool, xnonce1, first, x, again, beyond);
  }

  lemma EqualNeverRepeats(pool: Pool, xnonce1: seq<Byte>, first: Job, x: seq<Byte>, again: Job, beyond: nat -> Byte)
    requires x != [] && |first.coinb1| == |again.coinb1|
    ensures !HandedOutTwice(pool, xnonce1, first, x, again, beyond)
  {
    hide Run, Inc, UnitOf, Coinbase, Noted, Renewed, State.Field;
    if first.id == again.id {
      var s := Noted(first, xnonce1, Inc(x));
      TwoNoted(pool, xnonce1, first, x, again, beyond);
      NotedSound(first, xnonce1, Inc(x));
      NotedField(first, xnonce1, Inc(x));
      Keeps(s, again, beyond);
      IncMoves(x);
      IdOf(pool, first, Coinbase(first, xnonce1, x), x);
      IdOf(pool, again, Coinbase(again, xnonce1, Inc(x)), Inc(x));
    }
  }

  /** With any extranonces: a repeat can hand out an extranonce again exactly if its first
      part has another length. */
  lemma RepeatsIff(pool: Pool, xnonce1: seq<Byte>, size: nat, before: nat, after: nat)
    requires size > 0
    ensures CanRepeat(pool, xnonce1, size, before, after) <==> before != after
  {
    hide HandedOutTwice;
    if before < after {
      LongerRepeats(pool, xnonce1, size, before, after - before);
    } else if after < before {
      ShorterRepeats(pool, xnonce1, size, after, before - after);
    } else {
      forall first: Job, x: seq<Byte>, again: Job, beyond: nat -> Byte |
        |x| == size && |first.coinb1| == before && |again.coinb1| == after
        ensures !HandedOutTwice(pool, xnonce1, first, x, again, beyond)
      {
        EqualNeverRepeats(pool, xnonce1, first, x, again, beyond);
      }
    }
  }

  // Changes of the extranonce while a job is in use.

  /** The buffer holds the job's parts around n bytes for the extranonce. */
  predicate Parts(s: State, job: Job, xnonce1: seq<Byte>, n: nat) {
    s.job == Some(job) && s.at == |job.coinb1| + |xnonce1| && |s.coinbase| == s.at + n + |job.coinb2| &&
    s.coinbase[..s.at] == job.coinb1 + xnonce1 && s.coinbase[s.at + n..] == job.coinb2
  }

  lemma NotedParts(job: Job, xnonce1: seq<Byte>, x: seq<Byte>)
    ensures Parts(Noted(job, xnonce1, x), job, xnonce1, |x|)
  {
    NotedField(job, xnonce1, x);
  }

  /** No notification, and no second extranonce of more than n bytes. */
  predicate AtMost(n: nat, events: seq<Event>) {
    forall k :: 0 <= k < |events| ==> Modest(n, events[k])
  }

  predicate Modest(n: nat, e: Event) {
    !e.Notify? && (e.SetExtranonce? && SizeOk(e.size) ==> e.size <= n)
  }

  lemma StepParts(pool: Pool, s: State, e: Event, job: Job, xnonce1: seq<Byte>, n: nat)
    requires Parts(s, job, xnonce1, n) && s.size <= n && Modest(n, e)
    ensures var (t, made) := Step(pool, s, e);
      Parts(t, job, xnonce1, n) && t.size <= n && !made.Overrun? && (e.Generate? ==> t.size == s.size)
  {
    hide UnitOf, Inc, Counted, State.Field, Parts;
    PartsJob(s, job, xnonce1, n);
    if e.Generate? {
      CountedParts(s, job, xnonce1, n);
    } else {
      SameParts(s, Step(pool, s, e).0, job, xnonce1, n);
    }
  }

  lemma CountedParts(s: State, job: Job, xnonce1: seq<Byte>, n: nat)
    requires Parts(s, job, xnonce1, n) && s.size <= n
    ensures Parts(Counted(s), job, xnonce1, n) && Counted(s).size == s.size
  {
    CountedField(s);
    CountedFixes(s);
    hide Counted, State.Field, Inc;
    DropMore(s.coinbase, s.at + s.size, n - s.size);
    DropMore(Counted(s).coinbase, s.at + s.size, n - s.size);
  }

  lemma DropMore(s: seq<Byte>, i: nat, k: nat)
    requires i + k <= |s|
    ensures s[i..][k..] == s[i + k..]
  {
  }

  /** The parts stay until the next notification while the size is at most what it was at
      the last one. */
  lemma {:induction false} PartsStay(pool: Pool, start: State, events: seq<Event>, job: Job, xnonce1: seq<Byte>, n: nat)
    requires Parts(start, job, xnonce1, n) && start.size <= n && AtMost(n, events)
    ensures var r := Run(pool, start, events); Parts(r.state, job, xnonce1, n) && r.state.size <= n && !r.overrun
  {
    hide Step, Parts;
    if events != [] {
      var i := |events| - 1;
      PartsStay(pool, start, events[..i], job, xnonce1, n);
      StepParts(pool, Run(pool, start, events[..i]).state, events[i], job, xnonce1, n);
    }
  }

  function Changed(pool: Pool, job: Job, xnonce1: seq<Byte>, x: seq<Byte>, now: seq<Byte>, size: int): State {
    Step(pool, Noted(job, xnonce1, x), Event.SetExtranonce(now, size)).0
  }

  /** The next unit after the change stays in the buffer and leaves the parts alone,
      whatever the bytes are. */
  ghost predicate SafeChange(pool: Pool, now: seq<Byte>, size: int, n: nat, tail: nat) {
    forall job: Job, xnonce1: seq<Byte>, x: seq<Byte> :: |x| == n && |job.coinb2| == tail ==>
      var (t, made) := Step(pool, Changed(pool, job, xnonce1, x, now, size), Event.Generate);
      made.Work? && Parts(t, job, xnonce1, n)
  }

  /** Exactly the sizes that do not grow are safe while a job is in use. */
  lemma SafeChangeIff(pool: Pool, now: seq<Byte>, size: int, n: nat, tail: nat)
    requires SizeOk(size)
    ensures SafeChange(pool, now, size, n, tail) <==> size <= n
  {
    hide UnitOf, Inc, Parts;
    if size <= n {
      forall job: Job, xnonce1: seq<Byte>, x: seq<Byte> | |x| == n && |job.coinb2| == tail
        ensures var (t, made) := Step(pool, Changed(pool, job, xnonce1, x, now, size), Event.Generate);
                made.Work? && Parts(t, job, xnonce1, n)
      {
        NotedParts(job, xnonce1, x);
        var s := Changed(pool, job, xnonce1, x, now, size);
        assert Parts(s, job, xnonce1, n) by {
          SameParts(Noted(job, xnonce1, x), s, job, xnonce1, n);
        }
        StepParts(pool, s, Event.Generate, job, xnonce1, n);
      }
    } else {
      GrowthHarms(pool, now, size, n, tail);
    }
  }

  lemma SameParts(s: State, t: State, job: Job, xnonce1: seq<Byte>, n: nat)
    requires Parts(s, job, xnonce1, n) && t.job == s.job && t.at == s.at && t.coinbase == s.coinbase
    ensures Parts(t, job, xnonce1, n)
  {
  }

  /** The job and the extranonce at which a greater size counts into the second part, or
      reaches past it. */
  lemma GrowthHarms(pool: Pool, now: seq<Byte>, size: int, n: nat, tail: nat)
    requires SizeOk(size) && size > n
    ensures var job, x := AnyJob([], Repeat(tail, 0)), Repeat(n, 255);
      var (t, made) := Step(pool, Changed(pool, job, [], x, now, size), Event.Generate);
      !(made.Work? && Parts(t, job, [], n))
  {
    hide UnitOf, Inc;
    var job, x := AnyJob([], Repeat(tail, 0)), Repeat(n, 255);
    var s := Changed(pool, job, [], x, now, size);
    assert s.coinbase == x + Repeat(tail, 0);
    if size <= n + tail {
      assert s.Field() == x + Repeat(size - n, 0);
      CarriesOver(n, size - n);
      CountedField(s);
      var t := Counted(s);
      assert t.Field()[n] == 1 && t.coinbase[n] == t.Field()[n];
      assert t.coinbase[n..][0] == t.coinbase[n];
    }
  }

  lemma {:induction false} CarriesOver(n: nat, m: nat)
    requires m > 0
    ensures Inc(Repeat(n, 255) + Repeat(m, 0))[n] == 1
  {
    hide Inc, Next;
    var all := Repeat(n, 255) + Repeat(m, 0);
    IncStep(all);
    if n == 0 {
      LowIsOne();
    } else {
      LastByteWraps();
      assert all[1..] == Repeat(n - 1, 255) + Repeat(m, 0);
      CarriesOver(n - 1, m);
    }
  }

  lemma LastByteWraps()
    ensures Next(255) == 0
  {
  }

  /** A unit after a change: it runs past the buffer exactly if the size is more than the
      old extranonce and the second part; else its header covers the job's coinbase with
      its extranonce exactly if the size is the old one. */
  lemma OwnCoinbaseIff(pool: Pool, job: Job, xnonce1: seq<Byte>, x: seq<Byte>, now: seq<Byte>, size: int)
    requires SizeOk(size)
    ensures var s := Changed(pool, job, xnonce1, x, now, size);
      var made := Step(pool, s, Event.Generate).1;
      (made.Overrun? <==> size > |x| + |job.coinb2|) &&
      (made.Work? <==> size <= |x| + |job.coinb2|) &&
      (made.Work? ==> made.unit == UnitOf(pool, job, s.coinbase, made.unit.xnonce2)) &&
      (made.Work? ==> (s.coinbase == Coinbase(job, xnonce1, made.unit.xnonce2) <==> size == |x|))
  {
    hide HeaderWords, BranchFold, Inc;
    NotedField(job, xnonce1, x);
  }

  /** The size stays what it is, and there is no notification. */
  predicate Steady(n: nat, events: seq<Event>) {
    forall k :: 0 <= k < |events| ==> Modest(n, events[k]) && (events[k].SetExtranonce? && SizeOk(events[k].size) ==> events[k].size == n)
  }

  lemma WholeParts(s: State, job: Job, xnonce1: seq<Byte>)
    requires Parts(s, job, xnonce1, s.size)
    ensures s.coinbase == Coinbase(job, xnonce1, s.Field())
  {
    assert s.coinbase == s.coinbase[..s.at] + s.Field() + s.coinbase[s.at + s.size..];
  }

  /** Until the next notification every unit of a run with the same size covers the job's
      coinbase with its own extranonce, also when the first extranonce has been replaced. */
  lemma {:induction false} UnitsCommit(pool: Pool, start: State, events: seq<Event>, job: Job, xnonce1: seq<Byte>, n: nat)
    requires Parts(start, job, xnonce1, n) && start.size == n && Steady(n, events)
    ensures var r := Run(pool, start, events);
      Parts(r.state, job, xnonce1, n) && r.state.size == n && !r.overrun &&
      forall k :: 0 <= k < |r.units| ==>
        r.units[k] == UnitOf(pool, job, Coinbase(job, xnonce1, r.units[k].xnonce2), r.units[k].xnonce2)
  {
    hide UnitOf, Parts, Coinbase, Counted, State.Field;
    if events != [] {
      var i := |events| - 1;
      UnitsCommit(pool, start, events[..i], job, xnonce1, n);
      var s := Run(pool, start, events[..i]).state;
      StepParts(pool, s, events[i], job, xnonce1, n);
      WholeParts(s, job, xnonce1);
      PartsJob(s, job, xnonce1, n);
      IdOf(pool, job, s.coinbase, s.Field());
    }
  }

  lemma PartsJob(s: State, job: Job, xnonce1: seq<Byte>, n: nat)
    requires Parts(s, job, xnonce1, n)
    ensures s.job == Some(job) && (s.size <= n ==> s.Inside())
  {
  }
}

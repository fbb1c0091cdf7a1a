/** The log of submitted nonces and the gate that keeps a share from being sent
    twice on the default stratum path. */
module HashLog {
  import B = Bytes

  const UINT_RANGE: nat := 0x1_0000_0000
  const ULONG_MAX: nat := 0xFFFF_FFFF_FFFF_FFFF
  const LOG_PURGE_TIMEOUT: nat := 300

  // Job ids.

  function HexValue(c: char): (v: int)
    ensures -1 <= v < 16
  {
    if '0' <= c <= '9' then c as int - '0' as int
    else if 'a' <= c <= 'f' then c as int - 'a' as int + 10
    else if 'A' <= c <= 'F' then c as int - 'A' as int + 10
    else -1
  }

  /** The value of the hexadecimal digits that s starts with, after acc. */
  function ParseHex(s: string, acc: nat): nat {
    if s == "" || HexValue(s[0]) < 0 then acc else ParseHex(s[1..], 16 * acc + HexValue(s[0]))
  }

  /** The digits of both cases, and no other characters. */
  lemma HexCharacters(c: char, v: nat)
    requires v < 16
    ensures HexValue(c) == v <==> c == "0123456789abcdef"[v] || c == "0123456789ABCDEF"[v]
  {
  }

  predicate IsSpace(c: char) {
    c == ' ' || '\t' <= c <= '\r'
  }

  /** The six characters of isspace. */
  lemma Spaces(c: char)
    ensures IsSpace(c) <==> c in [' ', '\t', '\n', 11 as char, 12 as char, '\r']
  {
  }

  function SkipSpace(s: string): string {
    if s != "" && IsSpace(s[0]) then SkipSpace(s[1..]) else s
  }

  /** strtoul in base 16: spaces, a sign, 0x, digits; it saturates. */
  function HexToUint(jobid: string): (v: nat)
    ensures v <= ULONG_MAX
  {
    var s := SkipSpace(jobid);
    var signed := s != "" && (s[0] == '+' || s[0] == '-');
    var t := if signed then s[1..] else s;
    var u := if |t| > 2 && t[0] == '0' && (t[1] == 'x' || t[1] == 'X') && HexValue(t[2]) >= 0 then t[2..] else t;
    var v := ParseHex(u, 0);
    if v > ULONG_MAX then ULONG_MAX
    else if signed && s[0] == '-' && v > 0 then ULONG_MAX + 1 - v
    else v
  }

  function HexDigit(v: nat): (c: char)
    requires v < 16
    ensures HexValue(c) == v && !IsSpace(c) && c != 'x' && c != 'X' && c != '+' && c != '-'
  {
    if v < 10 then ('0' as int + v) as char else ('a' as int + (v - 10)) as char
  }

  /** The low digits of v, at least that many, zeros in front. */
  function HexDigits(v: nat, digits: nat): (s: string)
    ensures |s| == digits
  {
    if digits == 0 then "" else HexDigits(v / 16, digits - 1) + [HexDigit(v % 16)]
  }

  /** The miner's job id: 28 bits of the job time in seven digits, then the pool's id. */
  function JobId(ntime: nat, poolId: string): string {
    HexDigits(ntime % 0x1000_0000, 7) + " " + poolId
  }

  function Pow16(k: nat): (p: nat)
    ensures p > 0
  {
    if k == 0 then 1 else 16 * Pow16(k - 1)
  }

  lemma ParseOne(c: char, v: nat, rest: string, acc: nat)
    requires HexValue(c) == v
    ensures ParseHex([c] + rest, acc) == ParseHex(rest, 16 * acc + v)
  {
    assert ([c] + rest)[1..] == rest;
  }

  lemma NextPower(acc: nat, p: nat, v: nat)
    ensures 16 * (acc * p + v / 16) + v % 16 == acc * (16 * p) + v
  {
  }

  lemma {:induction false} ParseDigits(v: nat, digits: nat, rest: string, acc: nat)
    requires v < Pow16(digits)
    ensures ParseHex(HexDigits(v, digits) + rest, acc) == ParseHex(rest, acc * Pow16(digits) + v)
  {
    hide ParseHex, HexDigit;
    if digits == 0 {
      assert HexDigits(v, 0) + rest == rest;
    } else {
      var d, a := HexDigit(v % 16), acc * Pow16(digits - 1) + v / 16;
      assert HexDigits(v, digits) + rest == HexDigits(v / 16, digits - 1) + ([d] + rest);
      ParseDigits(v / 16, digits - 1, [d] + rest, acc);
      ParseOne(d, v % 16, rest, a);
      NextPower(acc, Pow16(digits - 1), v);
    }
  }

  lemma FirstDigits(v: nat, digits: nat)
    requires digits >= 2
    ensures var s := HexDigits(v, digits); !IsSpace(s[0]) && s[0] != '+' && s[0] != '-' && s[1] != 'x' && s[1] != 'X'
  {
    if digits > 2 {
      FirstDigits(v / 16, digits - 1);
    } else {
      assert HexDigits(v / 16, 1) == HexDigits(v / 16 / 16, 0) + [HexDigit(v / 16 % 16)];
    }
  }

  /** Reading a job id back gives the job time it was made from, whatever the pool's id is. */
  lemma JobIdReadsBack(ntime: nat, poolId: string)
    ensures HexToUint(JobId(ntime, poolId)) == ntime % 0x1000_0000
  {
    var v := ntime % 0x1000_0000;
    var s := JobId(ntime, poolId);
    assert Pow16(7) == 0x1000_0000 by {
      assert Pow16(3) == 4096 && Pow16(5) == 256 * Pow16(3);
    }
    FirstDigits(v, 7);
    assert s == HexDigits(v, 7) + (" " + poolId);
    ParseDigits(v, 7, " " + poolId, 0);
    assert SkipSpace(s) == s;
  }

  lemma ParseAll(v: nat, digits: nat)
    requires v < Pow16(digits)
    ensures ParseHex(HexDigits(v, digits), 0) == v
  {
    hide HexDigits, Pow16;
    assert HexDigits(v, digits) + "" == HexDigits(v, digits);
    ParseDigits(v, digits, "", 0);
  }

  /** Digits as a job id begins: no space, no sign, no prefix. */
  predicate Digits(s: string, v: nat) {
    |s| >= 2 && HexValue(s[0]) >= 0 && !IsSpace(s[0]) && s[0] != '+' && s[0] != '-' && s[1] != 'x' && s[1] != 'X' && ParseHex(s, 0) == v
  }

  lemma DigitsRead(s: string, v: nat)
    requires Digits(s, v)
    ensures var n := if v > ULONG_MAX then ULONG_MAX else v; HexToUint(s) == HexToUint(" " + s) == n
  {
    hide ParseHex, HexValue;
    assert (" " + s)[1..] == s && SkipSpace(s) == s;
  }

  lemma SignedRead(s: string, v: nat)
    requires Digits(s, v)
    ensures HexToUint("+" + s) == if v > ULONG_MAX then ULONG_MAX else v
    ensures HexToUint("-" + s) == if v > ULONG_MAX then ULONG_MAX else (ULONG_MAX + 1 - v) % (ULONG_MAX + 1)
  {
    hide ParseHex, HexValue;
    assert ("+" + s)[1..] == s && ("-" + s)[1..] == s;
    assert SkipSpace("+" + s) == "+" + s && SkipSpace("-" + s) == "-" + s;
  }

  lemma PrefixedRead(s: string, v: nat)
    requires Digits(s, v)
    ensures HexToUint("0x" + s) == if v > ULONG_MAX then ULONG_MAX else v
  {
    hide ParseHex, HexValue;
    var p := "0x" + s;
    assert p[0] == '0' && p[1] == 'x' && p[2..] == s && p[2] == s[0];
    assert SkipSpace(p) == p;
  }

  /** What the sign, the prefix and too many digits do. */
  lemma HexForms(v: nat, digits: nat)
    requires digits >= 2 && v < Pow16(digits)
    ensures var s := HexDigits(v, digits); var n := if v > 0xFFFF_FFFF_FFFF_FFFF then 0xFFFF_FFFF_FFFF_FFFF else v;
      HexToUint(s) == HexToUint("+" + s) == HexToUint("0x" + s) == HexToUint(" " + s) == n &&
      HexToUint("-" + s) == if v > 0xFFFF_FFFF_FFFF_FFFF then 0xFFFF_FFFF_FFFF_FFFF else (0x1_0000_0000_0000_0000 - v) % 0x1_0000_0000_0000_0000
  {
    hide HexToUint, HexDigits, ParseHex, HexValue, Pow16, IsSpace;
    var s := HexDigits(v, digits);
    FirstDigits(v, digits);
    FirstIsDigit(v, digits);
    ParseAll(v, digits);
    DigitsRead(s, v);
    SignedRead(s, v);
    PrefixedRead(s, v);
  }

  lemma {:induction false} FirstIsDigit(v: nat, digits: nat)
    requires digits > 0
    ensures HexValue(HexDigits(v, digits)[0]) >= 0
  {
    if digits > 1 {
      FirstIsDigit(v / 16, digits - 1);
    } else {
      assert HexDigits(v / 16, 0) == "";
    }
  }

  // Keys.

  /** (njobid << 32) + nonce, in 64 bits. */
  function Key(njobid: nat, nonce: nat): nat {
    (njobid * UINT_RANGE + nonce) % (UINT_RANGE * UINT_RANGE)
  }

  /** Two keys are equal exactly when the low halves of the job ids and the nonces are. */
  lemma KeyInjective(a: nat, n: nat, b: nat, m: nat)
    requires n < UINT_RANGE && m < UINT_RANGE
    ensures Key(a, n) == Key(b, m) <==> a % UINT_RANGE == b % UINT_RANGE && n == m
  {
    KeyParts(a, n);
    KeyParts(b, m);
  }

  lemma KeyParts(a: nat, n: nat)
    requires n < UINT_RANGE
    ensures Key(a, n) == a % UINT_RANGE * UINT_RANGE + n
    ensures Key(a, n) / UINT_RANGE == a % UINT_RANGE && Key(a, n) % UINT_RANGE == n
  {
    assert a * UINT_RANGE + n == a / UINT_RANGE * (UINT_RANGE * UINT_RANGE) + (a % UINT_RANGE * UINT_RANGE + n);
  }

  /** The gate tells two shares apart by 28 bits of job time and the nonce, and by
      nothing else. */
  lemma SameGate(t1: nat, p1: string, n1: nat, t2: nat, p2: string, n2: nat)
    requires n1 < UINT_RANGE && n2 < UINT_RANGE
    ensures Key(HexToUint(JobId(t1, p1)), n1) == Key(HexToUint(JobId(t2, p2)), n2)
       <==> t1 % 0x1000_0000 == t2 % 0x1000_0000 && n1 == n2
  {
    hide HexToUint, Key, JobId;
    JobIdReadsBack(t1, p1);
    JobIdReadsBack(t2, p2);
    KeyInjective(t1 % 0x1000_0000, n1, t2 % 0x1000_0000, n2);
  }

  // The log.

  datatype Record = Record(
    npool: nat, poolType: nat, nonceId: nat, jobNonceId: nat, height: nat, sharediff: real,
    njobid: nat, scannedFrom: nat, scannedTo: nat, lastFrom: nat, tmAdd: nat, tmUpd: nat, tmSent: nat)

  type Log = map<nat, Record>

  const BLANK := Record(0, 0, 0, 0, 0, 0.0, 0, 0, 0, 0, 0, 0, 0)

  /** What a thread scanned, and the id and difficulty of the nonce it submits. */
  datatype Work = Work(jobId: string, scannedFrom: nat, scannedTo: nat, height: nat, nonceId: nat, sharediff: real)

  /** The globals that a record of a send copies: the pool's number and type, and the
      job's count of shares. */
  datatype Pool = Pool(number: nat, kind: nat, shares: nat)

  /** The clock, as the records store it. */
  function Stamp(now: nat): nat { now % UINT_RANGE }

  /** The difference of two stamps, as unsigned words. */
  function Age(now: nat, stamp: nat): nat {
    (now - stamp) % UINT_RANGE
  }

  function SubmitRecord(work: Work, pool: Pool, now: nat): Record {
    Record(pool.number % 256, pool.kind % 256, work.nonceId % 256, pool.shares % 256, work.height, work.sharediff,
           HexToUint(work.jobId) % UINT_RANGE, work.scannedFrom, work.scannedTo, 0, Stamp(now), Stamp(now), Stamp(now))
  }

  predicate OfJob(key: nat, njobid: nat) {
    key / UINT_RANGE == njobid % UINT_RANGE
  }

  /** Widens a range, as one turn of the loop over the records does. */
  function Widen(from: nat, to: nat, r: Record): (nat, nat) {
    (if r.scannedFrom < from || from == 0 then r.scannedFrom else from, if r.scannedTo > to then r.scannedTo else to)
  }

  ghost function Largest(keys: set<nat>): (k: nat)
    requires keys != {}
    ensures k in keys && forall j :: j in keys ==> j <= k
  {
    LargestExists(keys);
    var k :| k in keys && forall j :: j in keys ==> j <= k;
    k
  }

  lemma LargestExists(keys: set<nat>)
    requires keys != {}
    ensures exists k :: k in keys && forall j :: j in keys ==> j <= k
  {
    var k := FindLargest(keys);
  }

  lemma {:induction false} FindLargest(keys: set<nat>) returns (k: nat)
    requires keys != {}
    ensures k in keys && forall j :: j in keys ==> j <= k
  {
    k :| k in keys;
    var rest := keys - {k};
    if rest != {} {
      var y := FindLargest(rest);
      forall j | j in keys
        ensures j <= y || j == k
      {
        assert j == k || j in rest;
      }
      if k < y {
        k := y;
      }
    } else {
      assert keys == {k};
    }
  }

  /** The range of a job: its records in increasing order of their keys. */
  ghost function RangeOf(log: Log, keys: set<nat>, njobid: nat): (nat, nat)
    requires keys <= log.Keys
  {
    if keys == {} then (0, 0)
    else
      var k := Largest(keys);
      var (from, to) := RangeOf(log, keys - {k}, njobid);
      if OfJob(k, njobid) && log[k].scannedTo > 0 then Widen(from, to, log[k]) else (from, to)
  }

  /** The end of the range is the greatest end that any record of the job has; its
      start is the least, provided that no record of the job starts at zero. */
  lemma {:induction false} RangeIsHull(log: Log, keys: set<nat>, njobid: nat)
    requires keys <= log.Keys
    ensures forall k :: k in keys && OfJob(k, njobid) ==> log[k].scannedTo <= RangeOf(log, keys, njobid).1
    ensures RangeOf(log, keys, njobid).1 == 0 || exists k :: k in keys && OfJob(k, njobid) && log[k].scannedTo == RangeOf(log, keys, njobid).1
    ensures (forall k :: k in keys && OfJob(k, njobid) && log[k].scannedTo > 0 ==> log[k].scannedFrom > 0) ==>
      (forall k :: k in keys && OfJob(k, njobid) && log[k].scannedTo > 0 ==> 0 < RangeOf(log, keys, njobid).0 <= log[k].scannedFrom) &&
      (RangeOf(log, keys, njobid).0 == 0 || exists k :: k in keys && OfJob(k, njobid) && log[k].scannedFrom == RangeOf(log, keys, njobid).0)
    decreases keys
  {
    if keys != {} {
      var k := Largest(keys);
      RangeIsHull(log, keys - {k}, njobid);
      assert forall j :: j in keys ==> j == k || j in keys - {k};
    }
  }

  /** A record that the scan range of the job takes in. */
  predicate Ranged(log: Log, k: nat, njobid: nat) {
    k in log && OfJob(k, njobid) && log[k].scannedTo > 0
  }

  lemma {:induction false} StartZeroIff(log: Log, keys: set<nat>, njobid: nat, last: nat)
    requires keys <= log.Keys && last in keys && Ranged(log, last, njobid)
    requires forall k :: k in keys && Ranged(log, k, njobid) ==> k <= last
    ensures RangeOf(log, keys, njobid).0 == 0 <==> log[last].scannedFrom == 0
    decreases keys
  {
    var k := Largest(keys);
    if k != last {
      StartZeroIff(log, keys - {k}, njobid, last);
    }
  }

  /** The start of a range that has records is the least of their starts exactly when
      none of them starts at zero or the last one, by its key, does. */
  lemma RangeStartIff(log: Log, njobid: nat, last: nat)
    requires Ranged(log, last, njobid) && forall k: nat :: Ranged(log, k, njobid) ==> k <= last
    ensures var start := RangeOf(log, log.Keys, njobid).0;
      ((forall k: nat :: Ranged(log, k, njobid) ==> start <= log[k].scannedFrom) &&
       (exists k: nat :: Ranged(log, k, njobid) && log[k].scannedFrom == start)) <==>
      ((forall k: nat :: Ranged(log, k, njobid) ==> log[k].scannedFrom > 0) || log[last].scannedFrom == 0)
  {
    var start := RangeOf(log, log.Keys, njobid).0;
    RangeIsHull(log, log.Keys, njobid);
    StartZeroIff(log, log.Keys, njobid, last);
    hide RangeOf;
    if forall k: nat :: Ranged(log, k, njobid) ==> log[k].scannedFrom > 0 {
      assert forall k :: k in log.Keys && OfJob(k, njobid) && log[k].scannedTo > 0 ==> Ranged(log, k, njobid);
      assert start > 0;
      StartAttained(log, log.Keys, njobid);
    } else {
      var z: nat :| Ranged(log, z, njobid) && log[z].scannedFrom == 0;
      assert start <= log[z].scannedFrom <==> start == 0;
    }
  }

  /** Two records of one job, the first starting at zero: the range starts at the second. */
  lemma StartForgotten(njobid: nat, from: nat, to: nat)
    requires 0 < from && 0 < to
    ensures var k1, k2 := Key(njobid, 1), Key(njobid, 2);
      var r := BLANK.(scannedTo := to);
      var log: Log := map[k1 := r, k2 := r.(scannedFrom := from)];
      Ranged(log, k1, njobid) && log[k1].scannedFrom == 0 && RangeOf(log, log.Keys, njobid).0 == from
  {
    var k1, k2 := Key(njobid, 1), Key(njobid, 2);
    KeyParts(njobid, 1);
    KeyParts(njobid, 2);
    hide Key;
    var r := BLANK.(scannedTo := to);
    var log: Log := map[k1 := r, k2 := r.(scannedFrom := from)];
    assert log.Keys == {k1, k2} && Largest({k1, k2}) == k2;
    assert log.Keys - {k2} == {k1} && Largest({k1}) == k1 && {k1} - {k1} == {};
  }

  lemma {:induction false} StartAttained(log: Log, keys: set<nat>, njobid: nat)
    requires keys <= log.Keys
    ensures var start := RangeOf(log, keys, njobid).0;
      start == 0 || exists k: nat :: Ranged(log, k, njobid) && log[k].scannedFrom == start
    decreases keys
  {
    if keys != {} {
      var k := Largest(keys);
      StartAttained(log, keys - {k}, njobid);
      assert Ranged(log, k, njobid) <==> OfJob(k, njobid) && log[k].scannedTo > 0;
    }
  }

  // The search that answers for nonce 0.

  /** Every bit of the job's number is set in the high half of the key. */
  predicate Covers(key: nat, njobid: nat) {
    B.And(njobid % UINT_RANGE * UINT_RANGE, key) == njobid % UINT_RANGE * UINT_RANGE
  }

  /** The nonce of the last sent record, by key, that covers the job's number, or zero. */
  ghost function LastSent(log: Log, keys: set<nat>, njobid: nat): nat
    requires keys <= log.Keys
  {
    if keys == {} then 0
    else
      var k := Largest(keys);
      if Covers(k, njobid) && log[k].tmSent > 0 then k % UINT_RANGE else LastSent(log, keys - {k}, njobid)
  }

  /** Among the records that were sent and cover the job's number, the last by its key is
      of a non-zero nonce. */
  ghost predicate LastIsNonZero(log: Log, keys: set<nat>, njobid: nat)
    requires keys <= log.Keys
  {
    exists k :: k in keys && k % UINT_RANGE > 0 && Covers(k, njobid) && log[k].tmSent > 0 &&
      forall j :: j in keys && Covers(j, njobid) && log[j].tmSent > 0 ==> j <= k
  }

  /** The answer is not zero exactly then. */
  lemma {:induction false} LastSentIff(log: Log, keys: set<nat>, njobid: nat)
    requires keys <= log.Keys
    ensures LastSent(log, keys, njobid) > 0 <==> LastIsNonZero(log, keys, njobid)
    decreases keys
  {
    hide Covers;
    if keys != {} {
      var k := Largest(keys);
      var rest := keys - {k};
      LastSentIff(log, rest, njobid);
      assert forall j :: j in keys ==> j == k || j in rest;
      if Covers(k, njobid) && log[k].tmSent > 0 {
        assert LastIsNonZero(log, keys, njobid) <==> k % UINT_RANGE > 0;
      } else {
        assert LastIsNonZero(log, keys, njobid) <==> LastIsNonZero(log, rest, njobid);
      }
    }
  }

  /** The stamp that the gate sees for a share: zero lets it through. */
  ghost function Answer(log: Log, jobId: string, nonce: nat): nat {
    var njobid := HexToUint(jobId);
    var key := Key(njobid, nonce);
    if nonce == 0 then LastSent(log, log.Keys, njobid) else if key in log then log[key].tmSent else 0
  }

  /** The record that a scan leaves for its job. */
  ghost function ScanRecord(log: Log, work: Work, now: nat): Record {
    var njobid := HexToUint(work.jobId);
    var (from, to) := RangeOf(log, log.Keys, njobid);
    var key := Key(njobid, 0);
    var start := if from == 0 && to == 0 then BLANK.(njobid := njobid % UINT_RANGE)
                 else (if key in log then log[key] else BLANK).(scannedFrom := from, scannedTo := to);
    Extended(start.(tmAdd := if start.tmAdd == 0 then Stamp(now) else start.tmAdd, lastFrom := work.scannedFrom), work)
      .(tmUpd := Stamp(now))
  }

  /** Joins a scanned interval to a range. */
  function Extended(r: Record, work: Work): Record {
    if work.scannedFrom < work.scannedTo then
      var to := if r.scannedTo == 0 || work.scannedFrom == (r.scannedTo + 1) % UINT_RANGE then work.scannedTo else r.scannedTo;
      var from := if r.scannedFrom == 0 then (if work.scannedFrom != 0 then work.scannedFrom else 1)
                  else if work.scannedFrom < r.scannedFrom || work.scannedTo == r.scannedFrom - 1 then work.scannedFrom
                  else r.scannedFrom;
      r.(scannedFrom := from, scannedTo := to)
    else r
  }

  /** The first scan of a job: zero stands for a start that is not known, so it counts as one. */
  lemma FirstScan(r: Record, work: Work)
    requires r.scannedFrom == r.scannedTo == 0 && work.scannedFrom < work.scannedTo
    ensures Extended(r, work) == r.(scannedFrom := if work.scannedFrom == 0 then 1 else work.scannedFrom, scannedTo := work.scannedTo)
  {
  }

  /** An interval that is empty changes nothing. */
  lemma EmptyScan(r: Record, work: Work)
    requires work.scannedTo <= work.scannedFrom
    ensures Extended(r, work) == r
  {
  }

  /** Joining an interval to a range that is known moves the start down to it whenever it
      begins before; the end is that of both exactly if the interval follows the range at
      once and does not end before it, or does not reach beyond it. */
  lemma ScanJoinsIff(r: Record, work: Work)
    requires 0 < r.scannedFrom <= r.scannedTo < UINT_RANGE && work.scannedFrom < work.scannedTo < UINT_RANGE
    ensures var e := Extended(r, work);
      e == r.(scannedFrom := B.Min(r.scannedFrom, work.scannedFrom), scannedTo := e.scannedTo) &&
      (e.scannedTo >= r.scannedTo && e.scannedTo >= work.scannedTo <==>
        if work.scannedFrom == (r.scannedTo + 1) % UINT_RANGE then work.scannedTo >= r.scannedTo else work.scannedTo <= r.scannedTo) &&
      (e.scannedTo == r.scannedTo || e.scannedTo == work.scannedTo)
  {
  }

  /** What age purging leaves. */
  function Young(log: Log, now: nat): Log {
    map k | k in log && Age(Stamp(now), log[k].tmSent) <= LOG_PURGE_TIMEOUT :: log[k]
  }

  class Shares {
    var tlastshares: Log

    constructor ()
      ensures tlastshares == map[]
    {
      tlastshares := map[];
    }

    /** The time of the submission, or zero; for nonce 0 the last nonce sent. */
    method AlreadySubmitted(jobId: string, nonce: nat) returns (ret: nat)
      ensures ret == Answer(tlastshares, jobId, nonce)
    {
      hide LastSent, HexToUint, Key;
      ret := 0;
      var njobid := HexToUint(jobId);
      var key := Key(njobid, nonce);
      if nonce == 0 {
        ret := GetLastSent(njobid);
      } else if key in tlastshares {
        ret := tlastshares[key].tmSent;
      }
    }

    /** Searches the map backwards. */
    method GetLastSent(njobid: nat) returns (nonce: nat)
      ensures nonce == LastSent(tlastshares, tlastshares.Keys, njobid)
    {
      nonce := 0;
      var rest := tlastshares.Keys;
      while rest != {}
        invariant rest <= tlastshares.Keys && nonce == 0
        invariant LastSent(tlastshares, rest, njobid) == LastSent(tlastshares, tlastshares.Keys, njobid)
        decreases rest
      {
        var i := Final(rest);
        assert Largest(rest) == i;
        if Covers(i, njobid) && tlastshares[i].tmSent > 0 {
          return i % UINT_RANGE;
        }
        rest := rest - {i};
      }
    }

    method RememberSubmit(work: Work, pool: Pool, nonce: nat, now: nat)
      modifies this
      ensures tlastshares == old(tlastshares)[Key(HexToUint(work.jobId), nonce) := SubmitRecord(work, pool, now)]
    {
      var njobid := HexToUint(work.jobId);
      var data := BLANK.(nonceId := work.nonceId % 256, scannedFrom := work.scannedFrom, scannedTo := work.scannedTo,
        sharediff := work.sharediff, height := work.height, njobid := njobid % UINT_RANGE);
      data := data.(tmAdd := Stamp(now), tmUpd := Stamp(now), tmSent := Stamp(now));
      data := data.(npool := pool.number % 256, poolType := pool.kind % 256, jobNonceId := pool.shares % 256);
      tlastshares := tlastshares[Key(njobid, nonce) := data];
    }

    method GetScanRange(njobid: nat) returns (from: nat, to: nat)
      ensures (from, to) == RangeOf(tlastshares, tlastshares.Keys, njobid)
    {
      hide RangeOf, Widen, OfJob;
      from, to := 0, 0;
      RangeNone(tlastshares, njobid);
      ghost var done: set<nat> := {};
      var rest := tlastshares.Keys;
      while rest != {}
        invariant done !! rest && done + rest == tlastshares.Keys
        invariant forall d, r :: d in done && r in rest ==> d < r
        invariant (from, to) == RangeOf(tlastshares, done, njobid)
        decreases rest
      {
        var i := First(rest);
        RangeSnoc(tlastshares, done, i, njobid);
        if OfJob(i, njobid) && tlastshares[i].scannedTo > 0 {
          var wide := Widen(from, to, tlastshares[i]);
          from, to := wide.0, wide.1;
        }
        done, rest := done + {i}, rest - {i};
      }
      assert done == tlastshares.Keys;
    }

    method RememberScanRange(work: Work, now: nat)
      modifies this
      ensures tlastshares == old(tlastshares)[Key(HexToUint(work.jobId), 0) := ScanRecord(old(tlastshares), work, now)]
    {
      hide HexToUint, RangeOf, Key;
      var njobid := HexToUint(work.jobId);
      var key := Key(njobid, 0);
      var from, to := GetScanRange(njobid);
      var data := if key in tlastshares then tlastshares[key] else BLANK;
      if from == 0 && to == 0 {
        data := BLANK.(njobid := njobid % UINT_RANGE);
      } else {
        data := data.(scannedFrom := from, scannedTo := to);
      }
      if data.tmAdd == 0 {
        data := data.(tmAdd := Stamp(now));
      }
      data := data.(lastFrom := work.scannedFrom);
      if work.scannedFrom < work.scannedTo {
        if data.scannedTo == 0 || work.scannedFrom == (data.scannedTo + 1) % UINT_RANGE {
          data := data.(scannedTo := work.scannedTo);
        }
        if data.scannedFrom == 0 {
          data := data.(scannedFrom := if work.scannedFrom != 0 then work.scannedFrom else 1);
        } else if work.scannedFrom < data.scannedFrom || work.scannedTo == data.scannedFrom - 1 {
          data := data.(scannedFrom := work.scannedFrom);
        }
      }
      data := data.(tmUpd := Stamp(now));
      tlastshares := tlastshares[key := data];
    }

    method PurgeOld(now: nat)
      modifies this
      ensures tlastshares == Young(old(tlastshares), now)
    {
      hide Age;
      ghost var before := tlastshares;
      var rest := tlastshares.Keys;
      while rest != {}
        invariant rest <= tlastshares.Keys <= before.Keys
        invariant forall k :: k in tlastshares ==> tlastshares[k] == before[k]
        invariant forall k :: k in before && k !in rest ==>
          (k in tlastshares <==> Age(Stamp(now), before[k].tmSent) <= LOG_PURGE_TIMEOUT)
        decreases rest
      {
        var i := First(rest);
        rest := rest - {i};
        if Age(Stamp(now), tlastshares[i].tmSent) > LOG_PURGE_TIMEOUT {
          tlastshares := tlastshares - {i};
        }
      }
    }

    method PurgeAll()
      modifies this
      ensures tlastshares == map[]
    {
      tlastshares := map[];
    }
  }

  /** The key an iterator stands at. */
  method First(keys: set<nat>) returns (i: nat)
    requires keys != {}
    ensures i in keys && forall j :: j in keys ==> i <= j
  {
    SmallestExists(keys);
    i :| i in keys && forall j :: j in keys ==> i <= j;
  }

  /** The key a reverse iterator stands at. */
  method Final(keys: set<nat>) returns (i: nat)
    requires keys != {}
    ensures i in keys && forall j :: j in keys ==> j <= i
  {
    LargestExists(keys);
    i :| i in keys && forall j :: j in keys ==> j <= i;
  }

  lemma SmallestExists(keys: set<nat>)
    requires keys != {}
    ensures exists k :: k in keys && forall j :: j in keys ==> k <= j
  {
    var k := FindSmallest(keys);
  }

  lemma {:induction false} FindSmallest(keys: set<nat>) returns (k: nat)
    requires keys != {}
    ensures k in keys && forall j :: j in keys ==> k <= j
  {
    k :| k in keys;
    var rest := keys - {k};
    if rest != {} {
      var y := FindSmallest(rest);
      forall j | j in keys
        ensures y <= j || j == k
      {
        assert j == k || j in rest;
      }
      if y < k {
        k := y;
      }
    } else {
      assert keys == {k};
    }
  }

  lemma RangeNone(log: Log, njobid: nat)
    ensures RangeOf(log, {}, njobid) == (0, 0)
  {
  }

  lemma RangeSnoc(log: Log, done: set<nat>, i: nat, njobid: nat)
    requires done <= log.Keys && i in log && forall d :: d in done ==> d < i
    ensures var (from, to) := RangeOf(log, done, njobid);
      RangeOf(log, done + {i}, njobid) == if OfJob(i, njobid) && log[i].scannedTo > 0 then Widen(from, to, log[i]) else (from, to)
  {
    assert Largest(done + {i}) == i;
    assert done + {i} - {i} == done;
  }

  /** On a clock that goes forward, purging removes only what is older than the
      timeout; a clock that went back makes every recent record look old. */
  lemma AgeIsElapsed(log: Log, k: nat, now: nat, sent: nat)
    requires k in log && log[k].tmSent == Stamp(sent)
    requires now < sent + UINT_RANGE && sent < now + UINT_RANGE - 300
    ensures k in Young(log, now) <==> sent <= now <= sent + 300
  {
    AgeMod(now, sent);
  }

  lemma AgeMod(now: nat, sent: nat)
    ensures Age(Stamp(now), Stamp(sent)) == (now - sent) % UINT_RANGE
  {
    var q := now / UINT_RANGE - sent / UINT_RANGE;
    assert now - sent == q * UINT_RANGE + (Stamp(now) - Stamp(sent));
  }

  // Runs.

  /** Check and Transmit are the two halves of a submission, by the one thread that
      submits; the others come from threads that may run in between. */
  datatype Event =
    | Check(work: Work, nonce: nat)
    | Transmit(sent: bool, pool: Pool, now: nat)
    | ScanRange(work: Work, now: nat)
    | PurgeOld(now: nat)
    | PurgeAll

  datatype Pending = Nothing | Share(work: Work, nonce: nat)

  datatype Outcome = Duplicate | Clear | Sent(key: nat) | Failed | Done | Idle

  datatype State = State(log: Log, pending: Pending)

  datatype Trace = Trace(state: State, outcomes: seq<Outcome>)

  ghost function Step(s: State, e: Event): (State, Outcome) {
    match e
    case Check(work, nonce) =>
      if s.pending != Nothing then (s, Idle)
      else if Answer(s.log, work.jobId, nonce) > 0 then (s, Duplicate)
      else (s.(pending := Share(work, nonce)), Clear)
    case Transmit(ok, pool, now) =>
      if s.pending == Nothing then (s, Idle)
      else if !ok then (s.(pending := Nothing), Failed)
      else
        var key := Key(HexToUint(s.pending.work.jobId), s.pending.nonce);
        (State(s.log[key := SubmitRecord(s.pending.work, pool, now)], Nothing), Sent(key))
    case ScanRange(work, now) =>
      (s.(log := s.log[Key(HexToUint(work.jobId), 0) := ScanRecord(s.log, work, now)]), Done)
    case PurgeOld(now) => (s.(log := Young(s.log, now)), Done)
    case PurgeAll => (s.(log := map[]), Done)
  }

  ghost function Run(events: seq<Event>): (t: Trace)
    ensures |t.outcomes| == |events|
  {
    if events == [] then Trace(State(map[], Nothing), [])
    else
      var before := Run(events[..|events| - 1]);
      var (s, o) := Step(before.state, events[|events| - 1]);
      Trace(s, before.outcomes + [o])
  }

  lemma RunSnoc(events: seq<Event>, n: nat)
    requires n < |events|
    ensures var before, r := Run(events[..n]), Step(Run(events[..n]).state, events[n]);
      Run(events[..n + 1]) == Trace(r.0, before.outcomes + [r.1])
  {
    assert events[..n + 1][..n] == events[..n];
  }

  /** The log's methods, driven through any interleaving, do what the steps say. */
  method Execute(events: seq<Event>) returns (outcomes: seq<Outcome>)
    ensures outcomes == Run(events).outcomes
  {
    hide HexToUint, Key, ScanRecord, SubmitRecord, Young, Run, Answer;
    var log := new Shares();
    var pending := Nothing;
    outcomes := [];
    assert events[..0] == [];
    RunEmpty();
    for i := 0 to |events|
      invariant fresh(log) && Run(events[..i]) == Trace(State(log.tlastshares, pending), outcomes)
    {
      RunSnoc(events, i);
      match events[i] {
        case Check(work, nonce) =>
          if pending != Nothing {
            outcomes := outcomes + [Idle];
          } else {
            var sent := log.AlreadySubmitted(work.jobId, nonce);
            if sent > 0 {
              outcomes := outcomes + [Duplicate];
            } else {
              pending, outcomes := Share(work, nonce), outcomes + [Clear];
            }
          }
        case Transmit(ok, pool, now) =>
          if pending == Nothing {
            outcomes := outcomes + [Idle];
          } else if !ok {
            pending, outcomes := Nothing, outcomes + [Failed];
          } else {
            log.RememberSubmit(pending.work, pool, pending.nonce, now);
            outcomes := outcomes + [Sent(Key(HexToUint(pending.work.jobId), pending.nonce))];
            pending := Nothing;
          }
        case ScanRange(work, now) =>
          log.RememberScanRange(work, now);
          outcomes := outcomes + [Done];
        case PurgeOld(now) =>
          log.PurgeOld(now);
          outcomes := outcomes + [Done];
        case PurgeAll =>
          log.PurgeAll();
          outcomes := outcomes + [Done];
      }
    }
    assert events[..|events|] == events;
  }

  lemma RunEmpty()
    ensures Run([]) == Trace(State(map[], Nothing), [])
  {
  }

  /** Events whose nonces are 32-bit words. */
  predicate Words(events: seq<Event>) {
    forall k :: 0 <= k < |events| && events[k].Check? ==> events[k].nonce < UINT_RANGE
  }

  /** The event removes a record that was stamped then. */
  predicate Purges(e: Event, stamp: nat) {
    e.PurgeAll? || (e.PurgeOld? && Age(Stamp(e.now), stamp) > LOG_PURGE_TIMEOUT)
  }

  /** The share was sent at that time, and no send of it is under way. */
  ghost predicate Barred(s: State, key: nat, stamp: nat) {
    key in s.log && s.log[key].tmSent == stamp &&
    (s.pending != Nothing ==> Key(HexToUint(s.pending.work.jobId), s.pending.nonce) != key)
  }

  /** A barred share stays barred, and is not sent, through any step that does not
      purge it; scanned ranges share no key with it. */
  lemma StaysBarred(s: State, e: Event, key: nat, stamp: nat)
    requires Barred(s, key, stamp) && stamp > 0 && key % UINT_RANGE != 0 && !Purges(e, stamp)
    requires e.Check? ==> e.nonce < UINT_RANGE
    ensures Barred(Step(s, e).0, key, stamp) && Step(s, e).1 != Sent(key)
  {
    hide HexToUint, ScanRecord, SubmitRecord;
    match e {
      case Check(work, nonce) =>
        KeyParts(HexToUint(work.jobId), nonce);
        hide Key;
      case ScanRange(work, _) =>
        KeyParts(HexToUint(work.jobId), 0);
        hide Key;
      case _ =>
    }
  }

  lemma {:induction false} BarredUntil(events: seq<Event>, i: nat, n: nat, key: nat)
    requires i < n <= |events| && Words(events) && key % UINT_RANGE != 0
    requires Run(events).outcomes[i] == Sent(key) && events[i].Transmit? && Stamp(events[i].now) > 0
    requires forall k :: i < k < n ==> !Purges(events[k], Stamp(events[i].now))
    ensures Barred(Run(events[..n]).state, key, Stamp(events[i].now))
    ensures forall k :: i < k < n ==> Run(events).outcomes[k] != Sent(key)
  {
    hide HexToUint, Key, Young, ScanRecord, Step, Barred, Run, Purges;
    if n == i + 1 {
      OutcomeAt(events, i);
      RunSnoc(events, i);
      SentBars(Run(events[..i]).state, events[i], key);
    } else {
      BarredUntil(events, i, n - 1, key);
      OutcomeAt(events, n - 1);
      RunSnoc(events, n - 1);
      StaysBarred(Run(events[..n - 1]).state, events[n - 1], key, Stamp(events[i].now));
    }
  }

  lemma SentBars(s: State, e: Event, key: nat)
    requires e.Transmit? && Step(s, e).1 == Sent(key)
    ensures Barred(Step(s, e).0, key, Stamp(e.now))
  {
  }

  lemma {:induction false} OutcomeAt(events: seq<Event>, k: nat)
    requires k < |events|
    ensures Run(events).outcomes[k] == Step(Run(events[..k]).state, events[k]).1
  {
    hide Step;
    if k < |events| - 1 {
      OutcomeAt(events[..|events| - 1], k);
      assert events[..|events| - 1][..k] == events[..k];
    }
  }

  /** Two sends of one job time and non-zero nonce are separated by a purge that
      removes the record of the first. */
  lemma AtMostOnce(events: seq<Event>, i: nat, j: nat, key: nat)
    requires i < j < |events| && Words(events) && key % UINT_RANGE != 0
    requires Run(events).outcomes[i] == Run(events).outcomes[j] == Sent(key)
    requires events[i].Transmit? && Stamp(events[i].now) > 0
    ensures exists k :: i < k < j && Purges(events[k], Stamp(events[i].now))
  {
    if forall k :: i < k < j ==> !Purges(events[k], Stamp(events[i].now)) {
      hide Run, Purges, Step;
      BarredUntil(events, i, j, key);
      OutcomeAt(events, j);
      StillBarred(Run(events[..j]).state, events[j], key, Stamp(events[i].now));
      assert false;
    }
  }

  lemma StillBarred(s: State, e: Event, key: nat, stamp: nat)
    requires Barred(s, key, stamp)
    ensures Step(s, e).1 != Sent(key)
  {
  }

  /** A scanned range changes the gate's answer to no share of a non-zero nonce. */
  lemma ScanNeverMasks(s: State, scanned: Work, now: nat, check: Event)
    requires check.Check? && 0 < check.nonce < UINT_RANGE
    ensures Step(Step(s, ScanRange(scanned, now)).0, check).1 == Step(s, check).1
  {
    hide HexToUint, ScanRecord;
    KeyParts(HexToUint(scanned.jobId), 0);
    KeyParts(HexToUint(check.work.jobId), check.nonce);
    hide Key;
  }

  /** Every record of a non-zero nonce was put there by a send. */
  lemma {:induction false} LoggedWasSent(events: seq<Event>, key: nat) returns (i: nat)
    requires Words(events) && key % UINT_RANGE != 0 && key in Run(events).state.log
    ensures i < |events| && Run(events).outcomes[i] == Sent(key)
  {
    hide HexToUint, Key, ScanRecord, SubmitRecord;
    var n := |events| - 1;
    i := n;
    if key in Run(events[..n]).state.log {
      i := LoggedWasSent(events[..n], key);
    } else if events[n].ScanRange? {
      KeyParts(HexToUint(events[n].work.jobId), 0);
      assert false;
    }
  }

  /** The gate refuses only what was sent before, under the same job time and nonce. */
  lemma DuplicateWasSent(events: seq<Event>, j: nat) returns (i: nat)
    requires Words(events) && j < |events| && events[j].Check? && events[j].nonce > 0
    requires Run(events).outcomes[j] == Duplicate
    ensures i < j && Run(events).outcomes[i] == Sent(Key(HexToUint(events[j].work.jobId), events[j].nonce))
  {
    hide Run, HexToUint;
    KeyParts(HexToUint(events[j].work.jobId), events[j].nonce);
    OutcomeAt(events, j);
    hide Key;
    i := LoggedWasSent(events[..j], Key(HexToUint(events[j].work.jobId), events[j].nonce));
    OutcomeAt(events, i);
    OutcomeAt(events[..j], i);
    assert events[..j][..i] == events[..i];
  }

  /** Between a send and the next look at its share nobody sent it again. */
  ghost predicate Unanswered(events: seq<Event>, i: nat, n: nat, key: nat)
    requires n <= |events|
  {
    forall k :: i < k < n ==> Run(events).outcomes[k] != Sent(key)
  }

  /** Whatever is logged for the share says that nothing was sent. */
  ghost predicate Open(s: State, key: nat) {
    key in s.log ==> s.log[key].tmSent == 0
  }

  lemma StaysOpen(s: State, e: Event, key: nat)
    requires Open(s, key) && key % UINT_RANGE != 0 && Step(s, e).1 != Sent(key)
    ensures Open(Step(s, e).0, key)
  {
    hide HexToUint, ScanRecord, SubmitRecord, Answer;
    if e.ScanRange? {
      KeyParts(HexToUint(e.work.jobId), 0);
    }
    hide Key;
  }

  lemma SentOpens(s: State, e: Event, key: nat)
    requires e.Transmit? && Step(s, e).1 == Sent(key) && Stamp(e.now) == 0
    ensures Open(Step(s, e).0, key)
  {
  }

  lemma {:induction false} OpenUntil(events: seq<Event>, i: nat, n: nat, key: nat)
    requires i < n <= |events| && key % UINT_RANGE != 0 && Unanswered(events, i, n, key)
    requires Run(events).outcomes[i] == Sent(key) && events[i].Transmit? && Stamp(events[i].now) == 0
    ensures Open(Run(events[..n]).state, key)
  {
    hide Step, Open, Run;
    if n == i + 1 {
      OutcomeAt(events, i);
      RunSnoc(events, i);
      SentOpens(Run(events[..i]).state, events[i], key);
    } else {
      OpenUntil(events, i, n - 1, key);
      OutcomeAt(events, n - 1);
      RunSnoc(events, n - 1);
      StaysOpen(Run(events[..n - 1]).state, events[n - 1], key);
    }
  }

  /** When the gate works: the share of a send that was neither purged nor repeated is
      refused exactly if the clock at the send was not a multiple of 2^32 seconds, for
      then the stamp is zero and zero means that nothing was sent. */
  lemma GateIff(events: seq<Event>, i: nat, j: nat, key: nat)
    requires i < j < |events| && Words(events) && Unanswered(events, i, j, key)
    requires Run(events).outcomes[i] == Sent(key) && events[i].Transmit?
    requires forall k :: i < k < j ==> !Purges(events[k], Stamp(events[i].now))
    requires events[j].Check? && events[j].nonce > 0 && Key(HexToUint(events[j].work.jobId), events[j].nonce) == key
    requires Run(events).outcomes[j] != Idle
    ensures Run(events).outcomes[j] == Duplicate <==> events[i].now % UINT_RANGE != 0
    ensures Run(events).outcomes[j] == Clear <==> events[i].now % UINT_RANGE == 0
  {
    hide Run, Purges, HexToUint;
    KeyParts(HexToUint(events[j].work.jobId), events[j].nonce);
    hide Key;
    OutcomeAt(events, j);
    if Stamp(events[i].now) > 0 {
      BarredUntil(events, i, j, key);
    } else {
      OpenUntil(events, i, j, key);
    }
  }

  /** The same for one step after the send, from any state. */
  lemma NextCheckIff(s: State, pool: Pool, now: nat, again: Event)
    requires s.pending.Share? && again.Check? && 0 < again.nonce < UINT_RANGE
    requires Key(HexToUint(again.work.jobId), again.nonce) == Key(HexToUint(s.pending.work.jobId), s.pending.nonce)
    ensures Step(Step(s, Transmit(true, pool, now)).0, again).1 == Duplicate <==> now % UINT_RANGE != 0
  {
    hide HexToUint, Key;
  }

  /** The failing runs: with any clock whose stamp is zero, a share goes out twice. */
  lemma ZeroStampSendsTwice(work: Work, nonce: nat, pool: Pool, now: nat)
    requires nonce > 0 && now % UINT_RANGE == 0
    ensures var c, t := Check(work, nonce), Transmit(true, pool, now);
      var key := Key(HexToUint(work.jobId), nonce);
      Run([c, t, c, t]).outcomes == [Clear, Sent(key), Clear, Sent(key)]
  {
    FourEvents(Check(work, nonce), Transmit(true, pool, now), Check(work, nonce), Transmit(true, pool, now));
    hide HexToUint, Key, Run;
  }

  lemma FourEvents(a: Event, b: Event, c: Event, d: Event)
    ensures var (s1, o1) := Step(State(map[], Nothing), a);
      var (s2, o2) := Step(s1, b);
      var (s3, o3) := Step(s2, c);
      Run([a, b, c, d]).outcomes == [o1, o2, o3, Step(s3, d).1]
  {
    hide Run, Step;
    var all := [a, b, c, d];
    assert all[..0] == [] && all[..4] == all;
    RunEmpty();
    RunSnoc(all, 0);
    RunSnoc(all, 1);
    RunSnoc(all, 2);
    RunSnoc(all, 3);
  }

  // What callers can count on.

  /** The clock does not go back. */
  predicate Forward(events: seq<Event>) {
    forall a, b :: 0 <= a < b < |events| && Timed(events[a]) && Timed(events[b]) ==> events[a].now <= events[b].now
  }

  predicate Timed(e: Event) {
    e.Transmit? || e.ScanRange? || e.PurgeOld?
  }

  /** On a clock that does not go back, two sends of one share are separated by a purge
      of the whole log, or are more than 300 seconds apart. */
  lemma SendsApart(events: seq<Event>, i: nat, j: nat, key: nat)
    requires i < j < |events| && Words(events) && Forward(events) && key % UINT_RANGE != 0
    requires Run(events).outcomes[i] == Run(events).outcomes[j] == Sent(key)
    requires events[i].Transmit? && events[j].Transmit? && Stamp(events[i].now) > 0
    ensures (exists k :: i < k < j && events[k].PurgeAll?) || events[j].now > events[i].now + 300
  {
    hide Run, Age, Words;
    AtMostOnce(events, i, j, key);
    var k :| i < k < j && Purges(events[k], Stamp(events[i].now));
    if events[k].PurgeOld? {
      assert Timed(events[i]) && Timed(events[k]) && Timed(events[j]);
      YoungStays(events[k].now, events[i].now);
    }
  }

  lemma YoungStays(now: nat, sent: nat)
    requires sent <= now
    ensures now <= sent + LOG_PURGE_TIMEOUT ==> Age(Stamp(now), Stamp(sent)) <= LOG_PURGE_TIMEOUT
  {
    AgeMod(now, sent);
  }

  // Nonce 0.

  /** Sent twice at any time: the search skips no record, but returns the nonce where
      the gate expects a time. */
  lemma ZeroNonceSendsTwice(work: Work, pool: Pool, now: nat)
    ensures var c, t := Check(work, 0), Transmit(true, pool, now);
      var key := Key(HexToUint(work.jobId), 0);
      Run([c, t, c, t]).outcomes == [Clear, Sent(key), Clear, Sent(key)]
  {
    FourEvents(Check(work, 0), Transmit(true, pool, now), Check(work, 0), Transmit(true, pool, now));
    hide HexToUint, Run;
    KeyParts(HexToUint(work.jobId), 0);
    hide Key;
    var key := Key(HexToUint(work.jobId), 0);
    var log: Log := map[key := SubmitRecord(work, pool, now)];
    assert log.Keys == {key} && Largest({key}) == key;
    assert LastSent(log, {key}, HexToUint(work.jobId)) == 0;
  }

  /** What the gate does with nonce 0, whatever was sent under its own key: it refuses the
      share exactly if the last sent record that covers the job's number is of another nonce. */
  lemma ZeroNonceIff(s: State, work: Work)
    requires s.pending == Nothing
    ensures Step(s, Check(work, 0)).1 == Duplicate <==> LastIsNonZero(s.log, s.log.Keys, HexToUint(work.jobId))
  {
    hide HexToUint, LastSent, LastIsNonZero;
    LastSentIff(s.log, s.log.Keys, HexToUint(work.jobId));
  }

  /** And refused without ever having been sent, once another nonce of its job was. */
  lemma ZeroNonceMasked(work: Work, nonce: nat, pool: Pool, now: nat)
    requires 0 < nonce < UINT_RANGE && now % UINT_RANGE != 0
    ensures var s := Step(State(map[], Share(work, nonce)), Transmit(true, pool, now)).0;
      Step(s, Check(work, 0)).1 == Duplicate
  {
    var njobid := HexToUint(work.jobId);
    hide HexToUint;
    var key := Key(njobid, nonce);
    KeyParts(njobid, nonce);
    hide Key;
    OwnKeyCovers(njobid, nonce);
    var log: Log := map[key := SubmitRecord(work, pool, now)];
    assert log.Keys == {key} && Largest({key}) == key;
  }

  lemma OwnKeyCovers(njobid: nat, nonce: nat)
    requires nonce < UINT_RANGE
    ensures Covers(njobid % UINT_RANGE * UINT_RANGE + nonce, njobid)
  {
    B.AndLow32(njobid % UINT_RANGE, nonce);
  }
}

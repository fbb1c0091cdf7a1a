/** Submit ids and the ring that pairs each with the difficulty of its share, so
    that the pool's answers are attributed to the right one. */
module SubmitRing {

  const SUBMIT_RING: nat := 32
  const FIRST_ID: nat := 10
  const UINT_RANGE: nat := 0x1_0000_0000

  datatype Entry = Entry(id: nat, diff: real)

  const ZEROED := Entry(0, 0.0)

  /** What slot i holds after these entries were remembered. */
  function Slot(remembered: seq<Entry>, i: nat): Entry
    requires i < SUBMIT_RING
  {
    if remembered == [] then ZEROED
    else
      var k := |remembered| - 1;
      if k % SUBMIT_RING == i then remembered[k] else Slot(remembered[..k], i)
  }

  lemma SlotSnoc(remembered: seq<Entry>, e: Entry, i: nat)
    requires i < SUBMIT_RING
    ensures Slot(remembered + [e], i) == if |remembered| % SUBMIT_RING == i then e else Slot(remembered, i)
  {
    assert (remembered + [e])[..|remembered|] == remembered;
  }

  /** The ring size divides the range of the position counter. */
  lemma PositionWraps(k: nat)
    ensures k % UINT_RANGE % SUBMIT_RING == k % SUBMIT_RING
    ensures (k % UINT_RANGE + 1) % UINT_RANGE == (k + 1) % UINT_RANGE
  {
  }

  /** The first slot, from i on, that holds the id; SUBMIT_RING if none does. */
  function FirstSlot(remembered: seq<Entry>, id: nat, i: nat): (j: nat)
    requires i <= SUBMIT_RING
    ensures i <= j <= SUBMIT_RING
    ensures j < SUBMIT_RING ==> Slot(remembered, j).id == id
    ensures forall k :: i <= k < j ==> Slot(remembered, k).id != id
    decreases SUBMIT_RING - i
  {
    if i == SUBMIT_RING || Slot(remembered, i).id == id then i else FirstSlot(remembered, id, i + 1)
  }

  class Ids {
    const ring: array<Entry>
    var next: nat
    var pos: nat
    ghost var issued: nat               // ids handed out
    ghost var remembered: seq<Entry>

    ghost predicate Valid()
      reads this, ring
    {
      ring.Length == SUBMIT_RING &&
      next == (FIRST_ID + issued) % UINT_RANGE && pos == |remembered| % UINT_RANGE &&
      forall i :: 0 <= i < SUBMIT_RING ==> ring[i] == Slot(remembered, i)
    }

    constructor ()
      ensures Valid() && fresh(ring) && issued == 0 && remembered == []
    {
      ring := new Entry[SUBMIT_RING](i => ZEROED);
      next, pos, issued, remembered := FIRST_ID, 0, 0, [];
    }

    method Next() returns (id: nat)
      requires Valid()
      modifies this`next, this`issued
      ensures Valid() && issued == old(issued) + 1 && id == (FIRST_ID + old(issued)) % UINT_RANGE
    {
      id := next;
      next := (next + 1) % UINT_RANGE;
      issued := issued + 1;
    }

    /** The position wraps at the width of its counter; the slots do not notice. */
    method Remember(id: nat, diff: real)
      requires Valid()
      modifies this`pos, this`remembered, ring
      ensures Valid() && remembered == old(remembered) + [Entry(id, diff)]
    {
      hide Slot;
      PositionWraps(|remembered|);
      var at := pos % SUBMIT_RING;
      ring[at] := ring[at].(id := id);
      ring[at] := ring[at].(diff := diff);
      pos := (pos + 1) % UINT_RANGE;
      forall i | 0 <= i < SUBMIT_RING
        ensures Slot(remembered + [Entry(id, diff)], i) == if i == at then Entry(id, diff) else Slot(remembered, i)
      {
        SlotSnoc(remembered, Entry(id, diff), i);
      }
      remembered := remembered + [Entry(id, diff)];
    }

    /** fallback is what the caller keeps on a miss. */
    method Lookup(id: nat, fallback: real) returns (hit: bool, diff: real)
      requires Valid()
      ensures var j := FirstSlot(remembered, id, 0);
              hit == (j < SUBMIT_RING) && diff == if j < SUBMIT_RING then Slot(remembered, j).diff else fallback
    {
      hit, diff := false, fallback;
      for i := 0 to SUBMIT_RING
        invariant !hit && diff == fallback && FirstSlot(remembered, id, 0) == FirstSlot(remembered, id, i)
      {
        if ring[i].id == id {
          return true, ring[i].diff;
        }
      }
    }
  }

  // What the slots mean.

  lemma SlotLast(remembered: seq<Entry>, i: nat)
    requires i < SUBMIT_RING && remembered != []
    ensures var last := |remembered| - 1;
      Slot(remembered, i) == if last % SUBMIT_RING == i then remembered[last] else Slot(remembered[..last], i)
  {
  }

  lemma NothingRemembered(i: nat)
    requires i < SUBMIT_RING
    ensures Slot([], i) == ZEROED
  {
  }

  /** The ring is a window: slot i holds the entry of the last 32 that is congruent
      to i, or is untouched. */
  lemma {:induction false} SlotInWindow(remembered: seq<Entry>, i: nat) returns (k: nat)
    requires i < SUBMIT_RING
    ensures i < |remembered| ==> k < |remembered| <= k + SUBMIT_RING && k % SUBMIT_RING == i && Slot(remembered, i) == remembered[k]
    ensures i >= |remembered| ==> Slot(remembered, i) == ZEROED
  {
    hide Slot;
    k := 0;
    if remembered == [] {
      NothingRemembered(i);
    } else {
      var last := |remembered| - 1;
      SlotLast(remembered, i);
      if last % SUBMIT_RING == i {
        k := last;
      } else {
        k := SlotInWindow(remembered[..last], i);
      }
    }
  }

  /** Conversely, each of the last 32 entries is in its slot. */
  lemma {:induction false} WindowInSlot(remembered: seq<Entry>, k: nat)
    requires k < |remembered| <= k + SUBMIT_RING
    ensures Slot(remembered, k % SUBMIT_RING) == remembered[k]
  {
    var last := |remembered| - 1;
    if k < last {
      WindowInSlot(remembered[..last], k);
    }
  }

  predicate InWindow(remembered: seq<Entry>, id: nat) {
    exists k :: 0 <= k < |remembered| <= k + SUBMIT_RING && remembered[k].id == id
  }

  /** A lookup hits exactly the last 32 remembered ids, and also id 0 while some
      slot is untouched. */
  lemma HitsExactlyTheWindow(remembered: seq<Entry>, id: nat)
    ensures FirstSlot(remembered, id, 0) < SUBMIT_RING
       <==> InWindow(remembered, id) || (id == 0 && |remembered| < SUBMIT_RING)
  {
    var j := FirstSlot(remembered, id, 0);
    if j < SUBMIT_RING {
      var k := SlotInWindow(remembered, j);
    } else {
      if InWindow(remembered, id) {
        var k :| 0 <= k < |remembered| <= k + SUBMIT_RING && remembered[k].id == id;
        WindowInSlot(remembered, k);
        assert false;
      }
      if |remembered| < SUBMIT_RING {
        var _ := SlotInWindow(remembered, |remembered|);
      }
    }
  }

  // All interleavings of the three critical sections.

  datatype Event = Allocate | Remember(id: nat, diff: real) | Lookup(id: nat)

  datatype Outcome = Id(id: nat) | Stored | Found(diff: real) | Missed

  datatype Trace = Trace(issued: nat, remembered: seq<Entry>, outcomes: seq<Outcome>)

  function Run(events: seq<Event>): (t: Trace)
    ensures |t.outcomes| == |events|
  {
    if events == [] then Trace(0, [], [])
    else
      var before := Run(events[..|events| - 1]);
      match events[|events| - 1]
      case Allocate =>
        Trace(before.issued + 1, before.remembered, before.outcomes + [Id((FIRST_ID + before.issued) % UINT_RANGE)])
      case Remember(id, diff) =>
        Trace(before.issued, before.remembered + [Entry(id, diff)], before.outcomes + [Stored])
      case Lookup(id) =>
        var j := FirstSlot(before.remembered, id, 0);
        Trace(before.issued, before.remembered,
              before.outcomes + [if j < SUBMIT_RING then Found(Slot(before.remembered, j).diff) else Missed])
  }

  /** The counters and the ring, driven through any interleaving, do what Run says. */
  method Execute(events: seq<Event>) returns (outcomes: seq<Outcome>)
    ensures outcomes == Run(events).outcomes
  {
    hide FirstSlot, Slot;
    var s := new Ids();
    outcomes := [];
    for i := 0 to |events|
      invariant fresh(s) && fresh(s.ring) && s.Valid()
      invariant Run(events[..i]) == Trace(s.issued, s.remembered, outcomes)
    {
      assert events[..i + 1][..i] == events[..i];
      match events[i] {
        case Allocate =>
          var id := s.Next();
          outcomes := outcomes + [Id(id)];
        case Remember(id, diff) =>
          s.Remember(id, diff);
          outcomes := outcomes + [Stored];
        case Lookup(id) =>
          var hit, diff := s.Lookup(id, 0.0);
          outcomes := outcomes + [if hit then Found(diff) else Missed];
      }
    }
    assert events[..|events|] == events;
  }

  function Allocations(events: seq<Event>): nat {
    if events == [] then 0
    else Allocations(events[..|events| - 1]) + if events[|events| - 1].Allocate? then 1 else 0
  }

  lemma {:induction false} AllocationsGrow(events: seq<Event>, k: nat)
    requires k <= |events|
    ensures Allocations(events[..k]) <= Allocations(events)
  {
    if k < |events| {
      AllocationsGrow(events[..|events| - 1], k);
      assert events[..|events| - 1][..k] == events[..k];
    } else {
      assert events[..k] == events;
    }
  }

  /** The id of an allocation is fixed by the number of allocations before it. */
  lemma {:induction false} AllocatedId(events: seq<Event>, k: nat)
    requires k < |events| && events[k].Allocate?
    ensures Run(events).outcomes[k] == Id((FIRST_ID + Allocations(events[..k])) % UINT_RANGE)
  {
    if k == |events| - 1 {
      hide FirstSlot, Slot, Allocations;
      IssuedIsAllocations(events[..k]);
    } else {
      hide Run;
      AllocatedId(events[..|events| - 1], k);
      assert events[..|events| - 1][..k] == events[..k];
      OutcomeKept(events, k);
    }
  }

  lemma OutcomeKept(events: seq<Event>, k: nat)
    requires k + 1 < |events|
    ensures Run(events).outcomes[k] == Run(events[..|events| - 1]).outcomes[k]
  {
    hide FirstSlot, Slot;
  }

  lemma {:induction false} IssuedIsAllocations(events: seq<Event>)
    ensures Run(events).issued == Allocations(events)
  {
    if events != [] {
      IssuedIsAllocations(events[..|events| - 1]);
    }
  }

  /** No id is handed out twice in a run of at most 2^32 allocations. */
  lemma IdsUnique(events: seq<Event>, j: nat, k: nat)
    requires j < k < |events| && events[j].Allocate? && events[k].Allocate? && Allocations(events) <= UINT_RANGE
    ensures Run(events).outcomes[j] != Run(events).outcomes[k]
  {
    hide Run;
    AllocatedId(events, j);
    AllocatedId(events, k);
    AllocationsGrow(events[..k], j + 1);
    AllocationsGrow(events, k + 1);
    assert events[..k][..j + 1] == events[..j + 1];
    assert events[..j + 1][..j] == events[..j] && events[..k + 1][..k] == events[..k];
    DistinctMod(FIRST_ID + Allocations(events[..j]), FIRST_ID + Allocations(events[..k]));
  }

  lemma DistinctMod(a: nat, b: nat)
    requires a < b < a + UINT_RANGE
    ensures a % UINT_RANGE != b % UINT_RANGE
  {
  }

  /** The bound is sharp: allocation 2^32 hands out the first id again. */
  lemma IdsRepeat(events: seq<Event>, j: nat, k: nat)
    requires j < k < |events| && events[j].Allocate? && events[k].Allocate?
    requires Allocations(events[..k]) == Allocations(events[..j]) + UINT_RANGE
    ensures Run(events).outcomes[j] == Run(events).outcomes[k]
  {
    hide Run, Allocations;
    AllocatedId(events, j);
    AllocatedId(events, k);
    SameMod(FIRST_ID + Allocations(events[..j]));
  }

  lemma SameMod(a: nat)
    ensures (a + UINT_RANGE) % UINT_RANGE == a % UINT_RANGE
  {
  }

  /** Every remembered id came from an allocation before, and none is remembered twice. */
  ghost predicate Proper(events: seq<Event>) {
    forall k :: 0 <= k < |events| && events[k].Remember? ==>
      (exists j :: 0 <= j < k && events[j].Allocate? && Run(events[..k]).outcomes[j] == Id(events[k].id)) &&
      forall j :: 0 <= j < k && events[j].Remember? ==> events[j].id != events[k].id
  }

  lemma ProperPrefix(events: seq<Event>, n: nat)
    requires Proper(events) && n <= |events|
    ensures Proper(events[..n])
  {
    forall k | 0 <= k < n && events[..n][k].Remember?
      ensures (exists j :: 0 <= j < k && events[..n][j].Allocate? && Run(events[..n][..k]).outcomes[j] == Id(events[..n][k].id))
      ensures forall j :: 0 <= j < k && events[..n][j].Remember? ==> events[..n][j].id != events[..n][k].id
    {
      assert events[..n][..k] == events[..k];
      var j :| 0 <= j < k && events[j].Allocate? && Run(events[..k]).outcomes[j] == Id(events[k].id);
      assert events[..n][j].Allocate?;
    }
  }

  /** The entries are those of the remember events, in order. */
  lemma {:induction false} EntrySource(events: seq<Event>, i: nat) returns (k: nat)
    requires i < |Run(events).remembered|
    ensures k < |events| && events[k] == Remember(Run(events).remembered[i].id, Run(events).remembered[i].diff)
    ensures |Run(events[..k]).remembered| == i
  {
    var last := |events| - 1;
    var before := Run(events[..last]).remembered;
    if i < |before| {
      k := EntrySource(events[..last], i);
      assert events[..last][..k] == events[..k];
    } else {
      k := last;
    }
  }

  lemma EntriesDistinct(events: seq<Event>, i: nat, j: nat)
    requires Proper(events) && i < j < |Run(events).remembered|
    ensures Run(events).remembered[i].id != Run(events).remembered[j].id
  {
    hide Run;
    var a := EntrySource(events, i);
    var b := EntrySource(events, j);
    if b <= a {
      RememberedGrows(events, b, a);
    }
  }

  lemma {:induction false} RememberedGrows(events: seq<Event>, n: nat, m: nat)
    requires n <= m <= |events|
    ensures |Run(events[..n]).remembered| <= |Run(events[..m]).remembered|
    decreases m
  {
    if n < m {
      RememberedGrows(events, n, m - 1);
      assert events[..m][..m - 1] == events[..m - 1];
    }
  }

  ghost predicate HandedOut(events: seq<Event>, id: nat) {
    exists j :: 0 <= j < |events| && events[j].Allocate? && Run(events).outcomes[j] == Id(id)
  }

  /** Before the counter wraps, ids stay clear of the zero of an untouched slot. */
  lemma HandedOutFromFirst(events: seq<Event>, id: nat)
    requires HandedOut(events, id) && Allocations(events) <= 0x1_0000_0000 - 10
    ensures 10 <= id < 0x1_0000_0000
  {
    var j :| 0 <= j < |events| && events[j].Allocate? && Run(events).outcomes[j] == Id(id);
    AllocatedId(events, j);
    AllocationsGrow(events, j + 1);
    assert events[..j + 1][..j] == events[..j];
  }

  /** A lookup of a handed-out id finds it exactly when it is among the last 32
      remembered, and what it finds is the difficulty of that very share. */
  lemma OwnDifficulty(events: seq<Event>, id: nat)
    requires Proper(events + [Lookup(id)]) && HandedOut(events, id) && Allocations(events) <= UINT_RANGE - FIRST_ID
    ensures var entries, answer := Run(events).remembered, Run(events + [Lookup(id)]).outcomes[|events|];
      (answer.Found? <==> InWindow(entries, id)) &&
      (answer.Found? || answer.Missed?) &&
      (answer.Found? ==> exists k :: 0 <= k < |entries| && entries[k] == Entry(id, answer.diff)) &&
      forall k :: answer.Found? && 0 <= k < |entries| && entries[k].id == id ==> entries[k].diff == answer.diff
  {
    var all := events + [Lookup(id)];
    assert all[..|events|] == events;
    ProperPrefix(all, |events|);
    HandedOutFromFirst(events, id);
    var entries := Run(events).remembered;
    HitsExactlyTheWindow(entries, id);
    var j := FirstSlot(entries, id, 0);
    if j < SUBMIT_RING {
      var k := SlotInWindow(entries, j);
      assert entries[k] == Entry(id, entries[k].diff);
      forall k' | 0 <= k' < |entries| && entries[k'].id == id
        ensures k' == k
      {
        if k' < k {
          EntriesDistinct(events, k', k);
        } else if k < k' {
          EntriesDistinct(events, k, k');
        }
      }
    }
  }
}

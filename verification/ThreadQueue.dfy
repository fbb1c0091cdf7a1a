/** The queue between threads: entries on an intrusive list, under one mutex, with
    a condition variable. A pop that has to wait gives the mutex up, so it is two
    steps; every other operation is one. */
module ThreadQueue {
  import opened LinkedList

  /** What is queued; a null pointer is a legal item. */
  datatype Pointer = Null | To(id: nat)

  // The queue itself.

  class Queue {
    const head: Node<Pointer>
    var frozen: bool
    ghost var nodes: seq<Node<Pointer>>   // entries in the order of the links

    ghost predicate Valid()
      reads this, head, nodes
    {
      Ring(head, nodes)
    }

    ghost function Items(): seq<Pointer>
      reads this, nodes
    {
      Data(nodes)
    }

    constructor ()
      ensures Valid() && fresh(head) && nodes == [] && !frozen
    {
      head := new Node(Null);
      frozen, nodes := false, [];
    }

    method FreezeThaw(freeze: bool)
      modifies this`frozen
      ensures frozen == freeze
    {
      frozen := freeze;
    }

    /** memory says whether there was memory for the entry. */
    method Push(data: Pointer, memory: bool) returns (rc: bool)
      requires Valid()
      modifies this`nodes, head, nodes
      ensures Valid() && rc == (memory && !frozen)
      ensures Items() == old(Items()) + if rc then [data] else []
      ensures forall i :: 0 <= i < |nodes| ==> nodes[i] in old(nodes) || fresh(nodes[i])
    {
      if !memory {
        return false;
      }
      var ent := new Node(data);
      if !frozen {
        RingKept(head, nodes);
        DataSnoc(nodes, ent);
        AddTail(ent, head, nodes);
        DataSnoc(nodes, ent);
        nodes := nodes + [ent];
        rc := true;
      } else {
        rc := false;
      }
    }

    /** The part of a pop before any wait; blocked says that it must wait. */
    method PopEnter() returns (blocked: bool, rval: Pointer)
      requires Valid()
      modifies this`nodes, head, nodes
      ensures Valid() && blocked == (old(Items()) == []) && forall i :: 0 <= i < |nodes| ==> nodes[i] in old(nodes)
      ensures if blocked then rval == Null && Items() == old(Items())
              else [rval] + Items() == old(Items())
    {
      EmptyIff(head, nodes);
      if head.next == head {
        return true, Null;
      }
      blocked := false;
      rval := Take();
    }

    /** The part after a wait that returned rc, with the mutex held again. */
    method PopWake(rc: int) returns (rval: Pointer)
      requires Valid()
      modifies this`nodes, head, nodes
      ensures Valid() && forall i :: 0 <= i < |nodes| ==> nodes[i] in old(nodes)
      ensures if rc != 0 || old(Items()) == [] then rval == Null && Items() == old(Items())
              else [rval] + Items() == old(Items())
    {
      if rc != 0 {
        return Null;
      }
      EmptyIff(head, nodes);
      if head.next == head {
        return Null;
      }
      rval := Take();
    }

    /** Unlinks the first entry. */
    method Take() returns (rval: Pointer)
      requires Valid() && nodes != []
      modifies this`nodes, head, nodes
      ensures Valid() && [rval] + Items() == old(Items()) && nodes == old(nodes)[1..]
    {
      hide Ring, Data;
      EmptyIff(head, nodes);
      var ent: Node<Pointer> := head.next;
      DataCons(nodes);
      rval := ent.data;
      Delete(ent, head, nodes, 0);
      DataCons(nodes);
      assert nodes[..0] + nodes[1..] == nodes[1..];
      nodes := nodes[1..];
    }

    method Free() returns (freed: seq<Node<Pointer>>)
      requires Valid()
      modifies head, nodes
      ensures freed == nodes && Ring(head, [])
    {
      freed := DeleteAll(head, nodes);
    }
  }

  lemma RingKept(head: Node<Pointer>, nodes: seq<Node<Pointer>>)
    requires Ring(head, nodes)
    ensures Distinct(head, nodes)
  {
  }

  // All interleavings of the atomic steps.

  /** One critical section: PopWake is the end of a wait, for whatever reason. */
  datatype Event =
    | Push(data: Pointer, memory: bool)
    | PopEnter(thread: nat)
    | PopWake(thread: nat, rc: int)
    | FreezeThaw(frozen: bool)

  /** What the calling thread sees; Idle marks an event its thread is in no state to make. */
  datatype Outcome = Pushed(rc: bool) | Got(rval: Pointer) | Blocked | Done | Idle

  datatype State = State(queue: seq<Pointer>, frozen: bool, waiting: set<nat>, popped: seq<Pointer>)

  datatype Trace = Trace(state: State, outcomes: seq<Outcome>)

  function Shift(s: State): (r: (State, Outcome))
    requires s.queue != []
  {
    (s.(queue := s.queue[1..], popped := s.popped + [s.queue[0]]), Got(s.queue[0]))
  }

  function Step(s: State, e: Event): (State, Outcome) {
    match e
    case Push(data, memory) =>
      if memory && !s.frozen then (s.(queue := s.queue + [data]), Pushed(true)) else (s, Pushed(false))
    case PopEnter(t) =>
      if t in s.waiting then (s, Idle)
      else if s.queue == [] then (s.(waiting := s.waiting + {t}), Blocked)
      else Shift(s)
    case PopWake(t, rc) =>
      if t !in s.waiting then (s, Idle)
      else
        var s' := s.(waiting := s.waiting - {t});
        if rc != 0 || s.queue == [] then (s', Got(Null)) else Shift(s')
    case FreezeThaw(b) => (s.(frozen := b), Done)
  }

  function Run(events: seq<Event>): (t: Trace)
    ensures |t.outcomes| == |events|
  {
    if events == [] then Trace(State([], false, {}, []), [])
    else
      var k := |events| - 1;
      var before := Run(events[..k]);
      var (s, o) := Step(before.state, events[k]);
      Trace(s, before.outcomes + [o])
  }

  /** The linked queue, driven through any interleaving, does what the steps say. */
  method Execute(events: seq<Event>) returns (outcomes: seq<Outcome>)
    ensures outcomes == Run(events).outcomes
  {
    var q := new Queue();
    var waiting: set<nat> := {};
    outcomes := [];
    for i := 0 to |events|
      invariant fresh(q) && fresh(q.head) && fresh(q.nodes) && q.Valid()
      invariant outcomes == Run(events[..i]).outcomes && waiting == Run(events[..i]).state.waiting
      invariant q.Items() == Run(events[..i]).state.queue && q.frozen == Run(events[..i]).state.frozen
    {
      hide Ring, Data, Run;
      ghost var s := Run(events[..i]).state;
      RunSnoc(events, i);
      var o, waiting' := Perform(q, waiting, events[i], s);
      outcomes, waiting := outcomes + [o], waiting';
    }
    assert events[..|events|] == events;
  }

  /** One event on the linked queue. */
  method Perform(q: Queue, waiting: set<nat>, e: Event, ghost s: State) returns (o: Outcome, waiting': set<nat>)
    requires q.Valid() && s.waiting == waiting && s.queue == q.Items() && s.frozen == q.frozen
    modifies q, q.head, q.nodes
    ensures q.Valid() && forall i :: 0 <= i < |q.nodes| ==> q.nodes[i] in old(q.nodes) || fresh(q.nodes[i])
    ensures Step(s, e).1 == o && Step(s, e).0.waiting == waiting'
    ensures Step(s, e).0.queue == q.Items() && Step(s, e).0.frozen == q.frozen
  {
    hide Ring, Data;
    waiting' := waiting;
    match e {
      case Push(data, memory) =>
        var rc := q.Push(data, memory);
        o := Pushed(rc);
      case PopEnter(t) =>
        if t in waiting {
          return Idle, waiting;
        }
        var blocked, rval := q.PopEnter();
        if blocked {
          o, waiting' := Blocked, waiting + {t};
        } else {
          HeadTail(rval, q.Items(), s.queue);
          o := Got(rval);
        }
      case PopWake(t, rc) =>
        if t !in waiting {
          return Idle, waiting;
        }
        var rval := q.PopWake(rc);
        if rc == 0 && s.queue != [] {
          HeadTail(rval, q.Items(), s.queue);
        }
        o, waiting' := Got(rval), waiting - {t};
      case FreezeThaw(b) =>
        q.FreezeThaw(b);
        o := Done;
    }
  }

  lemma HeadTail(x: Pointer, rest: seq<Pointer>, all: seq<Pointer>)
    requires [x] + rest == all
    ensures all != [] && x == all[0] && rest == all[1..]
  {
  }

  lemma RunSnoc(events: seq<Event>, i: nat)
    requires i < |events|
    ensures var t, r := Run(events[..i]), Step(Run(events[..i]).state, events[i]);
      Run(events[..i + 1]) == Trace(r.0, t.outcomes + [r.1])
  {
    assert events[..i + 1][..i] == events[..i];
  }

  // What every run satisfies.

  /** Whether the last freeze or thaw was a freeze. */
  predicate FrozenAfter(events: seq<Event>) {
    if events == [] then false
    else
      var e := events[|events| - 1];
      if e.FreezeThaw? then e.frozen else FrozenAfter(events[..|events| - 1])
  }

  /** The items of the pushes that found memory and no freeze, in order. */
  function Accepted(events: seq<Event>): seq<Pointer> {
    if events == [] then []
    else
      var before, e := events[..|events| - 1], events[|events| - 1];
      Accepted(before) + if e.Push? && e.memory && !FrozenAfter(before) then [e.data] else []
  }

  lemma {:induction false} FreezeTracked(events: seq<Event>)
    ensures Run(events).state.frozen == FrozenAfter(events)
  {
    if events != [] {
      FreezeTracked(events[..|events| - 1]);
    }
  }

  /** A step moves items from the queue to the log, and adds what it accepts. */
  lemma StepKeeps(s: State, e: Event)
    ensures var s' := Step(s, e).0;
      s'.popped + s'.queue == s.popped + s.queue + if e.Push? && e.memory && !s.frozen then [e.data] else []
  {
    if s.queue != [] {
      assert s.popped + [s.queue[0]] + s.queue[1..] == s.popped + s.queue;
    }
    if e.Push? {
      assert s.popped + (s.queue + [e.data]) == s.popped + s.queue + [e.data];
    }
  }

  /** Items leave in the order in which they were accepted, each once; what has not
      left is queued. */
  lemma {:induction false} Fifo(events: seq<Event>)
    ensures Run(events).state.popped + Run(events).state.queue == Accepted(events)
  {
    if events != [] {
      var k := |events| - 1;
      Fifo(events[..k]);
      FreezeTracked(events[..k]);
      StepKeeps(Run(events[..k]).state, events[k]);
      hide Step, FrozenAfter;
    }
  }

  /** A push succeeds exactly when there is memory and the queue is not frozen. */
  lemma {:induction false} PushAnswer(events: seq<Event>, k: nat)
    requires k < |events| && events[k].Push?
    ensures Run(events).outcomes[k] == Pushed(events[k].memory && !FrozenAfter(events[..k]))
  {
    if k == |events| - 1 {
      FreezeTracked(events[..k]);
    } else {
      PushAnswer(events[..|events| - 1], k);
      assert events[..|events| - 1][..k] == events[..k];
    }
  }

  /** The non-null results of pops, in the order of their critical sections. */
  function Received(outcomes: seq<Outcome>): seq<Pointer> {
    if outcomes == [] then []
    else
      var o := outcomes[|outcomes| - 1];
      Received(outcomes[..|outcomes| - 1]) + if o.Got? && o.rval != Null then [o.rval] else []
  }

  /** The items of a history that a caller can tell from an empty return. */
  function NonNull(items: seq<Pointer>): seq<Pointer> {
    if items == [] then []
    else
      var k := |items| - 1;
      NonNull(items[..k]) + if items[k] != Null then [items[k]] else []
  }

  lemma NonNullSnoc(items: seq<Pointer>, x: Pointer)
    ensures NonNull(items + [x]) == NonNull(items) + if x != Null then [x] else []
  {
    assert (items + [x])[..|items|] == items;
  }

  lemma {:induction false} NonNullConcat(a: seq<Pointer>, b: seq<Pointer>)
    ensures NonNull(a + b) == NonNull(a) + NonNull(b)
  {
    hide NonNull;
    if b == [] {
      assert a + b == a;
      NonNullNothing();
    } else {
      var k := |b| - 1;
      NonNullConcat(a, b[..k]);
      NonNullSnoc(b[..k], b[k]);
      NonNullSnoc(a + b[..k], b[k]);
      assert b[..k] + [b[k]] == b && a + b[..k] + [b[k]] == a + b;
    }
  }

  lemma NonNullNothing()
    ensures NonNull([]) == []
  {
  }

  /** A step takes at most one item, the first of the queue, and hands it to the caller. */
  lemma StepTakes(s: State, e: Event)
    ensures var (s', o) := Step(s, e);
      (s'.popped == s.popped && (o.Got? ==> o.rval == Null)) ||
      (s.queue != [] && s'.popped == s.popped + [s.queue[0]] && o == Got(s.queue[0]))
  {
  }

  lemma {:induction false} ReceivedIsPopped(events: seq<Event>)
    ensures Received(Run(events).outcomes) == NonNull(Run(events).state.popped)
  {
    if events != [] {
      var k := |events| - 1;
      var t := Run(events[..k]);
      var (s, o) := Step(t.state, events[k]);
      ReceivedIsPopped(events[..k]);
      StepTakes(t.state, events[k]);
      RunSnoc(events, k);
      assert events[..k + 1] == events;
      hide Step, Run;
      assert (t.outcomes + [o])[..|t.outcomes|] == t.outcomes;
      if s.popped != t.state.popped {
        assert s.popped[..|t.state.popped|] == t.state.popped;
      }
    }
  }

  /** The non-null items that callers receive, then those still queued, are those that
      were accepted: nothing is lost, repeated or reordered, whoever runs when. With the
      nulls, accepted items are popped or queued. */
  lemma ExactlyOnce(events: seq<Event>)
    ensures Received(Run(events).outcomes) + NonNull(Run(events).state.queue) == NonNull(Accepted(events))
    ensures |Accepted(events)| == |Run(events).state.popped| + |Run(events).state.queue|
  {
    hide Run, NonNull, Accepted, Received;
    ReceivedIsPopped(events);
    Fifo(events);
    NonNullConcat(Run(events).state.popped, Run(events).state.queue);
  }

  /** Pops begun by threads that were not already waiting. */
  function Begun(events: seq<Event>): nat {
    if events == [] then 0
    else
      var before, e := events[..|events| - 1], events[|events| - 1];
      Begun(before) + if e.PopEnter? && e.thread !in Run(before).state.waiting then 1 else 0
  }

  function Returned(outcomes: seq<Outcome>): nat {
    if outcomes == [] then 0
    else
      var k := |outcomes| - 1;
      Returned(outcomes[..k]) + if outcomes[k].Got? then 1 else 0
  }

  /** Every pop returns once or is still waiting: a wake-up never waits again. */
  lemma {:induction false} PopsReturn(events: seq<Event>)
    ensures Begun(events) == Returned(Run(events).outcomes) + |Run(events).state.waiting|
  {
    if events != [] {
      var before := events[..|events| - 1];
      PopsReturn(before);
      assert Run(events).outcomes[..|events| - 1] == Run(before).outcomes;
    }
  }

  /** A run and one more event. */
  lemma RunMore(before: seq<Event>, e: Event)
    ensures Run(before + [e]).outcomes[|before|] == Step(Run(before).state, e).1
  {
    assert (before + [e])[..|before|] == before;
  }

  /** The next item to leave is the first accepted one that has not left. */
  lemma NextItem(events: seq<Event>)
    ensures var n := |Run(events).state.popped|;
      n <= |Accepted(events)| && (Run(events).state.queue == [] <==> n == |Accepted(events)|) &&
      (n < |Accepted(events)| ==> Run(events).state.queue[0] == Accepted(events)[n])
  {
    hide Run, Accepted;
    Fifo(events);
    assert Run(events).state.queue != [] ==>
      (Run(events).state.popped + Run(events).state.queue)[|Run(events).state.popped|] == Run(events).state.queue[0];
  }

  /** A waiting pop comes back with null exactly when its wait failed, or every accepted
      item had already left, or the next one is itself a null. */
  lemma EmptyHanded(before: seq<Event>, t: nat, rc: int)
    requires t in Run(before).state.waiting
    ensures |Run(before).state.popped| <= |Accepted(before)|
    ensures var n := |Run(before).state.popped|;
      (Run(before + [PopWake(t, rc)]).outcomes[|before|] == Got(Null)) <==>
      (rc != 0 || n == |Accepted(before)| || Accepted(before)[n] == Null)
  {
    hide Run, Accepted;
    RunMore(before, PopWake(t, rc));
    NextItem(before);
  }

  /** A pop that begins waits exactly when every accepted item has left, and else
      returns the next one, null or not. */
  lemma EnterAnswer(before: seq<Event>, t: nat)
    requires t !in Run(before).state.waiting
    ensures |Run(before).state.popped| <= |Accepted(before)|
    ensures var n := |Run(before).state.popped|;
      Run(before + [PopEnter(t)]).outcomes[|before|]
        == if n == |Accepted(before)| then Blocked else Got(Accepted(before)[n])
  {
    hide Run, Accepted;
    RunMore(before, PopEnter(t));
    NextItem(before);
  }

  /** The wait is not in a loop: another thread can take the item that woke it. */
  lemma StolenWakeup()
    ensures Run([PopEnter(1), Push(To(7), true), PopEnter(2), PopWake(1, 0)]).outcomes
         == [Blocked, Pushed(true), Got(To(7)), Got(Null)]
  {
    var a, b, c, d := PopEnter(1), Push(To(7), true), PopEnter(2), PopWake(1, 0);
    assert [a, b, c, d][..3] == [a, b, c] && [a, b, c][..2] == [a, b] && [a, b][..1] == [a] && [a][..0] == [];
    assert Run([a]).state == State([], false, {1}, []);
    assert Run([a, b]).state == State([To(7)], false, {1}, []);
    assert Run([a, b, c]).state == State([], false, {1}, [To(7)]);
  }
}

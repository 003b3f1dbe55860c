// The time-ordered event queue of Lab1-Hazards/eventq.c on values: pending events as a sequence.
module Events {

  /** What an event does when it happens. Bits and cells are named by the address that the event holds;
      callbacks are left out. */
  datatype Action =
    | SetBit(map': int, bit: int)
    | ClearBit(map': int, bit: int)
    | SetFlag(cell: int, value: int)
    | AddOp(cell: int, addend: int)

  datatype Event = Event(when: int, id: int, action: Action)

  /** The storage that events change. */
  datatype Store = Store(bits: set<(int, int)>, cells: map<int, int>)

  function Cell(s: Store, c: int): int { if c in s.cells then s.cells[c] else 0 }

  function Apply(s: Store, a: Action): Store
  {
    match a
    case SetBit(m, b) => s.(bits := s.bits + {(m, b)})
    case ClearBit(m, b) => s.(bits := s.bits - {(m, b)})
    case SetFlag(c, v) => s.(cells := s.cells[c := v])
    case AddOp(c, v) => s.(cells := s.cells[c := Cell(s, c) + v])
  }

  function ApplyAll(s: Store, es: seq<Event>): Store
    decreases es
  {
    if es == [] then s else ApplyAll(Apply(s, es[0].action), es[1..])
  }

  // ---- Queueing ------------------------------------------------------------------------------

  /** The insertion point: past all events that happen strictly earlier. */
  function Position(q: seq<Event>, when: int): (k: nat)
    ensures k <= |q|
    ensures forall i :: 0 <= i < k ==> q[i].when < when
    ensures k < |q| ==> q[k].when >= when
  {
    if q == [] || q[0].when >= when then 0 else 1 + Position(q[1..], when)
  }

  function Inserted(q: seq<Event>, e: Event): (r: seq<Event>)
    ensures |r| == |q| + 1
  {
    var k := Position(q, e.when);
    q[..k] + [e] + q[k..]
  }

  predicate Sorted(q: seq<Event>)
  {
    forall i, j :: 0 <= i < j < |q| ==> q[i].when <= q[j].when
  }

  lemma InsertedIsSorted(q: seq<Event>, e: Event)
    requires Sorted(q)
    ensures Sorted(Inserted(q, e))
  {
    var k := Position(q, e.when);
    var r := Inserted(q, e);
    assert r[k] == e;
    assert forall i :: 0 <= i < k ==> r[i] == q[i];
    assert forall i :: k < i < |r| ==> r[i] == q[i - 1];
    hide Position, Inserted;
    forall i, j | 0 <= i < j < |r|
      ensures r[i].when <= r[j].when
    {
      if i <= k <= j && k < |q| {
        assert j > k ==> q[k].when <= q[j - 1].when;
      }
    }
  }

  lemma InsertedKeepsAll(q: seq<Event>, e: Event)
    ensures multiset(Inserted(q, e)) == multiset(q) + multiset{e}
  {
    var k := Position(q, e.when);
    hide Position;
    assert q == q[..k] + q[k..];
  }

  /** Where the first event with a given identifier is, or the length. */
  function Find(q: seq<Event>, id: int): (k: nat)
    ensures k <= |q|
    ensures forall i :: 0 <= i < k ==> q[i].id != id
    ensures k < |q| ==> q[k].id == id
  {
    if q == [] || q[0].id == id then 0 else 1 + Find(q[1..], id)
  }

  function Without(q: seq<Event>, k: nat): seq<Event>
    requires k < |q|
  {
    q[..k] + q[k + 1..]
  }

  lemma WithoutTakesOne(q: seq<Event>, k: nat)
    requires k < |q|
    ensures multiset(Without(q, k)) + multiset{q[k]} == multiset(q)
  {
    assert q == q[..k] + [q[k]] + q[k + 1..];
  }

  // ---- Service -------------------------------------------------------------------------------

  /** How many events at the head are due. */
  function Due(q: seq<Event>, now: int): (k: nat)
    ensures k <= |q|
    ensures forall i :: 0 <= i < k ==> q[i].when <= now
    ensures k < |q| ==> q[k].when > now
  {
    if q == [] || q[0].when > now then 0 else 1 + Due(q[1..], now)
  }

  /** The events with when <= now and those later, in order. */
  function UpTo(q: seq<Event>, now: int): seq<Event>
  {
    if q == [] then []
    else (if q[0].when <= now then [q[0]] else []) + UpTo(q[1..], now)
  }

  function Later(q: seq<Event>, now: int): seq<Event>
  {
    if q == [] then []
    else (if q[0].when <= now then [] else [q[0]]) + Later(q[1..], now)
  }

  /** On a sorted queue, service takes exactly the events that are due, wherever they are, in time order. */
  lemma {:induction false} DueIsUpTo(q: seq<Event>, now: int)
    requires Sorted(q)
    ensures q[..Due(q, now)] == UpTo(q, now) && q[Due(q, now)..] == Later(q, now)
  {
    SortedMeans(q, now);
    hide Sorted;
    if q != [] && q[0].when <= now {
      assert Due(q, now) == 1 + Due(q[1..], now);
      assert UpTo(q, now) == [q[0]] + UpTo(q[1..], now) && Later(q, now) == Later(q[1..], now);
      hide *;
      DueIsUpTo(q[1..], now);
      FirstThenTake(q, Due(q[1..], now));
    } else {
      assert Due(q, now) == 0;
      hide *;
      NothingDue(q, now);
    }
  }

  /** The rest of a sorted queue is sorted, and if its head is not due then nothing is. */
  lemma SortedMeans(q: seq<Event>, now: int)
    requires Sorted(q)
    ensures q != [] ==> Sorted(q[1..])
    ensures q != [] && q[0].when > now ==> forall i :: 0 <= i < |q| ==> q[i].when > now
  {
  }

  lemma FirstThenTake(q: seq<Event>, k: nat)
    requires 1 + k <= |q|
    ensures q[..1 + k] == [q[0]] + q[1..][..k] && q[1 + k..] == q[1..][k..]
  {
  }

  lemma {:induction false} NothingDue(q: seq<Event>, now: int)
    requires forall i :: 0 <= i < |q| ==> q[i].when > now
    ensures UpTo(q, now) == [] && Later(q, now) == q
  {
    if q != [] {
      NothingDue(q[1..], now);
    }
  }

  lemma {:induction false} ApplyAllAppend(s: Store, xs: seq<Event>, ys: seq<Event>)
    ensures ApplyAll(s, xs + ys) == ApplyAll(ApplyAll(s, xs), ys)
    decreases xs
  {
    hide Apply;
    if xs == [] {
      assert xs + ys == ys;
    } else {
      ApplyAllAppend(Apply(s, xs[0].action), xs[1..], ys);
      assert (xs + ys)[1..] == xs[1..] + ys;
    }
  }

  lemma {:induction false} DueSplits(q: seq<Event>, t1: int, t2: int)
    requires t1 <= t2
    ensures Due(q, t1) + Due(q[Due(q, t1)..], t2) == Due(q, t2)
  {
    var k := Due(q, t1);
    if k > 0 {
      DueSplits(q[1..], t1, t2);
      assert q[1..][k - 1..] == q[k..];
    } else {
      assert q[k..] == q;
    }
  }

  /** Serving up to t1 and then up to t2 is serving up to t2. */
  lemma ServiceComposes(s: Store, q: seq<Event>, t1: int, t2: int)
    requires t1 <= t2
    ensures var k1 := Due(q, t1);
            var k2 := Due(q[k1..], t2);
            && q[k1..][k2..] == q[Due(q, t2)..]
            && ApplyAll(ApplyAll(s, q[..k1]), q[k1..][..k2]) == ApplyAll(s, q[..Due(q, t2)])
  {
    hide *;
    var k1 := Due(q, t1);
    var k2 := Due(q[k1..], t2);
    DueSplits(q, t1, t2);
    TakeAfterDrop(q, k1, k2);
    ApplyAllAppend(s, q[..k1], q[k1..][..k2]);
  }

  lemma TakeAfterDrop(q: seq<Event>, a: nat, b: nat)
    requires a + b <= |q|
    ensures q[a..][b..] == q[a + b..] && q[..a] + q[a..][..b] == q[..a + b]
  {
  }

  // ---- Ties ------------------------------------------------------------------------------------

  /** The queue after events have been queued in the order of es. */
  function QueuedAll(es: seq<Event>): seq<Event>
  {
    if es == [] then [] else Inserted(QueuedAll(es[..|es| - 1]), es[|es| - 1])
  }

  /** The events of a sequence that happen at one time. */
  function AtTime(es: seq<Event>, t: int): seq<Event>
  {
    if es == [] then []
    else
      var rest := AtTime(es[..|es| - 1], t);
      if es[|es| - 1].when == t then rest + [es[|es| - 1]] else rest
  }

  function Reversed(es: seq<Event>): seq<Event>
  {
    if es == [] then [] else [es[|es| - 1]] + Reversed(es[..|es| - 1])
  }

  lemma {:induction false} AtTimeAppend(xs: seq<Event>, ys: seq<Event>, t: int)
    ensures AtTime(xs + ys, t) == AtTime(xs, t) + AtTime(ys, t)
  {
    if ys == [] {
      assert xs + ys == xs;
    } else {
      var k := |ys| - 1;
      AtTimeAppend(xs, ys[..k], t);
      assert (xs + ys)[..|xs + ys| - 1] == xs + ys[..k];
      assert (xs + ys)[|xs + ys| - 1] == ys[k];
    }
  }

  lemma {:induction false} NoneAtTime(es: seq<Event>, t: int)
    requires forall i :: 0 <= i < |es| ==> es[i].when != t
    ensures AtTime(es, t) == []
  {
    if es != [] {
      NoneAtTime(es[..|es| - 1], t);
    }
  }

  /** Inserting puts an event before all others of its time and leaves the other times alone. */
  lemma InsertedAtTime(q: seq<Event>, e: Event, t: int)
    ensures AtTime(Inserted(q, e), t) == if e.when == t then [e] + AtTime(q, t) else AtTime(q, t)
  {
    hide AtTime, Position;
    var k := Position(q, e.when);
    assert q == q[..k] + q[k..];
    PlacedAtTime(q[..k], e, q[k..], t);
  }

  lemma PlacedAtTime(xs: seq<Event>, e: Event, ys: seq<Event>, t: int)
    requires forall i :: 0 <= i < |xs| ==> xs[i].when < e.when
    ensures AtTime(xs + [e] + ys, t) == if e.when == t then [e] + AtTime(xs + ys, t) else AtTime(xs + ys, t)
  {
    hide AtTime;
    AtTimeAppend(xs + [e], ys, t);
    AtTimeAppend(xs, [e], t);
    AtTimeAppend(xs, ys, t);
    AtTimeOne(e, t);
    if e.when == t {
      NoneAtTime(xs, t);
    }
  }

  lemma AtTimeOne(e: Event, t: int)
    ensures AtTime([e], t) == if e.when == t then [e] else []
  {
    assert [e][..0] == [];
  }

  /** One more event at the end of the arrivals. */
  lemma ArrivalStep(es: seq<Event>, t: int)
    requires es != []
    ensures var before, last := es[..|es| - 1], es[|es| - 1];
            && QueuedAll(es) == Inserted(QueuedAll(before), last)
            && Reversed(AtTime(es, t)) == (if last.when == t then [last] else []) + Reversed(AtTime(before, t))
            && multiset(es) == multiset(before) + multiset{last}
  {
    hide Inserted;
    var before, last := es[..|es| - 1], es[|es| - 1];
    assert es == before + [last];
    if last.when == t {
      assert AtTime(es, t) == AtTime(before, t) + [last];
      assert AtTime(es, t)[..|AtTime(es, t)| - 1] == AtTime(before, t);
    }
  }

  /** Queueing sorts by time, loses nothing, and puts events of equal time in the reverse of the order
      in which they were queued. */
  lemma {:induction false} QueueingOrder(es: seq<Event>, t: int)
    ensures Sorted(QueuedAll(es))
    ensures multiset(QueuedAll(es)) == multiset(es)
    ensures AtTime(QueuedAll(es), t) == Reversed(AtTime(es, t))
  {
    if es != [] {
      hide *;
      var before, last := es[..|es| - 1], es[|es| - 1];
      ArrivalStep(es, t);
      QueueingOrder(before, t);
      InsertedIsSorted(QueuedAll(before), last);
      InsertedKeepsAll(QueuedAll(before), last);
      InsertedAtTime(QueuedAll(before), last, t);
    }
  }

  // ---- Whole runs --------------------------------------------------------------------------------

  datatype State = State(queue: seq<Event>, nextId: int, store: Store)

  datatype Op =
    | Queue(when: int, what: Action)
    | Execute(id: int)
    | Remove(id: int)
    | Service(now: int)

  function Step(s: State, op: Op): State
  {
    match op
    case Queue(when, what) =>
      State(Inserted(s.queue, Event(when, s.nextId, what)), (s.nextId + 1) % 0x1_0000_0000, s.store)
    case Execute(id) =>
      var k := Find(s.queue, id);
      if k < |s.queue| then State(Without(s.queue, k), s.nextId, Apply(s.store, s.queue[k].action)) else s
    case Remove(id) =>
      var k := Find(s.queue, id);
      if k < |s.queue| then s.(queue := Without(s.queue, k)) else s
    case Service(now) =>
      State(Later(s.queue, now), s.nextId, ApplyAll(s.store, UpTo(s.queue, now)))
  }

  function Run(s: State, ops: seq<Op>): State
    decreases ops
  {
    if ops == [] then s else Run(Step(s, ops[0]), ops[1..])
  }

  function Queued(ops: seq<Op>): nat
  {
    if ops == [] then 0 else (if ops[0].Queue? then 1 else 0) + Queued(ops[1..])
  }

  /** No two pending events share an identifier. */
  predicate DistinctIds(q: seq<Event>)
  {
    forall i, j :: 0 <= i < j < |q| ==> q[i].id != q[j].id
  }

  predicate Unused(q: seq<Event>, id: int)
  {
    forall i :: 0 <= i < |q| ==> q[i].id != id
  }

  /** Identifiers on the queue have been handed out. */
  predicate IdsBelow(q: seq<Event>, n: int)
  {
    forall i :: 0 <= i < |q| ==> q[i].id < n
  }

  /** Where the events of a queue go when one is inserted: event i of the result. */
  lemma InsertedAt(q: seq<Event>, e: Event, i: nat)
    requires i <= |q|
    ensures var k := Position(q, e.when);
            Inserted(q, e)[i] == if i == k then e else if i < k then q[i] else q[i - 1]
  {
    hide Position;
  }

  /** Event i of a queue in the queue that an insertion gives. */
  lemma InsertedKeeps(q: seq<Event>, e: Event, i: nat)
    requires i < |q|
    ensures var k, r := Position(q, e.when), Inserted(q, e);
            && r[k] == e && r[if i < k then i else i + 1] == q[i]
  {
    hide Position;
  }

  lemma InsertedIdsBelow(q: seq<Event>, e: Event, n: int)
    requires IdsBelow(q, n) && e.id < n
    ensures IdsBelow(Inserted(q, e), n)
  {
    forall i | 0 <= i < |Inserted(q, e)|
      ensures Inserted(q, e)[i].id < n
    {
      InsertedAt(q, e, i);
    }
  }

  lemma InsertedStaysDistinct(q: seq<Event>, e: Event)
    requires DistinctIds(q) && Unused(q, e.id)
    ensures DistinctIds(Inserted(q, e))
  {
    hide Position, Inserted;
    var r := Inserted(q, e);
    forall i, j | 0 <= i < j < |r|
      ensures r[i].id != r[j].id
    {
      InsertedAt(q, e, i);
      InsertedAt(q, e, j);
    }
  }

  lemma InsertedWasDistinct(q: seq<Event>, e: Event)
    requires DistinctIds(Inserted(q, e))
    ensures DistinctIds(q) && Unused(q, e.id)
  {
    hide Position, Inserted;
    forall i | 0 <= i < |q|
      ensures q[i].id != e.id
    {
      InsertedKeeps(q, e, i);
    }
    forall i, j | 0 <= i < j < |q|
      ensures q[i].id != q[j].id
    {
      InsertedKeeps(q, e, i);
      InsertedKeeps(q, e, j);
    }
  }

  lemma InsertedIds(q: seq<Event>, e: Event)
    ensures DistinctIds(Inserted(q, e)) <==> DistinctIds(q) && Unused(q, e.id)
  {
    hide *;
    if DistinctIds(q) && Unused(q, e.id) {
      InsertedStaysDistinct(q, e);
    }
    if DistinctIds(Inserted(q, e)) {
      InsertedWasDistinct(q, e);
    }
  }

  lemma RestIds(q: seq<Event>, k: nat, n: int)
    requires k <= |q|
    ensures DistinctIds(q) ==> DistinctIds(q[k..]) && (k < |q| ==> DistinctIds(Without(q, k)))
    ensures IdsBelow(q, n) ==> IdsBelow(q[k..], n) && (k < |q| ==> IdsBelow(Without(q, k), n))
  {
  }

  lemma RestSorted(q: seq<Event>, k: nat)
    requires Sorted(q) && k <= |q|
    ensures Sorted(q[k..])
    ensures k < |q| ==> Sorted(Without(q, k))
  {
  }

  /** Every step keeps the time order. */
  lemma StepSorted(s: State, op: Op)
    requires Sorted(s.queue)
    ensures Sorted(Step(s, op).queue)
  {
    hide Sorted, Inserted, Find, Without, Due, UpTo, Later, ApplyAll;
    match op
    case Queue(when, what) => InsertedIsSorted(s.queue, Event(when, s.nextId, what));
    case Execute(id) => RestSorted(s.queue, Find(s.queue, id));
    case Remove(id) => RestSorted(s.queue, Find(s.queue, id));
    case Service(now) =>
      DueIsUpTo(s.queue, now);
      RestSorted(s.queue, Due(s.queue, now));
  }

  /** Every step keeps identifiers distinct, except exactly the queueing under an identifier that is still
      pending, which a wrapped counter may hand out. */
  lemma StepIds(s: State, op: Op)
    requires Sorted(s.queue) && DistinctIds(s.queue)
    ensures DistinctIds(Step(s, op).queue) <==> (op.Queue? ==> Unused(s.queue, s.nextId))
  {
    hide Sorted, DistinctIds, Unused, Inserted, Find, Without, Due, UpTo, Later, ApplyAll;
    match op
    case Queue(when, what) => InsertedIds(s.queue, Event(when, s.nextId, what));
    case Execute(id) => RestIds(s.queue, Find(s.queue, id), 0);
    case Remove(id) => RestIds(s.queue, Find(s.queue, id), 0);
    case Service(now) =>
      DueIsUpTo(s.queue, now);
      RestIds(s.queue, Due(s.queue, now), 0);
  }

  /** Over every run the queue stays in time order. */
  lemma {:induction false} RunSorted(s: State, ops: seq<Op>)
    requires Sorted(s.queue)
    ensures Sorted(Run(s, ops).queue)
    decreases ops
  {
    hide Sorted, Step;
    if ops != [] {
      StepSorted(s, ops[0]);
      RunSorted(Step(s, ops[0]), ops[1..]);
    }
  }

  /** No event is queued under an identifier that is still pending. */
  predicate NeverReused(s: State, ops: seq<Op>)
    decreases ops
  {
    ops != [] ==>
      && (ops[0].Queue? ==> Unused(s.queue, s.nextId))
      && NeverReused(Step(s, ops[0]), ops[1..])
  }

  /** Some step of a run leaves two pending events with one identifier. */
  predicate EverClashes(s: State, ops: seq<Op>)
    decreases ops
  {
    !DistinctIds(s.queue) || (ops != [] && EverClashes(Step(s, ops[0]), ops[1..]))
  }

  /** Throughout a run identifiers stay distinct exactly if none is handed out while it is pending. */
  lemma {:induction false} RunIds(s: State, ops: seq<Op>)
    requires Sorted(s.queue) && DistinctIds(s.queue)
    ensures EverClashes(s, ops) <==> !NeverReused(s, ops)
    decreases ops
  {
    hide Sorted, DistinctIds, Unused, Step;
    if ops != [] {
      StepIds(s, ops[0]);
      StepSorted(s, ops[0]);
      if ops[0].Queue? ==> Unused(s.queue, s.nextId) {
        RunIds(Step(s, ops[0]), ops[1..]);
      }
    }
  }

  /** Fewer than 2^32 queueings never reuse an identifier. */
  lemma {:induction false} ShortRunsNeverReuse(s: State, ops: seq<Op>)
    requires Sorted(s.queue) && IdsBelow(s.queue, s.nextId) && 0 <= s.nextId
    requires s.nextId + Queued(ops) < 0x1_0000_0000
    ensures NeverReused(s, ops)
    ensures Run(s, ops).nextId == s.nextId + Queued(ops) && IdsBelow(Run(s, ops).queue, Run(s, ops).nextId)
    decreases ops
  {
    if ops != [] {
      StepIdsBelow(s, ops[0]);
      StepSorted(s, ops[0]);
      hide Sorted, IdsBelow, Unused, Step;
      ShortRunsNeverReuse(Step(s, ops[0]), ops[1..]);
    }
  }

  lemma StepIdsBelow(s: State, op: Op)
    requires Sorted(s.queue) && IdsBelow(s.queue, s.nextId) && 0 <= s.nextId
    requires op.Queue? ==> s.nextId + 1 < 0x1_0000_0000
    ensures Unused(s.queue, s.nextId)
    ensures Step(s, op).nextId == s.nextId + if op.Queue? then 1 else 0
    ensures IdsBelow(Step(s, op).queue, Step(s, op).nextId)
  {
    hide Sorted, Inserted, Find, Without, Due, UpTo, Later, ApplyAll;
    match op
    case Queue(when, what) => InsertedIdsBelow(s.queue, Event(when, s.nextId, what), s.nextId + 1);
    case Execute(id) => RestIds(s.queue, Find(s.queue, id), s.nextId);
    case Remove(id) => RestIds(s.queue, Find(s.queue, id), s.nextId);
    case Service(now) =>
      DueIsUpTo(s.queue, now);
      RestIds(s.queue, Due(s.queue, now), s.nextId);
  }

  /** While identifiers are distinct, the identifier of a pending event finds that event. */
  lemma IdNamesEvent(q: seq<Event>, k: nat)
    requires DistinctIds(q) && k < |q|
    ensures Find(q, q[k].id) == k
  {
    hide Find;
    var f := Find(q, q[k].id);
    assert f <= k;
  }

  /** Removing an event just queued leaves the queue as it was, and executing it does so and applies its
      action, exactly if no earlier event is pending under the same identifier. */
  lemma QueueThenTakeBack(s: State, when: int, what: Action)
    ensures var t, id := Step(s, Queue(when, what)), s.nextId;
            && (Step(t, Remove(id)).queue == s.queue <==> Unused(s.queue[..Position(s.queue, when)], id))
            && (Unused(s.queue[..Position(s.queue, when)], id) ==>
                  Step(t, Remove(id)) == State(s.queue, t.nextId, s.store)
                  && Step(t, Execute(id)) == State(s.queue, t.nextId, Apply(s.store, what)))
  {
    hide Find, Apply, Without, Position;
    var e := Event(when, s.nextId, what);
    var q, k := s.queue, Position(s.queue, when);
    var r := Inserted(q, e);
    assert r == q[..k] + [e] + q[k..];
    hide Inserted;
    if Unused(q[..k], e.id) {
      FoundAtPlace(q, e, k);
    } else {
      OtherFoundFirst(q, e, k);
    }
  }

  lemma FoundAtPlace(q: seq<Event>, e: Event, k: nat)
    requires k <= |q| && Unused(q[..k], e.id)
    ensures var r := q[..k] + [e] + q[k..]; Find(r, e.id) == k && Without(r, k) == q && r[k] == e
  {
    var r := q[..k] + [e] + q[k..];
    assert forall i :: 0 <= i < k ==> r[i] == q[..k][i];
    hide Find;
    assert r[k] == e;
  }

  lemma OtherFoundFirst(q: seq<Event>, e: Event, k: nat)
    requires k <= |q| && !Unused(q[..k], e.id) && forall i :: 0 <= i < k ==> q[i].when < e.when
    ensures var r := q[..k] + [e] + q[k..]; Find(r, e.id) < k && Without(r, Find(r, e.id)) != q
  {
    var r := q[..k] + [e] + q[k..];
    var f := Find(r, e.id);
    assert f < k by {
      var j :| 0 <= j < k && q[..k][j].id == e.id;
      assert r[j] == q[j];
    }
    hide Find;
    assert r[f] == q[f] && q[f].when < e.when;
    assert k > 0 && Without(r, f)[k - 1] == e;
  }

  // ---- Nothing is lost ---------------------------------------------------------------------------

  /** The events that one step queues, and those that it takes off the queue. */
  function Arriving(s: State, op: Op): multiset<Event>
  {
    if op.Queue? then multiset{Event(op.when, s.nextId, op.what)} else multiset{}
  }

  function Leaving(s: State, op: Op): multiset<Event>
  {
    match op
    case Queue(_, _) => multiset{}
    case Execute(id) =>
      var k := Find(s.queue, id); if k < |s.queue| then multiset{s.queue[k]} else multiset{}
    case Remove(id) =>
      var k := Find(s.queue, id); if k < |s.queue| then multiset{s.queue[k]} else multiset{}
    case Service(now) => multiset(UpTo(s.queue, now))
  }

  function Arrivals(s: State, ops: seq<Op>): multiset<Event>
    decreases ops
  {
    if ops == [] then multiset{} else Arriving(s, ops[0]) + Arrivals(Step(s, ops[0]), ops[1..])
  }

  function Departures(s: State, ops: seq<Op>): multiset<Event>
    decreases ops
  {
    if ops == [] then multiset{} else Leaving(s, ops[0]) + Departures(Step(s, ops[0]), ops[1..])
  }

  lemma {:induction false} UpToAndLater(q: seq<Event>, now: int)
    ensures multiset(UpTo(q, now)) + multiset(Later(q, now)) == multiset(q)
  {
    if q != [] {
      UpToAndLater(q[1..], now);
      assert q == [q[0]] + q[1..];
    }
  }

  lemma StepConserves(s: State, op: Op)
    ensures multiset(Step(s, op).queue) + Leaving(s, op) == multiset(s.queue) + Arriving(s, op)
  {
    hide Inserted, Find, Without, UpTo, Later, ApplyAll;
    match op
    case Queue(when, what) => InsertedKeepsAll(s.queue, Event(when, s.nextId, what));
    case Execute(id) => if Find(s.queue, id) < |s.queue| { WithoutTakesOne(s.queue, Find(s.queue, id)); }
    case Remove(id) => if Find(s.queue, id) < |s.queue| { WithoutTakesOne(s.queue, Find(s.queue, id)); }
    case Service(now) => UpToAndLater(s.queue, now);
  }

  /** Over every run each event queued is still pending or has left exactly once, by being executed, removed
      or served. */
  lemma {:induction false} RunConserves(s: State, ops: seq<Op>)
    ensures multiset(Run(s, ops).queue) + Departures(s, ops) == multiset(s.queue) + Arrivals(s, ops)
    decreases ops
  {
    hide Step, Arriving, Leaving;
    if ops != [] {
      var s' := Step(s, ops[0]);
      StepConserves(s, ops[0]);
      RunConserves(s', ops[1..]);
      var x, y := Departures(s', ops[1..]), Arrivals(s', ops[1..]);
      assert Departures(s, ops) == Leaving(s, ops[0]) + x && Arrivals(s, ops) == Arriving(s, ops[0]) + y;
      assert Run(s, ops) == Run(s', ops[1..]);
      hide *;
      BalanceAdds(multiset(s.queue), multiset(s'.queue), multiset(Run(s, ops).queue),
                  Arriving(s, ops[0]), Leaving(s, ops[0]), y, x);
    }
  }

  lemma BalanceAdds(q: multiset<Event>, q': multiset<Event>, r: multiset<Event>,
                    a: multiset<Event>, l: multiset<Event>, y: multiset<Event>, x: multiset<Event>)
    requires q' + l == q + a && r + x == q' + y
    ensures r + (l + x) == q + (a + y)
  {
    assert r + (l + x) == (r + x) + l == (q' + l) + y;
  }

  // ---- What the actions come to -------------------------------------------------------------------

  /** A bit after some events: what the last one that sets or clears it says. */
  predicate BitAfter(start: bool, es: seq<Event>, m: int, b: int)
  {
    if es == [] then start
    else
      var a := es[|es| - 1].action;
      if a == SetBit(m, b) then true else if a == ClearBit(m, b) then false else BitAfter(start, es[..|es| - 1], m, b)
  }

  /** A cell after some events: the last value it was set to, or else its start, and what was added since. */
  function CellAfter(start: int, es: seq<Event>, c: int): int
  {
    if es == [] then start
    else
      var a, before := es[|es| - 1].action, es[..|es| - 1];
      match a
      case SetFlag(d, v) => if d == c then v else CellAfter(start, before, c)
      case AddOp(d, v) => CellAfter(start, before, c) + if d == c then v else 0
      case _ => CellAfter(start, before, c)
  }

  lemma {:induction false} ApplyLast(s: Store, es: seq<Event>, e: Event)
    ensures ApplyAll(s, es + [e]) == Apply(ApplyAll(s, es), e.action)
    decreases es
  {
    hide Apply;
    if es == [] {
      assert [e][1..] == [];
      assert ApplyAll(Apply(s, e.action), []) == Apply(s, e.action);
    } else {
      assert (es + [e])[1..] == es[1..] + [e];
      ApplyLast(Apply(s, es[0].action), es[1..], e);
    }
  }

  /** What the events performed, in order, leave in every bit and every cell. */
  lemma {:induction false} ActionsMean(s: Store, es: seq<Event>)
    ensures forall m, b :: (m, b) in ApplyAll(s, es).bits <==> BitAfter((m, b) in s.bits, es, m, b)
    ensures forall c :: Cell(ApplyAll(s, es), c) == CellAfter(if c in s.cells then s.cells[c] else 0, es, c)
    decreases |es|
  {
    if es != [] {
      var before, last := es[..|es| - 1], es[|es| - 1];
      ActionsMean(s, before);
      ApplyLast(s, before, last);
      hide ApplyAll;
      assert before + [last] == es;
    }
  }

  /** Identifiers are given out in order, and start again from 0 after 4294967295. */
  lemma NextIdentifier(s: State, op: Op)
    requires 0 <= s.nextId <= 4_294_967_295
    ensures Step(s, op).nextId ==
            if !op.Queue? then s.nextId else if s.nextId == 4_294_967_295 then 0 else s.nextId + 1
  {
    hide Inserted, Apply, ApplyAll, Find, Due, Without;
  }
}

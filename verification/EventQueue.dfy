// The event queue of Lab1-Hazards/eventq.c as the code keeps it: a list of pending descriptors in time
// order and a list of free ones.
module EventQueue {
  import opened Events

  class Desc {
    var next: Desc?
    var when: int
    var id: int
    var action: Action

    /** A zeroed record. */
    constructor ()
      ensures next == null
    {
      next, when, id, action := null, 0, 0, SetBit(0, 0);
    }

    ghost function AsEvent(): Event
      reads `when, `id, `action
    {
      Event(when, id, action)
    }
  }

  ghost function Head(c: seq<Desc>): Desc?
  {
    if c == [] then null else c[0]
  }

  ghost function Following(c: seq<Desc>, i: nat): Desc?
    requires i < |c|
  {
    if i + 1 < |c| then c[i + 1] else null
  }

  ghost predicate Distinct(c: seq<Desc>)
  {
    forall i, j :: 0 <= i < j < |c| ==> c[i] != c[j]
  }

  /** The list that starts at head runs through exactly c, once, and ends. */
  ghost predicate Linked(c: seq<Desc>, head: Desc?)
    reads c`next
  {
    && head == Head(c)
    && Distinct(c)
    && forall i {:trigger c[i].next} :: 0 <= i < |c| ==> c[i].next == Following(c, i)
  }

  /** Every descriptor is on exactly one of the two lists. */
  ghost predicate Parted(w: seq<Desc>, i: seq<Desc>, all: set<Desc>)
  {
    && (forall n <- w :: n in all && n !in i)
    && (forall n <- i :: n in all)
    && (forall n <- all :: n in w || n in i)
  }

  /** A list with d put in at position k, and a list without its element k. */
  ghost function Spliced(c: seq<Desc>, k: nat, d: Desc): seq<Desc>
    requires k <= |c|
  {
    c[..k] + [d] + c[k..]
  }

  ghost function Dropped(c: seq<Desc>, k: nat): (r: seq<Desc>)
    requires k < |c|
    ensures |r| == |c| - 1
  {
    c[..k] + c[k + 1..]
  }

  lemma PartedInsert(w: seq<Desc>, d: Desc, k: nat, i: seq<Desc>, all: set<Desc>)
    requires Parted(w, i, all - {d}) && d in all && d !in i && k <= |w|
    ensures Parted(Spliced(w, k, d), i, all)
  {
    assert w == w[..k] + w[k..];
    assert forall n :: n in Spliced(w, k, d) <==> n in w || n == d;
  }

  lemma PartedRemove(w: seq<Desc>, k: nat, i: seq<Desc>, all: set<Desc>)
    requires Parted(w, i, all) && Distinct(w) && k < |w|
    ensures w[k] in all && w[k] !in Dropped(w, k) && w[k] !in i && Parted(Dropped(w, k), i, all - {w[k]})
    ensures forall n <- i :: n !in w
  {
    assert w == w[..k] + [w[k]] + w[k + 1..];
    assert forall n :: n in w <==> n in Dropped(w, k) || n == w[k];
  }

  lemma OffIdle(w: seq<Desc>, i: seq<Desc>, all: set<Desc>)
    requires Parted(w, i, all)
    ensures forall n <- i :: n !in w
  {
  }

  lemma DistinctLinked(c: seq<Desc>, head: Desc?)
    requires Linked(c, head)
    ensures Distinct(c)
  {
  }

  lemma PartedFree(w: seq<Desc>, d: Desc, i: seq<Desc>, all: set<Desc>)
    requires Parted(w, i, all - {d}) && d in all && d !in w
    ensures Parted(w, [d] + i, all)
  {
    assert forall n :: n in [d] + i <==> n in i || n == d;
  }

  ghost function EventsOf(c: seq<Desc>): (r: seq<Event>)
    reads c`when, c`id, c`action
    ensures |r| == |c|
    ensures forall i :: 0 <= i < |c| ==> r[i] == c[i].AsEvent()
  {
    if c == [] then [] else [c[0].AsEvent()] + EventsOf(c[1..])
  }

  lemma EventsInserted(c: seq<Desc>, d: Desc, k: nat)
    requires k == Position(EventsOf(c), d.when)
    ensures EventsOf(Spliced(c, k, d)) == Inserted(EventsOf(c), d.AsEvent())
  {
    hide EventsOf, Position;
  }

  lemma EventsWithout(c: seq<Desc>, k: nat)
    requires k < |c|
    ensures EventsOf(Dropped(c, k)) == Without(EventsOf(c), k)
  {
    hide EventsOf;
    var l, r := EventsOf(Dropped(c, k)), Without(EventsOf(c), k);
    forall i | 0 <= i < |c| - 1
      ensures l[i] == r[i]
    {
      assert Dropped(c, k)[i] == c[if i < k then i else i + 1];
    }
  }

  class EventQueue {
    var pending: Desc?
    var free: Desc?
    var nextId: int
    var store: Store

    /** The limit on pending events, 0 for none, and the count that is compared with it. Nothing ever
        changes the count. */
    const maxEvents: int
    var eventCount: int

    /** The two lists, and every descriptor ever allocated. */
    ghost var waiting: seq<Desc>
    ghost var idle: seq<Desc>
    ghost var descriptors: set<Desc>

    ghost predicate Lists()
      reads `waiting, `pending, `idle, `free, `descriptors, waiting`next, idle`next
    {
      && Linked(waiting, pending)
      && Linked(idle, free)
      && Parted(waiting, idle, descriptors)
    }

    /** Descriptor d is off both lists; all others are on them. */
    ghost predicate InHand(d: Desc)
      reads `waiting, `pending, `idle, `free, `descriptors, waiting`next, idle`next
    {
      && Linked(waiting, pending)
      && Linked(idle, free)
      && d !in waiting && d !in idle && d in descriptors
      && Parted(waiting, idle, descriptors - {d})
    }

    ghost predicate Valid()
      reads this, waiting, idle
    {
      && Lists()
      && Sorted(Queue())
      && 0 <= nextId < 0x1_0000_0000
      && eventCount == 0
    }

    /** The events that are to happen, in order. */
    ghost function Queue(): (q: seq<Event>)
      reads `waiting, waiting`when, waiting`id, waiting`action
      ensures |q| == |waiting|
    {
      EventsOf(waiting)
    }

    constructor (maxEvents: int, store: Store)
      ensures Valid() && Queue() == [] && this.store == store && nextId == 1
      ensures descriptors == {} && this.maxEvents == maxEvents
    {
      pending, free, nextId := null, null, 1;
      this.maxEvents, eventCount := maxEvents, 0;
      this.store := store;
      waiting, idle, descriptors := [], [], {};
    }

    /** Take a descriptor off the free list, first allocating one if the list is empty. */
    method TakeFree() returns (d: Desc)
      requires Lists()
      modifies `free, `idle, `descriptors
      ensures InHand(d) && Queue() == old(Queue())
      ensures idle == if old(idle) == [] then [] else old(idle)[1..]
      ensures if old(idle) == [] then fresh(d) && descriptors == old(descriptors) + {d}
              else d == old(idle)[0] && descriptors == old(descriptors)
    {
      if free == null {
        free := new Desc();
        idle := [free];
        descriptors := descriptors + {free};
      }
      d := free;
      free := free.next;
      idle := idle[1..];
    }

    /** Link d into the pending list after prev, or at the head. */
    method Link(prev: Desc?, d: Desc, ghost k: nat)
      requires Linked(waiting, pending) && d !in waiting
      requires k <= |waiting| && prev == if k == 0 then null else waiting[k - 1]
      modifies `pending, `waiting, waiting`next, d`next
      ensures waiting == Spliced(old(waiting), k, d)
      ensures Linked(waiting, pending)
    {
      if prev != null {
        d.next := prev.next;
        prev.next := d;
      } else {
        d.next := pending;
        pending := d;
      }
      waiting := Spliced(waiting, k, d);
    }

    /** Unlink ev, which follows prev or is at the head. */
    method Unlink(prev: Desc?, ev: Desc, ghost k: nat)
      requires Linked(waiting, pending) && Linked(idle, free)
      requires forall n <- idle :: n !in waiting
      requires k < |waiting| && ev == waiting[k] && prev == if k == 0 then null else waiting[k - 1]
      modifies `pending, `waiting, waiting`next
      ensures waiting == Dropped(old(waiting), k)
      ensures Linked(waiting, pending) && Linked(idle, free)
      ensures ev !in waiting
    {
      if prev != null {
        prev.next := ev.next;
      } else {
        pending := ev.next;
      }
      waiting := Dropped(waiting, k);
      assert forall n <- idle :: n.next == old(n.next);
    }

    /** Unlinking takes the event off the queue and its descriptor in hand. */
    method Detach(prev: Desc?, ev: Desc, ghost k: nat)
      requires Lists()
      requires k < |waiting| && ev == waiting[k] && prev == if k == 0 then null else waiting[k - 1]
      modifies `pending, `waiting, waiting`next
      ensures waiting == Dropped(old(waiting), k)
      ensures InHand(ev)
      ensures Queue() == Without(old(Queue()), k)
    {
      hide Parted, EventsOf, Linked, Without, Dropped;
      ghost var w := waiting;
      DistinctLinked(w, pending);
      PartedRemove(w, k, idle, descriptors);
      Unlink(prev, ev, k);
      EventsWithout(w, k);
    }

    /** Put ev on the free list. */
    method Release(ev: Desc)
      requires InHand(ev)
      modifies `free, `idle, ev`next
      ensures idle == [ev] + old(idle)
      ensures Lists()
    {
      PartedFree(waiting, ev, idle, descriptors);
      hide Parted;
      assert forall n <- waiting :: n != ev;
      ev.next := free;
      free := ev;
      idle := [ev] + idle;
      assert forall n <- waiting :: n.next == old(n.next);
    }

    /** Move an event's descriptor from the queue to the free list. */
    method Retire(prev: Desc?, ev: Desc, ghost k: nat)
      requires Lists()
      requires k < |waiting| && ev == waiting[k] && prev == if k == 0 then null else waiting[k - 1]
      modifies `pending, `waiting, `free, `idle, waiting`next
      ensures Lists()
      ensures waiting == Dropped(old(waiting), k)
      ensures Queue() == Without(old(Queue()), k)
    {
      hide *;
      Detach(prev, ev, k);
      Release(ev);
    }

    ghost function AsState(): State
      reads this, waiting
    {
      State(Queue(), nextId, store)
    }

    /** Walk to the insertion point: the event that the new one follows. */
    method Locate(when: int) returns (prev: Desc?, ghost k: nat)
      requires Linked(waiting, pending)
      ensures k == Position(Queue(), when)
      ensures prev == if k == 0 then null else waiting[k - 1]
    {
      hide Position, Distinct;
      ghost var q := Queue();
      assert forall i :: 0 <= i < |q| ==> q[i].when == waiting[i].when;
      hide Queue, EventsOf;
      prev, k := null, 0;
      var ev := pending;
      while ev != null && ev.when < when
        invariant k <= |waiting|
        invariant prev == if k == 0 then null else waiting[k - 1]
        invariant ev == if k < |waiting| then waiting[k] else null
        invariant forall i :: 0 <= i < k ==> q[i].when < when
        decreases |waiting| - k
      {
        prev, ev := ev, ev.next;
        k := k + 1;
      }
      PositionUnique(q, when, k);
    }

    /** Find the place of a filled descriptor and link it there. */
    method LinkInOrder(d: Desc) returns (ghost k: nat)
      requires Linked(waiting, pending) && Linked(idle, free)
      requires d !in waiting && d !in idle
      requires forall n <- idle :: n !in waiting
      modifies `pending, `waiting, waiting`next, d`next
      ensures Linked(waiting, pending) && Linked(idle, free)
      ensures k == Position(old(Queue()), d.when)
      ensures waiting == Spliced(old(waiting), k, d)
    {
      hide Position, EventsOf;
      var prev;
      prev, k := Locate(d.when);
      Link(prev, d, k);
      assert forall n <- idle :: n.next == old(n.next);
    }

    method Place(d: Desc)
      requires InHand(d)
      requires Sorted(Queue())
      modifies `pending, `waiting, waiting`next, d`next
      ensures Lists()
      ensures Queue() == Inserted(old(Queue()), d.AsEvent())
      ensures Sorted(Queue())
    {
      hide Linked, Parted, Sorted, Position, Inserted, EventsOf, Spliced;
      ghost var w, q := waiting, Queue();
      OffIdle(w, idle, descriptors - {d});
      var k := LinkInOrder(d);
      PartedInsert(w, d, k, idle, descriptors);
      EventsInserted(w, d, k);
      InsertedIsSorted(q, d.AsEvent());
    }

    /** Queue an action for a time: before all events of that time already pending. Since no event is ever
        counted, the limit stops the program exactly if it is negative, and then only when a descriptor has
        to be allocated. */
    method Enqueue(when: int, what: Action) returns (tooMany: bool, id: int)
      requires Valid()
      modifies this, waiting`next, idle
      ensures Valid()
      ensures tooMany <==> old(idle) == [] && maxEvents < 0
      ensures tooMany ==> AsState() == old(AsState()) && descriptors == old(descriptors)
      ensures !tooMany ==> id == old(nextId) && AsState() == Step(old(AsState()), Op.Queue(when, what))
      ensures fresh(descriptors - old(descriptors))
      ensures old(idle) != [] ==> descriptors == old(descriptors)
      ensures |idle| == if old(idle) == [] then 0 else |old(idle)| - 1
    {
      NoneFree();
      if free == null && maxEvents != 0 && eventCount >= maxEvents {
        return true, 0;
      }
      tooMany := false;
      id := Accept(when, what);
    }

    lemma NoneFree()
      requires Lists()
      ensures free == null <==> idle == []
    {
    }

    method Accept(when: int, what: Action) returns (id: int)
      requires Valid()
      modifies this, waiting`next, idle
      ensures Valid()
      ensures id == old(nextId)
      ensures AsState() == Step(old(AsState()), Op.Queue(when, what))
      ensures fresh(descriptors - old(descriptors))
      ensures old(idle) != [] ==> descriptors == old(descriptors)
      ensures |idle| == if old(idle) == [] then 0 else |old(idle)| - 1
    {
      hide Lists, InHand, Queue, Sorted, Inserted;
      var d := TakeFree();
      Fill(d, when, nextId, what);
      id := nextId;
      nextId := (nextId + 1) % 0x1_0000_0000;
      Place(d);
    }

    /** Plug event data into a descriptor in hand. */
    method Fill(d: Desc, when: int, id: int, what: Action)
      requires InHand(d)
      modifies d`when, d`id, d`action
      ensures InHand(d) && Queue() == old(Queue())
      ensures d.AsEvent() == Event(when, id, what)
    {
      hide Linked, Parted, EventsOf;
      d.when, d.id, d.action := when, id, what;
    }

    /** Walk to the first pending event with identifier id. */
    method Search(id: int) returns (prev: Desc?, ev: Desc?, ghost k: nat)
      requires Linked(waiting, pending)
      ensures k == Find(Queue(), id)
      ensures prev == if k == 0 then null else waiting[k - 1]
      ensures ev == if k < |waiting| then waiting[k] else null
    {
      prev, ev, k := null, pending, 0;
      while ev != null && ev.id != id
        invariant k <= |waiting|
        invariant prev == if k == 0 then null else waiting[k - 1]
        invariant ev == if k < |waiting| then waiting[k] else null
        invariant forall i :: 0 <= i < k ==> Queue()[i].id != id
        decreases |waiting| - k
      {
        prev, ev := ev, ev.next;
        k := k + 1;
      }
      FindUnique(Queue(), id, k);
    }

    /** Take event k off the queue, perform it and free its descriptor. */
    method Perform(prev: Desc?, ev: Desc, ghost k: nat)
      requires Valid()
      requires k < |waiting| && ev == waiting[k] && prev == if k == 0 then null else waiting[k - 1]
      modifies this, waiting`next
      ensures Valid()
      ensures AsState() == State(Without(old(Queue()), k), old(nextId), Apply(old(store), old(Queue())[k].action))
      ensures descriptors == old(descriptors)
      ensures waiting == Dropped(old(waiting), k)
    {
      hide Lists, InHand, Queue, Sorted, Without, Apply, Dropped;
      EventAt(k);
      SortedWithout(Queue(), k);
      Detach(prev, ev, k);
      store := Apply(store, ev.action);
      Release(ev);
    }

    lemma EventAt(k: nat)
      requires k < |waiting|
      ensures Queue()[k] == waiting[k].AsEvent()
    {
    }

    /** Perform an event now, whatever its time. */
    method Execute(id: int) returns (found: bool)
      requires Valid()
      modifies this, waiting`next
      ensures Valid()
      ensures AsState() == Step(old(AsState()), Op.Execute(id))
      ensures found == (Find(old(Queue()), id) < |old(Queue())|)
      ensures descriptors == old(descriptors)
    {
      hide Linked, Parted, Sorted, EventsOf, Find, Without, Apply;
      var prev, ev, k := Search(id);
      if ev == null {
        return false;
      }
      hide Lists, Queue;
      Perform(prev, ev, k);
      return true;
    }

    /** Drop an event; its action is not performed. */
    method Remove(id: int) returns (found: bool)
      requires Valid()
      modifies this, waiting`next
      ensures Valid()
      ensures AsState() == Step(old(AsState()), Op.Remove(id))
      ensures found == (Find(old(Queue()), id) < |old(Queue())|)
      ensures descriptors == old(descriptors)
    {
      hide Linked, Parted, Sorted, EventsOf, Find, Without;
      var prev, ev, k := Search(id);
      if ev == null {
        return false;
      }
      RestSorted(Queue(), k);
      Retire(prev, ev, k);
      return true;
    }

    lemma PendingIsFirst()
      requires Lists()
      ensures pending == null <==> Queue() == []
      ensures pending != null ==> pending == waiting[0] && pending.AsEvent() == Queue()[0]
    {
    }

    lemma DroppedFirst()
      requires waiting != []
      ensures Dropped(waiting, 0) == waiting[1..]
    {
    }

    /** Perform the first pending event and retire it: unlike on request, the action comes first. */
    method ServeFirst()
      requires Valid() && Queue() != []
      modifies this, waiting`next
      ensures Valid()
      ensures AsState() == State(old(Queue())[1..], old(nextId), Apply(old(store), old(Queue())[0].action))
      ensures descriptors == old(descriptors)
      ensures waiting == old(waiting)[1..]
    {
      hide Lists, Queue, Sorted, Without, Apply, Dropped;
      PendingIsFirst();
      WithoutFirst(Queue());
      DroppedFirst();
      var ev := pending;
      store := Apply(store, ev.action);
      Retire(null, ev, 0);
    }

    /** Perform every event that is due, in order. */
    method ServiceEvents(now: int)
      requires Valid()
      modifies this, waiting`next
      ensures Valid()
      ensures AsState() == Step(old(AsState()), Op.Service(now))
      ensures descriptors == old(descriptors)
    {
      hide Lists, Sorted, EventsOf, ApplyAll, Due, Apply, Queue, UpTo, Later;
      ghost var q := Queue();
      ghost var k := 0;
      assert q[..0] == [] && ApplyAll(store, []) == store by { NothingApplied(store); }
      PendingIsFirst();
      while pending != null && pending.when <= now
        invariant Valid() && descriptors == old(descriptors) && nextId == old(nextId)
        invariant k <= |q| && Queue() == q[k..]
        invariant pending == null <==> k == |q|
        invariant pending != null ==> pending.AsEvent() == q[k]
        invariant k <= |old(waiting)| && waiting == old(waiting)[k..]
        invariant store == ApplyAll(old(store), q[..k])
        invariant forall i :: 0 <= i < k ==> q[i].when <= now
        decreases |q| - k
      {
        OneMoreApplied(old(store), q, k);
        assert forall n <- waiting :: n in old(waiting);
        ServeFirst();
        PendingIsFirst();
        k := k + 1;
      }
      DueUnique(q, now, k);
      DueIsUpTo(q, now);
    }
  }

  lemma SortedWithout(q: seq<Event>, k: nat)
    requires Sorted(q) && k < |q|
    ensures Sorted(Without(q, k))
  {
    RestSorted(q, k);
  }

  lemma WithoutFirst(q: seq<Event>)
    requires Sorted(q) && q != []
    ensures Without(q, 0) == q[1..] && Sorted(q[1..])
  {
  }

  lemma NothingApplied(s: Store)
    ensures ApplyAll(s, []) == s
  {
  }

  lemma OneMoreApplied(s: Store, q: seq<Event>, k: nat)
    requires k < |q|
    ensures ApplyAll(s, q[..k + 1]) == Apply(ApplyAll(s, q[..k]), q[k].action)
  {
    ApplyAllAppend(s, q[..k], [q[k]]);
    assert q[..k + 1] == q[..k] + [q[k]];
    assert [q[k]][1..] == [];
  }

  lemma DueUnique(q: seq<Event>, now: int, k: nat)
    requires k <= |q|
    requires forall i :: 0 <= i < k ==> q[i].when <= now
    requires k < |q| ==> q[k].when > now
    ensures k == Due(q, now)
  {
  }

  lemma FindUnique(q: seq<Event>, id: int, k: nat)
    requires k <= |q|
    requires forall i :: 0 <= i < k ==> q[i].id != id
    requires k < |q| ==> q[k].id == id
    ensures k == Find(q, id)
  {
  }

  lemma PositionUnique(q: seq<Event>, when: int, k: nat)
    requires k <= |q|
    requires forall i :: 0 <= i < k ==> q[i].when < when
    requires k < |q| ==> q[k].when >= when
    ensures k == Position(q, when)
  {
  }
}

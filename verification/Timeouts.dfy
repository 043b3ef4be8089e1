/** Timeouts of an event base: a heap, and queues for common durations of which only the first event
    is represented in the heap, by an internal timer. */
module Timeouts {
  import opened Common
  import opened MinHeaps

  /** struct common_timeout_list. */
  class CommonList {
    const duration: int
    const timer: Event
    var events: seq<Event>

    constructor (duration: int, timer: Event)
      ensures this.duration == duration && this.timer == timer && events == []
    {
      this.duration, this.timer, events := duration, timer, [];
    }
  }

  ghost predicate Sorted(s: seq<Event>)
    reads s`timeout
  {
    forall i, j :: 0 <= i < j < |s| ==> s[i].timeout <= s[j].timeout
  }

  lemma SortedCons(x: Event, s: seq<Event>)
    requires Sorted(s) && forall y :: y in s ==> x.timeout <= y.timeout
    ensures Sorted([x] + s)
  {
  }

  lemma {:induction false} WithoutSorted(s: seq<Event>, e: Event)
    requires Distinct(s) && Sorted(s)
    ensures Sorted(RemoveFirst(s, e)) && (RemoveFirst(s, e) != [] ==> s[0].timeout <= RemoveFirst(s, e)[0].timeout)
  {
    if s != [] && s[0] != e {
      var rest := s[1..];
      WithoutSorted(rest, e);
      RemoveFirstMembers(rest, e);
      var r := RemoveFirst(rest, e);
      RemoveFirstIn(rest, e);
      forall y | y in r ensures s[0].timeout <= y.timeout {
        var i :| 0 <= i < |rest| && rest[i] == y;
        assert s[i + 1] == y;
      }
      SortedCons(s[0], RemoveFirst(rest, e));
    }
  }

  /** Where insert_common_timeout_inorder puts an event that is due at `t`: behind the last one that is
      not due later. */
  function InsertPos(s: seq<Event>, t: int): (k: nat)
    reads s`timeout
    ensures k <= |s| && (k > 0 ==> s[k - 1].timeout <= t) && forall i :: k <= i < |s| ==> s[i].timeout > t
  {
    if s == [] then 0
    else if s[|s| - 1].timeout <= t then |s|
    else InsertPos(s[..|s| - 1], t)
  }

  class Base {
    const heap: MinHeap
    var lists: seq<CommonList>
    var queue: seq<Event>     // the active events
    var running: int          // list whose timer has been taken off the queue to run, or -1
    var eventTv: int          // the time of the last check
    ghost var all: set<Event>

    constructor (heap: MinHeap)
      requires heap.Valid() && heap.p == []
      ensures this.heap == heap && Valid() && all == {} && lists == [] && running == -1
    {
      this.heap := heap;
      lists, queue, running, eventTv := [], [], -1, 0;
      all := {};
    }

    /** An event is in the heap or on a list just as its fields say. */
    ghost predicate EventOk(e: Event)
      reads this, heap`p, lists`events, e`pending, e`listed, e`heapIdx, e`active
    {
      && (e.pending ==> -1 <= e.listed < |lists|)
      && (e in heap.p <==> e.pending && e.listed == -1)
      && (e.heapIdx == -1 <==> e !in heap.p)
      && (e.pending && e.listed >= 0 ==> e in lists[e.listed].events)
      && (e.active <==> e in queue)
    }

    ghost predicate ListOk(i: nat)
      requires i < |lists|
      reads this, lists`events, lists[i].events
    {
      var l := lists[i];
      && Distinct(l.events) && Sorted(l.events) && (forall e :: e in l.events ==> e in all && e.pending && e.listed == i)
    }

    /** No event of list `i` is due before its timer, or the timer is already on its way. */
    ghost predicate OnTime(i: nat)
      requires i < |lists|
      reads this, lists`events, lists[i].events, lists[i].timer
    {
      var l := lists[i];
      l.events != [] ==> (l.timer.pending && l.timer.timeout <= l.events[0].timeout) || l.timer.active || running == i
    }

    ghost predicate TimersOk()
      reads this, lists`events
    {
      && (forall i, j :: 0 <= i < j < |lists| ==> lists[i].timer != lists[j].timer && lists[i] != lists[j])
      && (forall i :: 0 <= i < |lists| ==> lists[i].timer in all && forall e :: e in lists[i].events ==> e in all)
      && -1 <= running < |lists|
    }

    /** A timer is never on a list itself. */
    ghost predicate TimerFree(i: nat)
      requires i < |lists|
      reads this, lists[i].timer`listed
    {
      lists[i].timer.listed == -1
    }

    ghost predicate Core()
      reads this, heap, heap.p, lists, all
    {
      && heap.Valid() && Distinct(queue) && TimersOk()
      && (forall e :: e in heap.p ==> e in all) && (forall e :: e in queue ==> e in all)
      && (forall e :: e in all ==> EventOk(e))
      && (forall i: nat :: i < |lists| ==> ListOk(i) && TimerFree(i))
    }

    ghost predicate Valid()
      reads this, heap, heap.p, lists, all
    {
      Core() && forall i: nat :: i < |lists| ==> OnTime(i)
    }

    lemma ListsApart(i: nat)
      requires Core() && i < |lists|
      ensures forall j :: 0 <= j < |lists| && j != i ==> lists[j] != lists[i]
    {
    }

    lemma OfList(i: nat)
      requires Core() && i < |lists|
      ensures Distinct(lists[i].events) && Sorted(lists[i].events)
    {
      assert ListOk(i);
    }

    lemma ListIs(i: nat)
      requires Core() && i < |lists|
      ensures ListOk(i) && lists[i].timer in all && TimerFree(i)
    {
    }

    /** Takes an event off its list. */
    method FromList(e: Event, l: CommonList)
      requires Core() && e in all && e.pending && e.listed >= 0 && l == lists[e.listed]
      modifies e`pending, l`events
      ensures Core() && !e.pending && l.events == RemoveFirst(old(l.events), e)
      ensures old(OnTime(e.listed)) ==> OnTime(e.listed)
    {
      hide MinHeap.Valid, Sorted, Distinct, RemoveFirst;
      ListIs(e.listed);
      OfList(e.listed);
      RemoveFirstMembers(l.events, e);
      WithoutSorted(l.events, e);
      e.pending := false;
      l.events := RemoveFirst(l.events, e);
      forall j: nat | j < |lists| ensures ListOk(j) && TimerFree(j) {
        assert old(ListOk(j) && TimerFree(j));
      }
      forall x | x in all ensures EventOk(x) {
        assert old(EventOk(x));
      }
    }

    /** Takes an event out of the heap. */
    method FromHeap(e: Event)
      requires Core() && e in all && e.pending && e.listed == -1
      modifies heap, heap.p`heapIdx, e`heapIdx, e`pending
      ensures Core() && !e.pending && |heap.p| == old(|heap.p|) - 1
      ensures forall x :: x in heap.p <==> x in old(heap.p) && x != e
    {
      assert EventOk(e);
      var _ := heap.Erase(e);
      e.pending := false;
      forall j: nat | j < |lists| ensures ListOk(j) && TimerFree(j) {
        assert old(ListOk(j) && TimerFree(j));
      }
      forall x | x in all ensures EventOk(x) {
        assert old(EventOk(x));
      }
    }

    /** An event is on no list but the one that its field names, and that only while it is pending. */
    lemma OnNoOther(e: Event)
      requires Core() && e in all
      ensures forall j: nat :: j < |lists| && !(e.pending && e.listed == j) ==> RemoveFirst(lists[j].events, e) == lists[j].events
    {
      forall j: nat | j < |lists| && !(e.pending && e.listed == j) ensures RemoveFirst(lists[j].events, e) == lists[j].events {
        ListIs(j);
        NotIn(lists[j].events, e);
      }
    }

    /** event_queue_remove for timeouts. */
    method Unschedule(e: Event)
      requires Core() && e in all && e.pending
      modifies heap, heap.p`heapIdx, e`heapIdx, e`pending, lists`events
      ensures Core() && !e.pending && 0 <= e.listed + 1 <= |lists|
      ensures e.listed == -1 ==> |heap.p| == old(|heap.p|) - 1
      ensures forall x :: x in heap.p <==> x in old(heap.p) && x != e
      ensures e.listed == -1 ==> forall j :: 0 <= j < |lists| ==> lists[j].events == old(lists[j].events)
      ensures forall j: nat :: j < |lists| ==> lists[j].events == RemoveFirst(old(lists[j].events), e)
      ensures forall j: nat :: j < |lists| && old(OnTime(j)) && lists[j].timer != e ==> OnTime(j)
    {
      hide RemoveFirst;
      assert EventOk(e);
      OnNoOther(e);
      if e.listed >= 0 {
        ListIs(e.listed);
        ListsApart(e.listed);
        FromList(e, lists[e.listed]);
        forall j: nat | j < |lists| && old(OnTime(j)) && lists[j].timer != e ensures OnTime(j) {
          ListIs(j);
        }
      } else {
        FromHeap(e);
        forall j: nat | j < |lists| && old(OnTime(j)) && lists[j].timer != e ensures OnTime(j) {
          ListIs(j);
        }
      }
    }

    /** event_queue_remove for active events. */
    method Deactivate(e: Event)
      requires Core() && e in all && e.active
      modifies this`queue, e`active
      ensures Core() && !e.active && queue == RemoveFirst(old(queue), e)
      ensures forall j: nat :: j < |lists| && old(OnTime(j)) && lists[j].timer != e ==> OnTime(j)
    {
      assert EventOk(e);
      RemoveFirstMembers(queue, e);
      queue := RemoveFirst(queue, e);
      e.active := false;
      forall j: nat | j < |lists| ensures ListOk(j) && TimerFree(j) {
        assert old(ListOk(j) && TimerFree(j));
      }
      forall x | x in all ensures EventOk(x) {
        assert old(EventOk(x));
      }
    }

    /** event_active_nolock with EV_TIMEOUT: an event that is active already keeps its place. */
    method Activate(e: Event)
      requires Core() && e in all
      modifies this`queue, e`active, e`timedOut
      ensures Core() && e.active && e.timedOut
      ensures queue == if old(e.active) then old(queue) else old(queue) + [e]
      ensures forall j: nat :: j < |lists| && (old(OnTime(j)) || lists[j].timer == e) ==> OnTime(j)
    {
      hide HeapOk, Sorted, Distinct;
      assert EventOk(e);
      if !e.active {
        DistinctSnoc(queue, e);
      }
      e.timedOut := true;
      if !e.active {
        queue := queue + [e];
        e.active := true;
      }
      forall j: nat | j < |lists| ensures ListOk(j) && TimerFree(j) {
        assert old(ListOk(j) && TimerFree(j));
      }
      forall x | x in all ensures EventOk(x) {
        assert old(EventOk(x));
      }
    }

    /** Sets when an event that is not pending is due, and on which list it goes. */
    method SetDue(e: Event, due: int, i: int)
      requires Core() && e in all && !e.pending && -1 <= i < |lists|
      requires i >= 0 ==> !IsTimer(e)
      modifies e`timeout, e`listed
      ensures Core() && e.timeout == due && e.listed == i
      ensures forall j: nat :: j < |lists| && old(OnTime(j)) ==> OnTime(j)
    {
      assert EventOk(e);
      e.timeout, e.listed := due, i;
      forall j: nat | j < |lists| ensures ListOk(j) && TimerFree(j) {
        assert old(ListOk(j) && TimerFree(j));
      }
      forall x | x in all ensures EventOk(x) {
        assert old(EventOk(x));
      }
      forall j: nat | j < |lists| && old(OnTime(j)) ensures OnTime(j) {
        ListIs(j);
        if lists[j].events != [] {
          assert lists[j].events[0] in lists[j].events;
        }
      }
    }

    ghost predicate IsTimer(e: Event)
      reads this`lists
    {
      exists j :: 0 <= j < |lists| && lists[j].timer == e
    }

    /** Puts an event into the heap. */
    method ToHeap(e: Event)
      requires Core() && e in all && !e.pending && e.listed == -1
      modifies heap, heap.p`heapIdx, e`heapIdx, e`pending
      ensures Core() && e.pending
      ensures forall j: nat :: j < |lists| && old(OnTime(j)) ==> OnTime(j)
    {
      assert EventOk(e);
      e.pending := true;
      heap.Push(e);
      forall j: nat | j < |lists| ensures ListOk(j) && TimerFree(j) {
        assert old(ListOk(j) && TimerFree(j));
      }
      forall x | x in all ensures EventOk(x) {
        assert old(EventOk(x));
      }
    }

    /** insert_common_timeout_inorder. */
    method ToList(e: Event, l: CommonList)
      requires Core() && e in all && !e.pending && e.listed >= 0 && e.listed < |lists| && l == lists[e.listed] && !IsTimer(e)
      modifies e`pending, l`events
      ensures Core() && e.pending
      ensures var k := InsertPos(old(l.events), e.timeout);
              l.events == Inserted(old(l.events), e, k)
      ensures forall j: nat :: j < |lists| && old(OnTime(j)) && (j == e.listed ==> l.events[0] != e) ==> OnTime(j)
    {
      hide MinHeap.Valid, OnTime, Sorted, Distinct, Inserted, TimersOk;
      var k := FindPlace(l.events, e.timeout);
      ListIs(e.listed);
      assert EventOk(e);
      Link(e, l, k);
    }

    /** TAILQ_INSERT_AFTER or TAILQ_INSERT_HEAD at place `k`. */
    method Link(e: Event, l: CommonList, k: nat)
      requires Core() && e in all && !e.pending && e.listed >= 0 && e.listed < |lists| && l == lists[e.listed] && !IsTimer(e)
      requires k == InsertPos(l.events, e.timeout) && e !in l.events
      modifies e`pending, l`events
      ensures Core() && e.pending && l.events == Inserted(old(l.events), e, k)
      ensures forall j: nat :: j < |lists| && old(OnTime(j)) && (j == e.listed ==> l.events[0] != e) ==> OnTime(j)
    {
      hide Core, Inserted, InsertPos, Sorted, Distinct;
      OfList(e.listed);
      ListsApart(e.listed);
      LinkIn(e, l, k);
      forall j: nat | j < |lists| && old(OnTime(j)) && (j == e.listed ==> l.events[0] != e) ensures OnTime(j) {
        if j == e.listed {
          FirstInserted(old(l.events), e, k);
        }
      }
    }

    /** The insertion itself. */
    method LinkIn(e: Event, l: CommonList, k: nat)
      requires Core() && e in all && !e.pending && e.listed >= 0 && e.listed < |lists| && l == lists[e.listed] && !IsTimer(e)
      requires k == InsertPos(l.events, e.timeout) && e !in l.events
      modifies e`pending, l`events
      ensures Core() && e.pending && l.events == Inserted(old(l.events), e, k)
    {
      OfList(e.listed);
      InsertedMembers(l.events, e, k);
      InsertedDistinct(l.events, e, k);
      InsertedSorted(l.events, e, k);
      l.events := Inserted(l.events, e, k);
      e.pending := true;
      hide Inserted, InsertPos, Sorted, Distinct, HeapOk;
      forall j: nat | j < |lists| ensures ListOk(j) && TimerFree(j) {
        assert old(ListOk(j) && TimerFree(j));
      }
      forall x | x in all ensures EventOk(x) {
        assert old(EventOk(x));
      }
    }

    /** The part of event_add_internal about timeouts: `e` becomes due at `due`, on list `i` or, for
        -1, in the heap. A timeout that was about to run is taken back. */
    method AddBody(e: Event, due: int, i: int)
      requires Core() && e in all && -1 <= i < |lists| && (i >= 0 ==> !IsTimer(e))
      modifies heap, all`heapIdx, e, lists`events, this`queue
      ensures Core() && e.pending && e.timeout == due && e.listed == i
      ensures queue == if old(e.active && e.timedOut) then RemoveFirst(old(queue), e) else old(queue)
      ensures old(e.listed) == -1 == i ==> forall j :: 0 <= j < |lists| ==> lists[j].events == old(lists[j].events)
      ensures forall j: nat :: j < |lists| && j != i ==> lists[j].events == RemoveFirst(old(lists[j].events), e)
      ensures i >= 0 ==> var rest := RemoveFirst(old(lists[i].events), e);
                         lists[i].events == Inserted(rest, e, InsertPos(rest, due))
      ensures forall j: nat :: j < |lists| && old(OnTime(j)) && lists[j].timer != e && j != i ==> OnTime(j)
      ensures i >= 0 && old(OnTime(i)) ==> lists[i].events != [] && (lists[i].events[0] != e ==> OnTime(i))
    {
      hide Core, OnTime, RemoveFirst, InsertPos, Inserted;
      HeapIn();
      OnNoOther(e);
      if e.pending {
        Unschedule(e);
      }
      HeapIn();
      if e.active && e.timedOut {
        Deactivate(e);
      }
      SetDue(e, due, i);
      if i >= 0 {
        ListsApart(i);
        ToList(e, lists[i]);
        EventIs(e);
      } else {
        ToHeap(e);
      }
      NoTimer(e, i);
    }

    lemma HeapIn()
      requires Core()
      ensures forall x :: x in heap.p ==> x in all
    {
    }

    lemma EventIs(e: Event)
      requires Core() && e in all
      ensures EventOk(e)
    {
    }

    lemma NoTimer(e: Event, i: int)
      requires Core() && -1 <= i < |lists| && (i >= 0 ==> !IsTimer(e))
      ensures i >= 0 ==> lists[i].timer != e
    {
    }

    /** common_timeout_schedule: the timer becomes due with the first event of its list. */
    method Schedule(i: nat)
      requires Core() && i < |lists| && lists[i].events != []
      modifies heap, all`heapIdx, lists[i].timer, lists`events, this`queue
      ensures Core() && OnTime(i) && lists[i].events == old(lists[i].events)
      ensures lists[i].timer.pending && lists[i].timer.timeout == lists[i].events[0].timeout
      ensures queue == old(queue) || queue == RemoveFirst(old(queue), lists[i].timer)
      ensures forall j: nat :: j < |lists| && old(OnTime(j)) ==> OnTime(j)
      ensures forall j :: 0 <= j < |lists| ==> lists[j].events == old(lists[j].events)
    {
      ListIs(i);
      AddBody(lists[i].timer, lists[i].events[0].timeout, -1);
    }

    /** What the base keeps about a timeout, in the event. */
    ghost function Fields(e: Event): (f: (bool, int, int, bool))
      reads e`pending, e`timeout, e`listed, e`active
    {
      (e.pending, e.timeout, e.listed, e.active)
    }

    /** event_add with a timeout: `tv` from now on, on common list `i` or, for -1, in the heap. */
    method AddTimeout(e: Event, tv: int, i: int, now: int)
      requires Valid() && e in all && !IsTimer(e) && -1 <= i < |lists|
      modifies heap, all`heapIdx, e, if 0 <= i < |lists| then {lists[i].timer} else {}, lists`events, this`queue
      ensures Valid() && e.pending && e.timeout == now + tv && e.listed == i
      ensures forall j: nat :: j < |lists| && j != i ==> lists[j].events == RemoveFirst(old(lists[j].events), e)
      ensures i >= 0 ==> var rest := RemoveFirst(old(lists[i].events), e);
                         lists[i].events == Inserted(rest, e, InsertPos(rest, now + tv))
      ensures forall x :: x in all && x != e && (i >= 0 ==> x != lists[i].timer) ==> Fields(x) == old(Fields(x))
    {
      hide Core, OnTime, Valid, RemoveFirst, Inserted, InsertPos, Fields, IsTimer;
      PutIn(e, now + tv, i);
      if i >= 0 {
        ghost var rest := RemoveFirst(old(lists[i].events), e);
        TimerOff(e, i, rest, InsertPos(rest, now + tv));
        ListIs(i);
        FirstDue(e, i);
      }
    }

    /** The event is where it belongs; only the timer of its list may be late. */
    method PutIn(e: Event, due: int, i: int)
      requires Valid() && e in all && !IsTimer(e) && -1 <= i < |lists|
      modifies heap, all`heapIdx, e, lists`events, this`queue
      ensures Core() && e.pending && e.timeout == due && e.listed == i && (i == -1 ==> Valid())
      ensures forall j: nat :: j < |lists| && j != i ==> OnTime(j)
      ensures i >= 0 ==> lists[i].timer != e && lists[i].events != [] && (lists[i].events[0] != e ==> OnTime(i))
      ensures forall j: nat :: j < |lists| && j != i ==> lists[j].events == RemoveFirst(old(lists[j].events), e)
      ensures i >= 0 ==> var rest := RemoveFirst(old(lists[i].events), e);
                         lists[i].events == Inserted(rest, e, InsertPos(rest, due))
      ensures forall x :: x in all && x != e ==> Fields(x) == old(Fields(x))
    {
      hide Core, OnTime, RemoveFirst, Inserted, InsertPos, IsTimer;
      TimersApart(e);
      AddBody(e, due, i);
    }

    /** If `e` has become the first of its list, the timer is set for it. */
    method FirstDue(e: Event, i: nat)
      requires Core() && i < |lists| && lists[i].events != [] && (lists[i].events[0] != e ==> OnTime(i))
      requires forall j: nat :: j < |lists| && j != i ==> OnTime(j)
      modifies heap, all`heapIdx, lists[i].timer, lists`events, this`queue
      ensures Valid() && forall j :: 0 <= j < |lists| ==> lists[j].events == old(lists[j].events)
      ensures forall x :: x in all && x != lists[i].timer ==> Fields(x) == old(Fields(x))
    {
      hide Core, OnTime;
      if lists[i].events[0] == e {
        Schedule(i);
      }
    }

    lemma TimerOff(e: Event, i: nat, rest: seq<Event>, k: nat)
      requires Core() && i < |lists| && k <= |rest| && lists[i].events == Inserted(rest, e, k)
      ensures lists[i].timer !in rest
    {
      ListIs(i);
      InsertedMembers(rest, e, k);
    }

    lemma TimersApart(e: Event)
      requires !IsTimer(e)
      ensures forall j: nat :: j < |lists| ==> lists[j].timer != e
    {
    }

    /** event_del_internal: neither pending nor active any more. */
    method Del(e: Event)
      requires Core() && e in all
      modifies heap, all`heapIdx, e`heapIdx, e`pending, e`active, lists`events, this`queue
      ensures Core() && !e.pending && !e.active
      ensures old(e.pending) && e.listed == -1 ==> |heap.p| == old(|heap.p|) - 1
      ensures forall j: nat :: j < |lists| && old(OnTime(j)) && lists[j].timer != e ==> OnTime(j)
      ensures !old(e.pending) || e.listed == -1 ==> forall j :: 0 <= j < |lists| ==> lists[j].events == old(lists[j].events)
      ensures forall j: nat :: j < |lists| ==> lists[j].events == RemoveFirst(old(lists[j].events), e)
      ensures forall x :: x in heap.p <==> x in old(heap.p) && x != e
      ensures queue == if old(e.active) then RemoveFirst(old(queue), e) else old(queue)
    {
      hide Core, OnTime, RemoveFirst;
      HeapIn();
      OnNoOther(e);
      EventIs(e);
      if e.pending {
        Unschedule(e);
      }
      if e.active {
        Deactivate(e);
      }
      EventIs(e);
    }

    /** event_del for an event of the user. */
    method Delete(e: Event)
      requires Valid() && e in all && !IsTimer(e)
      modifies heap, all`heapIdx, e`heapIdx, e`pending, e`active, lists`events, this`queue
      ensures Valid() && !e.pending && !e.active
      ensures forall x :: x in heap.p <==> x in old(heap.p) && x != e
      ensures forall j: nat :: j < |lists| ==> lists[j].events == RemoveFirst(old(lists[j].events), e)
      ensures queue == if old(e.active) then RemoveFirst(old(queue), e) else old(queue)
      ensures forall x :: x in all && x != e ==> Fields(x) == old(Fields(x))
    {
      hide Core, OnTime, RemoveFirst;
      Del(e);
      TimersApart(e);
    }

    /** timeout_process: activates every event of the heap that is due, earliest first. */
    method Process(now: int) returns (ghost fired: seq<Event>)
      requires Valid()
      modifies heap, all`heapIdx, all`pending, all`active, all`timedOut, lists`events, this`queue
      ensures Valid() && Sorted(fired) && Distinct(fired)
      ensures forall x :: x in fired <==> x in old(heap.p) && x.timeout <= now
      ensures forall x :: x in fired ==> x.active && x.timedOut && !x.pending
      ensures forall x :: x in heap.p <==> x in old(heap.p) && x.timeout > now
      ensures forall j :: 0 <= j < |lists| ==> lists[j].events == old(lists[j].events)
      ensures |fired| <= |queue| && queue[|queue| - |fired|..] == fired
    {
      hide Core, OnTime, MinHeap.Valid, Sorted;
      fired := [];
      NoneSorted();
      while true
        invariant Valid() && Sorted(fired) && Distinct(fired)
        invariant forall x :: x in old(heap.p) <==> x in heap.p || x in fired
        invariant forall x :: x in fired ==> x !in heap.p && x.timeout <= now && x in all
        invariant forall x :: x in fired ==> x.active && x.timedOut && !x.pending
        invariant forall x, y :: x in fired && y in heap.p ==> x.timeout <= y.timeout
        invariant forall j :: 0 <= j < |lists| ==> lists[j].events == old(lists[j].events)
        invariant |fired| <= |queue| && queue[|queue| - |fired|..] == fired
        decreases |heap.p|
      {
        HeapValid();
        HeapIn();
        var e := heap.Top();
        if e == null || e.timeout > now {
          break;
        }
        Fire(e, fired);
        SortedSnoc(fired, e);
        DistinctSnoc(fired, e);
        fired := fired + [e];
      }
    }

    lemma HeapValid()
      requires Core()
      ensures heap.Valid()
    {
    }

    /** Takes an event that is due out of the heap and makes it active. */
    method Fire(e: Event, ghost fired: seq<Event>)
      requires Valid() && e in heap.p && e !in fired && |fired| <= |queue| && queue[|queue| - |fired|..] == fired
      modifies heap, all`heapIdx, e`pending, e`active, e`timedOut, lists`events, this`queue
      ensures Valid() && e.active && e.timedOut && !e.pending && |heap.p| == old(|heap.p|) - 1
      ensures forall x :: x in heap.p <==> x in old(heap.p) && x != e
      ensures forall j :: 0 <= j < |lists| ==> lists[j].events == old(lists[j].events)
      ensures |fired| < |queue| && queue[|queue| - |fired| - 1..] == fired + [e]
    {
      hide Core, OnTime;
      HeapIn();
      EventIs(e);
      WithoutFront(queue, fired, e);
      Del(e);
      Activate(e);
    }

    /** The loop takes the timer of list `i` off the queue to run it. */
    method BeginTimer(i: nat)
      requires Valid() && running == -1 && i < |lists| && lists[i].timer.active
      modifies heap, all`heapIdx, lists[i].timer`heapIdx, lists[i].timer`pending, lists[i].timer`active
      modifies lists`events, this`queue, this`running
      ensures Valid() && running == i
    {
      hide Core, OnTime;
      ListIs(i);
      TimersDistinct(i);
      Del(lists[i].timer);
      StartRunning(i);
    }

    lemma TimersDistinct(i: nat)
      requires Core() && i < |lists|
      ensures forall j: nat :: j < |lists| && j != i ==> lists[j].timer != lists[i].timer
    {
      forall j: nat | j < |lists| && j != i ensures lists[j].timer != lists[i].timer {
        assert if i < j then lists[i].timer != lists[j].timer else lists[j].timer != lists[i].timer;
      }
    }

    method StartRunning(i: nat)
      requires Core() && running == -1 && i < |lists| && forall j: nat :: j < |lists| && j != i ==> OnTime(j)
      modifies this`running
      ensures Valid() && running == i
    {
      running := i;
      assert Core() by {
        forall j: nat | j < |lists| ensures ListOk(j) && TimerFree(j) {
          assert old(ListOk(j) && TimerFree(j));
        }
        forall x | x in all ensures EventOk(x) {
          assert old(EventOk(x));
        }
      }
      forall j: nat | j < |lists| ensures OnTime(j) {
        if j != i {
          assert old(OnTime(j));
        }
      }
    }

    /** The timer of list `i` has run, and is set again if there is something left. */
    method StopRunning()
      requires Core() && 0 <= running < |lists|
      requires forall j: nat :: j < |lists| && j != running ==> OnTime(j)
      requires var l := lists[running];
               l.events != [] ==> (l.timer.pending && l.timer.timeout <= l.events[0].timeout)
      modifies this`running
      ensures Valid() && running == -1
    {
      ghost var i := running;
      running := -1;
      assert Core() by {
        forall j: nat | j < |lists| ensures ListOk(j) && TimerFree(j) {
          assert old(ListOk(j) && TimerFree(j));
        }
        forall x | x in all ensures EventOk(x) {
          assert old(EventOk(x));
        }
      }
      forall j: nat | j < |lists| ensures OnTime(j) {
        if j != i {
          assert old(OnTime(j));
        }
      }
    }

    /** common_timeout_callback: activates the events of the list that are due, in order, and sets the
        timer for the first one that is left. */
    method RunTimer(now: int) returns (ghost k: nat)
      requires Valid() && 0 <= running < |lists|
      modifies heap, all, lists`events, this`queue, this`running
      ensures Valid() && running == -1
      ensures var i := old(running); var was := old(lists[i].events);
              && k <= |was| && lists[i].events == was[k..]
              && (forall j :: 0 <= j < k ==> was[j].timeout <= now && was[j].active && was[j].timedOut && !was[j].pending)
              && (forall j :: k <= j < |was| ==> was[j].timeout > now)
              && k <= |queue| && queue[|queue| - k..] == was[..k]
    {
      hide Valid, Distinct, ListOk, TimerFree;
      ValidIs();
      var i: nat := running;
      var l := lists[i];
      ghost var was := l.events;
      NotTimers(i);
      k := FireDue(i, now);
      ValidIs();
      LaterLeft(i, now);
      EndTimer(i, was[..k]);
    }

    /** The loop of common_timeout_callback. */
    method FireDue(i: nat, now: int) returns (ghost k: nat)
      requires Valid() && running == i < |lists|
      modifies heap, all, lists`events, this`queue
      ensures Valid()
      ensures var was := old(lists[i].events);
              && k <= |was| && lists[i].events == was[k..] && (k < |was| ==> was[k].timeout > now)
              && (forall j :: 0 <= j < k ==> was[j].timeout <= now && was[j].active && was[j].timedOut && !was[j].pending)
              && (forall j :: 0 <= j < |was| ==> was[j].timeout == old(was[j].timeout))
              && k <= |queue| && queue[|queue| - k..] == was[..k]
    {
      hide Valid, Distinct, ListOk, TimerFree;
      ValidIs();
      var l := lists[i];
      ghost var was := l.events;
      k := 0;
      NoneYet(was, queue);
      NotTimers(i);
      while |l.events| > 0 && l.events[0].timeout <= now
        invariant Valid() && running == i && k <= |was| && l.events == was[k..]
        invariant forall j :: 0 <= j < k ==> was[j].timeout <= now && was[j].active && was[j].timedOut && !was[j].pending
        invariant forall j :: 0 <= j < |was| ==> was[j].timeout == old(was[j].timeout)
        invariant k <= |queue| && queue[|queue| - k..] == was[..k]
        decreases |l.events|
      {
        DistinctAt(was, k);
        RestOf(was, k);
        FireFirst(i, l.events[0], was, k);
        k := k + 1;
      }
    }

    lemma ValidIs()
      requires Valid()
      ensures Core()
    {
      hide Core;
    }

    method EndTimer(i: nat, ghost fired: seq<Event>)
      requires Valid() && running == i && i < |lists|
      requires |fired| <= |queue| && queue[|queue| - |fired|..] == fired && lists[i].timer !in fired
      modifies heap, all`heapIdx, lists[i].timer, lists`events, this`queue, this`running
      ensures Valid() && running == -1 && lists[i].events == old(lists[i].events)
      ensures |fired| <= |queue| && queue[|queue| - |fired|..] == fired
    {
      hide Core, OnTime;
      ListIs(i);
      if |lists[i].events| > 0 {
        WithoutFront(queue, fired, lists[i].timer);
        Schedule(i);
      }
      StopRunning();
    }

    lemma NotTimers(i: nat)
      requires Core() && i < |lists|
      ensures Distinct(lists[i].events) && forall j :: 0 <= j < |lists[i].events| ==> lists[i].events[j] != lists[i].timer
      ensures forall e :: e in lists[i].events ==> e in all && e.pending && e.listed == i
    {
      ListIs(i);
      assert forall e :: e in lists[i].events ==> e.listed == i;
    }

    /** If the first event of a list is not due, none is. */
    lemma LaterLeft(i: nat, now: int)
      requires Core() && i < |lists| && (lists[i].events != [] ==> lists[i].events[0].timeout > now)
      ensures forall j :: 0 <= j < |lists[i].events| ==> lists[i].events[j].timeout > now
    {
      ListIs(i);
    }

    /** Activates the first event of list `i`. */
    method FireFirst(i: nat, e: Event, ghost was: seq<Event>, ghost k: nat)
      requires Valid() && running == i < |lists| && Distinct(was) && k < |was| && lists[i].events == was[k..] && was[k] == e
      requires k <= |queue| && queue[|queue| - k..] == was[..k]
      modifies heap, all`heapIdx, e`pending, e`active, e`timedOut, lists`events, this`queue
      ensures Valid() && lists[i].events == was[k + 1..] && e.active && e.timedOut && !e.pending
      ensures k < |queue| && queue[|queue| - k - 1..] == was[..k + 1]
    {
      hide Core, OnTime;
      NotTimers(i);
      EventIs(e);
      assert e in lists[i].events && e !in was[..k];
      WithoutFront(queue, was[..k], e);
      assert RemoveFirst(was[k..], e) == was[k + 1..];
      Del(e);
      Activate(e);
      assert was[..k + 1] == was[..k] + [e];
    }

    /** timeout_correct: when the clock has gone back, every timeout goes back with it. */
    method Correct(monotonic: bool, tv: int)
      requires Valid()
      modifies this`eventTv, all`timeout
      ensures Valid() && eventTv == if monotonic then old(eventTv) else tv
      ensures var off := if !monotonic && tv < old(eventTv) then old(eventTv) - tv else 0;
              forall e :: e in all ==> e.timeout == if e.pending then old(e.timeout) - off else old(e.timeout)
    {
      if monotonic {
        return;
      }
      if tv >= eventTv {
        SetTime(tv);
        return;
      }
      var off := eventTv - tv;
      ShiftAll(off);
      SetTime(tv);
    }

    method SetTime(tv: int)
      requires Valid()
      modifies this`eventTv
      ensures Valid() && eventTv == tv
    {
      eventTv := tv;
      forall j: nat | j < |lists| ensures ListOk(j) && TimerFree(j) && OnTime(j) {
        assert old(ListOk(j) && TimerFree(j) && OnTime(j));
      }
      forall x | x in all ensures EventOk(x) {
        assert old(EventOk(x));
      }
    }

    /** What is where, whatever the times are. */
    ghost predicate Members()
      reads this, heap`p, lists`events, all`pending, all`listed
    {
      && (forall e :: e in heap.p ==> e in all)
      && (forall i :: 0 <= i < |lists| ==> forall e :: e in lists[i].events ==> e in all)
      && (forall e :: e in all ==>
            && (e.pending ==> -1 <= e.listed < |lists|)
            && (e in heap.p <==> e.pending && e.listed == -1)
            && forall i :: 0 <= i < |lists| ==> (e in lists[i].events <==> e.pending && e.listed == i))
    }

    lemma CoreMembers()
      requires Core()
      ensures Members()
    {
      forall e | e in all
        ensures (e.pending ==> -1 <= e.listed < |lists|) && (e in heap.p <==> e.pending && e.listed == -1)
        ensures forall i :: 0 <= i < |lists| ==> (e in lists[i].events <==> e.pending && e.listed == i)
      {
        EventIs(e);
        forall i | 0 <= i < |lists| ensures e in lists[i].events <==> e.pending && e.listed == i {
          ListIs(i);
        }
      }
    }

    /** The two loops of timeout_correct: over the heap, and over every list. */
    method ShiftAll(off: int)
      requires Valid()
      modifies all`timeout
      ensures Valid()
      ensures forall e :: e in all ==> e.timeout == if e.pending then old(e.timeout) - off else old(e.timeout)
    {
      CoreMembers();
      ShiftEach(off);
      forall k: nat | 0 < k < |heap.p| ensures After(heap.p, k) {
        assert old(After(heap.p, k));
        assert heap.p[k] in heap.p && heap.p[Parent(k)] in heap.p;
      }
      forall j: nat | j < |lists| ensures ListOk(j) && TimerFree(j) && OnTime(j) {
        assert old(ListOk(j) && TimerFree(j) && OnTime(j));
      }
      forall x | x in all ensures EventOk(x) {
        assert old(EventOk(x));
      }
    }

    method ShiftEach(off: int)
      requires Members()
      modifies all`timeout
      ensures forall e :: e in all ==> e.timeout == if e.pending then old(e.timeout) - off else old(e.timeout)
    {
      forall e | e in heap.p {
        e.timeout := e.timeout - off;
      }
      for i := 0 to |lists|
        invariant forall e :: e in all ==>
                    e.timeout == if e.pending && e.listed < i then old(e.timeout) - off else old(e.timeout)
      {
        forall e | e in lists[i].events {
          e.timeout := e.timeout - off;
        }
      }
    }

    /** How long it is until an event is due. */
    ghost function Wait(e: Event, now: int): (t: nat)
      reads e`timeout
    {
      if e.timeout <= now then 0 else e.timeout - now
    }

    /** timeout_next: how long the loop may sleep, exactly until the first timeout of the heap. */
    method NextTimeout(now: int) returns (r: Sleep)
      requires Valid()
      ensures r.Forever? <==> heap.p == []
      ensures r.For? ==> (exists e :: e in heap.p && r.time == Wait(e, now)) && forall e :: e in heap.p ==> r.time <= Wait(e, now)
    {
      var e := heap.Top();
      if e == null {
        return Forever;
      }
      assert e in heap.p && forall x :: x in heap.p ==> Wait(e, now) <= Wait(x, now);
      if e.timeout <= now {
        return For(0);
      }
      return For(e.timeout - now);
    }

    /** The sleep that event_base_loop asks for: none as long as something is active, and else exactly
        until the first pending timeout, on the heap or on a list. */
    method LoopSleep(now: int, nonblock: bool) returns (r: Sleep)
      requires Valid() && running == -1
      ensures queue != [] || nonblock ==> r == For(0)
      ensures r.Forever? <==> queue == [] && !nonblock && forall e :: e in all ==> !e.pending
      ensures r.For? ==> forall e :: e in all && e.pending ==> r.time <= Wait(e, now)
      ensures r.For? && queue == [] && !nonblock ==> exists e :: e in all && e.pending && r.time == Wait(e, now)
    {
      if |queue| > 0 || nonblock {
        return For(0);
      }
      forall e | e in all && e.pending ensures exists x :: x in heap.p && x.timeout <= e.timeout {
        Represented(e);
      }
      r := NextTimeout(now);
    }

    /** Every pending timeout has an event in the heap that is due no later, unless a timer is active. */
    lemma Represented(e: Event)
      requires Valid() && running == -1 && queue == [] && e in all && e.pending
      ensures exists x :: x in heap.p && x.timeout <= e.timeout
    {
      EventIs(e);
      if e.listed >= 0 {
        ListIs(e.listed);
        assert OnTime(e.listed);
        var timer := lists[e.listed].timer;
        EventIs(timer);
        assert timer in heap.p;
      } else {
        assert e in heap.p;
      }
    }

    /** A new event, not pending and not active. */
    method Register(e: Event)
      requires Valid() && e !in all && !IsTimer(e)
      requires e.heapIdx == -1 && !e.pending && !e.active && e.listed == -1
      modifies this`all
      ensures Valid() && all == old(all) + {e}
    {
      NotAround(e);
      all := all + {e};
      forall j: nat | j < |lists| ensures ListOk(j) && TimerFree(j) && OnTime(j) {
        assert old(ListOk(j) && TimerFree(j) && OnTime(j));
      }
      forall x | x in all ensures EventOk(x) {
        if x != e {
          assert old(EventOk(x));
        }
      }
    }

    lemma NotAround(e: Event)
      requires Core() && e !in all
      ensures e !in heap.p && e !in queue && forall j :: 0 <= j < |lists| ==> e !in lists[j].events
    {
    }

    /** event_base_init_common_timeout: the list for a duration, made if there is none and still room. */
    method InitCommon(duration: int) returns (i: int)
      requires Valid()
      modifies this`all, this`lists
      ensures Valid() && -1 <= i < |lists| && (i >= 0 ==> lists[i].duration == duration)
      ensures lists == old(lists) || (|lists| == |old(lists)| + 1 && lists[..|lists| - 1] == old(lists) && fresh(lists[|lists| - 1]))
      ensures i == -1 <==> |old(lists)| == MAX_COMMON_TIMEOUTS && forall l :: l in old(lists) ==> l.duration != duration
    {
      i := 0;
      while i < |lists|
        invariant 0 <= i <= |lists| && forall j :: 0 <= j < i ==> lists[j].duration != duration
      {
        if lists[i].duration == duration {
          return;
        }
        i := i + 1;
      }
      if |lists| == MAX_COMMON_TIMEOUTS {
        return -1;
      }
      var timer := new Event();
      var l := new CommonList(duration, timer);
      NewList(l, timer);
    }

    method NewList(l: CommonList, timer: Event)
      requires Valid() && timer !in all && l !in lists && l.timer == timer && l.events == []
      requires timer.heapIdx == -1 && !timer.pending && !timer.active && timer.listed == -1
      modifies this`all, this`lists
      ensures Valid() && lists == old(lists) + [l]
    {
      NotAround(timer);
      ghost var n := |lists|;
      all := all + {timer};
      lists := lists + [l];
      forall j: nat | j < |lists| ensures ListOk(j) && TimerFree(j) && OnTime(j) {
        if j < n {
          assert old(ListOk(j) && TimerFree(j) && OnTime(j));
        }
      }
      forall x | x in all ensures EventOk(x) {
        if x != timer {
          assert old(EventOk(x));
        }
      }
    }
  }

  const MAX_COMMON_TIMEOUTS: nat := 256

  datatype Sleep = Forever | For(time: int)

  /** An event that is not in the last part of a list is taken out in front of it. */
  lemma {:induction false} WithoutFront(s: seq<Event>, end: seq<Event>, e: Event)
    requires |end| <= |s| && s[|s| - |end|..] == end && e !in end
    ensures var r := RemoveFirst(s, e); |end| <= |r| && r[|r| - |end|..] == end
  {
    if |s| > |end| && s[0] != e {
      assert s[1..][|s[1..]| - |end|..] == end;
      WithoutFront(s[1..], end, e);
    } else if |s| == |end| {
      assert s == end;
      NotIn(s, e);
    }
  }

  lemma {:induction false} NotIn(s: seq<Event>, e: Event)
    requires e !in s
    ensures RemoveFirst(s, e) == s
  {
    if s != [] {
      NotIn(s[1..], e);
    }
  }

  lemma NoneSorted()
    ensures Sorted([]) && Distinct<Event>([])
  {
  }

  lemma SortedSnoc(s: seq<Event>, e: Event)
    requires Sorted(s) && forall x :: x in s ==> x.timeout <= e.timeout
    ensures Sorted(s + [e])
  {
  }

  lemma DistinctAt<T>(s: seq<T>, k: nat)
    requires Distinct(s) && k < |s|
    ensures forall j :: 0 <= j < |s| && j != k ==> s[j] != s[k]
  {
  }

  lemma RestOf<T>(s: seq<T>, k: nat)
    requires k < |s|
    ensures s[k..][0] == s[k]
  {
  }

  lemma NoneYet<T>(s: seq<T>, queue: seq<T>)
    ensures s[0..] == s && queue[|queue|..] == s[..0]
  {
  }

  lemma DistinctSnoc<T>(s: seq<T>, e: T)
    requires Distinct(s) && e !in s
    ensures Distinct(s + [e])
  {
  }

  lemma FirstInserted(s: seq<Event>, e: Event, k: nat)
    requires k <= |s|
    ensures Inserted(s, e, k)[0] == e || (s != [] && Inserted(s, e, k)[0] == s[0])
  {
  }

  /** The search for the place, from the end of the list. */
  method FindPlace(s: seq<Event>, t: int) returns (k: nat)
    ensures k == InsertPos(s, t)
  {
    k := |s|;
    while k > 0 && s[k - 1].timeout > t
      invariant 0 <= k <= |s| && forall i :: k <= i < |s| ==> s[i].timeout > t
    {
      k := k - 1;
    }
    PosIs(s, t, k);
  }

  lemma {:induction false} PosIs(s: seq<Event>, t: int, k: nat)
    requires k <= |s| && (k > 0 ==> s[k - 1].timeout <= t) && forall i :: k <= i < |s| ==> s[i].timeout > t
    ensures InsertPos(s, t) == k
  {
    if k < |s| {
      PosIs(s[..|s| - 1], t, k);
    }
  }

  lemma InsertedMembers(s: seq<Event>, e: Event, k: nat)
    requires k <= |s|
    ensures forall x :: x in Inserted(s, e, k) <==> x in s || x == e
  {
    assert s == s[..k] + s[k..];
  }

  lemma InsertedDistinct(s: seq<Event>, e: Event, k: nat)
    requires k <= |s| && Distinct(s) && e !in s
    ensures Distinct(Inserted(s, e, k))
  {
    var r := Inserted(s, e, k);
    forall i, j | 0 <= i < j < |r| ensures r[i] != r[j] {
      var a, b := if i < k then i else i - 1, if j < k then j else j - 1;
      assert i != k ==> r[i] == s[a];
      assert j != k ==> r[j] == s[b];
    }
  }

  /** The place keeps the list sorted; all that are due at the same time are in front. */
  lemma InsertedSorted(s: seq<Event>, e: Event, k: nat)
    requires k <= |s| && (k > 0 ==> s[k - 1].timeout <= e.timeout) && forall i :: k <= i < |s| ==> s[i].timeout > e.timeout
    requires Sorted(s)
    ensures Sorted(Inserted(s, e, k)) && forall i :: 0 <= i < k ==> s[i].timeout <= e.timeout
  {
    var r := Inserted(s, e, k);
    forall i | 0 <= i < k ensures s[i].timeout <= e.timeout {
      assert i < k - 1 ==> s[i].timeout <= s[k - 1].timeout;
    }
    forall i, j | 0 <= i < j < |r| ensures r[i].timeout <= r[j].timeout {
      var a, b := if i < k then i else i - 1, if j < k then j else j - 1;
      assert i != k ==> r[i] == s[a];
      assert j != k ==> r[j] == s[b];
    }
  }

  function Inserted(s: seq<Event>, e: Event, k: nat): (r: seq<Event>)
    requires k <= |s|
    ensures |r| == |s| + 1
    ensures forall i :: 0 <= i < |r| ==> r[i] == if i < k then s[i] else if i == k then e else s[i - 1]
  {
    s[..k] + [e] + s[k..]
  }

  datatype Op = Add(k: nat, tv: int, i: int, now: int) | Remove(k: nat) | Due(now: int) | Fire(list: nat, now: int)
              | Clock(monotonic: bool, tv: int)

  /** One step of the user or of the loop; numbers that mean nothing are passed over. */
  method Step(base: Base, op: Op, events: seq<Event>)
    requires base.Valid() && base.running == -1
    requires forall e :: e in events ==> e in base.all && !base.IsTimer(e)
    modifies base.heap, base.all, base.lists`events, base`queue, base`running, base`eventTv
    ensures base.Valid() && base.running == -1
  {
    hide Base.Core, Base.OnTime;
    match op
    case Add(k, tv, i, now) =>
      if k < |events| && -1 <= i < |base.lists| {
        if i >= 0 {
          base.ListIs(i);
        }
        base.AddTimeout(events[k], tv, i, now);
      }
    case Remove(k) =>
      if k < |events| {
        base.Delete(events[k]);
      }
    case Due(now) =>
      ghost var _ := base.Process(now);
    case Fire(i, now) =>
      if i < |base.lists| && base.lists[i].timer.active {
        base.ListIs(i);
        base.BeginTimer(i);
        ghost var _ := base.RunTimer(now);
      }
    case Clock(monotonic, tv) =>
      base.Correct(monotonic, tv);
  }

  /** After any steps the loop does not sleep past the time of a pending timeout. */
  method RunThenSleep(base: Base, ops: seq<Op>, events: seq<Event>, now: int, nonblock: bool) returns (r: Sleep)
    requires base.Valid() && base.running == -1
    requires forall e :: e in events ==> e in base.all && !base.IsTimer(e)
    modifies base.heap, base.all, base.lists`events, base`queue, base`running, base`eventTv
    ensures base.Valid() && base.running == -1 && base.all == old(base.all)
    ensures base.queue != [] || nonblock ==> r == For(0)
    ensures r.Forever? <==> base.queue == [] && !nonblock && forall e :: e in base.all ==> !e.pending
    ensures r.For? ==> forall e :: e in base.all && e.pending ==> r.time <= base.Wait(e, now)
    ensures r.For? && base.queue == [] && !nonblock
            ==> exists e :: e in base.all && e.pending && r.time == base.Wait(e, now)
  {
    hide Base.Core, Base.OnTime;
    for i := 0 to |ops|
      invariant base.Valid() && base.running == -1
    {
      Step(base, ops[i], events);
    }
    r := base.LoopSleep(now, nonblock);
  }
}

/** The heap of timeouts, in which every event knows its own place. */
module MinHeaps {

  /** The parts of an event that timeouts are about. Times are in microseconds. */
  class Event {
    var timeout: int
    var heapIdx: int     // place in the heap, or -1
    var listed: int      // index of the common timeout list, or -1
    var pending: bool    // EVLIST_TIMEOUT
    var active: bool     // EVLIST_ACTIVE
    var timedOut: bool   // EV_TIMEOUT in ev_res

    constructor ()
      ensures heapIdx == -1 && listed == -1 && !pending && !active && !timedOut
    {
      timeout, heapIdx, listed, pending, active, timedOut := 0, -1, -1, false, false, false;
    }
  }

  /** Every event knows its place, apart from the one at `hole`. */
  ghost predicate Placed(s: seq<Event>, hole: int)
    reads s`heapIdx
  {
    forall i :: 0 <= i < |s| && i != hole ==> s[i].heapIdx == i
  }

  function Parent(i: nat): (j: nat)
    requires i > 0
    ensures j < i && (i == 2 * j + 1 || i == 2 * j + 2)
  {
    (i - 1) / 2
  }

  /** The event at `i` is not due before its parent. */
  ghost predicate After(s: seq<Event>, i: nat)
    requires 0 < i < |s|
    reads s`timeout
  {
    s[Parent(i)].timeout <= s[i].timeout
  }

  ghost predicate Ordered(s: seq<Event>)
    reads s`timeout
  {
    forall i :: 0 < i < |s| ==> After(s, i)
  }

  ghost predicate HeapOk(s: seq<Event>)
    reads s`heapIdx, s`timeout
  {
    Placed(s, -1) && Ordered(s)
  }

  /** The first event is due first. */
  lemma {:induction false} TopIsFirst(s: seq<Event>, i: nat)
    requires Ordered(s) && i < |s|
    ensures s[0].timeout <= s[i].timeout
  {
    if i > 0 {
      assert After(s, i);
      TopIsFirst(s, Parent(i));
    }
  }

  /** In order but for the event at `i`, which may be due before its parent. */
  ghost predicate UpOk(s: seq<Event>, i: nat)
    reads s`timeout
  {
    && (forall k :: 0 < k < |s| && k != i ==> After(s, k))
    && (forall k :: 0 < k < |s| && 0 < i < |s| && Parent(k) == i ==> s[Parent(i)].timeout <= s[k].timeout)
  }

  /** In order but for the children of `i`, which may be due before it. */
  ghost predicate DownOk(s: seq<Event>, i: nat)
    reads s`timeout
  {
    && (forall k :: 0 < k < |s| && Parent(k) != i ==> After(s, k))
    && (forall k :: 0 < k < |s| && 0 < i < |s| && Parent(k) == i ==> s[Parent(i)].timeout <= s[k].timeout)
  }

  /** `s` with the events at `i` and `j` exchanged. */
  function Swap(s: seq<Event>, i: nat, j: nat): (t: seq<Event>)
    requires i < |s| && j < |s|
    ensures |t| == |s| && multiset(t) == multiset(s) && t[i] == s[j] && t[j] == s[i]
    ensures forall x :: x in t ==> x in s
  {
    s[i := s[j]][j := s[i]]
  }

  lemma UpStep(s: seq<Event>, i: nat)
    requires 0 < i < |s| && UpOk(s, i) && s[Parent(i)].timeout > s[i].timeout
    ensures UpOk(Swap(s, i, Parent(i)), Parent(i))
  {
    var t, j := Swap(s, i, Parent(i)), Parent(i);
    forall k | 0 < k < |t| && k != j ensures After(t, k) {
      if k != i {
        assert After(s, k);
      }
      if Parent(k) == j && k != i {
        assert After(s, k);
      }
    }
    forall k | 0 < k < |t| && 0 < j < |t| && Parent(k) == j ensures t[Parent(j)].timeout <= t[k].timeout {
      assert After(s, j);
      if k != i {
        assert After(s, k);
      }
    }
  }

  lemma UpDone(s: seq<Event>, i: nat)
    requires i < |s| && UpOk(s, i) && (i > 0 ==> s[Parent(i)].timeout <= s[i].timeout)
    ensures Ordered(s)
  {
    forall k | 0 < k < |s| ensures After(s, k) {
      if k != i {
        assert After(s, k);
      }
    }
  }

  /** `c` is the child of `i` that is due first. */
  ghost predicate FirstChild(s: seq<Event>, i: nat, c: nat)
    reads s`timeout
  {
    && 0 < c < |s| && Parent(c) == i
    && forall k :: 0 < k < |s| && Parent(k) == i ==> s[c].timeout <= s[k].timeout
  }

  lemma FirstChildIs(s: seq<Event>, i: nat, c: nat)
    requires var m := 2 * (i + 1);
             m <= |s| && c == if m == |s| || s[m].timeout > s[m - 1].timeout then m - 1 else m
    ensures FirstChild(s, i, c)
  {
  }

  lemma DownStep(s: seq<Event>, i: nat, c: nat)
    requires i < |s| && DownOk(s, i) && FirstChild(s, i, c) && s[i].timeout > s[c].timeout
    ensures DownOk(Swap(s, i, c), c)
  {
    var t := Swap(s, i, c);
    forall k | 0 < k < |t| && Parent(k) != c ensures After(t, k) {
      if Parent(k) != i {
        assert After(s, k);
      }
    }
    forall k | 0 < k < |t| && Parent(k) == c ensures t[Parent(c)].timeout <= t[k].timeout {
      assert After(s, k);
    }
  }

  lemma DownDone(s: seq<Event>, i: nat)
    requires i < |s| && DownOk(s, i)
    requires 2 * (i + 1) > |s| || exists c: nat :: FirstChild(s, i, c) && s[i].timeout <= s[c].timeout
    ensures Ordered(s)
  {
    forall k | 0 < k < |s| ensures After(s, k) {
      if Parent(k) != i {
        assert After(s, k);
      }
    }
  }

  class MinHeap {
    var p: seq<Event>

    constructor ()
      ensures p == []
    {
      p := [];
    }

    /** Moves the event at `from` to `hole`, which then is at `from`. */
    method Pull(hole: nat, from: nat, moved: Event, ghost s: seq<Event>, e: Event)
      requires hole < |p| == |s| && from < |p| && from != hole && p[from] == moved && p[hole := e] == s && Placed(s, hole)
      requires forall i :: 0 <= i < |s| && i != hole ==> s[i] != e
      modifies this, moved`heapIdx
      ensures |p| == |s| && p[from := e] == Swap(s, hole, from) && Placed(Swap(s, hole, from), from)
      ensures forall i :: 0 <= i < |s| && i != from ==> Swap(s, hole, from)[i] != e
    {
      p := p[hole := moved];
      moved.heapIdx := hole;
    }

    /** min_heap_shift_up_: `e` goes to `holeIndex` or, while its parent is due later, further up. */
    method ShiftUp(holeIndex: nat, e: Event)
      requires holeIndex < |p| && UpOk(p[holeIndex := e], holeIndex) && Placed(p[holeIndex := e], holeIndex)
      requires forall i :: 0 <= i < |p| && i != holeIndex ==> p[i] != e
      modifies this, p`heapIdx, e`heapIdx
      ensures HeapOk(p) && multiset(p) == multiset(old(p)[holeIndex := e]) && |p| == old(|p|)
    {
      hide UpOk, Ordered, Placed, Swap;
      var hole: nat := holeIndex;
      ghost var s := p[hole := e];
      ghost var all := multiset(s);
      assert forall x :: x in s ==> x in old(p) || x == e;
      while hole > 0 && p[Parent(hole)].timeout > e.timeout
        invariant hole < |p| == |s| == old(|p|) && p[hole := e] == s && s[hole] == e
        invariant UpOk(s, hole) && Placed(s, hole) && multiset(s) == all
        invariant forall i :: 0 <= i < |s| && i != hole ==> s[i] != e
        invariant forall x :: x in s ==> x in old(p) || x == e
      {
        assert p[Parent(hole)] == s[Parent(hole)] && s[Parent(hole)] in s;
        Pull(hole, Parent(hole), p[Parent(hole)], s, e);
        UpStep(s, hole);
        s, hole := Swap(s, hole, Parent(hole)), Parent(hole);
      }
      p := p[hole := e];
      UpDone(s, hole);
      Settle(s, hole, e);
    }

    /** The event at the hole learns its place. */
    static method Settle(ghost s: seq<Event>, hole: nat, e: Event)
      requires hole < |s| && s[hole] == e && Placed(s, hole) && Ordered(s)
      requires forall i :: 0 <= i < |s| && i != hole ==> s[i] != e
      modifies e`heapIdx
      ensures HeapOk(s)
    {
      e.heapIdx := hole;
    }

    /** Which of the two children ahead of `behind` is due first? */
    method Earlier(hole: nat, behind: nat, e: Event, ghost s: seq<Event>) returns (c: nat)
      requires hole < |p| == |s| && p[hole := e] == s && behind == 2 * (hole + 1) <= |p|
      ensures hole < c < |p| && p[c] == s[c] && s[c] in s && FirstChild(s, hole, c)
    {
      c := behind;
      if c == |p| || p[c].timeout > p[c - 1].timeout {
        c := c - 1;
      }
      FirstChildIs(s, hole, c);
    }

    /** min_heap_shift_down_: `e` goes to `holeIndex` or, while a child is due earlier, further down. */
    method ShiftDown(holeIndex: nat, e: Event)
      requires holeIndex < |p| && DownOk(p[holeIndex := e], holeIndex) && Placed(p[holeIndex := e], holeIndex)
      requires forall i :: 0 <= i < |p| && i != holeIndex ==> p[i] != e
      modifies this, p`heapIdx, e`heapIdx
      ensures HeapOk(p) && multiset(p) == multiset(old(p)[holeIndex := e]) && |p| == old(|p|)
    {
      hide HeapOk, DownOk, Ordered, Placed, Swap, FirstChild, Parent;
      var hole: nat := holeIndex;
      ghost var s := p[hole := e];
      ghost var all := multiset(s);
      assert forall x :: x in s ==> x in old(p) || x == e;
      var minChild := 2 * (hole + 1);
      while minChild <= |p|
        invariant hole < |p| == |s| == old(|p|) && p[hole := e] == s && s[hole] == e && minChild == 2 * (hole + 1)
        invariant DownOk(s, hole) && Placed(s, hole) && multiset(s) == all
        invariant forall i :: 0 <= i < |s| && i != hole ==> s[i] != e
        invariant forall x :: x in s ==> x in old(p) || x == e
        decreases |p| - hole
      {
        minChild := Earlier(hole, minChild, e, s);
        if e.timeout <= p[minChild].timeout {
          break;
        }
        Pull(hole, minChild, p[minChild], s, e);
        DownStep(s, hole, minChild);
        s, hole := Swap(s, hole, minChild), minChild;
        minChild := 2 * (hole + 1);
      }
      p := p[hole := e];
      DownDone(s, hole);
      Settle(s, hole, e);
    }

    ghost predicate Valid()
      reads this, p
    {
      HeapOk(p)
    }

    /** min_heap_top. */
    method Top() returns (e: Event?)
      requires Valid()
      ensures e == null <==> p == []
      ensures e != null ==> e == p[0] && forall x :: x in p ==> e.timeout <= x.timeout
    {
      if |p| == 0 {
        return null;
      }
      forall i: nat | i < |p| ensures p[0].timeout <= p[i].timeout {
        TopIsFirst(p, i);
      }
      return p[0];
    }

    /** min_heap_push. */
    method Push(e: Event)
      requires Valid() && e !in p
      modifies this, p`heapIdx, e`heapIdx
      ensures Valid() && multiset(p) == multiset(old(p)) + multiset{e}
      ensures forall x :: x in p <==> x in old(p) || x == e
    {
      ghost var was := p;
      p := p + [e];
      PushOk(was, e);
      assert p[|was| := e] == p;
      ShiftUp(|p| - 1, e);
      assert forall x :: x in p <==> x in multiset(p);
    }

    /** min_heap_erase. */
    method Erase(e: Event) returns (r: int)
      requires Valid() && (e.heapIdx != -1 ==> e in p)
      modifies this, p`heapIdx, e`heapIdx
      ensures Valid() && e.heapIdx == -1
      ensures if old(e.heapIdx) == -1 then r == -1 && p == old(p) && e !in p
              else r == 0 && multiset(p) == multiset(old(p)) - multiset{e}
      ensures forall x :: x in p <==> x in old(p) && x != e
      ensures r == 0 ==> |p| == old(|p|) - 1
    {
      ghost var was := p;
      if e.heapIdx == -1 {
        return -1;
      }
      hide HeapOk;
      PlaceOf(p, e);
      TakeOut(e.heapIdx, e);
      Forget(p, e);
      SameMembers(was, p, e);
      assert |multiset(p)| == |p| && |multiset(was)| == |was|;
      r := 0;
    }

    /** Takes out the event at `i`: the last one goes to its place. */
    method TakeOut(i: nat, e: Event)
      requires HeapOk(p) && i < |p| && p[i] == e && multiset(p)[e] == 1
      modifies this, p`heapIdx
      ensures HeapOk(p) && multiset(p) == multiset(old(p)) - multiset{e} && e !in p
    {
      hide HeapOk, UpOk, DownOk, Placed, Ordered, After;
      var last := p[|p| - 1];
      ghost var was := p;
      assert forall x :: x in was[..|was| - 1] ==> x in was;
      p := p[..|p| - 1];
      if i < |p| {
        EraseOk(was, i);
        Refill(i, last);
      } else {
        EraseLast(was);
      }
      assert multiset(p)[e] == 0;
    }

    /** Puts `last` in at `i`. */
    method Refill(i: nat, last: Event)
      requires i < |p| && Placed(p[i := last], i) && forall k :: 0 <= k < |p| && k != i ==> p[k] != last
      requires if i > 0 && p[Parent(i)].timeout > last.timeout then UpOk(p[i := last], i) else DownOk(p[i := last], i)
      modifies this, p`heapIdx, last`heapIdx
      ensures HeapOk(p) && multiset(p) == multiset(old(p)[i := last])
    {
      hide HeapOk, UpOk, DownOk, Placed, Ordered, After;
      if i > 0 && p[Parent(i)].timeout > last.timeout {
        ShiftUp(i, last);
      } else {
        ShiftDown(i, last);
      }
    }
  }

  lemma SameMembers(was: seq<Event>, now: seq<Event>, e: Event)
    requires multiset(was)[e] == 1 && multiset(now) == multiset(was) - multiset{e}
    ensures forall x :: x in now <==> x in was && x != e
  {
    assert forall x :: x in now <==> x in multiset(now);
    assert forall x :: x in was <==> x in multiset(was);
  }

  /** The event that was taken out is nowhere any more. */
  method Forget(ghost s: seq<Event>, e: Event)
    requires HeapOk(s) && e !in s
    modifies e`heapIdx
    ensures HeapOk(s) && e.heapIdx == -1
  {
    e.heapIdx := -1;
  }

  lemma {:induction false} Once<T>(s: seq<T>, i: nat)
    requires i < |s| && forall j :: 0 <= j < |s| && j != i ==> s[j] != s[i]
    ensures multiset(s)[s[i]] == 1
  {
    assert s == s[..i] + [s[i]] + s[i + 1..];
  }

  lemma PlaceOf(s: seq<Event>, e: Event)
    requires HeapOk(s) && e in s
    ensures 0 <= e.heapIdx < |s| && s[e.heapIdx] == e && multiset(s)[e] == 1
  {
    Once(s, e.heapIdx);
  }

  lemma EraseLast(s: seq<Event>)
    requires HeapOk(s) && s != []
    ensures var n := |s| - 1;
            HeapOk(s[..n]) && s[n] !in s[..n] && multiset(s[..n]) == multiset(s) - multiset{s[n]}
  {
    var n := |s| - 1;
    assert s == s[..n] + [s[n]];
    forall k | 0 < k < n ensures After(s[..n], k) {
      assert After(s, k);
    }
  }

  lemma PushOk(s: seq<Event>, e: Event)
    requires HeapOk(s) && e !in s
    ensures UpOk(s + [e], |s|) && Placed(s + [e], |s|)
  {
    forall k | 0 < k < |s| ensures After(s + [e], k) {
      assert After(s, k);
    }
  }

  lemma MultisetCut<T>(s: seq<T>, i: nat)
    requires i < |s| - 1
    ensures multiset(s[..|s| - 1][i := s[|s| - 1]]) == multiset(s) - multiset{s[i]}
  {
    assert s == s[..|s| - 1] + [s[|s| - 1]];
  }

  lemma PlacedCut(s: seq<Event>, i: nat)
    requires Placed(s, -1) && i < |s| - 1
    ensures var t := s[..|s| - 1]; var last := s[|s| - 1];
            Placed(t[i := last], i) && forall k :: 0 <= k < |t| && k != i ==> t[k] != last
  {
  }

  /** The last event in place of the one at `i`: it is out of order upwards or downwards, not both. */
  lemma EraseOk(s: seq<Event>, i: nat)
    requires HeapOk(s) && i < |s| - 1
    ensures var t := s[..|s| - 1]; var last := s[|s| - 1];
            && Placed(t[i := last], i) && (forall k :: 0 <= k < |t| && k != i ==> t[k] != last)
            && multiset(t[i := last]) == multiset(s) - multiset{s[i]}
            && (i > 0 && t[Parent(i)].timeout > last.timeout ==> UpOk(t[i := last], i))
            && (!(i > 0 && t[Parent(i)].timeout > last.timeout) ==> DownOk(t[i := last], i))
  {
    hide Placed, Parent;
    MultisetCut(s, i);
    PlacedCut(s, i);
    var u := s[..|s| - 1][i := s[|s| - 1]];
    forall k | 0 < k < |u| && k != i && Parent(k) != i ensures After(u, k) {
      assert After(s, k);
    }
    forall k | 0 < k < |u| && 0 < i && Parent(k) == i ensures u[Parent(i)].timeout <= u[k].timeout {
      assert After(s, k) && After(s, i);
    }
  }
}

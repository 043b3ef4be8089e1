/** The table of events by file descriptor, and the list of changes that the kernel is still to be
    told about. */
module EvMap {

  const FIRST_ENTRIES: nat := 32
  const FIRST_CHANGES: nat := 64
  const MAX_COUNT: nat := 0xffff

  /** Reading, writing, or both. */
  datatype Mask = Mask(read: bool, write: bool)

  class Event {
    const fd: int
    const mask: Mask
    const et: bool

    constructor (fd: int, mask: Mask, et: bool)
      ensures this.fd == fd && this.mask == mask && this.et == et
    {
      this.fd, this.mask, this.et := fd, mask, et;
    }
  }

  // One pending change.

  datatype Change = Nothing | Added(et: bool) | Deleted

  datatype FdChange = FdChange(fd: nat, was: Mask, readChange: Change, writeChange: Change)

  /** What a change makes of one bit of the kernel's interest set. */
  function ApplyBit(c: Change, bit: bool): bool {
    match c
    case Nothing => bit
    case Added(_) => true
    case Deleted => false
  }

  function Apply(c: FdChange, m: Mask): Mask {
    Mask(ApplyBit(c.readChange, m.read), ApplyBit(c.writeChange, m.write))
  }

  // Counting events.

  ghost function Readers(events: seq<Event>): nat {
    if events == [] then 0
    else Readers(events[..|events| - 1]) + if events[|events| - 1].mask.read then 1 else 0
  }

  ghost function Writers(events: seq<Event>): nat {
    if events == [] then 0
    else Writers(events[..|events| - 1]) + if events[|events| - 1].mask.write then 1 else 0
  }

  /** What the listed events want, all together. */
  ghost function Union(events: seq<Event>): Mask {
    Mask(exists e :: e in events && e.mask.read, exists e :: e in events && e.mask.write)
  }

  lemma {:induction false} CountsAreUnion(events: seq<Event>)
    ensures Union(events) == Mask(Readers(events) > 0, Writers(events) > 0)
  {
    if events != [] {
      var n := |events| - 1;
      CountsAreUnion(events[..n]);
      assert events == events[..n] + [events[n]];
    }
  }

  lemma CountSnoc(events: seq<Event>, e: Event)
    ensures Readers(events + [e]) == Readers(events) + if e.mask.read then 1 else 0
    ensures Writers(events + [e]) == Writers(events) + if e.mask.write then 1 else 0
  {
    assert (events + [e])[..|events|] == events;
  }

  /** TAILQ_REMOVE. */
  function Without(events: seq<Event>, e: Event): (r: seq<Event>)
  {
    if events == [] then []
    else if events[|events| - 1] == e then events[..|events| - 1]
    else Without(events[..|events| - 1], e) + [events[|events| - 1]]
  }

  lemma {:induction false} CountWithout(events: seq<Event>, e: Event)
    requires e in events
    ensures Readers(events) == Readers(Without(events, e)) + if e.mask.read then 1 else 0
    ensures Writers(events) == Writers(Without(events, e)) + if e.mask.write then 1 else 0
    ensures multiset(events) == multiset(Without(events, e)) + multiset{e}
  {
    var n := |events| - 1;
    assert events == events[..n] + [events[n]];
    if events[n] != e {
      CountWithout(events[..n], e);
      CountSnoc(Without(events[..n], e), events[n]);
    }
  }

  /** struct evmap_io, with the changelist information behind it. */
  class EvmapIo {
    ghost const fd: nat
    var events: seq<Event>
    var nread: nat
    var nwrite: nat
    var idxplus1: nat

    constructor (ghost fd: nat)
      ensures this.fd == fd && events == [] && nread == nwrite == idxplus1 == 0
    {
      this.fd := fd;
      events, nread, nwrite, idxplus1 := [], 0, 0, 0;
    }

    ghost predicate Ok()
      reads this
    {
      && nread == Readers(events) <= MAX_COUNT && nwrite == Writers(events) <= MAX_COUNT
      && forall e :: e in events ==> e.fd == fd
    }

    function Wanted(): Mask
      reads this
    {
      Mask(nread > 0, nwrite > 0)
    }
  }

  /** What the kernel knows and the pending change, if any, make up `want`. */
  ghost predicate Leads(ctx: EvmapIo, fd: nat, kernel: Mask, pending: seq<FdChange>, want: Mask)
    reads ctx`idxplus1
  {
    && ctx.idxplus1 <= |pending|
    && if ctx.idxplus1 == 0 then kernel == want
       else
         var c := pending[ctx.idxplus1 - 1];
         c.fd == fd && c.was == kernel && Apply(c, kernel) == want
  }

  /** The slot of `fd` is in order: its counts are right, and the kernel will know what the events
      want. */
  ghost predicate CtxOk(ctx: EvmapIo?, fd: nat, kernel: Mask, pending: seq<FdChange>)
    reads ctx
  {
    if ctx == null then kernel == Mask(false, false)
    else ctx.fd == fd && ctx.Ok() && Leads(ctx, fd, kernel, pending, ctx.Wanted())
  }

  class EventBase {
    var entries: array<EvmapIo?>
    var changes: array<FdChange>
    var nChanges: nat
    ghost var kernel: map<nat, Mask>   // what the kernel has been told
    ghost var repr: set<EvmapIo>

    constructor ()
      ensures Valid() && fresh(entries) && fresh(changes) && fresh(repr)
      ensures forall fd: nat :: Listed(fd) == [] && Kernel(fd) == Mask(false, false)
    {
      entries := new EvmapIo?[0](_ => null);
      changes := new FdChange[0](_ => FdChange(0, Mask(false, false), Nothing, Nothing));
      nChanges := 0;
      kernel, repr := map[], {};
    }

    ghost function Kernel(fd: nat): Mask
      reads this`kernel
    {
      if fd in kernel then kernel[fd] else Mask(false, false)
    }

    /** The events listed for `fd`. */
    ghost function Listed(fd: nat): seq<Event>
      reads this`entries, this`repr, entries, repr`events
    {
      if fd < entries.Length && entries[fd] != null && entries[fd] in repr then entries[fd].events else []
    }

    ghost function Pending(): seq<FdChange>
      requires nChanges <= changes.Length
      reads this, changes
    {
      changes[..nChanges]
    }

    ghost predicate SlotOk(fd: nat)
      requires fd < entries.Length && nChanges <= changes.Length
      reads this, entries, changes, repr
    {
      (entries[fd] != null ==> entries[fd] in repr) && CtxOk(entries[fd], fd, Kernel(fd), Pending())
    }

    ghost predicate ChangeOk(k: nat)
      requires k < nChanges <= changes.Length
      reads this, entries, changes, repr
    {
      var fd := changes[k].fd;
      && fd < entries.Length && entries[fd] != null && entries[fd] in repr && entries[fd].idxplus1 == k + 1
    }

    ghost predicate Valid()
      reads this, entries, changes, repr
    {
      && nChanges <= changes.Length
      && (forall fd: nat :: fd < entries.Length ==> SlotOk(fd))
      && (forall fd: nat :: fd >= entries.Length ==> Kernel(fd) == Mask(false, false))
      && (forall k: nat :: k < nChanges ==> ChangeOk(k))
    }

    /** evmap_make_space. */
    method MakeSpace(slot: nat)
      requires Valid()
      modifies this`entries
      ensures Valid() && slot < entries.Length && (entries == old(entries) || fresh(entries))
      ensures old(entries.Length) <= entries.Length
      ensures forall fd: nat :: fd < old(entries.Length) ==> entries[fd] == old(entries[fd])
      ensures forall fd: nat :: old(entries.Length) <= fd < entries.Length ==> entries[fd] == null
      ensures forall fd: nat :: Listed(fd) == old(Listed(fd))
    {
      if entries.Length <= slot {
        var n := if entries.Length > 0 then entries.Length else FIRST_ENTRIES;
        while n <= slot
          invariant n >= entries.Length && n > 0
          decreases slot - n
        {
          n := 2 * n;
        }
        var was := entries;
        var tmp := new EvmapIo?[n](i requires 0 <= i reads was => if i < was.Length then was[i] else null);
        entries := tmp;
        forall fd: nat | fd < n ensures SlotOk(fd) {
          if fd < was.Length {
            assert old(SlotOk(fd));
          }
        }
        forall k: nat | k < nChanges ensures ChangeOk(k) {
          assert old(ChangeOk(k));
        }
      }
    }

    /** event_changelist_grow. */
    method Grow()
      requires Valid()
      modifies this`changes
      ensures Valid() && fresh(changes) && Pending() == old(Pending())
      ensures changes.Length == if old(changes.Length) < FIRST_CHANGES then FIRST_CHANGES else 2 * old(changes.Length)
    {
      var was := changes;
      var size := if changes.Length < FIRST_CHANGES then FIRST_CHANGES else 2 * changes.Length;
      changes := new FdChange[size](i requires 0 <= i reads was =>
        if i < was.Length then was[i] else FdChange(0, Mask(false, false), Nothing, Nothing));
      assert Pending() == old(Pending());
      forall fd: nat | fd < entries.Length ensures SlotOk(fd) {
        assert old(SlotOk(fd));
      }
      forall k: nat | k < nChanges ensures ChangeOk(k) {
        assert old(ChangeOk(k)) && changes[k] == Pending()[k];
      }
    }

    /** event_changelist_get_or_construct: the index of the change for `fd`, which may be a new one
        without any effect. */
    method GetOrConstruct(fd: nat, was: Mask, ctx: EvmapIo) returns (k: nat)
      requires Valid() && fd < entries.Length && entries[fd] == ctx && was == ctx.Wanted()
      modifies this`changes, this`nChanges, changes, ctx`idxplus1
      ensures Valid() && ctx.idxplus1 == k + 1 <= nChanges && changes[k].fd == fd
      ensures changes == old(changes) || fresh(changes)
      ensures old(ctx.idxplus1) == 0
              ==> Pending() == old(Pending()) + [FdChange(fd, was, Nothing, Nothing)]
      ensures old(ctx.idxplus1) > 0 ==> Pending() == old(Pending()) && ctx.idxplus1 == old(ctx.idxplus1)
    {
      assert SlotOk(fd);
      if ctx.idxplus1 == 0 {
        if nChanges == changes.Length {
          Grow();
        }
        assert SlotOk(fd);
        k := nChanges;
        NewChange(fd, was, ctx);
      } else {
        k := ctx.idxplus1 - 1;
        assert changes[k] == Pending()[k];
      }
    }

    /** Appends an empty change for `fd`. */
    method NewChange(fd: nat, was: Mask, ctx: EvmapIo)
      requires Valid() && nChanges < changes.Length && fd < entries.Length && entries[fd] == ctx
      requires ctx.idxplus1 == 0 && was == ctx.Wanted()
      modifies this`nChanges, changes, ctx`idxplus1
      ensures Valid() && ctx.idxplus1 == nChanges == old(nChanges) + 1
      ensures Pending() == old(Pending()) + [FdChange(fd, was, Nothing, Nothing)]
    {
      assert SlotOk(fd);
      changes[nChanges] := FdChange(fd, was, Nothing, Nothing);
      nChanges := nChanges + 1;
      ctx.idxplus1 := nChanges;
      assert Pending()[..nChanges - 1] == old(Pending());
      forall i: nat | i < entries.Length ensures SlotOk(i) {
        assert old(SlotOk(i));
      }
      forall k: nat | k < nChanges ensures ChangeOk(k) {
        if k < nChanges - 1 {
          assert old(ChangeOk(k)) && changes[k] == old(changes[k]);
        }
      }
    }

    /** Everything is in order, except that the pending change for `fd` makes up `want` already. */
    ghost predicate Ahead(fd: nat, want: Mask)
      reads this, entries, changes, repr
    {
      && nChanges <= changes.Length && fd < entries.Length && entries[fd] != null && entries[fd] in repr
      && entries[fd].fd == fd && entries[fd].Ok() && Leads(entries[fd], fd, Kernel(fd), Pending(), want)
      && (forall i: nat :: i < entries.Length && i != fd ==> SlotOk(i))
      && (forall i: nat :: i >= entries.Length ==> Kernel(i) == Mask(false, false))
      && (forall k: nat :: k < nChanges ==> ChangeOk(k))
    }

    /** Replaces the change for `fd`. */
    method SetChange(fd: nat, ctx: EvmapIo, c: FdChange)
      requires Valid() && fd < entries.Length && entries[fd] == ctx && ctx.idxplus1 > 0
      requires c.fd == fd && c.was == Kernel(fd)
      modifies changes
      ensures Ahead(fd, Apply(c, Kernel(fd)))
    {
      assert SlotOk(fd);
      changes[ctx.idxplus1 - 1] := c;
      assert Pending()[ctx.idxplus1 - 1] == c;
      forall i: nat | i < entries.Length && i != fd ensures SlotOk(i) {
        assert old(SlotOk(i));
        if entries[i] != null && entries[i].idxplus1 > 0 {
          assert old(Pending()[entries[i].idxplus1 - 1]).fd == i;
          assert Pending()[entries[i].idxplus1 - 1] == old(Pending()[entries[i].idxplus1 - 1]);
        }
      }
      forall k: nat | k < nChanges ensures ChangeOk(k) {
        assert old(ChangeOk(k)) && old(Pending()[k] == changes[k]);
      }
    }

    /** event_changelist_add. */
    method ChangelistAdd(fd: nat, was: Mask, res: Mask, et: bool, ctx: EvmapIo)
      requires Valid() && fd < entries.Length && entries[fd] == ctx && was == ctx.Wanted()
      modifies this`changes, this`nChanges, changes, ctx`idxplus1
      ensures Ahead(fd, Mask(was.read || res.read, was.write || res.write)) && ctx.idxplus1 > 0
      ensures changes == old(changes) || fresh(changes)
      ensures old(nChanges) <= nChanges <= old(nChanges) + 1
    {
      var k := GetOrConstruct(fd, was, ctx);
      assert SlotOk(fd) && Pending()[k] == changes[k];
      var c := changes[k];
      if res.read {
        c := c.(readChange := Added(et));
      }
      if res.write {
        c := c.(writeChange := Added(et));
      }
      SetChange(fd, ctx, c);
    }

    /** event_changelist_del: taking back an addition that the kernel has not seen is no change. */
    method ChangelistDel(fd: nat, was: Mask, res: Mask, ctx: EvmapIo)
      requires Valid() && fd < entries.Length && entries[fd] == ctx && was == ctx.Wanted()
      modifies this`changes, this`nChanges, changes, ctx`idxplus1
      ensures Ahead(fd, Mask(was.read && !res.read, was.write && !res.write)) && ctx.idxplus1 > 0
      ensures changes == old(changes) || fresh(changes)
      ensures old(nChanges) <= nChanges <= old(nChanges) + 1
    {
      var k := GetOrConstruct(fd, was, ctx);
      assert SlotOk(fd) && Pending()[k] == changes[k];
      var c := changes[k];
      if res.read {
        c := c.(readChange := if !c.was.read && c.readChange.Added? then Nothing else Deleted);
      }
      if res.write {
        c := c.(writeChange := if !c.was.write && c.writeChange.Added? then Nothing else Deleted);
      }
      SetChange(fd, ctx, c);
    }

    /** No slot but that of `fd` has other events than before. */
    twostate predicate OthersKept(fd: nat)
      reads this`entries, this`repr, entries, repr`events
    {
      forall i: nat :: i != fd ==> Listed(i) == old(Listed(i))
    }

    /** GET_IO_SLOT_AND_CTOR: the slot for `fd`, made if there is none. */
    method SlotFor(fd: nat) returns (ctx: EvmapIo)
      requires Valid()
      modifies this`entries, this`repr, entries
      ensures Valid() && fd < entries.Length && entries[fd] == ctx && fresh(repr - old(repr)) && old(repr) <= repr
      ensures entries == old(entries) || fresh(entries)
      ensures forall i: nat :: Listed(i) == old(Listed(i))
    {
      MakeSpace(fd);
      hide Valid;
      if entries[fd] == null {
        ctx := NewSlot(fd);
      } else {
        ctx := entries[fd];
      }
    }

    /** EVMAP_IO_INIT for an empty slot. */
    method NewSlot(fd: nat) returns (ctx: EvmapIo)
      requires Valid() && fd < entries.Length && entries[fd] == null
      modifies this`repr, entries
      ensures Valid() && entries[fd] == ctx && fresh(ctx) && repr == old(repr) + {ctx}
      ensures forall i: nat :: Listed(i) == old(Listed(i))
    {
      assert SlotOk(fd);
      ctx := new EvmapIo(fd);
      entries[fd] := ctx;
      repr := repr + {ctx};
      forall i: nat | i < entries.Length ensures SlotOk(i) {
        assert old(SlotOk(i));
      }
      forall k: nat | k < nChanges ensures ChangeOk(k) {
        assert old(ChangeOk(k));
      }
    }

    /** Puts the new events and counts into the slot that the change has been made for. */
    method Settle(fd: nat, ctx: EvmapIo, events: seq<Event>, nread: nat, nwrite: nat)
      requires fd < entries.Length && entries[fd] == ctx && Ahead(fd, Mask(nread > 0, nwrite > 0))
      requires nread == Readers(events) <= MAX_COUNT && nwrite == Writers(events) <= MAX_COUNT
      requires forall e :: e in events ==> e.fd == fd
      modifies ctx`nread, ctx`nwrite, ctx`events
      ensures Valid() && Listed(fd) == events && OthersKept(fd)
    {
      ctx.nread, ctx.nwrite, ctx.events := nread, nwrite, events;
      forall i: nat | i < entries.Length ensures SlotOk(i) {
        if i != fd {
          assert old(SlotOk(i));
        }
      }
      forall k: nat | k < nChanges ensures ChangeOk(k) {
        assert old(ChangeOk(k));
      }
      forall i: nat | i != fd ensures Listed(i) == old(Listed(i)) {
        if i < entries.Length {
          assert old(SlotOk(i));
        }
      }
    }

    /** Without a change in what is wanted there is nothing to tell the kernel. */
    lemma NothingNew(fd: nat)
      requires Valid() && fd < entries.Length && entries[fd] != null
      ensures Ahead(fd, entries[fd].Wanted())
    {
      assert SlotOk(fd);
    }

    lemma SlotIs(fd: nat)
      requires Valid() && fd < entries.Length && entries[fd] != null
      ensures var ctx := entries[fd];
              && ctx in repr && Listed(fd) == ctx.events
              && ctx.nread == Readers(ctx.events) <= MAX_COUNT && ctx.nwrite == Writers(ctx.events) <= MAX_COUNT
              && forall e :: e in ctx.events ==> e.fd == fd
    {
      assert SlotOk(fd);
    }

    /** The counts with one more event, and the kinds of events that are wanted only now. */
    method CountIn(nread0: nat, nwrite0: nat, ev: Event, ghost events: seq<Event>) returns (nread: nat, nwrite: nat, res: Mask)
      requires nread0 == Readers(events) && nwrite0 == Writers(events)
      ensures nread == Readers(events + [ev]) && nwrite == Writers(events + [ev])
      ensures res.read || res.write <==> Union(events + [ev]) != Union(events)
      ensures Mask(nread0 > 0 || res.read, nwrite0 > 0 || res.write) == Mask(nread > 0, nwrite > 0)
    {
      hide Union, Readers, Writers;
      CountsAreUnion(events);
      CountsAreUnion(events + [ev]);
      CountSnoc(events, ev);
      nread, nwrite, res := nread0, nwrite0, Mask(false, false);
      if ev.mask.read {
        nread := nread + 1;
        res := res.(read := nread == 1);
      }
      if ev.mask.write {
        nwrite := nwrite + 1;
        res := res.(write := nwrite == 1);
      }
    }

    /** The counts without one of the events, and the kinds of events that nobody wants any more. */
    method CountOut(nread0: nat, nwrite0: nat, ev: Event, ghost events: seq<Event>) returns (nread: nat, nwrite: nat, res: Mask)
      requires nread0 == Readers(events) && nwrite0 == Writers(events) && ev in events
      ensures nread == Readers(Without(events, ev)) && nwrite == Writers(Without(events, ev))
      ensures nread <= nread0 && nwrite <= nwrite0
      ensures res.read || res.write <==> Union(Without(events, ev)) != Union(events)
      ensures Mask(nread0 > 0 && !res.read, nwrite0 > 0 && !res.write) == Mask(nread > 0, nwrite > 0)
    {
      hide Union, Readers, Writers, Without;
      CountsAreUnion(events);
      CountsAreUnion(Without(events, ev));
      CountWithout(events, ev);
      nread, nwrite, res := nread0, nwrite0, Mask(false, false);
      if ev.mask.read {
        nread := nread - 1;
        res := res.(read := nread == 0);
      }
      if ev.mask.write {
        nwrite := nwrite - 1;
        res := res.(write := nwrite == 0);
      }
    }

    /** evmap_io_add. */
    method IoAdd(fd: int, ev: Event) returns (r: int)
      requires Valid() && fd == ev.fd && (fd >= 0 ==> ev !in Listed(fd))
      modifies this`entries, this`repr, this`changes, this`nChanges, entries, changes, repr
      ensures Valid() && fresh(repr - old(repr))
      ensures fd < 0 ==> r == 0 && forall i: nat :: Listed(i) == old(Listed(i))
      ensures fd >= 0 ==> OthersKept(fd)
      ensures fd >= 0 ==>
                var events := old(Listed(fd)) + [ev];
                if Readers(events) > MAX_COUNT || Writers(events) > MAX_COUNT
                then r == -1 && Listed(fd) == old(Listed(fd))
                else Listed(fd) == events && r == if Union(events) != Union(old(Listed(fd))) then 1 else 0
      ensures entries == old(entries) || fresh(entries)
      ensures changes == old(changes) || fresh(changes)
    {
      if fd < 0 {
        return 0;
      }
      hide Valid, Listed, Union, Readers, Writers;
      var ctx := SlotFor(fd);
      r := AddToSlot(fd, ctx, ev);
    }

    /** The part of evmap_io_add that has found the slot. */
    method AddToSlot(fd: nat, ctx: EvmapIo, ev: Event) returns (r: int)
      requires Valid() && fd == ev.fd && fd < entries.Length && entries[fd] == ctx
      modifies this`changes, this`nChanges, changes, repr
      ensures Valid() && OthersKept(fd)
      ensures var events := old(Listed(fd)) + [ev];
              if Readers(events) > MAX_COUNT || Writers(events) > MAX_COUNT
              then r == -1 && Listed(fd) == old(Listed(fd))
              else Listed(fd) == events && r == if Union(events) != Union(old(Listed(fd))) then 1 else 0
      ensures changes == old(changes) || fresh(changes)
    {
      hide Valid, Ahead, Listed, Union, Readers, Writers;
      SlotIs(fd);
      var was := Mask(ctx.nread > 0, ctx.nwrite > 0);
      var nread, nwrite, res := CountIn(ctx.nread, ctx.nwrite, ev, ctx.events);
      if nread > MAX_COUNT || nwrite > MAX_COUNT {
        return -1;
      }
      r := 0;
      if res.read || res.write {
        ChangelistAdd(fd, was, res, ev.et, ctx);
        r := 1;
      } else {
        NothingNew(fd);
      }
      Settle(fd, ctx, ctx.events + [ev], nread, nwrite);
    }

    /** evmap_io_del. */
    method IoDel(fd: int, ev: Event) returns (r: int)
      requires Valid() && fd == ev.fd && (fd >= 0 ==> ev in Listed(fd))
      modifies this`changes, this`nChanges, changes, repr
      ensures Valid()
      ensures fd < 0 ==> r == 0 && forall i: nat :: Listed(i) == old(Listed(i))
      ensures fd >= 0 ==> OthersKept(fd)
      ensures fd >= 0 ==>
                var events := Without(old(Listed(fd)), ev);
                Listed(fd) == events && r == if Union(events) != Union(old(Listed(fd))) then 1 else 0
      ensures changes == old(changes) || fresh(changes)
    {
      if fd < 0 {
        return 0;
      }
      if fd >= entries.Length {
        return -1;
      }
      hide Valid, Ahead, Union, Readers, Writers, Without;
      var ctx := entries[fd];
      SlotIs(fd);
      var was := Mask(ctx.nread > 0, ctx.nwrite > 0);
      var nread, nwrite, res := CountOut(ctx.nread, ctx.nwrite, ev, ctx.events);
      r := 0;
      if res.read || res.write {
        ChangelistDel(fd, was, res, ctx);
        r := 1;
      } else {
        NothingNew(fd);
      }
      WithoutFd(ctx.events, ev);
      Settle(fd, ctx, Without(ctx.events, ev), nread, nwrite);
    }

    /** The first `n` changes have been made known: where they are done, the kernel knows what is
        wanted. */
    ghost predicate Told(n: nat)
      reads this, entries, changes, repr
    {
      && n <= nChanges <= changes.Length
      && (forall fd: nat :: fd < entries.Length ==> SlotTold(fd, n))
      && (forall fd: nat :: fd >= entries.Length ==> Kernel(fd) == Mask(false, false))
      && (forall k: nat :: k < nChanges ==> ChangeOk(k))
    }

    ghost predicate SlotTold(fd: nat, n: nat)
      requires fd < entries.Length && nChanges <= changes.Length
      reads this, entries, changes, repr
    {
      var ctx := entries[fd];
      && (ctx != null ==> ctx in repr)
      && if ctx != null && 0 < ctx.idxplus1 <= n
         then ctx.fd == fd && ctx.Ok() && ctx.idxplus1 <= nChanges && Kernel(fd) == ctx.Wanted()
              && Pending()[ctx.idxplus1 - 1].fd == fd
         else CtxOk(ctx, fd, Kernel(fd), Pending())
    }

    /** What the backend does with one change before it waits. */
    ghost method Tell(k: nat)
      requires Told(k) && k < nChanges
      modifies this`kernel
      ensures Told(k + 1)
    {
      var c := changes[k];
      assert ChangeOk(k) && SlotTold(c.fd, k) && Pending()[k] == c;
      kernel := kernel[c.fd := Apply(c, Kernel(c.fd))];
      var n := k + 1;
      forall fd: nat | fd < entries.Length ensures SlotTold(fd, n) {
        assert old(SlotTold(fd, k));
      }
      forall j: nat | j < nChanges ensures ChangeOk(j) {
        assert old(ChangeOk(j));
      }
      forall fd: nat | fd >= entries.Length ensures Kernel(fd) == Mask(false, false) {
        assert old(Kernel(fd)) == Mask(false, false);
      }
      assert Told(n);
    }

    lemma ToldStart()
      requires Valid()
      ensures Told(0)
    {
      forall fd: nat | fd < entries.Length ensures SlotTold(fd, 0) {
        assert SlotOk(fd);
      }
    }

    /** event_changelist_remove_all. */
    method RemoveAll()
      requires Told(nChanges)
      modifies this`nChanges, repr`idxplus1
      ensures Valid() && nChanges == 0 && forall fd: nat :: Kernel(fd) == Union(Listed(fd))
    {
      ghost var n := nChanges;
      for i := 0 to nChanges
        invariant forall fd: nat :: fd < entries.Length && entries[fd] != null && entries[fd] in repr ==>
                    entries[fd].idxplus1 == if old(entries[fd].idxplus1) <= i then 0 else old(entries[fd].idxplus1)
      {
        assert old(ChangeOk(i));
        var ctx := entries[changes[i].fd];
        forall fd: nat | fd < entries.Length && entries[fd] != null ensures entries[fd] in repr {
          assert old(SlotTold(fd, n));
        }
        forall fd: nat | fd < entries.Length && entries[fd] != null && fd != changes[i].fd
          ensures entries[fd] != ctx && old(entries[fd].idxplus1) != i + 1
        {
          assert old(SlotTold(fd, n)) && old(SlotTold(changes[i].fd, n));
        }
        ctx.idxplus1 := 0;
      }
      nChanges := 0;
      forall fd: nat | fd < entries.Length ensures SlotOk(fd) {
        assert old(SlotTold(fd, n));
      }
      forall fd: nat ensures Kernel(fd) == Union(Listed(fd)) {
        CountsAreUnion(Listed(fd));
        if fd < entries.Length {
          assert SlotOk(fd);
        }
      }
    }

    /** Tells the kernel about every change, and forgets them. */
    method Flush()
      requires Valid()
      modifies this`kernel, this`nChanges, repr`idxplus1
      ensures Valid() && nChanges == 0
      ensures forall fd: nat :: Listed(fd) == old(Listed(fd)) && Kernel(fd) == Union(Listed(fd))
    {
      hide Valid, Told, Union;
      ToldStart();
      ToldBound(0);
      for i := 0 to nChanges
        invariant Told(i)
      {
        Tell(i);
      }
      RemoveAll();
    }

    lemma ToldBound(n: nat)
      requires Told(n)
      ensures n <= nChanges <= changes.Length
    {
    }
  }

  // The same operations on one list of events, with a kernel that hears of each change at once.

  datatype Op = AddEvent(ev: Event) | DelEvent(ev: Event) | FlushAll

  ghost function Of(listed: seq<Event>, fd: int): seq<Event> {
    if listed == [] then []
    else
      var rest, e := Of(listed[..|listed| - 1], fd), listed[|listed| - 1];
      if e.fd == fd then rest + [e] else rest
  }

  ghost function PlainStep(listed: seq<Event>, op: Op): seq<Event> {
    match op
    case AddEvent(e) =>
      if e.fd < 0 || Readers(Of(listed + [e], e.fd)) > MAX_COUNT || Writers(Of(listed + [e], e.fd)) > MAX_COUNT then listed
      else listed + [e]
    case DelEvent(e) => Without(listed, e)
    case FlushAll => listed
  }

  ghost function PlainRun(listed: seq<Event>, ops: seq<Op>): seq<Event> {
    if ops == [] then listed else PlainStep(PlainRun(listed, ops[..|ops| - 1]), ops[|ops| - 1])
  }

  /** No event is added twice or deleted without being there. */
  ghost predicate Legal(listed: seq<Event>, op: Op) {
    match op
    case AddEvent(e) => e !in listed
    case DelEvent(e) => e.fd >= 0 ==> e in listed
    case FlushAll => true
  }

  lemma OfSnoc(listed: seq<Event>, e: Event, fd: int)
    ensures Of(listed + [e], fd) == if e.fd == fd then Of(listed, fd) + [e] else Of(listed, fd)
  {
    assert (listed + [e])[..|listed|] == listed;
  }

  lemma {:induction false} OfMembers(listed: seq<Event>, fd: int)
    ensures forall e :: e in Of(listed, fd) <==> e in listed && e.fd == fd
  {
    if listed != [] {
      var n := |listed| - 1;
      OfMembers(listed[..n], fd);
      assert listed == listed[..n] + [listed[n]];
    }
  }

  lemma {:induction false} OfWithout(listed: seq<Event>, e: Event, fd: int)
    ensures Of(Without(listed, e), fd) == if e.fd == fd then Without(Of(listed, fd), e) else Of(listed, fd)
  {
    if listed != [] {
      var n := |listed| - 1;
      OfWithout(listed[..n], e, fd);
      if listed[n] != e {
        OfSnoc(Without(listed[..n], e), listed[n], fd);
        if listed[n].fd == fd {
          var rest := Of(listed[..n], fd);
          assert (rest + [listed[n]])[..|rest|] == rest;
        }
      } else if e.fd == fd {
        var rest := Of(listed[..n], fd);
        assert (rest + [e])[..|rest|] == rest;
      }
    }
  }

  lemma {:induction false} NotThere(listed: seq<Event>, e: Event)
    requires e !in listed
    ensures Without(listed, e) == listed
  {
    if listed != [] {
      NotThere(listed[..|listed| - 1], e);
    }
  }

  /** The table lists, for every descriptor, the events of the one list. */
  ghost predicate Shows(base: EventBase, listed: seq<Event>)
    reads base, base.entries, base.changes, base.repr
  {
    base.Valid() && (forall fd: nat :: base.Listed(fd) == Of(listed, fd)) && forall e :: e in listed ==> e.fd >= 0
  }

  method StepAdd(base: EventBase, e: Event, ghost listed: seq<Event>)
    requires Shows(base, listed) && e !in listed
    modifies base, base.entries, base.changes, base.repr
    ensures Shows(base, PlainStep(listed, AddEvent(e)))
    ensures base.entries == old(base.entries) || fresh(base.entries)
    ensures base.changes == old(base.changes) || fresh(base.changes)
    ensures fresh(base.repr - old(base.repr)) && base.kernel == old(base.kernel)
  {
    hide EventBase.Valid, EventBase.Listed, Of, Readers, Writers, Union;
    OfMembers(listed, e.fd);
    OfSnoc(listed, e, e.fd);
    var _ := base.IoAdd(e.fd, e);
    if e.fd >= 0 {
      forall fd: nat | fd != e.fd ensures base.Listed(fd) == Of(listed + [e], fd) && base.Listed(fd) == Of(listed, fd) {
        OfSnoc(listed, e, fd);
      }
    }
  }

  method StepDel(base: EventBase, e: Event, ghost listed: seq<Event>)
    requires Shows(base, listed) && (e.fd >= 0 ==> e in listed)
    modifies base, base.entries, base.changes, base.repr
    ensures Shows(base, PlainStep(listed, DelEvent(e)))
    ensures base.entries == old(base.entries)
    ensures base.changes == old(base.changes) || fresh(base.changes)
    ensures base.repr == old(base.repr) && base.kernel == old(base.kernel)
  {
    hide EventBase.Valid, EventBase.Listed, Of, Without, Readers, Writers, Union;
    OfMembers(listed, e.fd);
    WithoutFd(listed, e);
    var _ := base.IoDel(e.fd, e);
    if e.fd < 0 {
      NotThere(listed, e);
    } else {
      forall fd: nat ensures base.Listed(fd) == Of(Without(listed, e), fd) {
        OfWithout(listed, e, fd);
      }
    }
  }

  method StepFlush(base: EventBase, ghost listed: seq<Event>)
    requires Shows(base, listed)
    modifies base, base.entries, base.changes, base.repr
    ensures Shows(base, listed) && base.nChanges == 0
    ensures forall fd: nat :: base.Kernel(fd) == Union(Of(listed, fd))
    ensures base.entries == old(base.entries) && base.changes == old(base.changes) && base.repr == old(base.repr)
  {
    hide EventBase.Valid, EventBase.Listed, Of, Union, EventBase.Kernel;
    base.Flush();
  }

  /** The kernel knows what it would know had it been told of each change at once. */
  ghost predicate UpToDate(base: EventBase, listed: seq<Event>)
    reads base`kernel
  {
    forall fd: nat :: base.Kernel(fd) == Union(Of(listed, fd))
  }

  method Step(base: EventBase, op: Op, ghost listed: seq<Event>)
    requires Shows(base, listed) && Legal(listed, op)
    modifies base, base.entries, base.changes, base.repr
    ensures Shows(base, PlainStep(listed, op))
    ensures base.entries == old(base.entries) || fresh(base.entries)
    ensures base.changes == old(base.changes) || fresh(base.changes)
    ensures fresh(base.repr - old(base.repr))
    ensures if op.FlushAll? then UpToDate(base, listed) else base.kernel == old(base.kernel)
  {
    hide Shows, EventBase.Kernel, Of, Union;
    match op
    case AddEvent(e) => StepAdd(base, e, listed);
    case DelEvent(e) => StepDel(base, e, listed);
    case FlushAll => StepFlush(base, listed);
  }

  /** Runs any operations; `ops[flushed - 1]` is the last flush, if there is one, and the kernel is up
      to date with all that was done until then. */
  method Run(base: EventBase, ops: seq<Op>, ghost listed: seq<Event>) returns (ghost flushed: nat)
    requires Shows(base, listed)
    requires forall i :: 0 <= i < |ops| ==> Legal(PlainRun(listed, ops[..i]), ops[i])
    modifies base, base.entries, base.changes, base.repr
    ensures Shows(base, PlainRun(listed, ops)) && flushed <= |ops|
    ensures forall i :: flushed <= i < |ops| ==> !ops[i].FlushAll?
    ensures flushed > 0 ==> ops[flushed - 1].FlushAll? && UpToDate(base, PlainRun(listed, ops[..flushed]))
  {
    hide Shows, UpToDate, PlainStep, PlainRun, Legal;
    flushed := 0;
    RunEnds(listed, ops);
    for i := 0 to |ops|
      invariant Shows(base, PlainRun(listed, ops[..i])) && flushed <= i
      invariant base.entries == old(base.entries) || fresh(base.entries)
      invariant base.changes == old(base.changes) || fresh(base.changes)
      invariant fresh(base.repr - old(base.repr))
      invariant forall j :: flushed <= j < i ==> !ops[j].FlushAll?
      invariant flushed > 0 ==> ops[flushed - 1].FlushAll? && UpToDate(base, PlainRun(listed, ops[..flushed]))
    {
      RunNext(listed, ops, i);
      Step(base, ops[i], PlainRun(listed, ops[..i]));
      if ops[i].FlushAll? {
        flushed := i + 1;
      }
    }
  }

  lemma RunEnds(listed: seq<Event>, ops: seq<Op>)
    ensures PlainRun(listed, ops[..0]) == listed && ops[..|ops|] == ops
  {
  }

  lemma RunNext(listed: seq<Event>, ops: seq<Op>, i: nat)
    requires i < |ops|
    ensures PlainRun(listed, ops[..i + 1]) == PlainStep(PlainRun(listed, ops[..i]), ops[i])
    ensures ops[i].FlushAll? ==> PlainRun(listed, ops[..i + 1]) == PlainRun(listed, ops[..i])
  {
    assert ops[..i + 1][..i] == ops[..i];
  }

  lemma {:induction false} WithoutFd(events: seq<Event>, e: Event)
    ensures forall x :: x in Without(events, e) ==> x in events
  {
    if events != [] {
      WithoutFd(events[..|events| - 1], e);
    }
  }
}

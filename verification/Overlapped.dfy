/** An evbuffer whose memory the system reads from or writes into while an operation is pending. */
module Overlapped {
  import opened Common
  import opened Flat
  import opened Chains
  import opened EvBuffers
  import opened BufferAdd
  import opened BufferDrain
  import opened BufferMove
  import opened BufferReserve
  import opened BufferVectors
  import opened BufferCommit
  import opened BufferRead

  const MAX_WSABUFS: nat := 16

  datatype Launch = Started | Idle | Refused | Failed | AssertionFails

  class OverlappedBuffer {
    const buf: EvBuffer
    var reading: bool
    var writing: bool
    var firstPinned: Chain?
    var vecs: seq<Vec>  // the memory that the system was given

    constructor (b: EvBuffer)
      ensures buf == b && !reading && !writing && firstPinned == null && vecs == []
    {
      buf, reading, writing, firstPinned, vecs := b, false, false, null, [];
    }
  }

  /** No chunk from index `from` on is in use. */
  ghost predicate FreeFrom(cs: seq<Chain>, from: nat)
    reads cs`pinnedR, cs`pinnedW
  {
    forall i :: from <= i < |cs| ==> !cs[i].Pinned()
  }

  /** Just the chunks from index `s` on are in use, by a read. */
  ghost predicate ReadFrom(cs: seq<Chain>, s: nat)
    reads cs`pinnedR, cs`pinnedW
  {
    forall i :: 0 <= i < |cs| ==> !cs[i].pinnedW && (cs[i].pinnedR <==> s <= i)
  }

  /** A read is pending into `vecs`: they are the free space of the last `|vecs|` chunks, directly
      behind the contents, in order. */
  ghost predicate PendingAt(buf: EvBuffer, vecs: seq<Vec>)
    reads buf, buf.chains
  {
    && buf.Valid() && 0 < |vecs| <= |buf.chains|
    && var s := |buf.chains| - |vecs|;
       && buf.lwd <= s <= buf.lwd + 1 && ReadFrom(buf.chains, s) && VecsFit(buf.chains, s, vecs)
       && forall i :: 0 <= i < |vecs| ==> vecs[i].len > 0
  }

  ghost predicate Pending(o: OverlappedBuffer)
    reads o, o.buf, o.buf.chains
  {
    && o.reading && !o.writing && o.buf.freezeEnd && PendingAt(o.buf, o.vecs)
    && o.firstPinned == o.vecs[0].base
  }

  /** No operation is pending. */
  ghost predicate Quiet(o: OverlappedBuffer)
    reads o, o.buf, o.buf.chains
  {
    !o.reading && !o.writing && o.buf.Valid() && FreeFrom(o.buf.chains, 0)
  }

  /** Changing the pins of a chunk touches nothing else. */
  method PinOne(buf: EvBuffer, c: Chain, read: bool)
    requires buf.Valid() && if read then !c.pinnedR else !c.pinnedW
    modifies c`pinnedR, c`pinnedW
    ensures buf.Valid() && c.pinnedR == (read || old(c.pinnedR)) && c.pinnedW == (!read || old(c.pinnedW))
  {
    hide Flatten, Distinct;
    c.Pin(read);
  }

  /** Pins every chunk from `first` on, and counts them. */
  method PinRest(buf: EvBuffer, first: Chain?, ghost s: nat) returns (npin: nat)
    requires buf.Valid() && s <= |buf.chains| && first == Nth(buf.chains, null, s) && FreeFrom(buf.chains, 0)
    modifies buf.chains`pinnedR, buf.chains`pinnedW
    ensures buf.Valid() && npin == |buf.chains| - s && ReadFrom(buf.chains, s)
  {
    hide Seg, Flatten, Window, LastWithData;
    var chain := first;
    npin := 0;
    SegLength(buf.chains, buf.parts, null);
    while chain != null
      invariant buf.Valid() && s + npin <= |buf.chains| && chain == Nth(buf.chains, null, s + npin)
      invariant forall i :: 0 <= i < |buf.chains|
                            ==> !buf.chains[i].pinnedW && (buf.chains[i].pinnedR <==> s <= i < s + npin)
      decreases |buf.chains| - npin
    {
      SegAt(buf.chains, buf.parts, null, s + npin);
      OthersApart(buf.chains, s + npin);
      PinOne(buf, chain, true);
      npin := npin + 1;
      chain := chain.next;
    }
  }

  ghost predicate Linked(ns: seq<Chain>)
    reads ns`next
  {
    forall i :: 0 <= i < |ns| - 1 ==> ns[i].next == ns[i + 1]
  }

  /** pin_release: ends the use of the chunks that lead on from the first pinned one. */
  method PinRelease(o: OverlappedBuffer, read: bool, ghost ns: seq<Chain>)
    requires |ns| == |o.vecs| && Distinct(ns) && Linked(ns) && (ns != [] ==> o.firstPinned == ns[0])
    requires forall i :: 0 <= i < |ns| ==> !ns[i].released && if read then ns[i].pinnedR else ns[i].pinnedW
    modifies ns`pinnedR, ns`pinnedW, ns`dangling, ns`released
    ensures forall i :: 0 <= i < |ns| ==> Unpinned(ns[i], read)
  {
    var chain := o.firstPinned;
    for i := 0 to |o.vecs|
      invariant i < |ns| ==> chain == ns[i]
      invariant forall j :: 0 <= j < i ==> Unpinned(ns[j], read)
      invariant forall j :: i <= j < |ns| ==> PinAsWas(ns[j])
    {
      var next := chain.next;
      chain.Unpin(read);
      chain := next;
    }
  }

  twostate predicate PinAsWas(c: Chain)
    reads c
  {
    && c.pinnedR == old(c.pinnedR) && c.pinnedW == old(c.pinnedW)
    && c.dangling == old(c.dangling) && c.released == old(c.released)
  }

  /** One kind of use has ended; a detached chunk is given back unless it is in use otherwise. */
  twostate predicate Unpinned(c: Chain, read: bool)
    reads c
  {
    && c.pinnedR == (!read && old(c.pinnedR)) && c.pinnedW == (read && old(c.pinnedW))
    && c.dangling == (old(c.dangling) && c.Pinned()) && c.released == (old(c.dangling) && !c.Pinned())
  }

  lemma TailLinked(buf: EvBuffer, s: nat)
    requires buf.Structure() && s <= |buf.chains|
    ensures Linked(buf.chains[s..]) && Distinct(buf.chains[s..])
    ensures forall i :: s <= i < |buf.chains| ==> !buf.chains[i].released && !buf.chains[i].dangling
  {
  }

  /** Makes room for `atMost` bytes and lays vectors over it. */
  method Prepare(buf: EvBuffer, atMost: nat) returns (vecs: seq<Vec>, slot: Chain?)
    requires buf.Valid() && FreeFrom(buf.chains, 0)
    modifies buf, buf.chains
    ensures buf.Valid() && buf.Contents() == old(buf.Contents()) && FreeFrom(buf.chains, 0)
    ensures From(buf.chains, old(buf.chains), []) && buf.freezeStart == old(buf.freezeStart)
    ensures var f := FirstRoom(buf);
            && buf.lwd <= f <= buf.lwd + 1 && f <= |buf.chains| && VecsFit(buf.chains, f, vecs)
            && buf.At(slot) == Nth(buf.chains, null, f) && f + |vecs| <= |buf.chains|
            && (vecs != [] ==> vecs[0].base == buf.At(slot))
            && (f + |vecs| < |buf.chains| <==> old(LaunchAborts(buf, atMost)))
    ensures VecSum(vecs) == atMost && |vecs| <= MAX_WSABUFS && buf.freezeEnd
    ensures forall i :: 0 <= i < |vecs| ==> vecs[i].len > 0
    ensures old(buf.chains) == [] ==> |buf.chains| == 1
  {
    hide Flatten, Offers, VecsFit, VecSum, Room, MemSum, FreeFrom, FirstRoom, EvBuffer.Valid, Opened, LastNeeded, AbortsFor,
      Ample, Sizes;
    AbortsAmple(buf, atMost);
    MakeRoom(buf, atMost);
    vecs, slot := VecsOver(buf, atMost);
  }

  /** evbuffer_expand_fast, and the end of the buffer is frozen. */
  method MakeRoom(buf: EvBuffer, atMost: nat)
    requires buf.Valid() && FreeFrom(buf.chains, 0)
    modifies buf, buf.chains
    ensures buf.Valid() && buf.Contents() == old(buf.Contents()) && FreeFrom(buf.chains, 0) && buf.freezeEnd
    ensures From(buf.chains, old(buf.chains), []) && buf.freezeStart == old(buf.freezeStart) && buf.lwd == old(buf.lwd)
    ensures buf.chains != [] && Offers(buf, atMost, MAX_WSABUFS)
    ensures old(Ample(buf, atMost, MAX_WSABUFS))
            ==> buf.chains == old(buf.chains) && Sizes(buf.chains) == old(Sizes(buf.chains)) && Opened(buf, atMost, MAX_WSABUFS)
    ensures old(!Ample(buf, atMost, MAX_WSABUFS)) ==> LastNeeded(buf, atMost)
    ensures old(buf.chains) == [] ==> |buf.chains| == 1
  {
    hide Seg, Flatten, LastWithData, Offers, Room, MemSum, FreeFrom, Detached, Opened, LastNeeded, AmpleOf, Sizes, Grows,
      EvBuffer.Valid;
    ghost var was := buf.chains;
    NoPinsIn(was);
    ExpandFast(buf, atMost, MAX_WSABUFS);
    NoPinsIn(buf.chains);
    if was == [] {
      OneMore(was, buf, atMost);
    }
    FreezeEnd(buf);
  }

  lemma OneMore(was: seq<Chain>, buf: EvBuffer, atMost: nat)
    requires Grows(was, buf, atMost, true)
    ensures |buf.chains| == |was| + 1
  {
    hide MemSum;
  }

  method FreezeEnd(buf: EvBuffer)
    requires buf.Valid()
    modifies buf`freezeEnd
    ensures buf.Valid() && buf.freezeEnd
  {
    hide Seg, Flatten, LastWithData;
    buf.freezeEnd := true;
  }

  /** When the assertion at the end of evbuffer_launch_read fails: no more than 16 of the chunks that
      can take bytes, and not all of them, hold as many as are asked for. The vectors then lie in fewer
      chunks than are pinned. Without any chunk it is enough to ask for nothing. */
  ghost predicate LaunchAborts(buf: EvBuffer, atMost: nat)
    reads buf`chains, buf`lwd, buf.chains`misalign, buf.chains`off, buf.chains`mem
  {
    AbortsFor(Sizes(buf.chains), buf.lwd, atMost)
  }

  ghost predicate AbortsFor(sizes: seq<nat>, w: nat, atMost: nat) {
    if sizes == [] then atMost == 0 else exists m: nat :: m <= MAX_WSABUFS && Spares(sizes, w, m, atMost)
  }

  ghost predicate Spares(sizes: seq<nat>, w: nat, m: nat, atMost: nat) {
    Enough(sizes, w, m, atMost) && FirstOf(sizes, w) + m < |sizes|
  }

  /** It does not fail when something is asked for and no chunk lies behind the last one with data. */
  lemma NothingBehind(buf: EvBuffer, atMost: nat)
    requires |buf.chains| <= buf.lwd + 1 && atMost > 0
    ensures !LaunchAborts(buf, atMost)
  {
    hide Sizes;
    var sizes, w := Sizes(buf.chains), buf.lwd;
    if sizes != [] {
      forall m: nat | m <= MAX_WSABUFS ensures !Spares(sizes, w, m, atMost) {
        if Spares(sizes, w, m, atMost) {
          SumNone(sizes, FirstOf(sizes, w));
        }
      }
    }
  }

  /** Then there is room already, unless there is no chunk at all. */
  lemma AbortsAmple(buf: EvBuffer, atMost: nat)
    requires buf.Valid()
    ensures buf.chains != [] && LaunchAborts(buf, atMost) ==> Ample(buf, atMost, MAX_WSABUFS)
    ensures buf.chains != [] && !Ample(buf, atMost, MAX_WSABUFS) ==> atMost > 0
    ensures buf.chains == [] ==> !Ample(buf, atMost, MAX_WSABUFS) && (LaunchAborts(buf, atMost) <==> atMost == 0)
  {
    hide Seg, Flatten, Sizes;
    if buf.chains != [] && atMost == 0 {
      assert Enough(Sizes(buf.chains), buf.lwd, 0, atMost);
    }
    if m: nat :| m <= MAX_WSABUFS && Spares(Sizes(buf.chains), buf.lwd, m, atMost) {
      assert Enough(Sizes(buf.chains), buf.lwd, m, atMost);
    }
  }

  /** The vectors, and the slot of the first chunk that they are in. */
  method VecsOver(buf: EvBuffer, atMost: nat) returns (vecs: seq<Vec>, slot: Chain?)
    requires buf.Valid() && buf.chains != [] && Offers(buf, atMost, MAX_WSABUFS)
    ensures var f := FirstRoom(buf);
            && buf.lwd <= f <= buf.lwd + 1 && f <= |buf.chains| && VecsFit(buf.chains, f, vecs)
            && buf.At(slot) == Nth(buf.chains, null, f) && f + |vecs| <= |buf.chains|
            && (vecs != [] ==> vecs[0].base == buf.At(slot))
            && (LastNeeded(buf, atMost) ==> (f + |vecs| < |buf.chains| <==> atMost == 0))
            && (Opened(buf, atMost, MAX_WSABUFS) ==> (f + |vecs| < |buf.chains| <==> LaunchAborts(buf, atMost)))
    ensures VecSum(vecs) == atMost && |vecs| <= MAX_WSABUFS
    ensures forall i :: 0 <= i < |vecs| ==> vecs[i].len > 0
  {
    hide Seg, Flatten, LastWithData, Offers, VecSum, Room, FirstRoom, LaunchAborts, Opened, LastNeeded, VecsFit;
    vecs, slot := SetupVecs(buf, atMost, MAX_WSABUFS, true);
    FitBound(buf.chains, FirstRoom(buf), vecs);
    SlotReads(buf, slot);
    if LastNeeded(buf, atMost) {
      AllUsed(buf, vecs, atMost);
    }
    if Opened(buf, atMost, MAX_WSABUFS) {
      SomeSpare(buf, vecs, atMost);
    }
  }

  lemma FitBound(cs: seq<Chain>, f: nat, vecs: seq<Vec>)
    requires VecsFit(cs, f, vecs)
    ensures f + |vecs| <= |cs| && (vecs != [] ==> vecs[0].base == cs[f])
  {
  }

  /** Vectors hold no more than the chunks they are in. */
  lemma {:induction false} VecsBelow(cs: seq<Chain>, f: nat, vecs: seq<Vec>, k: nat)
    requires VecsFit(cs, f, vecs) && k <= |vecs|
    ensures VecSum(vecs[..k]) <= RoomSum(cs[f..f + k])
    ensures (forall i :: 0 <= i < k ==> vecs[i].len == Room(vecs[i].base)) ==> VecSum(vecs[..k]) == RoomSum(cs[f..f + k])
  {
    hide Room;
    if k > 0 {
      VecsBelow(cs, f, vecs, k - 1);
      RoomSnoc(cs, f, f + k - 1);
      VecSumNext(vecs, k - 1);
    }
  }

  lemma SlotReads(buf: EvBuffer, slot: Chain?)
    requires buf.Valid() && buf.chains != [] && FirstRoom(buf) <= |buf.chains| && slot == SlotOf(buf, FirstRoom(buf))
    ensures buf.At(slot) == Nth(buf.chains, null, FirstRoom(buf))
    ensures buf.lwd <= FirstRoom(buf) <= buf.lwd + 1
  {
    if FirstRoom(buf) > 0 {
      SegAt(buf.chains, buf.parts, null, FirstRoom(buf) - 1);
    }
  }

  /** If the last chunk is needed the vectors use all there are. */
  lemma AllUsed(buf: EvBuffer, vecs: seq<Vec>, atMost: nat)
    requires VecsFit(buf.chains, FirstRoom(buf), vecs) && atMost == VecSum(vecs) && LastNeeded(buf, atMost)
    requires forall i :: 0 <= i < |vecs| ==> vecs[i].len > 0
    ensures FirstRoom(buf) + |vecs| < |buf.chains| <==> atMost == 0
  {
    hide Room, RoomSum, VecSum, FirstRoom;
    var f := FirstRoom(buf);
    WholeList(vecs, |vecs|);
    NoVecs(vecs);
    VecsBelow(buf.chains, f, vecs, |vecs|);
    if f + |vecs| < |buf.chains| {
      RoomMono(buf.chains, f, f + |vecs|, |buf.chains| - 1);
    }
  }

  /** With as many chunks open as are needed, the vectors leave one over just when fewer would do. */
  lemma SomeSpare(buf: EvBuffer, vecs: seq<Vec>, atMost: nat)
    requires buf.chains != [] && Opened(buf, atMost, MAX_WSABUFS) && VecsFit(buf.chains, FirstRoom(buf), vecs)
    requires |vecs| <= MAX_WSABUFS && VecSum(vecs) == atMost && (vecs != [] ==> VecSum(vecs[..|vecs| - 1]) < atMost)
    requires forall i :: 0 <= i < |vecs| - 1 ==> vecs[i].len == Room(vecs[i].base)
    ensures FirstRoom(buf) + |vecs| < |buf.chains| <==> LaunchAborts(buf, atMost)
  {
    hide Room, RoomSum, VecSum, FirstRoom, Sizes, Sum;
    var f, sizes := FirstRoom(buf), Sizes(buf.chains);
    WholeList(vecs, |vecs|);
    VecsBelow(buf.chains, f, vecs, |vecs|);
    RoomIsSum(buf.chains, f, f + |vecs|);
    if f + |vecs| < |buf.chains| {
      assert Spares(sizes, buf.lwd, |vecs|, atMost);
    }
    if m: nat :| m <= MAX_WSABUFS && Spares(sizes, buf.lwd, m, atMost) {
      if m < |vecs| {
        VecsBelow(buf.chains, f, vecs, |vecs| - 1);
        RoomMono(buf.chains, f, f + m, f + |vecs| - 1);
      }
    }
  }

  /** evbuffer_launch_read, with `accepted` for whether the system takes the request. */
  method LaunchRead(o: OverlappedBuffer, atMost: nat, accepted: bool) returns (r: Launch)
    requires !o.writing && o.buf.Valid() && (!o.reading ==> Quiet(o))
    modifies o, o.buf, o.buf.chains
    ensures r == Refused <==> old(o.buf.freezeEnd || o.reading)
    ensures From(o.buf.chains, old(o.buf.chains), []) && o.buf.freezeStart == old(o.buf.freezeStart)
    ensures r != Refused ==> r == (if accepted then Started else Failed) || r == AssertionFails
    ensures o.buf.Valid() && o.buf.Contents() == old(o.buf.Contents())
    ensures r == Started && atMost > 0 ==> Pending(o)
    ensures r == Started ==> o.reading && VecSum(o.vecs) == atMost && |o.vecs| <= MAX_WSABUFS
    ensures r == Failed ==> Quiet(o) && !o.buf.freezeEnd
    ensures r != Refused ==> (r == AssertionFails <==> old(LaunchAborts(o.buf, atMost)))
    ensures r != Refused && old(o.buf.chains) == [] ==> |o.buf.chains| == 1
  {
    hide Flatten, VecSum, VecsFit, FirstRoom, PendingAt, ReadFrom, FreeFrom, EvBuffer.Valid, LaunchAborts;
    var buf := o.buf;
    if buf.freezeEnd || o.reading {
      return Refused;
    }
    var vecs, slot := Prepare(buf, atMost);
    o.vecs, o.firstPinned := vecs, buf.At(slot);
    ghost var s := FirstRoom(buf);
    var npin := PinRest(buf, o.firstPinned, s);
    NoVecs(vecs);
    if npin != |vecs| {
      return AssertionFails;
    }
    if !accepted {
      Undo(o, s);
      return Failed;
    }
    o.reading := true;
    VecSumNone();
    if atMost > 0 {
      PendingStart(buf, vecs, s);
    }
    return Started;
  }

  lemma NoVecs(vecs: seq<Vec>)
    requires forall i :: 0 <= i < |vecs| ==> vecs[i].len > 0
    ensures VecSum(vecs) == 0 <==> vecs == []
  {
  }

  lemma PendingStart(buf: EvBuffer, vecs: seq<Vec>, s: nat)
    requires buf.Valid() && vecs != [] && s + |vecs| == |buf.chains| && buf.lwd <= s <= buf.lwd + 1
    requires ReadFrom(buf.chains, s) && VecsFit(buf.chains, s, vecs) && forall i :: 0 <= i < |vecs| ==> vecs[i].len > 0
    ensures PendingAt(buf, vecs)
  {
    hide Seg, Flatten, LastWithData;
  }

  /** The system did not take the read. */
  method Undo(o: OverlappedBuffer, ghost s: nat)
    requires !o.reading && !o.writing && o.buf.Valid() && s + |o.vecs| == |o.buf.chains| && ReadFrom(o.buf.chains, s)
    requires o.firstPinned == Nth(o.buf.chains, null, s)
    modifies o.buf`freezeEnd, o.buf.chains`pinnedR, o.buf.chains`pinnedW, o.buf.chains`dangling, o.buf.chains`released
    ensures Quiet(o) && !o.buf.freezeEnd && o.buf.Contents() == old(o.buf.Contents())
  {
    hide Seg, Flatten, LastWithData;
    ReleaseTail(o, s);
    o.buf.freezeEnd := false;
  }

  /** pin_release for a read whose chunks are all still in the buffer: none is given back. */
  method ReleaseTail(o: OverlappedBuffer, ghost s: nat)
    requires o.buf.Valid() && s + |o.vecs| == |o.buf.chains| && ReadFrom(o.buf.chains, s)
    requires o.vecs != [] ==> o.firstPinned == Nth(o.buf.chains, null, s)
    modifies o.buf.chains`pinnedR, o.buf.chains`pinnedW, o.buf.chains`dangling, o.buf.chains`released
    ensures o.buf.Valid() && FreeFrom(o.buf.chains, 0)
  {
    hide Flatten, Window, Distinct, LastWithData;
    UnpinTail(o, s);
  }

  method UnpinTail(o: OverlappedBuffer, ghost s: nat)
    requires o.buf.Valid() && s + |o.vecs| == |o.buf.chains| && ReadFrom(o.buf.chains, s)
    requires o.vecs != [] ==> o.firstPinned == Nth(o.buf.chains, null, s)
    modifies o.buf.chains`pinnedR, o.buf.chains`pinnedW, o.buf.chains`dangling, o.buf.chains`released
    ensures FreeFrom(o.buf.chains, 0)
    ensures forall i :: 0 <= i < |o.buf.chains| ==> !o.buf.chains[i].dangling && !o.buf.chains[i].released
  {
    hide Flatten, Seg, LastWithData;
    ghost var cs, ns := o.buf.chains, o.buf.chains[s..];
    TailLinked(o.buf, s);
    TailLinked(o.buf, 0);
    SegLength(cs, o.buf.parts, null);
    DistinctCut(cs, s);
    PinRelease(o, true, ns);
    forall i | 0 <= i < |cs| ensures !cs[i].Pinned() && !cs[i].dangling && !cs[i].released {
      if i < s {
        assert cs[i] == cs[..s][i];
      } else {
        assert cs[i] == ns[i - s];
      }
    }
  }

  ghost predicate VecOk(v: Vec)
    reads v.base`misalign, v.base`off, v.base`mem
  {
    v.pos == v.base.misalign + v.base.off && v.len <= Room(v.base) && v.len > 0
  }

  /** The vectors lie over the chunks of `was` from `s` on. */
  ghost predicate Over(vecs: seq<Vec>, was: seq<Chain>, s: nat) {
    s + |vecs| == |was| && forall i :: 0 <= i < |vecs| ==> vecs[i].base == was[s + i]
  }

  /** Puts the pieces together again after the front of the buffer has changed. */
  lemma PendingAgain(buf: EvBuffer, vecs: seq<Vec>, was: seq<Chain>, s: nat)
    requires buf.Valid() && vecs != [] && Over(vecs, was, s) && Distinct(was)
    requires buf.PinsOk() || buf.lwd + |was| <= s + |buf.chains| <= buf.lwd + |was| + 1
    requires SuffixOf(buf.chains, was) || SuffixOf(was, buf.chains)
    requires vecs[0].base in buf.chains && Distinct(buf.chains)
    requires forall i :: 0 <= i < |vecs| ==> VecOk(vecs[i])
    requires forall i :: 0 <= i < |buf.chains| ==> !buf.chains[i].pinnedW
                                                   && (buf.chains[i].pinnedR <==> buf.chains[i] in was[s..])
    ensures PendingAt(buf, vecs)
  {
    hide Seg, Flatten, LastWithData, VecOk, PinsBehind, PendingAt;
    var cs := buf.chains;
    var k := SameTail(cs, was, s, vecs[0].base);
    TailMembers(cs, was, s, k);
    forall i | 0 <= i < |vecs| ensures vecs[i].base == cs[k + i] {
      assert was[s..][i] == cs[k..][i];
    }
    PendingFrom(buf, vecs, k);
  }

  /** One list is the end of the other: both agree from a common chunk on. */
  lemma SameTail(cs: seq<Chain>, was: seq<Chain>, s: nat, c: Chain) returns (k: nat)
    requires SuffixOf(cs, was) || SuffixOf(was, cs)
    requires s < |was| && was[s] == c && c in cs && Distinct(cs) && Distinct(was)
    ensures k <= |cs| && cs[k..] == was[s..]
  {
    k :| 0 <= k < |cs| && cs[k] == c;
    if SuffixOf(cs, was) {
      var d := |was| - |cs|;
      assert was[d + k] == was[s] && cs[k..] == was[d + k..];
    } else {
      var d := |cs| - |was|;
      assert cs[d + s] == cs[k] && was[s..] == cs[d + s..];
    }
  }

  lemma PendingFrom(buf: EvBuffer, vecs: seq<Vec>, k: nat)
    requires buf.Valid() && vecs != [] && Over(vecs, buf.chains, k) && ReadFrom(buf.chains, k)
    requires buf.PinsOk() || buf.lwd <= k <= buf.lwd + 1
    requires forall i :: 0 <= i < |vecs| ==> VecOk(vecs[i])
    ensures PendingAt(buf, vecs)
  {
    hide Seg, Flatten, LastWithData;
    var cs := buf.chains;
    assert vecs[0].base == cs[k] && cs[|cs| - 1].pinnedR;
    if buf.PinsOk() && buf.lwd + 1 < |cs| {
      assert cs[buf.lwd + 1].pinnedR;
    }
  }

  lemma SuffixIn(cs: seq<Chain>, was: seq<Chain>)
    requires SuffixOf(cs, was)
    ensures forall c :: c in cs ==> c in was
  {
  }

  lemma TailMembers(cs: seq<Chain>, was: seq<Chain>, s: nat, s': nat)
    requires s <= |was| && s' <= |cs| && cs[s'..] == was[s..] && Distinct(cs)
    ensures forall i :: 0 <= i < |cs| ==> (cs[i] in was[s..] <==> s' <= i)
  {
    forall i | 0 <= i < |cs| ensures cs[i] in cs[s'..] <==> s' <= i {
      if s' <= i {
        assert cs[s'..][i - s'] == cs[i];
      }
    }
  }

  /** What Pending says about the chunks. */
  lemma PendingIs(o: OverlappedBuffer)
    requires Pending(o)
    ensures o.buf.Valid() && o.buf.PinsOk() && o.vecs != [] && Distinct(o.buf.chains)
    ensures |o.vecs| <= |o.buf.chains| && Over(o.vecs, o.buf.chains, |o.buf.chains| - |o.vecs|)
    ensures forall i :: 0 <= i < |o.vecs| ==> VecOk(o.vecs[i])
    ensures forall i :: 0 <= i < |o.vecs| ==> o.vecs[i].base in o.buf.chains && o.vecs[i].base.pinnedR
    ensures o.buf.lwd <= |o.buf.chains| - |o.vecs| <= o.buf.lwd + 1
    ensures forall c :: c in o.buf.chains ==> !c.pinnedW
    ensures forall c :: c in o.buf.chains ==> (c.pinnedR <==> c in o.buf.chains[|o.buf.chains| - |o.vecs|..])
  {
    hide Seg, Flatten, LastWithData;
    SegLength(o.buf.chains, o.buf.parts, null);
    var s := |o.buf.chains| - |o.vecs|;
    TailMembers(o.buf.chains, o.buf.chains, s, s);
  }

  lemma ChainsApart(buf: EvBuffer)
    requires buf.Valid()
    ensures Distinct(buf.chains)
  {
    hide Seg, Flatten, Window, LastWithData;
    SegLength(buf.chains, buf.parts, null);
  }

  /** Draining while a read is pending. */
  method DrainWhilePending(o: OverlappedBuffer, n: nat) returns (ok: bool)
    requires Pending(o)
    modifies o.buf, o.buf.chains`misalign, o.buf.chains`off, o.buf.chains`dangling, o.buf.chains`released
    ensures Pending(o) && o.buf.freezeStart == old(o.buf.freezeStart)
    ensures SuffixOf(o.buf.chains, old(o.buf.chains)) && (ok <==> !(o.buf.freezeStart && old(o.buf.totalLen) > 0))
    ensures o.buf.Contents() == if ok then old(o.buf.Contents())[Min(n, old(o.buf.totalLen))..] else old(o.buf.Contents())
  {
    hide Seg, Distinct, Flatten, Window, LastWithData, VecsFit, PinsBehind, PendingAt, SuffixOf, Evolves, NoHoles,
      EvBuffer.PinsOk, EvBuffer.Tight;
    PendingIs(o);
    ghost var was, s := o.buf.chains, |o.buf.chains| - |o.vecs|;
    ok := Drain(o.buf, n);
    ChainsApart(o.buf);
    SuffixIn(o.buf.chains, was);
    forall i | 0 <= i < |o.buf.chains|
      ensures !o.buf.chains[i].pinnedW && (o.buf.chains[i].pinnedR <==> o.buf.chains[i] in was[s..])
    {
      assert o.buf.chains[i] in was;
    }
    PendingAgain(o.buf, o.vecs, was, s);
  }

  ghost predicate NoWrites(cs: seq<Chain>)
    reads cs`pinnedW
  {
    forall i :: 0 <= i < |cs| ==> !cs[i].pinnedW
  }

  lemma NoPinsIn(cs: seq<Chain>)
    ensures NoWrites(cs) <==> forall c :: c in cs ==> !c.pinnedW
    ensures NonePinnedR(cs) <==> forall c :: c in cs ==> !c.pinnedR
    ensures FreeFrom(cs, 0) <==> forall c :: c in cs ==> !c.Pinned()
  {
  }

  /** evbuffer_add_buffer or evbuffer_prepend_buffer from `src`. */
  method MoveOut(dst: EvBuffer, src: EvBuffer, front: bool) returns (ok: bool)
    requires src.Valid() && src.PinsOk() && dst.Valid() && dst != src && Disjoint(dst.chains, src.chains)
    modifies src, src.chains, dst, dst.chains
    ensures src.Valid() && src.PinsOk() && dst.Valid() && Disjoint(dst.chains, src.chains)
    ensures src.freezeEnd == old(src.freezeEnd) && SuffixOf(src.chains, old(src.chains))
    ensures ok == old(src.totalLen == 0 || !(src.freezeStart || if front then dst.freezeStart else dst.freezeEnd))
    ensures src.freezeStart == old(src.freezeStart)
    ensures dst.freezeStart == old(dst.freezeStart) && dst.freezeEnd == old(dst.freezeEnd)
    ensures From(src.chains, old(src.chains), old(dst.chains)) && From(dst.chains, old(src.chains), old(dst.chains))
    ensures src.Contents() == if ok then [] else old(src.Contents())
    ensures dst.Contents() == if !ok then old(dst.Contents())
                              else if front then old(src.Contents() + dst.Contents())
                              else old(dst.Contents() + src.Contents())
    ensures forall c :: c in old(src.chains) ==> SamePins(c) && (old(c.pinnedR) ==> c in src.chains && EndKept(c))
    ensures old(NoWrites(src.chains) && NoWrites(dst.chains) && NonePinnedR(dst.chains))
            ==> NoWrites(dst.chains) && NonePinnedR(dst.chains)
  {
    hide Disjoint, Flatten, PutInFront, Same, Detached, SuffixOf, NoWrites, NonePinnedR, EvBuffer.Valid, EvBuffer.PinsOk;
    LengthIs(src);
    NothingAdded(dst.Contents());
    NoPinsIn(src.chains);
    NoPinsIn(dst.chains);
    if front {
      ok := PrependBuffer(dst, src);
    } else {
      ok := AddBuffer(dst, src);
    }
    Apart(dst.chains, src.chains);
    NoPinsIn(dst.chains);
  }

  /** Moving the contents to another buffer while a read is pending. */
  method MoveWhilePending(o: OverlappedBuffer, dst: EvBuffer, front: bool) returns (ok: bool)
    requires Pending(o) && dst.Valid() && dst != o.buf && Disjoint(dst.chains, o.buf.chains)
    modifies o.buf, o.buf.chains, dst, dst.chains
    ensures Pending(o) && dst.Valid() && Disjoint(dst.chains, o.buf.chains)
    ensures ok == old(o.buf.totalLen == 0 || !(o.buf.freezeStart || if front then dst.freezeStart else dst.freezeEnd))
    ensures o.buf.freezeStart == old(o.buf.freezeStart)
    ensures dst.freezeStart == old(dst.freezeStart) && dst.freezeEnd == old(dst.freezeEnd)
    ensures From(o.buf.chains, old(o.buf.chains), old(dst.chains)) && From(dst.chains, old(o.buf.chains), old(dst.chains))
    ensures o.buf.Contents() == if ok then [] else old(o.buf.Contents())
    ensures dst.Contents() == if !ok then old(dst.Contents())
                              else if front then old(o.buf.Contents() + dst.Contents())
                              else old(dst.Contents() + o.buf.Contents())
    ensures old(NoWrites(dst.chains) && NonePinnedR(dst.chains)) ==> NoWrites(dst.chains) && NonePinnedR(dst.chains)
  {
    hide Distinct, Disjoint, Flatten, VecsFit, PendingAt, SuffixOf, NoWrites, NonePinnedR, EvBuffer.Valid, EvBuffer.PinsOk;
    PendingIs(o);
    NoPinsIn(o.buf.chains);
    ghost var was, s := o.buf.chains, |o.buf.chains| - |o.vecs|;
    ok := MoveOut(dst, o.buf, front);
    ChainsApart(o.buf);
    SuffixIn(o.buf.chains, was);
    forall i | 0 <= i < |o.buf.chains|
      ensures !o.buf.chains[i].pinnedW && (o.buf.chains[i].pinnedR <==> o.buf.chains[i] in was[s..])
    {
      assert o.buf.chains[i] in was;
    }
    PendingAgain(o.buf, o.vecs, was, s);
  }

  /** The first chunk of the buffer is an empty one that the system writes into. */
  ghost predicate ReadsIntoFirst(buf: EvBuffer)
    reads buf, buf.first
  {
    buf.first != null && buf.first.pinnedR && buf.first.off == 0
  }

  /**
    Adding in front while a read is pending. An empty first chunk is taken to be empty at its
    beginning: if the system writes into it, the read comes adrift.
  */
  method PrependWhilePending(o: OverlappedBuffer, data: seq<byte>) returns (ok: bool)
    requires Pending(o)
    modifies o.buf, o.buf.chains
    ensures ok == !old(o.buf.freezeStart)
    ensures Pending(o) <==> !(ok && old(ReadsIntoFirst(o.buf)))
    ensures o.buf.Valid() && o.buf.Contents() == (if ok then data else []) + old(o.buf.Contents())
    ensures o.buf.freezeStart == old(o.buf.freezeStart) && From(o.buf.chains, old(o.buf.chains), [])
  {
    hide Seg, Distinct, Flatten, Window, LastWithData, VecsFit, PinsBehind, FirstVictim, PendingAt;
    PendingIs(o);
    if o.buf.freezeStart {
      ok := false;
      assert [] + o.buf.Contents() == o.buf.Contents();
      return;
    }
    var first := ReadsFirst(o);
    if first {
      ok := Prepend(o.buf, data);
      Adrift(o);
    } else {
      ok := PrependBefore(o, data);
    }
  }

  /** A buffer with data begins with some, or with a chunk that the system does not write into. */
  lemma DataFirst(o: OverlappedBuffer)
    requires Pending(o) && o.buf.totalLen > 0
    ensures !ReadsIntoFirst(o.buf)
  {
    hide Flatten, Window;
    PendingFit(o);
    if o.buf.first != null && o.buf.first.off == 0 && o.buf.lwd == 0 {
      SegEmpty(o.buf.chains, o.buf.parts, null);
    }
  }

  /** Is the first chunk an empty one that the system writes into? */
  method ReadsFirst(o: OverlappedBuffer) returns (yes: bool)
    requires Pending(o)
    ensures yes == ReadsIntoFirst(o.buf)
    ensures yes ==> o.firstPinned == o.buf.first && o.vecs[0].base == o.buf.first && o.vecs[0].len > 0
    ensures yes ==> o.vecs[0].pos < |o.buf.first.mem|
  {
    hide Seg, Flatten, LastWithData, Window;
    yes := o.buf.first != null && o.buf.first.pinnedR && o.buf.first.off == 0;
    PendingFit(o);
  }

  lemma Adrift(o: OverlappedBuffer)
    requires o.vecs != [] && o.vecs[0].pos < |o.vecs[0].base.mem| && EndsItsMemory(o.vecs[0].base)
    ensures !Pending(o)
  {
    hide Seg, Flatten, LastWithData, Window;
  }

  /** Adding in front of chunks that the system does not write into. */
  method PrependBefore(o: OverlappedBuffer, data: seq<byte>) returns (ok: bool)
    requires Pending(o) && !ReadsIntoFirst(o.buf)
    modifies o.buf, o.buf.chains
    ensures ok == !old(o.buf.freezeStart) && Pending(o) && o.buf.Valid()
    ensures o.buf.Contents() == (if ok then data else []) + old(o.buf.Contents())
    ensures o.buf.freezeStart == old(o.buf.freezeStart) && From(o.buf.chains, old(o.buf.chains), [])
  {
    hide Distinct, Flatten, VecsFit, PendingAt, SuffixOf, Detached, EvBuffer.Valid, EvBuffer.Tight, EvBuffer.PinsOk;
    PendingIs(o);
    ghost var was, s := o.buf.chains, |o.buf.chains| - |o.vecs|;
    ok := Prepend(o.buf, data);
    ChainsApart(o.buf);
    SuffixIn(was[s..], was);
    SuffixIn(was, o.buf.chains);
    assert was[s] in was;
    forall i | 0 <= i < |o.buf.chains|
      ensures !o.buf.chains[i].pinnedW && (o.buf.chains[i].pinnedR <==> o.buf.chains[i] in was[s..])
    {
      var c := o.buf.chains[i];
      assert c in was || (fresh(c) && !c.Pinned());
    }
    PendingAgain(o.buf, o.vecs, was, s);
  }

  /**
    evbuffer_prepend_buffer or evbuffer_add_buffer into the buffer while a read is pending. Nothing
    can be added behind. In front, the read survives unless there is something to move and the
    buffer holds no data: then the chunks that the system writes into are dropped.
  */
  method MoveInWhilePending(o: OverlappedBuffer, src: EvBuffer, front: bool) returns (ok: bool)
    requires Pending(o) && src.Valid() && src.PinsOk() && src != o.buf && Disjoint(o.buf.chains, src.chains)
    requires !src.freezeStart ==> NoWrites(src.chains)
    modifies o.buf, o.buf.chains, src, src.chains
    ensures ok == old(src.totalLen == 0 || (front && !o.buf.freezeStart && !src.freezeStart))
    ensures Pending(o) <==> !(ok && old(src.totalLen > 0 && o.buf.totalLen == 0))
    ensures o.buf.Valid() && src.Valid() && src.PinsOk() && Disjoint(o.buf.chains, src.chains)
    ensures o.buf.Contents() == if ok then old(src.Contents() + o.buf.Contents()) else old(o.buf.Contents())
    ensures src.Contents() == if ok then [] else old(src.Contents())
    ensures From(o.buf.chains, old(o.buf.chains), old(src.chains)) && From(src.chains, old(o.buf.chains), old(src.chains))
    ensures SuffixOf(src.chains, old(src.chains)) && forall c :: c in old(src.chains) ==> SamePins(c)
    ensures o.buf.freezeStart == old(o.buf.freezeStart)
    ensures src.freezeStart == old(src.freezeStart) && src.freezeEnd == old(src.freezeEnd)
  {
    hide Disjoint, Flatten, VecsFit, PendingAt, PutInFront, SuffixOf, Detached, EvBuffer.Valid, EvBuffer.PinsOk, EvBuffer.Tight;
    PendingIs(o);
    LengthIs(src);
    ghost var was, len := o.buf.chains, o.buf.totalLen;
    NothingAdded(o.buf.Contents());
    SuffixSelf(src.chains);
    if !front {
      ok := AddBuffer(o.buf, src);
      assert Same(o.buf) && PendingAt(o.buf, o.vecs);
      return;
    }
    if src.totalLen > 0 && !o.buf.freezeStart && !src.freezeStart {
      PrependInto(o, src);
      ok := true;
    } else {
      ok := PrependBuffer(o.buf, src);
    }
  }

  /** evbuffer_prepend_buffer into the buffer, when it moves something. */
  method PrependInto(o: OverlappedBuffer, src: EvBuffer)
    requires Pending(o) && src.Valid() && src.PinsOk() && src != o.buf && Disjoint(o.buf.chains, src.chains)
    requires src.totalLen > 0 && !o.buf.freezeStart && !src.freezeStart && NoWrites(src.chains)
    modifies o.buf, o.buf.chains, src, src.chains
    ensures Pending(o) <==> old(o.buf.totalLen > 0)
    ensures o.buf.Valid() && src.Valid() && src.PinsOk() && Disjoint(o.buf.chains, src.chains)
    ensures o.buf.Contents() == old(src.Contents() + o.buf.Contents()) && src.Contents() == []
    ensures From(o.buf.chains, old(o.buf.chains), old(src.chains)) && From(src.chains, old(o.buf.chains), old(src.chains))
    ensures SuffixOf(src.chains, old(src.chains)) && forall c :: c in old(src.chains) ==> SamePins(c)
    ensures !o.buf.freezeStart && !src.freezeStart && src.freezeEnd == old(src.freezeEnd)
  {
    hide Distinct, Disjoint, Flatten, VecsFit, PendingAt, Over, SuffixOf, VecOk, PutInFront, Detached,
      EvBuffer.Valid, EvBuffer.PinsOk, EvBuffer.Tight;
    PendingIs(o);
    ghost var was, more, lwd, vecs := o.buf.chains, src.chains, o.buf.lwd, o.vecs;
    ghost var pins := was[|was| - |vecs|..];
    var some := o.buf.totalLen > 0;
    var ok := PrependBuffer(o.buf, src);
    if some {
      PutIs(o.buf, was, lwd);
      NoPinsIn(more);
      Apart(o.buf.chains, src.chains);
      assert forall i :: 0 <= i < |vecs| ==> vecs[i].base in was && Still(vecs[i].base) && old(VecOk(vecs[i]));
      assert forall i :: 0 <= i < |vecs| ==> VecOk(vecs[i]);
      assert forall c :: c in o.buf.chains ==> c in was || !c.Pinned();
      MovedInFront(o, was, lwd);
    } else {
      assert Disjoint(was, o.buf.chains) by { PutNone(o.buf, was, lwd); }
      Dropped(o, was);
    }
  }

  lemma PutIs(buf: EvBuffer, was: seq<Chain>, lwd: nat)
    requires PutInFront(buf, was, lwd, true)
    ensures SuffixOf(was, buf.chains) && buf.lwd + |was| == lwd + |buf.chains|
  {
  }

  lemma PutNone(buf: EvBuffer, was: seq<Chain>, lwd: nat)
    requires PutInFront(buf, was, lwd, false)
    ensures Disjoint(was, buf.chains)
  {
  }

  lemma NothingAdded(s: seq<byte>)
    ensures [] + s == s && s + [] == s
  {
  }

  lemma SuffixSelf(cs: seq<Chain>)
    ensures SuffixOf(cs, cs)
  {
  }

  /** The chunks of the read are not in the buffer any more. */
  lemma Dropped(o: OverlappedBuffer, was: seq<Chain>)
    requires o.vecs != [] && o.vecs[0].base in was && Disjoint(was, o.buf.chains)
    ensures !Pending(o)
  {
    hide Seg, Flatten, LastWithData, Window;
    var i :| 0 <= i < |was| && was[i] == o.vecs[0].base;
    if Pending(o) {
      PendingIs(o);
    }
  }

  /** Chunks without pins have come in front of those of a pending read. */
  lemma MovedInFront(o: OverlappedBuffer, was: seq<Chain>, lwd: nat)
    requires o.reading && !o.writing && o.buf.freezeEnd && o.buf.Valid()
    requires o.vecs != [] && |o.vecs| <= |was| && Over(o.vecs, was, |was| - |o.vecs|) && Distinct(was)
    requires o.firstPinned == o.vecs[0].base
    requires forall i :: 0 <= i < |o.vecs| ==> VecOk(o.vecs[i])
    requires lwd <= |was| - |o.vecs| <= lwd + 1 && SuffixOf(was, o.buf.chains) && o.buf.lwd + |was| == lwd + |o.buf.chains|
    requires forall c :: c in o.buf.chains ==> c in was || !c.Pinned()
    requires forall c :: c in was ==> !c.pinnedW && (c.pinnedR <==> c in was[|was| - |o.vecs|..])
    ensures Pending(o)
  {
    hide Seg, Flatten, LastWithData, Window, VecOk, VecsFit;
    var s := |was| - |o.vecs|;
    SegLength(o.buf.chains, o.buf.parts, null);
    SuffixIn(was, o.buf.chains);
    SuffixIn(was[s..], was);
    assert was[s] in was;
    PendingAgain(o.buf, o.vecs, was, s);
  }

  lemma GatheredLength(vecs: seq<Vec>)
    requires forall i :: 0 <= i < |vecs| ==> vecs[i].pos + vecs[i].len <= |vecs[i].base.mem|
    ensures |Gathered(vecs)| == VecSum(vecs)
  {
  }

  /** Where the bytes of vector `i` are among those of all vectors. */
  lemma {:induction false} GatheredAt(vecs: seq<Vec>, i: nat)
    requires forall j :: 0 <= j < |vecs| ==> vecs[j].pos + vecs[j].len <= |vecs[j].base.mem|
    requires i < |vecs|
    ensures var o := VecSum(vecs[..i]);
            o + vecs[i].len <= VecSum(vecs) == |Gathered(vecs)| && Gathered(vecs)[o..o + vecs[i].len] == Piece(vecs[i])
  {
    hide VecSum, Gathered, Piece;
    var n := |vecs| - 1;
    WholeList(vecs, n + 1);
    GatheredLength(vecs);
    GatheredLength(vecs[..n]);
    GatheredSnoc(vecs, n);
    VecSumNext(vecs, n);
    PieceFront(vecs[n], 0);
    if i < n {
      GatheredAt(vecs[..n], i);
      FrontOf(vecs, i, n);
      SliceLeft(Gathered(vecs[..n]), Piece(vecs[n]), VecSum(vecs[..i]), VecSum(vecs[..i]) + vecs[i].len);
    } else {
      SliceRight(Gathered(vecs[..n]), Piece(vecs[n]));
    }
  }

  lemma FrontOf<T>(s: seq<T>, i: nat, n: nat)
    requires i < n <= |s|
    ensures s[..n][..i] == s[..i]
  {
  }

  lemma SliceLeft(a: seq<byte>, b: seq<byte>, i: nat, j: nat)
    requires i <= j <= |a|
    ensures (a + b)[i..j] == a[i..j]
  {
  }

  lemma SliceRight(a: seq<byte>, b: seq<byte>)
    ensures (a + b)[|a|..|a| + |b|] == b
  {
  }

  /** evbuffer_commit_read: `nBytes` bytes have arrived in the vectors. */
  method CommitRead(o: OverlappedBuffer, nBytes: nat)
    requires Pending(o) && nBytes <= VecSum(o.vecs)
    modifies o, o.buf, o.buf.chains`off, o.buf.chains`pinnedR, o.buf.chains`pinnedW, o.buf.chains`dangling, o.buf.chains`released
    ensures Quiet(o) && !o.buf.freezeEnd && o.buf.chains == old(o.buf.chains)
    ensures o.buf.freezeStart == old(o.buf.freezeStart)
    ensures nBytes <= |old(Gathered(o.vecs))| && o.buf.Contents() == old(o.buf.Contents()) + old(Gathered(o.vecs))[..nBytes]
  {
    hide Seg, Distinct, Flatten, Window, LastWithData, VecSum, Gathered, Piece, VecsFit, PendingAt, ReadFrom, FreeFrom;
    var buf := o.buf;
    ghost var s := |buf.chains| - |o.vecs|;
    PendingFit(o);
    var slot := FirstPinned(buf, s);
    buf.freezeEnd := false;
    TakeVecs(buf, slot, o.vecs, nBytes, s);
    ReleaseTail(o, s);
    o.reading := false;
  }

  lemma PendingFit(o: OverlappedBuffer)
    requires Pending(o)
    ensures o.buf.Valid()
    ensures var s := |o.buf.chains| - |o.vecs|;
            && 0 < |o.vecs| <= |o.buf.chains| && o.buf.lwd <= s <= o.buf.lwd + 1
            && ReadFrom(o.buf.chains, s) && VecsFit(o.buf.chains, s, o.vecs)
            && o.firstPinned == o.buf.chains[s] && forall i :: 0 <= i < |o.vecs| ==> o.vecs[i].len > 0
  {
    hide Seg, Flatten, LastWithData;
  }

  /** The slot that leads to the first chunk of the read. */
  method FirstPinned(buf: EvBuffer, ghost s: nat) returns (slot: Chain?)
    requires buf.Valid() && buf.lwd <= s <= buf.lwd + 1 && s < |buf.chains| && ReadFrom(buf.chains, s)
    ensures slot == SlotOf(buf, s)
  {
    hide Seg, Flatten, LastWithData;
    TargetIs(buf);
    slot := buf.lwdp;
    var chain := buf.At(slot);
    if !chain.pinnedR {
      slot := chain;
    }
  }

  /** The loop of evbuffer_commit_read. */
  method TakeVecs(buf: EvBuffer, first: Chain?, vecs: seq<Vec>, nBytes: nat, ghost s: nat)
    requires buf.Valid() && buf.lwd <= s && s + |vecs| == |buf.chains| && VecsFit(buf.chains, s, vecs)
    requires first == SlotOf(buf, s) && nBytes <= VecSum(vecs) && forall i :: 0 <= i < |vecs| ==> vecs[i].len > 0
    modifies buf`totalLen, buf`parts, buf`lwdp, buf`lwd, buf.chains`off
    ensures buf.Valid()
    ensures nBytes <= |Gathered(vecs)| && buf.Contents() == old(buf.Contents()) + Gathered(vecs)[..nBytes]
  {
    hide Seg, Distinct, Flatten, Window, LastWithData, VecSum, Gathered, Piece;
    var i, slot, remaining := 0, first, nBytes;
    ghost var data := Gathered(vecs);
    VecSumNone();
    InMemory(buf, vecs, s);
    GatheredLength(vecs);
    NothingYet(buf.Contents(), data);
    while remaining > 0 && i < |vecs|
      invariant 0 <= i <= |vecs| && buf.Valid() && buf.lwd <= s + i && slot == SlotOf(buf, s + i)
      invariant remaining == nBytes - Min(nBytes, VecSum(vecs[..i]))
      invariant buf.Contents() == old(buf.Contents()) + data[..nBytes - remaining]
      invariant forall j :: s + i <= j < |buf.chains| ==> buf.chains[j].off == old(buf.chains[j].off)
    {
      var len := Min(vecs[i].len, remaining);
      ghost var done := nBytes - remaining;
      GatheredAt(vecs, i);
      PieceFront(vecs[i], len);
      VecSumNext(vecs, i);
      FrontOfSlice(data, done, done + vecs[i].len, len);
      NextBytes(old(buf.Contents()), data, done, len);
      CommitStep(buf, slot, Vec(vecs[i].base, vecs[i].pos, len), s + i);
      remaining, slot, i := remaining - len, vecs[i].base, i + 1;
    }
    WholeList(vecs, |vecs|);
  }

  lemma FrontOfSlice(s: seq<byte>, a: nat, b: nat, n: nat)
    requires a <= b <= |s| && n <= b - a
    ensures s[a..b][..n] == s[a..a + n]
  {
    SubSeq(s, a, b, 0, n);
  }

  lemma VecSumNext(vecs: seq<Vec>, i: nat)
    requires i < |vecs|
    ensures VecSum(vecs[..i + 1]) == VecSum(vecs[..i]) + vecs[i].len
  {
    assert vecs[..i + 1][..i] == vecs[..i];
  }

  lemma PieceFront(v: Vec, len: nat)
    requires len <= v.len && v.pos + v.len <= |v.base.mem|
    ensures |Piece(v)| == v.len && Piece(Vec(v.base, v.pos, len)) == Piece(v)[..len]
  {
    assert v.base.mem[v.pos..v.pos + v.len][..len] == v.base.mem[v.pos..v.pos + len];
  }

  lemma InMemory(buf: EvBuffer, vecs: seq<Vec>, s: nat)
    requires buf.Valid() && VecsFit(buf.chains, s, vecs)
    ensures forall i :: 0 <= i < |vecs| ==> vecs[i].pos + vecs[i].len <= |vecs[i].base.mem|
  {
    hide Flatten, Window;
    forall i | 0 <= i < |vecs| ensures vecs[i].pos + vecs[i].len <= |vecs[i].base.mem| {
      SegAt(buf.chains, buf.parts, null, s + i);
    }
  }

  /** Just the first `n` chunks are in use, by a write. */
  ghost predicate WriteUpTo(cs: seq<Chain>, n: nat)
    reads cs`pinnedR, cs`pinnedW
  {
    forall i :: 0 <= i < |cs| ==> !cs[i].pinnedR && (cs[i].pinnedW <==> i < n)
  }

  /** A write of the memory `vecs` is pending: it is in the first `|vecs|` chunks, which are pinned, and
      holds the first bytes of the contents. */
  ghost predicate Sending(o: OverlappedBuffer)
    reads o, o.buf, o.buf.chains
  {
    && o.writing && !o.reading && o.buf.freezeStart && o.buf.Valid() && 0 < |o.vecs| <= |o.buf.chains|
    && WriteUpTo(o.buf.chains, |o.vecs|) && o.firstPinned == o.buf.chains[0]
    && Covers(o.buf.chains, o.vecs) && VecSum(o.vecs) <= |o.buf.Contents()|
    && Gathered(o.vecs) == o.buf.Contents()[..VecSum(o.vecs)]
  }

  /** The vectors are data of the first chunks, from its beginning on. */
  ghost predicate Covers(cs: seq<Chain>, vecs: seq<Vec>)
    reads cs`misalign, cs`off
  {
    |vecs| <= |cs| && forall i :: 0 <= i < |vecs| ==>
        vecs[i].base == cs[i] && vecs[i].pos == cs[i].misalign && vecs[i].len <= cs[i].off
  }

  /** The loop of evbuffer_launch_write: vectors over the first `want` bytes, in at most 16 chunks. */
  method PinFront(buf: EvBuffer, want: nat) returns (vecs: seq<Vec>)
    requires buf.Valid() && FreeFrom(buf.chains, 0) && want <= buf.totalLen && buf.chains != []
    modifies buf.chains`pinnedR, buf.chains`pinnedW
    ensures buf.Valid() && 0 < |vecs| <= |buf.chains| && |vecs| <= MAX_WSABUFS && WriteUpTo(buf.chains, |vecs|)
    ensures VecSum(vecs) <= want && (VecSum(vecs) == want || |vecs| == MAX_WSABUFS)
    ensures Gathered(vecs) == buf.Contents()[..VecSum(vecs)]
    ensures Covers(buf.chains, vecs)
  {
    hide Flatten, Window, VecSum, Gathered, Piece, WriteUpTo, EvBuffer.Valid;
    LiveChunk(buf, 0);
    NoneWritten(buf.chains);
    var chain, left := buf.first, want;
    vecs := [];
    ghost var cs, parts := buf.chains, buf.parts;
    Empties(parts);
    SegNil(null);
    VecSumNone();
    GatheredNone();
    while |vecs| < MAX_WSABUFS && chain != null
      invariant buf.Valid() && |vecs| <= |cs| && chain == Nth(cs, null, |vecs|) && WriteUpTo(cs, |vecs|)
      invariant |vecs| <= MAX_WSABUFS
      invariant left == want - VecSum(vecs) && (|vecs| == 0 || left > 0)
      invariant Gathered(vecs) == Flatten(parts[..|vecs|]) && |Flatten(parts[..|vecs|])| == VecSum(vecs)
      invariant Covers(cs, vecs)
      decreases |cs| - |vecs|
    {
      ghost var i := |vecs|;
      PinNext(buf, chain, i);
      LiveChunk(buf, i);
      var v := Vec(chain, chain.misalign, if left > chain.off then chain.off else left);
      GatherNext(parts, vecs, v);
      vecs := vecs + [v];
      if left <= chain.off {
        return;
      }
      left := left - chain.off;
      chain := chain.next;
    }
    FlattenCut(parts, |vecs|);
    if |vecs| == |cs| {
      assert false;
    }
  }

  /** One more vector over the next part, or the first bytes of it. */
  lemma GatherNext(parts: seq<seq<byte>>, vecs: seq<Vec>, v: Vec)
    requires |vecs| < |parts| && Gathered(vecs) == Flatten(parts[..|vecs|]) && |Gathered(vecs)| == VecSum(vecs)
    requires v.base.InBounds() && v.pos == v.base.misalign && v.len <= v.base.off && v.base.Data() == parts[|vecs|]
    ensures var n := |vecs|; var all := vecs + [v];
            && VecSum(all) == VecSum(vecs) + v.len == |Gathered(all)| <= |Flatten(parts)|
            && Gathered(all) == Flatten(parts)[..VecSum(all)]
            && (v.len == v.base.off ==> Gathered(all) == Flatten(parts[..n + 1]))
  {
    hide Flatten, VecSum, Gathered, Window;
    var n := |vecs|;
    VecSnoc(vecs, v);
    GatheredSnoc(vecs + [v], n);
    assert (vecs + [v])[..n + 1] == vecs + [v] && (vecs + [v])[..n] == vecs;
    FlattenSplit(parts, n);
    PieceOfData(v);
    assert parts[n] == parts[n][..v.len] + parts[n][v.len..];
  }

  lemma PieceOfData(v: Vec)
    requires v.base.InBounds() && v.pos == v.base.misalign && v.len <= v.base.off
    ensures Piece(v) == v.base.Data()[..v.len]
  {
  }

  lemma NoneWritten(cs: seq<Chain>)
    requires FreeFrom(cs, 0)
    ensures WriteUpTo(cs, 0)
  {
  }

  /** Pins the next chunk for a write. */
  method PinNext(buf: EvBuffer, chain: Chain, ghost i: nat)
    requires buf.Valid() && i < |buf.chains| && chain == buf.chains[i] && WriteUpTo(buf.chains, i)
    modifies chain`pinnedR, chain`pinnedW
    ensures buf.Valid() && WriteUpTo(buf.chains, i + 1)
  {
    hide Seg, Flatten, Window, LastWithData;
    SegLength(buf.chains, buf.parts, null);
    OthersApart(buf.chains, i);
    PinOne(buf, chain, false);
  }

  /** evbuffer_launch_write, with `accepted` for whether the system takes the request. */
  method LaunchWrite(o: OverlappedBuffer, atMost: int, accepted: bool) returns (r: Launch)
    requires !o.reading && o.buf.Valid() && (!o.writing ==> Quiet(o))
    modifies o, o.buf`freezeStart, o.buf.chains`pinnedR, o.buf.chains`pinnedW, o.buf.chains`dangling, o.buf.chains`released
    ensures r == Refused <==> old(o.buf.freezeStart || o.writing)
    ensures r != Refused ==> r == if o.buf.totalLen == 0 then Idle else if accepted then Started else Failed
    ensures o.buf.Valid() && o.buf.Contents() == old(o.buf.Contents()) && o.buf.chains == old(o.buf.chains)
    ensures r == Started ==> Sending(o) && |o.vecs| <= MAX_WSABUFS
    ensures r == Started && |o.vecs| < MAX_WSABUFS
            ==> VecSum(o.vecs) == if 0 <= atMost <= o.buf.totalLen then atMost else o.buf.totalLen
    ensures r == Failed || r == Idle ==> Quiet(o) && !o.buf.freezeStart
  {
    hide Seg, Distinct, Flatten, Window, LastWithData, VecSum, Gathered, FreeFrom, WriteUpTo, Linked, Covers;
    var buf := o.buf;
    if buf.freezeStart || o.writing {
      return Refused;
    }
    if buf.totalLen == 0 {
      return Idle;
    }
    LengthIs(buf);
    SegNil(null);
    var want := if 0 <= atMost <= buf.totalLen then atMost else buf.totalLen;
    buf.freezeStart := true;
    o.firstPinned := buf.first;
    o.vecs := PinFront(buf, want);
    if !accepted {
      UndoWrite(o);
      return Failed;
    }
    o.writing := true;
    return Started;
  }

  /** The system did not take the write. */
  method UndoWrite(o: OverlappedBuffer)
    requires !o.reading && !o.writing && o.buf.Valid() && 0 < |o.vecs| <= |o.buf.chains|
    requires WriteUpTo(o.buf.chains, |o.vecs|) && o.firstPinned == o.buf.chains[0]
    modifies o.buf`freezeStart, o.buf.chains`pinnedR, o.buf.chains`pinnedW, o.buf.chains`dangling, o.buf.chains`released
    ensures Quiet(o) && !o.buf.freezeStart && o.buf.Contents() == old(o.buf.Contents())
  {
    hide Seg, Flatten, Distinct, LastWithData, Linked, WriteUpTo, FreeFrom;
    TailLinked(o.buf, 0);
    assert o.buf.chains[0..] == o.buf.chains;
    ReleaseFront(o, o.buf.chains);
    o.buf.freezeStart := false;
  }

  /** pin_release for a write; `was` are the chunks of the buffer when it was launched, of which
      some at the front may be gone by now. Those are given back. */
  method ReleaseFront(o: OverlappedBuffer, ghost was: seq<Chain>)
    requires o.buf.Valid() && 0 < |o.vecs| <= |was| && o.firstPinned == was[0]
    requires SuffixOf(o.buf.chains, was) && WriteUpTo(was, |o.vecs|) && Distinct(was) && Linked(was)
    requires forall i :: 0 <= i < |was| - |o.buf.chains| ==> Detached(was[i])
    modifies was`pinnedR, was`pinnedW, was`dangling, was`released
    ensures o.buf.Valid() && FreeFrom(o.buf.chains, 0)
    ensures forall i :: 0 <= i < |was| - |o.buf.chains| ==> was[i].released
  {
    hide Flatten, Window, Distinct, LastWithData, SuffixOf, WriteUpTo, FreeFrom, Linked, Detached, Unpinned;
    SuffixIn(o.buf.chains, was);
    UnpinFront(o, was);
  }

  method UnpinFront(o: OverlappedBuffer, ghost was: seq<Chain>)
    requires o.buf.Valid() && 0 < |o.vecs| <= |was| && o.firstPinned == was[0]
    requires SuffixOf(o.buf.chains, was) && WriteUpTo(was, |o.vecs|) && Distinct(was) && Linked(was)
    requires forall i :: 0 <= i < |was| - |o.buf.chains| ==> Detached(was[i])
    modifies was`pinnedR, was`pinnedW, was`dangling, was`released
    ensures FreeFrom(o.buf.chains, 0)
    ensures forall i :: 0 <= i < |was| - |o.buf.chains| ==> was[i].released
    ensures forall i :: 0 <= i < |o.buf.chains| ==> !o.buf.chains[i].dangling && !o.buf.chains[i].released
  {
    hide Flatten, Seg, LastWithData;
    ghost var cs, ns := o.buf.chains, was[..|o.vecs|];
    ghost var d := |was| - |cs|;
    TailLinked(o.buf, 0);
    DistinctCut(was, |o.vecs|);
    forall i | d <= i < |was| ensures !was[i].released && !was[i].dangling {
      assert was[i] == cs[i - d];
    }
    PinRelease(o, false, ns);
    forall i | 0 <= i < |was|
      ensures !was[i].Pinned() && !was[i].dangling && (was[i].released <==> i < d)
    {
      if i < |ns| {
        assert was[i] == ns[i];
      } else {
        assert was[i] == was[|o.vecs|..][i - |ns|];
      }
    }
    forall i | 0 <= i < |cs| ensures !cs[i].Pinned() && !cs[i].dangling && !cs[i].released {
      assert cs[i] == was[d + i];
    }
  }

  /** evbuffer_commit_write: `nBytes` bytes were sent. Every chunk that is no longer part of the
      buffer is given back. */
  method CommitWrite(o: OverlappedBuffer, nBytes: nat)
    requires Sending(o)
    modifies o, o.buf, o.buf.chains`misalign, o.buf.chains`off, o.buf.chains`dangling, o.buf.chains`released
    modifies o.buf.chains`pinnedR, o.buf.chains`pinnedW
    ensures Quiet(o) && !o.buf.freezeStart && o.buf.freezeEnd == old(o.buf.freezeEnd)
    ensures o.buf.Contents() == old(o.buf.Contents())[Min(nBytes, old(o.buf.totalLen))..]
    ensures forall c :: c in old(o.buf.chains) ==> c in o.buf.chains || c.released
  {
    hide Seg, Distinct, Flatten, Window, LastWithData, Linked, SuffixOf, WriteUpTo, FreeFrom;
    ghost var was := o.buf.chains;
    o.buf.freezeStart := false;
    DrainSent(o.buf, nBytes, |o.vecs|);
    ReleaseFront(o, was);
    o.writing := false;
    FrontOrRest(was, o.buf.chains);
  }

  method DrainSent(buf: EvBuffer, nBytes: nat, ghost n: nat)
    requires buf.Valid() && WriteUpTo(buf.chains, n) && !buf.freezeStart
    modifies buf, buf.chains`misalign, buf.chains`off, buf.chains`dangling, buf.chains`released
    ensures buf.Valid() && buf.Contents() == old(buf.Contents())[Min(nBytes, old(buf.totalLen))..]
    ensures !buf.freezeStart && buf.freezeEnd == old(buf.freezeEnd)
    ensures SuffixOf(buf.chains, old(buf.chains)) && WriteUpTo(old(buf.chains), n)
    ensures Distinct(old(buf.chains)) && Linked(old(buf.chains))
    ensures forall i :: 0 <= i < |old(buf.chains)| - |buf.chains| ==> Detached(old(buf.chains)[i])
  {
    hide Seg, Distinct, Flatten, Window, LastWithData, WriteUpTo, Linked;
    TailLinked(buf, 0);
    assert buf.chains[0..] == buf.chains;
    NoReads(buf, n);
    var _ := Drain(buf, nBytes);
    FrontGone(old(buf.chains), buf.chains);
  }

  lemma NoReads(buf: EvBuffer, n: nat)
    requires WriteUpTo(buf.chains, n)
    ensures buf.PinsOk()
  {
  }

  lemma FrontOrRest(was: seq<Chain>, cs: seq<Chain>)
    requires SuffixOf(cs, was)
    ensures forall c :: c in was ==> c in cs || exists i :: 0 <= i < |was| - |cs| && was[i] == c
  {
    Halves(was, |was| - |cs|);
  }

  /** The chunks in front of the rest of a list are not in the rest. */
  lemma FrontGone(was: seq<Chain>, cs: seq<Chain>)
    requires SuffixOf(cs, was) && Distinct(was)
    ensures forall i :: 0 <= i < |was| - |cs| ==> was[i] !in cs
  {
  }
}

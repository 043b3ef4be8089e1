/** Making the front of a buffer contiguous while a read into it is pending. */
module OverlappedPull {
  import opened Common
  import opened Flat
  import opened Chains
  import opened EvBuffers
  import opened BufferPullup
  import opened BufferCommit
  import opened Overlapped

  /** How many bytes evbuffer_pullup is to make contiguous. */
  function Want(size: int, len: nat): int {
    if size < 0 then len else size
  }

  /**
    evbuffer_pullup while a read is pending. When every byte is copied, the loop that frees the chunks
    that are used up goes on over the empty ones behind them, into which the system writes: the read is
    lost then, and only then.
  */
  method PullupWhilePending(o: OverlappedBuffer, size: int) returns (found: bool)
    requires Pending(o)
    modifies o.buf, o.buf.chains
    ensures var want := Want(size, old(o.buf.totalLen));
            found <==> 0 < want <= old(o.buf.totalLen) && old(o.buf.chains != [] && CanPull(o.buf, want))
    ensures o.buf.Valid() && o.buf.Contents() == old(o.buf.Contents())
    ensures Pending(o) <==> !(found && old(o.buf.first != null && o.buf.first.off < Want(size, o.buf.totalLen) == o.buf.totalLen))
  {
    hide Seg, Distinct, Flatten, Window, LastWithData, VecsFit, PendingAt, Over, InOne, CanPull, Detached,
      EvBuffer.Valid, EvBuffer.Tight, EvBuffer.PinsOk;
    PendingIs(o);
    PendingFit(o);
    LengthIs(o.buf);
    if o.buf.totalLen > 0 {
      FirstHolds(o.buf);
    }
    ghost var was, w0, vecs := o.buf.chains, o.buf.lwd, o.vecs;
    ghost var s, copied := |was| - |vecs|, o.buf.first != null && o.buf.first.off < Want(size, o.buf.totalLen);
    found := Pullup(o.buf, size);
    LengthIs(o.buf);
    if found && copied {
      FirstHolds(o.buf);
      if Want(size, o.buf.totalLen) == o.buf.totalLen {
        if o.buf.lwd > 0 {
          OneIsNotAll(o.buf);
        }
        AllInOne(o, was, w0, s);
      } else {
        Behind(vecs, was, s, o.buf.chains, o.buf.lwd, w0);
        forall i | 0 <= i < |was| ensures !was[i].pinnedW && (was[i].pinnedR <==> s <= i) {
          assert was[i] in was && SamePins(was[i]);
        }
        forall i | 0 <= i < |vecs| ensures VecOk(vecs[i]) {
          StillOk(vecs[i], old(vecs[i].base.misalign), old(vecs[i].base.off), old(vecs[i].base.mem));
        }
        RestInUse(o, was, w0, s);
      }
    }
  }

  lemma StillOk(v: Vec, misalign: nat, off: nat, mem: seq<byte>)
    requires v.pos == misalign + off && v.len > 0 && misalign + off + v.len <= |mem|
    requires v.base.misalign + v.base.off == misalign + off && v.base.mem == mem
    ensures VecOk(v)
  {
  }

  lemma OneIsNotAll(buf: EvBuffer)
    requires buf.Valid() && buf.lwd > 0
    ensures buf.first != null && buf.first.off < buf.totalLen
  {
    hide Seg, Flatten, Window;
    SegAt(buf.chains, buf.parts, null, 0);
    SegAt(buf.chains, buf.parts, null, buf.lwd);
    MoreThanFirst(buf.parts, buf.lwd);
  }

  lemma MoreThanFirst(parts: seq<seq<byte>>, i: nat)
    requires 0 < i < |parts| && parts[i] != []
    ensures |parts[0]| < |Flatten(parts)|
  {
    hide Flatten;
    FlattenSplit(parts, 0);
    FlattenSplit(parts[1..], i - 1);
  }

  /** The chunks of the read come behind the new first chunk, each as far behind the last one with data as before. */
  lemma Behind(vecs: seq<Vec>, was: seq<Chain>, s: nat, now: seq<Chain>, w: nat, w0: nat)
    requires InOne(now, w, was, w0) && w > 0 && Over(vecs, was, s) && w0 <= s
    ensures |was| < s + |now| && Over(vecs, now, s + |now| - |was|)
    ensures forall i :: 0 <= i < |vecs| ==> vecs[i].base in now[1..]
    ensures forall i :: 1 <= i < |now| ==> i + |was| >= |now| && now[i] == was[i + |was| - |now|]
    ensures now[0] in was ==> now[0] == was[0] && s > 0
  {
    var t := now[1..];
    assert forall i :: 1 <= i < |now| ==> now[i] == t[i - 1];
    forall i | 0 <= i < |vecs| ensures vecs[i].base in t && vecs[i].base == now[s + |now| - |was| + i] {
      assert t[s + |now| - |was| + i - 1] == was[s + i];
    }
  }

  /** Nothing is left of the chunks behind. */
  lemma AllInOne(o: OverlappedBuffer, was: seq<Chain>, w0: nat, s: nat)
    requires o.buf.Valid() && o.buf.chains != [] && o.buf.lwd == 0
    requires InOne(o.buf.chains, o.buf.lwd, was, w0) && Distinct(was)
    requires o.vecs != [] && Over(o.vecs, was, s) && 0 < w0 <= s
    ensures !Pending(o)
  {
    hide Flatten, Window;
    assert o.vecs[0].base == was[s];
  }

  /** The chunks from the last one with data on are the same. */
  lemma RestInUse(o: OverlappedBuffer, was: seq<Chain>, w0: nat, s: nat)
    requires o.reading && !o.writing && o.buf.freezeEnd && o.buf.Valid()
    requires InOne(o.buf.chains, o.buf.lwd, was, w0) && o.buf.lwd > 0
    requires o.vecs != [] && Over(o.vecs, was, s) && w0 <= s <= w0 + 1 && o.firstPinned == o.vecs[0].base
    requires forall i :: 0 <= i < |o.vecs| ==> VecOk(o.vecs[i])
    requires ReadFrom(was, s) && (o.buf.chains[0] !in was ==> !o.buf.chains[0].Pinned())
    ensures Pending(o)
  {
    hide Flatten, Window, VecOk, Seg, LastWithData, PendingAt, Over, InOne, EvBuffer.Valid;
    ghost var k := s + |o.buf.chains| - |was|;
    Behind(o.vecs, was, s, o.buf.chains, o.buf.lwd, w0);
    LwdShift(o.buf.chains, o.buf.lwd, was, w0);
    PendingFrom(o.buf, o.vecs, k);
  }

  lemma LwdShift(now: seq<Chain>, w: nat, was: seq<Chain>, w0: nat)
    requires InOne(now, w, was, w0) && w > 0
    ensures w + |was| == w0 + |now|
  {
  }

  /** Two chunks hold one byte each, the second at its very end, and the system writes into a third. */
  lemma ThreeChunks(o: OverlappedBuffer, a: Chain, b: Chain, c: Chain)
    requires o.buf.chains == [a, b, c] && o.buf.parts == [a.Data(), b.Data(), c.Data()] && a != b && b != c && c != a
    requires o.buf.first == a && o.buf.last == c && o.buf.lwd == 1 && o.buf.lwdp == a && o.buf.totalLen == 2
    requires a.next == b && b.next == c && c.next == null && a.Ok() && b.Ok() && c.Ok()
    requires a.off == 1 && b.off == 1 && b.misalign + 1 == |b.mem| && c.off == 0 == c.misalign
    requires !a.Pinned() && !b.Pinned() && c.pinnedR && !c.pinnedW
    requires o.reading && !o.writing && o.buf.freezeEnd && o.vecs == [Vec(c, 0, |c.mem|)] && o.firstPinned == c
    ensures Pending(o) && o.buf.Valid() && CanPull(o.buf, 2)
  {
    hide Flatten, Window;
    var parts := o.buf.parts;
    assert parts[1..] == [b.Data(), c.Data()];
    TwoParts(a.Data(), b.Data(), c.Data());
    assert o.buf.chains[1..] == [b, c];
  }

  lemma TwoParts(a: seq<byte>, b: seq<byte>, c: seq<byte>)
    requires |a| == 1 && |b| == 1 && |c| == 0
    ensures |Flatten([a, b, c])| == 2
  {
    assert [a, b, c][1..] == [b, c] && [b, c][1..] == [c];
    FlattenOne(c);
  }

  /** A chunk with one byte, at the beginning or at the end of its memory. */
  method ByteChunk(next: Chain, atEnd: bool) returns (c: Chain)
    ensures fresh(c) && c.Ok() && !c.Pinned() && c.off == 1 && c.next == next && (atEnd ==> c.misalign + 1 == |c.mem|)
  {
    c := new Chain(1);
    c.off, c.next := 1, next;
    if atEnd {
      c.misalign := |c.mem| - 1;
    }
  }

  /** The buffer of these chunks. */
  method Around(a: Chain, b: Chain, c: Chain) returns (o: OverlappedBuffer)
    requires a != b && b != c && c != a && a.next == b && b.next == c && c.next == null && a.Ok() && b.Ok() && c.Ok()
    requires a.off == 1 && b.off == 1 && b.misalign + 1 == |b.mem| && c.off == 0 == c.misalign
    requires !a.Pinned() && !b.Pinned() && c.pinnedR && !c.pinnedW
    ensures fresh(o) && fresh(o.buf) && o.buf.chains == [a, b, c] && Pending(o) && CanPull(o.buf, 2) && o.buf.Valid()
    ensures o.buf.first == a && o.buf.totalLen == 2 && o.reading
  {
    hide Seg, Flatten, Window, LastWithData, PendingAt, CanPull, EvBuffer.Valid, EvBuffer.Structure, Pending;
    var buf := new EvBuffer();
    buf.first, buf.last, buf.lwdp, buf.totalLen, buf.freezeEnd := a, c, a, 2, true;
    buf.chains, buf.parts, buf.lwd := [a, b, c], [a.Data(), b.Data(), c.Data()], 1;
    o := new OverlappedBuffer(buf);
    o.reading, o.firstPinned, o.vecs := true, c, [Vec(c, 0, |c.mem|)];
    ThreeChunks(o, a, b, c);
  }

  method Three() returns (o: OverlappedBuffer)
    ensures fresh(o) && fresh(o.buf) && forall i :: 0 <= i < |o.buf.chains| ==> fresh(o.buf.chains[i])
    ensures Pending(o) && CanPull(o.buf, 2) && o.buf.totalLen == 2 && o.buf.first != null && o.buf.first.off == 1 && o.reading
    ensures o.buf.Valid() && o.buf.chains != []
  {
    hide Seg, Flatten, Window, LastWithData, PendingAt, CanPull, EvBuffer.Valid, EvBuffer.Structure, Pending;
    var c := new Chain(1);
    c.pinnedR := true;
    var b := ByteChunk(c, true);
    var a := ByteChunk(b, false);
    o := Around(a, b, c);
  }

  /** All of two bytes is made contiguous: the chunk that the system writes into is dropped. */
  method PullupLosesRead() returns (o: OverlappedBuffer, found: bool)
    ensures fresh(o) && fresh(o.buf) && found && o.buf.Valid() && o.buf.totalLen == 2 && o.reading && !Pending(o)
  {
    hide Seg, Flatten, Window, LastWithData, PendingAt, CanPull, EvBuffer.Valid, EvBuffer.Structure, Pending;
    o := Three();
    LengthIs(o.buf);
    found := PullupWhilePending(o, -1);
    LengthIs(o.buf);
  }
}

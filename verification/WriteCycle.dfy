/** A whole overlapped write, with bytes added to the buffer while it is pending. */
module WriteCycle {
  import opened Common
  import opened Flat
  import opened Chains
  import opened EvBuffers
  import opened BufferAdd
  import opened BufferDrain
  import opened BufferCommit
  import opened Overlapped

  /** What the vectors hold, one by one. */
  lemma {:induction false} PiecesOf(vecs: seq<Vec>) returns (pieces: seq<seq<byte>>)
    requires forall i :: 0 <= i < |vecs| ==> vecs[i].pos + vecs[i].len <= |vecs[i].base.mem|
    ensures |pieces| == |vecs|
    ensures forall i :: 0 <= i < |vecs| ==> pieces[i] == vecs[i].base.mem[vecs[i].pos..vecs[i].pos + vecs[i].len]
    ensures Gathered(vecs) == Flatten(pieces)
  {
    if vecs == [] {
      pieces := [];
    } else {
      var n := |vecs| - 1;
      var front := PiecesOf(vecs[..n]);
      pieces := front + [Piece(vecs[n])];
      FlattenAppend(front, [Piece(vecs[n])]);
      FlattenOne(Piece(vecs[n]));
    }
  }

  lemma PiecesAre(vecs: seq<Vec>, pieces: seq<seq<byte>>)
    requires |pieces| == |vecs| && forall i :: 0 <= i < |vecs| ==> Holds(vecs[i], pieces[i])
    ensures Gathered(vecs) == Flatten(pieces)
  {
    hide Gathered;
    var now := PiecesOf(vecs);
    assert now == pieces;
  }

  ghost predicate Holds(v: Vec, piece: seq<byte>)
    reads v.base`mem
  {
    v.pos + v.len <= |v.base.mem| && v.base.mem[v.pos..v.pos + v.len] == piece
  }

  /** Bytes at the beginning of a chunk's data are still there when only more have come behind it. */
  lemma FrontKept(v: Vec, was: seq<byte>, off: nat)
    requires v.pos == v.base.misalign && v.len <= off <= v.base.off && v.base.InBounds() && |was| == |v.base.mem|
    requires Window(was, v.pos, off) <= v.base.Data()
    ensures Holds(v, was[v.pos..v.pos + v.len])
  {
    var now := v.base.mem;
    assert was[v.pos..v.pos + v.len] == Window(was, v.pos, off)[..v.len];
    assert now[v.pos..v.pos + v.len] == v.base.Data()[..v.len];
  }

  /** The chunks of the write are still the first ones, and nothing else is in use. */
  lemma StillWriting(was: seq<Chain>, now: seq<Chain>, v: nat, n: nat)
    requires n <= v && Leads(was, v, now) && Distinct(now) && WriteUpTo(was, n)
    requires forall c :: c in now ==> c in was || !c.Pinned()
    ensures WriteUpTo(now, n) && n <= |now| && forall i :: 0 <= i < n ==> now[i] == was[i]
  {
    forall i | 0 <= i < |now| ensures !now[i].pinnedR && (now[i].pinnedW <==> i < n) {
      if i < n {
        assert now[i] == was[i];
      } else if now[i] in was {
        var j :| 0 <= j < |was| && was[j] == now[i];
      }
    }
  }

  /** What Sending says about the chunks. */
  lemma SendingIs(o: OverlappedBuffer)
    requires Sending(o)
    ensures o.writing && !o.reading && o.buf.freezeStart && o.firstPinned == o.buf.chains[0]
    ensures o.buf.Valid() && Distinct(o.buf.chains) && 0 < |o.vecs| <= |o.buf.chains|
    ensures |o.vecs| <= FirstVictim(o.buf.chains, o.buf.lwd) && Covers(o.buf.chains, o.vecs)
    ensures VecSum(o.vecs) <= |o.buf.Contents()| && Gathered(o.vecs) == o.buf.Contents()[..VecSum(o.vecs)]
    ensures WriteUpTo(o.buf.chains, |o.vecs|)
    ensures forall i :: 0 <= i < |o.vecs| ==> o.vecs[i].pos + o.vecs[i].len <= |o.vecs[i].base.mem|
  {
    hide Flatten, Gathered, VecSum, Window;
  }

  /** The other way round. */
  lemma SendingFrom(o: OverlappedBuffer)
    requires o.writing && !o.reading && o.buf.freezeStart && 0 < |o.vecs| <= |o.buf.chains|
    requires WriteUpTo(o.buf.chains, |o.vecs|) && o.firstPinned == o.buf.chains[0] && Covers(o.buf.chains, o.vecs)
    requires VecSum(o.vecs) <= |o.buf.Contents()| && Gathered(o.vecs) == o.buf.Contents()[..VecSum(o.vecs)]
    ensures Sending(o) <==> o.buf.Valid()
  {
    hide Flatten, Gathered, VecSum, Window, EvBuffer.Valid;
  }

  lemma MoreBehind(s: seq<byte>, t: seq<byte>, n: nat)
    requires n <= |s|
    ensures s[..n] == (s + t)[..n]
  {
  }

  lemma NothingMore(s: seq<byte>)
    ensures s + [] == s
  {
  }

  lemma ChainsIn(buf: EvBuffer)
    requires buf.Structure()
    ensures Distinct(buf.chains) && forall c :: c in buf.chains ==> c.InBounds()
  {
    hide Flatten, Window;
  }

  /**
    evbuffer_add while a write is pending: the memory that the system reads from is not touched, and
    the write goes on as it was, unless the add itself fails or loses the pointer as it may without any.
  */
  method AddWhileSending(o: OverlappedBuffer, data: seq<byte>) returns (r: AddResult)
    requires Sending(o)
    modifies o.buf, o.buf.chains
    ensures r == if old(o.buf.freezeEnd) then Frozen else if old(AddAborts(o.buf, |data|)) then Aborted else Added
    ensures r != Aborted ==> o.buf.Contents() == old(o.buf.Contents()) + if r == Added then data else []
    ensures r != Aborted ==> Gathered(o.vecs) == old(Gathered(o.vecs))
    ensures r != Aborted ==> (Sending(o) <==> r == Frozen || old(AddKeepsPointer(o.buf, |data|)))
    ensures r != Aborted && old(AllHold(o.buf.chains)) ==> AllHold(o.buf.chains)
    ensures r != Aborted ==> From(o.buf.chains, old(o.buf.chains), []) && o.vecs == old(o.vecs)
    ensures o.buf.freezeStart && o.buf.freezeEnd == old(o.buf.freezeEnd)
  {
    hide Seg, Distinct, Flatten, Window, LastWithData, Gathered, VecSum, Piece, Leads, AllHold, FirstVictim, Detached,
      AddAborts, AddKeepsPointer, EvBuffer.Valid, EvBuffer.Tight, Sending, Covers, WriteUpTo;
    SendingIs(o);
    ghost var was, vecs := o.buf.chains, o.vecs;
    r := AddKeeping(o.buf, data, vecs);
    if r != Aborted {
      MoreBehind(old(o.buf.Contents()), data, VecSum(vecs));
      NothingMore(old(o.buf.Contents()));
      SendingFrom(o);
    }
  }

  /** The part about the buffer. */
  method AddKeeping(buf: EvBuffer, data: seq<byte>, ghost vecs: seq<Vec>) returns (r: AddResult)
    requires buf.Valid() && Distinct(buf.chains) && |vecs| <= FirstVictim(buf.chains, buf.lwd)
    requires Covers(buf.chains, vecs)
    requires WriteUpTo(buf.chains, |vecs|)
    requires forall i :: 0 <= i < |vecs| ==> vecs[i].pos + vecs[i].len <= |vecs[i].base.mem|
    modifies buf, buf.chains
    ensures r == if old(buf.freezeEnd) then Frozen else if old(AddAborts(buf, |data|)) then Aborted else Added
    ensures r != Aborted ==> buf.Contents() == old(buf.Contents()) + if r == Added then data else []
    ensures r != Aborted ==> (buf.Valid() <==> r == Frozen || old(AddKeepsPointer(buf, |data|)))
    ensures r != Aborted ==> |vecs| <= |buf.chains| && WriteUpTo(buf.chains, |vecs|) && Covers(buf.chains, vecs)
    ensures r != Aborted && vecs != [] ==> buf.chains[0] == old(buf.chains[0])
    ensures r != Aborted ==> Gathered(vecs) == old(Gathered(vecs))
    ensures r != Aborted && old(AllHold(buf.chains)) ==> AllHold(buf.chains)
    ensures r != Aborted ==> From(buf.chains, old(buf.chains), [])
    ensures buf.freezeStart == old(buf.freezeStart) && buf.freezeEnd == old(buf.freezeEnd)
  {
    hide Seg, Distinct, Flatten, Window, LastWithData, Gathered, VecSum, Piece, Leads, AllHold, FirstVictim, Detached,
      AddAborts, AddKeepsPointer, EvBuffer.Valid, EvBuffer.Tight, Holds;
    ghost var was, v := buf.chains, FirstVictim(buf.chains, buf.lwd);
    ghost var pieces := PiecesOf(vecs);
    r := Add(buf, data);
    if r == Aborted {
      return;
    }
    ChainsIn(buf);
    forall i | 0 <= i < |was|
      ensures !was[i].pinnedR && (was[i].pinnedW <==> i < |vecs|) && (i < |vecs| ==> DataKept(was[i]))
    {
      assert was[i] in was && SamePins(was[i]);
    }
    StillWriting(was, buf.chains, v, |vecs|);
    forall i | 0 <= i < |vecs| ensures Holds(vecs[i], pieces[i]) {
      var c := buf.chains[i];
      assert c == was[i] && c.InBounds() && DataKept(c);
      FrontKept(vecs[i], old(c.mem), old(c.off));
    }
    PiecesAre(vecs, pieces);
  }

  /** Without an empty chunk an add cannot fail and does not lose the pointer. */
  lemma HoldsAdd(buf: EvBuffer, n: nat)
    requires buf.Valid() && AllHold(buf.chains)
    ensures !AddAborts(buf, n) && AddKeepsPointer(buf, n) && buf.totalLen > 0
  {
    hide Seg, Window;
    FirstHolds(buf);
  }

  lemma FirstHolds(buf: EvBuffer)
    requires buf.Valid() && AllHold(buf.chains)
    ensures buf.totalLen > 0
  {
    hide Window, LastWithData;
    SegSplit(buf.chains, buf.parts, null, 0);
  }

  /** A buffer in plain use that has bytes has no empty chunk. */
  lemma TightHolds(buf: EvBuffer)
    requires buf.Valid() && buf.Tight() && buf.totalLen > 0
    ensures AllHold(buf.chains)
  {
    hide Seg, Window;
    if buf.chains != [] && EmptyFrom(buf.chains, 0) {
      SegEmpty(buf.chains, buf.parts, null);
    }
  }

  /** Bytes are added while a write is pending, any number of times. */
  method AddAll(o: OverlappedBuffer, adds: seq<seq<byte>>)
    requires Sending(o) && AllHold(o.buf.chains) && !o.buf.freezeEnd
    modifies o.buf, o.buf.chains
    ensures Sending(o) && !o.buf.freezeEnd && From(o.buf.chains, old(o.buf.chains), [])
    ensures Gathered(o.vecs) == old(Gathered(o.vecs)) && o.buf.Contents() == old(o.buf.Contents()) + Flatten(adds)
  {
    hide Seg, Distinct, Flatten, Window, LastWithData, Gathered, VecSum, AllHold, Detached, AddAborts, AddKeepsPointer,
      EvBuffer.Valid, EvBuffer.Tight, Sending;
    NothingFlat(old(o.buf.Contents()), adds);
    for i := 0 to |adds|
      invariant Sending(o) && AllHold(o.buf.chains) && !o.buf.freezeEnd && From(o.buf.chains, old(o.buf.chains), [])
      invariant Gathered(o.vecs) == old(Gathered(o.vecs))
      invariant o.buf.Contents() == old(o.buf.Contents()) + Flatten(adds[..i])
    {
      SendingIs(o);
      HoldsAdd(o.buf, |adds[i]|);
      var _ := AddWhileSending(o, adds[i]);
      NextFlat(old(o.buf.Contents()), adds, i);
    }
    WholeList(adds, |adds|);
  }

  lemma NothingFlat(s: seq<byte>, adds: seq<seq<byte>>)
    ensures s + Flatten(adds[..0]) == s
  {
  }

  lemma NextFlat(s: seq<byte>, adds: seq<seq<byte>>, i: nat)
    requires i < |adds|
    ensures s + Flatten(adds[..i]) + adds[i] == s + Flatten(adds[..i + 1])
  {
    FlattenSplit(adds, i);
  }

  lemma SentAndLeft(s: seq<byte>, all: seq<byte>, wire: seq<byte>, n: nat)
    requires n <= |wire| <= |s| && wire == s[..|wire|] && s <= all
    ensures wire[..n] + all[n..] == all
  {
    assert all == all[..n] + all[n..];
    assert wire[..n] == all[..n];
  }

  lemma PlainFront(s: seq<byte>, t: seq<byte>, k: nat)
    requires k <= |s|
    ensures s <= s + t && s[..k] <= s && |s[..k]| == k
  {
  }

  /** A write is launched, bytes are added while it is pending, and it completes: what was sent and what
      is left are the old contents and what was added, in this order. */
  method SendCycle(o: OverlappedBuffer, atMost: int, adds: seq<seq<byte>>, nBytes: nat) returns (ghost wire: seq<byte>)
    requires Quiet(o) && !o.buf.freezeStart && !o.buf.freezeEnd && AllHold(o.buf.chains)
    modifies o, o.buf, o.buf.chains
    ensures Quiet(o) && !o.buf.freezeStart && !o.buf.freezeEnd
    ensures wire <= old(o.buf.Contents())
    ensures old(|o.buf.chains|) < MAX_WSABUFS
            ==> |wire| == if 0 <= atMost <= old(o.buf.totalLen) then atMost else old(o.buf.totalLen)
    ensures nBytes <= |wire| ==> wire[..nBytes] + o.buf.Contents() == old(o.buf.Contents()) + Flatten(adds)
  {
    hide Seg, Distinct, Flatten, Window, LastWithData, Gathered, VecSum, AllHold, Detached, AddAborts, AddKeepsPointer,
      EvBuffer.Valid, EvBuffer.Tight, FreeFrom, Sending;
    QuietIs(o);
    HoldsAdd(o.buf, 0);
    LengthIs(o.buf);
    var r := LaunchWrite(o, atMost, true);
    SendingIs(o);
    LengthIs(o.buf);
    ghost var bytes := o.buf.Contents();
    AddAll(o, adds);
    wire := Gathered(o.vecs);
    ghost var all := o.buf.Contents();
    SendingIs(o);
    LengthIs(o.buf);
    PlainFront(bytes, Flatten(adds), VecSum(o.vecs));
    CommitWrite(o, nBytes);
    if nBytes <= |wire| {
      SentAndLeft(bytes, all, wire, nBytes);
    }
  }

  lemma QuietIs(o: OverlappedBuffer)
    requires Quiet(o)
    ensures o.buf.Valid() && !o.reading && !o.writing
  {
  }
}

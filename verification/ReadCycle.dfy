/** A whole overlapped read, with other work on the buffer going on while it is pending. */
module ReadCycle {
  import opened Flat
  import opened Chains
  import opened EvBuffers
  import opened BufferDrain
  import opened BufferMove
  import opened BufferCommit
  import opened BufferRead
  import opened Overlapped

  /** What may happen to the buffer between launch and completion. */
  datatype Work = DrainBytes(n: nat) | MoveOutAll(front: bool) | PrependBytes(data: seq<byte>) | MoveIn

  /** The same on two plain sequences: the buffer and the one it exchanges data with. */
  function PlainWork(s: (seq<byte>, seq<byte>), w: Work): (seq<byte>, seq<byte>) {
    match w
    case DrainBytes(n) => (s.0[Min(n, |s.0|)..], s.1)
    case MoveOutAll(front) => ([], if front then s.0 + s.1 else s.1 + s.0)
    case PrependBytes(data) => (data + s.0, s.1)
    case MoveIn => (s.1 + s.0, [])
  }

  function PlainWorks(s: (seq<byte>, seq<byte>), work: seq<Work>): (seq<byte>, seq<byte>) {
    if work == [] then s else PlainWork(PlainWorks(s, work[..|work| - 1]), work[|work| - 1])
  }

  /** Nothing is put in front while the buffer is empty. */
  predicate Careful(s: (seq<byte>, seq<byte>), work: seq<Work>) {
    work == [] ||
    (Careful(s, work[..|work| - 1])
     && (work[|work| - 1].PrependBytes? || work[|work| - 1].MoveIn? ==> PlainWorks(s, work[..|work| - 1]).0 != []))
  }

  lemma {:induction false} CarefulFront(s: (seq<byte>, seq<byte>), work: seq<Work>, k: nat)
    requires Careful(s, work) && k <= |work|
    ensures Careful(s, work[..k])
    decreases |work|
  {
    if k < |work| {
      CarefulFront(s, work[..|work| - 1], k);
      assert work[..|work| - 1][..k] == work[..k];
    } else {
      assert work[..k] == work;
    }
  }

  /** The first `k` vectors hold the beginning of `data`. */
  lemma {:induction false} HeldUpTo(cs: seq<Chain>, vecs: seq<Vec>, data: seq<byte>, k: nat)
    requires HoldAll(cs, vecs, data) && k <= |vecs|
    requires forall i :: 0 <= i < |vecs| ==> vecs[i].pos + vecs[i].len <= |vecs[i].base.mem|
    ensures var m := Min(VecSum(vecs[..k]), |data|);
            |Gathered(vecs[..k])| == VecSum(vecs[..k]) && Gathered(vecs[..k])[..m] == data[..m]
  {
    hide VecSum, Gathered, Piece;
    if k == 0 {
      assert vecs[..0] == [];
      VecSumNone();
      GatheredNone();
    } else {
      HeldUpTo(cs, vecs, data, k - 1);
      VecSumNext(vecs, k - 1);
      GatheredSnoc(vecs, k - 1);
      GatheredLength(vecs[..k]);
      HeldNext(vecs[k - 1], data, VecSum(vecs[..k - 1]), Gathered(vecs[..k - 1]));
    }
  }

  lemma HeldNext(v: Vec, data: seq<byte>, o: nat, g: seq<byte>)
    requires v.pos + v.len <= |v.base.mem| && |g| == o && g[..Min(o, |data|)] == data[..Min(o, |data|)]
    requires o < |data| ==> Holds(v, data, o)
    ensures var m := Min(o + v.len, |data|);
            |g + Piece(v)| == o + v.len && (g + Piece(v))[..m] == data[..m]
  {
    if o < |data| {
      var w := Min(v.len, |data| - o);
      PieceFront(v, w);
      assert (g + Piece(v))[..o + w] == g + Piece(v)[..w];
      assert data[..o] + data[o..o + w] == data[..o + w];
    }
  }

  /** The system writes `data` into the memory that it was given. */
  method Arrive(o: OverlappedBuffer, data: seq<byte>)
    requires Pending(o) && |data| <= VecSum(o.vecs)
    modifies o.buf.chains`mem
    ensures Pending(o) && o.buf.Contents() == old(o.buf.Contents())
    ensures |data| <= |Gathered(o.vecs)| && Gathered(o.vecs)[..|data|] == data
  {
    hide Seg, Flatten, LastWithData, VecSum, Gathered, Piece, HoldAll, Window;
    ghost var s := |o.buf.chains| - |o.vecs|;
    PendingFit(o);
    Scatter(o.buf, o.vecs, data, s);
    InMemory(o.buf, o.vecs, s);
    HeldUpTo(o.buf.chains, o.vecs, data, |o.vecs|);
    assert o.vecs[..|o.vecs|] == o.vecs;
    assert data[..|data|] == data;
  }

  /** Neither a read nor a write is pending in the chunks of the other buffer. */
  ghost predicate Idle(buf: EvBuffer)
    reads buf, buf.chains
  {
    buf.Valid() && !buf.freezeStart && !buf.freezeEnd && NoWrites(buf.chains) && NonePinnedR(buf.chains)
  }

  lemma IdlePins(buf: EvBuffer)
    requires Idle(buf)
    ensures buf.PinsOk() && forall c :: c in buf.chains ==> !c.pinnedR && !c.pinnedW
  {
  }

  /** One piece of work. */
  method WorkOnce(o: OverlappedBuffer, dst: EvBuffer, w: Work)
    requires Pending(o) && Idle(dst) && dst != o.buf && Disjoint(dst.chains, o.buf.chains) && !o.buf.freezeStart
    requires w.PrependBytes? || w.MoveIn? ==> o.buf.Contents() != []
    modifies o.buf, o.buf.chains, dst, dst.chains
    ensures Pending(o) && Idle(dst) && Disjoint(dst.chains, o.buf.chains) && !o.buf.freezeStart
    ensures (o.buf.Contents(), dst.Contents()) == PlainWork(old((o.buf.Contents(), dst.Contents())), w)
    ensures From(o.buf.chains, old(o.buf.chains), old(dst.chains)) && From(dst.chains, old(o.buf.chains), old(dst.chains))
  {
    hide Seg, Flatten, LastWithData, Window, Pending, PinsBehind, NonePinnedR, NoWrites, SuffixOf;
    PendingIs(o);
    LengthIs(o.buf);
    IdlePins(dst);
    ghost var was, other := o.buf.chains, dst.chains;
    match w {
      case DrainBytes(n) => {
        var _ := DrainWhilePending(o, n);
        SuffixIn(o.buf.chains, was);
        StillApart(o.buf.chains, was, other);
      }
      case MoveOutAll(front) => {
        var _ := MoveWhilePending(o, dst, front);
      }
      case PrependBytes(data) => {
        DataFirst(o);
        var _ := PrependWhilePending(o, data);
        StillApart(o.buf.chains, was, other);
      }
      case MoveIn => {
        var _ := MoveInWhilePending(o, dst, true);
        StillIdle(dst, other);
      }
    }
  }

  /** Does `work` while the read is pending. */
  method WorkOn(o: OverlappedBuffer, dst: EvBuffer, work: seq<Work>)
    requires Pending(o) && Idle(dst) && dst != o.buf && Disjoint(dst.chains, o.buf.chains) && !o.buf.freezeStart
    requires Careful((o.buf.Contents(), dst.Contents()), work)
    modifies o.buf, o.buf.chains, dst, dst.chains
    ensures Pending(o) && Idle(dst) && Disjoint(dst.chains, o.buf.chains) && !o.buf.freezeStart
    ensures (o.buf.Contents(), dst.Contents()) == PlainWorks(old((o.buf.Contents(), dst.Contents())), work)
    ensures From(o.buf.chains, old(o.buf.chains), old(dst.chains)) && From(dst.chains, old(o.buf.chains), old(dst.chains))
  {
    hide Seg, Flatten, LastWithData, Window, Pending, Idle, PlainWork, Careful, Disjoint;
    ghost var s := (o.buf.Contents(), dst.Contents());
    for i := 0 to |work|
      invariant Pending(o) && Idle(dst) && Disjoint(dst.chains, o.buf.chains) && !o.buf.freezeStart
      invariant (o.buf.Contents(), dst.Contents()) == PlainWorks(s, work[..i])
      invariant From(o.buf.chains, old(o.buf.chains), old(dst.chains)) && From(dst.chains, old(o.buf.chains), old(dst.chains))
    {
      NextWork(s, work, i);
      WorkOnce(o, dst, work[i]);
    }
    assert work[..|work|] == work;
  }

  lemma NextWork(s: (seq<byte>, seq<byte>), work: seq<Work>, i: nat)
    requires i < |work| && Careful(s, work)
    ensures PlainWorks(s, work[..i + 1]) == PlainWork(PlainWorks(s, work[..i]), work[i])
    ensures work[i].PrependBytes? || work[i].MoveIn? ==> PlainWorks(s, work[..i]).0 != []
  {
    CarefulFront(s, work, i + 1);
    assert work[..i + 1][..i] == work[..i];
  }

  /** Launch, any work meanwhile, arrival of `data`, completion: what arrives is right behind what
      the work has left, and nothing else has changed. */
  method ReadAll(o: OverlappedBuffer, dst: EvBuffer, atMost: nat, work: seq<Work>, data: seq<byte>) returns (r: Launch)
    requires Quiet(o) && !o.buf.freezeEnd && !o.buf.freezeStart && !LaunchAborts(o.buf, atMost)
    requires Idle(dst) && dst != o.buf && Disjoint(dst.chains, o.buf.chains)
    requires 0 < atMost && |data| <= atMost && Careful((o.buf.Contents(), dst.Contents()), work)
    modifies o, o.buf, o.buf.chains, dst, dst.chains
    ensures r == Started && Quiet(o) && !o.buf.freezeEnd
    ensures (o.buf.Contents(), dst.Contents())
            == var p := PlainWorks(old((o.buf.Contents(), dst.Contents())), work); (p.0 + data, p.1)
  {
    hide Seg, Flatten, LastWithData, Window, Pending, VecSum, Gathered, Careful, Idle;
    r := LaunchRead(o, atMost, true);
    StillApart(o.buf.chains, old(o.buf.chains), dst.chains);
    WorkOn(o, dst, work);
    Arrive(o, data);
    CommitRead(o, |data|);
  }

  /** A buffer that has kept only chunks of its own is as idle as before. */
  lemma StillIdle(buf: EvBuffer, was: seq<Chain>)
    requires buf.Valid() && !buf.freezeStart && !buf.freezeEnd && SuffixOf(buf.chains, was)
    requires forall c :: c in was ==> !c.pinnedR && !c.pinnedW
    ensures Idle(buf)
  {
    SuffixIn(buf.chains, was);
  }
}

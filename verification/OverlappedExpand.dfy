/** Making room in a buffer while a read into it is pending. */
module OverlappedExpand {
  import opened Common
  import opened Flat
  import opened Chains
  import opened EvBuffers
  import opened BufferReserve
  import opened BufferVectors
  import opened BufferCommit
  import opened Overlapped

  /**
    evbuffer_expand, which does not ask whether the end is frozen. A new chunk comes behind those that
    the system writes into; they are not the last ones any more then, and only then.
  */
  method ExpandWhilePending(o: OverlappedBuffer, datlen: nat)
    requires Pending(o)
    modifies o.buf, o.buf.chains
    ensures o.buf.Valid() && o.buf.Contents() == old(o.buf.Contents())
    ensures Pending(o) <==> !old(Inserts(o.buf, datlen))
  {
    hide Seg, Distinct, Flatten, Window, LastWithData, VecsFit, PendingAt, Over, Inserts, UsesNext, TakesNext, Detached,
      EvBuffer.Valid, EvBuffer.Tight, EvBuffer.PinsOk;
    PendingIs(o);
    PendingFit(o);
    ghost var was, w, vecs, more := o.buf.chains, o.buf.lwd, o.vecs, Inserts(o.buf, datlen);
    ghost var s := |was| - |vecs|;
    BehindData(o, datlen);
    var _, _ := ExpandSingle(o.buf, datlen);
    if more {
      LastInUse(o);
    } else {
      ChainsApart(o.buf);
      forall i | 0 <= i < |was| ensures !was[i].pinnedW && (was[i].pinnedR <==> s <= i) {
        assert was[i] in was && SamePins(was[i]);
      }
      OthersSame(o, was, w, s);
    }
  }

  /** If no chunk comes in, the last one with data has room and is not in use. */
  lemma BehindData(o: OverlappedBuffer, datlen: nat)
    requires Pending(o)
    ensures !Inserts(o.buf, datlen) ==> |o.buf.chains| - |o.vecs| == o.buf.lwd + 1
  {
    hide Seg, Flatten, LastWithData, NoneFits;
    var s := |o.buf.chains| - |o.vecs|;
    assert o.vecs[0].base == o.buf.chains[s] && o.vecs[0].len > 0;
    LiveChunk(o.buf, s);
  }

  lemma LastInUse(o: OverlappedBuffer)
    ensures o.buf.chains != [] && !o.buf.chains[|o.buf.chains| - 1].Pinned() ==> !Pending(o)
  {
    hide Seg, Flatten, LastWithData;
  }

  /** All chunks but the last one with data are the same. */
  lemma OthersSame(o: OverlappedBuffer, was: seq<Chain>, w: nat, s: nat)
    requires o.reading && !o.writing && o.buf.freezeEnd && o.buf.Valid() && Distinct(o.buf.chains)
    requires |o.buf.chains| == |was| && o.buf.lwd == w < s < |was| && s == w + 1
    requires forall i :: 0 <= i < |was| && i != w ==> o.buf.chains[i] == was[i]
    requires forall c :: c in o.buf.chains ==> c in was || !c.Pinned()
    requires ReadFrom(was, s) && o.vecs != [] && Over(o.vecs, was, s) && o.firstPinned == o.vecs[0].base
    requires forall i :: 0 <= i < |o.vecs| ==> VecOk(o.vecs[i])
    ensures Pending(o)
  {
    hide Seg, Flatten, LastWithData, VecOk, PendingAt, EvBuffer.Valid;
    var cs := o.buf.chains;
    forall i | 0 <= i < |cs| ensures !cs[i].pinnedW && (cs[i].pinnedR <==> s <= i) {
      if i == w && cs[i] in was {
        var j :| 0 <= j < |was| && was[j] == cs[i];
        assert j != w ==> cs[j] == was[j];
      }
    }
    PendingFrom(o.buf, o.vecs, s);
  }
}

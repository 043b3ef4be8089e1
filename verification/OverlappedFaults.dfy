/** Runs of calls on a buffer in which a read is launched or pending, and it is lost or the program aborts. */
module OverlappedFaults {
  import opened Flat
  import opened Chains
  import opened EvBuffers
  import opened BufferAdd
  import opened BufferVectors
  import opened BufferCommit
  import opened BufferFaults
  import opened Overlapped
  import opened BufferReserve
  import opened OverlappedExpand

  /** A read of up to 100 bytes is launched on a new buffer. */
  method FreshRead() returns (o: OverlappedBuffer)
    ensures fresh(o) && fresh(o.buf) && Pending(o) && ReadsIntoFirst(o.buf) && !o.buf.freezeStart
    ensures forall i :: 0 <= i < |o.buf.chains| ==> fresh(o.buf.chains[i])
    ensures o.buf.Contents() == [] && o.buf.totalLen == 0 && o.reading && o.buf.Valid()
  {
    hide Seg, Flatten, Window, LastWithData, VecSum;
    var buf := new EvBuffer();
    o := new OverlappedBuffer(buf);
    AbortsAmple(buf, 100);
    var r := LaunchRead(o, 100, true);
    OneChunk(o);
    LengthIs(buf);
  }

  lemma OneChunk(o: OverlappedBuffer)
    requires Pending(o) && |o.buf.chains| == 1 && o.buf.Contents() == []
    ensures ReadsIntoFirst(o.buf)
  {
    hide Flatten, Window;
    PendingFit(o);
    SegSplit(o.buf.chains, o.buf.parts, null, 0);
    assert o.buf.parts[..0] == [];
    SegNil(null);
  }

  /** One byte is put in front of the empty buffer: the memory of the read is not where new data go. */
  method PrependLosesRead() returns (o: OverlappedBuffer, ok: bool)
    ensures fresh(o) && ok && o.buf.Valid() && o.buf.Contents() == [7] && o.reading && !Pending(o)
  {
    hide Seg, Flatten, Window, LastWithData, Pending;
    o := FreshRead();
    ok := PrependWhilePending(o, [7]);
    assert [7 as byte] + [] == [7];
  }

  /** Another buffer's byte is moved in front: the chunks of the read are dropped. */
  method MoveInLosesRead() returns (o: OverlappedBuffer, ok: bool)
    ensures fresh(o) && ok && o.buf.Valid() && o.buf.Contents() == [7] && o.reading && !Pending(o)
  {
    hide Seg, Flatten, Window, LastWithData, Pending;
    o := FreshRead();
    var src := OneByte(o.buf);
    ok := MoveInWhilePending(o, src, true);
    assert [7 as byte] + [] == [7];
  }

  /** Room is made for one more byte: the new chunk is behind the one that the system writes into. */
  method ExpandUnpins() returns (o: OverlappedBuffer)
    ensures fresh(o) && o.buf.Valid() && o.buf.Contents() == [] && o.reading && !Pending(o)
  {
    hide Seg, Flatten, Window, LastWithData, Pending, Inserts, EvBuffer.Valid;
    o := FreshRead();
    FirstInUse(o, 1);
    ExpandWhilePending(o, 1);
  }

  lemma FirstInUse(o: OverlappedBuffer, n: nat)
    requires Pending(o) && ReadsIntoFirst(o.buf)
    ensures Inserts(o.buf, n)
  {
    hide Seg, Flatten, LastWithData, Inserts;
    PendingFit(o);
    BehindData(o, n);
    LiveChunk(o.buf, 0);
  }

  /** A buffer with one byte, apart from another one. */
  method OneByte(other: EvBuffer) returns (src: EvBuffer)
    ensures fresh(src) && src.Valid() && src.PinsOk() && src.Contents() == [7] && src.totalLen == 1
    ensures Disjoint(other.chains, src.chains) && NoWrites(src.chains) && !src.freezeStart
    ensures forall i :: 0 <= i < |src.chains| ==> fresh(src.chains[i])
  {
    hide Seg, Flatten, Window, LastWithData, AddAborts;
    src := new EvBuffer();
    assert !AddAborts(src, 1) && AddKeepsPointer(src, 1) by { NewBuffer(src); }
    var r := Add(src, [7]);
    assert [] + [7 as byte] == [7];
    LengthIs(src);
  }

  /** There is room for 3144 bytes behind the data, and an empty chunk behind that: a read of up to 100
      bytes is not launched, for the assertion on the number of pinned chunks fails. */
  method LaunchAsserts() returns (o: OverlappedBuffer, r: Launch)
    ensures fresh(o) && r == AssertionFails && o.buf.Valid() && o.buf.Contents() != []
  {
    hide Flatten, LaunchAborts, Pending, VecSum, EvBuffer.Valid;
    var buf := TwoChunks();
    o := new OverlappedBuffer(buf);
    FirstSpares(buf);
    DataThere(buf);
    r := LaunchRead(o, 100, true);
  }

  lemma FirstSpares(buf: EvBuffer)
    requires |buf.chains| == 2 && buf.lwd == 0 && buf.chains[0].off == 5000 && buf.chains[0].misalign == 0
    requires |buf.chains[0].mem| == 8144
    ensures LaunchAborts(buf, 100)
  {
    var sizes := Sizes(buf.chains);
    SumSlice(sizes, 0, 0);
    assert sizes[0..0] == [];
    assert Spares(sizes, 0, 1, 100);
  }

  lemma DataThere(buf: EvBuffer)
    requires buf.Valid() && buf.chains != [] && buf.chains[0].off > 0
    ensures buf.Contents() != []
  {
    hide Seg, Flatten, LastWithData;
    SegAt(buf.chains, buf.parts, null, 0);
    FlattenSplit(buf.parts, 0);
  }

  lemma NewBuffer(buf: EvBuffer)
    requires buf.Structure() && buf.chains == []
    ensures !AddAborts(buf, 1) && AddKeepsPointer(buf, 1)
  {
  }
}

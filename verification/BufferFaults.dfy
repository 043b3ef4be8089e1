/** Runs of buffer calls that reach the cases in which the code does not do what it promises. */
module BufferFaults {
  import opened Common
  import opened Flat
  import opened Chains
  import opened EvBuffers
  import opened BufferAdd
  import opened BufferReserve
  import opened BufferVectors
  import opened BufferCommit
  import opened BufferRead

  /** `n` empty chunks, none in use, nothing wasted in front. */
  ghost predicate AllBlank(buf: EvBuffer, n: nat)
    reads buf, buf.chains
  {
    && buf.Valid() && |buf.chains| == n && !buf.freezeEnd && buf.lwd == 0
    && forall i :: 0 <= i < n ==> buf.chains[i].off == 0 == buf.chains[i].misalign && !buf.chains[i].Pinned()
  }

  /** The memory of all chunks together. */
  method Capacity(buf: EvBuffer) returns (size: nat)
    requires buf.Valid()
    ensures size == MemSum(buf.chains)
  {
    hide Seg, Flatten, Window, LastWithData, MemSum;
    size := 0;
    var c := buf.first;
    ghost var i := 0;
    MemNone(buf.chains);
    while c != null
      invariant 0 <= i <= |buf.chains| && c == Nth(buf.chains, null, i) && size == MemSum(buf.chains[..i])
      decreases |buf.chains| - i
    {
      SegAt(buf.chains, buf.parts, null, i);
      MemSnoc(buf.chains, i);
      size, c, i := size + |c.mem|, c.next, i + 1;
    }
    MemNone(buf.chains);
  }

  lemma MemNone(cs: seq<Chain>)
    ensures MemSum(cs[..0]) == 0 && cs[..|cs|] == cs
  {
  }

  /** One more chunk: more room is reserved than all chunks have. */
  method ReserveMore(buf: EvBuffer, ghost n: nat)
    requires AllBlank(buf, n) && n <= 2
    modifies buf, buf.chains
    ensures AllBlank(buf, n + 1) && buf.chains[..n] == old(buf.chains) && fresh(buf.chains[n])
  {
    hide Seg, Flatten, Window, LastWithData, MemSum, VecSum, Commits, Strands, Misplaced, TakesNext, Distinct;
    var size := Capacity(buf);
    var vecs, ok := ReserveSpace(buf, size + 1, 3);
    ghost var cs := old(buf.chains);
    AtFront(cs, buf.chains);
    assert buf.chains[n] == buf.last && buf.chains[n] in buf.chains;
    NewLast(buf);
  }

  lemma AtFront(cs: seq<Chain>, now: seq<Chain>)
    requires |cs| <= |now| && now[..|cs|] == cs
    ensures forall k :: 0 <= k < |cs| ==> now[k] == cs[k] && cs[k] in cs
  {
  }

  lemma NewLast(buf: EvBuffer)
    requires buf.Valid() && buf.chains != []
    ensures var n := |buf.chains| - 1; buf.chains[n] !in buf.chains[..n]
  {
    hide Flatten, Window;
    SegLength(buf.chains, buf.parts, null);
  }

  lemma MemSnoc(cs: seq<Chain>, i: nat)
    requires i < |cs|
    ensures MemSum(cs[..i + 1]) == MemSum(cs[..i]) + |cs[i].mem|
  {
    assert cs[..i + 1][..i] == cs[..i];
  }

  /** Two empty chunks behind each other. */
  method TwoBlank() returns (buf: EvBuffer)
    ensures fresh(buf) && AllBlank(buf, 2) && forall i :: 0 <= i < 2 ==> fresh(buf.chains[i])
  {
    buf := new EvBuffer();
    ReserveMore(buf, 0);
    ReserveMore(buf, 1);
  }

  /**
    Room is reserved twice, and then more is added than the last chunk takes: the assertion in
    evbuffer_chain_insert fails.
  */
  method AddAborted() returns (r: AddResult)
    ensures r == Aborted
  {
    hide Seg, Flatten, Window, LastWithData;
    var buf := TwoBlank();
    SegLength(buf.chains, buf.parts, null);
    SegAt(buf.chains, buf.parts, null, 1);
    VictimIs(buf.chains, 0, 0);
    var data: seq<byte> := seq(|buf.last.mem| + 1, _ => 0);
    assert AddAborts(buf, |data|);
    r := Add(buf, data);
  }

  /**
    Room is reserved twice, and then one byte is added: it goes into the second chunk while
    `last_with_datap` still leads to the first.
  */
  method AddLosesPointer() returns (buf: EvBuffer, r: AddResult)
    ensures fresh(buf) && r == Added && buf.Structure() && buf.Contents() == [7] && !buf.LwdOk()
  {
    hide Seg, Flatten, Window, LastWithData;
    buf := TwoBlank();
    NothingIn(buf, 2);
    SegLength(buf.chains, buf.parts, null);
    SegAt(buf.chains, buf.parts, null, 1);
    VictimIs(buf.chains, 0, 0);
    assert Fits(buf, 1) && !AddKeepsPointer(buf, 1) && !AddAborts(buf, 1);
    r := Add(buf, [7]);
    assert [] + [7 as byte] == [7];
  }

  lemma NothingIn(buf: EvBuffer, n: nat)
    requires AllBlank(buf, n)
    ensures buf.Contents() == []
  {
    hide Flatten, Window;
    SegEmpty(buf.chains, buf.parts, null);
  }

  /**
    Room is reserved three times, and then one byte is committed in the last chunk alone: the
    commit is accepted, and `last_with_datap` still leads to the first chunk.
  */
  method CommitStrands() returns (buf: EvBuffer, ok: bool)
    ensures fresh(buf) && ok && buf.Structure() && |buf.Contents()| == 1 && !buf.LwdOk()
  {
    hide Seg, Flatten, Window, LastWithData, Gathered;
    buf := TwoBlank();
    ReserveMore(buf, 2);
    NothingIn(buf, 3);
    SegLength(buf.chains, buf.parts, null);
    SegAt(buf.chains, buf.parts, null, 2);
    var v := Vec(buf.last, buf.last.misalign + buf.last.off, 1);
    assert Commits(buf, [v]) && Strands(buf, [v]);
    OnePiece(v);
    ok := Commit(buf, [v]);
  }

  lemma OnePiece(v: Vec)
    requires v.pos + v.len <= |v.base.mem|
    ensures |Gathered([v])| == v.len
  {
    GatheredNone();
    GatheredSnoc([v], 0);
    assert [v][..1] == [v];
  }

  /**
    A chunk with data and some room, and two empty chunks behind it: evbuffer_reserve_space offers
    the first of the two as the one vector, and evbuffer_commit_space refuses it.
  */
  method CommitRefused() returns (reserved: bool, ok: bool)
    ensures reserved && !ok
  {
    hide Seg, Flatten, Window, LastWithData, Commits, MemSum;
    var buf := ThreeChunks();
    var vecs;
    vecs, reserved := ReserveSpace(buf, 3145, 1);
    assert Misplaced(buf, vecs[0].base, 3145);
    ok := Commit(buf, vecs);
  }

  /** The buffer of the run above. */
  method ThreeChunks() returns (buf: EvBuffer)
    ensures fresh(buf) && buf.Valid() && |buf.chains| == 3 && buf.lwd == 0 && !buf.freezeEnd
    ensures forall i :: 0 <= i < 3 ==> fresh(buf.chains[i])
    ensures TakesNext(buf, 3145)
  {
    hide Flatten, MemSum, Commits, Misplaced, VecSum, Strands, Detached, Grows, EvBuffer.Valid;
    buf := TwoChunks();
    ghost var cs := buf.chains;
    TwoMems(buf);
    var v, ok := ReserveSpace(buf, 8144 + |buf.last.mem| + 1, 3);
    Grown(cs, buf, 8144 + |cs[1].mem| + 1);
    assert cs[0] in cs && cs[1] in cs && buf.chains[2] in buf.chains;
  }

  /** Two chunks, of which the second is empty and big enough for what follows. */
  method TwoChunks() returns (buf: EvBuffer)
    ensures fresh(buf) && buf.Valid() && |buf.chains| == 2 && buf.lwd == 0 && !buf.freezeEnd && buf.last == buf.chains[1]
    ensures forall i :: 0 <= i < |buf.chains| ==> fresh(buf.chains[i])
    ensures buf.chains[0].off == 5000 && buf.chains[0].misalign == 0 && |buf.chains[0].mem| == 8144 && !buf.chains[0].Pinned()
    ensures buf.last.off == 0 == buf.last.misalign && |buf.last.mem| >= 4001 && !buf.last.Pinned()
  {
    hide Flatten, MemSum, Commits, Misplaced, VecSum, Strands, Detached, Grows, EvBuffer.Valid;
    buf := HalfFull();
    ghost var cs := buf.chains;
    var v, ok := ReserveSpace(buf, 12145, 2);
    Grown(cs, buf, 12145);
    assert cs[0] in cs;
  }

  lemma Grown(was: seq<Chain>, buf: EvBuffer, datlen: nat)
    requires Grows(was, buf, datlen, true) && buf.Valid() && was != []
    ensures |buf.chains| == |was| + 1 && (forall i :: 0 <= i < |was| ==> buf.chains[i] == was[i])
    ensures buf.last == buf.chains[|was|] && buf.last.off == 0 == buf.last.misalign && MemSum(was) + |buf.last.mem| >= datlen
  {
    hide Seg, Flatten, LastWithData, MemSum;
    forall i | 0 <= i < |was| ensures buf.chains[i] == was[i] {
      assert buf.chains[..|was|][i] == was[i];
    }
  }

  lemma TwoMems(buf: EvBuffer)
    requires |buf.chains| == 2
    ensures MemSum(buf.chains) == |buf.chains[0].mem| + |buf.chains[1].mem|
  {
    MemSnoc(buf.chains, 0);
    MemSnoc(buf.chains, 1);
    assert buf.chains[..0] == [] && buf.chains[..2] == buf.chains;
  }

  /** One chunk with 5000 bytes of data and 3144 bytes of room. */
  method HalfFull() returns (buf: EvBuffer)
    ensures fresh(buf) && buf.Valid() && FirstIs(buf, 5000) && fresh(buf.chains[0]) && !buf.chains[0].Pinned()
    ensures !buf.freezeEnd && |buf.chains[0].mem| == 8144 && MemSum(buf.chains) == 8144 && buf.lwd == 0
  {
    hide Seg, Flatten, Window, LastWithData, MemSum;
    buf := new EvBuffer();
    var data: seq<byte> := seq(5000, _ => 0);
    assert !AddAborts(buf, 5000) && AddKeepsPointer(buf, 5000);
    var r := Add(buf, data);
    Half(buf);
  }

  lemma Half(buf: EvBuffer)
    requires FirstIs(buf, 5000)
    ensures |buf.chains[0].mem| == 8144 && MemSum(buf.chains) == 8144
  {
    assert RoundUp(1024, 5048) == 8192;
    MemSnoc(buf.chains, 0);
    assert buf.chains[..0] == [] && buf.chains[..1] == buf.chains;
  }
}

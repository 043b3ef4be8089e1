/** Handing out the free space of an evbuffer and committing what was written there. */
module BufferCommit {
  import opened Common
  import opened Flat
  import opened Chains
  import opened EvBuffers
  import opened BufferAdd
  import opened BufferReserve
  import opened BufferVectors

  /** A piece of memory inside a chunk: the base address and the length of an iovec. */
  datatype Vec = Vec(base: Chain, pos: nat, len: nat)

  ghost function VecSum(vecs: seq<Vec>): nat {
    if vecs == [] then 0 else VecSum(vecs[..|vecs| - 1]) + vecs[|vecs| - 1].len
  }

  /** Vector `i` starts at the free space of chunk `f + i`, and does not exceed it. */
  ghost predicate VecsFit(cs: seq<Chain>, f: nat, vecs: seq<Vec>)
    reads cs`misalign, cs`off, cs`mem
  {
    && f + |vecs| <= |cs|
    && (forall i :: 0 <= i < |vecs| ==>
          && vecs[i].base == cs[f + i] && vecs[i].pos == cs[f + i].misalign + cs[f + i].off
          && vecs[i].len <= Room(cs[f + i]))
  }

  /** The slot that leads to chunk `k`. */
  ghost function SlotOf(buf: EvBuffer, k: nat): Chain?
    requires k <= |buf.chains|
    reads buf
  {
    if k == 0 then null else buf.chains[k - 1]
  }

  /** The slot of the first chunk that can take more bytes. */
  method FindRoom(buf: EvBuffer) returns (slot: Chain?)
    requires buf.Valid() && buf.chains != []
    ensures FirstRoom(buf) <= |buf.chains| && slot == SlotOf(buf, FirstRoom(buf))
    ensures buf.At(slot) == Nth(buf.chains, null, FirstRoom(buf))
  {
    hide Seg, Distinct, Flatten, Window, LastWithData;
    TargetIs(buf);
    slot := buf.lwdp;
    var chain := buf.At(slot);
    SegAt(buf.chains, buf.parts, null, buf.lwd);
    if chain.Space() == 0 {
      slot := chain;
    }
  }

  /** The vectors so far, taken while they hold less than `howmuch` bytes. */
  ghost predicate Filling(cs: seq<Chain>, f: nat, vecs: seq<Vec>, howmuch: nat, exact: bool)
    reads cs`misalign, cs`off, cs`mem
  {
    && VecsFit(cs, f, vecs)
    && (forall i :: 0 <= i < |vecs| && (!exact || VecSum(vecs) < howmuch || i < |vecs| - 1)
            ==> vecs[i].len == Room(cs[f + i]))
    && (VecSum(vecs) < howmuch ==> VecSum(vecs) == RoomSum(cs[f..f + |vecs|]))
    && (vecs != [] ==> VecSum(vecs[..|vecs| - 1]) < howmuch)
    && (exact ==> VecSum(vecs) <= howmuch)
    && (forall i :: 0 <= i < |vecs| ==> vecs[i].len > 0)
  }

  lemma VecSnoc(vecs: seq<Vec>, v: Vec)
    ensures (vecs + [v])[..|vecs|] == vecs && VecSum(vecs + [v]) == VecSum(vecs) + v.len
  {
    assert (vecs + [v])[..|vecs|] == vecs;
  }

  lemma FillOne(cs: seq<Chain>, f: nat, vecs: seq<Vec>, howmuch: nat, exact: bool, v: Vec)
    requires Filling(cs, f, vecs, howmuch, exact) && VecSum(vecs) < howmuch && f + |vecs| < |cs|
    requires var c := cs[f + |vecs|];
             && v.base == c && v.pos == c.misalign + c.off
             && Room(c) > 0
             && v.len == if exact && Room(c) > howmuch - VecSum(vecs) then howmuch - VecSum(vecs) else Room(c)
    ensures Filling(cs, f, vecs + [v], howmuch, exact) && VecSum(vecs + [v]) == VecSum(vecs) + v.len
  {
    hide RoomSum, Room, VecSum, VecsFit;
    VecSnoc(vecs, v);
    FitSnoc(cs, f, vecs, v);
    RoomSnoc(cs, f, f + |vecs|);
  }

  lemma FitSnoc(cs: seq<Chain>, f: nat, vecs: seq<Vec>, v: Vec)
    requires VecsFit(cs, f, vecs) && f + |vecs| < |cs|
    requires var c := cs[f + |vecs|]; v.base == c && v.pos == c.misalign + c.off && v.len <= Room(c)
    ensures VecsFit(cs, f, vecs + [v])
  {
  }

  lemma OfferCount(buf: EvBuffer, howmuch: nat, n: nat) returns (m: nat)
    requires Offers(buf, howmuch, n)
    ensures m <= n && Takes(buf.chains, FirstRoom(buf), m, howmuch)
  {
    m :| m <= n && Takes(buf.chains, FirstRoom(buf), m, howmuch);
  }

  /** _evbuffer_read_setup_vecs: vectors over the free space of up to `n` chunks, until they hold
      `howmuch` bytes; with `exact`, not more than that. */
  method SetupVecs(buf: EvBuffer, howmuch: nat, n: nat, exact: bool) returns (vecs: seq<Vec>, slot: Chain?)
    requires buf.Valid() && buf.chains != [] && Offers(buf, howmuch, n)
    ensures |vecs| <= n && VecsFit(buf.chains, FirstRoom(buf), vecs)
    ensures VecSum(vecs) >= howmuch && (exact ==> VecSum(vecs) == howmuch)
    ensures forall i :: 0 <= i < |vecs| && (!exact || i < |vecs| - 1) ==> vecs[i].len == Room(vecs[i].base)
    ensures vecs != [] ==> VecSum(vecs[..|vecs| - 1]) < howmuch
    ensures forall i :: 0 <= i < |vecs| ==> vecs[i].len > 0
    ensures slot == SlotOf(buf, FirstRoom(buf))
  {
    hide Seg, Distinct, Flatten, Window, LastWithData, RoomSum, FirstRoom, Offers, VecSum, VecsFit, Filling, Takes;
    slot := FindRoom(buf);
    var chain := buf.At(slot);
    var soFar := 0;
    vecs := [];
    ghost var f := FirstRoom(buf);
    ghost var m := OfferCount(buf, howmuch, n);
    FillNone(buf.chains, f, howmuch, exact);
    while |vecs| < n && soFar < howmuch
      invariant |vecs| <= m && soFar == VecSum(vecs)
      invariant Filling(buf.chains, f, vecs, howmuch, exact)
      invariant chain == Nth(buf.chains, null, f + |vecs|)
      decreases n - |vecs|
    {
      FillStep(buf.chains, f, vecs, m, howmuch, exact);
      SegAt(buf.chains, buf.parts, null, f + |vecs|);
      var avail := chain.Space();
      if avail > howmuch - soFar && exact {
        avail := howmuch - soFar;
      }
      var v := Vec(chain, chain.misalign + chain.off, avail);
      FillOne(buf.chains, f, vecs, howmuch, exact, v);
      vecs, soFar, chain := vecs + [v], soFar + avail, chain.next;
    }
    FillDone(buf.chains, f, vecs, m, howmuch, exact);
  }

  lemma FillNone(cs: seq<Chain>, f: nat, howmuch: nat, exact: bool)
    requires f <= |cs|
    ensures Filling(cs, f, [], howmuch, exact) && VecSum([]) == 0
  {
    RoomNone(cs, f);
  }

  lemma FillStep(cs: seq<Chain>, f: nat, vecs: seq<Vec>, m: nat, howmuch: nat, exact: bool)
    requires Filling(cs, f, vecs, howmuch, exact) && VecSum(vecs) < howmuch && |vecs| <= m && Takes(cs, f, m, howmuch)
    ensures |vecs| < m && f + |vecs| < |cs| && Room(cs[f + |vecs|]) > 0
  {
    hide VecSum, VecsFit, RoomSum, Room;
  }

  lemma FillDone(cs: seq<Chain>, f: nat, vecs: seq<Vec>, m: nat, howmuch: nat, exact: bool)
    requires Filling(cs, f, vecs, howmuch, exact) && |vecs| <= m && Takes(cs, f, m, howmuch)
    requires |vecs| >= m || VecSum(vecs) >= howmuch
    ensures VecsFit(cs, f, vecs) && VecSum(vecs) >= howmuch && (exact ==> VecSum(vecs) == howmuch)
    ensures forall i :: 0 <= i < |vecs| && (!exact || i < |vecs| - 1) ==> vecs[i].len == Room(vecs[i].base)
    ensures vecs != [] ==> VecSum(vecs[..|vecs| - 1]) < howmuch
    ensures forall i :: 0 <= i < |vecs| ==> vecs[i].len > 0
  {
    hide VecSum, RoomSum, Room;
  }

  /** The bytes in a vector. */
  ghost function Piece(v: Vec): seq<byte>
    reads v.base`mem
  {
    if v.pos + v.len <= |v.base.mem| then v.base.mem[v.pos..v.pos + v.len] else []
  }

  ghost function Gathered(vecs: seq<Vec>): seq<byte>
    reads set v | v in vecs :: v.base`mem
  {
    if vecs == [] then [] else Gathered(vecs[..|vecs| - 1]) + Piece(vecs[|vecs| - 1])
  }

  lemma GatheredNone()
    ensures Gathered([]) == []
  {
  }

  lemma GatheredSnoc(vecs: seq<Vec>, i: nat)
    requires i < |vecs|
    ensures Gathered(vecs[..i + 1]) == Gathered(vecs[..i]) + Piece(vecs[i])
  {
    assert vecs[..i + 1][..i] == vecs[..i];
  }

  /** Lets `len` more bytes of the free space of a chunk count as data; no chunk behind it has any. */
  method Extend(buf: EvBuffer, c: Chain, len: nat, ghost k: nat)
    requires buf.Structure() && k < |buf.chains| && c == buf.chains[k] && len <= Room(c)
    requires EmptyFrom(buf.chains, k + 1)
    modifies buf`totalLen, buf`parts, c`off
    ensures buf.Structure() && c.off == old(c.off) + len
    ensures buf.Contents() == old(buf.Contents()) + old(Piece(Vec(c, c.misalign + c.off, len)))
    ensures forall j :: 0 <= j < |buf.chains| && j != k ==> buf.chains[j] != c
  {
    hide Flatten, Seg, Window, Distinct, EmptyFrom, Piece, Room;
    SegLength(buf.chains, buf.parts, null);
    OthersApart(buf.chains, k);
    PieceLength(c, len);
    ghost var grown := ExtendChunk(c, len, buf.chains, buf.parts, k);
    buf.totalLen := buf.totalLen + len;
    buf.parts := grown;
  }

  lemma PieceLength(c: Chain, len: nat)
    requires len <= Room(c)
    ensures |Piece(Vec(c, c.misalign + c.off, len))| == len
  {
  }

  /** The same for the list. */
  method ExtendChunk(c: Chain, len: nat, ghost cs: seq<Chain>, ghost parts: seq<seq<byte>>, ghost k: nat)
    returns (ghost grown: seq<seq<byte>>)
    requires Seg(cs, parts, null) && k < |cs| && c == cs[k] && len <= Room(c) && EmptyFrom(cs, k + 1)
    modifies c`off
    ensures c.off == old(c.off) + len && |grown| == |cs| && Seg(cs, grown, null)
    ensures Flatten(grown) == Flatten(parts) + old(Piece(Vec(c, c.misalign + c.off, len)))
  {
    hide Flatten, Seg, Window, Distinct, Disjoint;
    SegSplit(cs, parts, null, k);
    SegEmpty(cs[k + 1..], parts[k + 1..], null);
    c.off := c.off + len;
    SegMake(cs[..k], parts[..k], c, cs[k + 1..], parts[k + 1..], null);
    grown := parts[..k] + [c.Data()] + parts[k + 1..];
    WindowExtend(c.mem, c.misalign, old(c.off), len);
    GrowAtEnd(Flatten(parts[..k]), parts[k], Flatten(parts[k + 1..]), old(Piece(Vec(c, c.misalign + c.off, len))));
  }

  lemma GrowAtEnd(a: seq<byte>, p: seq<byte>, b: seq<byte>, more: seq<byte>)
    requires b == []
    ensures a + (p + more) + b == a + p + b + more
  {
  }

  lemma WindowExtend(mem: seq<byte>, misalign: nat, off: nat, len: nat)
    requires misalign + off + len <= |mem|
    ensures Window(mem, misalign, off + len) == Window(mem, misalign, off) + mem[misalign + off..misalign + off + len]
  {
  }

  /** Commits one vector at or behind the last chunk with data. */
  method CommitStep(buf: EvBuffer, slot: Chain?, v: Vec, ghost k: nat)
    requires buf.Valid() && buf.lwd <= k < |buf.chains| && slot == SlotOf(buf, k)
    requires v.base == buf.chains[k] && v.pos == v.base.misalign + v.base.off && v.len <= Room(v.base)
    modifies buf`totalLen, buf`parts, buf`lwdp, buf`lwd, v.base`off
    ensures buf.Valid() && buf.Contents() == old(buf.Contents()) + Piece(v)
    ensures buf.lwd == if v.len > 0 then k else old(buf.lwd)
    ensures forall j :: 0 <= j < |buf.chains| && j != k ==> buf.chains[j].off == old(buf.chains[j].off)
  {
    hide Seg, Distinct, Flatten, Window;
    Extend(buf, v.base, v.len, k);
    if v.len > 0 {
      buf.lwdp, buf.lwd := slot, k;
    }
  }

  /** The vector starts at the free space of the last chunk. */
  predicate AtLast(buf: EvBuffer, v: Vec)
    reads buf, buf.last
  {
    buf.last != null && v.base == buf.last && v.pos == buf.last.misalign + buf.last.off
  }

  /** When evbuffer_commit_space accepts the vectors. */
  ghost predicate Commits(buf: EvBuffer, vecs: seq<Vec>)
    reads buf, buf.last, buf.chains
  {
    && !buf.freezeEnd
    && (|vecs| == 0
        || if |vecs| == 1 && AtLast(buf, vecs[0]) then vecs[0].len <= Room(buf.last)
           else buf.chains != [] && VecsFit(buf.chains, FirstRoom(buf), vecs))
  }

  /** Two or more chunks behind the last chunk with data, the vectors are just the last one: the
      data end up behind an empty chunk. */
  ghost predicate Strands(buf: EvBuffer, vecs: seq<Vec>)
    reads buf, buf.last
  {
    |vecs| == 1 && vecs[0].len > 0 && AtLast(buf, vecs[0]) && buf.lwd + 2 < |buf.chains|
  }

  /** The first pass: are all vectors where they should be? */
  method CheckVecs(buf: EvBuffer, first: Chain?, vecs: seq<Vec>, ghost f: nat) returns (ok: bool)
    requires buf.Valid() && f <= |buf.chains| && first == Nth(buf.chains, null, f)
    ensures ok == VecsFit(buf.chains, f, vecs)
  {
    hide Seg, Distinct, Flatten, Window, LastWithData;
    var chain := first;
    for i := 0 to |vecs|
      invariant f + i <= |buf.chains| && chain == Nth(buf.chains, null, f + i)
      invariant VecsFit(buf.chains, f, vecs[..i])
    {
      if chain == null {
        return false;
      }
      SegAt(buf.chains, buf.parts, null, f + i);
      if vecs[i].base != chain || vecs[i].pos != chain.misalign + chain.off || vecs[i].len > chain.Space() {
        return false;
      }
      chain := chain.next;
    }
    assert vecs[..|vecs|] == vecs;
    return true;
  }

  /** The second pass. */
  method CommitVecs(buf: EvBuffer, first: Chain?, vecs: seq<Vec>, ghost f: nat)
    requires buf.Valid() && buf.lwd <= f <= |buf.chains| && first == SlotOf(buf, f)
    requires VecsFit(buf.chains, f, vecs)
    modifies buf`totalLen, buf`parts, buf`lwdp, buf`lwd, buf.chains`off
    ensures buf.Valid() && buf.Contents() == old(buf.Contents()) + Gathered(vecs)
  {
    hide Seg, Distinct, Flatten, Window, LastWithData, Gathered, Piece;
    var slot := first;
    GatheredNone();
    for i := 0 to |vecs|
      invariant buf.Valid() && buf.lwd <= f + i && slot == SlotOf(buf, f + i)
      invariant buf.Contents() == old(buf.Contents()) + Gathered(vecs[..i])
      invariant forall j :: f + i <= j < |buf.chains| ==> buf.chains[j].off == old(buf.chains[j].off)
    {
      CommitStep(buf, slot, vecs[i], f + i);
      GatheredSnoc(vecs, i);
      slot := vecs[i].base;
    }
    assert vecs[..|vecs|] == vecs;
  }

  /** evbuffer_commit_space. */
  method Commit(buf: EvBuffer, vecs: seq<Vec>) returns (ok: bool)
    requires buf.Valid()
    modifies buf`totalLen, buf`parts, buf`lwdp, buf`lwd, buf.chains`off
    ensures ok == old(Commits(buf, vecs))
    ensures buf.Structure() && buf.Contents() == old(buf.Contents()) + (if ok then Gathered(vecs) else [])
    ensures buf.Valid() <==> !ok || !old(Strands(buf, vecs))
    ensures !ok ==> buf.lwd == old(buf.lwd) && forall c :: c in buf.chains ==> c.off == old(c.off)
  {
    hide Seg, Distinct, Flatten, Window, LastWithData, Gathered, Piece, Room, VecsFit;
    if buf.freezeEnd {
      return false;
    }
    if |vecs| == 0 {
      GatheredNone();
      return true;
    }
    if |vecs| == 1 && AtLast(buf, vecs[0]) {
      ok := CommitLast(buf, vecs[0]);
      GatheredNone();
      GatheredSnoc(vecs, 0);
      assert vecs[..1] == vecs;
      return;
    }
    if buf.At(buf.lwdp) == null {
      TargetIs(buf);
      return false;
    }
    TargetIs(buf);
    var slot := FindRoom(buf);
    ok := CheckVecs(buf, buf.At(slot), vecs, FirstRoom(buf));
    if ok {
      CommitVecs(buf, slot, vecs, FirstRoom(buf));
    }
  }

  /** A single vector in the last chunk. */
  method CommitLast(buf: EvBuffer, v: Vec) returns (ok: bool)
    requires buf.Valid() && AtLast(buf, v)
    modifies buf`totalLen, buf`parts, buf`lwdp, buf`lwd, buf.last`off
    ensures ok == (v.len <= old(Room(buf.last)))
    ensures buf.Structure() && buf.Contents() == old(buf.Contents()) + (if ok then Piece(v) else [])
    ensures buf.Valid() <==> !ok || v.len == 0 || |buf.chains| <= old(buf.lwd) + 2
    ensures !ok ==> buf.lwd == old(buf.lwd) && buf.last.off == old(buf.last.off)
  {
    hide Seg, Distinct, Flatten, Window, Piece;
    SegAt(buf.chains, buf.parts, null, |buf.chains| - 1);
    if v.len > buf.last.Space() {
      return false;
    }
    Extend(buf, buf.last, v.len, |buf.chains| - 1);
    if v.len > 0 {
      AdvanceLast(buf);
    }
    return true;
  }
}

/** Reading from a socket straight into the free space of an evbuffer, and reserving space for
    a caller to fill. */
module BufferRead {
  import opened Common
  import opened Flat
  import opened Chains
  import opened EvBuffers
  import opened BufferDrain
  import opened BufferReserve
  import opened BufferVectors
  import opened BufferCommit

  const EVBUFFER_MAX_READ: nat := 4096
  const NUM_READ_IOVEC: nat := 4

  /** The chunk was taken for the sake of the one before it, which has some room itself, and is
      not the last one. */
  ghost predicate Misplaced(buf: EvBuffer, c: Chain, size: nat)
    reads buf, buf.chains
  {
    && buf.lwd + 2 < |buf.chains| && c == buf.chains[buf.lwd + 1]
    && buf.chains[buf.lwd].InBounds() && UsesNext(buf.chains[buf.lwd], c, size)
  }

  /** The only reserved vector that evbuffer_commit_space refuses. */
  lemma SingleCommits(buf: EvBuffer, c: Chain, k: nat, size: nat)
    requires buf.Valid() && !buf.freezeEnd && buf.lwd <= k < |buf.chains| && c == buf.chains[k]
    requires k == |buf.chains| - 1 || k == buf.lwd
             || (k == buf.lwd + 1 && (Full(buf.chains[k - 1])
                                      || (buf.chains[k - 1].InBounds() && UsesNext(buf.chains[k - 1], c, size))))
    requires k == buf.lwd ==> Room(c) > 0
    ensures Commits(buf, [Vec(c, c.misalign + c.off, Room(c))]) <==> !Misplaced(buf, c, size)
  {
    hide Seg, Flatten, Window, LastWithData;
    SegLength(buf.chains, buf.parts, null);
  }

  lemma FastCommits(buf: EvBuffer, vecs: seq<Vec>)
    requires buf.Valid() && !buf.freezeEnd && buf.chains != [] && VecsFit(buf.chains, FirstRoom(buf), vecs)
    ensures Commits(buf, vecs) && !Strands(buf, vecs)
  {
    hide Seg, Flatten, Window, LastWithData;
    SegLength(buf.chains, buf.parts, null);
  }

  /** evbuffer_reserve_space for one vector: all of the free space of one chunk. */
  method ReserveOne(buf: EvBuffer, size: nat) returns (vecs: seq<Vec>)
    requires buf.Valid() && !buf.freezeEnd
    modifies buf, buf.chains
    ensures buf.Valid() && buf.Contents() == old(buf.Contents()) && buf.lwd == old(buf.lwd)
    ensures buf.freezeStart == old(buf.freezeStart) && !buf.freezeEnd
    ensures |vecs| == 1 && VecSum(vecs) >= size && vecs[0].base in buf.chains
    ensures vecs[0].pos == vecs[0].base.misalign + vecs[0].base.off && vecs[0].len == Room(vecs[0].base)
    ensures Commits(buf, vecs) <==> !Misplaced(buf, vecs[0].base, size)
    ensures Evolves(old(buf.chains), buf.chains)
    ensures old(TakesNext(buf, size))
            ==> buf.chains == old(buf.chains) && TakesNext(buf, size) && vecs[0].base == buf.chains[buf.lwd + 1]
  {
    hide Seg, Distinct, Flatten, Window, LastWithData, VecSum, Evolves, Commits, Misplaced;
    var c; ghost var k;
    c, k := ExpandSingle(buf, size);
    vecs := [Vec(c, c.misalign + c.off, c.Space())];
    VecSumOne(vecs[0]);
    SegAt(buf.chains, buf.parts, null, buf.lwd);
    SingleCommits(buf, c, k, size);
  }

  lemma VecSumOne(v: Vec)
    ensures VecSum([v]) == v.len
  {
    assert [v][..0] == [];
  }

  /** evbuffer_reserve_space. */
  method ReserveSpace(buf: EvBuffer, size: nat, n: int) returns (vecs: seq<Vec>, ok: bool)
    requires buf.Valid()
    modifies buf, buf.chains
    ensures ok == (n >= 1 && !old(buf.freezeEnd))
    ensures buf.Valid() && buf.Contents() == old(buf.Contents())
    ensures buf.freezeStart == old(buf.freezeStart) && buf.freezeEnd == old(buf.freezeEnd)
    ensures !ok ==> vecs == []
    ensures ok ==> VecSum(vecs) >= size && |vecs| <= n
    ensures ok && n == 1 ==> |vecs| == 1 && vecs[0].base in buf.chains
                             && vecs[0].pos == vecs[0].base.misalign + vecs[0].base.off
                             && vecs[0].len == Room(vecs[0].base)
                             && (Commits(buf, vecs) <==> !Misplaced(buf, vecs[0].base, size))
    ensures ok && n > 1 ==> Commits(buf, vecs) && !Strands(buf, vecs)
    ensures Evolves(old(buf.chains), buf.chains) && buf.lwd == old(buf.lwd)
    ensures ok && n == 1 && old(TakesNext(buf, size))
            ==> buf.chains == old(buf.chains) && TakesNext(buf, size) && vecs[0].base == buf.chains[buf.lwd + 1]
    ensures ok && n > 1 ==> forall c :: c in old(buf.chains) ==> c.mem == old(c.mem) && c.off == old(c.off)
    ensures ok && n > 1 ==> forall c :: c in old(buf.chains) ==> (c.misalign == old(c.misalign) || c.off == 0 == c.misalign)
    ensures ok && n > 1 ==>
            Grows(old(buf.chains), buf, size, old(buf.chains == [] || (|buf.chains| - buf.lwd < n && MemSum(buf.chains) < size)))
  {
    hide Seg, Distinct, Flatten, Window, LastWithData, MemSum, VecSum, Commits, Misplaced, Strands, Grows, TakesNext, AmpleOf,
      Opened, LastNeeded, Sizes, Detached, EvBuffer.Valid, Offers, Room, FirstRoom, VecsFit;
    vecs, ok := [], false;
    if buf.freezeEnd || n < 1 {
      return;
    }
    ok := true;
    if n == 1 {
      vecs := ReserveOne(buf, size);
    } else {
      ExpandFast(buf, size, n);
      var slot;
      vecs, slot := SetupVecs(buf, size, n, false);
      FastCommits(buf, vecs);
    }
  }

  /** The vector holds the bytes of `data` from `o` on, as far as both reach. */
  ghost predicate Holds(v: Vec, data: seq<byte>, o: nat)
    reads v.base`mem
  {
    o <= |data| && Piece(Vec(v.base, v.pos, Min(v.len, |data| - o))) == data[o..o + Min(v.len, |data| - o)]
  }

  /** Writes into the free space of chunk `k`. */
  method WriteVec(buf: EvBuffer, v: Vec, data: seq<byte>, ghost k: nat)
    requires buf.Valid() && k < |buf.chains| && v.base == buf.chains[k]
    requires v.pos == v.base.misalign + v.base.off && |data| <= v.len <= Room(v.base)
    modifies v.base`mem
    ensures buf.Valid() && |v.base.mem| == old(|v.base.mem|)
    ensures Piece(Vec(v.base, v.pos, |data|)) == data
    ensures forall j :: 0 <= j < |buf.chains| && j != k ==> buf.chains[j] != v.base
  {
    hide Seg, Flatten, LastWithData;
    ghost var cs, parts := buf.chains, buf.parts;
    SegSplit(cs, parts, null, k);
    v.base.Write(v.pos, data);
    assert v.base.Data() == old(v.base.Data());
    SegMake(cs[..k], parts[..k], v.base, cs[k + 1..], parts[k + 1..], null);
    assert buf.Valid();
  }

  /** What readv does with the vectors: fills them in order. */
  method Scatter(buf: EvBuffer, vecs: seq<Vec>, data: seq<byte>, ghost f: nat)
    requires buf.Valid() && VecsFit(buf.chains, f, vecs) && |data| <= VecSum(vecs)
    modifies buf.chains`mem
    ensures buf.Valid() && VecsFit(buf.chains, f, vecs)
    ensures forall c :: c in buf.chains ==> |c.mem| == old(|c.mem|)
    ensures HoldAll(buf.chains, vecs, data)
  {
    hide Seg, Distinct, Flatten, Window, LastWithData, VecSum, Piece;
    var i, done := 0, 0;
    VecSumNone();
    while done < |data|
      invariant 0 <= i <= |vecs| && done == Min(VecSum(vecs[..i]), |data|)
      invariant buf.Valid() && VecsFit(buf.chains, f, vecs)
      invariant forall c :: c in buf.chains ==> |c.mem| == old(|c.mem|)
      invariant forall j :: 0 <= j < i ==> VecSum(vecs[..j]) < |data| && Holds(vecs[j], data, VecSum(vecs[..j]))
      decreases |vecs| - i
    {
      ScatterMore(vecs, i, |data|);
      var w := Min(vecs[i].len, |data| - done);
      WriteVec(buf, vecs[i], data[done..done + w], f + i);
      i, done := i + 1, done + w;
    }
    forall j | i <= j < |vecs| ensures VecSum(vecs[..j]) >= |data| {
      VecSumMono(vecs, i, j);
    }
  }

  lemma VecSumNone()
    ensures VecSum([]) == 0
  {
  }

  lemma {:induction false} VecSumMono(vecs: seq<Vec>, i: nat, j: nat)
    requires i <= j <= |vecs|
    ensures VecSum(vecs[..i]) <= VecSum(vecs[..j])
    decreases j
  {
    if i < j {
      VecSumMono(vecs, i, j - 1);
      assert vecs[..j][..j - 1] == vecs[..j - 1];
    }
  }

  lemma ScatterMore(vecs: seq<Vec>, i: nat, n: nat)
    requires i <= |vecs| && Min(VecSum(vecs[..i]), n) < n <= VecSum(vecs)
    ensures i < |vecs| && VecSum(vecs[..i + 1]) == VecSum(vecs[..i]) + vecs[i].len
  {
    assert vecs[..|vecs|] == vecs;
    if i < |vecs| {
      assert vecs[..i + 1][..i] == vecs[..i];
    }
  }

  /** The vectors from `i` on still start at the free space of their chunks. */
  ghost predicate FitFrom(cs: seq<Chain>, f: nat, vecs: seq<Vec>, i: nat)
    reads cs`misalign, cs`off, cs`mem
  {
    && f + |vecs| <= |cs| && EmptyFrom(cs, f + i + 1)
    && (forall j :: i <= j < |vecs| ==>
          && vecs[j].base == cs[f + j] && vecs[j].pos == cs[f + j].misalign + cs[f + j].off
          && vecs[j].len <= Room(cs[f + j]))
  }

  lemma FitStart(buf: EvBuffer, f: nat, vecs: seq<Vec>)
    requires buf.Valid() && buf.lwd <= f && VecsFit(buf.chains, f, vecs)
    ensures FitFrom(buf.chains, f, vecs, 0)
  {
    hide Seg, Room, Flatten;
  }

  /** Only the last vector may be shorter than the free space. */
  ghost predicate FullVecs(cs: seq<Chain>, vecs: seq<Vec>)
    reads cs`mem
  {
    forall i :: 0 <= i < |vecs| - 1 ==> vecs[i].base in cs && vecs[i].pos + vecs[i].len == |vecs[i].base.mem|
  }

  /** Together the vectors hold `data`, each starting where the one before ends. */
  ghost predicate HoldAll(cs: seq<Chain>, vecs: seq<Vec>, data: seq<byte>)
    reads cs`mem
  {
    forall i :: 0 <= i < |vecs| && VecSum(vecs[..i]) < |data|
                ==> vecs[i].base in cs && Holds(vecs[i], data, VecSum(vecs[..i]))
  }

  lemma FullStart(cs: seq<Chain>, f: nat, vecs: seq<Vec>)
    requires VecsFit(cs, f, vecs) && forall i :: 0 <= i < |vecs| - 1 ==> vecs[i].len == Room(vecs[i].base)
    requires forall i :: 0 <= i < |cs| ==> cs[i].InBounds()
    ensures FullVecs(cs, vecs)
  {
    forall i | 0 <= i < |vecs| - 1 ensures vecs[i].pos + vecs[i].len == |vecs[i].base.mem| {
      assert vecs[i].base == cs[f + i];
    }
  }

  lemma FitLength(cs: seq<Chain>, f: nat, vecs: seq<Vec>, i: nat)
    requires FitFrom(cs, f, vecs, i)
    ensures f + |vecs| <= |cs|
  {
  }

  lemma FitAt(cs: seq<Chain>, f: nat, vecs: seq<Vec>, i: nat)
    requires FitFrom(cs, f, vecs, i) && FullVecs(cs, vecs) && i < |vecs| && f + i < |cs| && cs[f + i].InBounds()
    ensures f + |vecs| <= |cs| && vecs[i].base == cs[f + i]
    ensures vecs[i].len <= cs[f + i].Space() && (i < |vecs| - 1 ==> vecs[i].len == cs[f + i].Space())
  {
  }

  /** The loop at the end of evbuffer_read: counts `data`, which is in the vectors, as contents. */
  method TakeIn(buf: EvBuffer, first: Chain?, vecs: seq<Vec>, n: nat, ghost data: seq<byte>, ghost f: nat)
    requires buf.Valid() && buf.lwd <= f && VecsFit(buf.chains, f, vecs)
    requires first == SlotOf(buf, f) && 0 < n == |data| <= VecSum(vecs)
    requires HoldAll(buf.chains, vecs, data) && FullVecs(buf.chains, vecs)
    modifies buf`totalLen, buf`parts, buf`lwdp, buf`lwd, buf.chains`off
    ensures buf.Valid() && buf.Contents() == old(buf.Contents()) + data
  {
    hide Seg, Distinct, Flatten, Window, VecSum, Piece, Room, VecsFit, Holds, HoldAll, FullVecs, FitFrom, EmptyFrom;
    var slot, remaining, i := first, n, 0;
    ghost var was := buf.Contents();
    VecSumNone();
    FitStart(buf, f, vecs);
    FitLength(buf.chains, f, vecs, 0);
    WholeList(vecs, |vecs|);
    WholeList(data, n);
    NothingYet(was, data);
    while i < |vecs|
      invariant 0 <= i <= |vecs| && f + i <= |buf.chains| && buf.Structure() && slot == SlotOf(buf, f + i)
      invariant FitFrom(buf.chains, f, vecs, i) && FullVecs(buf.chains, vecs) && HoldAll(buf.chains, vecs, data)
      invariant VecSum(vecs[..i]) < n && remaining == n - VecSum(vecs[..i])
      invariant buf.Contents() == was + data[..VecSum(vecs[..i])]
    {
      ScatterMore(vecs, i, n);
      HoldAt(buf.chains, vecs, data, i);
      FitLength(buf.chains, f, vecs, i);
      SegAt(buf.chains, buf.parts, null, f + i);
      SlotLeads(buf, f + i);
      var chain := buf.At(slot);
      FitAt(buf.chains, f, vecs, i);
      var space := chain.Space();
      if space < remaining {
        TakeOne(buf, vecs, i, space, f, data, VecSum(vecs[..i]), was);
        remaining, slot, i := remaining - space, chain, i + 1;
      } else {
        TakeOne(buf, vecs, i, remaining, f, data, VecSum(vecs[..i]), was);
        PointTo(buf, slot, f + i);
        return;
      }
    }
    assert false;
  }

  /** Makes `lwdp` lead to chunk `k`, which holds data while those behind it are empty. */
  method PointTo(buf: EvBuffer, slot: Chain?, ghost k: nat)
    requires buf.Structure() && k < |buf.chains| && slot == SlotOf(buf, k)
    requires EmptyFrom(buf.chains, k + 1) && buf.chains[k].off > 0
    modifies buf`lwdp, buf`lwd
    ensures buf.Valid() && buf.lwdp == slot && buf.lwd == k
  {
    hide Seg, Flatten, EmptyFrom;
    buf.lwdp, buf.lwd := slot, k;
  }

  /** One step: counts the next `len` bytes of `data`, those from `o` on, as contents. */
  method TakeOne(buf: EvBuffer, vecs: seq<Vec>, i: nat, len: nat, ghost f: nat, ghost data: seq<byte>, ghost o: nat,
                 ghost was: seq<byte>)
    requires buf.Structure() && i < |vecs| && FitFrom(buf.chains, f, vecs, i)
    requires o < |data| && len == Min(vecs[i].len, |data| - o) && Holds(vecs[i], data, o)
    requires buf.Contents() == was + data[..o]
    modifies buf`totalLen, buf`parts, vecs[i].base`off
    ensures buf.Structure() && FitFrom(buf.chains, f, vecs, i + 1) && EmptyFrom(buf.chains, f + i + 1)
    ensures buf.Contents() == was + data[..o + len]
    ensures vecs[i].base.off == old(vecs[i].base.off) + len
  {
    hide Seg, Distinct, Flatten, Window, Piece;
    Extend(buf, vecs[i].base, len, f + i);
    NextBytes(was, data, o, len);
  }

  lemma HoldAt(cs: seq<Chain>, vecs: seq<Vec>, data: seq<byte>, i: nat)
    requires HoldAll(cs, vecs, data) && i < |vecs| && VecSum(vecs[..i]) < |data|
    ensures Holds(vecs[i], data, VecSum(vecs[..i]))
  {
  }

  lemma SlotLeads(buf: EvBuffer, k: nat)
    requires buf.Structure() && k < |buf.chains|
    ensures buf.At(SlotOf(buf, k)) == buf.chains[k]
  {
    if k > 0 {
      SegAt(buf.chains, buf.parts, null, k - 1);
    }
  }

  /** evbuffer_read, with `waiting` for the bytes that the socket holds and `readable` for what the
      system says about their number: the bytes read are a prefix of those waiting, and they become
      the end of the contents. */
  method Read(buf: EvBuffer, howmuch: int, readable: int, waiting: seq<byte>) returns (n: int)
    requires buf.Valid()
    modifies buf, buf.chains
    ensures buf.Valid() && (n == -1 <==> old(buf.freezeEnd))
    ensures !old(buf.freezeEnd) ==> n == Min(|waiting|, ReadLimit(howmuch, readable))
    ensures buf.Contents() == old(buf.Contents()) + (if n < 0 then [] else waiting[..n])
    ensures Evolves(old(buf.chains), buf.chains)
  {
    hide Seg, Distinct, Flatten, Window, LastWithData, VecSum, Piece, Offers, Filling, VecsFit, Room, FirstRoom, AmpleOf,
      Opened, LastNeeded, Sizes, Grows, MemSum, Detached, EvBuffer.Valid;
    if buf.freezeEnd {
      return -1;
    }
    var limit := ReadLimit(howmuch, readable);
    ExpandFast(buf, limit, NUM_READ_IOVEC);
    var vecs, slot := SetupVecs(buf, limit, NUM_READ_IOVEC, true);
    n := Min(|waiting|, limit);
    assert forall i :: 0 <= i < |buf.chains| ==> buf.chains[i] in old(buf.chains) || fresh(buf.chains[i]);
    RoomBehind(buf);
    Fill(buf, vecs, slot, waiting[..n], FirstRoom(buf));
    return;
  }

  lemma RoomBehind(buf: EvBuffer)
    ensures buf.lwd <= FirstRoom(buf)
  {
  }

  /** The bytes arrive in the vectors and are counted as contents. */
  method Fill(buf: EvBuffer, vecs: seq<Vec>, slot: Chain?, data: seq<byte>, ghost f: nat)
    requires buf.Valid() && buf.lwd <= f && VecsFit(buf.chains, f, vecs)
    requires slot == SlotOf(buf, f) && |data| <= VecSum(vecs)
    requires forall i :: 0 <= i < |vecs| - 1 ==> vecs[i].len == Room(vecs[i].base)
    modifies buf`totalLen, buf`parts, buf`lwdp, buf`lwd, buf.chains`off, buf.chains`mem
    ensures buf.Valid() && buf.Contents() == old(buf.Contents()) + data
  {
    hide Seg, Distinct, Flatten, Window, LastWithData, VecSum, Piece, HoldAll, VecsFit, Room;
    forall i | 0 <= i < |buf.chains| ensures buf.chains[i].InBounds() {
      SegAt(buf.chains, buf.parts, null, i);
    }
    FullStart(buf.chains, f, vecs);
    Scatter(buf, vecs, data, f);
    if |data| > 0 {
      TakeIn(buf, slot, vecs, |data|, data, f);
    }
  }

  /** How many bytes evbuffer_read asks for. */
  function ReadLimit(howmuch: int, readable: int): (limit: nat)
    ensures limit <= EVBUFFER_MAX_READ && (0 <= howmuch ==> limit <= howmuch)
  {
    var n := if readable <= 0 || readable > EVBUFFER_MAX_READ then EVBUFFER_MAX_READ else readable;
    if howmuch < 0 || howmuch > n then n else howmuch
  }
}

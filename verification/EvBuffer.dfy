/** The evbuffer: a byte queue kept as a linked list of chunks. */
module EvBuffers {
  import opened Common
  import opened Flat
  import opened Chains

  /** Index `w` is that of the last chunk with data, or 0 if all chunks are empty. */
  ghost predicate LastWithData(cs: seq<Chain>, w: nat)
    reads cs`off
  {
    EmptyFrom(cs, w + 1) && (0 < w < |cs| ==> cs[w].off > 0)
  }

  /** No chunk is pinned, all before index `w` hold data, and none comes after it. */
  ghost predicate NoHoles(cs: seq<Chain>, w: nat)
    reads cs`off, cs`pinnedR, cs`pinnedW
  {
    && |cs| <= w + 1 && (forall i :: 0 <= i < w && i < |cs| ==> cs[i].off > 0)
    && (forall i :: 0 <= i < |cs| ==> !cs[i].Pinned())
  }

  lemma NoPins(buf: EvBuffer)
    requires buf.Structure() && buf.PinsOk() && !buf.HasPinnedR()
    ensures forall c :: c in buf.chains ==> !c.pinnedR
  {
    hide Seg;
    forall i | 0 <= i < |buf.chains| ensures !buf.chains[i].pinnedR {
    }
  }

  lemma EmptyListOk()
    ensures LastWithData([], 0) && PinsBehind([], 0) && NoHoles([], 0)
  {
  }

  lemma HolesDrop(cs: seq<Chain>, w: nat, k: nat)
    requires NoHoles(cs, w) && k < |cs|
    ensures NoHoles(cs[k..], Minus(w, k)) && k <= w && !cs[k].Pinned()
  {
  }

  lemma HolesPush(c: Chain, cs: seq<Chain>, w: nat)
    requires !c.Pinned() && (cs != [] ==> NoHoles(cs, w) && c.off > 0)
    ensures NoHoles([c] + cs, if cs == [] then 0 else w + 1)
  {
  }

  lemma HolesJoin(a: seq<Chain>, wa: nat, b: seq<Chain>, wb: nat)
    requires NoHoles(a, wa) && NoHoles(b, wb) && wa < |a| && a[wa].off > 0
    ensures NoHoles(a + b, |a| + wb)
  {
  }

  /** The chunks that a pending read writes into are the last chunk with data or the one behind
      it, and everything after that. */
  ghost predicate PinsBehind(cs: seq<Chain>, w: nat)
    reads cs`pinnedR
  {
    && (forall i :: 0 <= i < w && i < |cs| ==> !cs[i].pinnedR)
    && (forall i :: w < i < |cs| ==> cs[i].pinnedR == cs[|cs| - 1].pinnedR)
    && (w < |cs| && cs[w].pinnedR ==> cs[|cs| - 1].pinnedR)
  }

  /** Where the last chunk with data is once the first `k` chunks are gone. */
  function Minus(w: nat, k: nat): nat {
    if w > k then w - k else 0
  }

  /** Both facts survive the loss of the first `k` chunks. */
  lemma DropFront(cs: seq<Chain>, w: nat, k: nat)
    requires LastWithData(cs, w) && PinsBehind(cs, w) && w < |cs| && k < |cs|
    requires k > w ==> cs[|cs| - 1].pinnedR
    ensures LastWithData(cs[k..], Minus(w, k)) && PinsBehind(cs[k..], Minus(w, k))
  {
    assert LastWithData(cs[k..], Minus(w, k));
  }

  /** One more chunk in front moves the last chunk with data up by one. */
  lemma PushFrontOk(c: Chain, cs: seq<Chain>, w: nat)
    requires cs != [] ==> LastWithData(cs, w) && w < |cs| && cs[0].off > 0
    ensures LastWithData([c] + cs, if cs == [] then 0 else w + 1)
  {
  }

  class EvBuffer {
    var first: Chain?
    var last: Chain?
    /** `last_with_datap`, a pointer to a pointer: null stands for `&first`, a chunk stands
        for the address of that chunk's `next` field. */
    var lwdp: Chain?
    var totalLen: nat
    var freezeStart: bool
    var freezeEnd: bool

    ghost var chains: seq<Chain>
    ghost var parts: seq<seq<byte>>  // the data of each chunk
    ghost var lwd: nat          // index in `chains` of the chunk that `lwdp` leads to

    constructor ()
      ensures Valid() && fresh(this) && chains == [] && Contents() == []
      ensures !freezeStart && !freezeEnd
    {
      first, last, lwdp, totalLen := null, null, null, 0;
      freezeStart, freezeEnd := false, false;
      chains, parts, lwd := [], [], 0;
    }

    /** Everything but the meaning of `lwdp`: the list, the length, and that `lwdp` points
        into the list. */
    ghost predicate Structure()
      reads this, chains
    {
      && Seg(chains, parts, null) && |parts| == |chains| && totalLen == |Flatten(parts)|
      && first == Head(chains, null)
      && last == (if chains == [] then null else chains[|chains| - 1])
      && (lwd == 0 || lwd < |chains|)
      && lwdp == (if lwd == 0 then null else chains[lwd - 1])
    }

    /** The chunk `*last_with_datap` is the last one with data, or the first if all are empty. */
    ghost predicate LwdOk()
      reads this, chains
    {
      LastWithData(chains, lwd)
    }

    ghost predicate PinsOk()
      reads this, chains
    {
      PinsBehind(chains, lwd)
    }

    /** The strong invariant of plain use: no chunk is pinned, and none is empty except possibly a
        sole one. */
    ghost predicate Tight()
      reads this, chains
    {
      NoHoles(chains, lwd)
    }

    /** Is a read pending into this buffer? */
    predicate HasPinnedR()
      reads this, last
    {
      last != null && last.pinnedR
    }

    ghost predicate Valid()
      reads this, chains
    {
      Structure() && LwdOk()
    }

    ghost function Contents(): seq<byte>
      reads this
    {
      Flatten(parts)
    }

    /** Reads through a pointer to a `next` field (or to `first`). */
    function At(slot: Chain?): Chain?
      reads this, slot
    {
      if slot == null then first else slot.next
    }
  }

  lemma LengthIs(buf: EvBuffer)
    requires buf.Valid()
    ensures buf.totalLen == |buf.Contents()|
  {
  }

  /** What Structure says about one of the chunks. */
  lemma LiveChunk(buf: EvBuffer, i: nat)
    requires buf.Valid() && i < |buf.chains|
    ensures |buf.parts| == |buf.chains| && buf.chains[i].Ok() && buf.chains[i].Data() == buf.parts[i]
    ensures |buf.parts[i]| == buf.chains[i].off && buf.chains[i].next == Nth(buf.chains, null, i + 1)
    ensures buf.first == buf.chains[0] && buf.totalLen == |Flatten(buf.parts)|
  {
    hide Seg, Flatten;
    SegAt(buf.chains, buf.parts, null, i);
  }

  /** `*last_with_datap` is the chunk with index `lwd`. */
  lemma TargetIs(buf: EvBuffer)
    requires buf.Structure()
    ensures buf.At(buf.lwdp) == Nth(buf.chains, null, buf.lwd)
  {
    if buf.lwd > 0 {
      SegAt(buf.chains, buf.parts, null, buf.lwd - 1);
    }
  }

  /** From `was` to `now`: only new chunks have come in, whatever went out was freed, and no pin
      was set or cleared. */
  twostate predicate Evolves(was: seq<Chain>, new now: seq<Chain>)
    reads was, now
  {
    && (forall c :: c in now ==> c in was || (fresh(c) && !c.Pinned()))
    && (forall c :: c in was ==> SamePins(c) && (c in now || Detached(c)))
  }

  /** The same for two buffers that exchange chunks. */
  twostate predicate EvolveBoth(wasA: seq<Chain>, wasB: seq<Chain>, new nowA: seq<Chain>, new nowB: seq<Chain>)
    reads wasA, wasB, nowA, nowB
  {
    && (forall c :: c in nowA ==> c in wasA || c in wasB || (fresh(c) && !c.Pinned()))
    && (forall c :: c in nowB ==> c in wasA || c in wasB || (fresh(c) && !c.Pinned()))
    && (forall c :: c in wasA ==> SamePins(c) && (c in nowA || c in nowB || Detached(c)))
    && (forall c :: c in wasB ==> SamePins(c) && (c in nowA || c in nowB || Detached(c)))
  }

  /** Index of the first chunk at or after `from` that is neither pinned nor holds data. */
  ghost function FirstVictim(cs: seq<Chain>, from: nat): (v: nat)
    requires from <= |cs|
    reads cs`off, cs`pinnedR, cs`pinnedW
    ensures from <= v <= |cs|
    ensures forall i :: from <= i < v ==> cs[i].off != 0 || cs[i].Pinned()
    ensures v < |cs| ==> cs[v].off == 0 && !cs[v].Pinned()
    decreases |cs| - from
  {
    if from == |cs| || (cs[from].off == 0 && !cs[from].Pinned()) then from
    else FirstVictim(cs, from + 1)
  }

  lemma {:induction false} VictimIs(cs: seq<Chain>, from: nat, v: nat)
    requires from <= v <= |cs| && forall i :: from <= i < v ==> cs[i].off != 0 || cs[i].Pinned()
    requires v < |cs| ==> cs[v].off == 0 && !cs[v].Pinned()
    ensures FirstVictim(cs, from) == v
    decreases v - from
  {
    if from < v {
      VictimIs(cs, from + 1, v);
    }
  }

  /** Walks from `*last_with_datap` to the slot of the first victim. */
  method FindVictim(buf: EvBuffer) returns (slot: Chain?, ghost v: nat)
    requires buf.Structure()
    ensures v == FirstVictim(buf.chains, buf.lwd)
    ensures slot == if v == 0 then null else buf.chains[v - 1]
    ensures buf.At(slot) == Nth(buf.chains, null, v)
  {
    slot, v := buf.lwdp, buf.lwd;
    var c := buf.At(slot);
    while c != null && (c.off != 0 || c.Pinned())
      invariant buf.lwd <= v <= |buf.chains|
      invariant slot == if v == 0 then null else buf.chains[v - 1]
      invariant c == Nth(buf.chains, null, v)
      invariant buf.At(slot) == c
      invariant FirstVictim(buf.chains, v) == FirstVictim(buf.chains, buf.lwd)
      decreases |buf.chains| - v
    {
      assert c == buf.chains[v];
      slot, v, c := c, v + 1, c.next;
    }
  }

  /** A chunk that can be linked into `cs`. */
  ghost predicate Attachable(c: Chain, cs: seq<Chain>)
    reads c
  {
    c !in cs && c.next == null && c.Ok()
  }

  /** Links `chain` behind the last chunk; there is at least one. */
  method LinkLast(buf: EvBuffer, chain: Chain)
    requires buf.Structure() && Attachable(chain, buf.chains) && buf.chains != []
    modifies buf, buf.last`next
    ensures buf.Structure() && buf.Contents() == old(buf.Contents()) + chain.Data()
    ensures buf.freezeStart == old(buf.freezeStart) && buf.freezeEnd == old(buf.freezeEnd)
    ensures buf.chains == old(buf.chains) + [chain]
    ensures buf.lwd == if chain.off > 0 then |old(buf.chains)| else old(buf.lwd)
  {
    hide Seg, Distinct, Flatten, Window;
    ghost var cs, parts := buf.chains, buf.parts;
    SetTail(buf.last, chain, cs, parts, null);
    SegOne(chain);
    SegJoin(cs, parts, [chain], [chain.Data()], null);
    FlattenOne(chain.Data());
    if chain.off > 0 {
      buf.lwdp, buf.lwd := buf.last, |cs|;
    }
    buf.last := chain;
    buf.totalLen := buf.totalLen + chain.off;
    buf.chains, buf.parts := cs + [chain], parts + [chain.Data()];
  }

  /** Stores through a pointer to a `next` field (or to `first`) that ends the segment `cs`. */
  method SetSlot(buf: EvBuffer, slot: Chain?, c: Chain?, ghost cs: seq<Chain>, ghost parts: seq<seq<byte>>,
                 ghost tail: Chain?)
    requires Seg(cs, parts, tail) && buf.first == Head(cs, tail)
    requires slot == if cs == [] then null else cs[|cs| - 1]
    modifies buf`first, cs`next
    ensures Seg(cs, parts, c) && buf.first == Head(cs, c)
  {
    if slot == null {
      buf.first := c;
      SegNil(c);
    } else {
      SetTail(slot, c, cs, parts, tail);
    }
  }

  /** Frees the chunks from index `v` on, none with data, and stores `c` in the slot that led
      to them. The caller still has to fix `last`. */
  method CutTail(buf: EvBuffer, slot: Chain?, c: Chain?, ghost v: nat)
    requires buf.Structure() && v < |buf.chains| && EmptyFrom(buf.chains, v)
    requires slot == (if v == 0 then null else buf.chains[v - 1]) && buf.At(slot) == buf.chains[v]
    modifies buf`first, buf.chains`next, buf.chains`dangling, buf.chains`released
    ensures v <= |buf.parts| && Flatten(buf.parts[..v]) == Flatten(buf.parts)
    ensures Seg(buf.chains[..v], buf.parts[..v], c) && buf.first == Head(buf.chains[..v], c)
    ensures forall c :: c in buf.chains[v..] ==> Detached(c)
  {
    hide Seg, Distinct, Flatten, Window;
    ghost var cs, parts := buf.chains, buf.parts;
    SegCut(cs, parts, null, v);
    SegEmpty(cs[v..], parts[v..], null);
    FreeAll(buf.At(slot), cs[v..], parts[v..]);
    SetSlot(buf, slot, c, cs[..v], parts[..v], cs[v]);
  }

  /** Frees the chunks from index `v` on, none with data, and links `chain` in their place. */
  method ReplaceTail(buf: EvBuffer, slot: Chain?, chain: Chain, ghost v: nat)
    requires buf.Structure() && Attachable(chain, buf.chains)
    requires v < |buf.chains| && buf.lwd <= v && EmptyFrom(buf.chains, v)
    requires slot == (if v == 0 then null else buf.chains[v - 1]) && buf.At(slot) == buf.chains[v]
    modifies buf, buf.chains`next, buf.chains`dangling, buf.chains`released
    ensures buf.Structure() && buf.Contents() == old(buf.Contents()) + chain.Data()
    ensures buf.freezeStart == old(buf.freezeStart) && buf.freezeEnd == old(buf.freezeEnd)
    ensures buf.chains == old(buf.chains)[..v] + [chain] && buf.lwd == old(buf.lwd)
    ensures forall c :: c in old(buf.chains)[v..] ==> Detached(c)
  {
    hide Seg, Distinct, Flatten, Window;
    ghost var kept, parts := buf.chains[..v], buf.parts[..v];
    CutTail(buf, slot, chain, v);
    SegOne(chain);
    SegJoin(kept, parts, [chain], [chain.Data()], null);
    FlattenOne(chain.Data());
    buf.last, buf.totalLen := chain, buf.totalLen + chain.off;
    buf.chains, buf.parts := kept + [chain], parts + [chain.Data()];
  }

  /** evbuffer_chains_all_empty. */
  method AllEmpty(head: Chain?, ghost cs: seq<Chain>, ghost parts: seq<seq<byte>>) returns (yes: bool)
    requires Seg(cs, parts, null) && head == Head(cs, null)
    ensures yes <==> EmptyFrom(cs, 0)
  {
    hide Distinct, Window;
    var chain := head;
    ghost var k := 0;
    while chain != null
      invariant 0 <= k <= |cs| && chain == Nth(cs, null, k)
      invariant forall i :: 0 <= i < k ==> cs[i].off == 0
      decreases |cs| - k
    {
      if chain.off != 0 {
        return false;
      }
      SegAt(cs, parts, null, k);
      chain, k := chain.next, k + 1;
    }
    yes := true;
  }

  lemma EmptyTail(cs: seq<Chain>, v: nat)
    requires v <= |cs|
    ensures EmptyFrom(cs[v..], 0) <==> EmptyFrom(cs, v)
  {
    if EmptyFrom(cs[v..], 0) {
      forall i | v <= i < |cs| ensures cs[i].off == 0 {
        assert cs[v..][i - v] == cs[i];
      }
    }
  }

  /** Adds `chain` at the end of the buffer in place of every victim. The assertion that no victim
      holds data fails, and nothing has changed yet, when one does. */
  method ChainInsert(buf: EvBuffer, chain: Chain) returns (ok: bool)
    requires buf.Structure() && Attachable(chain, buf.chains)
    modifies buf, buf.chains`next, buf.chains`dangling, buf.chains`released
    ensures ok <==> old(EmptyFrom(buf.chains, FirstVictim(buf.chains, buf.lwd)))
    ensures buf.Structure() && buf.Contents() == old(buf.Contents()) + if ok then chain.Data() else []
    ensures buf.freezeStart == old(buf.freezeStart) && buf.freezeEnd == old(buf.freezeEnd)
    ensures !ok ==> buf.chains == old(buf.chains) && buf.lwd == old(buf.lwd)
    ensures !ok ==> forall c :: c in buf.chains ==> c.released == old(c.released) && c.dangling == old(c.dangling)
    ensures ok ==> var v := old(FirstVictim(buf.chains, buf.lwd));
            && buf.chains == old(buf.chains)[..v] + [chain]
            && buf.lwd == (if 0 < v == |old(buf.chains)| && chain.off > 0 then v else old(buf.lwd))
            && (forall c :: c in old(buf.chains)[v..] ==> Detached(c))
  {
    hide Seg, Distinct, Flatten, Window, FirstVictim;
    ghost var cs, parts := buf.chains, buf.parts;
    SegLength(cs, parts, null);
    if buf.first == null {
      InsertFirst(buf, chain);
      return true;
    }
    var slot; ghost var v;
    slot, v := FindVictim(buf);
    var victim := buf.At(slot);
    if victim == null {
      LinkLast(buf, chain);
      return true;
    }
    SegDrop(cs, parts, null, v);
    EmptyTail(cs, v);
    ok := AllEmpty(victim, cs[v..], parts[v..]);
    if ok {
      ReplaceTail(buf, slot, chain, v);
    } else {
      assert buf.Contents() + [] == buf.Contents();
    }
  }

  /** The first chunk of a buffer. */
  method InsertFirst(buf: EvBuffer, chain: Chain)
    requires buf.Structure() && Attachable(chain, buf.chains) && buf.first == null
    modifies buf
    ensures buf.Structure() && buf.Contents() == old(buf.Contents()) + chain.Data()
    ensures buf.freezeStart == old(buf.freezeStart) && buf.freezeEnd == old(buf.freezeEnd)
    ensures old(buf.chains) == [] && buf.chains == [chain] && buf.lwd == old(buf.lwd) == 0
  {
    hide Distinct, Flatten, Window;
    assert buf.chains == [] && buf.parts == [];
    SegOne(chain);
    SegNil(null);
    FlattenOne(chain.Data());
    buf.first, buf.last := chain, chain;
    buf.totalLen := buf.totalLen + chain.off;
    buf.chains, buf.parts := [chain], [chain.Data()];
  }

  /** Drops the first `n` bytes of the first chunk of a list. */
  method TrimFront(c: Chain, n: nat, ghost cs: seq<Chain>, ghost parts: seq<seq<byte>>)
    requires Seg(cs, parts, null) && cs != [] && cs[0] == c && n <= c.off
    modifies c`misalign, c`off
    ensures |parts| == |cs| && n <= |parts[0]| && Seg(cs, [parts[0][n..]] + parts[1..], null)
    ensures Flatten([parts[0][n..]] + parts[1..]) == Flatten(parts)[n..]
    ensures c.off == old(c.off) - n && c.misalign == old(c.misalign) + n
    ensures forall i :: 0 < i < |cs| ==> cs[i] != c
  {
    hide Seg, Distinct, Flatten, Window;
    SegSplit(cs, parts, null, 0);
    NotFirst(cs, parts, null);
    WindowDrop(c.mem, c.misalign, c.off, n);
    c.misalign, c.off := c.misalign + n, c.off - n;
    SegNil(c);
    SegMake([], [], c, cs[1..], parts[1..], null);
    assert [] + [c] + cs[1..] == cs;
    assert [] + [c.Data()] + parts[1..] == [parts[0][n..]] + parts[1..];
  }

  /** evbuffer_free_trailing_empty_chains: frees all victims and returns the slot that led to the
      first of them. The caller still has to fix `first` and `last`. */
  method FreeTrailing(buf: EvBuffer) returns (slot: Chain?, ghost v: nat)
    requires buf.Valid()
    modifies buf`first, buf.chains`next, buf.chains`dangling, buf.chains`released
    ensures v == old(FirstVictim(buf.chains, buf.lwd)) && slot == if v == 0 then null else buf.chains[v - 1]
    ensures Flatten(buf.parts[..v]) == Flatten(buf.parts)
    ensures Seg(buf.chains[..v], buf.parts[..v], null) && buf.first == Head(buf.chains[..v], null)
    ensures forall c :: c in buf.chains[v..] ==> Detached(c)
  {
    hide Seg, Distinct, Flatten, Window, FirstVictim;
    slot, v := FindVictim(buf);
    if buf.At(slot) != null {
      CutTail(buf, slot, null, v);
    } else {
      assert buf.chains[..v] == buf.chains && buf.parts[..v] == buf.parts;
    }
  }

  /** advance_last_with_data: `lwdp` moves on while the next chunk holds data. */
  method AdvanceLast(buf: EvBuffer)
    requires buf.Structure()
    modifies buf`lwdp, buf`lwd
    ensures buf.Structure() && old(buf.lwd) <= buf.lwd
    ensures forall i :: old(buf.lwd) < i <= buf.lwd ==> buf.chains[i].off > 0
    ensures buf.lwd + 1 < |buf.chains| ==> buf.chains[buf.lwd + 1].off == 0
  {
    hide Seg, Distinct, Flatten, Window;
    TargetIs(buf);
    var chain := buf.At(buf.lwdp);
    if chain == null {
      return;
    }
    SegAt(buf.chains, buf.parts, null, buf.lwd);
    while chain.next != null && chain.next.off > 0
      invariant old(buf.lwd) <= buf.lwd < |buf.chains| && chain == buf.chains[buf.lwd]
      invariant chain.next == Nth(buf.chains, null, buf.lwd + 1)
      invariant buf.lwdp == if buf.lwd == 0 then null else buf.chains[buf.lwd - 1]
      invariant forall i :: old(buf.lwd) < i <= buf.lwd ==> buf.chains[i].off > 0
      invariant Seg(buf.chains, buf.parts, null)
      decreases |buf.chains| - buf.lwd
    {
      buf.lwdp, buf.lwd := chain, buf.lwd + 1;
      chain := chain.next;
      SegAt(buf.chains, buf.parts, null, buf.lwd);
    }
  }

  /** evbuffer_chain_align: moves the data of chunk `i` to its front. */
  method AlignChunk(buf: EvBuffer, c: Chain, ghost i: nat)
    requires buf.Structure() && i < |buf.chains| && c == buf.chains[i] && !c.Pinned()
    modifies buf`parts, c`mem, c`misalign
    ensures buf.Structure() && buf.Contents() == old(buf.Contents())
    ensures c.misalign == 0 && |c.mem| == old(|c.mem|) && c.Ok()
  {
    hide Seg, Distinct, Flatten, Window;
    ghost var now := AlignIn(c, buf.chains, buf.parts, i);
    buf.parts := now;
  }

  /** The same for the list. */
  method AlignIn(c: Chain, ghost cs: seq<Chain>, ghost parts: seq<seq<byte>>, ghost i: nat) returns (ghost now: seq<seq<byte>>)
    requires Seg(cs, parts, null) && i < |cs| && c == cs[i] && !c.Pinned()
    modifies c`mem, c`misalign
    ensures |now| == |cs| && Seg(cs, now, null) && Flatten(now) == Flatten(parts)
    ensures c.misalign == 0 && |c.mem| == old(|c.mem|) && c.Ok()
  {
    hide Seg, Distinct, Flatten, Window;
    SegSplit(cs, parts, null, i);
    c.Align();
    SegMake(cs[..i], parts[..i], c, cs[i + 1..], parts[i + 1..], null);
    now := parts[..i] + [c.Data()] + parts[i + 1..];
  }
}

/** Adding bytes at either end of an evbuffer. */
module BufferAdd {
  import opened Common
  import opened Flat
  import opened Chains
  import opened EvBuffers

  const MAX_AUTO_SIZE: nat := 4096
  const MAX_TO_REALIGN: nat := 2048

  /** Is it worth moving the data of `chain` to the front to make room for `n` bytes? */
  predicate ShouldRealign(chain: Chain, n: nat)
    requires chain.InBounds()
    reads chain
  {
    |chain.mem| - chain.off >= n && chain.off < |chain.mem| / 2 && chain.off <= MAX_TO_REALIGN
  }

  /** A new chunk of at least `size` bytes that holds `data`. */
  method ChunkOf(size: nat, data: seq<byte>) returns (c: Chain)
    requires |data| <= size
    ensures fresh(c) && c.Ok() && c.next == null && !c.Pinned()
    ensures c.misalign == 0 && c.off == |data| && c.Data() == data
  {
    c := new Chain(size);
    WindowAppend(c.mem, 0, 0, data);
    c.Write(0, data);
    c.off := |data|;
  }

  /** memcpy behind the data of the last chunk. */
  method AppendToLast(buf: EvBuffer, data: seq<byte>)
    requires buf.Structure() && buf.last != null && buf.last.InBounds() && |data| <= buf.last.Space()
    modifies buf`totalLen, buf`parts, buf.last`mem, buf.last`off
    ensures buf.Structure() && buf.Contents() == old(buf.Contents()) + data
    ensures buf.last.off == old(buf.last.off) + |data| && |buf.last.mem| == old(|buf.last.mem|)
    ensures DataKept(buf.last)
  {
    hide Seg, Distinct, Flatten, Window;
    ghost var cs, parts, n := buf.chains, buf.parts, |buf.chains| - 1;
    var c := buf.last;
    SegSplit(cs, parts, null, n);
    WindowAppend(c.mem, c.misalign, c.off, data);
    c.Write(c.misalign + c.off, data);
    c.off := c.off + |data|;
    buf.totalLen := buf.totalLen + |data|;
    SegNil(null);
    SegMake(cs[..n], parts[..n], c, [], [], null);
    assert cs[..n] + [c] + [] == cs;
    buf.parts := parts[..n] + [c.Data()] + [];
  }

  /** Does the last chunk take `n` more bytes, possibly after realigning? */
  ghost predicate Fits(buf: EvBuffer, n: nat)
    requires buf.last != null && buf.last.InBounds()
    reads buf, buf.last
  {
    n <= buf.last.Space() || (!buf.last.Pinned() && ShouldRealign(buf.last, n))
  }

  /** When the assertion in evbuffer_chain_insert fails: the data overflows a last chunk with room,
      and an empty chunk that precedes it is the first victim. The chunks to be freed then include
      the one that was just filled up. */
  ghost predicate AddAborts(buf: EvBuffer, n: nat)
    requires buf.Structure()
    reads buf, buf.chains
  {
    buf.chains != [] && LastOk(buf) && !Fits(buf, n) && buf.last.Space() > 0
    && FirstVictim(buf.chains, buf.lwd) < |buf.chains| - 1
  }

  /** When adding `n` bytes leaves `lwdp` leading to the last chunk with data. */
  ghost predicate AddKeepsPointer(buf: EvBuffer, n: nat)
    requires buf.Structure()
    reads buf, buf.chains
  {
    if buf.chains == [] || n == 0 then true
    else if LastOk(buf) && Fits(buf, n) then buf.lwd == |buf.chains| - 1
    else
      var v := FirstVictim(buf.chains, buf.lwd);
      (LastOk(buf) && buf.last.Space() > 0) || v == |buf.chains| || v == buf.lwd
  }

  /** The part of Structure that the two predicates above rest on. */
  ghost predicate LastOk(buf: EvBuffer)
    reads buf, buf.last
  {
    buf.last != null && buf.last.InBounds()
  }

  /** In plain use neither of the two happens. */
  lemma TightAdd(buf: EvBuffer, n: nat)
    requires buf.Valid() && buf.Tight()
    ensures !AddAborts(buf, n) && AddKeepsPointer(buf, n)
  {
    hide Seg, Window;
  }

  /** The first `v` chunks of a list are still the first ones. */
  ghost predicate Leads(was: seq<Chain>, v: nat, now: seq<Chain>) {
    v <= |was| && v <= |now| && forall i :: 0 <= i < v ==> now[i] == was[i]
  }

  /** Every chunk holds data, and there is one. */
  ghost predicate AllHold(cs: seq<Chain>)
    reads cs`off
  {
    cs != [] && forall i :: 0 <= i < |cs| ==> cs[i].off > 0
  }

  /** Outcomes of evbuffer_add; its assertion may fail inside evbuffer_chain_insert. */
  datatype AddResult = Added | Frozen | Aborted

  /** evbuffer_add. */
  method Add(buf: EvBuffer, data: seq<byte>) returns (r: AddResult)
    requires buf.Valid()
    modifies buf, buf.chains
    ensures r == if old(buf.freezeEnd) then Frozen else if old(AddAborts(buf, |data|)) then Aborted else Added
    ensures buf.Structure() && (r != Aborted ==> buf.Contents() == old(buf.Contents()) + (if r == Added then data else []))
    ensures r != Aborted ==> (buf.Valid() <==> r == Frozen || old(AddKeepsPointer(buf, |data|)))
    ensures old(buf.Tight()) ==> buf.Tight()
    ensures r == Added && old(buf.chains) == [] ==> FirstIs(buf, |data|)
    ensures r != Aborted ==> Evolves(old(buf.chains), buf.chains)
    ensures r != Aborted ==> Leads(old(buf.chains), old(FirstVictim(buf.chains, buf.lwd)), buf.chains)
    ensures r != Aborted ==> forall c :: c in old(buf.chains) && c.Pinned() ==> DataKept(c)
    ensures old(AllHold(buf.chains)) && r != Aborted ==> AllHold(buf.chains)
    ensures buf.freezeStart == old(buf.freezeStart) && buf.freezeEnd == old(buf.freezeEnd)
  {
    hide Seg, Distinct, Flatten, Window, FirstVictim, NoHoles, LastWithData, Leads;
    LeadsSelf(buf);
    if buf.freezeEnd {
      return Frozen;
    }
    if buf.last == null {
      AddFirst(buf, data);
      LeadsNone(buf.chains);
      return Added;
    }
    SegAt(buf.chains, buf.parts, null, |buf.chains| - 1);
    if buf.last.Space() >= |data| {
      Fit(buf, data, false);
      return Added;
    }
    if !buf.last.Pinned() && ShouldRealign(buf.last, |data|) {
      Fit(buf, data, true);
      return Added;
    }
    var ok := AddChunk(buf, data);
    return if ok then Added else Aborted;
  }

  /** Adds `data` to the last chunk, realigned first if need be. */
  method Fit(buf: EvBuffer, data: seq<byte>, align: bool)
    requires buf.Valid() && buf.last != null && buf.last.InBounds()
    requires if align then !buf.last.Pinned() && ShouldRealign(buf.last, |data|) else |data| <= buf.last.Space()
    modifies buf`totalLen, buf`parts, buf.last`mem, buf.last`off, buf.last`misalign
    ensures buf.Structure() && buf.Contents() == old(buf.Contents()) + data
    ensures buf.Valid() <==> data == [] || buf.lwd == |buf.chains| - 1
    ensures old(buf.Tight()) ==> buf.Tight()
    ensures buf.last.Pinned() ==> DataKept(buf.last)
    ensures buf.last.off == old(buf.last.off) + |data|
  {
    hide Seg, Distinct, Flatten, Window;
    LastIn(buf);
    if align {
      AlignChunk(buf, buf.last, |buf.chains| - 1);
    }
    AppendToLast(buf, data);
  }

  /** The one chunk of the buffer was made for the `n` bytes that it holds. */
  ghost predicate FirstIs(buf: EvBuffer, n: nat)
    reads buf, buf.chains
  {
    |buf.chains| == 1 && buf.chains[0].misalign == 0 && buf.chains[0].off == n && |buf.chains[0].mem| == ChunkSize(n)
  }

  /** Without chunks, the first one is made big enough for all of `data`. */
  method AddFirst(buf: EvBuffer, data: seq<byte>)
    requires buf.Valid() && buf.last == null
    modifies buf
    ensures buf.Valid() && buf.Contents() == old(buf.Contents()) + data
    ensures buf.Tight() && Evolves(old(buf.chains), buf.chains) && FirstIs(buf, |data|)
    ensures buf.freezeStart == old(buf.freezeStart) && buf.freezeEnd == old(buf.freezeEnd)
  {
    hide Seg, Distinct, Flatten, Window;
    var chain := new Chain(|data|);
    InsertFirst(buf, chain);
    AppendToLast(buf, data);
  }

  /** Adds a new chunk with `data` at the end, in place of the victims. */
  method PutChunk(buf: EvBuffer, size: nat, data: seq<byte>) returns (ok: bool)
    requires buf.Structure() && buf.chains != [] && 0 < |data| <= size
    modifies buf, buf.chains`next, buf.chains`dangling, buf.chains`released
    ensures ok <==> old(EmptyFrom(buf.chains, FirstVictim(buf.chains, buf.lwd)))
    ensures buf.Structure() && buf.Contents() == old(buf.Contents()) + if ok then data else []
    ensures ok ==> Evolves(old(buf.chains), buf.chains)
    ensures ok ==> Leads(old(buf.chains), old(FirstVictim(buf.chains, buf.lwd)), buf.chains)
    ensures ok && old(AllHold(buf.chains)) ==> AllHold(buf.chains)
    ensures buf.freezeStart == old(buf.freezeStart) && buf.freezeEnd == old(buf.freezeEnd)
    ensures ok ==> var v := old(FirstVictim(buf.chains, buf.lwd));
            && (buf.Valid() <==> v == |old(buf.chains)| || v == old(buf.lwd))
            && (buf.Valid() && (forall i :: 0 <= i < v ==> old(buf.chains[i].off > 0 && !buf.chains[i].Pinned())) ==> buf.Tight())
  {
    hide Seg, Distinct, Flatten, Window, FirstVictim, LastWithData, NoHoles, EmptyFrom, Detached, EvBuffer.Valid,
      EvBuffer.Tight;
    ghost var cs, v, w := buf.chains, FirstVictim(buf.chains, buf.lwd), buf.lwd;
    var tmp := ChunkOf(size, data);
    ok := ChainInsert(buf, tmp);
    Halves(cs, v);
    if ok {
      PutIs(buf, cs, v, w, tmp);
    }
  }

  /** A chunk with data has come after the first `v` chunks of `cs`. */
  lemma PutIs(buf: EvBuffer, cs: seq<Chain>, v: nat, w: nat, c: Chain)
    requires buf.Structure() && w <= v <= |cs| && cs != [] && buf.chains == cs[..v] + [c] && c.off > 0 && !c.Pinned()
    requires buf.lwd == if v == |cs| then v else w
    ensures buf.Valid() <==> v == |cs| || v == w
    ensures buf.Valid() && (forall i :: 0 <= i < v ==> cs[i].off > 0 && !cs[i].Pinned()) ==> buf.Tight()
    ensures Leads(cs, v, buf.chains) && (AllHold(cs) ==> AllHold(buf.chains))
  {
    hide Seg, Flatten;
    assert buf.chains[v] == c;
  }

  /** Fills up the last chunk, which holds data from then on and so is no victim. */
  method FillLast(buf: EvBuffer, data: seq<byte>)
    requires buf.Valid() && buf.last != null && buf.last.InBounds() && 0 < |data| <= buf.last.Space()
    modifies buf`totalLen, buf`parts, buf.last`mem, buf.last`off
    ensures buf.Structure() && buf.Contents() == old(buf.Contents()) + data
    ensures EmptyFrom(buf.chains, FirstVictim(buf.chains, buf.lwd)) <==> old(FirstVictim(buf.chains, buf.lwd)) >= |buf.chains| - 1
    ensures old(FirstVictim(buf.chains, buf.lwd)) >= |buf.chains| - 1 ==> FirstVictim(buf.chains, buf.lwd) == |buf.chains|
    ensures forall i :: 0 <= i < |buf.chains| - 1 ==> buf.chains[i].off == old(buf.chains[i].off)
    ensures buf.chains[|buf.chains| - 1].off > 0 && DataKept(buf.last)
  {
    hide Seg, Flatten, Window, FirstVictim;
    ghost var cs, v := buf.chains, FirstVictim(buf.chains, buf.lwd);
    SegLength(cs, buf.parts, null);
    assert forall i :: 0 <= i < |cs| - 1 ==> cs[i] != cs[|cs| - 1];
    hide Distinct;
    AppendToLast(buf, data);
    VictimIs(cs, buf.lwd, if v < |cs| - 1 then v else |cs|);
  }

  /** The same for any number of bytes. */
  method FillUp(buf: EvBuffer, data: seq<byte>)
    requires buf.Valid() && buf.last != null && buf.last.InBounds() && |data| <= buf.last.Space()
    modifies buf`totalLen, buf`parts, buf.last`mem, buf.last`off
    ensures buf.Structure() && buf.Contents() == old(buf.Contents()) + data
    ensures EmptyFrom(buf.chains, FirstVictim(buf.chains, buf.lwd))
            <==> (data != [] ==> old(FirstVictim(buf.chains, buf.lwd)) >= |buf.chains| - 1)
    ensures EmptyFrom(buf.chains, FirstVictim(buf.chains, buf.lwd))
            ==> FirstVictim(buf.chains, buf.lwd) == if data != [] then |buf.chains| else old(FirstVictim(buf.chains, buf.lwd))
    ensures (forall c :: c in buf.chains ==> DataKept(c)) && (old(AllHold(buf.chains)) ==> AllHold(buf.chains))
    ensures old(buf.Tight())
            ==> forall i :: 0 <= i < FirstVictim(buf.chains, buf.lwd) ==> buf.chains[i].off > 0 && !buf.chains[i].Pinned()
  {
    hide Seg, Distinct, Flatten, Window, FirstVictim, LastWithData, EmptyFrom;
    VictimsEmpty(buf);
    LastIn(buf);
    if data != [] {
      FillLast(buf, data);
    } else {
      assert buf.Contents() + data == buf.Contents();
    }
  }

  lemma LastIn(buf: EvBuffer)
    requires buf.Valid() && buf.last != null
    ensures buf.chains != [] && buf.last == buf.chains[|buf.chains| - 1]
    ensures forall c :: c in buf.chains && c != buf.last ==> exists i :: 0 <= i < |buf.chains| - 1 && buf.chains[i] == c
  {
    hide Seg, Flatten;
  }

  lemma VictimsEmpty(buf: EvBuffer)
    requires buf.Valid()
    ensures EmptyFrom(buf.chains, FirstVictim(buf.chains, buf.lwd))
  {
    hide Seg, Flatten;
    var v := FirstVictim(buf.chains, buf.lwd);
    assert v < |buf.chains| ==> buf.chains[v].off == 0;
  }

  /** The last part of evbuffer_add: fill up the last chunk and put the rest in a new one. */
  method AddChunk(buf: EvBuffer, data: seq<byte>) returns (ok: bool)
    requires buf.Valid() && buf.last != null && buf.last.InBounds()
    requires |data| > buf.last.Space()
    modifies buf, buf.chains
    ensures ok <==> old(buf.last.Space() > 0 ==> FirstVictim(buf.chains, buf.lwd) >= |buf.chains| - 1)
    ensures buf.Structure() && (ok ==> buf.Contents() == old(buf.Contents()) + data)
    ensures old(buf.Tight()) ==> buf.Tight()
    ensures ok ==> Evolves(old(buf.chains), buf.chains)
    ensures ok ==> Leads(old(buf.chains), old(FirstVictim(buf.chains, buf.lwd)), buf.chains)
    ensures forall c :: c in old(buf.chains) ==> DataKept(c)
    ensures ok && old(AllHold(buf.chains)) ==> AllHold(buf.chains)
    ensures buf.freezeStart == old(buf.freezeStart) && buf.freezeEnd == old(buf.freezeEnd)
    ensures ok ==> (buf.Valid() <==> old(buf.last.Space() > 0 || FirstVictim(buf.chains, buf.lwd) == |buf.chains|
                                          || FirstVictim(buf.chains, buf.lwd) == buf.lwd))
  {
    hide Seg, Distinct, Flatten, Window, FirstVictim, LastWithData, EmptyFrom, NoHoles, AllHold, Leads, DataKept, Detached,
      EvBuffer.Tight, EvBuffer.Valid;
    NotEmpty(buf);
    TightVictim(buf);
    ghost var cs, v := buf.chains, FirstVictim(buf.chains, buf.lwd);
    var chain, remain := buf.last, buf.last.Space();
    var toAlloc := |chain.mem|;
    if toAlloc <= MAX_AUTO_SIZE / 2 {
      toAlloc := 2 * toAlloc;
    }
    if |data| > toAlloc {
      toAlloc := |data|;
    }
    Rejoin(buf.Contents(), data, remain);
    FillUp(buf, data[..remain]);
    ok := PutChunk(buf, toAlloc, data[remain..]);
    LeadsLess(cs, v, if remain > 0 then |cs| else v, buf.chains);
  }

  lemma NotEmpty(buf: EvBuffer)
    requires buf.Valid() && buf.last != null
    ensures buf.chains != [] && buf.lwd < |buf.chains| && buf.Structure()
  {
    hide Seg, Flatten;
  }

  /** In plain use the only victim is a sole empty chunk. */
  lemma TightVictim(buf: EvBuffer)
    requires buf.Valid()
    ensures buf.Tight() ==> FirstVictim(buf.chains, buf.lwd) >= |buf.chains| - 1 && buf.lwd >= |buf.chains| - 1
  {
    hide Seg, Flatten;
  }

  lemma LeadsSelf(buf: EvBuffer)
    requires buf.Valid()
    ensures Leads(buf.chains, FirstVictim(buf.chains, buf.lwd), buf.chains)
  {
  }

  lemma LeadsNone(now: seq<Chain>)
    ensures Leads([], 0, now)
  {
  }

  lemma LeadsLess(was: seq<Chain>, v: nat, v': nat, now: seq<Chain>)
    requires v <= v'
    ensures Leads(was, v', now) ==> Leads(was, v, now)
  {
  }

  lemma Rejoin(a: seq<byte>, data: seq<byte>, k: nat)
    requires k <= |data|
    ensures a + data[..k] + data[k..] == a + data
    ensures k == 0 ==> data[k..] == data
  {
  }

  /** memcpy in front of the data of the first chunk. */
  method PrependToFirst(buf: EvBuffer, data: seq<byte>)
    requires buf.Structure() && buf.first != null && buf.first.InBounds() && |data| <= buf.first.misalign
    modifies buf`totalLen, buf`parts, buf.first`mem, buf.first`off, buf.first`misalign
    ensures buf.Structure() && buf.Contents() == data + old(buf.Contents())
    ensures buf.first.off == old(buf.first.off) + |data| && buf.first.misalign == old(buf.first.misalign) - |data|
    ensures old(buf.Valid()) ==> buf.Valid()
    ensures WindowKept(buf.first)
  {
    hide Seg, Distinct, Flatten, Window, WindowKept;
    ghost var grown;
    HasFirst(buf);
    NotFirst(buf.chains, buf.parts, null);
    grown := PrependToChunk(buf.first, data, buf.chains, buf.parts);
    buf.totalLen := buf.totalLen + |data|;
    buf.parts := grown;
  }

  lemma HasFirst(buf: EvBuffer)
    requires buf.Structure() && buf.first != null
    ensures buf.chains != [] && buf.first == buf.chains[0]
  {
  }

  /** The same for the list. */
  method PrependToChunk(c: Chain, data: seq<byte>, ghost cs: seq<Chain>, ghost parts: seq<seq<byte>>)
    returns (ghost grown: seq<seq<byte>>)
    requires Seg(cs, parts, null) && cs != [] && c == cs[0] && c.InBounds() && |data| <= c.misalign
    modifies c`mem, c`off, c`misalign
    ensures |grown| == |cs| && Seg(cs, grown, null) && Flatten(grown) == data + Flatten(parts)
    ensures c.off == old(c.off) + |data| && c.misalign == old(c.misalign) - |data| && WindowKept(c)
  {
    hide Seg, Distinct, Flatten, Window;
    SegSplit(cs, parts, null, 0);
    WindowPrepend(c.mem, c.misalign, c.off, data);
    c.Write(c.misalign - |data|, data);
    c.off, c.misalign := c.off + |data|, c.misalign - |data|;
    SegNil(c);
    SegMake([], [], c, cs[1..], parts[1..], null);
    FirstAndRest(cs);
    grown := [] + [c.Data()] + parts[1..];
  }

  lemma FirstAndRest<T>(s: seq<T>)
    requires s != []
    ensures [] + [s[0]] + s[1..] == s
  {
  }

  /** The data of a chunk goes to the end of its memory. */
  ghost predicate EndsItsMemory(c: Chain)
    reads c
  {
    c.misalign + c.off == |c.mem|
  }

  /** evbuffer_prepend. */
  method Prepend(buf: EvBuffer, data: seq<byte>) returns (ok: bool)
    requires buf.Valid()
    modifies buf, buf.chains
    ensures ok == !old(buf.freezeStart)
    ensures buf.Valid() && buf.Contents() == (if ok then data else []) + old(buf.Contents())
    ensures old(buf.Tight()) ==> buf.Tight()
    ensures Evolves(old(buf.chains), buf.chains)
    ensures forall c :: c in old(buf.chains) && !(c == old(buf.first) && old(c.off) == 0) ==> WindowKept(c)
    ensures old(buf.first != null && buf.first.off == 0) && ok
            ==> EndsItsMemory(old(buf.first)) && |old(buf.first).mem| == old(|buf.first.mem|)
    ensures SuffixOf(old(buf.chains), buf.chains)
    ensures old(buf.chains) != [] ==> buf.lwd + |old(buf.chains)| == old(buf.lwd) + |buf.chains|
    ensures buf.freezeStart == old(buf.freezeStart) && buf.freezeEnd == old(buf.freezeEnd)
  {
    hide Seg, Distinct, Flatten, Window, FirstVictim;
    if buf.freezeStart {
      return false;
    }
    var chain := buf.first;
    if chain == null {
      chain := new Chain(|data|);
      InsertFirst(buf, chain);
      assert old(buf.chains) == [];
    }
    PrependTo(buf, data);
    return true;
  }

  /** The rest of evbuffer_prepend, when there is a first chunk. */
  method PrependTo(buf: EvBuffer, data: seq<byte>)
    requires buf.Valid() && buf.first != null
    modifies buf, buf.first
    ensures buf.Valid() && buf.Contents() == data + old(buf.Contents())
    ensures old(buf.Tight()) ==> buf.Tight()
    ensures Fronted(buf, old(buf.chains), old(buf.first)) && (old(buf.first.off) > 0 ==> WindowKept(old(buf.first)))
    ensures old(buf.first.off) == 0 ==> EndsItsMemory(old(buf.first)) && |old(buf.first).mem| == old(|buf.first.mem|)
    ensures buf.lwd + |old(buf.chains)| == old(buf.lwd) + |buf.chains|
    ensures buf.freezeStart == old(buf.freezeStart) && buf.freezeEnd == old(buf.freezeEnd)
  {
    hide Seg, Distinct, Flatten, Window;
    SegAt(buf.chains, buf.parts, null, 0);
    hide EvBuffer.PinsOk;
    if buf.first.off == 0 {
      OpenFront(buf);
    }
    PushFront(buf, data);
  }

  /** The chunks are those of `was`, with first chunk `c`, or a new one and those of `was`. */
  twostate predicate Fronted(buf: EvBuffer, was: seq<Chain>, c: Chain)
    reads buf`chains, buf`first, buf.first, c`pinnedR, c`pinnedW
  {
    && SamePins(c)
    && (buf.chains == was || (buf.first != null && fresh(buf.first) && !buf.first.Pinned() && buf.chains == [buf.first] + was))
  }

  /** The rest of evbuffer_prepend: as much as fits into the first chunk, the rest into a new one. */
  method PushFront(buf: EvBuffer, data: seq<byte>)
    requires buf.Valid() && buf.first != null && (buf.first.off == 0 ==> buf.first.misalign > 0)
    modifies buf, buf.first
    ensures buf.Valid() && buf.Contents() == data + old(buf.Contents())
    ensures old(buf.Tight()) ==> buf.Tight()
    ensures Fronted(buf, old(buf.chains), old(buf.first)) && WindowKept(old(buf.first))
    ensures buf.lwd + |old(buf.chains)| == old(buf.lwd) + |buf.chains|
    ensures buf.freezeStart == old(buf.freezeStart) && buf.freezeEnd == old(buf.freezeEnd)
  {
    hide Seg, Distinct, Flatten, Window, LastWithData;
    SegAt(buf.chains, buf.parts, null, 0);
    NotFirst(buf.chains, buf.parts, null);
    var room := buf.first.misalign;
    if room >= |data| {
      PrependToFirst(buf, data);
      return;
    }
    if room > 0 {
      PrependToFirst(buf, data[|data| - room..]);
    }
    Rejoin([], data, |data| - room);
    ghost var cs, w := buf.chains, buf.lwd;
    LinkFirst(buf, data[..|data| - room]);
    PushedOk(buf, cs, w);
    if old(buf.Tight()) {
      HolesPush(buf.first, cs, w);
    }
  }

  lemma PushedOk(buf: EvBuffer, cs: seq<Chain>, w: nat)
    requires buf.Structure() && buf.first != null && buf.chains == [buf.first] + cs && buf.lwd == w + 1
    requires LastWithData(cs, w) && cs != [] && cs[0].off > 0
    ensures buf.Valid()
  {
    hide Seg, Flatten;
  }

  /** An empty first chunk can hold its data at the end just as well. */
  method OpenFront(buf: EvBuffer)
    requires buf.Structure() && buf.first != null && buf.first.Ok() && buf.first.off == 0
    modifies buf`parts, buf.first`misalign
    ensures buf.Structure() && buf.Contents() == old(buf.Contents())
    ensures buf.first.misalign == |buf.first.mem|
  {
    hide Seg, Distinct, Flatten, Window;
    ghost var cs, parts := buf.chains, buf.parts;
    var c := buf.first;
    SegSplit(cs, parts, null, 0);
    c.misalign := |c.mem|;
    SegNil(c);
    SegMake([], [], c, cs[1..], parts[1..], null);
    assert [] + [c] + cs[1..] == cs;
    assert old(c.Data()) == [] && c.Data() == [];
    buf.parts := [] + [c.Data()] + parts[1..];
  }

  /** A new chunk with `data` at the end of its memory. */
  method ChunkEndingWith(data: seq<byte>) returns (c: Chain)
    ensures fresh(c) && c.Ok() && c.next == null && !c.Pinned() && c.off == |data| && c.Data() == data
  {
    c := new Chain(|data|);
    WindowPrepend(c.mem, |c.mem|, 0, data);
    c.Write(|c.mem| - |data|, data);
    c.off, c.misalign := |data|, |c.mem| - |data|;
  }

  /** Links a new chunk with `data`, aligned to its end, in front of the first. */
  method LinkFirst(buf: EvBuffer, data: seq<byte>)
    requires buf.Structure() && buf.first != null
    modifies buf
    ensures buf.Structure() && buf.Contents() == data + old(buf.Contents())
    ensures buf.first != null && buf.chains == [buf.first] + old(buf.chains) && fresh(buf.first) && !buf.first.Pinned()
    ensures buf.lwd == old(buf.lwd) + 1 && buf.first.off == |data|
    ensures buf.freezeStart == old(buf.freezeStart) && buf.freezeEnd == old(buf.freezeEnd)
  {
    hide Seg, Distinct, Flatten, Window;
    ghost var cs, parts := buf.chains, buf.parts;
    var tmp := ChunkEndingWith(data);
    tmp.next := buf.first;
    LinkedFirst(tmp, cs, parts);
    buf.first := tmp;
    if buf.lwdp == null {
      buf.lwdp := tmp;
    }
    buf.totalLen := buf.totalLen + |data|;
    buf.chains, buf.parts, buf.lwd := [tmp] + cs, [tmp.Data()] + parts, buf.lwd + 1;
  }

  lemma LinkedFirst(c: Chain, cs: seq<Chain>, parts: seq<seq<byte>>)
    requires Seg(cs, parts, null) && c.Ok() && c !in cs && c.next == Head(cs, null)
    ensures Seg([c] + cs, [c.Data()] + parts, null) && Flatten([c.Data()] + parts) == c.Data() + Flatten(parts)
    ensures |[c.Data()] + parts| == |[c] + cs|
  {
    hide Seg, Distinct, Flatten, Window;
    SegLength(cs, parts, null);
    SegNil(c);
    SegMake([], [], c, cs, parts, null);
    assert [] + [c] + cs == [c] + cs && [] + [c.Data()] + parts == [c.Data()] + parts;
  }
}

/** Making room at the end of an evbuffer without touching its contents. */
module BufferReserve {
  import opened Common
  import opened Flat
  import opened Chains
  import opened EvBuffers
  import opened BufferAdd
  import opened BufferMove

  const MAX_TO_COPY: nat := 4096

  /** A new empty chunk at the end, in place of the victims. */
  method InsertNew(buf: EvBuffer, datlen: nat) returns (c: Chain, ghost k: nat)
    requires buf.Valid()
    modifies buf, buf.chains`next, buf.chains`dangling, buf.chains`released
    ensures buf.Valid() && buf.Contents() == old(buf.Contents())
    ensures k < |buf.chains| && buf.chains[k] == c && c.Ok() && c.off == 0 && c.Space() >= datlen
    ensures fresh(c) && !c.Pinned() && c.Space() > 0 && c.misalign == 0
    ensures k == |buf.chains| - 1 && k == old(FirstVictim(buf.chains, buf.lwd)) && buf.lwd == old(buf.lwd)
    ensures Evolves(old(buf.chains), buf.chains)
    ensures buf.freezeStart == old(buf.freezeStart) && buf.freezeEnd == old(buf.freezeEnd)
  {
    hide Seg, Distinct, Flatten, Window, FirstVictim;
    ghost var cs, v := buf.chains, FirstVictim(buf.chains, buf.lwd);
    c := new Chain(datlen);
    k := v;
    assert EmptyFrom(cs, v);
    var ok := ChainInsert(buf, c);
    assert c.Data() == [] by { assert c.off == 0; }
    Halves(cs, v);
  }

  /** Replaces the last chunk with data by a bigger copy. */
  method Resize(buf: EvBuffer, chain: Chain, datlen: nat) returns (tmp: Chain)
    requires buf.Valid() && buf.lwd < |buf.chains| && chain == buf.chains[buf.lwd] && !chain.Pinned()
    modifies buf, buf.chains`next, chain`dangling, chain`released
    ensures buf.Valid() && buf.Contents() == old(buf.Contents()) && buf.lwd == old(buf.lwd)
    ensures fresh(tmp) && !tmp.Pinned() && tmp.Ok() && tmp.Space() >= datlen
    ensures buf.chains == old(buf.chains)[old(buf.lwd) := tmp] && Detached(chain)
    ensures Evolves(old(buf.chains), buf.chains)
    ensures buf.freezeStart == old(buf.freezeStart) && buf.freezeEnd == old(buf.freezeEnd)
  {
    hide Seg, Distinct, Disjoint, Flatten, Window, LastWithData, EvBuffer.PinsOk;
    SegAt(buf.chains, buf.parts, null, buf.lwd);
    tmp := BigCopy(chain, chain.off + datlen);
    SegSplit(buf.chains, buf.parts, null, buf.lwd);
    SwapIn(buf, chain, tmp);
    SwapOut(old(buf.chains), buf.lwd, tmp);
    chain.Free();
  }

  /** Links `tmp`, which holds the same data, in place of the last chunk with data. */
  method SwapIn(buf: EvBuffer, chain: Chain, tmp: Chain)
    requires buf.Valid() && buf.lwd < |buf.chains| && chain == buf.chains[buf.lwd]
    requires tmp.Ok() && tmp !in buf.chains && tmp.off == chain.off && tmp.Data() == chain.Data()
    modifies buf, buf.chains`next, tmp`next
    ensures buf.Valid() && buf.Contents() == old(buf.Contents()) && buf.lwd == old(buf.lwd)
    ensures buf.chains == old(buf.chains)[old(buf.lwd) := tmp]
    ensures buf.freezeStart == old(buf.freezeStart) && buf.freezeEnd == old(buf.freezeEnd)
  {
    hide Seg, Distinct, Flatten, Window, LastWithData;
    ghost var cs, parts, w := buf.chains, buf.parts, buf.lwd;
    SegSplit(cs, parts, null, w);
    SwapAt(cs, w, tmp);
    SwapAt(parts, w, parts[w]);
    SwapOk(cs, w, tmp);
    SwapLinks(buf, buf.lwdp, chain, tmp, cs[..w], parts[..w], cs[w + 1..], parts[w + 1..]);
    NewEnd(buf, chain, tmp, cs[w := tmp], w);
  }

  /** The end of the list, when chunk `w` of it has been replaced. */
  method NewEnd(buf: EvBuffer, chain: Chain, tmp: Chain, ghost cs: seq<Chain>, ghost w: nat)
    requires w < |cs| && cs[w] == tmp && |cs| == |buf.chains| && (buf.last == chain <==> w == |cs| - 1)
    requires (buf.last != chain ==> buf.last == cs[|cs| - 1]) && buf.lwd == w && LastWithData(cs, w)
    requires Seg(cs, buf.parts, null) && buf.totalLen == |Flatten(buf.parts)| && buf.first == Head(cs, null)
    requires buf.lwdp == if w == 0 then null else cs[w - 1]
    modifies buf`last, buf`chains
    ensures buf.Valid() && buf.chains == cs
  {
    hide Seg, Flatten, LastWithData;
    SegLength(cs, buf.parts, null);
    if buf.last == chain {
      buf.last := tmp;
    }
    buf.chains := cs;
  }

  method SwapLinks(buf: EvBuffer, slot: Chain?, chain: Chain, tmp: Chain, ghost a: seq<Chain>, ghost pa: seq<seq<byte>>,
                   ghost b: seq<Chain>, ghost pb: seq<seq<byte>>)
    requires Seg(a, pa, chain) && Seg(b, pb, null) && chain.next == Head(b, null) && Disjoint(a, b)
    requires tmp.Ok() && tmp !in a && tmp !in b && chain != tmp && chain !in a
    requires buf.first == Head(a, chain) && slot == if a == [] then null else a[|a| - 1]
    modifies buf`first, a`next, tmp`next
    ensures Seg(a + [tmp] + b, pa + [tmp.Data()] + pb, null) && buf.first == Head(a, tmp)
  {
    hide Seg, Distinct, Flatten, Window;
    SetSlot(buf, slot, tmp, a, pa, chain);
    tmp.next := chain.next;
    SegMake(a, pa, tmp, b, pb, null);
  }

  lemma SwapOk(cs: seq<Chain>, w: nat, c: Chain)
    requires w < |cs| && LastWithData(cs, w) && c.off == cs[w].off
    ensures LastWithData(cs[w := c], w)
  {
  }

  lemma SwapOut(cs: seq<Chain>, w: nat, c: Chain)
    requires w < |cs| && c !in cs && cs[w] !in cs[..w] && cs[w] !in cs[w + 1..]
    ensures cs[w] !in cs[w := c] && forall d :: d in cs ==> d in cs[w := c] || d == cs[w]
    ensures forall d :: d in cs[w := c] ==> d in cs || d == c
  {
    forall d | d in cs && d != cs[w] ensures d in cs[w := c] {
      var i :| 0 <= i < |cs| && cs[i] == d;
      assert cs[w := c][i] == d;
    }
  }

  lemma SwapAt<T>(s: seq<T>, w: nat, c: T)
    requires w < |s|
    ensures s[..w] + [c] + s[w + 1..] == s[w := c]
  {
  }

  /** A new chunk of at least `size` bytes with the data of `c`. */
  method BigCopy(c: Chain, size: nat) returns (tmp: Chain)
    requires c.Ok() && c.off <= size
    ensures fresh(tmp) && tmp.Ok() && tmp.next == null && !tmp.Pinned()
    ensures tmp.misalign == 0 && tmp.off == c.off && tmp.Data() == c.Data() && |tmp.mem| >= size
  {
    tmp := new Chain(size);
    var data := c.mem[c.misalign..c.misalign + c.off];
    WindowAppend(tmp.mem, 0, 0, data);
    tmp.Write(0, data);
    tmp.off := c.off;
  }

  ghost predicate Full(c: Chain)
    reads c`misalign, c`off, c`mem
  {
    c.misalign + c.off == |c.mem|
  }

  /** `chain` holds data and not enough room, cannot be realigned, and is not worth copying; the
      chunk behind it has the room. */
  ghost predicate UsesNext(chain: Chain, next: Chain?, datlen: nat)
    requires chain.InBounds()
    reads chain, next
  {
    && 0 < chain.Space() < datlen && chain.off > 0 && !chain.Pinned() && !ShouldRealign(chain, datlen)
    && (chain.Space() < |chain.mem| / 8 || chain.off > MAX_TO_COPY)
    && next != null && next.InBounds() && next.Space() >= datlen
  }

  /** The chunk behind the last one with data is taken as it is. */
  ghost predicate TakesNext(buf: EvBuffer, datlen: nat)
    reads buf, buf.chains
  {
    buf.lwd + 1 < |buf.chains| && buf.chains[buf.lwd].InBounds()
    && UsesNext(buf.chains[buf.lwd], buf.chains[buf.lwd + 1], datlen)
  }

  /** Neither `chain`, realigned or copied if that is worth while, nor the one behind it is used. */
  ghost predicate NoneFits(chain: Chain, next: Chain?, datlen: nat)
    requires chain.InBounds()
    reads chain, next
  {
    && chain.Space() < datlen
    && (chain.off == 0
        || (!ShouldRealign(chain, datlen) && (chain.Space() < |chain.mem| / 8 || chain.off > MAX_TO_COPY)
            && (next == null || !next.InBounds() || next.Space() < datlen)))
  }

  /** When evbuffer_expand_singlechain links a new chunk: the first one with room is in use, or is none,
      or does not do. */
  ghost predicate Inserts(buf: EvBuffer, datlen: nat)
    reads buf, buf.chains
  {
    var cs, w := buf.chains, buf.lwd;
    if w >= |cs| || !cs[w].InBounds() then true
    else if cs[w].Space() == 0 then
      w + 1 >= |cs| || cs[w + 1].Pinned() || !cs[w + 1].InBounds() || cs[w + 1].Space() < datlen
    else cs[w].Pinned() || NoneFits(cs[w], if w + 1 < |cs| then cs[w + 1] else null, datlen)
  }

  /** Nothing has changed about the list but chunk `w`. */
  twostate predicate OnlyAt(was: seq<Chain>, new now: seq<Chain>, w: nat)
    reads was
  {
    |now| == |was| && forall i :: 0 <= i < |was| && i != w ==>
      now[i] == was[i] && was[i].mem == old(was[i].mem) && was[i].off == old(was[i].off) && was[i].misalign == old(was[i].misalign)
  }

  /** evbuffer_expand_singlechain: a chunk with at least `datlen` bytes of room right behind the
      contents. Only a chunk that is taken for the sake of the one before it may be in use by a
      pending operation. */
  method ExpandSingle(buf: EvBuffer, datlen: nat) returns (c: Chain, ghost k: nat)
    requires buf.Valid()
    modifies buf, buf.chains
    ensures buf.Valid() && buf.Contents() == old(buf.Contents()) && buf.lwd == old(buf.lwd)
    ensures buf.lwd <= k < |buf.chains| && c == buf.chains[k] && c.Ok() && c.Space() >= datlen
    ensures k == buf.lwd ==> c.Space() > 0
    ensures c.Pinned() ==> 0 < k == buf.lwd + 1 && UsesNext(buf.chains[k - 1], c, datlen)
    ensures k == |buf.chains| - 1 || k == buf.lwd
            || (k == buf.lwd + 1 && (Full(buf.chains[k - 1]) || UsesNext(buf.chains[k - 1], c, datlen)))
    ensures old(TakesNext(buf, datlen)) ==> k == buf.lwd + 1 && TakesNext(buf, datlen) && buf.chains == old(buf.chains)
    ensures Evolves(old(buf.chains), buf.chains)
    ensures if old(Inserts(buf, datlen)) then !buf.chains[|buf.chains| - 1].Pinned()
            else OnlyAt(old(buf.chains), buf.chains, old(buf.lwd))
    ensures buf.freezeStart == old(buf.freezeStart) && buf.freezeEnd == old(buf.freezeEnd)
  {
    hide Seg, Distinct, Flatten, Window, FirstVictim, LastWithData, Detached, EvBuffer.Valid;
    Target(buf);
    var chain := buf.At(buf.lwdp);
    k := buf.lwd;
    if chain != null {
      LiveChunk(buf, k);
      if chain.Space() == 0 {
        chain, k := chain.next, k + 1;
      }
    }
    if chain == null || chain.Pinned() {
      c, k := InsertNew(buf, datlen);
      return;
    }
    LiveChunk(buf, k);
    if chain.Space() >= datlen {
      return chain, k;
    }
    if chain.off == 0 {
      c, k := InsertNew(buf, datlen);
      return;
    }
    DataIsTarget(buf, k);
    c, k := ExpandData(buf, chain, datlen);
  }

  /** The part about a last chunk with data that has some room, but not enough. */
  method ExpandData(buf: EvBuffer, chain: Chain, datlen: nat) returns (c: Chain, ghost k: nat)
    requires buf.Valid() && buf.lwd < |buf.chains| && chain == buf.chains[buf.lwd] && chain.InBounds()
    requires chain.off > 0 && !chain.Pinned() && 0 < chain.Space() < datlen
    modifies buf, buf.chains
    ensures buf.Valid() && buf.Contents() == old(buf.Contents()) && buf.lwd == old(buf.lwd)
    ensures buf.lwd <= k < |buf.chains| && c == buf.chains[k] && c.Ok() && c.Space() >= datlen
    ensures c.Pinned() ==> 0 < k == buf.lwd + 1 && UsesNext(buf.chains[k - 1], c, datlen)
    ensures k == |buf.chains| - 1 || k == buf.lwd || (k == buf.lwd + 1 && UsesNext(buf.chains[k - 1], c, datlen))
    ensures old(TakesNext(buf, datlen)) ==> k == buf.lwd + 1 && TakesNext(buf, datlen) && buf.chains == old(buf.chains)
    ensures Evolves(old(buf.chains), buf.chains)
    ensures if old(Inserts(buf, datlen)) then !buf.chains[|buf.chains| - 1].Pinned()
            else OnlyAt(old(buf.chains), buf.chains, old(buf.lwd))
    ensures buf.freezeStart == old(buf.freezeStart) && buf.freezeEnd == old(buf.freezeEnd)
  {
    hide Seg, Distinct, Flatten, Window, FirstVictim, LastWithData, Detached, EvBuffer.Valid;
    k := buf.lwd;
    LiveChunk(buf, k);
    if ShouldRealign(chain, datlen) {
      NotElsewhere(buf, k);
      AlignHere(buf, chain, k);
      return chain, k;
    }
    if chain.Space() < |chain.mem| / 8 || chain.off > MAX_TO_COPY {
      if chain.next != null {
        LiveChunk(buf, k + 1);
        if chain.next.Space() >= datlen {
          return chain.next, k + 1;
        }
      }
      c, k := InsertNew(buf, datlen);
    } else {
      c := Resize(buf, chain, datlen);
    }
  }

  lemma Target(buf: EvBuffer)
    requires buf.Valid()
    ensures buf.At(buf.lwdp) == Nth(buf.chains, null, buf.lwd) && buf.lwd <= |buf.chains|
  {
    hide Seg, Flatten, LastWithData;
    TargetIs(buf);
  }

  lemma NotElsewhere(buf: EvBuffer, k: nat)
    requires buf.Valid() && k < |buf.chains|
    ensures forall i :: 0 <= i < |buf.chains| && i != k ==> buf.chains[i] != buf.chains[k]
  {
    hide Seg, Flatten, LastWithData;
    SegLength(buf.chains, buf.parts, null);
  }

  /** Moving the data of a chunk to the front of its memory leaves the buffer in order. */
  method AlignHere(buf: EvBuffer, chain: Chain, ghost k: nat)
    requires buf.Valid() && k < |buf.chains| && chain == buf.chains[k] && !chain.Pinned()
    modifies buf`parts, chain`mem, chain`misalign
    ensures buf.Valid() && buf.Contents() == old(buf.Contents())
    ensures chain.misalign == 0 && |chain.mem| == old(|chain.mem|) && chain.Ok()
  {
    hide Seg, Flatten, LastWithData;
    AlignChunk(buf, chain, k);
  }

  lemma DataIsTarget(buf: EvBuffer, k: nat)
    requires buf.Valid() && buf.lwd <= k < |buf.chains| && buf.chains[k].off > 0
    ensures k == buf.lwd
  {
  }
}

/** Moving whole chunks from one evbuffer to another. */
module BufferMove {
  import opened Common
  import opened Flat
  import opened Chains
  import opened EvBuffers
  import opened BufferAdd

  ghost predicate AllPinnedR(cs: seq<Chain>)
    reads cs`off, cs`pinnedR
  {
    forall i :: 0 <= i < |cs| ==> cs[i].pinnedR && cs[i].off == 0
  }

  ghost predicate NonePinnedR(cs: seq<Chain>)
    reads cs`pinnedR
  {
    forall i :: 0 <= i < |cs| ==> !cs[i].pinnedR
  }

  /** PRESERVE_PINNED: takes the chunks of a pending read out of `src`, whose data stays. */
  method PreservePinned(src: EvBuffer) returns (first: Chain?, last: Chain?, ghost pins: seq<Chain>, ghost parts: seq<seq<byte>>)
    requires src.Valid() && src.PinsOk() && src.totalLen > 0
    modifies src, src.chains`next, src.chains`misalign, src.chains`off
    ensures src.Valid() && src.Contents() == old(src.Contents()) && src.chains != [] && NonePinnedR(src.chains)
    ensures Seg(pins, parts, null) && first == Head(pins, null) && AllPinnedR(pins) && Disjoint(src.chains, pins)
    ensures last == if pins == [] then null else pins[|pins| - 1]
    ensures forall c :: c in src.chains ==> c in old(src.chains) || (fresh(c) && !c.Pinned())
    ensures forall c :: c in pins ==> c in old(src.chains) && EndKept(c)
    ensures SuffixOf(pins, old(src.chains))
    ensures forall c :: c in old(src.chains) ==> c in src.chains || c in pins
    ensures old(src.Tight()) ==> src.Tight() && pins == []
    ensures src.freezeStart == old(src.freezeStart) && src.freezeEnd == old(src.freezeEnd)
  {
    hide Seg, Distinct, Flatten, Window;
    SegNil(null);
    if !src.HasPinnedR() {
      first, last, pins, parts := null, null, [], [];
      return;
    }
    DataThere(src);
    TargetIs(src);
    SegAt(src.chains, src.parts, null, src.lwd);
    var chain := src.At(src.lwdp);
    if !chain.pinnedR {
      chain := chain.next;
    }
    first, last := chain, src.last;
    if chain.off > 0 {
      pins, parts := SplitShared(src, chain);
    } else {
      pins, parts := SplitBehind(src);
    }
  }

  lemma DataThere(buf: EvBuffer)
    requires buf.Valid() && buf.totalLen > 0
    ensures buf.lwd < |buf.chains| && buf.chains[buf.lwd].off > 0
  {
    hide Seg, Window;
    SegNil(null);
    if buf.lwd == 0 && buf.chains != [] && buf.chains[0].off == 0 {
      SegEmpty(buf.chains, buf.parts, null);
    }
  }

  /** A new chunk with the data of `c`. */
  method CopyOf(c: Chain) returns (tmp: Chain)
    requires c.Ok()
    ensures fresh(tmp) && tmp.Ok() && tmp.next == null && !tmp.Pinned()
    ensures tmp.off == c.off && tmp.Data() == c.Data()
  {
    tmp := ChunkOf(c.off, c.mem[c.misalign..c.misalign + c.off]);
  }

  /** The first chunk of the pending read holds data: a copy of that data stays. */
  method SplitShared(src: EvBuffer, chain: Chain) returns (ghost pins: seq<Chain>, ghost pinParts: seq<seq<byte>>)
    requires src.Valid() && src.PinsOk() && src.lwd < |src.chains| && src.HasPinnedR()
    requires chain == src.chains[src.lwd] && chain.pinnedR && chain.off > 0
    modifies src, src.chains`next, src.chains`misalign, src.chains`off
    ensures src.Valid() && src.Contents() == old(src.Contents()) && src.chains != [] && NonePinnedR(src.chains)
    ensures pins == old(src.chains)[old(src.lwd)..] && Seg(pins, pinParts, null)
    ensures AllPinnedR(pins) && Disjoint(src.chains, pins)
    ensures src.last != null && fresh(src.last) && !src.last.Pinned() && src.chains == old(src.chains)[..old(src.lwd)] + [src.last]
    ensures forall c :: c in pins ==> EndKept(c)
    ensures src.freezeStart == old(src.freezeStart) && src.freezeEnd == old(src.freezeEnd)
  {
    hide Seg, Distinct, Flatten, Window, PinsBehind, LastWithData;
    ghost var cs, parts, w := src.chains, src.parts, src.lwd;
    PinnedTail(cs, w);
    SegLength(cs, parts, null);
    SegDrop(cs, parts, null, w);
    SegAt(cs, parts, null, w);
    var tmp := CopyOf(chain);
    ReplaceTarget(src, tmp);
    EmptyFirst(chain, cs[w..], parts[w..]);
    DistinctCut(cs, w);
    pins, pinParts := cs[w..], [parts[w][|parts[w]|..]] + parts[w + 1..];
  }

  lemma PinnedTail(cs: seq<Chain>, w: nat)
    requires PinsBehind(cs, w) && LastWithData(cs, w) && w < |cs| && cs[w].pinnedR
    ensures NonePinnedR(cs[..w])
    ensures forall i :: 0 <= i < |cs[w..]| ==> cs[w..][i].pinnedR && (i > 0 ==> cs[w..][i].off == 0)
  {
  }

  /** Puts `tmp`, which holds the same data, in place of the last chunk with data; everything
      behind that is cut off. */
  method ReplaceTarget(src: EvBuffer, tmp: Chain)
    requires src.Valid() && src.lwd < |src.chains| && tmp.Ok() && tmp !in src.chains && tmp.next == null
    requires tmp.Data() == src.chains[src.lwd].Data() && tmp.off == src.chains[src.lwd].off
    modifies src, src.chains[..src.lwd]`next
    ensures src.Valid() && src.Contents() == old(src.Contents())
    ensures src.last == tmp && src.chains == old(src.chains)[..old(src.lwd)] + [tmp]
    ensures src.freezeStart == old(src.freezeStart) && src.freezeEnd == old(src.freezeEnd)
  {
    hide Seg, Distinct, Disjoint, Flatten, Window, LastWithData;
    ghost var cs, parts, w := src.chains, src.parts, src.lwd;
    LastReplaced(cs, w, tmp);
    SegSplit(cs, parts, null, w);
    SegEmpty(cs[w + 1..], parts[w + 1..], null);
    SetSlot(src, src.lwdp, tmp, cs[..w], parts[..w], cs[w]);
    SegOne(tmp);
    FlattenOne(tmp.Data());
    SegJoin(cs[..w], parts[..w], [tmp], [tmp.Data()], null);
    EndAt(src, tmp, cs[..w] + [tmp], parts[..w] + [tmp.Data()]);
  }

  /** Sets the end of a list that has been cut behind `last`, and `lwdp` leads to it. */
  method EndAt(src: EvBuffer, last: Chain, ghost cs: seq<Chain>, ghost parts: seq<seq<byte>>)
    requires Seg(cs, parts, null) && |parts| == |cs| == src.lwd + 1 && src.first == Head(cs, null) && last == cs[src.lwd]
    requires LastWithData(cs, src.lwd) && src.totalLen == |Flatten(parts)|
    requires src.lwdp == if src.lwd == 0 then null else cs[src.lwd - 1]
    modifies src`last, src`chains, src`parts
    ensures src.Valid() && src.last == last && src.chains == cs && src.parts == parts
  {
    hide Seg, Flatten, LastWithData;
    src.last := last;
    src.chains, src.parts := cs, parts;
  }

  lemma LastReplaced(cs: seq<Chain>, w: nat, c: Chain)
    requires LastWithData(cs, w) && w < |cs| && c.off == cs[w].off
    ensures LastWithData(cs[..w] + [c], w) && EmptyFrom(cs[w + 1..], 0)
    ensures c !in cs ==> Disjoint(cs[..w], [c])
  {
  }

  /** misalign += off, off = 0 for the first chunk of a list of pinned chunks. */
  method EmptyFirst(chain: Chain, ghost cs: seq<Chain>, ghost parts: seq<seq<byte>>)
    requires Seg(cs, parts, null) && cs != [] && chain == cs[0]
    requires forall i :: 0 <= i < |cs| ==> cs[i].pinnedR && (i > 0 ==> cs[i].off == 0)
    modifies chain`misalign, chain`off
    ensures |parts| == |cs| && Seg(cs, [parts[0][|parts[0]|..]] + parts[1..], null)
    ensures AllPinnedR(cs) && EndKept(chain)
  {
    hide Seg, Distinct, Flatten, Window;
    SegAt(cs, parts, null, 0);
    TrimFront(chain, chain.off, cs, parts);
  }

  /** The first chunk of the pending read is empty: the list is cut in front of it. */
  method SplitBehind(src: EvBuffer) returns (ghost pins: seq<Chain>, ghost pinParts: seq<seq<byte>>)
    requires src.Valid() && src.PinsOk() && src.lwd < |src.chains| && src.HasPinnedR()
    requires !src.chains[src.lwd].pinnedR
    modifies src, src.chains`next
    ensures src.Valid() && src.Contents() == old(src.Contents()) && src.chains != [] && NonePinnedR(src.chains)
    ensures pins == old(src.chains)[old(src.lwd) + 1..] && Seg(pins, pinParts, null)
    ensures AllPinnedR(pins) && Disjoint(src.chains, pins)
    ensures src.chains == old(src.chains)[..old(src.lwd) + 1]
    ensures src.freezeStart == old(src.freezeStart) && src.freezeEnd == old(src.freezeEnd)
  {
    hide Seg, Distinct, Flatten, Window;
    ghost var cs, parts, w := src.chains, src.parts, src.lwd + 1;
    TargetIs(src);
    SegCut(cs, parts, null, w);
    SegEmpty(cs[w..], parts[w..], null);
    var last := src.At(src.lwdp);
    SetTail(last, null, cs[..w], parts[..w], Nth(cs, null, w));
    src.last := last;
    pins, pinParts := cs[w..], parts[w..];
    src.chains, src.parts := cs[..w], parts[..w];
  }

  /** COPY_CHAIN: `dst` gets the chunks of `src`. */
  method CopyChain(dst: EvBuffer, src: EvBuffer)
    requires dst != src && src.Valid()
    modifies dst
    ensures dst.Valid() && dst.chains == src.chains && dst.lwd == src.lwd && dst.Contents() == src.Contents()
    ensures dst.freezeStart == old(dst.freezeStart) && dst.freezeEnd == old(dst.freezeEnd)
  {
    hide Seg, Distinct, Flatten, Window, LastWithData, NoHoles;
    dst.first := src.first;
    dst.lwdp := if src.lwdp == null then null else src.lwdp;
    dst.last, dst.totalLen := src.last, src.totalLen;
    dst.chains, dst.parts, dst.lwd := src.chains, src.parts, src.lwd;
  }

  lemma JoinOk(a: seq<Chain>, b: seq<Chain>, w: nat)
    requires LastWithData(b, w) && w < |b| && b[w].off > 0
    ensures LastWithData(a + b, |a| + w)
  {
  }

  /** Makes the list `a` go on to the list `b`. */
  method JoinLists(last: Chain, first: Chain?, ghost a: seq<Chain>, ghost pa: seq<seq<byte>>, ghost b: seq<Chain>,
                   ghost pb: seq<seq<byte>>)
    requires Seg(a, pa, null) && a != [] && last == a[|a| - 1] && Seg(b, pb, null) && first == Head(b, null) && Disjoint(a, b)
    modifies last`next
    ensures Seg(a + b, pa + pb, null) && |pa + pb| == |a + b| && Flatten(pa + pb) == Flatten(pa) + Flatten(pb)
    ensures Head(a + b, null) == Head(a, null)
  {
    hide Seg, Distinct, Disjoint, Flatten, Window;
    Apart(a, b);
    SegLength(a, pa, null);
    SegLength(b, pb, null);
    SetTail(last, first, a, pa, null);
    SegJoin(a, pa, b, pb, null);
  }

  lemma InOrder(buf: EvBuffer)
    requires buf.Valid()
    ensures buf.Tight() <==> NoHoles(buf.chains, buf.lwd)
    ensures buf.PinsOk() <==> PinsBehind(buf.chains, buf.lwd)
    ensures buf.chains != [] ==> buf.first == buf.chains[0]
  {
    hide Seg;
  }

  lemma JoinIndex(a: seq<Chain>, b: seq<Chain>, k: nat)
    requires k < |b|
    ensures (a + b)[|a + b| - 1] == b[|b| - 1]
    ensures |a| + k > 0 ==> (a + b)[|a| + k - 1] == if k == 0 then a[|a| - 1] else b[k - 1]
  {
  }

  lemma PinsPut(a: seq<Chain>, b: seq<Chain>, w: nat)
    requires NonePinnedR(a) && PinsBehind(b, w) && w < |b|
    ensures PinsBehind(a + b, |a| + w)
  {
    assert b != [] ==> (a + b)[|a + b| - 1] == b[|b| - 1];
  }

  /** APPEND_CHAIN: links the chunks of `src` behind those of `dst`. */
  method AppendChain(dst: EvBuffer, src: EvBuffer)
    requires dst != src && dst.Valid() && src.Valid() && src.totalLen > 0 && dst.chains != []
    requires Disjoint(dst.chains, src.chains)
    modifies dst, dst.chains`next
    ensures dst.Valid() && dst.chains == old(dst.chains) + src.chains
    ensures dst.Contents() == old(dst.Contents()) + src.Contents()
    ensures old(dst.Tight() && src.Tight() && dst.totalLen > 0) ==> dst.Tight()
    ensures dst.freezeStart == old(dst.freezeStart) && dst.freezeEnd == old(dst.freezeEnd)
  {
    hide Seg, Distinct, Disjoint, Flatten, Window, LastWithData, NoHoles;
    ghost var a, pa, b, pb := dst.chains, dst.parts, src.chains, src.parts;
    ghost var w, tight := dst.lwd, dst.Tight() && src.Tight() && dst.totalLen > 0;
    SegNil(null);
    DataThere(src);
    if tight {
      DataThere(dst);
    }
    JoinIndex(a, b, src.lwd);
    JoinLists(dst.last, src.first, a, pa, b, pb);
    JoinOk(a, b, src.lwd);
    if tight {
      HolesJoin(a, w, b, src.lwd);
    }
    LinkedBehind(dst, src, a + b, pa + pb, |a| + src.lwd);
  }

  /** The pointers of `dst` after its last chunk has got those of `src` as its successors. */
  method LinkedBehind(dst: EvBuffer, src: EvBuffer, ghost cs: seq<Chain>, ghost parts: seq<seq<byte>>, ghost w: nat)
    requires dst != src && Seg(cs, parts, null) && |parts| == |cs| && w < |cs| && LastWithData(cs, w)
    requires dst.totalLen + src.totalLen == |Flatten(parts)| && dst.first == Head(cs, null) && src.last == cs[|cs| - 1]
    requires w > 0 && cs[w - 1] == if src.lwdp == null then dst.last else src.lwdp
    modifies dst`lwdp, dst`last, dst`totalLen, dst`chains, dst`parts, dst`lwd
    ensures dst.Valid() && dst.chains == cs && dst.parts == parts && dst.lwd == w
  {
    hide Seg, Flatten, LastWithData;
    dst.lwdp := if src.lwdp == null then dst.last else src.lwdp;
    dst.last, dst.totalLen := src.last, dst.totalLen + src.totalLen;
    dst.chains, dst.parts, dst.lwd := cs, parts, w;
  }

  /** PREPEND_CHAIN: links the chunks of `src` in front of those of `dst`; `src` is left as it
      was, though its list now goes on. */
  method PrependChain(dst: EvBuffer, src: EvBuffer)
    requires dst != src && dst.Valid() && src.Valid() && src.totalLen > 0 && dst.totalLen > 0
    requires Disjoint(src.chains, dst.chains)
    modifies dst, src.chains`next
    ensures dst.Valid() && dst.chains == src.chains + old(dst.chains) && dst.lwd == |src.chains| + old(dst.lwd)
    ensures dst.Contents() == src.Contents() + old(dst.Contents())
    ensures old(dst.PinsOk()) && NonePinnedR(src.chains) ==> dst.PinsOk()
    ensures old(dst.Tight() && src.Tight()) ==> dst.Tight()
    ensures dst.freezeStart == old(dst.freezeStart) && dst.freezeEnd == old(dst.freezeEnd)
  {
    hide Seg, Distinct, Disjoint, Flatten, Window, LastWithData, NoHoles, PinsBehind, EvBuffer.Tight, EvBuffer.PinsOk;
    ghost var a, pa, b, pb := src.chains, src.parts, dst.chains, dst.parts;
    ghost var tight, pins := dst.Tight() && src.Tight(), dst.PinsOk() && NonePinnedR(a);
    InOrder(dst);
    InOrder(src);
    DataThere(dst);
    DataThere(src);
    TargetIs(dst);
    Apart(a, b);
    JoinIndex(a, b, dst.lwd);
    JoinLists(src.last, dst.first, a, pa, b, pb);
    JoinOk(a, b, dst.lwd);
    if tight {
      HolesJoin(a, src.lwd, b, dst.lwd);
    }
    if pins {
      PinsPut(a, b, dst.lwd);
    }
    LinkedInFront(dst, src, a + b, pa + pb, |a| + dst.lwd);
  }

  /** The pointers of `dst` after its chunks have become the successors of those of `src`. */
  method LinkedInFront(dst: EvBuffer, src: EvBuffer, ghost cs: seq<Chain>, ghost parts: seq<seq<byte>>, ghost w: nat)
    requires dst != src && Seg(cs, parts, null) && |parts| == |cs| && 0 < w < |cs| && LastWithData(cs, w)
    requires dst.totalLen + src.totalLen == |Flatten(parts)| && src.first == Head(cs, null) && dst.last == cs[|cs| - 1]
    requires cs[w - 1] == (if dst.lwdp == null then src.last else dst.lwdp) && dst.At(dst.lwdp) != null
    modifies dst`first, dst`lwdp, dst`totalLen, dst`chains, dst`parts, dst`lwd
    ensures dst.Valid() && dst.chains == cs && dst.parts == parts && dst.lwd == w
    ensures old(NoHoles(cs, w)) ==> dst.Tight()
    ensures old(PinsBehind(cs, w)) ==> dst.PinsOk()
  {
    hide Seg, Flatten, LastWithData, NoHoles, PinsBehind;
    dst.first := src.first;
    dst.totalLen := dst.totalLen + src.totalLen;
    if dst.At(dst.lwdp) == null {
      assert false;
    } else if dst.lwdp == null {
      dst.lwdp := src.last;
    }
    dst.chains, dst.parts, dst.lwd := cs, parts, w;
  }

  /** RESTORE_PINNED: `src` keeps the chunks of its pending read, or nothing. */
  method RestorePinned(src: EvBuffer, pinned: Chain?, last: Chain?, ghost pins: seq<Chain>, ghost parts: seq<seq<byte>>)
    requires Seg(pins, parts, null) && pinned == Head(pins, null) && AllPinnedR(pins)
    requires last == if pins == [] then null else pins[|pins| - 1]
    modifies src
    ensures src.Valid() && src.PinsOk() && src.chains == pins && src.lwd == 0 && src.Contents() == []
    ensures src.freezeStart == old(src.freezeStart) && src.freezeEnd == old(src.freezeEnd)
  {
    hide Seg, Window;
    SegLength(pins, parts, null);
    SegEmpty(pins, parts, null);
    if pinned == null {
      src.first, src.last, src.lwdp, src.totalLen := null, null, null, 0;
    } else {
      src.first, src.last, src.lwdp, src.totalLen := pinned, last, null, 0;
    }
    src.chains, src.parts, src.lwd := pins, parts, 0;
  }

  /** Links the chunks of `src` to one end of `dst`, or instead of its empty chunks. */
  method Combine(dst: EvBuffer, src: EvBuffer, front: bool)
    requires dst != src && dst.Valid() && src.Valid() && src.totalLen > 0
    requires Disjoint(dst.chains, src.chains)
    modifies dst, dst.chains`next, dst.chains`dangling, dst.chains`released, src.chains`next
    ensures dst.Valid()
    ensures dst.Contents() == if front then src.Contents() + old(dst.Contents())
                              else old(dst.Contents()) + src.Contents()
    ensures forall c :: c in dst.chains ==> c in src.chains || c in old(dst.chains)
    ensures forall c :: c in src.chains ==> c in dst.chains
    ensures forall c :: c in old(dst.chains) ==> c in dst.chains || Detached(c)
    ensures front ==> PutInFront(dst, old(dst.chains), old(dst.lwd), old(dst.totalLen) > 0)
    ensures front && old(dst.totalLen > 0 && dst.PinsOk()) && NonePinnedR(src.chains) ==> dst.PinsOk()
    ensures old(dst.Tight() && src.Tight()) ==> dst.Tight()
    ensures dst.freezeStart == old(dst.freezeStart) && dst.freezeEnd == old(dst.freezeEnd)
  {
    hide Seg, Distinct, Flatten, Window, LastWithData, PinsBehind, NoHoles;
    SegNil(null);
    if dst.totalLen == 0 {
      FreeAll(dst.first, dst.chains, dst.parts);
      CopyChain(dst, src);
    } else if front {
      assert Disjoint(src.chains, dst.chains);
      SuffixJoin(src.chains, dst.chains);
      PrependChain(dst, src);
    } else {
      AppendChain(dst, src);
    }
  }

  /** Behind new chunks in front, all is as it was; of a buffer without data nothing is left. */
  ghost predicate PutInFront(buf: EvBuffer, was: seq<Chain>, lwd: nat, some: bool)
    reads buf
  {
    if !some then Disjoint(was, buf.chains)
    else SuffixOf(was, buf.chains) && buf.lwd + |was| == lwd + |buf.chains|
  }

  /** Nothing about a buffer has changed. */
  twostate predicate Same(buf: EvBuffer)
    reads buf, buf.chains
  {
    unchanged(buf) && forall i :: 0 <= i < |buf.chains| ==> unchanged(buf.chains[i])
  }

  /** The data of a chunk is where and what it was. */
  twostate predicate Still(c: Chain)
    reads c`mem, c`misalign, c`off
  {
    c.mem == old(c.mem) && c.misalign == old(c.misalign) && c.off == old(c.off)
  }

  lemma SuffixJoin(a: seq<Chain>, b: seq<Chain>)
    ensures SuffixOf(b, a + b)
  {
  }

  lemma StillDisjoint(now: seq<Chain>, moved: seq<Chain>, a: seq<Chain>, b: seq<Chain>, pins: seq<Chain>)
    requires forall c :: c in now ==> c in moved || c in a
    requires Disjoint(moved, pins) && Disjoint(a, b) && forall c :: c in pins ==> c in b
    ensures Disjoint(now, pins)
  {
    forall i | 0 <= i < |now| ensures now[i] !in pins {
      assert now[i] in now;
    }
  }

  /** The part that evbuffer_add_buffer and evbuffer_prepend_buffer share: the chunks of `inbuf`
      go to one end of `outbuf`. */
  method MoveAll(outbuf: EvBuffer, inbuf: EvBuffer, front: bool)
    requires outbuf != inbuf && outbuf.Valid() && inbuf.Valid() && inbuf.PinsOk()
    requires Disjoint(outbuf.chains, inbuf.chains) && inbuf.totalLen > 0
    modifies outbuf, outbuf.chains`next, outbuf.chains`dangling, outbuf.chains`released
    modifies inbuf, inbuf.chains`next, inbuf.chains`misalign, inbuf.chains`off
    ensures outbuf.Valid() && inbuf.Valid() && inbuf.PinsOk() && Disjoint(outbuf.chains, inbuf.chains)
    ensures outbuf.Contents() == if front then old(inbuf.Contents() + outbuf.Contents())
                                 else old(outbuf.Contents() + inbuf.Contents())
    ensures inbuf.Contents() == []
    ensures EvolveBoth(old(outbuf.chains), old(inbuf.chains), outbuf.chains, inbuf.chains)
    ensures old(outbuf.Tight() && inbuf.Tight()) ==> outbuf.Tight() && inbuf.Tight()
    ensures AllPinnedR(inbuf.chains) && SuffixOf(inbuf.chains, old(inbuf.chains))
    ensures forall c :: c in old(inbuf.chains) && old(c.pinnedR) ==> c in inbuf.chains && EndKept(c)
    ensures front ==> PutInFront(outbuf, old(outbuf.chains), old(outbuf.lwd), old(outbuf.totalLen) > 0)
    ensures front && old(outbuf.totalLen > 0 && outbuf.PinsOk()) ==> outbuf.PinsOk()
    ensures outbuf.freezeStart == old(outbuf.freezeStart) && outbuf.freezeEnd == old(outbuf.freezeEnd)
    ensures inbuf.freezeStart == old(inbuf.freezeStart) && inbuf.freezeEnd == old(inbuf.freezeEnd)
  {
    hide Seg, Distinct, Flatten, Window, LastWithData, PinsBehind, AllPinnedR, NoHoles, Disjoint, SuffixOf, PutInFront;
    EmptyListOk();
    var pinned, last; ghost var pins, parts;
    pinned, last, pins, parts := Shift(outbuf, inbuf, front);
    RestorePinned(inbuf, pinned, last, pins, parts);
  }

  /** PreservePinned and Combine; `inbuf` is still to be given its pinned chunks. */
  method Shift(outbuf: EvBuffer, inbuf: EvBuffer, front: bool)
    returns (first: Chain?, last: Chain?, ghost pins: seq<Chain>, ghost parts: seq<seq<byte>>)
    requires outbuf != inbuf && outbuf.Valid() && inbuf.Valid() && inbuf.PinsOk()
    requires Disjoint(outbuf.chains, inbuf.chains) && inbuf.totalLen > 0
    modifies outbuf, outbuf.chains`next, outbuf.chains`dangling, outbuf.chains`released
    modifies inbuf, inbuf.chains`next, inbuf.chains`misalign, inbuf.chains`off
    ensures outbuf.Valid() && Disjoint(outbuf.chains, pins)
    ensures outbuf.Contents() == if front then old(inbuf.Contents() + outbuf.Contents())
                                 else old(outbuf.Contents() + inbuf.Contents())
    ensures Seg(pins, parts, null) && first == Head(pins, null) && AllPinnedR(pins)
    ensures last == if pins == [] then null else pins[|pins| - 1]
    ensures forall c :: c in outbuf.chains ==> c in old(outbuf.chains) || c in old(inbuf.chains) || (fresh(c) && !c.Pinned())
    ensures forall c :: c in pins ==> c in old(inbuf.chains) && EndKept(c)
    ensures SuffixOf(pins, old(inbuf.chains))
    ensures forall c :: c in old(outbuf.chains) ==> c in outbuf.chains || Detached(c)
    ensures forall c :: c in old(inbuf.chains) ==> c in pins || (c in outbuf.chains && !c.pinnedR)
    ensures front ==> PutInFront(outbuf, old(outbuf.chains), old(outbuf.lwd), old(outbuf.totalLen) > 0)
    ensures front && old(outbuf.totalLen > 0 && outbuf.PinsOk()) ==> outbuf.PinsOk()
    ensures old(outbuf.Tight() && inbuf.Tight()) ==> outbuf.Tight() && pins == []
    ensures outbuf.freezeStart == old(outbuf.freezeStart) && outbuf.freezeEnd == old(outbuf.freezeEnd)
    ensures inbuf.freezeStart == old(inbuf.freezeStart) && inbuf.freezeEnd == old(inbuf.freezeEnd)
  {
    hide Seg, Distinct, Flatten, Window, LastWithData, PinsBehind, AllPinnedR, NoHoles;
    first, last, pins, parts := PreservePinned(inbuf);
    Combine(outbuf, inbuf, front);
    StillDisjoint(outbuf.chains, inbuf.chains, old(outbuf.chains), old(inbuf.chains), pins);
  }

  /** evbuffer_add_buffer. */
  method AddBuffer(outbuf: EvBuffer, inbuf: EvBuffer) returns (ok: bool)
    requires outbuf.Valid() && inbuf.Valid() && inbuf.PinsOk()
    requires outbuf != inbuf ==> Disjoint(outbuf.chains, inbuf.chains)
    modifies outbuf, outbuf.chains, inbuf, inbuf.chains
    ensures var acts := old(inbuf.totalLen) > 0 && outbuf != inbuf;
            var moved := acts && ok;
            && ok == !(acts && old(outbuf.freezeEnd || inbuf.freezeStart))
            && outbuf.Contents() == (if moved then old(outbuf.Contents() + inbuf.Contents()) else old(outbuf.Contents()))
            && inbuf.Contents() == (if moved then [] else old(inbuf.Contents()))
    ensures outbuf.Valid() && inbuf.Valid() && inbuf.PinsOk()
    ensures outbuf != inbuf ==> Disjoint(outbuf.chains, inbuf.chains)
    ensures EvolveBoth(old(outbuf.chains), old(inbuf.chains), outbuf.chains, inbuf.chains)
    ensures old(outbuf.Tight() && inbuf.Tight()) ==> outbuf.Tight() && inbuf.Tight()
    ensures forall c :: c in old(inbuf.chains) && old(c.pinnedR) ==> c in inbuf.chains && EndKept(c)
    ensures SuffixOf(inbuf.chains, old(inbuf.chains))
    ensures old(inbuf.totalLen) == 0 || outbuf == inbuf || !ok ==> Same(outbuf) && Same(inbuf)
    ensures outbuf.freezeStart == old(outbuf.freezeStart) && outbuf.freezeEnd == old(outbuf.freezeEnd)
    ensures inbuf.freezeStart == old(inbuf.freezeStart) && inbuf.freezeEnd == old(inbuf.freezeEnd)
  {
    hide Flatten, PutInFront, AllPinnedR, EvBuffer.Valid, EvBuffer.Tight, EvBuffer.PinsOk;
    if inbuf.totalLen == 0 || outbuf == inbuf {
      return true;
    }
    if outbuf.freezeEnd || inbuf.freezeStart {
      return false;
    }
    MoveAll(outbuf, inbuf, false);
    return true;
  }

  /** evbuffer_prepend_buffer. */
  method PrependBuffer(outbuf: EvBuffer, inbuf: EvBuffer) returns (ok: bool)
    requires outbuf.Valid() && inbuf.Valid() && inbuf.PinsOk()
    requires outbuf != inbuf ==> Disjoint(outbuf.chains, inbuf.chains)
    modifies outbuf, outbuf.chains, inbuf, inbuf.chains
    ensures var acts := old(inbuf.totalLen) > 0 && outbuf != inbuf;
            var moved := acts && ok;
            && ok == !(acts && old(outbuf.freezeStart || inbuf.freezeStart))
            && outbuf.Contents() == (if moved then old(inbuf.Contents() + outbuf.Contents()) else old(outbuf.Contents()))
            && inbuf.Contents() == (if moved then [] else old(inbuf.Contents()))
    ensures outbuf.Valid() && inbuf.Valid() && inbuf.PinsOk()
    ensures outbuf != inbuf ==> Disjoint(outbuf.chains, inbuf.chains)
    ensures EvolveBoth(old(outbuf.chains), old(inbuf.chains), outbuf.chains, inbuf.chains)
    ensures old(outbuf.Tight() && inbuf.Tight()) ==> outbuf.Tight() && inbuf.Tight()
    ensures forall c :: c in old(inbuf.chains) && old(c.pinnedR) ==> c in inbuf.chains && EndKept(c)
    ensures SuffixOf(inbuf.chains, old(inbuf.chains))
    ensures old(outbuf.totalLen > 0 && outbuf.PinsOk()) ==> outbuf.PinsOk()
    ensures old(inbuf.totalLen) > 0 && outbuf != inbuf && ok
            ==> PutInFront(outbuf, old(outbuf.chains), old(outbuf.lwd), old(outbuf.totalLen) > 0)
    ensures old(inbuf.totalLen) == 0 || outbuf == inbuf || !ok ==> Same(outbuf) && Same(inbuf)
    ensures outbuf != inbuf ==> forall c :: c in old(outbuf.chains) ==> Still(c)
    ensures outbuf.freezeStart == old(outbuf.freezeStart) && outbuf.freezeEnd == old(outbuf.freezeEnd)
    ensures inbuf.freezeStart == old(inbuf.freezeStart) && inbuf.freezeEnd == old(inbuf.freezeEnd)
  {
    hide Flatten, PutInFront, AllPinnedR, EvBuffer.Valid, EvBuffer.Tight, EvBuffer.PinsOk;
    if inbuf.totalLen == 0 || inbuf == outbuf {
      return true;
    }
    if outbuf.freezeStart || inbuf.freezeStart {
      return false;
    }
    MoveAll(outbuf, inbuf, true);
    return true;
  }
}

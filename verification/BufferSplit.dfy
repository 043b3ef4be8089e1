/** Moving a number of bytes from one evbuffer to another. */
module BufferSplit {
  import opened Common
  import opened Flat
  import opened Chains
  import opened EvBuffers
  import opened BufferAdd
  import opened BufferDrain
  import opened BufferMove

  /** Finds the chunks of `src` that go entirely when `n` bytes are taken. */
  method TakeWhole(src: EvBuffer, n: nat) returns (chain: Chain, previous: Chain, nread: nat, ghost k: nat)
    requires src.Valid() && src.Tight() && n < src.totalLen
    modifies src`lwdp
    ensures k <= src.lwd < |src.chains| == |src.parts| && chain == src.chains[k]
    ensures previous == if k == 0 then chain else src.chains[k - 1]
    ensures nread == |Flatten(src.parts[..k])| <= n && n - nread < chain.off && (nread == 0 <==> k == 0)
    ensures src.lwdp == if src.lwd <= k then null else src.chains[src.lwd - 1]
  {
    hide Seg, Distinct, Flatten, Window;
    ghost var cs, parts, L := src.chains, src.parts, src.lwd;
    SegNil(null);
    DataThere(src);
    chain, previous, nread, k := src.first, src.first, 0, 0;
    SegAt(cs, parts, null, 0);
    assert parts[..0] == [] && parts[..|cs|] == parts;
    UpToLast(cs, parts, L);
    while chain.off <= n - nread
      invariant k <= L && chain == cs[k] && chain.off == |parts[k]| && chain.off > 0
      invariant previous == if k == 0 then chain else cs[k - 1]
      invariant nread == |Flatten(parts[..k])| <= n && (nread == 0 <==> k == 0)
      invariant src.lwdp == if L <= k then null else cs[L - 1]
      decreases L - k
    {
      SegAt(cs, parts, null, k);
      FlattenSplit(parts, k);
      DistinctAt(cs, parts, k, L);
      nread := nread + chain.off;
      previous := chain;
      if src.lwdp == chain {
        src.lwdp := null;
      }
      chain, k := chain.next, k + 1;
      SegAt(cs, parts, null, k);
    }
  }

  lemma UpToLast(cs: seq<Chain>, parts: seq<seq<byte>>, w: nat)
    requires Seg(cs, parts, null) && LastWithData(cs, w) && w < |cs|
    ensures |parts| == |cs| && |Flatten(parts[..w])| + |parts[w]| == |Flatten(parts)|
  {
    SegSplit(cs, parts, null, w);
    SegEmpty(cs[w + 1..], parts[w + 1..], null);
  }

  lemma DistinctAt(cs: seq<Chain>, parts: seq<seq<byte>>, k: nat, w: nat)
    requires Seg(cs, parts, null) && k < w < |cs|
    ensures k < w - 1 ==> cs[k] != cs[w - 1]
  {
  }

  /** Every chunk holds data and none is pinned. */
  ghost predicate Solid(cs: seq<Chain>)
    reads cs`off, cs`pinnedR, cs`pinnedW
  {
    forall i :: 0 <= i < |cs| ==> cs[i].off > 0 && !cs[i].Pinned()
  }

  lemma SolidJoin(a: seq<Chain>, b: seq<Chain>)
    requires Solid(a) && Solid(b)
    ensures Solid(a + b)
  {
  }

  lemma SolidTight(buf: EvBuffer)
    requires buf.Structure() && Solid(buf.chains) && buf.chains != [] && buf.lwd == |buf.chains| - 1
    ensures buf.Valid() && buf.Tight()
  {
  }

  lemma SolidFront(cs: seq<Chain>, w: nat, k: nat)
    requires NoHoles(cs, w) && k <= w < |cs|
    ensures Solid(cs[..k])
  {
  }

  /** Without holes, the first victim is the end of the list or a sole empty chunk. */
  lemma KeptData(cs: seq<Chain>, w: nat, v: nat)
    requires NoHoles(cs, w) && LastWithData(cs, w) && (w == 0 || w < |cs|) && v == FirstVictim(cs, w)
    ensures Solid(cs[..v])
  {
  }

  /** Links the list `moved`, which goes on to `tail`, behind the first `v` chunks of `dst`. */
  method LinkMoved(dst: EvBuffer, slot: Chain?, head: Chain, previous: Chain, nread: nat, ghost v: nat,
                   ghost moved: seq<Chain>, ghost parts: seq<seq<byte>>, ghost tail: Chain?)
    requires v <= |dst.chains| == |dst.parts| && dst.lwd <= v && Disjoint(dst.chains[..v], moved)
    requires Seg(dst.chains[..v], dst.parts[..v], null) && dst.first == Head(dst.chains[..v], null)
    requires slot == (if v == 0 then null else dst.chains[v - 1])
    requires dst.lwdp == (if dst.lwd == 0 then null else dst.chains[dst.lwd - 1])
    requires moved != [] && head == moved[0] && previous == moved[|moved| - 1] && Seg(moved, parts, tail)
    requires nread == |Flatten(parts)| && dst.totalLen == |Flatten(dst.parts[..v])|
    modifies dst, dst.chains[..v]`next, previous`next
    ensures dst.Structure() && dst.chains == old(dst.chains)[..v] + moved && dst.lwd == old(dst.lwd)
    ensures dst.Contents() == Flatten(old(dst.parts)[..v]) + Flatten(parts)
    ensures dst.freezeStart == old(dst.freezeStart) && dst.freezeEnd == old(dst.freezeEnd)
  {
    hide Seg, Distinct, Flatten, Window;
    ghost var kept, keptParts := dst.chains[..v], dst.parts[..v];
    SetTail(previous, null, moved, parts, tail);
    if dst.first == null {
      dst.first := head;
      SegNil(head);
    } else {
      SetSlot(dst, slot, head, kept, keptParts, null);
    }
    SegJoin(kept, keptParts, moved, parts, null);
    SegLength(moved, parts, null);
    dst.last, dst.totalLen := previous, dst.totalLen + nread;
    dst.chains, dst.parts := kept + moved, keptParts + parts;
  }

  method AdvanceToEnd(buf: EvBuffer)
    requires buf.Structure() && Solid(buf.chains)
    modifies buf`lwdp, buf`lwd
    ensures buf.Structure() && (buf.chains == [] || buf.lwd == |buf.chains| - 1)
  {
    hide Seg, Distinct, Flatten, Window;
    AdvanceLast(buf);
  }

  /** Replaces the victims of `dst` with the list `moved`, which goes on to `tail`. */
  method MoveWhole(dst: EvBuffer, head: Chain, previous: Chain, nread: nat, ghost moved: seq<Chain>,
                   ghost parts: seq<seq<byte>>, ghost tail: Chain?) returns (ghost v: nat)
    requires dst.Valid() && dst.Tight() && Disjoint(dst.chains, moved)
    requires moved != [] && head == moved[0] && previous == moved[|moved| - 1] && Seg(moved, parts, tail)
    requires nread == |Flatten(parts)| && Solid(moved)
    modifies dst, dst.chains`next, dst.chains`dangling, dst.chains`released, previous`next
    ensures dst.Valid() && dst.Tight() && dst.Contents() == old(dst.Contents()) + Flatten(parts)
    ensures v <= |old(dst.chains)| && dst.chains == old(dst.chains)[..v] + moved
    ensures forall c :: c in old(dst.chains)[v..] ==> Detached(c)
    ensures dst.freezeStart == old(dst.freezeStart) && dst.freezeEnd == old(dst.freezeEnd)
  {
    hide Seg, Distinct, Flatten, Window, FirstVictim, LastWithData, NoHoles, Solid, Detached;
    var slot;
    KeptData(dst.chains, dst.lwd, FirstVictim(dst.chains, dst.lwd));
    slot, v := FreeTrailing(dst);
    LinkMoved(dst, slot, head, previous, nread, v, moved, parts, tail);
    SolidJoin(old(dst.chains)[..v], moved);
    AdvanceToEnd(dst);
    SolidTight(dst);
  }

  /** evbuffer_remove_buffer. */
  method RemoveBuffer(src: EvBuffer, dst: EvBuffer, datlen: nat) returns (n: int)
    requires src.Valid() && src.PinsOk() && src.Tight() && dst.Valid() && dst.Tight()
    requires src != dst ==> Disjoint(src.chains, dst.chains)
    modifies src, src.chains, dst, dst.chains
    ensures n == if datlen == 0 || src == dst then 0
                 else if old(dst.freezeEnd || src.freezeStart) then -1
                 else Min(datlen, old(src.totalLen))
    ensures dst.Contents() == old(dst.Contents()) + (if n > 0 then old(src.Contents())[..n] else [])
            || src == dst
    ensures src.Contents() == old(src.Contents())[if n > 0 then n else 0..]
    ensures src.Valid() && src.PinsOk() && dst.Valid() && src.Tight() && dst.Tight()
    ensures src != dst ==> Disjoint(src.chains, dst.chains)
    ensures forall c :: c in src.chains ==> c in old(src.chains) || c in old(dst.chains) || fresh(c)
    ensures forall c :: c in dst.chains ==> c in old(dst.chains) || c in old(src.chains) || fresh(c)
    ensures src.freezeStart == old(src.freezeStart) && src.freezeEnd == old(src.freezeEnd)
    ensures dst.freezeStart == old(dst.freezeStart) && dst.freezeEnd == old(dst.freezeEnd)
  {
    hide Seg, Distinct, Flatten, Window, FirstVictim, LastWithData, PinsBehind, NoHoles;
    if datlen == 0 || src == dst {
      return 0;
    }
    if dst.freezeEnd || src.freezeStart {
      return -1;
    }
    if datlen >= src.totalLen {
      n := src.totalLen;
      var _ := AddBuffer(dst, src);
      return;
    }
    TakePart(src, dst, datlen);
    return datlen;
  }

  /** evbuffer_remove_buffer when some data stays in `src`. */
  method TakePart(src: EvBuffer, dst: EvBuffer, n: nat)
    requires src != dst && src.Valid() && src.PinsOk() && src.Tight() && dst.Valid() && dst.Tight()
    requires Disjoint(src.chains, dst.chains) && n < src.totalLen && !dst.freezeEnd
    modifies src, src.chains, dst, dst.chains
    ensures dst.Contents() == old(dst.Contents()) + old(src.Contents())[..n]
    ensures src.Contents() == old(src.Contents())[n..]
    ensures src.Valid() && src.PinsOk() && dst.Valid() && Disjoint(src.chains, dst.chains) && src.Tight() && dst.Tight()
    ensures forall c :: c in src.chains ==> c in old(src.chains)
    ensures forall c :: c in dst.chains ==> c in old(dst.chains) || c in old(src.chains) || fresh(c)
    ensures src.freezeStart == old(src.freezeStart) && src.freezeEnd == old(src.freezeEnd)
    ensures dst.freezeStart == old(dst.freezeStart) && dst.freezeEnd == old(dst.freezeEnd)
  {
    hide Seg, Distinct, Disjoint, Flatten, Window, LastWithData, PinsBehind, NoHoles, EvBuffer.Valid,
      EvBuffer.PinsOk, EvBuffer.Tight;
    ghost var parts := src.parts;
    var chain, left; ghost var k;
    LengthIs(src);
    chain, left, k := TakeHead(src, dst, n);
    FlattenTake(parts, k, left);
    SegAt(src.chains[k..], src.parts[k..], null, 0);
    DataTake(chain, left);
    Apart(src.chains[k..], dst.chains);
    assert chain == src.chains[k..][0];
    AddApart(dst, chain.mem[chain.misalign..chain.misalign + left], src.chains[k..]);
    Apart(src.chains[k..], dst.chains);
    Rebase(src, n, chain, left, k);
  }

  /** Adds to a buffer that stays apart from the list `others`. */
  method AddApart(buf: EvBuffer, data: seq<byte>, ghost others: seq<Chain>)
    requires buf.Valid() && buf.Tight() && !buf.freezeEnd && Disjoint(others, buf.chains)
    modifies buf, buf.chains
    ensures buf.Valid() && buf.Tight() && buf.Contents() == old(buf.Contents()) + data
    ensures Disjoint(others, buf.chains)
    ensures forall c :: c in buf.chains ==> c in old(buf.chains) || fresh(c)
    ensures buf.freezeStart == old(buf.freezeStart) && buf.freezeEnd == old(buf.freezeEnd)
  {
    hide EvBuffer.Valid, EvBuffer.Tight, AddAborts, AddKeepsPointer;
    TightAdd(buf, |data|);
    var _ := Add(buf, data);
  }

  lemma DataTake(c: Chain, n: nat)
    requires c.InBounds() && n <= c.off
    ensures c.mem[c.misalign..c.misalign + n] == c.Data()[..n]
  {
  }

  lemma PartsDisjoint(a: seq<Chain>, b: seq<Chain>, k: nat)
    requires Disjoint(a, b) && k <= |a|
    ensures Disjoint(b, a[..k]) && Disjoint(a[k..], b)
  {
  }

  lemma MovedMembers(a: seq<Chain>, b: seq<Chain>, k: nat, v: nat)
    requires Distinct(a) && Disjoint(a, b) && k <= |a| && v <= |b|
    ensures Disjoint(a[k..], b[..v] + a[..k])
    ensures forall i :: 0 <= i < |b[..v] + a[..k]| ==> (b[..v] + a[..k])[i] in b || (b[..v] + a[..k])[i] in a
  {
  }

  /** Moves the chunks that go entirely. The rest of `src`, from chunk `k` on, is still to be
      made its list. */
  method TakeHead(src: EvBuffer, dst: EvBuffer, n: nat) returns (chain: Chain, left: nat, ghost k: nat)
    requires src != dst && src.Valid() && src.PinsOk() && src.Tight() && dst.Valid() && dst.Tight()
    requires Disjoint(src.chains, dst.chains) && n < src.totalLen
    modifies src`first, src`lwdp, src.chains, dst, dst.chains
    ensures k < |src.chains| == |src.parts| && chain == src.chains[k] && src.lwd < |src.chains|
    ensures Seg(src.chains[k..], src.parts[k..], null) && src.last == src.chains[|src.chains| - 1]
    ensures LastWithData(src.chains[k..], Minus(src.lwd, k)) && PinsBehind(src.chains[k..], Minus(src.lwd, k))
    ensures src.lwdp == if src.lwd <= k then null else src.chains[src.lwd - 1]
    ensures n == |Flatten(src.parts[..k])| + left && left < chain.off && chain.off == |src.parts[k]|
    ensures dst.Valid() && dst.Tight() && dst.Contents() == old(dst.Contents()) + Flatten(src.parts[..k])
    ensures Disjoint(src.chains[k..], dst.chains) && NoHoles(src.chains[k..], Minus(src.lwd, k))
    ensures forall i :: 0 <= i < |dst.chains| ==> dst.chains[i] in old(dst.chains) || dst.chains[i] in src.chains
    ensures dst.freezeStart == old(dst.freezeStart) && dst.freezeEnd == old(dst.freezeEnd)
  {
    hide Seg, Distinct, Disjoint, Flatten, Window, FirstVictim, LastWithData, PinsBehind, NoHoles, Solid,
      EvBuffer.Valid, EvBuffer.Tight;
    var previous, nread;
    HeadOf(src);
    chain, previous, nread, k := FindSplit(src, n);
    left := n - nread;
    RestApart(src.chains, dst.chains, k);
    if nread > 0 {
      MoveHead(src, dst, chain, previous, nread, k);
    } else {
      NoFront(src.parts, dst.Contents());
    }
  }

  lemma HeadOf(src: EvBuffer)
    requires src.Valid()
    ensures src.chains != [] ==> src.first == src.chains[0] && src.last == src.chains[|src.chains| - 1]
  {
    hide Seg, Flatten;
  }

  /** What is left of a list has nothing to do with what goes or with the other list. */
  lemma RestApart(a: seq<Chain>, b: seq<Chain>, k: nat)
    requires Distinct(a) && Disjoint(a, b) && k <= |a|
    ensures forall c :: c in a[k..] ==> c !in a[..k] && c !in b
    ensures Disjoint(a[k..], b)
  {
  }

  lemma NoFront(parts: seq<seq<byte>>, s: seq<byte>)
    ensures Flatten(parts[..0]) == [] && s + Flatten(parts[..0]) == s
  {
  }

  /** Moves the first `k` chunks of `src`. */
  method MoveHead(src: EvBuffer, dst: EvBuffer, chain: Chain, previous: Chain, nread: nat, ghost k: nat)
    requires src != dst && 0 < k < |src.chains| == |src.parts| && src.first == src.chains[0]
    requires Distinct(src.chains) && Disjoint(src.chains, dst.chains) && Solid(src.chains[..k])
    requires Seg(src.chains[..k], src.parts[..k], chain) && previous == src.chains[k - 1]
    requires nread == |Flatten(src.parts[..k])| && dst.Valid() && dst.Tight()
    modifies src`first, src.chains[..k], dst, dst.chains
    ensures dst.Valid() && dst.Tight() && dst.Contents() == old(dst.Contents()) + Flatten(src.parts[..k])
    ensures src.first == chain && Disjoint(src.chains[k..], dst.chains)
    ensures forall i :: 0 <= i < |dst.chains| ==> dst.chains[i] in old(dst.chains) || dst.chains[i] in src.chains
    ensures dst.freezeStart == old(dst.freezeStart) && dst.freezeEnd == old(dst.freezeEnd)
  {
    hide Seg, Distinct, Disjoint, Flatten, Solid, EvBuffer.Valid, EvBuffer.Tight;
    ghost var cs, parts := src.chains, src.parts;
    PartsDisjoint(cs, dst.chains, k);
    ghost var v := MoveWhole(dst, src.first, previous, nread, cs[..k], parts[..k], chain);
    src.first := chain;
    MovedMembers(cs, old(dst.chains), k, v);
  }

  /** TakeWhole, and what it says about the two parts of the list. */
  method FindSplit(src: EvBuffer, n: nat) returns (chain: Chain, previous: Chain, nread: nat, ghost k: nat)
    requires src.Valid() && src.PinsOk() && src.Tight() && n < src.totalLen
    modifies src`lwdp
    ensures k < |src.chains| == |src.parts| && chain == src.chains[k] && src.lwd < |src.chains|
    ensures previous == if k == 0 then chain else src.chains[k - 1]
    ensures nread == |Flatten(src.parts[..k])| <= n && n - nread < chain.off == |src.parts[k]| && (nread == 0 <==> k == 0)
    ensures src.lwdp == if src.lwd <= k then null else src.chains[src.lwd - 1]
    ensures Seg(src.chains[..k], src.parts[..k], chain) && Seg(src.chains[k..], src.parts[k..], null)
    ensures Distinct(src.chains) && Solid(src.chains[..k])
    ensures NoHoles(src.chains[k..], Minus(src.lwd, k))
    ensures LastWithData(src.chains[k..], Minus(src.lwd, k)) && PinsBehind(src.chains[k..], Minus(src.lwd, k))
  {
    hide Seg, Distinct, Flatten, Window, LastWithData, PinsBehind, NoHoles, Solid;
    chain, previous, nread, k := TakeWhole(src, n);
    SegLength(src.chains, src.parts, null);
    SegTake(src.chains, src.parts, null, k);
    SegDrop(src.chains, src.parts, null, k);
    DropFront(src.chains, src.lwd, k);
    SolidFront(src.chains, src.lwd, k);
    HolesDrop(src.chains, src.lwd, k);
    SegAt(src.chains, src.parts, null, k);
  }
}

/** One chunk of an evbuffer, and lists of chunks linked through `next`. */
module Chains {
  import opened Common
  import opened Flat

  const CHAIN_HEADER: nat := 48      // sizeof(struct evbuffer_chain), 64-bit
  const MIN_BUFFER_SIZE: nat := 1024 // 64-bit

  /** Doubles `a` until it reaches `size`. */
  function RoundUp(a: nat, size: nat): (r: nat)
    requires a > 0
    ensures r >= a && r >= size
    decreases if a < size then size - a else 0
  {
    if a < size then RoundUp(2 * a, size) else a
  }

  /** How much memory a chunk for `size` bytes gets. */
  function ChunkSize(size: nat): (n: nat)
    ensures n >= size && n > 0
  {
    RoundUp(MIN_BUFFER_SIZE, size + CHAIN_HEADER) - CHAIN_HEADER
  }

  function Doubled(a: nat, k: nat): nat
    decreases k
  {
    if k == 0 then a else Doubled(2 * a, k - 1)
  }

  /** A chunk with its header is the least power-of-two multiple of the smallest size that is big enough. */
  lemma ChunkSizeIs(size: nat) returns (k: nat)
    ensures ChunkSize(size) + CHAIN_HEADER == Doubled(MIN_BUFFER_SIZE, k)
    ensures k > 0 ==> Doubled(MIN_BUFFER_SIZE, k - 1) < size + CHAIN_HEADER
  {
    k := RoundUpIs(MIN_BUFFER_SIZE, size + CHAIN_HEADER);
  }

  lemma {:induction false} RoundUpIs(a: nat, size: nat) returns (k: nat)
    requires a > 0
    ensures RoundUp(a, size) == Doubled(a, k) && (k > 0 ==> Doubled(a, k - 1) < size)
    decreases if a < size then size - a else 0
  {
    if a < size {
      var j := RoundUpIs(2 * a, size);
      k := j + 1;
      assert k > 1 ==> Doubled(a, k - 1) == Doubled(2 * a, j - 1);
    } else {
      k := 0;
    }
  }

  /** The part of a chunk's memory that holds data. */
  ghost function Window(mem: seq<byte>, misalign: nat, off: nat): (w: seq<byte>)
    ensures misalign + off <= |mem| ==> |w| == off
  {
    if misalign + off <= |mem| then mem[misalign..misalign + off] else []
  }

  lemma WindowAppend(mem: seq<byte>, misalign: nat, off: nat, data: seq<byte>)
    requires misalign + off + |data| <= |mem|
    ensures var p := misalign + off;
            var mem' := mem[..p] + data + mem[p + |data|..];
            |mem'| == |mem| && Window(mem', misalign, off + |data|) == Window(mem, misalign, off) + data
  {
    var p := misalign + off;
    var now := mem[..p] + data + mem[p + |data|..];
    assert now[p..p + |data|] == data && now[misalign..p] == mem[misalign..p];
    assert now[misalign..p + |data|] == now[misalign..p] + now[p..p + |data|];
  }

  lemma WindowPrepend(mem: seq<byte>, misalign: nat, off: nat, data: seq<byte>)
    requires |data| <= misalign && misalign + off <= |mem|
    ensures var p := misalign - |data|;
            var mem' := mem[..p] + data + mem[p + |data|..];
            && |mem'| == |mem| && Window(mem', p, off + |data|) == data + Window(mem, misalign, off)
            && mem'[misalign + off..] == mem[misalign + off..]
  {
    var p := misalign - |data|;
    var now := mem[..p] + data + mem[p + |data|..];
    assert now[p..misalign] == data;
    assert forall i :: misalign <= i < |mem| ==> now[i] == mem[i];
    assert now[p..misalign + off] == now[p..misalign] + now[misalign..misalign + off];
  }

  lemma WindowDrop(mem: seq<byte>, misalign: nat, off: nat, k: nat)
    requires k <= off && misalign + off <= |mem|
    ensures Window(mem, misalign + k, off - k) == Window(mem, misalign, off)[k..]
  {
  }

  class Chain {
    var next: Chain?
    var mem: seq<byte>   // the memory that is allocated together with the chunk
    var misalign: nat
    var off: nat
    var pinnedR: bool
    var pinnedW: bool
    var dangling: bool   // detached, waiting to be unpinned
    var released: bool   // the memory was given back

    constructor (size: nat)
      ensures next == null && misalign == 0 && off == 0
      ensures !pinnedR && !pinnedW && !dangling && !released
      ensures |mem| == ChunkSize(size)
    {
      next, misalign, off := null, 0, 0;
      pinnedR, pinnedW, dangling, released := false, false, false, false;
      mem := seq(ChunkSize(size), _ => 0);
    }

    ghost predicate InBounds()
      reads this`misalign, this`off, this`mem
    {
      misalign + off <= |mem|
    }

    /** The bytes stored in the chunk. */
    ghost function Data(): seq<byte>
      reads this`mem, this`misalign, this`off
    {
      Window(mem, misalign, off)
    }

    /** Live, with its data inside its memory. */
    ghost predicate Ok()
      reads this`mem, this`misalign, this`off, this`released, this`dangling
    {
      InBounds() && |mem| > 0 && !released && !dangling
    }

    predicate Pinned()
      reads this`pinnedR, this`pinnedW
    {
      pinnedR || pinnedW
    }

    function Space(): (s: nat)
      requires InBounds()
      reads this
    {
      |mem| - (misalign + off)
    }

    /** Gives the chunk back, or marks it for later if an operation still uses its memory. */
    method Free()
      requires !released && !dangling
      modifies this`dangling, this`released
      ensures dangling == Pinned() && released == !Pinned()
    {
      if Pinned() {
        dangling := true;
      } else {
        released := true;
      }
    }

    /** Marks the chunk as in use by a pending read or write. */
    method Pin(read: bool)
      requires if read then !pinnedR else !pinnedW
      modifies this`pinnedR, this`pinnedW
      ensures pinnedR == (read || old(pinnedR)) && pinnedW == (!read || old(pinnedW))
    {
      if read {
        pinnedR := true;
      } else {
        pinnedW := true;
      }
    }

    /** Ends the use; a chunk that was only waiting for that is given back. */
    method Unpin(read: bool)
      requires (if read then pinnedR else pinnedW) && !released
      modifies this`pinnedR, this`pinnedW, this`dangling, this`released
      ensures pinnedR == (!read && old(pinnedR)) && pinnedW == (read && old(pinnedW))
      ensures dangling == (old(dangling) && Pinned()) && released == (old(dangling) && !Pinned())
    {
      if read {
        pinnedR := false;
      } else {
        pinnedW := false;
      }
      if dangling {
        dangling := false;
        Free();
      }
    }

    /** memmove of the stored bytes to the front of the chunk. */
    method Align()
      requires InBounds() && !Pinned()
      modifies this`misalign, this`mem
      ensures misalign == 0 && InBounds() && |mem| == old(|mem|)
      ensures Data() == old(Data())
    {
      mem := mem[misalign..misalign + off] + mem[off..];
      misalign := 0;
    }

    /** memcpy into the chunk at an absolute position. */
    method Write(pos: nat, data: seq<byte>)
      requires pos + |data| <= |mem|
      modifies this`mem
      ensures mem == old(mem)[..pos] + data + old(mem)[pos + |data|..]
    {
      mem := mem[..pos] + data + mem[pos + |data|..];
    }
  }

  /** The first chunk of a list, or what follows an empty one. */
  ghost function Head(cs: seq<Chain>, tail: Chain?): Chain? {
    if cs == [] then tail else cs[0]
  }

  /** The chunk a pointer leads to after `i` steps. */
  ghost function Nth(cs: seq<Chain>, tail: Chain?, i: nat): Chain? {
    if i < |cs| then cs[i] else tail
  }

  ghost predicate Disjoint(a: seq<Chain>, b: seq<Chain>) {
    forall i :: 0 <= i < |a| ==> a[i] !in b
  }

  ghost predicate SuffixOf(a: seq<Chain>, b: seq<Chain>) {
    |a| <= |b| && a == b[|b| - |a|..]
  }

  /** `cs` are the chunks of a list segment that ends at `tail`; every chunk is live, and
      `parts` are their data. */
  ghost predicate Seg(cs: seq<Chain>, parts: seq<seq<byte>>, tail: Chain?)
    reads cs
  {
    && Distinct(cs) && |parts| == |cs|
    && (forall i :: 0 <= i < |cs| ==> cs[i].Ok() && cs[i].Data() == parts[i])
    && (forall i {:trigger cs[i].next} :: 0 <= i < |cs| ==> cs[i].next == Nth(cs, tail, i + 1))
  }

  lemma SegNil(tail: Chain?)
    ensures Seg([], [], tail) && Flatten<byte>([]) == []
  {
  }

  lemma SegOne(c: Chain)
    requires c.Ok()
    ensures Seg([c], [c.Data()], c.next)
  {
  }

  /** What a segment says about one of its chunks. */
  lemma SegAt(cs: seq<Chain>, parts: seq<seq<byte>>, tail: Chain?, i: nat)
    requires Seg(cs, parts, tail) && i < |cs|
    ensures |parts| == |cs| && cs[i].Ok() && cs[i].Data() == parts[i]
    ensures cs[i].next == Nth(cs, tail, i + 1)
  {
  }

  lemma SegLength(cs: seq<Chain>, parts: seq<seq<byte>>, tail: Chain?)
    requires Seg(cs, parts, tail)
    ensures |parts| == |cs| && Distinct(cs)
  {
  }

  lemma SegTake(cs: seq<Chain>, parts: seq<seq<byte>>, tail: Chain?, i: nat)
    requires Seg(cs, parts, tail) && i <= |cs|
    ensures |parts| == |cs| && Seg(cs[..i], parts[..i], Nth(cs, tail, i))
  {
    hide Chain.Data, Chain.Ok;
  }

  lemma SegDrop(cs: seq<Chain>, parts: seq<seq<byte>>, tail: Chain?, i: nat)
    requires Seg(cs, parts, tail) && i <= |cs|
    ensures |parts| == |cs| && Seg(cs[i..], parts[i..], tail)
    ensures Head(cs[i..], tail) == Nth(cs, tail, i)
  {
    hide Chain.Data, Chain.Ok;
  }

  lemma DistinctCut(cs: seq<Chain>, i: nat)
    requires Distinct(cs) && i <= |cs|
    ensures Disjoint(cs[..i], cs[i..])
  {
  }

  lemma DistinctAround(cs: seq<Chain>, i: nat)
    requires Distinct(cs) && i < |cs|
    ensures cs[i] !in cs[..i] && cs[i] !in cs[i + 1..] && Disjoint(cs[..i], cs[i + 1..])
  {
  }

  lemma SegCut(cs: seq<Chain>, parts: seq<seq<byte>>, tail: Chain?, i: nat)
    requires Seg(cs, parts, tail) && i <= |cs|
    ensures |parts| == |cs| && Distinct(cs) && Disjoint(cs[..i], cs[i..])
    ensures Seg(cs[..i], parts[..i], Nth(cs, tail, i)) && Seg(cs[i..], parts[i..], tail)
    ensures Head(cs[i..], tail) == Nth(cs, tail, i)
    ensures cs == cs[..i] + cs[i..] && parts == parts[..i] + parts[i..]
    ensures Flatten(parts) == Flatten(parts[..i]) + Flatten(parts[i..])
  {
    hide *;
    SegLength(cs, parts, tail);
    SegTake(cs, parts, tail, i);
    SegDrop(cs, parts, tail, i);
    FlattenCut(parts, i);
    DistinctCut(cs, i);
  }

  lemma SegJoin(a: seq<Chain>, pa: seq<seq<byte>>, b: seq<Chain>, pb: seq<seq<byte>>, tail: Chain?)
    requires Seg(a, pa, Head(b, tail)) && Seg(b, pb, tail) && Disjoint(a, b)
    ensures Seg(a + b, pa + pb, tail) && Head(a + b, tail) == Head(a, Head(b, tail))
    ensures Flatten(pa + pb) == Flatten(pa) + Flatten(pb)
  {
    FlattenAppend(pa, pb);
    hide Chain.Data, Chain.Ok, Flatten;
    assert Distinct(a + b) by {
      forall i, j | 0 <= i < j < |a + b| ensures (a + b)[i] != (a + b)[j] {
        if i < |a| <= j {
          assert a[i] in a && b[j - |a|] in b;
        }
      }
    }
  }

  /** Splits a segment around one chunk. */
  lemma SegSplit(cs: seq<Chain>, parts: seq<seq<byte>>, tail: Chain?, i: nat)
    requires Seg(cs, parts, tail) && i < |cs|
    ensures |parts| == |cs| && cs[i].Ok() && cs[i].Data() == parts[i] && cs[i].next == Nth(cs, tail, i + 1)
    ensures cs[i] !in cs[..i] && cs[i] !in cs[i + 1..] && Disjoint(cs[..i], cs[i + 1..])
    ensures Seg(cs[..i], parts[..i], cs[i]) && Seg(cs[i + 1..], parts[i + 1..], tail)
    ensures Head(cs[i + 1..], tail) == Nth(cs, tail, i + 1)
    ensures cs == cs[..i] + [cs[i]] + cs[i + 1..] && parts == parts[..i] + [parts[i]] + parts[i + 1..]
    ensures Flatten(parts) == Flatten(parts[..i]) + parts[i] + Flatten(parts[i + 1..])
  {
    hide Seg, Distinct, Disjoint, Flatten, Chain.Ok, Chain.Data;
    SegAt(cs, parts, tail, i);
    SegCut(cs, parts, tail, i);
    SegDrop(cs, parts, tail, i + 1);
    FlattenSplit(parts, i);
    DistinctAround(cs, i);
  }

  /** Rebuilds a segment around one chunk, the converse of SegSplit. */
  lemma SegMake(a: seq<Chain>, pa: seq<seq<byte>>, c: Chain, b: seq<Chain>, pb: seq<seq<byte>>, tail: Chain?)
    requires Seg(a, pa, c) && c.Ok() && c.next == Head(b, tail) && Seg(b, pb, tail)
    requires c !in a && c !in b && Disjoint(a, b)
    ensures Seg(a + [c] + b, pa + [c.Data()] + pb, tail)
    ensures Flatten(pa + [c.Data()] + pb) == Flatten(pa) + c.Data() + Flatten(pb)
    ensures Head(a + [c] + b, tail) == Head(a, c)
  {
    SegOne(c);
    SegJoin(a, pa, [c], [c.Data()], Head(b, tail));
    FlattenOne(c.Data());
    assert Disjoint(a + [c], b);
    SegJoin(a + [c], pa + [c.Data()], b, pb, tail);
  }

  lemma Halves(cs: seq<Chain>, k: nat)
    requires k <= |cs|
    ensures forall c :: c in cs <==> c in cs[..k] || c in cs[k..]
  {
    assert cs == cs[..k] + cs[k..];
  }

  lemma NotFirst(cs: seq<Chain>, parts: seq<seq<byte>>, tail: Chain?)
    requires Seg(cs, parts, tail)
    ensures forall i :: 0 < i < |cs| ==> cs[i] != cs[0]
  {
  }

  /** Redirects the last `next` field of a segment. */
  method SetTail(l: Chain, c: Chain?, ghost cs: seq<Chain>, ghost parts: seq<seq<byte>>, ghost tail: Chain?)
    requires Seg(cs, parts, tail) && cs != [] && l == cs[|cs| - 1]
    modifies l`next
    ensures l.next == c && Seg(cs, parts, c)
  {
    hide Distinct, Flatten, Window;
    SegSplit(cs, parts, tail, |cs| - 1);
    l.next := c;
    SegOne(l);
    SegJoin(cs[..|cs| - 1], parts[..|cs| - 1], [l], [l.Data()], c);
    assert cs[..|cs| - 1] + [l] == cs && parts[..|cs| - 1] + [l.Data()] == parts;
  }

  ghost predicate EmptyFrom(cs: seq<Chain>, from: nat)
    reads cs`off
  {
    forall i :: from <= i < |cs| ==> cs[i].off == 0
  }

  lemma SegEmpty(cs: seq<Chain>, parts: seq<seq<byte>>, tail: Chain?)
    requires Seg(cs, parts, tail) && EmptyFrom(cs, 0)
    ensures Flatten(parts) == []
  {
    forall i | 0 <= i < |parts| ensures parts[i] == [] {
      SegAt(cs, parts, tail, i);
    }
    FlattenEmpty(parts);
  }

  /** What freeing leaves behind: given back, or waiting for its pin. */
  ghost predicate Detached(c: Chain)
    reads c`dangling, c`released, c`pinnedR, c`pinnedW
  {
    c.dangling == c.Pinned() && c.released == !c.Pinned()
  }

  /** Frees every chunk of a list. */
  method FreeAll(head: Chain?, ghost cs: seq<Chain>, ghost parts: seq<seq<byte>>)
    requires Seg(cs, parts, null) && head == Head(cs, null)
    modifies cs`dangling, cs`released
    ensures forall c :: c in cs ==> Detached(c)
  {
    var chain := head;
    ghost var k := 0;
    while chain != null
      invariant 0 <= k <= |cs| && chain == Nth(cs, null, k)
      invariant forall i :: 0 <= i < k ==> Detached(cs[i])
      invariant forall i :: k <= i < |cs| ==> cs[i].Ok()
      invariant forall i {:trigger cs[i].next} :: 0 <= i < |cs| ==> cs[i].next == Nth(cs, null, i + 1)
      decreases |cs| - k
    {
      var nxt := chain.next;
      chain.Free();
      chain, k := nxt, k + 1;
    }
  }

  /** Every chunk of `now` was in one of the two lists or is new. */
  twostate predicate From(new now: seq<Chain>, a: seq<Chain>, b: seq<Chain>) {
    forall i :: 0 <= i < |now| ==> now[i] in a || now[i] in b || fresh(now[i])
  }

  lemma Apart(a: seq<Chain>, b: seq<Chain>)
    requires Disjoint(a, b)
    ensures forall i :: 0 <= i < |a| ==> a[i] !in b
    ensures forall i :: 0 <= i < |b| ==> b[i] !in a
  {
  }

  lemma OthersApart(cs: seq<Chain>, i: nat)
    requires Distinct(cs) && i < |cs|
    ensures forall j :: 0 <= j < |cs| && j != i ==> cs[j] != cs[i]
  {
  }

  lemma StillApart(now: seq<Chain>, was: seq<Chain>, other: seq<Chain>)
    requires Disjoint(was, other) && forall i :: 0 <= i < |now| ==> now[i] in was || now[i] !in other
    ensures Disjoint(now, other) && Disjoint(other, now)
  {
    forall i | 0 <= i < |other| ensures other[i] !in now {
    }
  }

  twostate predicate SamePins(c: Chain)
    reads c`pinnedR, c`pinnedW
  {
    c.pinnedR == old(c.pinnedR) && c.pinnedW == old(c.pinnedW)
  }

  /** The memory of a chunk is untouched and its data ends where it did. */
  twostate predicate EndKept(c: Chain)
    reads c`misalign, c`off, c`mem
  {
    c.misalign + c.off == old(c.misalign + c.off) && c.mem == old(c.mem)
  }

  /** The data of a chunk is where and what it was, and more may have come behind it. */
  twostate predicate DataKept(c: Chain)
    reads c`misalign, c`off, c`mem
  {
    && c.misalign == old(c.misalign) && |c.mem| == old(|c.mem|) && c.off >= old(c.off)
    && old(Window(c.mem, c.misalign, c.off)) <= Window(c.mem, c.misalign, c.off)
  }

  /** The free area behind the data of a chunk is where and what it was. */
  twostate predicate WindowKept(c: Chain)
    reads c`misalign, c`off, c`mem
  {
    && c.misalign + c.off == old(c.misalign + c.off) && |c.mem| == old(|c.mem|)
    && (c.InBounds() ==> c.mem[c.misalign + c.off..] == old(c.mem)[c.misalign + c.off..])
  }
}

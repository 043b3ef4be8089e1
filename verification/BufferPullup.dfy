/** Making the front of an evbuffer contiguous. */
module BufferPullup {
  import opened Common
  import opened Flat
  import opened Chains
  import opened EvBuffers

  /** Copies `size` bytes from the list `cs[k0..]` behind the data of `tmp` and frees every chunk
      that is used up. The flags tell whether the last chunk with data, and the chunk that `lwdp`
      points into, were among them. */
  method Absorb(buf: EvBuffer, tmp: Chain, from: Chain?, size: nat, target: Chain?,
                ghost cs: seq<Chain>, ghost parts: seq<seq<byte>>)
    returns (chain: Chain?, left: nat, removedTarget: bool, removedOwner: bool, ghost k: nat)
    requires Seg(cs, parts, null) && |parts| == |cs| && from == Head(cs, null)
    requires tmp.Ok() && tmp !in cs && size <= tmp.Space() && size <= |Flatten(parts)|
    modifies tmp`mem, tmp`off, cs`dangling, cs`released
    ensures k <= |cs| && chain == Nth(cs, null, k) && Seg(cs[k..], parts[k..], null)
    ensures left == size - |Flatten(parts[..k])| && (chain != null ==> left < chain.off)
    ensures tmp.Ok() && left <= tmp.Space() && tmp.off == old(tmp.off) + |Flatten(parts[..k])|
    ensures tmp.Data() == old(tmp.Data()) + Flatten(parts[..k])
    ensures removedTarget <==> target != null && target in cs[..k]
    ensures removedOwner <==> buf.lwdp != null && buf.lwdp in cs[..k]
    ensures forall c :: c in cs[..k] ==> Detached(c)
  {
    hide Seg, Distinct, Disjoint, Flatten, Window;
    chain, left, removedTarget, removedOwner, k := from, size, false, false, 0;
    Empties(cs);
    Empties(parts);
    SegNil(null);
    while chain != null && left >= chain.off
      invariant k <= |cs| && chain == Nth(cs, null, k) && Seg(cs[k..], parts[k..], null)
      invariant left == size - |Flatten(parts[..k])|
      invariant tmp.Ok() && left <= tmp.Space() && tmp.off == old(tmp.off) + |Flatten(parts[..k])|
      invariant tmp.Data() == old(tmp.Data()) + Flatten(parts[..k])
      invariant removedTarget <==> target != null && target in cs[..k]
      invariant removedOwner <==> buf.lwdp != null && buf.lwdp in cs[..k]
      invariant forall c :: c in cs[..k] ==> Detached(c)
      decreases |cs| - k
    {
      FlattenSplit(parts, k);
      TailStep(cs, k);
      TailStep(parts, k);
      left := left - chain.off;
      if chain == target {
        removedTarget := true;
      }
      if chain == buf.lwdp {
        removedOwner := true;
      }
      var next := AbsorbOne(tmp, chain, cs[k..], parts[k..]);
      chain, k := next, k + 1;
    }
  }

  /** Copies the data of the first chunk of a list and frees the chunk. */
  method AbsorbOne(tmp: Chain, chain: Chain, ghost cs: seq<Chain>, ghost parts: seq<seq<byte>>) returns (next: Chain?)
    requires Seg(cs, parts, null) && cs != [] && chain == cs[0] && |parts| == |cs|
    requires tmp.Ok() && tmp !in cs && chain.off <= tmp.Space()
    modifies tmp`mem, tmp`off, chain`dangling, chain`released
    ensures next == Head(cs[1..], null) && Seg(cs[1..], parts[1..], null) && chain.off == |parts[0]|
    ensures tmp.Ok() && tmp.Data() == old(tmp.Data()) + parts[0] && tmp.off == old(tmp.off) + |parts[0]|
    ensures |tmp.mem| == old(|tmp.mem|) && Detached(chain)
  {
    hide Seg, Distinct, Flatten, Window;
    SegSplit(cs, parts, null, 0);
    next := chain.next;
    AppendTo(tmp, chain, chain.off);
    chain.Free();
  }

  /** memcpy of the first `n` bytes of `c` behind the data of `tmp`. */
  method AppendTo(tmp: Chain, c: Chain, n: nat)
    requires tmp.Ok() && c.InBounds() && c != tmp && n <= c.off && n <= tmp.Space()
    modifies tmp`mem, tmp`off
    ensures tmp.Ok() && tmp.Data() == old(tmp.Data()) + c.Data()[..n]
    ensures n == c.off ==> tmp.Data() == old(tmp.Data()) + c.Data()
    ensures tmp.off == old(tmp.off) + n && |tmp.mem| == old(|tmp.mem|)
  {
    assert c.Data()[..n] == c.mem[c.misalign..c.misalign + n];
    assert n == c.off ==> c.Data()[..n] == c.Data();
    WindowAppend(tmp.mem, tmp.misalign, tmp.off, c.mem[c.misalign..c.misalign + n]);
    tmp.Write(tmp.misalign + tmp.off, c.mem[c.misalign..c.misalign + n]);
    tmp.off := tmp.off + n;
  }

  /** Absorbs all chunks that are used up entirely and takes the rest from the next one. */
  method Gather(buf: EvBuffer, tmp: Chain, from: Chain?, size: nat, target: Chain?,
                ghost cs: seq<Chain>, ghost parts: seq<seq<byte>>, ghost w: nat)
    returns (chain: Chain?, removedTarget: bool, removedOwner: bool, ghost k: nat, ghost rest: seq<seq<byte>>)
    requires Seg(cs, parts, null) && |parts| == |cs| && from == Head(cs, null) && LastWithData(cs, w)
    requires tmp.Ok() && tmp !in cs && size <= tmp.Space() && size <= |Flatten(parts)|
    modifies tmp`mem, tmp`off, cs`dangling, cs`released, cs`misalign, cs`off
    ensures k <= |cs| && chain == Nth(cs, null, k) && Seg(cs[k..], rest, null) && |rest| == |cs| - k
    ensures Flatten(rest) == Flatten(parts)[size..]
    ensures tmp.Ok() && tmp.Data() == old(tmp.Data()) + Flatten(parts)[..size] && tmp.off == old(tmp.off) + size
    ensures removedTarget <==> target != null && target in cs[..k]
    ensures removedOwner <==> buf.lwdp != null && buf.lwdp in cs[..k]
    ensures forall c :: c in cs[..k] ==> Detached(c)
    ensures chain != null ==> chain.off > 0 && k <= w && LastWithData(cs[k..], w - k)
    ensures chain != null && old(NoHoles(cs, w)) ==> NoHoles(cs[k..], w - k)
    ensures forall c :: c in cs[k..] ==> EndKept(c)
  {
    hide Seg, Distinct, Flatten, Window, LastWithData, NoHoles, Detached;
    var left;
    chain, left, removedTarget, removedOwner, k := Absorb(buf, tmp, from, size, target, cs, parts);
    rest := parts[k..];
    if chain != null {
      StillLast(cs, w, k);
      rest := TakeFront(tmp, chain, left, cs[k..], rest, w - k);
      TakenThere(old(tmp.Data()), parts, k, left, size);
    } else {
      AllTaken(old(tmp.Data()), parts, k, size);
    }
  }

  /** Copies the first `n` bytes of the first chunk of a list and drops them there. */
  method TakeFront(tmp: Chain, chain: Chain, n: nat, ghost cs: seq<Chain>, ghost parts: seq<seq<byte>>, ghost w: nat)
    returns (ghost rest: seq<seq<byte>>)
    requires Seg(cs, parts, null) && cs != [] && cs[0] == chain && n < chain.off && LastWithData(cs, w)
    requires tmp.Ok() && tmp !in cs && n <= tmp.Space() && |parts| == |cs|
    modifies tmp`mem, tmp`off, chain`misalign, chain`off
    ensures |rest| == |cs| && Seg(cs, rest, null) && Flatten(rest) == Flatten(parts)[n..]
    ensures tmp.Ok() && n <= |parts[0]| && tmp.Data() == old(tmp.Data()) + parts[0][..n] && tmp.off == old(tmp.off) + n
    ensures chain.off > 0 && EndKept(chain) && LastWithData(cs, w)
    ensures old(NoHoles(cs, w)) ==> NoHoles(cs, w)
  {
    hide Seg, Distinct, Flatten, Window, LastWithData, NoHoles;
    SegAt(cs, parts, null, 0);
    AppendTo(tmp, chain, n);
    rest := TrimAt(chain, n, cs, parts, w);
  }

  lemma TakenThere(front: seq<byte>, parts: seq<seq<byte>>, k: nat, left: nat, size: nat)
    requires k < |parts| && left <= |parts[k]| && size == |Flatten(parts[..k])| + left <= |Flatten(parts)|
    ensures front + Flatten(parts[..k]) + parts[k..][0][..left] == front + Flatten(parts)[..size]
    ensures left <= |Flatten(parts[k..])| && Flatten(parts[k..])[left..] == Flatten(parts)[size..]
  {
    hide Flatten;
    FlattenTake(parts, k, left);
    FlattenCut(parts, k);
    FlattenDrop(parts, k, left);
  }

  lemma AllTaken(front: seq<byte>, parts: seq<seq<byte>>, k: nat, size: nat)
    requires k == |parts| && |Flatten(parts[..k])| <= size <= |Flatten(parts)|
    ensures size == |Flatten(parts)| && front + Flatten(parts[..k]) == front + Flatten(parts)[..size]
    ensures Flatten(parts[k..]) == Flatten(parts)[size..]
  {
    Empties(parts);
  }

  method LinkFront(tmp: Chain, chain: Chain?, ghost cs: seq<Chain>, ghost parts: seq<seq<byte>>)
    requires Seg(cs, parts, null) && |parts| == |cs| && chain == Head(cs, null) && tmp.Ok() && tmp !in cs
    modifies tmp`next
    ensures tmp.next == chain && Seg([tmp] + cs, [tmp.Data()] + parts, null)
    ensures Flatten([tmp.Data()] + parts) == tmp.Data() + Flatten(parts)
  {
    hide Seg, Flatten, Window, Distinct;
    tmp.next := chain;
    SegNil(tmp);
    SegMake([], [], tmp, cs, parts, null);
    InFront(tmp, cs);
    InFront(tmp.Data(), parts);
  }

  lemma InFront<T>(x: T, s: seq<T>)
    ensures [] + [x] + s == [x] + s
  {
  }

  lemma TailOfTail<T>(s: seq<T>, a: nat, b: nat)
    requires a + b <= |s|
    ensures s[a..][b..] == s[a + b..] && s[a..][..b] == s[a..a + b]
  {
  }

  /** Chunk `k` holds data, and so is not behind the last one that does. */
  lemma StillLast(cs: seq<Chain>, w: nat, k: nat)
    requires LastWithData(cs, w) && k < |cs| && cs[k..][0].off > 0
    ensures k <= w && LastWithData(cs[k..], w - k)
    ensures NoHoles(cs, w) ==> NoHoles(cs[k..], w - k)
  {
  }

  /** Drops some, but not all, of the data of the first chunk of a list. */
  method TrimAt(c: Chain, n: nat, ghost cs: seq<Chain>, ghost parts: seq<seq<byte>>, ghost w: nat)
    returns (ghost rest: seq<seq<byte>>)
    requires Seg(cs, parts, null) && cs != [] && cs[0] == c && n < c.off && LastWithData(cs, w)
    modifies c`misalign, c`off
    ensures |rest| == |cs| && Seg(cs, rest, null) && Flatten(rest) == Flatten(parts)[n..]
    ensures c.off == old(c.off) - n && EndKept(c) && LastWithData(cs, w)
    ensures old(NoHoles(cs, w)) ==> NoHoles(cs, w)
  {
    hide Seg, Distinct, Flatten, Window;
    TrimFront(c, n, cs, parts);
    rest := [parts[0][n..]] + parts[1..];
  }

  /** Finds the new value of `lwdp` after chunks `k0` to `k` have gone into the first chunk. */
  method FixPointer(buf: EvBuffer, removedTarget: bool, removedOwner: bool, ghost k0: nat, ghost k: nat)
    requires buf.first != null && k0 <= 1 && k0 <= k <= |buf.chains| && 0 < buf.lwd < |buf.chains|
    requires buf.first.next == Nth(buf.chains, null, k) && (k0 == 1 ==> buf.first == buf.chains[0])
    requires buf.lwdp == buf.chains[buf.lwd - 1]
    requires removedTarget <==> buf.lwd < k
    requires removedOwner <==> k0 <= buf.lwd - 1 < k
    requires buf.lwd == k ==> buf.chains[buf.lwd].off > 0
    modifies buf`lwdp, buf`lwd
    ensures buf.lwd == if old(buf.lwd) < k then 0 else old(buf.lwd) - k + 1
    ensures buf.lwdp == if buf.lwd == 0 then null else ([buf.first] + buf.chains[k..])[buf.lwd - 1]
  {
    ghost var L := buf.lwd;
    if removedTarget {
      buf.lwdp := null;
    } else if removedOwner {
      buf.lwdp := if buf.first.next != null && buf.first.next.off > 0 then buf.first else null;
    }
    buf.lwd := if L < k then 0 else L - k + 1;
  }

  lemma Reassembled(parts: seq<seq<byte>>, k: nat, n: nat)
    requires k <= |parts| && n <= |Flatten(parts[k..])|
    ensures Flatten(parts[..k]) + Flatten(parts[k..])[..n] + Flatten(parts[k..])[n..] == Flatten(parts)
  {
    FlattenCut(parts, k);
  }

  lemma ReadyIs(buf: EvBuffer, tmp: Chain, k0: nat)
    requires Ready(buf, tmp, k0)
    ensures k0 <= 1 && 0 < buf.lwd < |buf.chains| == |buf.parts| && tmp.Ok() && tmp.Data() == Flatten(buf.parts[..k0])
    ensures Seg(buf.chains[k0..], buf.parts[k0..], null) && Distinct(buf.chains) && tmp !in buf.chains[k0..]
    ensures buf.lwdp == buf.chains[buf.lwd - 1] && buf.At(buf.lwdp) == buf.chains[buf.lwd]
    ensures LastWithData(buf.chains[k0..], buf.lwd - k0)
    ensures buf.first == tmp && (k0 == 1 ==> tmp == buf.chains[0])
    ensures buf.last == buf.chains[|buf.chains| - 1] && buf.totalLen == |Flatten(buf.parts)|
  {
    hide Seg, Distinct, LastWithData, Flatten;
  }

  lemma Members(cs: seq<Chain>, k0: nat, k: nat, j: nat)
    requires Distinct(cs) && k0 + k <= |cs| && j < |cs|
    ensures cs[j] in cs[k0..][..k] <==> k0 <= j < k0 + k
  {
    if k0 <= j < k0 + k {
      assert cs[k0..][..k][j - k0] == cs[j];
    }
  }

  /** What `PullInto` starts from: `tmp` is the first chunk already and holds the data of the first
      `k0` chunks, with room for more. */
  ghost predicate Ready(buf: EvBuffer, tmp: Chain, k0: nat)
    reads buf, buf.chains, tmp
  {
    && k0 <= 1 && 0 < buf.lwd < |buf.chains| == |buf.parts|
    && buf.first == tmp && tmp.Ok() && tmp.Data() == Flatten(buf.parts[..k0])
    && (if k0 == 1 then tmp == buf.chains[0] else tmp !in buf.chains) && tmp !in buf.chains[k0..]
    && Seg(buf.chains[k0..], buf.parts[k0..], null) && Distinct(buf.chains)
    && buf.lwdp == buf.chains[buf.lwd - 1] && buf.lwdp.next == buf.chains[buf.lwd]
    && LastWithData(buf.chains[k0..], buf.lwd - k0) && buf.last == buf.chains[|buf.chains| - 1] && buf.totalLen == |Flatten(buf.parts)|
  }

  /** Links `tmp` in front of the chunks from `k` on. */
  method Assemble(buf: EvBuffer, tmp: Chain, chain: Chain?, removedTarget: bool, removedOwner: bool,
                  ghost k0: nat, ghost k: nat, ghost rest: seq<seq<byte>>)
    requires buf.first == tmp && k0 <= 1 && k0 <= k <= |buf.chains| && 0 < buf.lwd < |buf.chains|
    requires chain == Nth(buf.chains, null, k) && (k0 == 1 ==> tmp == buf.chains[0])
    requires Seg(buf.chains[k..], rest, null) && |rest| == |buf.chains| - k
    requires tmp.Ok() && tmp !in buf.chains[k..]
    requires buf.lwdp == buf.chains[buf.lwd - 1] && buf.last == buf.chains[|buf.chains| - 1]
    requires removedTarget <==> buf.lwd < k
    requires removedOwner <==> k0 <= buf.lwd - 1 < k
    requires k < |buf.chains| ==> chain != null && chain.off > 0 && k <= buf.lwd && LastWithData(buf.chains[k..], buf.lwd - k)
    requires buf.totalLen == tmp.off + |Flatten(rest)|
    modifies buf`last, buf`lwdp, buf`lwd, buf`chains, buf`parts, tmp`next
    ensures buf.Valid() && buf.chains == [tmp] + old(buf.chains)[k..]
    ensures buf.Contents() == tmp.Data() + Flatten(rest)
    ensures buf.lwd == if k == |old(buf.chains)| then 0 else old(buf.lwd) - k + 1
  {
    hide Seg, Distinct, Flatten, Window, LastWithData, NoHoles;
    ghost var left := buf.chains[k..];
    assert k < |buf.chains| ==> left[0] == chain;
    if chain == null {
      buf.last := tmp;
    }
    LinkFront(tmp, chain, left, rest);
    FixPointer(buf, removedTarget, removedOwner, k0, k);
    PushFrontOk(tmp, left, if buf.lwd == 0 then 0 else buf.lwd - 1);
    buf.chains, buf.parts := [tmp] + left, [tmp.Data()] + rest;
  }

  /** Gather, in terms of the chunks of `buf`, of which the first `k0` are in `tmp` already. */
  method GatherAt(buf: EvBuffer, tmp: Chain, from: Chain?, size: nat, ghost k0: nat)
    returns (chain: Chain?, removedTarget: bool, removedOwner: bool, ghost k: nat, ghost rest: seq<seq<byte>>)
    requires Ready(buf, tmp, k0) && from == Nth(buf.chains, null, k0)
    requires 0 < size <= tmp.Space() && size <= |Flatten(buf.parts[k0..])|
    modifies tmp`mem, tmp`off
    modifies buf.chains`dangling, buf.chains`released, buf.chains`misalign, buf.chains`off
    ensures k0 <= k <= |buf.chains| && chain == Nth(buf.chains, null, k)
    ensures Seg(buf.chains[k..], rest, null) && |rest| == |buf.chains| - k && tmp !in buf.chains[k..]
    ensures tmp.Ok() && tmp.off == old(tmp.off) + size && tmp.Data() + Flatten(rest) == Flatten(buf.parts)
    ensures removedTarget <==> buf.lwd < k
    ensures removedOwner <==> k0 <= buf.lwd - 1 < k
    ensures k < |buf.chains| ==> chain != null && chain.off > 0 && k <= buf.lwd && LastWithData(buf.chains[k..], buf.lwd - k)
    ensures k < |buf.chains| && old(NoHoles(buf.chains[k0..], buf.lwd - k0)) ==> NoHoles(buf.chains[k..], buf.lwd - k)
    ensures forall c :: c in buf.chains[k0..k] ==> Detached(c)
    ensures forall c :: c in buf.chains[k..] ==> EndKept(c)
  {
    hide Seg, Distinct, Disjoint, Flatten, Window, LastWithData, NoHoles, Detached, Ready;
    ReadyIs(buf, tmp, k0);
    ghost var all, L, d := buf.chains, buf.lwd, 0;
    var target := buf.At(buf.lwdp);
    chain, removedTarget, removedOwner, d, rest := Gather(buf, tmp, from, size, target, all[k0..], buf.parts[k0..], L - k0);
    Members(all, k0, d, L);
    Members(all, k0, d, L - 1);
    TailOfTail(all, k0, d);
    assert d < |all[k0..]| ==> chain == all[k0..][d];
    Reassembled(buf.parts, k0, size);
    k := k0 + d;
  }

  /** Moves the next `size` bytes into `tmp`. */
  method PullInto(buf: EvBuffer, tmp: Chain, from: Chain?, size: nat, ghost k0: nat) returns (ghost k: nat)
    requires Ready(buf, tmp, k0) && from == Nth(buf.chains, null, k0)
    requires 0 < size <= tmp.Space() && size <= |Flatten(buf.parts[k0..])|
    modifies buf, buf.chains, tmp
    ensures buf.Valid() && buf.Contents() == old(buf.Contents())
    ensures buf.first == tmp && tmp.off == old(tmp.off) + size
    ensures k0 <= k <= |old(buf.chains)| && buf.chains == [tmp] + old(buf.chains)[k..]
    ensures var was := old(buf.chains);
            (forall c :: c in was[k0..k] ==> Detached(c)) && forall c :: c in was[k..] ==> EndKept(c)
    ensures if k == |old(buf.chains)| then buf.lwd == 0 else k <= old(buf.lwd) && buf.lwd == old(buf.lwd) - k + 1
    ensures SamePins(tmp) && forall c :: c in old(buf.chains) ==> SamePins(c)
    ensures old(NoHoles(buf.chains[k0..], buf.lwd - k0) && !tmp.Pinned()) ==> buf.Tight()
    ensures buf.freezeStart == old(buf.freezeStart) && buf.freezeEnd == old(buf.freezeEnd)
  {
    hide Seg, Distinct, Flatten, Window, LastWithData, NoHoles, Ready, Detached, EvBuffer.Valid;
    ghost var all, rest, L := buf.chains, [], buf.lwd;
    ReadyIs(buf, tmp, k0);
    var chain, removedTarget, removedOwner;
    chain, removedTarget, removedOwner, k, rest := GatherAt(buf, tmp, from, size, k0);
    Assemble(buf, tmp, chain, removedTarget, removedOwner, k0, k, rest);
    if old(NoHoles(buf.chains[k0..], buf.lwd - k0) && !tmp.Pinned()) {
      HolesPush(tmp, all[k..], if k == |all| then 0 else L - k);
    }
  }

  lemma ReadyInPlace(buf: EvBuffer)
    requires buf.Valid() && buf.lwd > 0
    ensures Ready(buf, buf.chains[0], 1) && buf.chains[0].next == Nth(buf.chains, null, 1)
    ensures buf.chains[0].off + |Flatten(buf.parts[1..])| == buf.totalLen
    ensures buf.first == buf.chains[0] && buf.lwd < |buf.chains| && buf.chains[0].Ok()
  {
    hide Seg, Distinct, Window;
    ghost var cs, parts := buf.chains, buf.parts;
    SegLength(cs, parts, null);
    SegSplit(cs, parts, null, 0);
    SegAt(cs, parts, null, buf.lwd - 1);
    assert parts[..1] == [parts[0]];
    FlattenOne(parts[0]);
    SegNil(null);
  }

  /** The front of a list has gone into one chunk, the old first one or a new one; the rest is as it was. */
  ghost predicate InOne(now: seq<Chain>, w: nat, was: seq<Chain>, w0: nat) {
    && now != [] && was != [] && SuffixOf(now[1..], was)
    && (now[0] in was ==> now[0] == was[0] && |now| <= |was|)
    && if |now| == 1 then w == 0 else w > 0 && w + |was| == w0 + |now|
  }

  lemma InOneIs(now: seq<Chain>, w: nat, was: seq<Chain>, w0: nat, tmp: Chain, k0: nat, k: nat)
    requires k0 <= 1 && k0 <= k <= |was| && was != [] && now == [tmp] + was[k..]
    requires if k0 == 1 then tmp == was[0] else tmp !in was
    requires if k == |was| then w == 0 else k <= w0 && w == w0 - k + 1
    ensures InOne(now, w, was, w0) && now[1..] == was[k..]
  {
    assert now[1..] == was[k..];
  }

  /** The last part of evbuffer_pullup: collect `want` bytes in the first chunk if it has the room
      for them, in a new one otherwise. */
  method Collect(buf: EvBuffer, want: nat) returns (found: bool)
    requires buf.Valid() && buf.first != null && buf.first.off < want <= buf.totalLen && buf.lwd > 0
    modifies buf, buf.chains
    ensures buf.Valid() && buf.Contents() == old(buf.Contents())
    ensures found ==> buf.first != null && buf.first.off == want
    ensures !found <==> old(buf.first.Pinned() && buf.first.Space() < want - buf.first.off)
    ensures found ==> InOne(buf.chains, buf.lwd, old(buf.chains), old(buf.lwd))
    ensures found ==> forall c :: c in buf.chains[1..] ==> EndKept(c)
    ensures !found ==> unchanged(buf) && forall i :: 0 <= i < |buf.chains| ==> unchanged(buf.chains[i])
    ensures Evolves(old(buf.chains), buf.chains)
    ensures old(buf.Tight()) ==> buf.Tight()
    ensures buf.freezeStart == old(buf.freezeStart) && buf.freezeEnd == old(buf.freezeEnd)
  {
    hide Seg, Distinct, Flatten, Window, NoHoles, LastWithData;
    var chain := buf.first;
    SegAt(buf.chains, buf.parts, null, 0);
    if chain.Pinned() && chain.Space() < want - chain.off {
      return false;
    }
    if chain.Pinned() || |chain.mem| - chain.misalign >= want {
      PullHere(buf, want);
    } else {
      PullNew(buf, want);
    }
    return true;
  }

  /** The first chunk has the room: it stays. */
  method PullHere(buf: EvBuffer, want: nat)
    requires buf.Valid() && buf.first != null && buf.first.InBounds() && buf.lwd > 0
    requires buf.first.off < want <= buf.totalLen && want <= |buf.first.mem| - buf.first.misalign
    modifies buf, buf.chains
    ensures buf.Valid() && buf.Contents() == old(buf.Contents())
    ensures buf.first != null && buf.first.off == want
    ensures InOne(buf.chains, buf.lwd, old(buf.chains), old(buf.lwd))
    ensures forall c :: c in buf.chains[1..] ==> EndKept(c)
    ensures Evolves(old(buf.chains), buf.chains)
    ensures old(buf.Tight()) ==> buf.Tight()
    ensures buf.freezeStart == old(buf.freezeStart) && buf.freezeEnd == old(buf.freezeEnd)
  {
    hide Seg, Distinct, Flatten, Window, LastWithData, NoHoles, Detached, Disjoint, Ready, EvBuffer.Valid;
    ghost var cs, w := buf.chains, buf.lwd;
    var chain := buf.first;
    ReadyInPlace(buf);
    if buf.Tight() {
      HolesDrop(cs, w, 1);
      HolesDrop(cs, w, 0);
    }
    ghost var k := PullInto(buf, chain, chain.next, want - chain.off, 1);
    Thirds(cs, k);
    InOneIs(buf.chains, buf.lwd, cs, w, chain, 1, k);
  }

  lemma Thirds(cs: seq<Chain>, k: nat)
    requires 1 <= k <= |cs|
    ensures forall c :: c in cs ==> c in [cs[0]] + cs[k..] || c in cs[1..k]
    ensures forall c :: c in [cs[0]] + cs[k..] ==> c in cs
  {
    assert cs == [cs[0]] + cs[1..k] + cs[k..];
  }

  lemma NewAndRest(c: Chain, cs: seq<Chain>, k: nat)
    requires k <= |cs|
    ensures forall d :: d in cs ==> d in [c] + cs[k..] || d in cs[0..k]
    ensures forall d :: d in [c] + cs[k..] ==> d in cs || d == c
  {
    assert cs == cs[0..k] + cs[k..];
  }

  lemma ReadyLinks(buf: EvBuffer)
    requires buf.Valid() && buf.lwd > 0
    ensures Seg(buf.chains, buf.parts, null) && |buf.parts| == |buf.chains| && buf.totalLen == |Flatten(buf.parts)|
    ensures buf.first == Nth(buf.chains, null, 0) && Distinct(buf.chains)
    ensures 0 < buf.lwd < |buf.chains| && buf.lwdp == buf.chains[buf.lwd - 1] && buf.lwdp.next == buf.chains[buf.lwd]
    ensures LastWithData(buf.chains, buf.lwd) && buf.last == buf.chains[|buf.chains| - 1]
    ensures NoHoles(buf.chains[0..], buf.lwd) == NoHoles(buf.chains, buf.lwd)
  {
    hide Flatten, Window, LastWithData, NoHoles;
    SegAt(buf.chains, buf.parts, null, buf.lwd - 1);
    Empties(buf.chains);
  }

  lemma ReadyNew(buf: EvBuffer, tmp: Chain)
    requires Seg(buf.chains, buf.parts, null) && |buf.parts| == |buf.chains| && buf.totalLen == |Flatten(buf.parts)|
    requires 0 < buf.lwd < |buf.chains| && buf.lwdp == buf.chains[buf.lwd - 1] && buf.lwdp.next == buf.chains[buf.lwd]
    requires LastWithData(buf.chains, buf.lwd) && buf.last == buf.chains[|buf.chains| - 1]
    requires buf.first == tmp && tmp.Ok() && tmp.Data() == [] && tmp !in buf.chains && Distinct(buf.chains)
    ensures Ready(buf, tmp, 0)
  {
    hide Seg, Distinct, Window, LastWithData;
    Empties(buf.chains);
    Empties(buf.parts);
  }

  /** A new first chunk takes the bytes. */
  method PullNew(buf: EvBuffer, want: nat)
    requires buf.Valid() && 0 < want <= buf.totalLen && buf.lwd > 0
    modifies buf, buf.chains
    ensures buf.Valid() && buf.Contents() == old(buf.Contents())
    ensures buf.first != null && buf.first.off == want
    ensures InOne(buf.chains, buf.lwd, old(buf.chains), old(buf.lwd))
    ensures forall c :: c in buf.chains[1..] ==> EndKept(c)
    ensures Evolves(old(buf.chains), buf.chains)
    ensures old(buf.Tight()) ==> buf.Tight()
    ensures buf.freezeStart == old(buf.freezeStart) && buf.freezeEnd == old(buf.freezeEnd)
  {
    hide Seg, Distinct, Flatten, Window, LastWithData, NoHoles, Detached, Ready, InOne, EvBuffer.Valid;
    ghost var cs, w := buf.chains, buf.lwd;
    Empties(cs);
    Empties(buf.parts);
    ReadyLinks(buf);
    var chain := buf.first;
    var tmp := new Chain(want);
    buf.first := tmp;
    ReadyNew(buf, tmp);
    ghost var k := PullInto(buf, tmp, chain, want, 0);
    NewAndRest(tmp, cs, k);
    InOneIs(buf.chains, buf.lwd, cs, w, tmp, 0, k);
  }

  /** The loop that looks for pinned chunks among those that hold the next `size` bytes. */
  method AnyPinned(buf: EvBuffer, size: nat) returns (pinned: bool)
    requires buf.Valid() && buf.chains != []
    ensures pinned <==> PinAhead(buf.chains[1..], size)
  {
    hide Seg, Distinct, Flatten, Window, PinAhead;
    SegAt(buf.chains, buf.parts, null, 0);
    var tmp, remaining: nat := buf.first.next, size;
    ghost var k := 1;
    while tmp != null
      invariant 1 <= k <= |buf.chains| && tmp == Nth(buf.chains, null, k)
      invariant PinAhead(buf.chains[1..], size) <==> PinAhead(buf.chains[k..], remaining)
      decreases |buf.chains| - k
    {
      SegAt(buf.chains, buf.parts, null, k);
      PinStep(buf.chains, k, remaining);
      if tmp.Pinned() {
        return true;
      }
      if tmp.off >= remaining {
        return false;
      }
      remaining := remaining - tmp.off;
      tmp, k := tmp.next, k + 1;
    }
    PinEnd(buf.chains, k, remaining);
    return false;
  }

  /** One of the chunks that hold the next `n` bytes is pinned. */
  ghost predicate PinAhead(cs: seq<Chain>, n: nat)
    reads cs`off, cs`pinnedR, cs`pinnedW
  {
    cs != [] && (cs[0].Pinned() || (cs[0].off < n && PinAhead(cs[1..], n - cs[0].off)))
  }

  lemma PinStep(cs: seq<Chain>, k: nat, n: nat)
    requires k < |cs|
    ensures PinAhead(cs[k..], n) <==> cs[k].Pinned() || (cs[k].off < n && PinAhead(cs[k + 1..], n - cs[k].off))
  {
    assert cs[k..][1..] == cs[k + 1..];
  }

  lemma PinEnd(cs: seq<Chain>, k: nat, n: nat)
    requires k == |cs|
    ensures !PinAhead(cs[k..], n)
  {
  }

  lemma {:induction false} NoPinAhead(cs: seq<Chain>, n: nat)
    requires forall c :: c in cs ==> !c.Pinned()
    ensures !PinAhead(cs, n)
    decreases |cs|
  {
    if cs != [] && cs[0].off < n {
      NoPinAhead(cs[1..], n - cs[0].off);
    }
  }

  /** When evbuffer_pullup succeeds, if there is anything to do: no chunk that it would copy from is
      pinned, nor is the first one unless it has room for the rest. */
  ghost predicate CanPull(buf: EvBuffer, want: nat)
    requires buf.Structure() && buf.chains != []
    reads buf, buf.chains
  {
    var c := buf.chains[0];
    want <= c.off
    || (!PinAhead(buf.chains[1..], want - c.off) && (c.Pinned() ==> |c.mem| - (c.misalign + c.off) >= want - c.off))
  }

  /** Without pins it does. */
  lemma UnpinnedPulls(buf: EvBuffer, want: nat)
    requires buf.Structure() && buf.chains != [] && forall c :: c in buf.chains ==> !c.Pinned()
    ensures CanPull(buf, want)
  {
    hide Seg, Flatten;
    if buf.chains[0].off < want {
      NoPinAhead(buf.chains[1..], want - buf.chains[0].off);
    }
  }

  /** evbuffer_pullup. The result says whether the caller gets a pointer; it is then the start of
      the first chunk's data. */
  method Pullup(buf: EvBuffer, size: int) returns (found: bool)
    requires buf.Valid()
    modifies buf, buf.chains
    ensures buf.Valid() && buf.Contents() == old(buf.Contents())
    ensures var want := if size < 0 then old(buf.totalLen) else size;
            && (found ==> 0 < want <= buf.totalLen && buf.first != null && want <= buf.first.off
                          && buf.first.Data()[..want] == buf.Contents()[..want])
            && (found <==> 0 < want <= old(buf.totalLen) && old(buf.chains != [] && CanPull(buf, want)))
    ensures var want := if size < 0 then old(buf.totalLen) else size;
            if found && old(buf.first != null && buf.first.off < want)
            then buf.first.off == want && InOne(buf.chains, buf.lwd, old(buf.chains), old(buf.lwd))
                 && forall c :: c in buf.chains[1..] ==> EndKept(c)
            else unchanged(buf) && forall i :: 0 <= i < |buf.chains| ==> unchanged(buf.chains[i])
    ensures Evolves(old(buf.chains), buf.chains)
    ensures old(buf.Tight()) ==> buf.Tight()
    ensures buf.freezeStart == old(buf.freezeStart) && buf.freezeEnd == old(buf.freezeEnd)
  {
    hide Seg, Distinct, Flatten, Window, LastWithData, NoHoles, Detached, PinAhead, EvBuffer.Tight, EvBuffer.Valid;
    LengthIs(buf);
    var want := if size < 0 then buf.totalLen else size;
    if want == 0 || want > buf.totalLen {
      return false;
    }
    FirstHolds(buf);
    var chain := buf.first;
    if chain.off >= want {
      return true;
    }
    var pinned := AnyPinned(buf, want - chain.off);
    if pinned {
      return false;
    }
    found := Collect(buf, want);
    LengthIs(buf);
    if found {
      FirstHolds(buf);
    }
  }

  lemma FirstHolds(buf: EvBuffer)
    requires buf.Valid() && buf.totalLen > 0
    ensures buf.first != null && buf.first.Ok() && |buf.first.Data()| == buf.first.off
    ensures buf.first.off <= buf.totalLen && buf.first.Data() <= buf.Contents()
    ensures buf.first.off < buf.totalLen ==> buf.lwd > 0
    ensures buf.chains != [] && buf.first == buf.chains[0] && buf.Structure()
  {
    hide Seg, Window;
    SegNil(null);
    SegSplit(buf.chains, buf.parts, null, 0);
    if buf.lwd == 0 {
      SegEmpty(buf.chains[1..], buf.parts[1..], null);
    }
  }
}

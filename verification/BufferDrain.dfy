/** Taking bytes from the front of an evbuffer. */
module BufferDrain {
  import opened Common
  import opened Flat
  import opened Chains
  import opened EvBuffers

  function Min(a: nat, b: nat): nat {
    if a < b then a else b
  }

  /** evbuffer_drain. A pending write has frozen the start; a pending read keeps its chunks. */
  method Drain(buf: EvBuffer, len: nat) returns (ok: bool)
    requires buf.Valid() && buf.PinsOk()
    modifies buf, buf.chains`misalign, buf.chains`off, buf.chains`dangling, buf.chains`released
    ensures ok == !(old(buf.freezeStart) && old(buf.totalLen) > 0)
    ensures buf.Valid() && buf.PinsOk()
    ensures buf.Contents() == if ok then old(buf.Contents())[Min(len, old(buf.totalLen))..] else old(buf.Contents())
    ensures Evolves(old(buf.chains), buf.chains) && SuffixOf(buf.chains, old(buf.chains))
    ensures forall c :: c in buf.chains ==> c in old(buf.chains) && EndKept(c)
    ensures forall c :: c in old(buf.chains) && old(c.pinnedR) ==> c in buf.chains
    ensures old(buf.Tight()) ==> buf.Tight()
    ensures buf.freezeStart == old(buf.freezeStart) && buf.freezeEnd == old(buf.freezeEnd)
  {
    hide Seg, Distinct, Flatten, Window, LastWithData, PinsBehind, NoHoles;
    if buf.totalLen == 0 {
      return true;
    }
    if buf.freezeStart {
      return false;
    }
    if len >= buf.totalLen && !buf.HasPinnedR() {
      NoPins(buf);
      FreeAll(buf.first, buf.chains, buf.parts);
      SegNil(null);
      EmptyListOk();
      buf.first, buf.last, buf.lwdp, buf.totalLen := null, null, null, 0;
      buf.chains, buf.parts, buf.lwd := [], [], 0;
    } else {
      var n := if len >= buf.totalLen then buf.totalLen else len;
      DrainSome(buf, n);
    }
    return true;
  }

  /** Drains `n` bytes when that leaves data, or leaves the chunks of a pending read. */
  method DrainSome(buf: EvBuffer, n: nat)
    requires buf.Valid() && buf.PinsOk()
    requires n < buf.totalLen || (n == buf.totalLen && buf.HasPinnedR())
    modifies buf, buf.chains`misalign, buf.chains`off, buf.chains`dangling, buf.chains`released
    ensures buf.Valid() && buf.PinsOk()
    ensures buf.Contents() == old(buf.Contents())[n..]
    ensures Evolves(old(buf.chains), buf.chains) && SuffixOf(buf.chains, old(buf.chains))
    ensures forall c :: c in buf.chains ==> c in old(buf.chains) && EndKept(c)
    ensures forall c :: c in old(buf.chains) && old(c.pinnedR) ==> c in buf.chains
    ensures old(buf.Tight()) ==> buf.Tight()
    ensures buf.freezeStart == old(buf.freezeStart) && buf.freezeEnd == old(buf.freezeEnd)
  {
    hide Seg, Distinct, Flatten, Window, LastWithData, PinsBehind, NoHoles;
    ghost var cs := buf.chains;
    var chain, remaining; ghost var k;
    chain, remaining, k := FindFront(buf, n);
    Rebase(buf, n, chain, remaining, k);
    Halves(cs, k);
  }

  /** SkipChunks, and what it says about the chunks that are left. */
  method FindFront(buf: EvBuffer, n: nat) returns (chain: Chain, remaining: nat, ghost k: nat)
    requires buf.Valid() && buf.PinsOk()
    requires n < buf.totalLen || (n == buf.totalLen && buf.HasPinnedR())
    modifies buf`lwdp, buf.chains`dangling, buf.chains`released
    ensures k < |buf.chains| && chain == buf.chains[k] && buf.lwd < |buf.chains|
    ensures Seg(buf.chains[k..], buf.parts[k..], null)
    ensures remaining == n - |Flatten(buf.parts[..k])| && remaining <= chain.off
    ensures forall c :: c in buf.chains[..k] ==> Detached(c) && !c.pinnedR
    ensures LastWithData(buf.chains[k..], Minus(buf.lwd, k)) && PinsBehind(buf.chains[k..], Minus(buf.lwd, k))
    ensures buf.lwdp == if buf.lwd <= k then null else buf.chains[buf.lwd - 1]
    ensures old(buf.Tight()) ==> NoHoles(buf.chains[k..], Minus(buf.lwd, k)) && remaining < chain.off
  {
    hide Seg, Distinct, Flatten, Window, LastWithData, PinsBehind, NoHoles;
    chain, remaining, k := SkipTight(buf, n);
    DropFront(buf.chains, buf.lwd, k);
    if old(buf.Tight()) {
      HolesDrop(buf.chains, buf.lwd, k);
    }
  }

  method SkipTight(buf: EvBuffer, n: nat) returns (chain: Chain, remaining: nat, ghost k: nat)
    requires buf.Valid() && buf.PinsOk()
    requires n < buf.totalLen || (n == buf.totalLen && buf.HasPinnedR())
    modifies buf`lwdp, buf.chains`dangling, buf.chains`released
    ensures k < |buf.chains| && chain == buf.chains[k] && Seg(buf.chains[k..], buf.parts[k..], null)
    ensures remaining == n - |Flatten(buf.parts[..k])| && remaining <= chain.off
    ensures !chain.pinnedR ==> remaining < chain.off
    ensures forall c :: c in buf.chains[..k] ==> Detached(c) && !c.pinnedR
    ensures buf.LwdOk() && buf.PinsOk() && (k > buf.lwd ==> buf.HasPinnedR())
    ensures buf.lwdp == if buf.lwd <= k then null else buf.chains[buf.lwd - 1]
    ensures old(buf.Tight()) ==> buf.Tight()
  {
    hide Seg, Distinct, Flatten, Window, LastWithData, PinsBehind;
    chain, remaining, k := SkipChunks(buf, n);
  }

  /** Makes chunk `k` the first, less its first `remaining` bytes. */
  method Rebase(buf: EvBuffer, n: nat, chain: Chain, remaining: nat, ghost k: nat)
    requires k < |buf.chains| == |buf.parts| && chain == buf.chains[k] && buf.lwd < |buf.chains|
    requires Seg(buf.chains[k..], buf.parts[k..], null) && buf.last == buf.chains[|buf.chains| - 1]
    requires LastWithData(buf.chains[k..], Minus(buf.lwd, k)) && PinsBehind(buf.chains[k..], Minus(buf.lwd, k))
    requires buf.lwdp == if buf.lwd <= k then null else buf.chains[buf.lwd - 1]
    requires n <= buf.totalLen == |buf.Contents()|
    requires n == |Flatten(buf.parts[..k])| + remaining && remaining <= chain.off
    modifies buf`first, buf`totalLen, buf`chains, buf`parts, buf`lwd, chain`misalign, chain`off
    ensures buf.Valid() && buf.PinsOk() && buf.chains == old(buf.chains)[k..]
    ensures buf.Contents() == old(buf.Contents())[n..] && EndKept(chain)
    ensures old(NoHoles(buf.chains[k..], Minus(buf.lwd, k)) && remaining < chain.off) ==> buf.Tight()
  {
    hide Seg, Distinct, Flatten, Window, LastWithData, PinsBehind, NoHoles;
    ghost var cs, parts, w := buf.chains[k..], buf.parts[k..], Minus(buf.lwd, k);
    FirstPart(cs, parts, null);
    FlattenDrop(buf.parts, k, remaining);
    buf.totalLen := buf.totalLen - n;
    buf.first := chain;
    TrimKeeping(chain, remaining, cs, parts, w);
    buf.chains, buf.parts, buf.lwd := cs, [parts[0][remaining..]] + parts[1..], w;
  }

  /** Taking bytes from the first chunk does not matter for where the last data is. */
  method TrimKeeping(c: Chain, n: nat, ghost cs: seq<Chain>, ghost parts: seq<seq<byte>>, ghost w: nat)
    requires Seg(cs, parts, null) && cs != [] && cs[0] == c && n <= c.off
    requires LastWithData(cs, w) && PinsBehind(cs, w)
    modifies c`misalign, c`off
    ensures |parts| == |cs| && n <= |parts[0]| && Seg(cs, [parts[0][n..]] + parts[1..], null)
    ensures Flatten([parts[0][n..]] + parts[1..]) == Flatten(parts)[n..]
    ensures c.off == old(c.off) - n && c.misalign == old(c.misalign) + n
    ensures LastWithData(cs, w) && PinsBehind(cs, w)
    ensures old(NoHoles(cs, w) && n < c.off) ==> NoHoles(cs, w)
  {
    hide Seg, Distinct, Flatten, Window;
    TrimFront(c, n, cs, parts);
  }

  lemma FirstPart(cs: seq<Chain>, parts: seq<seq<byte>>, tail: Chain?)
    requires Seg(cs, parts, tail) && cs != []
    ensures |parts| == |cs| && |parts[0]| == cs[0].off <= |Flatten(parts)|
  {
    SegSplit(cs, parts, tail, 0);
  }

  /** `lwdp` goes back to `&first` when the chunk that it points into is about to go. */
  method StepPointer(buf: EvBuffer, chain: Chain, ghost k: nat)
    requires k < |buf.chains| && chain == buf.chains[k] && buf.first == buf.chains[0]
    requires buf.lwd < |buf.chains| && (k < buf.lwd ==> chain != buf.chains[buf.lwd])
    requires k + 1 < buf.lwd ==> chain != buf.chains[buf.lwd - 1]
    requires buf.lwdp == if buf.lwd <= k then null else buf.chains[buf.lwd - 1]
    requires buf.lwd > k ==> buf.chains[buf.lwd - 1].next == buf.chains[buf.lwd]
    modifies buf`lwdp
    ensures buf.lwdp == if buf.lwd <= k + 1 then null else buf.chains[buf.lwd - 1]
  {
    if chain == buf.At(buf.lwdp) {
      buf.lwdp := null;
    }
    if chain == buf.lwdp {
      buf.lwdp := null;
    }
  }

  lemma Pointers(cs: seq<Chain>, parts: seq<seq<byte>>, k: nat, w: nat)
    requires k < w < |cs| && k <= |parts| && Seg(cs[k..], parts[k..], null)
    ensures cs[w - 1].next == cs[w] && cs[k] != cs[w] && (k + 1 < w ==> cs[k] != cs[w - 1])
  {
    SegAt(cs[k..], parts[k..], null, w - 1 - k);
    assert cs[k..][w - k] == cs[w] && cs[k..][w - 1 - k] == cs[w - 1];
  }

  /** Frees chunk `k`, the first one left, and goes on to the next. */
  method DropChunk(buf: EvBuffer, chain: Chain, ghost k: nat) returns (next: Chain?)
    requires k < |buf.chains| == |buf.parts| && chain == buf.chains[k] && buf.lwd < |buf.chains|
    requires Seg(buf.chains[k..], buf.parts[k..], null) && buf.first == buf.chains[0]
    requires buf.lwdp == if buf.lwd <= k then null else buf.chains[buf.lwd - 1]
    modifies buf`lwdp, chain`dangling, chain`released
    ensures Seg(buf.chains[k + 1..], buf.parts[k + 1..], null) && next == Nth(buf.chains, null, k + 1)
    ensures Detached(chain) && chain.off == |buf.parts[k]|
    ensures buf.lwdp == if buf.lwd <= k + 1 then null else buf.chains[buf.lwd - 1]
  {
    hide Seg, Distinct, Flatten, Window;
    ghost var cs, parts := buf.chains, buf.parts;
    SegSplit(cs[k..], parts[k..], null, 0);
    assert cs[k..][1..] == cs[k + 1..] && parts[k..][1..] == parts[k + 1..];
    if buf.lwd > k {
      Pointers(cs, parts, k, buf.lwd);
    }
    StepPointer(buf, chain, k);
    next := chain.next;
    chain.Free();
  }

  /** Once every chunk up to the last one with data is gone, so are all bytes. */
  lemma AllTaken(cs: seq<Chain>, parts: seq<seq<byte>>, w: nat, k: nat)
    requires w <= k < |cs| == |parts| && Seg(cs[k..], parts[k..], null) && LastWithData(cs, w)
    ensures |Flatten(parts[..k])| + cs[k].off == |Flatten(parts)|
  {
    hide Seg, Flatten, Window;
    SegSplit(cs[k..], parts[k..], null, 0);
    SegEmpty(cs[k..][1..], parts[k..][1..], null);
    FlattenSplit(parts, k);
    assert parts[k..][1..] == parts[k + 1..];
  }

  /** The loop of evbuffer_drain: frees every chunk that goes entirely, and finds the chunk where
      the new contents start; that is where a pending read starts at the latest. */
  method SkipChunks(buf: EvBuffer, n: nat) returns (chain: Chain, remaining: nat, ghost k: nat)
    requires buf.Valid() && buf.PinsOk()
    requires n < buf.totalLen || (n == buf.totalLen && buf.HasPinnedR())
    modifies buf`lwdp, buf.chains`dangling, buf.chains`released
    ensures k < |buf.chains| && chain == buf.chains[k]
    ensures Seg(buf.chains[k..], buf.parts[k..], null)
    ensures remaining == n - |Flatten(buf.parts[..k])| && remaining <= chain.off
    ensures !chain.pinnedR ==> remaining < chain.off
    ensures forall c :: c in buf.chains[..k] ==> Detached(c) && !c.pinnedR
    ensures buf.LwdOk() && buf.PinsOk() && (k > buf.lwd ==> buf.HasPinnedR())
    ensures buf.lwdp == if buf.lwd <= k then null else buf.chains[buf.lwd - 1]
  {
    hide Seg, Distinct, Flatten, Window;
    ghost var cs, parts, L := buf.chains, buf.parts, buf.lwd;
    SegNil(null);
    assert cs != [];
    chain, remaining, k := buf.first, n, 0;
    assert cs[0..] == cs && parts[0..] == parts && parts[..0] == [] && parts[..|cs|] == parts;
    while remaining >= chain.off && !chain.pinnedR
      invariant 0 <= k < |cs| && chain == cs[k]
      invariant Seg(cs[k..], parts[k..], null)
      invariant remaining == n - |Flatten(parts[..k])|
      invariant forall i :: 0 <= i < k ==> Detached(cs[i]) && !cs[i].pinnedR
      invariant k > L ==> cs[k].pinnedR && buf.HasPinnedR() && n == |Flatten(parts)|
      invariant buf.lwdp == if L <= k then null else cs[L - 1]
      invariant LastWithData(cs, L)
      decreases |cs| - k
    {
      if k >= L {
        AllTaken(cs, parts, L, k);
      }
      FlattenSplit(parts, k);
      var next := DropChunk(buf, chain, k);
      remaining := remaining - chain.off;
      chain, k := next, k + 1;
    }
    if chain.pinnedR && remaining >= chain.off {
      // Every byte has been asked for, and this chunk holds the last of them.
      AllTaken(cs, parts, L, k);
      assert remaining == chain.off;
      StepPointer(buf, chain, k);
    }
  }

  /** memcpy of the first `count` bytes of a chunk into the caller's memory. */
  method CopyTo(out: array<byte>, pos: nat, chain: Chain, count: nat)
    requires chain.InBounds() && count <= chain.off && pos + count <= out.Length
    modifies out
    ensures out[..pos + count] == old(out[..pos]) + chain.Data()[..count]
    ensures out[pos + count..] == old(out[pos + count..])
  {
    forall i | 0 <= i < count {
      out[pos + i] := chain.mem[chain.misalign + i];
    }
  }

  /** evbuffer_copyout. */
  method Copyout(buf: EvBuffer, out: array<byte>, datlen: nat) returns (n: int)
    requires buf.Structure() && datlen <= out.Length
    modifies out
    ensures var m := Min(datlen, buf.totalLen); n == if m > 0 && buf.freezeStart then -1 else m
    ensures n >= 0 ==> out[..n] == buf.Contents()[..n] && out[n..] == old(out[n..])
    ensures n < 0 ==> out[..] == old(out[..])
  {
    var left := Min(datlen, buf.totalLen);
    if left == 0 {
      return 0;
    }
    if buf.freezeStart {
      return -1;
    }
    n := left;
    CopyChunks(buf, out, n);
  }

  method CopyChunks(buf: EvBuffer, out: array<byte>, n: nat)
    requires buf.Structure() && n <= out.Length && n <= buf.totalLen
    modifies out
    ensures out[..n] == buf.Contents()[..n] && out[n..] == old(out[n..])
  {
    hide Seg, Distinct, Flatten, Window;
    ghost var cs, parts := buf.chains, buf.parts;
    var chain, data, left := buf.first, 0, n;
    ghost var k := 0;
    assert parts[..0] == [] && parts[..|cs|] == parts;
    SegNil(null);
    while left > 0 && left >= chain.off
      invariant 0 <= k <= |cs| && chain == Nth(cs, null, k) && (left > 0 ==> k < |cs|)
      invariant data == |Flatten(parts[..k])| && data + left == n
      invariant data <= n && out[..data] == Flatten(parts[..k]) && out[n..] == old(out[n..])
      invariant data <= |Flatten(parts)| && Flatten(parts)[..data] == Flatten(parts[..k])
      decreases |cs| - k
    {
      SegAt(cs, parts, null, k);
      FlattenSplit(parts, k);
      CopyTo(out, data, chain, chain.off);
      assert chain.Data()[..chain.off] == parts[k];
      data, left := data + chain.off, left - chain.off;
      chain, k := chain.next, k + 1;
    }
    if left > 0 {
      SegAt(cs, parts, null, k);
      FlattenSplit(parts, k);
      assert Flatten(parts)[..n] == Flatten(parts[..k]) + parts[k][..left];
      CopyTo(out, data, chain, left);
    }
  }

  /** evbuffer_remove. */
  method Remove(buf: EvBuffer, out: array<byte>, datlen: nat) returns (n: int)
    requires buf.Valid() && buf.PinsOk() && datlen <= out.Length
    modifies buf, buf.chains, out
    ensures var m := Min(datlen, old(buf.totalLen)); n == if m > 0 && old(buf.freezeStart) then -1 else m
    ensures buf.Valid() && buf.PinsOk() && Evolves(old(buf.chains), buf.chains)
    ensures old(buf.Tight()) ==> buf.Tight()
    ensures n >= 0 ==> old(buf.Contents()) == out[..n] + buf.Contents() && out[n..] == old(out[n..])
    ensures n < 0 ==> buf.Contents() == old(buf.Contents()) && out[..] == old(out[..])
    ensures buf.freezeStart == old(buf.freezeStart) && buf.freezeEnd == old(buf.freezeEnd)
  {
    hide Seg, Distinct, Flatten, Window;
    n := Copyout(buf, out, datlen);
    if n > 0 {
      var ok := Drain(buf, n);
      if !ok {
        n := -1;
      }
    }
  }
}

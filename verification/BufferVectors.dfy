/** Reserving space at the end of an evbuffer in several pieces, and committing what was written
    there. */
module BufferVectors {
  import opened Common
  import opened Flat
  import opened Chains
  import opened EvBuffers
  import opened BufferAdd
  import opened BufferReserve

  /** The free bytes behind the data of a chunk. */
  ghost function Room(c: Chain): (r: nat)
    reads c`misalign, c`off, c`mem
  {
    if c.misalign + c.off <= |c.mem| then |c.mem| - (c.misalign + c.off) else 0
  }

  ghost function RoomSum(cs: seq<Chain>): (r: nat)
    reads cs`misalign, cs`off, cs`mem
  {
    if cs == [] then 0 else RoomSum(cs[..|cs| - 1]) + Room(cs[|cs| - 1])
  }

  lemma {:induction false} RoomSnoc(cs: seq<Chain>, f: nat, i: nat)
    requires f <= i < |cs|
    ensures RoomSum(cs[f..i + 1]) == RoomSum(cs[f..i]) + Room(cs[i])
  {
    assert cs[f..i + 1][..i - f] == cs[f..i];
  }

  lemma RoomNone(cs: seq<Chain>, f: nat)
    requires f <= |cs|
    ensures RoomSum(cs[f..f]) == 0
  {
  }

  /** The memory of all chunks together. */
  ghost function MemSum(cs: seq<Chain>): (r: nat)
    reads cs`mem
  {
    if cs == [] then 0 else MemSum(cs[..|cs| - 1]) + |cs[|cs| - 1].mem|
  }

  lemma {:induction false} RoomBelowMem(cs: seq<Chain>, f: nat, j: nat)
    requires f <= j <= |cs|
    ensures RoomSum(cs[f..j]) <= MemSum(cs)
    decreases |cs|
  {
    if f == j {
      RoomNone(cs, f);
    } else if j < |cs| {
      RoomBelowMem(cs[..|cs| - 1], f, j);
      assert cs[..|cs| - 1][f..j] == cs[f..j];
    } else {
      RoomBelowMem(cs[..j - 1], f, j - 1);
      assert cs[..j - 1][f..j - 1] == cs[f..j - 1];
      RoomSnoc(cs, f, j - 1);
    }
  }

  /** The bytes that each chunk can take, an empty one once it is reopened. */
  ghost function Sizes(cs: seq<Chain>): (sizes: seq<nat>)
    reads cs`misalign, cs`off, cs`mem
    ensures |sizes| == |cs|
    ensures forall i :: 0 <= i < |cs| ==> sizes[i] == (if cs[i].off == 0 then |cs[i].mem| else Room(cs[i]))
  {
    if cs == [] then []
    else
      var c := cs[|cs| - 1];
      Sizes(cs[..|cs| - 1]) + [if c.off == 0 then |c.mem| else Room(c)]
  }

  lemma SumSlice(s: seq<nat>, a: nat, b: nat)
    requires a <= b < |s|
    ensures Sum(s[a..b + 1]) == Sum(s[a..b]) + s[b]
  {
    assert s[a..b + 1][..b - a] == s[a..b];
  }

  lemma {:induction false} SumMono(s: seq<nat>, a: nat, b: nat, c: nat)
    requires a <= b <= c <= |s|
    ensures Sum(s[a..b]) <= Sum(s[a..c])
    decreases c
  {
    if b < c {
      SumMono(s, a, b, c - 1);
      SumSlice(s, a, c - 1);
    }
  }

  lemma {:induction false} RoomMono(cs: seq<Chain>, a: nat, b: nat, c: nat)
    requires a <= b <= c <= |cs|
    ensures RoomSum(cs[a..b]) <= RoomSum(cs[a..c])
    decreases c
  {
    if b < c {
      RoomMono(cs, a, b, c - 1);
      RoomSnoc(cs, a, c - 1);
    }
  }

  lemma RoomBelow(cs: seq<Chain>, i: nat)
    requires i < |cs|
    ensures Room(cs[i]) <= Sizes(cs)[i]
  {
    hide Sizes;
  }

  lemma SumNone(s: seq<nat>, a: nat)
    requires a <= |s|
    ensures Sum(s[a..a]) == 0
  {
  }

  /** Chunks that are open have as much room as they can have. */
  lemma {:induction false} RoomIsSum(cs: seq<Chain>, a: nat, b: nat)
    requires a <= b <= |cs|
    ensures RoomSum(cs[a..b]) <= Sum(Sizes(cs)[a..b])
    ensures (forall j :: a <= j < b ==> Room(cs[j]) == Sizes(cs)[j]) ==> RoomSum(cs[a..b]) == Sum(Sizes(cs)[a..b])
    decreases b
  {
    hide RoomSum, Sizes, Sum, Room;
    if a == b {
      RoomNone(cs, a);
      SumNone(Sizes(cs), a);
    } else {
      RoomBelow(cs, b - 1);
      RoomIsSum(cs, a, b - 1);
      RoomSnoc(cs, a, b - 1);
      SumSlice(Sizes(cs), a, b - 1);
    }
  }

  /** The first chunk that can take more bytes, among chunks of these sizes. */
  function FirstOf(sizes: seq<nat>, w: nat): (f: nat) {
    if w < |sizes| && sizes[w] == 0 then w + 1 else w
  }

  /** Do `m` chunks from there on take `datlen` bytes? */
  predicate Enough(sizes: seq<nat>, w: nat, m: nat, datlen: nat) {
    var f := FirstOf(sizes, w);
    f + m <= |sizes| && Sum(sizes[f..f + m]) >= datlen
  }

  /** Chunks of these sizes, no more than `n` of them, take `datlen` bytes. */
  ghost predicate AmpleOf(sizes: seq<nat>, w: nat, datlen: nat, n: nat) {
    sizes != [] && exists m: nat :: m <= n && Enough(sizes, w, m, datlen)
  }

  ghost predicate Ample(buf: EvBuffer, datlen: nat, n: nat)
    reads buf`chains, buf`lwd, buf.chains`misalign, buf.chains`off, buf.chains`mem
  {
    AmpleOf(Sizes(buf.chains), buf.lwd, datlen, n)
  }

  /** As many chunks are open as are needed for `datlen` bytes. */
  ghost predicate Opened(buf: EvBuffer, datlen: nat, n: nat)
    reads buf`chains, buf`lwd, buf.chains`misalign, buf.chains`off, buf.chains`mem
  {
    var f := FirstRoom(buf);
    && f == FirstOf(Sizes(buf.chains), buf.lwd)
    && forall m: nat :: m <= n && Enough(Sizes(buf.chains), buf.lwd, m, datlen) ==> RoomSum(buf.chains[f..f + m]) >= datlen
  }

  /** Without the last chunk there is not room for `datlen` bytes. */
  ghost predicate LastNeeded(buf: EvBuffer, datlen: nat)
    reads buf`chains, buf`lwd, buf.chains`misalign, buf.chains`off, buf.chains`mem
  {
    var f := FirstRoom(buf);
    f < |buf.chains| && (datlen > 0 ==> RoomSum(buf.chains[f..|buf.chains| - 1]) < datlen)
  }

  /** The first chunk that can take more bytes, `w` being the last one with data. */
  ghost function FirstRoomOf(cs: seq<Chain>, w: nat): (f: nat)
    reads cs`misalign, cs`off, cs`mem
  {
    if w < |cs| && Room(cs[w]) == 0 then w + 1 else w
  }

  ghost function FirstRoom(buf: EvBuffer): (f: nat)
    reads buf`chains, buf`lwd, buf.chains`misalign, buf.chains`off, buf.chains`mem
  {
    FirstRoomOf(buf.chains, buf.lwd)
  }

  /** All chunks from `f` up to `j` have room. */
  ghost predicate Roomy(cs: seq<Chain>, f: nat, j: nat)
    reads cs`misalign, cs`off, cs`mem
  {
    forall i :: f <= i < j && i < |cs| ==> Room(cs[i]) > 0
  }

  lemma RoomyNone(cs: seq<Chain>, f: nat)
    ensures Roomy(cs, f, f)
  {
  }

  lemma RoomySnoc(cs: seq<Chain>, f: nat, i: nat)
    requires i < |cs| && Roomy(cs, f, i) && Room(cs[i]) > 0
    ensures Roomy(cs, f, i + 1)
  {
  }

  ghost predicate Takes(cs: seq<Chain>, f: nat, m: nat, datlen: nat)
    reads cs`misalign, cs`off, cs`mem
  {
    && f + m <= |cs| && RoomSum(cs[f..f + m]) >= datlen
    && Roomy(cs, f, f + m)
  }

  /** At most the first `n` chunks with room take `datlen` bytes. */
  ghost predicate Offers(buf: EvBuffer, datlen: nat, n: nat)
    reads buf`chains, buf`lwd, buf.chains`misalign, buf.chains`off, buf.chains`mem
  {
    exists m: nat :: m <= n && Takes(buf.chains, FirstRoom(buf), m, datlen)
  }

  /** Resets the start of an empty chunk. */
  method Reopen(buf: EvBuffer, c: Chain, ghost i: nat)
    requires buf.Valid() && i < |buf.chains| && c == buf.chains[i] && c.off == 0
    modifies c`misalign
    ensures buf.Valid() && c.misalign == 0 && Room(c) == |c.mem| > 0
    ensures forall j :: 0 <= j < |buf.chains| && j != i ==> buf.chains[j] != c
  {
    hide Flatten;
    assert old(c.Data()) == [];
    c.misalign := 0;
    assert c.Data() == [];
  }

  lemma ReopenRoom(cs: seq<Chain>, c: Chain, f: nat, i: nat)
    requires Distinct(cs) && f <= i < |cs| && cs[i] == c
    ensures c !in cs[f..i]
  {
  }

  /** How much room chunk `i` has, once it is reopened if it is empty. */
  method CountChunk(buf: EvBuffer, chain: Chain, ghost i: nat) returns (room: nat)
    requires buf.Valid() && buf.lwd <= i < |buf.chains| && chain == buf.chains[i]
    modifies chain`misalign
    ensures buf.Valid() && room == Room(chain) && (room == 0 ==> i == buf.lwd)
    ensures chain.off == 0 ==> room == |chain.mem|
    ensures forall j :: 0 <= j < |buf.chains| && j != i ==> buf.chains[j] != chain
    ensures chain.misalign == old(chain.misalign) || (chain.off == 0 && chain.misalign == 0)
    ensures buf.lwd < i ==> FirstRoom(buf) == old(FirstRoom(buf))
    ensures buf.lwd < i && FirstRoom(buf) <= i
            ==> RoomSum(buf.chains[FirstRoom(buf)..i]) == old(RoomSum(buf.chains[FirstRoom(buf)..i]))
                && (old(Roomy(buf.chains, FirstRoom(buf), i)) ==> Roomy(buf.chains, FirstRoom(buf), i))
  {
    hide Seg, Flatten, Window, LastWithData;
    SegAt(buf.chains, buf.parts, null, i);
    SegLength(buf.chains, buf.parts, null);
    OthersApart(buf.chains, i);
    if chain.off > 0 {
      DataIsTarget(buf, i);
      return chain.Space();
    }
    if FirstRoom(buf) <= i {
      ReopenRoom(buf.chains, chain, FirstRoom(buf), i);
    }
    Reopen(buf, chain, i);
    return |chain.mem|;
  }

  /** The same with what chunks of these sizes can take: that does not change. */
  method CountSized(buf: EvBuffer, chain: Chain, ghost i: nat) returns (room: nat)
    requires buf.Valid() && buf.lwd <= i < |buf.chains| && chain == buf.chains[i]
    modifies chain`misalign
    ensures buf.Valid() && room == Room(chain) && (room == 0 ==> i == buf.lwd)
    ensures chain.misalign == old(chain.misalign) || (chain.off == 0 && chain.misalign == 0)
    ensures buf.lwd < i ==> FirstRoom(buf) == old(FirstRoom(buf))
    ensures buf.lwd < i && FirstRoom(buf) <= i
            ==> RoomSum(buf.chains[FirstRoom(buf)..i]) == old(RoomSum(buf.chains[FirstRoom(buf)..i]))
                && (old(Roomy(buf.chains, FirstRoom(buf), i)) ==> Roomy(buf.chains, FirstRoom(buf), i))
    ensures room == Sizes(buf.chains)[i] && Sizes(buf.chains) == old(Sizes(buf.chains))
    ensures forall j :: 0 <= j < |buf.chains| && j != i ==> Room(buf.chains[j]) == old(Room(buf.chains[j]))
  {
    hide Seg, Distinct, Flatten, RoomSum, Roomy, FirstRoom, Sizes, EvBuffer.Valid;
    ghost var sizes := Sizes(buf.chains);
    room := CountChunk(buf, chain, i);
    SameSizes(sizes, Sizes(buf.chains));
  }

  lemma SameSizes(a: seq<nat>, b: seq<nat>)
    requires |a| == |b| && forall i :: 0 <= i < |a| ==> a[i] == b[i]
    ensures a == b
  {
  }

  /** The chunks before `i` have been counted: `used` of them have room, `avail` bytes in all. */
  ghost predicate Counted(cs: seq<Chain>, w: nat, i: nat, used: nat, avail: nat)
    reads cs`misalign, cs`off, cs`mem
  {
    var f := FirstRoomOf(cs, w);
    if i <= w then used == 0 && avail == 0
    else i <= |cs| && f + used == i && avail == RoomSum(cs[f..i]) && Roomy(cs, f, i) && Room(cs[w]) <= avail
  }

  /** The chunks before `i` that have been counted are open. */
  ghost predicate Open(buf: EvBuffer, i: nat)
    reads buf`chains, buf`lwd, buf.chains`misalign, buf.chains`off, buf.chains`mem
  {
    forall j :: buf.lwd <= j < i && j < |buf.chains| ==> Room(buf.chains[j]) == Sizes(buf.chains)[j]
  }

  /** What has been counted is enough. */
  lemma CountAmple(buf: EvBuffer, i: nat, used: nat, avail: nat, datlen: nat, n: nat)
    requires Counted(buf.chains, buf.lwd, i, used, avail) && Open(buf, i) && buf.lwd < i && avail >= datlen && used <= n
    ensures Ample(buf, datlen, n) && Opened(buf, datlen, n)
  {
    hide RoomSum, Roomy, Sum, Sizes, Room;
    var f, sizes := FirstRoom(buf), Sizes(buf.chains);
    RoomIsSum(buf.chains, f, f + used);
    assert Enough(sizes, buf.lwd, used, datlen);
    forall m: nat | m <= n && Enough(sizes, buf.lwd, m, datlen) ensures RoomSum(buf.chains[f..f + m]) >= datlen {
      if m <= used {
        RoomIsSum(buf.chains, f, f + m);
      } else {
        RoomMono(buf.chains, f, f + used, f + m);
      }
    }
  }

  /** What has been counted is all there is, and not enough. */
  lemma CountShort(buf: EvBuffer, i: nat, used: nat, avail: nat, datlen: nat, n: nat)
    requires Counted(buf.chains, buf.lwd, i, used, avail) && Open(buf, i) && buf.lwd < i && avail < datlen
    requires used == n || i == |buf.chains|
    ensures !Ample(buf, datlen, n)
  {
    hide RoomSum, Roomy, Sum, Sizes, Room;
    var f, sizes := FirstRoom(buf), Sizes(buf.chains);
    RoomIsSum(buf.chains, f, f + used);
    forall m: nat | m <= n && Enough(sizes, buf.lwd, m, datlen) ensures false {
      SumMono(sizes, f, f + m, f + used);
    }
  }

  /** Adds one chunk to the count. */
  method CountNext(buf: EvBuffer, chain: Chain, used: nat, avail: nat, ghost i: nat) returns (used': nat, avail': nat)
    requires buf.Valid() && buf.lwd <= i < |buf.chains| && chain == buf.chains[i] && Counted(buf.chains, buf.lwd, i, used, avail)
    requires Open(buf, i)
    modifies chain`misalign
    ensures buf.Valid() && Counted(buf.chains, buf.lwd, i + 1, used', avail') && used' <= used + 1
    ensures chain.misalign == old(chain.misalign) || (chain.off == 0 && chain.misalign == 0)
    ensures Open(buf, i + 1) && Sizes(buf.chains) == old(Sizes(buf.chains))
  {
    hide Seg, Distinct, Flatten, Window, LastWithData, RoomSum, Roomy, Sizes;
    var room := CountSized(buf, chain, i);
    ghost var f := FirstRoom(buf);
    RoomNone(buf.chains, f);
    RoomyNone(buf.chains, f);
    if room == 0 {
      return used, avail;
    }
    RoomSnoc(buf.chains, f, i);
    RoomySnoc(buf.chains, f, i);
    return used + 1, avail + room;
  }

  lemma CountedTakes(buf: EvBuffer, i: nat, used: nat, avail: nat, datlen: nat, n: nat)
    requires buf.lwd < i && Counted(buf.chains, buf.lwd, i, used, avail) && used <= n && avail >= datlen
    ensures Offers(buf, datlen, n)
  {
    hide RoomSum, Roomy;
    assert Takes(buf.chains, FirstRoom(buf), used, datlen);
  }

  /** Counts the room in the first `n` chunks that have any. */
  method CountRoom(buf: EvBuffer, datlen: nat, n: nat) returns (enough: bool, used: nat, avail: nat)
    requires buf.Valid() && buf.chains != [] && n >= 2
    modifies buf.chains`misalign
    ensures buf.Valid()
    ensures forall c :: c in buf.chains ==> c.misalign == old(c.misalign) || (c.off == 0 && c.misalign == 0)
    ensures Sizes(buf.chains) == old(Sizes(buf.chains))
    ensures enough <==> Ample(buf, datlen, n)
    ensures enough ==> Offers(buf, datlen, n) && Opened(buf, datlen, n)
    ensures !enough ==> buf.lwd + used <= |buf.chains|
    ensures !enough ==> avail < datlen && used <= n && (used == n ==> buf.lwd + 1 < |buf.chains|)
    ensures !enough ==> buf.lwd < |buf.chains| && Room(buf.chains[buf.lwd]) < datlen
    ensures !enough && used < n ==> Counted(buf.chains, buf.lwd, |buf.chains|, used, avail)
  {
    hide Seg, Distinct, Flatten, Window, LastWithData, Counted, Offers, AmpleOf, Opened, Open, Sizes, FirstRoom, Room, Ample;
    TargetIs(buf);
    var chain := buf.At(buf.lwdp);
    ghost var i := buf.lwd;
    used, avail := 0, 0;
    CountNone(buf);
    while chain != null
      invariant buf.lwd <= i <= |buf.chains| && chain == Nth(buf.chains, null, i)
      invariant buf.Valid() && used < n && Counted(buf.chains, buf.lwd, i, used, avail)
      invariant i > buf.lwd ==> avail < datlen
      invariant Open(buf, i) && Sizes(buf.chains) == old(Sizes(buf.chains))
      invariant forall c :: c in buf.chains ==> c.misalign == old(c.misalign) || (c.off == 0 && c.misalign == 0)
      decreases |buf.chains| - i
    {
      used, avail := CountNext(buf, chain, used, avail, i);
      i := i + 1;
      CountedIs(buf, i, used, avail);
      if avail >= datlen {
        CountedTakes(buf, i, used, avail, datlen, n);
        CountAmple(buf, i, used, avail, datlen, n);
        return true, used, avail;
      }
      if used == n {
        CountShort(buf, i, used, avail, datlen, n);
        return false, used, avail;
      }
      SegAt(buf.chains, buf.parts, null, i - 1);
      chain := chain.next;
    }
    CountedIs(buf, i, used, avail);
    CountShort(buf, i, used, avail, datlen, n);
    return false, used, avail;
  }

  lemma CountNone(buf: EvBuffer)
    ensures Counted(buf.chains, buf.lwd, buf.lwd, 0, 0) && Open(buf, buf.lwd)
  {
  }

  lemma CountedIs(buf: EvBuffer, i: nat, used: nat, avail: nat)
    requires Counted(buf.chains, buf.lwd, i, used, avail) && buf.lwd < i
    ensures i <= |buf.chains| && buf.lwd + used <= i && Room(buf.chains[buf.lwd]) <= avail
  {
  }

  /** Links a new chunk that makes up for the room that `used` chunks lack. */
  method LinkMore(buf: EvBuffer, datlen: nat, used: nat, avail: nat)
    requires buf.Valid() && buf.chains != [] && avail < datlen && Counted(buf.chains, buf.lwd, |buf.chains|, used, avail)
    modifies buf, buf.last`next
    ensures buf.Valid() && buf.Contents() == old(buf.Contents()) && buf.lwd == old(buf.lwd)
    ensures |buf.chains| == old(|buf.chains|) + 1 && buf.chains[..old(|buf.chains|)] == old(buf.chains)
    ensures Offers(buf, datlen, used + 1) && Evolves(old(buf.chains), buf.chains)
    ensures buf.last != null && buf.last.off == 0 == buf.last.misalign && |buf.last.mem| >= datlen - avail
    ensures LastNeeded(buf, datlen)
    ensures buf.freezeStart == old(buf.freezeStart) && buf.freezeEnd == old(buf.freezeEnd)
  {
    hide Seg, Distinct, Flatten, Window, Counted, Offers, LastNeeded, Detached, Room;
    ghost var cs := buf.chains;
    var tmp := new Chain(datlen - avail);
    LinkLast(buf, tmp);
    RoomIs(tmp);
    CountedGrow(cs, buf.lwd, used, avail, tmp);
    CountedLacks(buf, cs, used, avail, datlen);
    CountedTakes(buf, |cs| + 1, used + 1, avail + Room(tmp), datlen, used + 1);
  }

  /** The count goes on with a new last chunk. */
  lemma CountedGrow(cs: seq<Chain>, w: nat, used: nat, avail: nat, c: Chain)
    requires Counted(cs, w, |cs|, used, avail) && w < |cs| && Room(c) > 0
    ensures Counted(cs + [c], w, |cs| + 1, used + 1, avail + Room(c))
  {
    hide RoomSum, Room;
    var f := FirstRoomOf(cs, w);
    assert (cs + [c])[f..|cs|] == cs[f..|cs|];
    RoomSnoc(cs + [c], f, |cs|);
  }

  lemma CountedLacks(buf: EvBuffer, cs: seq<Chain>, used: nat, avail: nat, datlen: nat)
    requires Counted(cs, buf.lwd, |cs|, used, avail) && buf.lwd < |cs| && avail < datlen
    requires |buf.chains| == |cs| + 1 && buf.chains[..|cs|] == cs
    ensures LastNeeded(buf, datlen)
  {
    hide RoomSum, Room;
    var f := FirstRoomOf(cs, buf.lwd);
    assert buf.chains[buf.lwd] == buf.chains[..|cs|][buf.lwd];
    assert buf.chains[f..|cs|] == cs[f..|cs|];
  }

  lemma RoomIs(c: Chain)
    requires c.Ok()
    ensures Room(c) == c.Space()
  {
  }

  lemma OffersMore(buf: EvBuffer, datlen: nat, m: nat, n: nat)
    requires Offers(buf, datlen, m) && m <= n
    ensures Offers(buf, datlen, n)
  {
    hide Takes;
  }

  lemma OffersAt(buf: EvBuffer, k: nat, datlen: nat)
    requires buf.Valid() && buf.lwd <= k < |buf.chains| && k <= buf.lwd + 1 && Room(buf.chains[k]) >= datlen
    requires Room(buf.chains[k]) > 0
    ensures Offers(buf, datlen, 2)
  {
    hide Seg, Flatten;
    var f := FirstRoom(buf);
    RoomNone(buf.chains, f);
    if f <= k {
      RoomSnoc(buf.chains, f, f);
      if f < k {
        RoomSnoc(buf.chains, f, k);
      }
    }
    assert Takes(buf.chains, f, k + 1 - f, datlen);
  }

  lemma OffersTwo(buf: EvBuffer, k: nat, datlen: nat)
    requires buf.lwd < |buf.chains| - 1 && k == buf.lwd + 1
    requires Room(buf.chains[buf.lwd]) + Room(buf.chains[k]) >= datlen && Room(buf.chains[k]) > 0
    ensures Offers(buf, datlen, 2)
  {
    var f := FirstRoom(buf);
    RoomNone(buf.chains, f);
    if f < k {
      RoomSnoc(buf.chains, f, f);
    }
    RoomSnoc(buf.chains, f, k);
    assert Takes(buf.chains, f, k + 1 - f, datlen);
  }

  /** Frees every empty chunk and puts a new one in their place. */
  method ReplaceEmpty(buf: EvBuffer, datlen: nat)
    requires buf.Valid() && buf.lwd < |buf.chains| && Room(buf.chains[buf.lwd]) < datlen
    requires buf.lwd + 1 < |buf.chains|
    modifies buf, buf.chains`next, buf.chains`dangling, buf.chains`released
    ensures buf.Valid() && buf.Contents() == old(buf.Contents()) && buf.lwd == old(buf.lwd)
    ensures buf.chains != [] && Offers(buf, datlen, 2) && Evolves(old(buf.chains), buf.chains)
    ensures LastNeeded(buf, datlen)
    ensures buf.freezeStart == old(buf.freezeStart) && buf.freezeEnd == old(buf.freezeEnd)
  {
    hide Seg, Distinct, Flatten, Window, RoomSum, Offers, Detached, LastNeeded;
    TargetIs(buf);
    var chain := buf.At(buf.lwdp);
    ghost var cs, w := buf.chains, buf.lwd;
    SegAt(buf.chains, buf.parts, null, buf.lwd);
    if chain.off == 0 {
      var tmp := new Chain(datlen);
      ReplaceTail(buf, null, tmp, 0);
      CutAndNew(cs, 0, tmp);
      OffersAt(buf, 0, datlen);
      OneNeeded(buf, datlen);
    } else {
      var tmp := new Chain(datlen - chain.Space());
      ReplaceTail(buf, chain, tmp, w + 1);
      assert buf.chains[w] == chain && buf.chains[w + 1] == tmp;
      OffersTwo(buf, w + 1, datlen);
      CutAndNew(cs, w + 1, tmp);
      TwoNeeded(buf, datlen);
    }
  }

  lemma OneNeeded(buf: EvBuffer, datlen: nat)
    requires |buf.chains| == 1 && buf.lwd == 0 && Room(buf.chains[0]) > 0
    ensures LastNeeded(buf, datlen)
  {
    RoomNone(buf.chains, 0);
  }

  lemma TwoNeeded(buf: EvBuffer, datlen: nat)
    requires |buf.chains| == buf.lwd + 2 && Room(buf.chains[buf.lwd]) < datlen
    ensures LastNeeded(buf, datlen)
  {
    var f := FirstRoom(buf);
    RoomNone(buf.chains, f);
    if f == buf.lwd {
      RoomSnoc(buf.chains, f, f);
    }
  }

  lemma CutAndNew(cs: seq<Chain>, k: nat, c: Chain)
    requires k <= |cs|
    ensures forall d :: d in cs ==> d in cs[..k] + [c] || d in cs[k..]
    ensures forall d :: d in cs[..k] + [c] ==> d in cs || d == c
  {
    assert cs == cs[..k] + cs[k..];
  }

  /** If so, just one more empty chunk has come in at the end, for what the others lack. */
  ghost predicate Grows(was: seq<Chain>, buf: EvBuffer, datlen: nat, more: bool)
    reads buf, buf.last, was
  {
    more ==> |buf.chains| == |was| + 1 && buf.chains[..|was|] == was
             && buf.last != null && buf.last.off == 0 == buf.last.misalign && MemSum(was) + |buf.last.mem| >= datlen
  }

  lemma CountedBounded(cs: seq<Chain>, w: nat, used: nat, avail: nat)
    requires Counted(cs, w, |cs|, used, avail)
    ensures avail <= MemSum(cs)
  {
    hide RoomSum, MemSum, Roomy, Room;
    if |cs| > w {
      RoomBelowMem(cs, FirstRoomOf(cs, w), |cs|);
    }
  }

  lemma OffersBounded(buf: EvBuffer, datlen: nat, n: nat)
    requires buf.Valid() && Offers(buf, datlen, n)
    ensures datlen <= MemSum(buf.chains)
  {
    hide Seg, Flatten, RoomSum, MemSum, Roomy;
    var m: nat :| m <= n && Takes(buf.chains, FirstRoom(buf), m, datlen);
    RoomBelowMem(buf.chains, FirstRoom(buf), FirstRoom(buf) + m);
  }

  lemma NoneAmple(buf: EvBuffer, datlen: nat, n: nat)
    ensures buf.chains == [] ==> !Ample(buf, datlen, n)
  {
  }

  /** _evbuffer_expand_fast: makes `datlen` bytes of room in at most `n` chunks, without moving any
      data. */
  method ExpandFast(buf: EvBuffer, datlen: nat, n: nat)
    requires buf.Valid() && n >= 2
    modifies buf, buf.chains
    ensures buf.Valid() && buf.Contents() == old(buf.Contents()) && buf.lwd == old(buf.lwd)
    ensures buf.chains != [] && Offers(buf, datlen, n) && Evolves(old(buf.chains), buf.chains)
    ensures old(|buf.chains| <= buf.lwd + 1)
            ==> |buf.chains| <= buf.lwd + 1 || (|buf.chains| == buf.lwd + 2 && Room(buf.chains[buf.lwd]) < datlen)
    ensures old(Ample(buf, datlen, n))
            ==> buf.chains == old(buf.chains) && Sizes(buf.chains) == old(Sizes(buf.chains)) && Opened(buf, datlen, n)
    ensures old(!Ample(buf, datlen, n)) ==> LastNeeded(buf, datlen)
    ensures forall c :: c in old(buf.chains) ==> c.mem == old(c.mem) && c.off == old(c.off)
    ensures forall c :: c in old(buf.chains) ==> c.misalign == old(c.misalign) || (c.off == 0 && c.misalign == 0)
    ensures Grows(old(buf.chains), buf, datlen, old(buf.chains == [] || (|buf.chains| - buf.lwd < n && MemSum(buf.chains) < datlen)))
    ensures buf.freezeStart == old(buf.freezeStart) && buf.freezeEnd == old(buf.freezeEnd)
  {
    hide Seg, Distinct, Flatten, Window, LastWithData, FirstVictim, Counted, Offers, Room, MemSum, Opened, LastNeeded,
      AmpleOf, Sizes, Detached;
    NoneAmple(buf, datlen, n);
    if buf.last == null {
      var c; ghost var k;
      c, k := InsertNew(buf, datlen);
      RoomIs(c);
      OffersAt(buf, 0, datlen);
      OffersMore(buf, datlen, 2, n);
      OneNeeded(buf, datlen);
      return;
    }
    var enough, used, avail := CountRoom(buf, datlen, n);
    if enough {
      OffersBounded(buf, datlen, n);
    } else {
      ExpandMore(buf, datlen, used, avail, n);
    }
  }

  /** The part of _evbuffer_expand_fast for too little room. */
  method ExpandMore(buf: EvBuffer, datlen: nat, used: nat, avail: nat, n: nat)
    requires buf.Valid() && buf.lwd < |buf.chains| && n >= 2 && avail < datlen && used <= n
    requires Room(buf.chains[buf.lwd]) < datlen && (used == n ==> buf.lwd + 1 < |buf.chains|) && buf.lwd + used <= |buf.chains|
    requires used < n ==> Counted(buf.chains, buf.lwd, |buf.chains|, used, avail)
    modifies buf, buf.chains`next, buf.chains`dangling, buf.chains`released
    ensures buf.Valid() && buf.Contents() == old(buf.Contents()) && buf.lwd == old(buf.lwd)
    ensures buf.chains != [] && Offers(buf, datlen, n) && Evolves(old(buf.chains), buf.chains) && LastNeeded(buf, datlen)
    ensures old(|buf.chains| <= buf.lwd + 1) ==> |buf.chains| == buf.lwd + 2 && Room(buf.chains[buf.lwd]) < datlen
    ensures Grows(old(buf.chains), buf, datlen, old(|buf.chains| - buf.lwd < n && MemSum(buf.chains) < datlen))
    ensures buf.freezeStart == old(buf.freezeStart) && buf.freezeEnd == old(buf.freezeEnd)
  {
    hide Seg, Distinct, Flatten, Window, LastWithData, FirstVictim, Counted, Offers, Room, MemSum, LastNeeded, Detached;
    if used < n {
      CountedBounded(buf.chains, buf.lwd, used, avail);
      LinkMore(buf, datlen, used, avail);
    } else {
      ReplaceEmpty(buf, datlen);
    }
    OffersMore(buf, datlen, if used < n then used + 1 else 2, n);
  }
}

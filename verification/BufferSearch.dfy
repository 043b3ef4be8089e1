/** Searching an evbuffer across chunk boundaries. */
module BufferSearch {
  import opened Common
  import opened Flat
  import opened Chains
  import opened EvBuffers
  import opened BufferDrain

  const CR: byte := 13
  const LF: byte := 10
  const CHUNK_SZ: nat := 128

  /** evbuffer_ptr: a position, and where that is in the chunks. `pos` is -1 for nowhere. */
  datatype Ptr = Ptr(pos: int, chain: Chain?, inChain: nat)

  /** `p` is position `inChain` of chunk `k`, or the end of the buffer. */
  ghost predicate PtrAt(buf: EvBuffer, p: Ptr, k: nat)
    requires buf.Structure()
    reads buf, buf.chains
  {
    && k <= |buf.chains| && p.chain == Nth(buf.chains, null, k)
    && p.pos == |Flatten(buf.parts[..k])| + p.inChain
    && p.inChain <= (if k < |buf.chains| then |buf.parts[k]| else 0)
  }

  /** `what` stands at position `i` of `s`. */
  ghost predicate Occurs(s: seq<byte>, what: seq<byte>, i: int) {
    0 <= i && i + |what| <= |s| && s[i..i + |what|] == what
  }

  /** What chunk `k` holds from `i` on is what the buffer holds there. */
  lemma ChunkIs(buf: EvBuffer, k: nat)
    requires buf.Structure() && k < |buf.chains|
    ensures var base := |Flatten(buf.parts[..k])|; var c := buf.chains[k];
            && |buf.parts| == |buf.chains| && c.Ok() && c.Data() == buf.parts[k] && c.next == Nth(buf.chains, null, k + 1)
            && |buf.parts[k]| == c.off && |Flatten(buf.parts[..k + 1])| == base + c.off <= |buf.Contents()|
            && c.mem[c.misalign..c.misalign + c.off] == buf.Contents()[base..base + c.off]
  {
    SegAt(buf.chains, buf.parts, null, k);
    FlattenSplit(buf.parts, k);
  }

  lemma WholeBuffer(buf: EvBuffer)
    requires buf.Structure()
    ensures |Flatten(buf.parts[..|buf.chains|])| == |buf.Contents()| == buf.totalLen
  {
    assert buf.parts[..|buf.chains|] == buf.parts;
  }

  lemma PtrBound(buf: EvBuffer, p: Ptr, k: nat)
    requires buf.Structure() && PtrAt(buf, p, k)
    ensures 0 <= p.pos <= |buf.Contents()|
  {
    hide Seg, Flatten;
    WholeBuffer(buf);
    if k < |buf.chains| {
      ChunkIs(buf, k);
    }
  }

  /** evbuffer_ptr_memcmp, of which only equality matters: does `what` stand at `p`? */
  method PtrMatches(buf: EvBuffer, p: Ptr, what: seq<byte>, ghost k: nat) returns (equal: bool)
    requires buf.Valid() && PtrAt(buf, p, k)
    ensures equal <==> Occurs(buf.Contents(), what, p.pos)
  {
    hide Seg, Flatten, LastWithData, Window, Occurs, Matched;
    WholeBuffer(buf);
    PtrBound(buf, p, k);
    TooLong(buf.Contents(), what, p.pos);
    if p.pos + |what| > buf.totalLen {
      return false;
    }
    var chain, position: nat, done: nat := p.chain, p.inChain, 0;
    ghost var i, s := k, buf.Contents();
    while done < |what| && chain != null
      invariant 0 <= done <= |what| && i <= |buf.chains| && chain == Nth(buf.chains, null, i)
      invariant done < |what| ==> |Flatten(buf.parts[..i])| + position == p.pos + done
      invariant done < |what| ==> position <= if i < |buf.chains| then |buf.parts[i]| else 0
      invariant Matched(s, what, p.pos, done)
      decreases |buf.chains| - i
    {
      ChunkIs(buf, i);
      var left := |what| - done;
      var n := if left + position > chain.off then chain.off - position else left;
      SameBytes(chain.mem, chain.misalign, chain.off, s, |Flatten(buf.parts[..i])|, position, n);
      MatchStep(s, what, p.pos, done, n);
      if chain.mem[chain.misalign + position..chain.misalign + position + n] != what[done..done + n] {
        return false;
      }
      done, position, chain, i := done + n, 0, chain.next, i + 1;
    }
    MatchEnd(s, what, p.pos);
    return true;
  }

  /** The first `done` bytes of `what` stand at `pos`. */
  ghost predicate Matched(s: seq<byte>, what: seq<byte>, pos: nat, done: nat) {
    done <= |what| && pos + done <= |s| && s[pos..pos + done] == what[..done]
  }

  /** The first `done` bytes of `what` stand at `pos`; the next `n` are what decides then. */
  lemma MatchStep(s: seq<byte>, what: seq<byte>, pos: nat, done: nat, n: nat)
    requires pos + |what| <= |s| && done + n <= |what| && Matched(s, what, pos, done)
    ensures s[pos + done..pos + done + n] == what[done..done + n] ==> Matched(s, what, pos, done + n)
    ensures s[pos + done..pos + done + n] != what[done..done + n] ==> !Occurs(s, what, pos)
  {
    SubSeq(s, pos, pos + |what|, done, done + n);
    JoinSeq(s, pos, pos + done, pos + done + n);
    JoinSeq(what, 0, done, done + n);
  }

  lemma TooLong(s: seq<byte>, what: seq<byte>, pos: nat)
    ensures pos + |what| > |s| ==> !Occurs(s, what, pos)
    ensures pos <= |s| ==> Matched(s, what, pos, 0)
  {
  }

  lemma MatchEnd(s: seq<byte>, what: seq<byte>, pos: nat)
    requires pos + |what| <= |s|
    ensures Matched(s, what, pos, |what|) ==> Occurs(s, what, pos)
  {
  }

  lemma SameBytes(mem: seq<byte>, misalign: nat, off: nat, s: seq<byte>, base: nat, i: nat, n: nat)
    requires misalign + off <= |mem| && base + off <= |s| && i + n <= off
    requires mem[misalign..misalign + off] == s[base..base + off]
    ensures mem[misalign + i..misalign + i + n] == s[base + i..base + i + n]
  {
    SubSeq(mem, misalign, misalign + off, i, i + n);
    SubSeq(s, base, base + off, i, i + n);
  }

  const NOWHERE := Ptr(-1, null, 0)

  /** No occurrence of `what` starts in `s[from..upto]`. */
  ghost predicate NoneIn(s: seq<byte>, what: seq<byte>, from: int, upto: int) {
    forall i :: from <= i < upto ==> !Occurs(s, what, i)
  }

  lemma NoneJoin(s: seq<byte>, what: seq<byte>, a: int, b: int, c: int)
    requires NoneIn(s, what, a, b) && NoneIn(s, what, b, c)
    ensures NoneIn(s, what, a, c)
  {
  }

  /** Where the first byte of `what` does not stand, `what` does not start. */
  lemma NoFirst(s: seq<byte>, what: seq<byte>, a: nat, b: nat)
    requires what != [] && b <= |s| && forall x :: a <= x < b ==> s[x] != what[0]
    ensures NoneIn(s, what, a, b)
  {
    forall y | a <= y < b ensures !Occurs(s, what, y) {
      if y + |what| <= |s| {
        assert s[y..y + |what|][0] == s[y];
      }
    }
  }

  /** memchr over the rest of chunk `k`. */
  method FindInChunk(buf: EvBuffer, chain: Chain, at: nat, c: byte, ghost k: nat) returns (j: nat)
    requires buf.Structure() && k < |buf.chains| && chain == buf.chains[k] && at <= |buf.parts[k]|
    ensures at <= j <= chain.off == |buf.parts[k]|
    ensures var base := |Flatten(buf.parts[..k])|;
            && base + chain.off <= |buf.Contents()| && (j < chain.off ==> buf.Contents()[base + j] == c)
            && NoByte(buf.Contents(), c, base + at, base + j)
  {
    hide Seg, Flatten, Window;
    ChunkIs(buf, k);
    ghost var base := |Flatten(buf.parts[..k])|;
    var rest := chain.mem[chain.misalign + at..chain.misalign + chain.off];
    SameBytes(chain.mem, chain.misalign, chain.off, buf.Contents(), base, at, chain.off - at);
    j := at + IndexOf(rest, c);
    forall x | base + at <= x <= base + j && x < base + chain.off
      ensures buf.Contents()[x] == rest[x - base - at]
    {
    }
  }

  datatype Bound = Unset | At(p: Ptr)

  function StartOf(buf: EvBuffer, start: Bound): Ptr
    reads buf
  {
    if start.At? then start.p else Ptr(0, buf.first, 0)
  }

  ghost predicate BoundOk(buf: EvBuffer, b: Bound, k: nat)
    requires buf.Structure()
    reads buf, buf.chains
  {
    if b.At? then PtrAt(buf, b.p, k) else k == 0
  }

  /** Where a match has to end. */
  ghost function Limit(buf: EvBuffer, end: Bound): int
    reads buf
  {
    if end.At? then end.p.pos else |buf.Contents()|
  }

  lemma StartIs(buf: EvBuffer, start: Bound, k: nat)
    requires buf.Structure() && BoundOk(buf, start, k)
    ensures PtrAt(buf, StartOf(buf, start), k)
  {
    assert buf.parts[..0] == [];
  }

  /** Behind the last place where `what` would still end in time. */
  lemma TooLate(s: seq<byte>, what: seq<byte>, from: int, limit: int)
    requires from + |what| > limit
    ensures NoneIn(s, what, from, limit - |what| + 1)
  {
  }

  /** evbuffer_search_range: the first occurrence of `what` from `start` on that ends by `end`. */
  method SearchRange(buf: EvBuffer, what: seq<byte>, start: Bound, end: Bound, ghost ks: nat, ghost ke: nat)
    returns (r: Ptr, ghost k: nat)
    requires buf.Valid() && BoundOk(buf, start, ks) && BoundOk(buf, end, ke)
    ensures what == [] ==> r == StartOf(buf, start) && k == ks
    ensures what != [] && r.pos >= 0 ==> PtrAt(buf, r, k) && Occurs(buf.Contents(), what, r.pos)
                                         && StartOf(buf, start).pos <= r.pos && r.pos + |what| <= Limit(buf, end)
                                         && NoneIn(buf.Contents(), what, StartOf(buf, start).pos, r.pos)
    ensures what != [] && r.pos < 0 ==> r == NOWHERE
                                        && NoneIn(buf.Contents(), what, StartOf(buf, start).pos, Limit(buf, end) - |what| + 1)
  {
    hide Flatten, LastWithData, Occurs, NoneIn, NoByte, StartOf, EvBuffer.Structure;
    ghost var s, from, limit := buf.Contents(), StartOf(buf, start).pos, Limit(buf, end);
    StartIs(buf, start, ks);
    r, k := StartOf(buf, start), ks;
    var lastChain := if end.At? then end.p.chain else null;
    if what == [] {
      return;
    }
    WholeBuffer(buf);
    NoneEmpty(s, what, from);
    if end.At? {
      PtrBound(buf, end.p, ke);
    }
    while r.chain != null
      invariant PtrAt(buf, r, k) && from <= r.pos && NoneIn(s, what, from, r.pos)
      decreases |buf.chains| - k, |s| - r.pos
    {
      var chain := r.chain;
      var j := FindInChunk(buf, chain, r.inChain, what[0], k);
      ChunkIs(buf, k);
      ghost var base := |Flatten(buf.parts[..k])|;
      NoneFarther(s, what, from, r.pos, base + j);
      if j < chain.off {
        r := Ptr(r.pos + (j - r.inChain), chain, j);
        var equal := PtrMatches(buf, r, what, k);
        if equal {
          if end.At? && r.pos + |what| > end.p.pos {
            NoneLeft(s, what, from, r.pos, limit);
            return NOWHERE, k;
          }
          OccursBound(s, what, r.pos);
          return;
        }
        NoneOne(s, what, from, r.pos);
        r := r.(pos := r.pos + 1, inChain := j + 1);
        if r.inChain == chain.off {
          r, k := Ptr(r.pos, chain.next, 0), k + 1;
        }
      } else {
        if chain == lastChain {
          EndsHere(buf, end, ke, k);
          NoneLeft(s, what, from, base + j, limit);
          return NOWHERE, k;
        }
        r, k := Ptr(r.pos + (chain.off - r.inChain), chain.next, 0), k + 1;
      }
    }
    NoneLeft(s, what, from, r.pos, limit);
    return NOWHERE, k;
  }

  lemma NoneLeft(s: seq<byte>, what: seq<byte>, a: int, b: int, limit: int)
    requires NoneIn(s, what, a, b) && b + |what| > limit
    ensures NoneIn(s, what, a, limit - |what| + 1)
  {
    hide NoneIn, Occurs;
    TooLate(s, what, b, limit);
    NoneShort(s, what, a, b, limit);
  }

  lemma NoneFarther(s: seq<byte>, what: seq<byte>, a: nat, b: nat, c: nat)
    requires what != [] && c <= |s| && NoneIn(s, what, a, b) && NoByte(s, what[0], b, c)
    ensures NoneIn(s, what, a, c)
  {
    hide Occurs;
    NoFirst(s, what, b, c);
    NoneJoin(s, what, a, b, c);
  }

  lemma OccursBound(s: seq<byte>, what: seq<byte>, i: int)
    requires Occurs(s, what, i)
    ensures i + |what| <= |s|
  {
  }

  lemma NoneEmpty(s: seq<byte>, what: seq<byte>, a: int)
    ensures NoneIn(s, what, a, a)
  {
  }

  lemma NoneOne(s: seq<byte>, what: seq<byte>, a: int, b: int)
    requires NoneIn(s, what, a, b) && !Occurs(s, what, b)
    ensures NoneIn(s, what, a, b + 1)
  {
  }

  lemma NoneShort(s: seq<byte>, what: seq<byte>, a: int, b: int, limit: int)
    requires NoneIn(s, what, a, b) && NoneIn(s, what, b, limit - |what| + 1)
    ensures NoneIn(s, what, a, limit - |what| + 1)
  {
  }

  /** The chunk of `end` is no other than chunk `ke`. */
  lemma EndsHere(buf: EvBuffer, end: Bound, ke: nat, k: nat)
    requires buf.Structure() && BoundOk(buf, end, ke) && end.At? && k < |buf.chains| && end.p.chain == buf.chains[k]
    ensures end.p.pos <= |Flatten(buf.parts[..k])| + |buf.parts[k]|
  {
    hide Flatten;
    SegLength(buf.chains, buf.parts, null);
  }

  /** evbuffer_ptr_set: moves a pointer to position `n`, or on by `n` (`add`). It must come to stand
      on a byte. */
  method PtrSet(buf: EvBuffer, p: Ptr, n: nat, add: bool, ghost k: nat) returns (r: Ptr, ok: bool, ghost k': nat)
    requires buf.Valid() && (add ==> PtrAt(buf, p, k))
    ensures var target := (if add then p.pos else 0) + n;
            && (ok <==> target < |buf.Contents()|)
            && r.pos == (if ok then target else -1) && (!ok ==> r.chain == null)
    ensures ok ==> PtrAt(buf, r, k') && k' < |buf.chains| && r.inChain < buf.chains[k'].off
  {
    hide Seg, Flatten, LastWithData, Window;
    var chain, position: nat, left: nat := buf.first, 0, n;
    k' := 0;
    if add {
      chain, position, k' := p.chain, p.inChain, k;
    } else {
      assert buf.parts[..0] == [];
      NoParts();
    }
    WholeBuffer(buf);
    ghost var target := (if add then p.pos else 0) + n;
    while chain != null && position + left >= chain.off
      invariant k' <= |buf.chains| && chain == Nth(buf.chains, null, k')
      invariant |Flatten(buf.parts[..k'])| + position + left == target
      invariant position <= if k' < |buf.chains| then |buf.parts[k']| else 0
      decreases |buf.chains| - k'
    {
      ChunkIs(buf, k');
      left := left - (chain.off - position);
      chain, position, k' := chain.next, 0, k' + 1;
    }
    if chain != null {
      ChunkIs(buf, k');
      return Ptr((if add then p.pos else 0) + n, chain, position + left), true, k';
    }
    return NOWHERE, false, k';
  }

  lemma NoParts()
    ensures Flatten<byte>([]) == []
  {
  }

  predicate IsEol(b: byte) {
    b == CR || b == LF
  }

  ghost predicate NoEol(s: seq<byte>, a: int, b: int) {
    forall x :: a <= x < b && 0 <= x < |s| ==> !IsEol(s[x])
  }

  /** find_eol_char: looks for both characters in blocks of 128 bytes. */
  method FindEolChar(s: seq<byte>) returns (i: nat)
    ensures i <= |s| && (i < |s| ==> IsEol(s[i])) && NoEol(s, 0, i)
  {
    i := 0;
    while i < |s|
      invariant NoEol(s, 0, if i < |s| then i else |s|)
    {
      var chunk := if i + CHUNK_SZ < |s| then CHUNK_SZ else |s| - i;
      var block := s[i..i + chunk];
      var cr, lf := IndexOf(block, CR), IndexOf(block, LF);
      assert forall x :: i <= x < i + chunk ==> s[x] == block[x - i];
      if cr < chunk {
        if lf < chunk && lf < cr {
          return i + lf;
        }
        return i + cr;
      } else if lf < chunk {
        return i + lf;
      }
      i := i + CHUNK_SZ;
    }
    return |s|;
  }

  /** evbuffer_find_eol_char: moves the pointer to the next end-of-line character. */
  method FindEol(buf: EvBuffer, p: Ptr, ghost k: nat) returns (r: Ptr, found: bool, ghost k': nat)
    requires buf.Valid() && PtrAt(buf, p, k)
    ensures found ==> PtrAt(buf, r, k') && p.pos <= r.pos < |buf.Contents()| && k' < |buf.chains|
                      && r.inChain < buf.chains[k'].off && IsEol(buf.Contents()[r.pos])
                      && NoEol(buf.Contents(), p.pos, r.pos)
    ensures !found ==> NoEol(buf.Contents(), p.pos, |buf.Contents()|)
  {
    hide Seg, Flatten, LastWithData, Window;
    r, k' := p, k;
    WholeBuffer(buf);
    while r.chain != null
      invariant PtrAt(buf, r, k') && p.pos <= r.pos && NoEol(buf.Contents(), p.pos, r.pos)
      decreases |buf.chains| - k'
    {
      var chain := r.chain;
      ChunkIs(buf, k');
      ghost var base := |Flatten(buf.parts[..k'])|;
      var rest := chain.mem[chain.misalign + r.inChain..chain.misalign + chain.off];
      SameBytes(chain.mem, chain.misalign, chain.off, buf.Contents(), base, r.inChain, chain.off - r.inChain);
      var j := FindEolChar(rest);
      assert forall x :: r.pos <= x < base + chain.off ==> buf.Contents()[x] == rest[x - r.pos];
      if j < |rest| {
        return Ptr(r.pos + j, chain, r.inChain + j), true, k';
      }
      r, k' := Ptr(r.pos + (chain.off - r.inChain), chain.next, 0), k' + 1;
    }
    return r, false, k';
  }

  /** The byte `c` is not in `s[a..b]`. */
  ghost predicate NoByte(s: seq<byte>, c: byte, a: int, b: int) {
    forall x :: 0 <= a <= x < b && x < |s| ==> s[x] != c
  }

  /** evbuffer_strchr. */
  method StrChr(buf: EvBuffer, p: Ptr, c: byte, ghost k: nat) returns (r: Ptr, found: bool, ghost k': nat)
    requires buf.Valid() && PtrAt(buf, p, k)
    ensures found ==> PtrAt(buf, r, k') && p.pos <= r.pos < |buf.Contents()| && buf.Contents()[r.pos] == c
                      && NoByte(buf.Contents(), c, p.pos, r.pos)
    ensures !found ==> NoByte(buf.Contents(), c, p.pos, |buf.Contents()|)
  {
    hide Seg, Flatten, LastWithData, Window;
    r, k' := p, k;
    WholeBuffer(buf);
    PtrBound(buf, p, k);
    while r.chain != null
      invariant PtrAt(buf, r, k') && p.pos <= r.pos <= |buf.Contents()|
      invariant NoByte(buf.Contents(), c, p.pos, r.pos)
      decreases |buf.chains| - k'
    {
      var chain := r.chain;
      ChunkIs(buf, k');
      var j := FindInChunk(buf, chain, r.inChain, c, k');
      if j < chain.off {
        return Ptr(r.pos + (j - r.inChain), chain, j), true, k';
      }
      r, k' := Ptr(r.pos + (chain.off - r.inChain), chain.next, 0), k' + 1;
    }
    return r, false, k';
  }

  /** Where a run of end-of-line characters that starts at `i` ends. */
  ghost predicate RunUpTo(s: seq<byte>, i: int, j: int) {
    0 <= i <= j <= |s| && forall x :: i <= x < j ==> IsEol(s[x])
  }

  /** evbuffer_strspn with the set of both end-of-line characters. */
  method SpanEol(buf: EvBuffer, p: Ptr, ghost k: nat) returns (count: nat)
    requires buf.Valid() && PtrAt(buf, p, k) && p.chain != null
    ensures var s := buf.Contents(); var j := p.pos + count;
            RunUpTo(s, p.pos, j) && (j < |s| ==> !IsEol(s[j]))
  {
    hide Seg, Flatten, LastWithData, Window;
    var chain, i: nat := p.chain, p.inChain;
    ghost var k', s := k, buf.Contents();
    count := 0;
    WholeBuffer(buf);
    PtrBound(buf, p, k);
    while true
      invariant k' < |buf.chains| && chain == buf.chains[k'] && i <= |buf.parts[k']|
      invariant p.pos + count == |Flatten(buf.parts[..k'])| + i && RunUpTo(s, p.pos, p.pos + count)
      decreases |buf.chains| - k'
    {
      ChunkIs(buf, k');
      ghost var base := |Flatten(buf.parts[..k'])|;
      while i < chain.off
        invariant i <= chain.off && p.pos + count == base + i && RunUpTo(s, p.pos, p.pos + count)
      {
        assert chain.mem[chain.misalign..chain.misalign + chain.off][i] == s[base..base + chain.off][i];
        if !IsEol(chain.mem[chain.misalign + i]) {
          return;
        }
        i, count := i + 1, count + 1;
      }
      i := 0;
      if chain.next == null {
        return;
      }
      chain, k' := chain.next, k' + 1;
    }
  }

  datatype EolStyle = EolAny | EolCrlf | EolCrlfStrict | EolLf

  const CRLF: seq<byte> := [CR, LF]

  /** Is there a line terminator of this style, `len` bytes long, at position `i`? */
  ghost predicate EolAt(s: seq<byte>, style: EolStyle, i: int, len: nat) {
    && 0 <= i && i + len <= |s| && len > 0
    && match style
       case EolAny => RunUpTo(s, i, i + len) && (i + len < |s| ==> !IsEol(s[i + len]))
       case EolCrlf => if len == 1 then s[i] == LF else s[i..i + len] == CRLF
       case EolCrlfStrict => s[i..i + len] == CRLF
       case EolLf => s[i..i + len] == [LF]
  }

  ghost predicate NoEolAt(s: seq<byte>, style: EolStyle, a: int, b: int) {
    forall i, len: nat :: a <= i < b ==> !EolAt(s, style, i, len)
  }

  /** Every terminator starts with an end-of-line character. */
  lemma EolStarts(s: seq<byte>, style: EolStyle, i: int, len: nat)
    requires EolAt(s, style, i, len)
    ensures i < |s| && IsEol(s[i])
  {
    if (style == EolCrlf && len != 1) || style == EolCrlfStrict || style == EolLf {
      assert s[i..i + len][0] == s[i];
    }
  }

  lemma NoEolNone(s: seq<byte>, style: EolStyle, a: int, b: int)
    requires NoEol(s, a, b)
    ensures NoEolAt(s, style, a, b)
  {
    forall i, len: nat | a <= i < b ensures !EolAt(s, style, i, len) {
      if EolAt(s, style, i, len) {
        EolStarts(s, style, i, len);
      }
    }
  }

  /** A lone carriage return ends no line. */
  lemma LoneCr(s: seq<byte>, i: int)
    requires 0 <= i < |s| && s[i] != LF && !Occurs(s, CRLF, i)
    ensures forall len: nat :: !EolAt(s, EolCrlf, i, len)
  {
  }

  lemma NoEolMore(s: seq<byte>, style: EolStyle, a: int, b: int, c: int)
    requires NoEolAt(s, style, a, b) && NoEolAt(s, style, b, c)
    ensures NoEolAt(s, style, a, c)
  {
  }

  lemma NoEolStep(s: seq<byte>, style: EolStyle, a: int, b: int)
    requires NoEolAt(s, style, a, b) && forall len: nat :: !EolAt(s, style, b, len)
    ensures NoEolAt(s, style, a, b + 1)
  {
  }

  lemma StrictNone(s: seq<byte>, a: int, b: int)
    requires NoneIn(s, CRLF, a, b) && (b >= |s| - 1)
    ensures NoEolAt(s, EolCrlfStrict, a, |s|)
  {
    forall i, len: nat | a <= i < |s| ensures !EolAt(s, EolCrlfStrict, i, len) {
      StrictIs(s, i, len);
    }
  }

  lemma StrictIs(s: seq<byte>, i: int, len: nat)
    ensures EolAt(s, EolCrlfStrict, i, len) ==> Occurs(s, CRLF, i)
  {
    if EolAt(s, EolCrlfStrict, i, len) {
      assert |s[i..i + len]| == 2;
    }
  }

  lemma StrictBefore(s: seq<byte>, a: int, b: int)
    requires NoneIn(s, CRLF, a, b)
    ensures NoEolAt(s, EolCrlfStrict, a, b)
  {
    forall i, len: nat | a <= i < b ensures !EolAt(s, EolCrlfStrict, i, len) {
      StrictIs(s, i, len);
    }
  }

  lemma LfBefore(s: seq<byte>, a: nat, b: nat)
    requires a <= b <= |s| && NoByte(s, LF, a, b)
    ensures NoEolAt(s, EolLf, a, b)
  {
    forall i, len: nat | a <= i < b ensures !EolAt(s, EolLf, i, len) {
      if 0 < len && i + len <= |s| {
        assert s[i..i + len][0] == s[i];
      }
    }
  }

  /** The byte under a pointer. */
  lemma ByteAt(buf: EvBuffer, p: Ptr, k: nat)
    requires buf.Valid() && PtrAt(buf, p, k) && k < |buf.chains| && p.inChain < buf.chains[k].off
    ensures buf.chains[k].Ok() && p.pos < |buf.Contents()|
    ensures buf.chains[k].mem[buf.chains[k].misalign + p.inChain] == buf.Contents()[p.pos]
  {
    hide Seg, Flatten;
    ChunkIs(buf, k);
    var c, base := buf.chains[k], |Flatten(buf.parts[..k])|;
    assert c.mem[c.misalign..c.misalign + c.off][p.inChain] == buf.Contents()[base..base + c.off][p.inChain];
  }

  /** evbuffer_search_eol: the first line terminator of the style, from `start` on. */
  method SearchEol(buf: EvBuffer, start: Bound, style: EolStyle, ghost ks: nat)
    returns (r: Ptr, eolLen: nat, ghost k: nat)
    requires buf.Valid() && BoundOk(buf, start, ks)
    ensures var s := buf.Contents(); var from := StartOf(buf, start).pos;
            && (r.pos >= 0 ==> from <= r.pos && EolAt(s, style, r.pos, eolLen) && NoEolAt(s, style, from, r.pos))
            && (r.pos < 0 ==> r.pos == -1 && eolLen == 0 && NoEolAt(s, style, from, |s|))
    ensures r.pos >= 0 ==> PtrAt(buf, r, k)
  {
    hide Seg, Flatten, LastWithData, Window, NoEolAt, NoEol, NoneIn, NoByte;
    r, k, eolLen := StartOf(buf, start), ks, 0;
    ghost var s, from := buf.Contents(), r.pos;
    StartIs(buf, start, ks);
    PtrBound(buf, r, k);
    var found;
    match style {
      case EolAny =>
        r, found, k := FindEol(buf, r, k);
        NoEolNone(s, style, from, if found then r.pos else |s|);
        if found {
          eolLen := SpanEol(buf, r, k);
        }
      case EolCrlfStrict =>
        r, k := SearchRange(buf, CRLF, At(r), Unset, k, 0);
        if r.pos >= 0 {
          eolLen := 2;
          StrictBefore(s, from, r.pos);
        } else {
          StrictNone(s, from, |s| - 1);
        }
      case EolCrlf =>
        r, eolLen, k := SearchCrlf(buf, r, k);
      case EolLf =>
        r, found, k := StrChr(buf, r, LF, k);
        LfBefore(s, from, if found then r.pos else |s|);
        if found {
          eolLen := 1;
        }
    }
    if eolLen == 0 {
      r := r.(pos := -1);
    }
  }

  /** The loop for a line feed with or without a carriage return. */
  method SearchCrlf(buf: EvBuffer, start: Ptr, ghost ks: nat) returns (r: Ptr, eolLen: nat, ghost k: nat)
    requires buf.Valid() && PtrAt(buf, start, ks)
    ensures var s := buf.Contents();
            && (eolLen > 0 ==> start.pos <= r.pos && EolAt(s, EolCrlf, r.pos, eolLen) && NoEolAt(s, EolCrlf, start.pos, r.pos))
            && (eolLen == 0 ==> NoEolAt(s, EolCrlf, start.pos, |s|))
    ensures eolLen > 0 ==> PtrAt(buf, r, k)
  {
    hide Seg, Flatten, LastWithData, Window, NoEolAt, NoEol, EolAt;
    r, k := start, ks;
    ghost var s := buf.Contents();
    NoEolFrom(s, start.pos);
    var found;
    while true
      invariant PtrAt(buf, r, k) && start.pos <= r.pos && NoEolAt(s, EolCrlf, start.pos, r.pos)
      decreases |s| - r.pos
    {
      ghost var was := r.pos;
      r, found, k := FindEol(buf, r, k);
      NoEolNone(s, EolCrlf, was, if found then r.pos else |s|);
      NoEolMore(s, EolCrlf, start.pos, was, if found then r.pos else |s|);
      if !found {
        return r, 0, k;
      }
      ByteAt(buf, r, k);
      if r.chain.mem[r.chain.misalign + r.inChain] == LF {
        LfHere(s, r.pos);
        return r, 1, k;
      }
      var crlf := PtrMatches(buf, r, CRLF, k);
      if crlf {
        CrlfHere(s, r.pos);
        return r, 2, k;
      }
      LoneCr(s, r.pos);
      NoEolStep(s, EolCrlf, start.pos, r.pos);
      r, found, k := PtrSet(buf, r, 1, true, k);
      if !found {
        return r, 0, k;
      }
    }
  }

  lemma NoEolFrom(s: seq<byte>, a: int)
    ensures NoEolAt(s, EolCrlf, a, a)
  {
  }

  lemma LfHere(s: seq<byte>, i: int)
    requires 0 <= i < |s| && s[i] == LF
    ensures EolAt(s, EolCrlf, i, 1)
  {
  }

  lemma CrlfHere(s: seq<byte>, i: int)
    requires Occurs(s, CRLF, i)
    ensures EolAt(s, EolCrlf, i, 2)
  {
  }

  datatype Line = NoLine | Line(text: seq<byte>)

  /** evbuffer_readln: takes the first line and its terminator off the buffer. */
  method Readln(buf: EvBuffer, style: EolStyle) returns (r: Line)
    requires buf.Valid() && buf.PinsOk()
    modifies buf, buf.chains
    ensures buf.Valid() && buf.PinsOk()
    ensures var s := old(buf.Contents());
            match r
            case NoLine =>
              buf.Contents() == s && (old(buf.freezeStart) || NoEolAt(s, style, 0, |s|))
            case Line(text) =>
              && !old(buf.freezeStart) && NoEolAt(s, style, 0, |text|)
              && exists eol: seq<byte> :: s == text + eol + buf.Contents() && EolAt(s, style, |text|, |eol|)
  {
    hide Seg, Distinct, Flatten, LastWithData, Window, PinsBehind, EolAt, NoEolAt;
    if buf.freezeStart {
      return NoLine;
    }
    var it, extra; ghost var k;
    it, extra, k := SearchEol(buf, Unset, style, 0);
    if it.pos < 0 {
      return NoLine;
    }
    EolBound(buf.Contents(), style, it.pos, extra);
    var text := TakeLine(buf, it.pos, extra);
    return Line(text);
  }

  lemma EolBound(s: seq<byte>, style: EolStyle, i: int, len: nat)
    requires EolAt(s, style, i, len)
    ensures i + len <= |s| && |s[i..i + len]| == len
  {
  }

  /** Removes `n` bytes into a new, terminated piece of memory. */
  method RemoveText(buf: EvBuffer, n: nat) returns (text: seq<byte>)
    requires buf.Valid() && buf.PinsOk() && !buf.freezeStart && n <= |buf.Contents()|
    modifies buf, buf.chains
    ensures buf.Valid() && buf.PinsOk() && !buf.freezeStart && |text| == n && old(buf.Contents()) == text + buf.Contents()
    ensures From(buf.chains, old(buf.chains), [])
  {
    hide Seg, Distinct, Flatten, LastWithData, Window, PinsBehind;
    WholeBuffer(buf);
    var line := new byte[n + 1](_ => 0);
    var _ := Remove(buf, line, n);
    text := line[..n];
  }

  /** Removes `n` bytes and drops `extra` more. */
  method TakeLine(buf: EvBuffer, n: nat, extra: nat) returns (text: seq<byte>)
    requires buf.Valid() && buf.PinsOk() && !buf.freezeStart && n + extra <= |buf.Contents()|
    modifies buf, buf.chains
    ensures buf.Valid() && buf.PinsOk() && |text| == n
    ensures old(buf.Contents()) == text + old(buf.Contents())[n..n + extra] + buf.Contents()
  {
    hide Seg, Distinct, Flatten, LastWithData, Window, PinsBehind;
    ghost var s := buf.Contents();
    text := RemoveText(buf, n);
    WholeBuffer(buf);
    ghost var left := buf.Contents();
    var _ := Drain(buf, extra);
    ThreeParts(s, text, left, n, extra);
  }

  lemma ThreeParts(s: seq<byte>, a: seq<byte>, b: seq<byte>, n: nat, extra: nat)
    requires s == a + b && |a| == n && extra <= |b|
    ensures s == a + s[n..n + extra] + b[extra..]
  {
  }
}

/** Runs of operations on two evbuffers against the same runs on two plain byte sequences. */
module BufferRuns {
  import opened Common
  import opened Flat
  import opened Chains
  import opened EvBuffers
  import opened BufferAdd
  import opened BufferDrain
  import opened BufferMove
  import opened BufferPullup
  import opened BufferSplit

  datatype Op1 = AddBytes(data: seq<byte>) | PrependBytes(data: seq<byte>) | DrainBytes(n: nat)
               | RemoveBytes(n: nat) | CopyBytes(n: nat) | PullBytes(size: int)

  datatype Op2 = AddAll | PrependAll | RemoveSome(n: nat)

  datatype Op = OnA(op: Op1) | OnB(op: Op1) | FromAToB(move: Op2) | FromBToA(move: Op2)

  /** What an operation does to a plain byte sequence, and the bytes that it hands out. */
  function Plain1(s: seq<byte>, op: Op1): (r: (seq<byte>, seq<byte>)) {
    match op
    case AddBytes(data) => (s + data, [])
    case PrependBytes(data) => (data + s, [])
    case DrainBytes(n) => (s[Min(n, |s|)..], [])
    case RemoveBytes(n) => (s[Min(n, |s|)..], s[..Min(n, |s|)])
    case CopyBytes(n) => (s, s[..Min(n, |s|)])
    case PullBytes(size) => (s, [])
  }

  /** What a move from `src` to `dst` does to the two plain sequences (source first). */
  function Plain2(src: seq<byte>, dst: seq<byte>, move: Op2): (r: (seq<byte>, seq<byte>)) {
    match move
    case AddAll => ([], dst + src)
    case PrependAll => ([], src + dst)
    case RemoveSome(n) => (src[Min(n, |src|)..], dst + src[..Min(n, |src|)])
  }

  datatype Plain = Plain(a: seq<byte>, b: seq<byte>, out: seq<byte>)

  function PlainStep(s: Plain, op: Op): Plain {
    match op
    case OnA(op1) => var r := Plain1(s.a, op1); Plain(r.0, s.b, s.out + r.1)
    case OnB(op1) => var r := Plain1(s.b, op1); Plain(s.a, r.0, s.out + r.1)
    case FromAToB(move) => var r := Plain2(s.a, s.b, move); Plain(r.0, r.1, s.out)
    case FromBToA(move) => var r := Plain2(s.b, s.a, move); Plain(r.1, r.0, s.out)
  }

  function PlainRun(s: Plain, ops: seq<Op>): Plain {
    if ops == [] then s else PlainStep(PlainRun(s, ops[..|ops| - 1]), ops[|ops| - 1])
  }

  /** Moves neither lose nor invent bytes. */
  lemma MoveConserves(src: seq<byte>, dst: seq<byte>, move: Op2)
    ensures var r := Plain2(src, dst, move);
            multiset(r.0) + multiset(r.1) == multiset(src) + multiset(dst)
  {
    match move
    case AddAll =>
    case PrependAll =>
    case RemoveSome(n) =>
      var k := Min(n, |src|);
      assert src == src[..k] + src[k..];
  }

  ghost predicate Good(buf: EvBuffer)
    reads buf, buf.chains
  {
    buf.Valid() && buf.Tight() && !buf.freezeStart && !buf.freezeEnd
  }

  lemma GoodPins(buf: EvBuffer)
    requires Good(buf)
    ensures buf.PinsOk() && forall c :: c in buf.chains ==> !c.Pinned()
    ensures |buf.Contents()| == buf.totalLen
  {
    hide Seg;
  }

  method Step1(buf: EvBuffer, op: Op1) returns (out: seq<byte>)
    requires Good(buf)
    modifies buf, buf.chains
    ensures Good(buf) && (buf.Contents(), out) == Plain1(old(buf.Contents()), op)
    ensures From(buf.chains, old(buf.chains), [])
  {
    hide Seg, Distinct, Flatten, Window, LastWithData, NoHoles, PinsBehind, AddAborts, AddKeepsPointer;
    GoodPins(buf);
    out := [];
    match op
    case AddBytes(data) =>
      TightAdd(buf, |data|);
      var _ := Add(buf, data);
    case PrependBytes(data) =>
      var _ := Prepend(buf, data);
    case DrainBytes(n) =>
      var _ := Drain(buf, n);
    case RemoveBytes(n) =>
      var mem := new byte[n](_ => 0);
      var k := Remove(buf, mem, n);
      out := mem[..k];
    case CopyBytes(n) =>
      var mem := new byte[n](_ => 0);
      var k := Copyout(buf, mem, n);
      out := mem[..k];
    case PullBytes(size) =>
      var _ := Pullup(buf, size);
  }

  method Step2(src: EvBuffer, dst: EvBuffer, move: Op2)
    requires Good(src) && Good(dst) && src != dst && Disjoint(src.chains, dst.chains)
    modifies src, src.chains, dst, dst.chains
    ensures Good(src) && Good(dst) && Disjoint(src.chains, dst.chains)
    ensures (src.Contents(), dst.Contents()) == Plain2(old(src.Contents()), old(dst.Contents()), move)
    ensures From(src.chains, old(src.chains), old(dst.chains))
    ensures From(dst.chains, old(src.chains), old(dst.chains))
  {
    hide Seg, Distinct, Flatten, Window, LastWithData, NoHoles, PinsBehind;
    GoodPins(src);
    GoodPins(dst);
    assert dst.Contents() + [] == dst.Contents() && [] + dst.Contents() == dst.Contents();
    match move
    case AddAll =>
      var _ := AddBuffer(dst, src);
    case PrependAll =>
      var _ := PrependBuffer(dst, src);
    case RemoveSome(n) =>
      var _ := RemoveBuffer(src, dst, n);
  }

  method Step(a: EvBuffer, b: EvBuffer, op: Op) returns (out: seq<byte>)
    requires Good(a) && Good(b) && a != b && Disjoint(a.chains, b.chains)
    modifies a, a.chains, b, b.chains
    ensures Good(a) && Good(b) && Disjoint(a.chains, b.chains)
    ensures forall was :: Plain(a.Contents(), b.Contents(), was + out)
                          == PlainStep(Plain(old(a.Contents()), old(b.Contents()), was), op)
    ensures From(a.chains, old(a.chains), old(b.chains))
    ensures From(b.chains, old(a.chains), old(b.chains))
  {
    hide Good;
    match op
    case OnA(op1) =>
      out := Step1(a, op1);
      StillApart(a.chains, old(a.chains), b.chains);
    case OnB(op1) =>
      StillApart(b.chains, b.chains, a.chains);
      out := Step1(b, op1);
      StillApart(b.chains, old(b.chains), a.chains);
    case FromAToB(move) =>
      out := [];
      Step2(a, b, move);
    case FromBToA(move) =>
      out := [];
      StillApart(b.chains, b.chains, a.chains);
      Step2(b, a, move);
      StillApart(b.chains, b.chains, a.chains);
  }

  /** Over every run, two evbuffers behave like two plain byte sequences. */
  method Run(a: EvBuffer, b: EvBuffer, ops: seq<Op>) returns (out: seq<byte>)
    requires Good(a) && Good(b) && a != b && Disjoint(a.chains, b.chains)
    modifies a, a.chains, b, b.chains
    ensures Good(a) && Good(b) && Disjoint(a.chains, b.chains)
    ensures Plain(a.Contents(), b.Contents(), out)
            == PlainRun(Plain(old(a.Contents()), old(b.Contents()), []), ops)
  {
    hide Good, PlainRun, PlainStep, Disjoint;
    out := [];
    RunEnds(Plain(a.Contents(), b.Contents(), []), ops);
    for i := 0 to |ops|
      invariant Good(a) && Good(b) && Disjoint(a.chains, b.chains)
      invariant From(a.chains, old(a.chains), old(b.chains))
      invariant From(b.chains, old(a.chains), old(b.chains))
      invariant Plain(a.Contents(), b.Contents(), out)
                == PlainRun(Plain(old(a.Contents()), old(b.Contents()), []), ops[..i])
    {
      var more := Step(a, b, ops[i]);
      out := out + more;
      RunNext(Plain(old(a.Contents()), old(b.Contents()), []), ops, i);
    }
  }

  lemma RunEnds(p: Plain, ops: seq<Op>)
    ensures PlainRun(p, ops[..0]) == p && ops[..|ops|] == ops
  {
  }

  lemma RunNext(p: Plain, ops: seq<Op>, i: nat)
    requires i < |ops|
    ensures PlainRun(p, ops[..i + 1]) == PlainStep(PlainRun(p, ops[..i]), ops[i])
  {
    assert ops[..i + 1][..i] == ops[..i];
  }
}

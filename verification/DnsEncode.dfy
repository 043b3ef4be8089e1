/** Writing names into a DNS message, with compression, and reading them back. */
module DnsEncode {
  import opened Flat
  import opened DnsNames

  datatype Entry = Entry(v: seq<byte>, pos: nat)

  class LabelTable {
    var n: nat
    const labels: array<Entry>

    constructor ()
      ensures Valid() && Entries() == [] && fresh(labels)
    {
      n, labels := 0, new Entry[MAX_LABELS](_ => Entry([], 0));
    }

    ghost predicate Valid()
      reads this
    {
      n <= labels.Length == MAX_LABELS
    }

    ghost function Entries(): seq<Entry>
      requires Valid()
      reads this, labels
    {
      labels[..n]
    }

    /** dnslabel_table_get_pos: the position of the first entry for `name`, or -1. */
    method GetPos(name: seq<byte>) returns (pos: int)
      requires Valid()
      ensures pos >= 0 ==> Entry(name, pos) in Entries()
      ensures pos < 0 ==> forall e :: e in Entries() ==> e.v != name
    {
      for i := 0 to n
        invariant forall k :: 0 <= k < i ==> labels[k].v != name
      {
        if labels[i].v == name {
          assert Entries()[i] == labels[i];
          return labels[i].pos;
        }
      }
      return -1;
    }

    /** dnslabel_table_add: a full table takes no more. */
    method Add(name: seq<byte>, pos: nat) returns (r: int)
      requires Valid()
      modifies this`n, labels
      ensures Valid()
      ensures if old(n) == MAX_LABELS then r == -1 && Entries() == old(Entries())
              else r == 0 && Entries() == old(Entries()) + [Entry(name, pos)]
    {
      if n == MAX_LABELS {
        return -1;
      }
      labels[n] := Entry(name, pos);
      n := n + 1;
      return 0;
    }
  }

  /** `ref | 0xc000` in two bytes. */
  function PointerBytes(pos: nat): (b: seq<byte>) {
    [192 + pos / 256 % 64, pos % 256]
  }

  /** A pointer has 14 bits: one to a place from 0x4000 on leads somewhere else. */
  lemma PointerIff(pos: nat)
    ensures PointerAt(PointerBytes(pos), 0) == pos <==> pos < MAX_POINTER
  {
    assert PointerAt(PointerBytes(pos), 0) == pos / 256 % 64 * 256 + pos % 256 < MAX_POINTER;
  }

  /** Every entry leads to the name that it says, within the first bytes `s` of the message. */
  ghost predicate EntriesOk(entries: seq<Entry>, s: seq<byte>) {
    forall e :: e in entries ==> Leads(e, s)
  }

  ghost predicate Leads(e: Entry, s: seq<byte>) {
    && e.pos < |s| && e.pos < MAX_POINTER
    && Denote(s, e.pos, e.pos).Found? && Denote(s, e.pos, e.pos).labels == LabelsOf(e.v)
  }

  lemma EntriesExtend(entries: seq<Entry>, s: seq<byte>, more: seq<byte>)
    requires EntriesOk(entries, s) && s <= more
    ensures EntriesOk(entries, more)
  {
    forall e | e in entries ensures Leads(e, more) {
      assert Leads(e, s);
      DenoteExtend(s, more, e.pos, e.pos);
    }
  }

  /** From position `p` to `q` of `s` there is the first label of `name`, and `rest` is what
      follows its dot. */
  ghost predicate StepAt(s: seq<byte>, p: nat, q: nat, name: seq<byte>, rest: seq<byte>) {
    && p < q <= |s| && s[p] < 64 && q == p + 1 + s[p]
    && IndexOf(name, DOT) == s[p] < |name| && name[..s[p]] == s[p + 1..q] && rest == name[s[p] + 1..]
  }

  /** The labels written so far: the suffixes of the name, and where each one starts. */
  ghost predicate Run(s: seq<byte>, ps: seq<nat>, names: seq<seq<byte>>) {
    && |ps| == |names| > 0
    && forall k :: 0 <= k < |ps| - 1 ==> StepAt(s, ps[k], ps[k + 1], names[k], names[k + 1])
  }

  lemma RunExtend(s: seq<byte>, more: seq<byte>, ps: seq<nat>, names: seq<seq<byte>>)
    requires Run(s, ps, names) && s <= more
    ensures Run(more, ps, names)
  {
    forall k | 0 <= k < |ps| - 1 ensures StepAt(more, ps[k], ps[k + 1], names[k], names[k + 1]) {
      assert StepAt(s, ps[k], ps[k + 1], names[k], names[k + 1]);
      assert s[ps[k] + 1..ps[k + 1]] == more[ps[k] + 1..ps[k + 1]];
    }
  }

  lemma RunSnoc(s: seq<byte>, ps: seq<nat>, names: seq<seq<byte>>, q: nat, rest: seq<byte>)
    requires Run(s, ps, names) && StepAt(s, ps[|ps| - 1], q, names[|ps| - 1], rest)
    ensures Run(s, ps + [q], names + [rest])
  {
    hide StepAt;
    var ps', names' := ps + [q], names + [rest];
    forall k | 0 <= k < |ps'| - 1 ensures StepAt(s, ps'[k], ps'[k + 1], names'[k], names'[k + 1]) {
      if k < |ps| - 1 {
        assert StepAt(s, ps[k], ps[k + 1], names[k], names[k + 1]);
      }
    }
  }

  /** Once the end of the run is a name, so is every part of it. */
  lemma {:induction false} RunBack(s: seq<byte>, start: nat, ps: seq<nat>, names: seq<seq<byte>>, k: nat, end: nat)
    requires Run(s, ps, names) && k < |ps| && ValidName(names[k])
    requires ValidName(names[|ps| - 1])
             ==> Denote(s, start, ps[|ps| - 1]) == Found(LabelsOf(names[|ps| - 1]), end)
    ensures Denote(s, start, ps[k]) == Found(LabelsOf(names[k]), end)
    decreases |ps| - k
  {
    if k < |ps| - 1 {
      assert StepAt(s, ps[k], ps[k + 1], names[k], names[k + 1]);
      RunBack(s, start, ps, names, k + 1, end);
    }
  }

  lemma {:induction false} RunValid(s: seq<byte>, ps: seq<nat>, names: seq<seq<byte>>, k: nat)
    requires Run(s, ps, names) && k < |ps| && ValidName(names[0])
    ensures ValidName(names[k])
  {
    if k > 0 {
      RunValid(s, ps, names, k - 1);
      assert StepAt(s, ps[k - 1], ps[k], names[k - 1], names[k]);
    }
  }

  /** Where the run is: it starts at `j0` with the whole name, and each step takes as many bytes of
      the message as of the name. */
  ghost predicate Placed(ps: seq<nat>, names: seq<seq<byte>>, j0: nat, name: seq<byte>, j: nat, rest: seq<byte>) {
    && |ps| == |names| > 0 && ps[0] == j0 && names[0] == name && ps[|ps| - 1] == j && names[|ps| - 1] == rest
    && (forall k :: 0 <= k < |ps| ==> j0 <= ps[k] && ps[k] + |names[k]| == j0 + |name|)
    && (forall k :: 0 <= k < |ps| - 1 ==> ps[k] < j)
  }

  /** The new entries are those of the first labels of the run. */
  ghost predicate Recorded(added: seq<Entry>, ps: seq<nat>, names: seq<seq<byte>>) {
    |added| < |ps| == |names| && forall i :: 0 <= i < |added| ==> added[i] == Entry(names[i], ps[i])
  }

  /** The state of the loop of dnsname_to_labels. */
  ghost predicate Encoding(s: seq<byte>, ps: seq<nat>, names: seq<seq<byte>>, j0: nat, name: seq<byte>, j: nat,
                           rest: seq<byte>, added: seq<Entry>)
  {
    |s| == j && Run(s, ps, names) && Placed(ps, names, j0, name, j, rest) && Recorded(added, ps, names)
  }

  lemma EncodingStart(s: seq<byte>, name: seq<byte>)
    ensures Encoding(s, [|s|], [name], |s|, name, |s|, name, [])
  {
  }

  lemma EncodingStep(s: seq<byte>, more: seq<byte>, ps: seq<nat>, names: seq<seq<byte>>, j0: nat, name: seq<byte>, j: nat,
                     rest: seq<byte>, added: seq<Entry>, rest': seq<byte>, added': seq<Entry>)
    requires Encoding(s, ps, names, j0, name, j, rest, added) && s <= more
    requires StepAt(more, j, |more|, rest, rest')
    requires added' == added || (|added| == |ps| - 1 && added' == added + [Entry(rest, j)])
    ensures Encoding(more, ps + [|more|], names + [rest'], j0, name, |more|, rest', added')
  {
    RunExtend(s, more, ps, names);
    RunSnoc(more, ps, names, |more|, rest');
  }

  /** An entry for what is left of the name is not from this name. */
  lemma OldEntry(es: seq<Entry>, added: seq<Entry>, s: seq<byte>, ps: seq<nat>, names: seq<seq<byte>>, j0: nat,
                 name: seq<byte>, j: nat, rest: seq<byte>, pos: nat)
    requires Encoding(s, ps, names, j0, name, j, rest, added) && Entry(rest, pos) in es + added
    ensures Entry(rest, pos) in es
  {
    forall i | 0 <= i < |added| ensures added[i] != Entry(rest, pos) {
      assert ps[i] < j;
    }
  }

  /** The run is complete: the name is in the message, and the table leads to it. */
  lemma Finish(es: seq<Entry>, s0: seq<byte>, s: seq<byte>, more: seq<byte>, ps: seq<nat>, names: seq<seq<byte>>, j0: nat,
               name: seq<byte>, j: nat, rest: seq<byte>, added: seq<Entry>, added': seq<Entry>)
    requires Encoding(s, ps, names, j0, name, j, rest, added) && s <= more && ValidName(name)
    requires j0 <= j < |more| && j < MAX_POINTER && |s0| == j0 && s0 <= s && EntriesOk(es, s0)
    requires ValidName(rest) ==> Denote(more, j0, j) == Found(LabelsOf(rest), |more|)
    requires added' == added || (|added| == |ps| - 1 && added' == added + [Entry(rest, j)])
    ensures Denote(more, j0, j0) == Found(LabelsOf(name), |more|) && EntriesOk(es + added', more)
  {
    hide Denote, LabelsOf, ValidName, StepAt;
    RunExtend(s, more, ps, names);
    RunBack(more, j0, ps, names, 0, |more|);
    EntriesExtend(es, s0, more);
    forall e | e in es + added' ensures Leads(e, more) {
      if e !in es {
        var i :| 0 <= i < |added'| && added'[i] == e;
        assert e == Entry(names[i], ps[i]);
        RunValid(more, ps, names, i);
        RunBack(more, j0, ps, names, i, |more|);
        DenoteStart(more, j0, ps[i], ps[i]);
      }
    }
  }

  /** memcpy. */
  method Put(buf: array<byte>, at: nat, data: seq<byte>)
    requires at + |data| <= buf.Length
    modifies buf
    ensures buf[..at] == old(buf[..at]) && buf[..at + |data|] == old(buf[..at]) + data
  {
    forall i | 0 <= i < |data| {
      buf[at + i] := data[i];
    }
  }

  lemma PointerEnds(es: seq<Entry>, s0: seq<byte>, s: seq<byte>, more: seq<byte>, ps: seq<nat>, names: seq<seq<byte>>, j0: nat,
                    name: seq<byte>, j: nat, rest: seq<byte>, added: seq<Entry>, ref: nat)
    requires Encoding(s, ps, names, j0, name, j, rest, added) && Entry(rest, ref) in es
    requires j0 <= j == |s| && |s0| == j0 && s0 <= s && more == s + PointerBytes(ref)
    ensures ValidName(name) && EntriesOk(es, s0) && |more| <= MAX_POINTER ==>
              Denote(more, j0, j0) == Found(LabelsOf(name), |more|) && EntriesOk(es + added, more)
  {
    hide Denote, LabelsOf, ValidName, StepAt, EntriesOk, Encoding;
    if ValidName(name) && EntriesOk(es, s0) && |more| <= MAX_POINTER {
      PointerDenotes(s0, s, more, j0, Entry(rest, ref), es);
      Finish(es, s0, s, more, ps, names, j0, name, j, rest, added, added);
    }
  }

  lemma LastEnds(es: seq<Entry>, s0: seq<byte>, s: seq<byte>, more: seq<byte>, ps: seq<nat>, names: seq<seq<byte>>, j0: nat,
                 name: seq<byte>, j: nat, rest: seq<byte>, added: seq<Entry>, added': seq<Entry>)
    requires Encoding(s, ps, names, j0, name, j, rest, added) && IndexOf(rest, DOT) == |rest| <= 63
    requires j0 <= j == |s| && |s0| == j0 && s0 <= s && more == s + [|rest|] + rest + (if rest == [] then [] else [0])
    requires added' == added || (|added| == |ps| - 1 && added' == added + [Entry(rest, j)])
    ensures ValidName(name) && EntriesOk(es, s0) && |more| <= MAX_POINTER ==>
              Denote(more, j0, j0) == Found(LabelsOf(name), |more|) && EntriesOk(es + added', more)
  {
    hide Denote, LabelsOf, ValidName, StepAt, EntriesOk, Encoding;
    if ValidName(name) && EntriesOk(es, s0) && |more| <= MAX_POINTER {
      LastDenotes(s, more, rest, j0);
      Finish(es, s0, s, more, ps, names, j0, name, j, rest, added, added');
    }
  }

  /** Writes the next label, which ends at a dot. */
  method NextLabel(buf: array<byte>, j: nat, k: nat, rest: seq<byte>, ghost ps: seq<nat>, ghost names: seq<seq<byte>>,
                   ghost j0: nat, ghost name: seq<byte>, ghost added: seq<Entry>, ghost added': seq<Entry>)
    requires j0 <= j && j + 1 + k <= buf.Length && k == IndexOf(rest, DOT) < |rest| && k <= 63
    requires Encoding(buf[..j], ps, names, j0, name, j, rest, added)
    requires added' == added || (|added| == |ps| - 1 && added' == added + [Entry(rest, j)])
    modifies buf
    ensures buf[..j0] == old(buf[..j0])
    ensures Encoding(buf[..j + 1 + k], ps + [j + 1 + k], names + [rest[k + 1..]], j0, name, j + 1 + k, rest[k + 1..], added')
  {
    hide Encoding, StepAt;
    ghost var s := buf[..j];
    PutLabel(buf, j, rest[..k]);
    LabelStep(s, buf[..j + 1 + k], rest, k);
    EncodingStep(s, buf[..j + 1 + k], ps, names, j0, name, j, rest, added, rest[k + 1..], added');
    assert s[..j0] == buf[..j0];
  }

  /** A label of `name` may start at `i`. */
  predicate Boundary(name: seq<byte>, i: nat) {
    i <= |name| && (i == 0 || name[i - 1] == DOT)
  }

  /** Every label is short enough, and the table knows no rest of the name: all labels are written. */
  ghost predicate Unpacked(name: seq<byte>, es: seq<Entry>) {
    forall i: nat :: Boundary(name, i) ==> IndexOf(name[i..], DOT) <= 63 && forall e :: e in es ==> e.v != name[i..]
  }

  /** The name does not end in a dot, nor is it empty. */
  predicate EndsOpen(name: seq<byte>) {
    name != [] && name[|name| - 1] != DOT
  }

  /** When the zero at the end of the name is written to the byte behind the buffer: all labels are
      written, and fill it. */
  ghost predicate Overruns(name: seq<byte>, es: seq<Entry>, j0: nat, bufLen: nat) {
    |name| <= 255 && Unpacked(name, es) && EndsOpen(name) && j0 + |name| + 1 == bufLen
  }

  /** When an encoding that fails has put the name into the table: its first label was written. */
  ghost predicate Starts(name: seq<byte>, es: seq<Entry>, j0: nat, bufLen: nat) {
    && |name| <= 255 && |es| < MAX_LABELS && (forall e :: e in es ==> e.v != name)
    && IndexOf(name, DOT) <= 63 && j0 + IndexOf(name, DOT) + 1 <= bufLen
  }

  /** What has been written of `name` decides neither of the two in another way than the `rest` does. */
  ghost predicate Tracks(name: seq<byte>, rest: seq<byte>, es: seq<Entry>, added: seq<Entry>, first: bool, j: nat, j0: nat,
                         bufLen: nat) {
    && (Unpacked(name, es) <==> Unpacked(rest, es)) && (EndsOpen(name) <==> EndsOpen(rest))
    && j + |rest| == j0 + |name| && |name| <= 255 && |es| <= MAX_LABELS
    && if first then rest == name && added == [] else (added != [] <==> Starts(name, es, j0, bufLen))
                                                      && (|es| < MAX_LABELS ==> added != [])
  }

  lemma UnpackedStep(rest: seq<byte>, es: seq<Entry>)
    ensures var k := IndexOf(rest, DOT);
            Unpacked(rest, es) <==> k <= 63 && (forall e :: e in es ==> e.v != rest)
                                    && (k < |rest| ==> Unpacked(rest[k + 1..], es))
  {
    hide IndexOf;
    var k := IndexOf(rest, DOT);
    assert rest[0..] == rest && Boundary(rest, 0);
    if k < |rest| {
      var more := rest[k + 1..];
      forall i: nat | Boundary(more, i) ensures Boundary(rest, k + 1 + i) && more[i..] == rest[k + 1 + i..] {
      }
      forall i: nat | Boundary(rest, i) && i > 0 ensures i > k && Boundary(more, i - k - 1) && rest[i..] == more[i - k - 1..] {
      }
      if Unpacked(more, es) && k <= 63 && forall e :: e in es ==> e.v != rest {
        forall i: nat | Boundary(rest, i)
          ensures IndexOf(rest[i..], DOT) <= 63 && forall e :: e in es ==> e.v != rest[i..]
        {
        }
      }
    } else {
      forall i: nat | Boundary(rest, i) ensures i == 0 {
      }
    }
  }

  lemma TracksStart(name: seq<byte>, es: seq<Entry>, j0: nat, bufLen: nat)
    requires |name| <= 255 && |es| <= MAX_LABELS
    ensures Tracks(name, name, es, [], true, j0, j0, bufLen)
  {
  }

  lemma NotThatLong(name: seq<byte>, es: seq<Entry>, j0: nat, bufLen: nat)
    requires |name| > 255
    ensures !Overruns(name, es, j0, bufLen) && !Starts(name, es, j0, bufLen)
  {
  }

  lemma TracksNext(name: seq<byte>, rest: seq<byte>, es: seq<Entry>, added: seq<Entry>, first: bool, j: nat, j0: nat,
                   bufLen: nat, added': seq<Entry>)
    requires Tracks(name, rest, es, added, first, j, j0, bufLen) && forall e :: e in es + added ==> e.v != rest
    requires var k := IndexOf(rest, DOT); k < |rest| && k <= 63 && j + k + 1 <= bufLen
    requires added' == if |es + added| == MAX_LABELS then added else added + [Entry(rest, j)]
    ensures var k := IndexOf(rest, DOT); Tracks(name, rest[k + 1..], es, added', false, j + 1 + k, j0, bufLen)
  {
    hide IndexOf, Unpacked, EndsOpen;
    UnpackedStep(rest, es);
    EndsOpenStep(rest, IndexOf(rest, DOT));
    InFirst(es, added);
  }

  lemma EndsOpenStep(rest: seq<byte>, k: nat)
    requires k < |rest| && rest[k] == DOT
    ensures EndsOpen(rest) <==> EndsOpen(rest[k + 1..])
  {
  }

  lemma InFirst<T>(a: seq<T>, b: seq<T>)
    ensures forall x :: x in a ==> x in a + b
    ensures |a + b| == |a| + |b|
  {
  }

  /** The encoding stops here because of a pointer, of a label that is too long, or for lack of room. */
  lemma TracksStop(name: seq<byte>, rest: seq<byte>, es: seq<Entry>, added: seq<Entry>, first: bool, j: nat, j0: nat, bufLen: nat)
    requires Tracks(name, rest, es, added, first, j, j0, bufLen)
    requires (exists e :: e in es && e.v == rest) || IndexOf(rest, DOT) > 63 || j + IndexOf(rest, DOT) + 1 > bufLen
    ensures !Overruns(name, es, j0, bufLen) && (es + added != es <==> Starts(name, es, j0, bufLen))
    ensures Unpacked(name, es) ==> IndexOf(rest, DOT) <= 63 && j0 + |name| + 1 > bufLen && forall e :: e in es ==> e.v != rest
  {
    hide IndexOf, Unpacked;
    UnpackedStep(rest, es);
    InFirst(es, added);
  }

  lemma TracksEnd(name: seq<byte>, rest: seq<byte>, es: seq<Entry>, added: seq<Entry>, first: bool, j: nat, j0: nat, bufLen: nat)
    requires Tracks(name, rest, es, added, first, j, j0, bufLen) && forall e :: e in es + added ==> e.v != rest
    requires IndexOf(rest, DOT) == |rest| <= 63 && 0 !in rest
    ensures Overruns(name, es, j0, bufLen) <==> rest != [] && j + |rest| + 1 == bufLen
    ensures rest != [] <==> EndsOpen(name)
  {
    hide Unpacked;
    UnpackedStep(rest, es);
    InFirst(es, added);
  }

  /** Puts the rest of the name into the table, unless that is full. */
  method Record(table: LabelTable, rest: seq<byte>, j: nat, ghost es: seq<Entry>, ghost added: seq<Entry>)
    returns (ghost added': seq<Entry>)
    requires table.Valid() && table.Entries() == es + added
    modifies table`n, table.labels
    ensures table.Valid() && table.Entries() == es + added'
    ensures added' == if |es + added| == MAX_LABELS then added else added + [Entry(rest, j)]
    ensures table.n == |es + added'| && old(table.n) == |es + added|
  {
    var _ := table.Add(rest, j);
    added' := if |es + added| == MAX_LABELS then added else added + [Entry(rest, j)];
    assert es + added + [Entry(rest, j)] == es + (added + [Entry(rest, j)]);
  }

  lemma StillNoZero(rest: seq<byte>, k: nat)
    requires k < |rest| && 0 !in rest
    ensures 0 !in rest[k + 1..]
  {
  }

  /** dnsname_to_labels. The zero at the end of a name is written without a look at `bufLen`; where that
      is outside of the memory it is left out here. */
  method EncodeName(buf: array<byte>, bufLen: nat, j0: nat, name: seq<byte>, table: LabelTable) returns (r: int)
    requires j0 <= bufLen <= buf.Length && table.Valid() && 0 !in name
    modifies buf, table`n, table.labels
    ensures table.Valid() && buf[..j0] == old(buf[..j0])
    ensures r >= 0 ==> j0 < r <= bufLen + 1 && r <= j0 + |name| + 2
    ensures |name| <= 255 && old(Unpacked(name, table.Entries())) ==>
              r == if j0 + |name| + 1 > bufLen then -2 else j0 + |name| + 1 + if EndsOpen(name) then 1 else 0
    ensures r == bufLen + 1 <==> old(Overruns(name, table.Entries(), j0, bufLen))
    ensures r < 0 ==> r == -1 || r == -2
    ensures r == -1 ==> !ValidName(name)
    ensures r == -2 ==> |name| > 255 || j0 + |name| + 2 > bufLen
    ensures r < 0 ==> (table.Entries() != old(table.Entries()) <==> old(Starts(name, table.Entries(), j0, bufLen)))
    ensures old(table.Entries()) <= table.Entries()
    ensures 0 <= r <= MAX_POINTER && r <= buf.Length && ValidName(name) && old(EntriesOk(table.Entries(), buf[..j0])) ==>
              && Denote(buf[..r], j0, j0) == Found(LabelsOf(name), r)
              && EntriesOk(table.Entries(), buf[..r])
  {
    hide Denote, LabelsOf, ValidName, StepAt, EntriesOk, Encoding, Tracks, Starts, Overruns, Unpacked, EndsOpen, IndexOf;
    if |name| > 255 {
      NotThatLong(name, table.Entries(), j0, bufLen);
      return -2;
    }
    ghost var es, s0 := table.Entries(), buf[..j0];
    var j: nat, rest: seq<byte> := j0, name;
    ghost var ps: seq<nat>, names: seq<seq<byte>>, added: seq<Entry> := [j0], [name], [];
    ghost var first := true;
    EncodingStart(s0, name);
    TracksStart(name, es, j0, bufLen);
    assert es + added == es;
    while true
      invariant Tracks(name, rest, es, added, first, j, j0, bufLen)
      invariant table.Valid() && j0 <= j <= bufLen && buf[..j0] == s0 && 0 !in rest
      invariant j + |rest| == j0 + |name| && table.Entries() == es + added
      invariant Encoding(buf[..j], ps, names, j0, name, j, rest, added)
      invariant table.n < MAX_LABELS ==> |added| == |ps| - 1
      decreases |rest|
    {
      ghost var s := buf[..j];
      var ref := table.GetPos(rest);
      if ref >= 0 {
        OldEntry(es, added, s, ps, names, j0, name, j, rest, ref);
        TracksStop(name, rest, es, added, first, j, j0, bufLen);
        if j + 2 > bufLen {
          return -2;
        }
        Put(buf, j, PointerBytes(ref));
        PointerEnds(es, s0, s, buf[..j + 2], ps, names, j0, name, j, rest, added, ref);
        return j + 2;
      }
      var k := IndexOf(rest, DOT);
      if k > 63 {
        TooLong(s, ps, names, j0, name, j, rest, added);
        TracksStop(name, rest, es, added, first, j, j0, bufLen);
        return -1;
      }
      if j + k + 1 > bufLen {
        TracksStop(name, rest, es, added, first, j, j0, bufLen);
        return -2;
      }
      ghost var added' := Record(table, rest, j, es, added);
      if k == |rest| {
        TracksEnd(name, rest, es, added, first, j, j0, bufLen);
        r := PutLast(buf, j, rest);
        if r <= buf.Length {
          LastEnds(es, s0, s, buf[..r], ps, names, j0, name, j, rest, added, added');
        }
        return;
      }
      TracksNext(name, rest, es, added, first, j, j0, bufLen, added');
      NextLabel(buf, j, k, rest, ps, names, j0, name, added, added');
      StillNoZero(rest, k);
      j, rest := j + 1 + k, rest[k + 1..];
      ps, names, added, first := ps + [j], names + [rest], added', false;
    }
  }

  /** One byte for the length, and the label. */
  method PutLabel(buf: array<byte>, at: nat, part: seq<byte>)
    requires at + 1 + |part| <= buf.Length && |part| <= 63
    modifies buf
    ensures buf[..at] == old(buf[..at]) && buf[..at + 1 + |part|] == old(buf[..at]) + [|part|] + part
  {
    Put(buf, at, [|part|]);
    Put(buf, at + 1, part);
  }

  /** The last label, and a zero unless the label itself is one. */
  method PutLast(buf: array<byte>, at: nat, part: seq<byte>) returns (j: nat)
    requires at + 1 + |part| <= buf.Length && |part| <= 63 && 0 !in part
    modifies buf
    ensures buf[..at] == old(buf[..at]) && j == at + 1 + |part| + if part == [] then 0 else 1
    ensures j <= buf.Length ==> buf[..j] == old(buf[..at]) + [|part|] + part + (if part == [] then [] else [0])
  {
    PutLabel(buf, at, part);
    j := at + 1 + |part|;
    ghost var s := buf[..j];
    assert buf[j - 1] == s[j - 1];
    if buf[j - 1] != 0 {
      if j < buf.Length {
        Put(buf, j, [0]);
      }
      j := j + 1;
    }
  }

  lemma LabelStep(s: seq<byte>, more: seq<byte>, name: seq<byte>, k: nat)
    requires k == IndexOf(name, DOT) < |name| && k <= 63 && more == s + [k] + name[..k]
    ensures StepAt(more, |s|, |more|, name, name[k + 1..])
  {
    hide IndexOf;
    assert more[|s|] == k && more[|s| + 1..|more|] == name[..k];
  }

  /** A label of more than 63 bytes comes from a name that is not valid. */
  lemma TooLong(s: seq<byte>, ps: seq<nat>, names: seq<seq<byte>>, j0: nat, name: seq<byte>, j: nat, rest: seq<byte>,
                added: seq<Entry>)
    requires Encoding(s, ps, names, j0, name, j, rest, added) && IndexOf(rest, DOT) > 63
    ensures !ValidName(name)
  {
    if ValidName(name) {
      RunValid(s, ps, names, |ps| - 1);
    }
  }

  /** A pointer to an earlier entry for the rest of the name. */
  lemma PointerDenotes(s0: seq<byte>, s: seq<byte>, more: seq<byte>, j0: nat, e: Entry, es: seq<Entry>)
    requires s0 <= s <= more && |s0| == j0 && e in es && EntriesOk(es, s0)
    requires more == s + PointerBytes(e.pos)
    ensures Denote(more, j0, |s|) == Found(LabelsOf(e.v), |more|)
  {
    assert Leads(e, s0);
    DenoteExtend(s0, more, e.pos, e.pos);
    assert PointerAt(more, |s|) == e.pos;
  }

  /** The last label, and the zero behind it unless the label is empty. */
  lemma LastDenotes(s: seq<byte>, more: seq<byte>, rest: seq<byte>, start: nat)
    requires IndexOf(rest, DOT) == |rest| <= 63
    requires more == s + [|rest|] + rest + (if rest == [] then [] else [0])
    ensures Denote(more, start, |s|) == Found(LabelsOf(rest), |more|)
  {
    if rest != [] {
      assert more[|s| + 1..|s| + 1 + |rest|] == rest;
      assert Denote(more, start, |s| + 1 + |rest|) == Found([], |more|);
    }
  }

  /** Name `k` of the list is at `starts[k]` of the message and ends before `ends[k]`. */
  ghost predicate AllThere(s: seq<byte>, names: seq<seq<byte>>, starts: seq<nat>, ends: seq<nat>) {
    && |names| == |starts| == |ends|
    && forall k :: 0 <= k < |names| ==>
         starts[k] <= |s| && Denote(s, starts[k], starts[k]) == Found(LabelsOf(names[k]), ends[k])
  }

  lemma AllExtend(s: seq<byte>, more: seq<byte>, names: seq<seq<byte>>, starts: seq<nat>, ends: seq<nat>)
    requires AllThere(s, names, starts, ends) && s <= more
    ensures AllThere(more, names, starts, ends)
  {
    forall k | 0 <= k < |names| ensures Denote(more, starts[k], starts[k]) == Denote(s, starts[k], starts[k]) {
      DenoteExtend(s, more, starts[k], starts[k]);
    }
  }

  lemma AllSnoc(s: seq<byte>, names: seq<seq<byte>>, starts: seq<nat>, ends: seq<nat>, name: seq<byte>, i: nat)
    requires AllThere(s, names, starts, ends) && i <= |s| && Denote(s, i, i) == Found(LabelsOf(name), |s|)
    ensures AllThere(s, names + [name], starts + [i], ends + [|s|])
  {
  }

  /** The bytes behind each name. */
  ghost predicate GapsThere(s: seq<byte>, gaps: seq<seq<byte>>, ends: seq<nat>) {
    && |gaps| == |ends|
    && forall k :: 0 <= k < |gaps| ==> GapAt(s, gaps[k], ends[k])
  }

  ghost predicate GapAt(s: seq<byte>, gap: seq<byte>, end: nat) {
    end + |gap| <= |s| && s[end..end + |gap|] == gap
  }

  lemma GapsExtend(s: seq<byte>, more: seq<byte>, gaps: seq<seq<byte>>, ends: seq<nat>, gap: seq<byte>, end: nat)
    requires GapsThere(s, gaps, ends) && s <= more && GapAt(more, gap, end)
    ensures GapsThere(more, gaps + [gap], ends + [end])
  {
    forall k | 0 <= k < |gaps| ensures GapAt(more, gaps[k], ends[k]) {
      assert GapAt(s, gaps[k], ends[k]);
      assert more[ends[k]..ends[k] + |gaps[k]|] == s[ends[k]..ends[k] + |gaps[k]|];
    }
  }

  /** Enough room for the names and the bytes between them, without any compression. */
  function Needed(names: seq<seq<byte>>, gaps: seq<seq<byte>>): (n: nat)
    requires |names| == |gaps|
  {
    if names == [] then 0
    else Needed(names[..|names| - 1], gaps[..|names| - 1]) + |names[|names| - 1]| + 2 + |gaps[|names| - 1]|
  }

  lemma NeededStep(names: seq<seq<byte>>, gaps: seq<seq<byte>>, i: nat)
    requires |names| == |gaps| && i < |names|
    ensures Needed(names[..i + 1], gaps[..i + 1]) == Needed(names[..i], gaps[..i]) + |names[i]| + 2 + |gaps[i]|
  {
    assert names[..i + 1][..i] == names[..i] && gaps[..i + 1][..i] == gaps[..i];
  }

  lemma {:induction false} NeededMono(names: seq<seq<byte>>, gaps: seq<seq<byte>>, i: nat)
    requires |names| == |gaps| && i <= |names|
    ensures Needed(names[..i], gaps[..i]) <= Needed(names, gaps)
    decreases |names| - i
  {
    if i < |names| {
      NeededStep(names, gaps, i);
      NeededMono(names, gaps, i + 1);
    } else {
      assert names[..i] == names && gaps[..i] == gaps;
    }
  }

  /** The names are short enough, and there is room for all of them. */
  predicate RoomFor(names: seq<seq<byte>>, gaps: seq<seq<byte>>, j0: nat, bufLen: nat)
    requires |names| == |gaps|
  {
    (forall k :: 0 <= k < |names| ==> |names[k]| <= 255) && j0 + Needed(names, gaps) <= bufLen
  }

  /** Writes names through one table, with other bytes between them. */
  method EncodeAll(buf: array<byte>, bufLen: nat, j0: nat, names: seq<seq<byte>>, gaps: seq<seq<byte>>, table: LabelTable)
    returns (ok: bool, j: nat, starts: seq<nat>, ends: seq<nat>)
    requires j0 <= bufLen <= buf.Length && table.Valid() && |gaps| == |names|
    requires EntriesOk(table.Entries(), buf[..j0])
    requires forall k :: 0 <= k < |names| ==> ValidName(names[k]) && 0 !in names[k]
    modifies buf, table`n, table.labels
    ensures table.Valid() && j <= buf.Length && buf[..j0] == old(buf[..j0])
    ensures RoomFor(names, gaps, j0, bufLen) ==> ok
    ensures ok ==> j0 <= j <= bufLen && GapsThere(buf[..j], gaps, ends)
    ensures ok && j <= MAX_POINTER ==> EntriesOk(table.Entries(), buf[..j]) && AllThere(buf[..j], names, starts, ends)
  {
    hide EntriesOk, AllThere, GapsThere, ValidName, Denote, LabelsOf, Needed;
    j, starts, ends := j0, [], [];
    NoNames(buf[..j0]);
    for i := 0 to |names|
      invariant table.Valid() && j0 <= j <= bufLen && buf[..j0] == old(buf[..j0])
      invariant j <= MAX_POINTER ==> EntriesOk(table.Entries(), buf[..j]) && AllThere(buf[..j], names[..i], starts, ends)
      invariant GapsThere(buf[..j], gaps[..i], ends)
      invariant j <= j0 + Needed(names[..i], gaps[..i])
    {
      ghost var was := buf[..];
      var ok1, j1, end := EncodeNext(buf, bufLen, j, names[i], gaps[i], table, names[..i], gaps[..i], starts, ends);
      ShorterFront(was, buf[..], j0, j);
      NeededStep(names, gaps, i);
      NeededMono(names, gaps, i + 1);
      if !ok1 {
        return false, j, starts, ends;
      }
      SoFarPlus(names, i);
      SoFarPlus(gaps, i);
      starts, ends, j := starts + [j], ends + [end], j1;
    }
    SoFarAll(names);
    SoFarAll(gaps);
    return true, j, starts, ends;
  }

  lemma ShorterFront<T>(a: seq<T>, b: seq<T>, i: nat, j: nat)
    requires i <= j <= |a| && j <= |b| && a[..j] == b[..j]
    ensures a[..i] == b[..i]
  {
    assert a[..j][..i] == a[..i] && b[..j][..i] == b[..i];
  }

  lemma SoFarPlus<T>(s: seq<T>, i: nat)
    requires i < |s|
    ensures s[..i + 1] == s[..i] + [s[i]]
  {
  }

  lemma SoFarAll<T>(s: seq<T>)
    ensures s[..|s|] == s
  {
  }

  /** One more name and what comes behind it. */
  method EncodeNext(buf: array<byte>, bufLen: nat, j: nat, name: seq<byte>, gap: seq<byte>, table: LabelTable,
                    ghost names: seq<seq<byte>>, ghost gaps: seq<seq<byte>>, ghost starts: seq<nat>, ghost ends: seq<nat>)
    returns (ok: bool, j1: nat, end: nat)
    requires j <= bufLen <= buf.Length && table.Valid() && ValidName(name) && 0 !in name
    requires j <= MAX_POINTER ==> EntriesOk(table.Entries(), buf[..j]) && AllThere(buf[..j], names, starts, ends)
    requires GapsThere(buf[..j], gaps, ends)
    modifies buf, table`n, table.labels
    ensures table.Valid() && buf[..j] == old(buf[..j])
    ensures |name| <= 255 && j + |name| + 2 + |gap| <= bufLen ==> ok
    ensures ok ==> j <= j1 <= bufLen && j1 <= j + |name| + 2 + |gap| && GapsThere(buf[..j1], gaps + [gap], ends + [end])
    ensures ok && j1 <= MAX_POINTER ==>
            EntriesOk(table.Entries(), buf[..j1]) && AllThere(buf[..j1], names + [name], starts + [j], ends + [end])
  {
    hide EntriesOk, AllThere, GapsThere, ValidName, Denote, LabelsOf;
    ghost var was := buf[..j];
    var r := EncodeName(buf, bufLen, j, name, table);
    if r < 0 || r + |gap| > bufLen {
      return false, j, j;
    }
    ghost var s := buf[..r];
    ok, j1, end := true, r + |gap|, r;
    Put(buf, r, gap);
    ghost var more := buf[..j1];
    Fronts(was, s, more, j, r);
    GapsExtend(was, more, gaps, ends, gap, end);
    if j1 <= MAX_POINTER {
      AllExtend(was, s, names, starts, ends);
      AllSnoc(s, names, starts, ends, name, j);
      AllExtend(s, more, names + [name], starts + [j], ends + [r]);
      EntriesExtend(table.Entries(), s, more);
    }
  }

  lemma Fronts(was: seq<byte>, s: seq<byte>, more: seq<byte>, j: nat, r: nat)
    requires j <= r <= |more| && |was| == j && |s| == r && s[..j] == was && more[..r] == s
    ensures was <= s <= more && was <= more
  {
  }

  lemma NoNames(s: seq<byte>)
    ensures AllThere(s, [], [], []) && GapsThere(s, [], []) && Needed([], []) == 0
  {
  }

  /** What the parser makes of a name that is there. */
  lemma ParseBack(s: seq<byte>, i: nat, name: seq<byte>, end: nat)
    requires i <= |s| && ValidName(name) && Denote(s, i, i) == Found(LabelsOf(name), end)
    ensures Parse(s, i, 0) == Found(LabelsOf(name), end) && Join(LabelsOf(name)) == WithoutTrailingDot(name)
  {
    ParseDenoted(s, i, i, 0);
    JoinLabels(name);
  }

  /**
    Encodes names and parses one of them back: with enough room all are written; the parser returns
    the name without its trailing dot, and the place where the bytes behind it begin. `reach` says
    that the message ends where pointers still reach.
  */
  method RoundTrip(buf: array<byte>, bufLen: nat, j0: nat, names: seq<seq<byte>>, gaps: seq<seq<byte>>, k: nat,
                   out: array<byte>)
    returns (encoded: bool, reach: bool, parsed: bool, next: nat, n: nat, j: nat, starts: seq<nat>, ends: seq<nat>)
    requires j0 <= bufLen <= buf.Length && |gaps| == |names| && k < |names| && out != buf
    requires forall i :: 0 <= i < |names| ==> ValidName(names[i]) && 0 !in names[i]
    requires out.Length > |names[k]|
    modifies buf, out
    ensures RoomFor(names, gaps, j0, bufLen) ==> encoded
    ensures bufLen <= MAX_POINTER ==> reach
    ensures encoded && reach ==> parsed && n <= out.Length && out[..n] == WithoutTrailingDot(names[k])
    ensures encoded && reach ==> j <= buf.Length && AllThere(buf[..j], names, starts, ends) && next == ends[k]
    ensures encoded && reach ==> next + |gaps[k]| <= buf.Length && buf[next..next + |gaps[k]|] == gaps[k]
  {
    hide EntriesOk, ValidName, Denote, LabelsOf, Parse, Needed, GapsThere;
    var table := new LabelTable();
    NoEntries(buf[..j0]);
    encoded, j, starts, ends := EncodeAll(buf, bufLen, j0, names, gaps, table);
    parsed, n, next := false, 0, 0;
    reach := bufLen <= MAX_POINTER || j <= MAX_POINTER;
    if encoded && reach {
      ParseBack(buf[..j], starts[k], names[k], ends[k]);
      var after, over;
      parsed, after, n, over := NameParse(buf, j, starts[k], out);
      next := after;
      GapThere(buf, j, gaps, ends, k);
    }
  }

  lemma GapThere(buf: array<byte>, j: nat, gaps: seq<seq<byte>>, ends: seq<nat>, k: nat)
    requires j <= buf.Length && GapsThere(buf[..j], gaps, ends) && k < |gaps|
    ensures k < |ends| && ends[k] + |gaps[k]| <= buf.Length && buf[ends[k]..ends[k] + |gaps[k]|] == gaps[k]
  {
    assert GapAt(buf[..j], gaps[k], ends[k]);
    SubSeq(buf[..], 0, j, ends[k], ends[k] + |gaps[k]|);
    assert buf[..][0..j] == buf[..j];
  }

  /** A name that fills the buffer: its last zero would go to the byte behind it. */
  method OverrunsByOne() returns (bufLen: nat, r: int)
    ensures r == bufLen + 1
  {
    var buf := new byte[4](_ => 0);
    var table := new LabelTable();
    bufLen := buf.Length;
    ghost var name: seq<byte> := [97, 98, 99];
    ShortUnpacked();
    r := EncodeName(buf, bufLen, 0, [97, 98, 99], table);
  }

  lemma ShortUnpacked()
    ensures Overruns([97, 98, 99], [], 0, 4)
  {
    var name: seq<byte> := [97, 98, 99];
    assert forall i: nat :: Boundary(name, i) ==> i == 0;
    assert name[0..] == name;
  }

  lemma TwoLabels(name: seq<byte>)
    requires name == [97, DOT, 98, 99, 100, 101, 102, 103]
    ensures Unpacked(name, []) && Starts(name, [], 0, 8)
  {
    assert forall i: nat :: Boundary(name, i) ==> i == 0 || i == 2;
    assert IndexOf(name, DOT) == 1 && name[0..] == name;
    assert |name[2..]| <= 63;
  }

  /** A name whose second label does not fit: the name stays in the table. */
  method LeavesEntry() returns (r: int, n: nat)
    ensures r == -2 && n > 0
  {
    var buf := new byte[8](_ => 0);
    var table := new LabelTable();
    var name: seq<byte> := [97, DOT, 98, 99, 100, 101, 102, 103];
    TwoLabels(name);
    r := EncodeName(buf, 8, 0, name, table);
    n := table.n;
  }

  lemma NoEntries(s: seq<byte>)
    ensures EntriesOk([], s)
  {
  }
}

/** Names in DNS messages: compression through a label table, and parsing (sections 3.1 and 4.1.4
    of RFC 1035). */
module DnsNames {
  import opened Common
  import opened Flat

  const DOT: byte := 46
  const MAX_LABELS: nat := 128
  const MAX_POINTER: nat := 0x4000

  // Names as text.

  /** The labels of a name; the empty one behind a trailing dot is the root and does not count. */
  function LabelsOf(name: seq<byte>): (labels: seq<seq<byte>>)
    decreases |name|
  {
    var k := IndexOf(name, DOT);
    if name == [] then []
    else if k == |name| then [name]
    else [name[..k]] + LabelsOf(name[k + 1..])
  }

  /** Every label is short enough, and only the last may be empty. */
  predicate ValidName(name: seq<byte>)
    decreases |name|
  {
    var k := IndexOf(name, DOT);
    if k == |name| then k <= 63 else 0 < k <= 63 && ValidName(name[k + 1..])
  }

  function Join(labels: seq<seq<byte>>): (name: seq<byte>) {
    if labels == [] then [] else if |labels| == 1 then labels[0]
    else labels[0] + [DOT] + Join(labels[1..])
  }

  function WithoutTrailingDot(name: seq<byte>): seq<byte> {
    if name != [] && name[|name| - 1] == DOT then name[..|name| - 1] else name
  }

  /** Putting the labels of a name together again loses no more than a trailing dot. */
  lemma {:induction false} JoinLabels(name: seq<byte>)
    requires ValidName(name)
    ensures Join(LabelsOf(name)) == WithoutTrailingDot(name)
    decreases |name|
  {
    hide Join, WithoutTrailingDot;
    var k := IndexOf(name, DOT);
    if name == [] {
      JoinNone();
    } else if k == |name| {
      JoinOne(name);
      NoTrailingDot(name);
    } else {
      var rest := name[k + 1..];
      JoinLabels(rest);
      JoinCons(name[..k], LabelsOf(rest));
      TrailingDotBehind(name, k);
    }
  }

  lemma JoinNone()
    ensures Join([]) == [] == WithoutTrailingDot([])
  {
  }

  lemma JoinOne(only: seq<byte>)
    ensures Join([only]) == only
  {
  }

  lemma NoTrailingDot(name: seq<byte>)
    requires IndexOf(name, DOT) == |name|
    ensures WithoutTrailingDot(name) == name
  {
  }

  lemma JoinCons(first: seq<byte>, labels: seq<seq<byte>>)
    ensures Join([first] + labels) == if labels == [] then first else first + [DOT] + Join(labels)
  {
    assert ([first] + labels)[1..] == labels;
  }

  lemma TrailingDotBehind(name: seq<byte>, k: nat)
    requires k < |name| && name[k] == DOT
    ensures var rest := name[k + 1..];
      WithoutTrailingDot(name) == if LabelsOf(rest) == [] then name[..k] else name[..k] + [DOT] + WithoutTrailingDot(rest)
  {
    var rest := name[k + 1..];
    NoLabels(rest);
    hide LabelsOf;
    if rest == [] || rest[|rest| - 1] != DOT {
      assert name == name[..k] + [DOT] + rest;
    } else {
      assert name[..|name| - 1] == name[..k] + [DOT] + rest[..|rest| - 1];
    }
  }

  lemma NoLabels(name: seq<byte>)
    ensures LabelsOf(name) == [] <==> name == []
  {
  }

  // Names in messages.

  datatype Found = NoName | Found(labels: seq<seq<byte>>, next: nat)

  function PointerAt(s: seq<byte>, i: nat): nat
    requires i + 1 < |s|
  {
    (s[i] as int) % 64 * 256 + s[i + 1]
  }

  /** The name at position `i` of `s`, in a run of labels that began at `start`; every pointer has to
      lead to a place before the run that it ends. */
  function Denote(s: seq<byte>, start: nat, i: nat): (r: Found)
    decreases start, |s| - i
  {
    if i >= |s| then NoName
    else if s[i] == 0 then Found([], i + 1)
    else if s[i] < 64 then
      var next := i + 1 + s[i];
      if next > |s| then NoName
      else
        match Denote(s, start, next)
        case NoName => NoName
        case Found(labels, end) => Found([s[i + 1..next]] + labels, end)
    else if i + 1 >= |s| || PointerAt(s, i) >= start then NoName
    else
      var p := PointerAt(s, i);
      match Denote(s, p, p)
      case NoName => NoName
      case Found(labels, _) => Found(labels, i + 2)
  }

  /** More bytes behind a message do not change the names in it. */
  lemma {:induction false} DenoteExtend(s: seq<byte>, more: seq<byte>, start: nat, i: nat)
    requires s <= more && Denote(s, start, i).Found?
    ensures Denote(more, start, i) == Denote(s, start, i)
    decreases start, |s| - i
  {
    if s[i] == 0 {
    } else if s[i] < 64 {
      DenoteExtend(s, more, start, i + 1 + s[i]);
      assert s[i + 1..i + 1 + s[i]] == more[i + 1..i + 1 + s[i]];
    } else {
      DenoteExtend(s, more, PointerAt(s, i), PointerAt(s, i));
    }
  }

  /** A name stays what it is as part of a longer run. */
  lemma {:induction false} DenoteStart(s: seq<byte>, start: nat, start': nat, i: nat)
    requires start <= start' && Denote(s, start, i).Found?
    ensures Denote(s, start', i) == Denote(s, start, i)
    decreases |s| - i
  {
    if 0 < s[i] < 64 {
      DenoteStart(s, start, start', i + 1 + s[i]);
    }
  }

  /** What name_parse makes of position `i`, after `hops` jumps: any pointer into the message is
      followed, as long as there are no more jumps than bytes. */
  function Parse(s: seq<byte>, i: nat, hops: nat): (r: Found)
    requires hops <= |s|
    decreases |s| - hops, |s| - i
  {
    if i >= |s| then NoName
    else if s[i] == 0 then Found([], i + 1)
    else if s[i] < 64 then
      var next := i + 1 + s[i];
      if next >= |s| then NoName
      else
        match Parse(s, next, hops)
        case NoName => NoName
        case Found(labels, end) => Found([s[i + 1..next]] + labels, end)
    else if i + 1 >= |s| || PointerAt(s, i) >= |s| || hops + 1 > |s| then NoName
    else
      match Parse(s, PointerAt(s, i), hops + 1)
      case NoName => NoName
      case Found(labels, _) => Found(labels, i + 2)
  }

  /** With pointers that lead back there are never too many jumps. */
  lemma {:induction false} ParseDenoted(s: seq<byte>, start: nat, i: nat, hops: nat)
    requires Denote(s, start, i).Found? && hops + start <= |s|
    ensures Parse(s, i, hops) == Denote(s, start, i)
    decreases start, |s| - i
  {
    if s[i] == 0 {
    } else if s[i] < 64 {
      ParseDenoted(s, start, i + 1 + s[i], hops);
    } else {
      ParseDenoted(s, PointerAt(s, i), PointerAt(s, i), hops + 1);
    }
  }

  /** Joined with what has been written so far. */
  function JoinAfter(sofar: seq<byte>, labels: seq<seq<byte>>): seq<byte>
    decreases |labels|
  {
    if labels == [] then sofar
    else JoinAfter((if sofar == [] then [] else sofar + [DOT]) + labels[0], labels[1..])
  }

  lemma {:induction false} JoinAfterIs(sofar: seq<byte>, labels: seq<seq<byte>>)
    requires forall i :: 0 <= i < |labels| ==> labels[i] != []
    ensures JoinAfter(sofar, labels)
            == if labels == [] then sofar else if sofar == [] then Join(labels) else sofar + [DOT] + Join(labels)
    decreases |labels|
  {
    if labels != [] {
      var first := (if sofar == [] then [] else sofar + [DOT]) + labels[0];
      JoinAfterIs(first, labels[1..]);
      if |labels| == 1 {
        assert labels[1..] == [];
      } else {
        var more := Join(labels[1..]);
        assert first + [DOT] + more == (if sofar == [] then [] else sofar + [DOT]) + (labels[0] + [DOT] + more);
      }
    }
  }

  lemma {:induction false} JoinAfterGrows(sofar: seq<byte>, labels: seq<seq<byte>>)
    ensures |sofar| <= |JoinAfter(sofar, labels)|
    decreases |labels|
  {
    if labels != [] {
      JoinAfterGrows((if sofar == [] then [] else sofar + [DOT]) + labels[0], labels[1..]);
    }
  }

  /** No label found by the parser is empty. */
  lemma {:induction false} ParsedLabels(s: seq<byte>, i: nat, hops: nat)
    requires hops <= |s| && Parse(s, i, hops).Found?
    ensures forall j :: 0 <= j < |Parse(s, i, hops).labels| ==> Parse(s, i, hops).labels[j] != []
    decreases |s| - hops, |s| - i
  {
    if s[i] == 0 {
    } else if s[i] < 64 {
      ParsedLabels(s, i + 1 + s[i], hops);
    } else {
      ParsedLabels(s, PointerAt(s, i), hops + 1);
    }
  }

  /** How far the parser has got: `cp` bytes are written, `hops` jumps are done, and what is left of
      the name starts at `j`. */
  ghost predicate Parsing(s: seq<byte>, i: nat, j: nat, hops: nat, end: int, sofar: seq<byte>) {
    && hops <= |s|
    && match Parse(s, i, 0)
       case NoName => Parse(s, j, hops).NoName?
       case Found(labels, next) =>
         var rest := Parse(s, j, hops);
         && rest.Found? && JoinAfter(sofar, rest.labels) == JoinAfter([], labels)
         && next == if end < 0 then rest.next else end
  }

  /** What has been written and a further label. */
  function Append(sofar: seq<byte>, part: seq<byte>): seq<byte> {
    (if sofar == [] then [] else sofar + [DOT]) + part
  }

  lemma ParsingStart(s: seq<byte>, i: nat)
    ensures Parsing(s, i, i, 0, -1, [])
  {
  }

  lemma ParsingPastEnd(s: seq<byte>, i: nat, j: nat, hops: nat, end: int, sofar: seq<byte>)
    requires Parsing(s, i, j, hops, end, sofar)
    requires j >= |s| || (s[j] >= 64 && (j + 1 >= |s| || PointerAt(s, j) >= |s| || hops == |s|))
    ensures Parse(s, i, 0).NoName?
  {
  }

  lemma ParsingLabel(s: seq<byte>, i: nat, j: nat, hops: nat, end: int, sofar: seq<byte>)
    requires Parsing(s, i, j, hops, end, sofar) && j < |s| && 0 < s[j] < 64
    ensures var next := j + 1 + s[j];
            if next >= |s| then Parse(s, i, 0).NoName?
            else
              var now := Append(sofar, s[j + 1..next]);
              && Parsing(s, i, next, hops, end, now)
              && (Parse(s, i, 0).Found? ==> |now| <= |Join(Parse(s, i, 0).labels)|)
  {
    hide JoinAfter;
    var next := j + 1 + s[j];
    if next < |s| && Parse(s, i, 0).Found? {
      var now := Append(sofar, s[j + 1..next]);
      var labels := Parse(s, i, 0).labels;
      JoinAfterStep(sofar, s[j + 1..next], Parse(s, next, hops).labels);
      JoinAfterGrows(now, Parse(s, next, hops).labels);
      ParsedLabels(s, i, 0);
      JoinAfterIs([], labels);
      JoinAfterNone(labels);
    }
  }

  /** After a label that reaches past the end it does not matter what was written. */
  lemma ParsingCut(s: seq<byte>, i: nat, j: nat, hops: nat, end: int, sofar: seq<byte>, written: seq<byte>)
    requires Parsing(s, i, j, hops, end, sofar) && j < |s| && 0 < s[j] < 64 && j + 1 + s[j] >= |s|
    ensures Parsing(s, i, j + 1 + s[j], hops, end, written)
  {
  }

  lemma JoinAfterStep(sofar: seq<byte>, part: seq<byte>, labels: seq<seq<byte>>)
    ensures JoinAfter(sofar, [part] + labels) == JoinAfter(Append(sofar, part), labels)
  {
    assert ([part] + labels)[1..] == labels;
  }

  lemma JoinAfterNone(labels: seq<seq<byte>>)
    ensures labels == [] ==> JoinAfter([], labels) == Join(labels)
  {
  }

  lemma ParsingPointer(s: seq<byte>, i: nat, j: nat, hops: nat, end: int, sofar: seq<byte>)
    requires Parsing(s, i, j, hops, end, sofar) && j + 1 < |s| && s[j] >= 64 && PointerAt(s, j) < |s| && hops < |s|
    ensures Parsing(s, i, PointerAt(s, j), hops + 1, if end < 0 then j + 2 else end, sofar)
  {
  }

  lemma ParsingDone(s: seq<byte>, i: nat, j: nat, hops: nat, end: int, sofar: seq<byte>)
    requires Parsing(s, i, j, hops, end, sofar) && j < |s| && s[j] == 0
    ensures Parse(s, i, 0) == Found(Parse(s, i, 0).labels, if end < 0 then j + 1 else end)
    ensures Join(Parse(s, i, 0).labels) == sofar
  {
    ParsedLabels(s, i, 0);
    JoinAfterIs([], Parse(s, i, 0).labels);
    JoinAfterNone(Parse(s, i, 0).labels);
  }

  /** A walk that ends at a label of `length` bytes that reaches past the end; `labels` are those before. */
  datatype Cut = Cut(labels: seq<seq<byte>>, length: nat)

  /** Where the walk of name_parse meets a label that reaches past the end of the message. */
  function CutAt(s: seq<byte>, i: nat, hops: nat): (r: Option<Cut>)
    requires hops <= |s|
    ensures r.Some? ==> 0 < r.value.length < 64
    decreases |s| - hops, |s| - i
  {
    if i >= |s| || s[i] == 0 then None
    else if s[i] < 64 then
      var next := i + 1 + s[i];
      if next > |s| then Some(Cut([], s[i]))
      else
        match CutAt(s, next, hops)
        case None => None
        case Some(c) => Some(Cut([s[i + 1..next]] + c.labels, c.length))
    else if i + 1 >= |s| || PointerAt(s, i) >= |s| || hops + 1 > |s| then None
    else CutAt(s, PointerAt(s, i), hops + 1)
  }

  /** Such a message holds no name there. */
  lemma {:induction false} CutIsNoName(s: seq<byte>, i: nat, hops: nat)
    requires hops <= |s| && CutAt(s, i, hops).Some?
    ensures Parse(s, i, hops).NoName?
    decreases |s| - hops, |s| - i
  {
    if s[i] < 64 {
      if i + 1 + s[i] <= |s| {
        CutIsNoName(s, i + 1 + s[i], hops);
      }
    } else {
      CutIsNoName(s, PointerAt(s, i), hops + 1);
    }
  }

  lemma {:induction false} CutLabels(s: seq<byte>, i: nat, hops: nat)
    requires hops <= |s| && CutAt(s, i, hops).Some?
    ensures var labels := CutAt(s, i, hops).value.labels; forall j :: 0 <= j < |labels| ==> labels[j] != []
    decreases |s| - hops, |s| - i
  {
    if s[i] < 64 {
      if i + 1 + s[i] <= |s| {
        CutLabels(s, i + 1 + s[i], hops);
      }
    } else {
      CutLabels(s, PointerAt(s, i), hops + 1);
    }
  }

  /** When name_parse copies from behind the packet: the walk meets such a label, and there is room for it. */
  predicate OverReads(s: seq<byte>, i: nat, room: nat) {
    var c := CutAt(s, i, 0);
    c.Some? && |Join(c.value.labels)| + (if c.value.labels == [] then 0 else 1) + c.value.length < room
  }

  /** The same as Parsing for a walk that ends at such a label. */
  ghost predicate Cutting(s: seq<byte>, i: nat, j: nat, hops: nat, sofar: seq<byte>) {
    && hops <= |s|
    && match CutAt(s, i, 0)
       case None => CutAt(s, j, hops).None?
       case Some(c) =>
         var rest := CutAt(s, j, hops);
         && rest.Some? && JoinAfter(sofar, rest.value.labels) == JoinAfter([], c.labels)
         && rest.value.length == c.length && (sofar == [] ==> rest.value.labels == c.labels)
  }

  lemma CuttingStart(s: seq<byte>, i: nat)
    ensures Cutting(s, i, i, 0, [])
  {
  }

  /** At the end of the name, and where a pointer leads nowhere, there is no such label. */
  lemma CuttingEnds(s: seq<byte>, i: nat, j: nat, hops: nat, sofar: seq<byte>, room: nat)
    requires Cutting(s, i, j, hops, sofar)
    requires j >= |s| || s[j] == 0 || (s[j] >= 64 && (j + 1 >= |s| || PointerAt(s, j) >= |s| || hops == |s|))
    ensures !OverReads(s, i, room)
  {
  }

  lemma CuttingPointer(s: seq<byte>, i: nat, j: nat, hops: nat, sofar: seq<byte>)
    requires Cutting(s, i, j, hops, sofar) && j + 1 < |s| && s[j] >= 64 && PointerAt(s, j) < |s| && hops < |s|
    ensures Cutting(s, i, PointerAt(s, j), hops + 1, sofar)
  {
  }

  /** A label, and how much room it needs: if it is the one that reaches past the end, that much decides. */
  lemma CuttingLabel(s: seq<byte>, i: nat, j: nat, hops: nat, sofar: seq<byte>, room: nat)
    requires Cutting(s, i, j, hops, sofar) && j < |s| && 0 < s[j] < 64
    ensures var next := j + 1 + s[j]; var need := (if sofar == [] then 0 else |sofar| + 1) + s[j];
            && (need >= room ==> !OverReads(s, i, room))
            && (next > |s| ==> (OverReads(s, i, room) <==> need < room))
            && (next <= |s| ==> Cutting(s, i, next, hops, Append(sofar, s[j + 1..next])))
  {
    hide JoinAfter;
    var next := j + 1 + s[j];
    if CutAt(s, i, 0).Some? {
      var labels := CutAt(s, i, 0).value.labels;
      CutLabels(s, i, 0);
      JoinAfterIs([], labels);
      JoinAfterNone(labels);
      if next <= |s| {
        var now, rest := Append(sofar, s[j + 1..next]), CutAt(s, next, hops).value.labels;
        JoinAfterStep(sofar, s[j + 1..next], rest);
        JoinAfterGrows(now, rest);
      } else {
        JoinAfterEmpty(sofar);
        JoinAfterEmpty([]);
        if labels != [] {
          NotJoined(labels);
        }
      }
    }
  }

  lemma JoinAfterEmpty(sofar: seq<byte>)
    ensures JoinAfter(sofar, []) == sofar
  {
  }

  lemma NotJoined(labels: seq<seq<byte>>)
    requires labels != [] && labels[0] != []
    ensures Join(labels) != []
  {
  }

  /** name_parse. With `over`, a label was copied that reaches past the packet; the call fails then, as
      for every other defect. */
  method NameParse(packet: array<byte>, length: nat, i: nat, out: array<byte>)
    returns (ok: bool, next: nat, n: nat, over: bool)
    requires length <= packet.Length && packet != out
    modifies out
    ensures over <==> OverReads(packet[..length], i, out.Length)
    ensures match Parse(packet[..length], i, 0)
            case NoName => !ok
            case Found(labels, end) =>
              && (ok <==> |Join(labels)| < out.Length)
              && (ok ==> next == end && n == |Join(labels)| && out[..n] == Join(labels) && out[n] == 0)
  {
    hide Parsing, Parse, Join, JoinAfter, Cutting, OverReads, CutAt;
    ghost var s := packet[..length];
    var nameEnd: int, j: nat, ptrCount: nat, cp: nat := -1, i, 0, 0;
    ParsingStart(s, i);
    CuttingStart(s, i);
    assert out[..0] == [];
    while true
      invariant packet[..length] == s && ptrCount <= length && cp <= out.Length
      invariant Parsing(s, i, j, ptrCount, nameEnd, out[..cp]) && (cp == 0 || cp < out.Length)
      invariant Cutting(s, i, j, ptrCount, out[..cp])
      decreases length - ptrCount, length - j
    {
      ghost var at, sofar := j, out[..cp];
      if j >= length {
        ParsingPastEnd(s, i, at, ptrCount, nameEnd, sofar);
        CuttingEnds(s, i, at, ptrCount, sofar, out.Length);
        return false, 0, 0, false;
      }
      var labelLen: int := packet[j];
      j := j + 1;
      if labelLen == 0 {
        ParsingDone(s, i, at, ptrCount, nameEnd, sofar);
        CuttingEnds(s, i, at, ptrCount, sofar, out.Length);
        break;
      }
      if labelLen >= 64 {
        if j >= length {
          ParsingPastEnd(s, i, at, ptrCount, nameEnd, sofar);
          CuttingEnds(s, i, at, ptrCount, sofar, out.Length);
          return false, 0, 0, false;
        }
        var ptrLow: int := packet[j];
        j := j + 1;
        ghost var was := nameEnd;
        if nameEnd < 0 {
          nameEnd := j;
        }
        j := labelLen % 64 * 256 + ptrLow;
        assert j == PointerAt(s, at);
        if j >= length {
          ParsingPastEnd(s, i, at, ptrCount, was, sofar);
          CuttingEnds(s, i, at, ptrCount, sofar, out.Length);
          return false, 0, 0, false;
        }
        ptrCount := ptrCount + 1;
        if ptrCount > length {
          ParsingPastEnd(s, i, at, ptrCount - 1, was, sofar);
          CuttingEnds(s, i, at, ptrCount - 1, sofar, out.Length);
          return false, 0, 0, false;
        }
        ParsingPointer(s, i, at, ptrCount - 1, was, sofar);
        CuttingPointer(s, i, at, ptrCount - 1, sofar);
        continue;
      }
      ParsingLabel(s, i, at, ptrCount, nameEnd, sofar);
      CuttingLabel(s, i, at, ptrCount, sofar, out.Length);
      if cp != 0 {
        if cp + 1 >= out.Length {
          return false, 0, 0, false;
        }
        out[cp] := DOT;
        cp := cp + 1;
      }
      if cp + labelLen >= out.Length {
        return false, 0, 0, false;
      }
      if j + labelLen > length {
        return false, 0, 0, true;
      }
      assert out[..cp] == if sofar == [] then [] else sofar + [DOT];
      ghost var front := out[..cp];
      CopyLabel(packet, j, out, cp, labelLen);
      Copied(packet, length, j, labelLen);
      assert front + s[j..j + labelLen] == Append(sofar, s[j..j + labelLen]);
      cp := cp + labelLen;
      j := j + labelLen;
      if j >= length {
        ParsingCut(s, i, at, ptrCount, nameEnd, sofar, out[..cp]);
      }
    }
    if cp >= out.Length {
      return false, 0, 0, false;
    }
    ghost var was := out[..cp];
    out[cp] := 0;
    assert out[..cp] == was;
    return true, if nameEnd < 0 then j else nameEnd, cp, false;
  }

  lemma Copied(packet: array<byte>, length: nat, j: nat, n: nat)
    requires j + n <= length <= packet.Length
    ensures packet[j..j + n] == packet[..length][j..j + n]
  {
    SubSeq(packet[..], 0, length, j, j + n);
    assert packet[..][0..length] == packet[..length];
  }

  /** memcpy of a label. */
  method CopyLabel(packet: array<byte>, j: nat, out: array<byte>, cp: nat, n: nat)
    requires packet != out && j + n <= packet.Length && cp + n <= out.Length
    modifies out
    ensures out[..cp + n] == old(out[..cp]) + packet[j..j + n]
  {
    var k := 0;
    while k < n
      invariant k <= n && out[..cp + k] == old(out[..cp]) + packet[j..j + k]
    {
      out[cp + k] := packet[j + k];
      k := k + 1;
    }
  }

  /** A packet of two bytes whose one label is said to have five. */
  method LabelPastEnd() returns (ok: bool, over: bool)
    ensures !ok && over
  {
    var packet := new byte[2](_ => 5);
    var out := new byte[256](_ => 0);
    assert packet[..2][0] == 5;
    JoinNone();
    assert CutAt(packet[..2], 0, 0) == Some(Cut([], 5));
    var next, n;
    ok, next, n, over := NameParse(packet, 2, 0, out);
    CutIsNoName(packet[..2], 0, 0);
  }
}

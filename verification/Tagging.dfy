/** Tagged data in evbuffers. */
module Tagging {
  import opened Common
  import opened Flat
  import opened Chains
  import opened EvBuffers
  import opened BufferAdd
  import opened BufferDrain
  import opened BufferPullup
  import opened BufferRuns
  import opened TagCodes

  function SetHigh(b: byte, nibble: nat): (r: byte)
    requires nibble < 16
    ensures r / 16 == nibble && r % 16 == b % 16
  {
    nibble * 16 + b % 16
  }

  function SetLow(b: byte, nibble: nat): (r: byte)
    requires nibble < 16
    ensures r / 16 == b / 16 && r % 16 == nibble
  {
    b / 16 * 16 + nibble
  }

  /** Stores nibble `k`. */
  method PutNibble(data: array<byte>, k: nat, nibble: nat)
    requires k / 2 < data.Length && nibble < 16
    modifies data
    ensures NibbleAt(data[..], k) == nibble
    ensures forall j: nat :: j / 2 < data.Length && j != k ==> NibbleAt(data[..], j) == old(NibbleAt(data[..], j))
  {
    if k % 2 == 1 {
      data[k / 2] := SetLow(data[k / 2], nibble);
    } else {
      data[k / 2] := SetHigh(data[k / 2], nibble);
    }
  }

  /** Digits `from` on of `n` are those of `number`, and there are no others. */
  ghost predicate RestOf(number: nat, n: nat, from: nat) {
    && (forall j: nat :: Nibble(number, j) == Nibble(n, from + j))
    && (number > 0 ==> n > 0)
    && (if number > 0 then from + NibbleCount(number) == NibbleCount(n)
        else if n > 0 then from == NibbleCount(n) else from == 0)
  }

  lemma RestStep(number: nat, n: nat, from: nat)
    requires RestOf(number, n, from) && number > 0
    ensures RestOf(number / 16, n, from + 1)
  {
    forall j: nat ensures Nibble(number / 16, j) == Nibble(n, from + 1 + j) {
      assert Nibble(number, j + 1) == Nibble(n, from + (j + 1));
    }
  }

  /** The digits before `off` are in place, and nothing else. */
  ghost predicate Digits(s: seq<byte>, n: nat, off: nat) {
    forall j: nat :: j / 2 < |s| ==> NibbleAt(s, j) == if 1 <= j < off then Nibble(n, j - 1) else 0
  }

  /** encode_int_internal and its 64-bit twin. */
  method EncodeIntInternal(data: array<byte>, n: nat) returns (len: nat)
    requires (data.Length == 5 && n < TWO_32) || (data.Length == 9 && n < TWO_64)
    modifies data
    ensures NibbleCount(n) <= 16 && len == |IntBytes(n)| <= data.Length && data[..len] == IntBytes(n)
  {
    hide Nibble, NibbleAt;
    CountFits(n);
    Zero(data, n);
    var off, number := 1, n;
    while number > 0
      invariant off >= 1 && RestOf(number, n, off - 1) && Digits(data[..], n, off)
      decreases number
    {
      RestStep(number, n, off - 1);
      LowDigit(number, n, off - 1);
      PutNibble(data, off, number % 16);
      number, off := number / 16, off + 1;
    }
    var nibbles := if off > 2 then off - 2 else 0;
    PutNibble(data, 0, nibbles);
    len := (off + 1) / 2;
    assert data[..] == data[..len] + data[len..];
    forall j: nat | j / 2 < len ensures NibbleAt(data[..len], j) == Written(n, j) {
      NibbleFront(data[..len], data[len..], j);
      WrittenIs(n, off, j);
    }
    BytesFromDigits(data[..len], n);
  }

  lemma LowDigit(number: nat, n: nat, from: nat)
    requires RestOf(number, n, from)
    ensures number % 16 == Nibble(n, from)
  {
    assert Nibble(number, 0) == Nibble(n, from + 0);
  }

  lemma WrittenIs(n: nat, off: nat, j: nat)
    requires NibbleCount(n) <= 16 && off >= 1 && RestOf(0, n, off - 1)
    ensures Written(n, j) == if j == 0 then (if off > 2 then off - 2 else 0) else if j < off then Nibble(n, j - 1) else 0
  {
  }

  /** memset. */
  method Zero(data: array<byte>, ghost n: nat)
    modifies data
    ensures Digits(data[..], n, 1)
  {
    forall i | 0 <= i < data.Length {
      data[i] := 0;
    }
  }

  lemma BytesFromDigits(s: seq<byte>, n: nat)
    requires NibbleCount(n) <= 16 && |s| == NibbleCount(n) / 2 + 1
    requires forall j: nat :: j / 2 < |s| ==> NibbleAt(s, j) == Written(n, j)
    ensures s == IntBytes(n)
  {
    forall i | 0 <= i < |s| ensures s[i] == IntBytes(n)[i] {
      assert NibbleAt(s, 2 * i) == s[i] / 16 && NibbleAt(s, 2 * i + 1) == s[i] % 16;
    }
  }

  /** Adds bytes to a buffer in plain use. */
  method Append(buf: EvBuffer, data: seq<byte>)
    requires Good(buf)
    modifies buf, buf.chains
    ensures Good(buf) && buf.Contents() == old(buf.Contents()) + data && From(buf.chains, old(buf.chains), [])
  {
    hide Seg, Distinct, Flatten, Window, LastWithData, NoHoles, PinsBehind, AddAborts, AddKeepsPointer;
    TightAdd(buf, |data|);
    var _ := Add(buf, data);
  }

  lemma GoodPulls(buf: EvBuffer, n: nat)
    requires Good(buf)
    ensures buf.chains == [] ==> buf.Contents() == []
    ensures buf.chains != [] ==> CanPull(buf, n)
  {
    hide Seg, Flatten;
    SegNil(null);
    if buf.chains != [] {
      UnpinnedPulls(buf, n);
    }
  }

  /** evbuffer_pullup of `n` bytes, which are then in one piece; none for 0. */
  method Contiguous(buf: EvBuffer, n: nat) returns (data: seq<byte>)
    requires Good(buf) && n <= |buf.Contents()|
    modifies buf, buf.chains
    ensures Good(buf) && buf.Contents() == old(buf.Contents()) && From(buf.chains, old(buf.chains), [])
    ensures data == buf.Contents()[..n]
  {
    hide Seg, Distinct, Flatten, LastWithData, NoHoles, PinsBehind;
    GoodPins(buf);
    GoodPulls(buf, n);
    var found := Pullup(buf, n);
    if found {
      FirstHolds(buf);
      data := buf.first.mem[buf.first.misalign..buf.first.misalign + buf.first.off][..n];
    } else {
      data := [];
    }
  }

  /** Drains a buffer in plain use. */
  method Drop(buf: EvBuffer, n: nat)
    requires Good(buf)
    modifies buf, buf.chains
    ensures Good(buf) && buf.Contents() == old(buf.Contents())[Min(n, |old(buf.Contents())|)..]
    ensures From(buf.chains, old(buf.chains), [])
  {
    hide Seg, Distinct, Flatten, Window, LastWithData, NoHoles, PinsBehind;
    GoodPins(buf);
    var _ := Drain(buf, n);
  }

  /** evtag_encode_tag. */
  method EncodeTag(buf: EvBuffer, tag: nat) returns (bytes: nat)
    requires Good(buf) && tag < TWO_32
    modifies buf, buf.chains
    ensures Good(buf) && buf.Contents() == old(buf.Contents()) + TagBytes(tag) && bytes == |TagBytes(tag)| <= 5
    ensures From(buf.chains, old(buf.chains), [])
  {
    hide Good, TagBytes;
    var data := new byte[5](_ => 0);
    bytes := FillTag(data, tag);
    Append(buf, data[..bytes]);
  }

  /** The loop of encode_tag_internal. */
  method FillTag(data: array<byte>, tag: nat) returns (bytes: nat)
    requires data.Length == 5 && tag < TWO_32
    modifies data
    ensures bytes == |TagBytes(tag)| <= 5 && data[..bytes] == TagBytes(tag)
  {
    hide TagBytes;
    var left, more := tag, true;
    bytes := 0;
    TagBytesBound(tag, 5);
    while more
      invariant bytes <= |TagBytes(tag)| <= 5 && (more ==> TagBytes(tag) == data[..bytes] + TagBytes(left))
      invariant !more ==> TagBytes(tag) == data[..bytes]
      decreases if more then 1 + left else 0
    {
      var lower := left % 128;
      TagStep(left);
      left := left / 128;
      if left > 0 {
        lower := lower + 128;
      }
      ghost var was := data[..bytes];
      data[bytes] := lower;
      bytes := bytes + 1;
      assert data[..bytes] == was + [lower];
      more := left > 0;
    }
  }

  lemma TagStep(tag: nat)
    ensures tag / 128 > 0 ==> TagBytes(tag) == [tag % 128 + 128] + TagBytes(tag / 128)
    ensures tag / 128 == 0 ==> TagBytes(tag) == [tag % 128]
  {
  }

  /** evtag_encode_int and evtag_encode_int64. */
  method EncodeInt(buf: EvBuffer, n: nat, wide: bool)
    requires Good(buf) && n < (if wide then TWO_64 else TWO_32)
    modifies buf, buf.chains
    ensures NibbleCount(n) <= 16 && Good(buf) && buf.Contents() == old(buf.Contents()) + IntBytes(n)
    ensures From(buf.chains, old(buf.chains), [])
  {
    hide Good, IntBytes;
    var data := new byte[if wide then 9 else 5](_ => 0);
    var len := EncodeIntInternal(data, n);
    Append(buf, data[..len]);
  }

  /** Within the five bytes that are pulled up, the tag ends or the buffer does. */
  ghost predicate TagReadable(s: seq<byte>) {
    |s| <= 5 || 0 < TagLength(s) <= 5
  }

  /** The others are the tags that go on behind the fifth byte. */
  lemma TagReadableIff(s: seq<byte>)
    ensures TagReadable(s) <==> !(|s| > 5 && forall i :: 0 <= i < 5 ==> s[i] >= 128)
  {
    var n := TagLength(s);
    if |s| > 5 && n > 5 {
      assert forall i :: 0 <= i < 5 ==> s[i] >= 128;
    }
  }

  /**
    The loop of decode_tag_internal over the first bytes `data` of `s`; `over` says that it is about
    to read behind them, as it counts up to the length of the whole buffer. The new bits lie above
    all earlier ones, so that or-ing them in is adding.
  */
  method ScanTag(data: seq<byte>, total: nat, ghost s: seq<byte>)
    returns (number: nat, i: nat, done: bool, over: bool)
    requires data == s[..if |s| < 5 then |s| else 5] && total == |s|
    ensures over <==> !TagReadable(s)
    ensures !over ==> match ParseTag(s)
                      case Bad => !done
                      case Parsed(v, n) => done && number == v && i == n
  {
    hide TagValue, Power128;
    number, i, done, over := 0, 0, false, false;
    ScanStart(s);
    while i < total && !done
      invariant i <= |data| && number == TagValue(s[..i]) % TWO_32
      invariant if done then TagLength(s) == i > 0 else forall j :: 0 <= j < i ==> s[j] >= 128
      decreases total - i, !done
    {
      if i == |data| {
        TagReadableIff(s);
        over := true;
        return;
      }
      var lower := data[i];
      ScanStep(s, i);
      number := (number + lower % 128 * Power128(i)) % TWO_32;
      i := i + 1;
      if lower < 128 {
        TagLengthIs(s, i);
        done := true;
      }
    }
  }

  lemma ScanStart(s: seq<byte>)
    ensures TagValue(s[..0]) == 0
  {
  }

  lemma ScanStep(s: seq<byte>, i: nat)
    requires i < |s|
    ensures TagValue(s[..i + 1]) % TWO_32 == (TagValue(s[..i]) % TWO_32 + s[i] % 128 * Power128(i)) % TWO_32
  {
    hide TagValue, Power128;
    assert s[..i + 1] == s[..i] + [s[i]];
    TagValueSnoc(s[..i], s[i]);
    var v, w := TagValue(s[..i]), s[i] % 128 * Power128(i);
    assert (v + w) % TWO_32 == (v % TWO_32 + w) % TWO_32;
  }

  /** decode_tag_internal. */
  method DecodeTagInternal(buf: EvBuffer, drain: bool) returns (tag: nat, count: int, over: bool)
    requires Good(buf)
    modifies buf, buf.chains
    ensures Good(buf) && From(buf.chains, old(buf.chains), [])
    ensures over <==> !TagReadable(old(buf.Contents()))
    ensures over ==> count == -1 && buf.Contents() == old(buf.Contents())
    ensures !over ==>
            match ParseTag(old(buf.Contents()))
            case Bad => count == -1 && buf.Contents() == old(buf.Contents())
            case Parsed(v, n) => tag == v && count == n
                                 && buf.Contents() == if drain then old(buf.Contents())[n..] else old(buf.Contents())
  {
    hide Good, TagLength, TagValue, TagReadable;
    ghost var s := buf.Contents();
    var len := Length(buf);
    var data := Contiguous(buf, if len < 5 then len else 5);
    var done;
    tag, count, done, over := ScanTag(data, len, s);
    if over || !done {
      return 0, -1, over;
    }
    if drain {
      Drop(buf, count);
    }
  }

  /** evbuffer_get_length. */
  method Length(buf: EvBuffer) returns (n: nat)
    requires Good(buf)
    ensures n == |buf.Contents()|
  {
    GoodPins(buf);
    return buf.totalLen;
  }

  /** decode_int_internal and its 64-bit twin: reads an integer that starts `offset` bytes in. */
  method DecodeIntInternal(buf: EvBuffer, offset: nat, wide: bool) returns (number: nat, len: int)
    requires Good(buf)
    modifies buf, buf.chains
    ensures Good(buf) && From(buf.chains, old(buf.chains), []) && buf.Contents() == old(buf.Contents())
    ensures offset >= |buf.Contents()| ==> len == -1
    ensures offset < |buf.Contents()| ==>
              match ParseInt(buf.Contents()[offset..], if wide then 16 else 8)
              case Bad => len == -1
              case Parsed(v, n) => number == v && len == n
  {
    hide Good;
    var total := Length(buf);
    ghost var s := buf.Contents();
    number := 0;
    if total <= offset {
      return 0, -1;
    }
    var data := Contiguous(buf, offset + 1);
    var nibbles := data[offset] / 16 + 1;
    if nibbles > (if wide then 16 else 8) || nibbles / 2 + 1 > total - offset {
      return 0, -1;
    }
    len := nibbles / 2 + 1;
    ghost var all := nibbles;
    data := Contiguous(buf, offset + len);
    var d := data[offset..];
    assert d == s[offset..][..len];
    while nibbles > 0
      invariant 0 <= nibbles <= all && number == NibbleValue(d, nibbles + 1, all)
    {
      number := 16 * number + NibbleAt(d, nibbles);
      nibbles := nibbles - 1;
    }
    ValueFront(d, s[offset..][len..], 1, all);
    assert d + s[offset..][len..] == s[offset..];
  }

  lemma {:induction false} ValueFront(s: seq<byte>, rest: seq<byte>, k: nat, n: nat)
    requires n / 2 < |s|
    ensures NibbleValue(s + rest, k, n) == NibbleValue(s, k, n)
    decreases n + 1 - k
  {
    if k <= n {
      ValueFront(s, rest, k + 1, n);
    }
  }

  /** evtag_decode_int and evtag_decode_int64. */
  method DecodeInt(buf: EvBuffer, wide: bool) returns (number: nat, ok: bool)
    requires Good(buf)
    modifies buf, buf.chains
    ensures Good(buf) && From(buf.chains, old(buf.chains), [])
    ensures match ParseInt(old(buf.Contents()), if wide then 16 else 8)
            case Bad => !ok && buf.Contents() == old(buf.Contents())
            case Parsed(v, n) => ok && number == v && n <= |old(buf.Contents())|
                                 && buf.Contents() == old(buf.Contents())[n..]
  {
    hide Good;
    ghost var s := buf.Contents();
    assert s[0..] == s;
    var len;
    number, len := DecodeIntInternal(buf, 0, wide);
    if len != -1 {
      Drop(buf, len);
    }
    return number, len != -1;
  }

  /** Header of a tagged item: its tag, the length of its data, and how long the header itself is. */
  datatype Header = NoTag | NoLength(tagLength: nat) | Header(tag: nat, length: nat, size: nat)

  function ParseHeader(s: seq<byte>): (h: Header)
    ensures h.Header? ==> 0 < h.size <= |s|
    ensures h.NoLength? ==> h.tagLength <= |s|
  {
    match ParseTag(s)
    case Bad => NoTag
    case Parsed(tag, n) =>
      match ParseInt(s[n..], 8)
      case Bad => NoLength(n)
      case Parsed(length, m) => Header(tag, length, n + m)
  }

  /** A 32-bit unsigned number as a signed one. */
  function ToInt(n: nat): int {
    if n < 0x8000_0000 then n else n - TWO_32
  }

  /** evtag_unmarshal_header. A bad header is drained as far as it could be read. */
  method UnmarshalHeader(buf: EvBuffer) returns (len: int, tag: nat, over: bool)
    requires Good(buf)
    modifies buf, buf.chains
    ensures Good(buf) && From(buf.chains, old(buf.chains), [])
    ensures over <==> !TagReadable(old(buf.Contents()))
    ensures over ==> len == -1 && buf.Contents() == old(buf.Contents())
    ensures !over ==>
            var s := old(buf.Contents());
            match ParseHeader(s)
            case NoTag => len == -1 && buf.Contents() == s
            case NoLength(n) => len == -1 && buf.Contents() == s[n..]
            case Header(t, length, size) =>
              && buf.Contents() == s[size..] && tag == t
              && len == if |s| - size < length then -1 else ToInt(length)
  {
    hide Good, TagReadable;
    ghost var s := buf.Contents();
    var count;
    tag, count, over := DecodeTagInternal(buf, true);
    if count == -1 {
      return -1, tag, over;
    }
    var number, ok := DecodeInt(buf, false);
    if !ok {
      return -1, tag, false;
    }
    var left := Length(buf);
    if left < number {
      return -1, tag, false;
    }
    return ToInt(number), tag, false;
  }

  /** No complete item at the start of `s` claims 2^31 bytes or more. */
  ghost predicate PayloadFits(s: seq<byte>) {
    var h := ParseHeader(s);
    h.Header? && |s| - h.size >= h.length ==> h.length < 0x8000_0000
  }

  /** The data of the item at the start of `s`, and what is left after it. */
  function PayloadOf(s: seq<byte>): (r: (seq<byte>, seq<byte>))
    requires ParseHeader(s).Header? && |s| - ParseHeader(s).size >= ParseHeader(s).length
  {
    var h := ParseHeader(s);
    (s[h.size..h.size + h.length], s[h.size + h.length..])
  }

  /** evtag_unmarshal: moves the data of the first item to the end of `dst`. */
  method Unmarshal(src: EvBuffer, dst: EvBuffer) returns (len: int, tag: nat, over: bool)
    requires Good(src) && Good(dst) && src != dst && Disjoint(src.chains, dst.chains)
    requires TagReadable(src.Contents()) ==> PayloadFits(src.Contents())
    modifies src, src.chains, dst, dst.chains
    ensures Good(src) && Good(dst) && Disjoint(src.chains, dst.chains)
    ensures From(src.chains, old(src.chains), []) && From(dst.chains, old(dst.chains), [])
    ensures over <==> !TagReadable(old(src.Contents()))
    ensures over ==> len == -1 && src.Contents() == old(src.Contents()) && dst.Contents() == old(dst.Contents())
    ensures !over ==>
            var s := old(src.Contents()); var h := ParseHeader(s);
            if h.Header? && |s| - h.size >= h.length then
              && len == h.length && tag == h.tag
              && dst.Contents() == old(dst.Contents()) + PayloadOf(s).0 && src.Contents() == PayloadOf(s).1
            else len == -1 && dst.Contents() == old(dst.Contents())
  {
    hide Good, TagReadable, ParseHeader;
    ghost var s := src.Contents();
    len, tag, over := UnmarshalHeader(src);
    if len == -1 {
      StillApart(src.chains, old(src.chains), dst.chains);
      return;
    }
    StillApart(src.chains, old(src.chains), dst.chains);
    var data := Contiguous(src, len);
    StillApart(src.chains, old(src.chains), dst.chains);
    Append(dst, data);
    StillApart(dst.chains, old(dst.chains), src.chains);
    Drop(src, len);
    StillApart(src.chains, old(src.chains), dst.chains);
  }

  function ItemBytes(tag: nat, data: seq<byte>): seq<byte>
    requires |data| < TWO_32
  {
    CountFits(|data|);
    TagBytes(tag) + IntBytes(|data|) + data
  }

  /** What comes of reading an item back, whatever follows it. */
  lemma ItemRoundTrip(tag: nat, data: seq<byte>, rest: seq<byte>)
    requires tag < TWO_32 && |data| < TWO_32
    ensures var s := ItemBytes(tag, data) + rest; var h := ParseHeader(s);
            && h.Header? && h.tag == tag && h.length == |data| <= |s| - h.size
            && h.size + h.length == |ItemBytes(tag, data)|
            && PayloadOf(s) == (data, rest)
    ensures TagReadable(ItemBytes(tag, data) + rest)
  {
    hide TagBytes, IntBytes, ParseTag, ParseInt;
    CountFits(|data|);
    var t, l := TagBytes(tag), IntBytes(|data|);
    var s := ItemBytes(tag, data) + rest;
    assert s == t + (l + data + rest) && l + data + rest == l + (data + rest);
    TagRoundTrip(tag, l + data + rest);
    IntRoundTrip(|data|, 8, data + rest);
    assert s[|t|..] == l + (data + rest);
    TagBytesBound(tag, 5);
    Readable(tag, l + data + rest);
  }

  lemma Readable(tag: nat, rest: seq<byte>)
    requires tag < TWO_32
    ensures TagReadable(TagBytes(tag) + rest)
  {
    TagRoundTrip(tag, rest);
    TagBytesBound(tag, 5);
  }

  /** evtag_marshal. */
  method Marshal(buf: EvBuffer, tag: nat, data: seq<byte>)
    requires Good(buf) && tag < TWO_32 && |data| < TWO_32
    modifies buf, buf.chains
    ensures Good(buf) && buf.Contents() == old(buf.Contents()) + ItemBytes(tag, data)
    ensures From(buf.chains, old(buf.chains), [])
  {
    hide Good;
    var _ := EncodeTag(buf, tag);
    EncodeInt(buf, |data|, false);
    Append(buf, data);
  }

  datatype Item = Item(tag: nat, data: seq<byte>)

  predicate Fits(item: Item) {
    item.tag < TWO_32 && |item.data| < 0x8000_0000
  }

  ghost function Stream(items: seq<Item>): seq<byte>
    requires forall i :: 0 <= i < |items| ==> Fits(items[i])
  {
    if items == [] then []
    else assert Fits(items[0]); ItemBytes(items[0].tag, items[0].data) + Stream(items[1..])
  }

  lemma {:induction false} StreamSnoc(items: seq<Item>, item: Item)
    requires Fits(item) && forall i :: 0 <= i < |items| ==> Fits(items[i])
    ensures Stream(items + [item]) == Stream(items) + ItemBytes(item.tag, item.data)
  {
    hide ItemBytes;
    if items == [] {
      assert [] + [item] == [item] && [item][1..] == [];
    } else {
      StreamSnoc(items[1..], item);
      assert (items + [item])[1..] == items[1..] + [item];
    }
  }

  /** The data of all items, one after the other. */
  ghost function Payloads(items: seq<Item>): seq<byte> {
    if items == [] then [] else Payloads(items[..|items| - 1]) + items[|items| - 1].data
  }

  /** Marshals a list of items. */
  method WriteAll(buf: EvBuffer, items: seq<Item>)
    requires Good(buf) && forall i :: 0 <= i < |items| ==> Fits(items[i])
    modifies buf, buf.chains
    ensures Good(buf) && buf.Contents() == old(buf.Contents()) + Stream(items)
    ensures From(buf.chains, old(buf.chains), [])
  {
    hide Good, ItemBytes, Stream;
    StreamNone();
    for i := 0 to |items|
      invariant Good(buf) && From(buf.chains, old(buf.chains), [])
      invariant buf.Contents() == old(buf.Contents()) + Stream(items[..i])
    {
      Marshal(buf, items[i].tag, items[i].data);
      StreamSnoc(items[..i], items[i]);
      assert items[..i] + [items[i]] == items[..i + 1];
    }
    assert items[..|items|] == items;
  }

  lemma StreamNone()
    ensures Stream([]) == []
  {
  }

  /** Unmarshals as many items as the stream at the start of `src` has: every tag, length and byte
      comes back, in order, and what follows the stream is untouched. */
  method ReadAll(src: EvBuffer, dst: EvBuffer, ghost items: seq<Item>, ghost rest: seq<byte>, n: nat)
    returns (tags: seq<nat>, lengths: seq<int>)
    requires Good(src) && Good(dst) && src != dst && Disjoint(src.chains, dst.chains)
    requires n == |items| && forall i :: 0 <= i < |items| ==> Fits(items[i])
    requires src.Contents() == Stream(items) + rest
    modifies src, src.chains, dst, dst.chains
    ensures Good(src) && Good(dst) && Disjoint(src.chains, dst.chains)
    ensures src.Contents() == rest && dst.Contents() == old(dst.Contents()) + Payloads(items)
    ensures |tags| == |lengths| == n
    ensures forall i :: 0 <= i < n ==> tags[i] == items[i].tag && lengths[i] == |items[i].data|
  {
    hide Good, ItemBytes, TagReadable, PayloadFits, ParseHeader, PayloadOf;
    tags, lengths := [], [];
    assert items[0..] == items && items[..0] == [];
    for i := 0 to n
      invariant Good(src) && Good(dst) && Disjoint(src.chains, dst.chains) && |tags| == |lengths| == i
      invariant From(src.chains, old(src.chains), []) && From(dst.chains, old(dst.chains), [])
      invariant src.Contents() == Stream(items[i..]) + rest
      invariant dst.Contents() == old(dst.Contents()) + Payloads(items[..i])
      invariant forall j :: 0 <= j < i ==> tags[j] == items[j].tag && lengths[j] == |items[j].data|
    {
      NextItem(items[i..], rest);
      assert items[i..][1..] == items[i + 1..] && items[..i + 1][..i] == items[..i];
      var len, tag, over := Unmarshal(src, dst);
      tags, lengths := tags + [tag], lengths + [len];
    }
    assert items[..n] == items && items[n..] == [];
  }

  /** The first item of a stream, as the reader finds it. */
  lemma NextItem(items: seq<Item>, rest: seq<byte>)
    requires items != [] && forall i :: 0 <= i < |items| ==> Fits(items[i])
    ensures var s := Stream(items) + rest; var h := ParseHeader(s);
            && TagReadable(s) && PayloadFits(s) && h.Header? && h.length <= |s| - h.size
            && h.tag == items[0].tag && h.length == |items[0].data|
            && PayloadOf(s) == (items[0].data, Stream(items[1..]) + rest)
  {
    hide ItemBytes, TagReadable, ParseHeader, PayloadOf;
    var item, more := items[0], Stream(items[1..]);
    assert Stream(items) + rest == ItemBytes(item.tag, item.data) + (more + rest);
    ItemRoundTrip(item.tag, item.data, more + rest);
  }

  /** evtag_peek_length: how long the first item is as a whole, header included. */
  method PeekLength(buf: EvBuffer) returns (n: nat, ok: bool, over: bool)
    requires Good(buf)
    modifies buf, buf.chains
    ensures Good(buf) && buf.Contents() == old(buf.Contents()) && From(buf.chains, old(buf.chains), [])
    ensures (over <==> !TagReadable(buf.Contents())) && (over ==> !ok)
    ensures !over ==>
            var h := ParseHeader(buf.Contents());
            ok == h.Header? && (ok ==> n == (h.size + h.length) % TWO_32)
  {
    hide Good, TagReadable;
    ghost var s := buf.Contents();
    var tag, len;
    tag, len, over := DecodeTagInternal(buf, false);
    if len == -1 {
      return 0, false, over;
    }
    var number, res := DecodeIntInternal(buf, len, false);
    if res == -1 {
      return 0, false, false;
    }
    return (number + res + len) % TWO_32, true, false;
  }

  /** evtag_consume: drops the first item. */
  method Consume(buf: EvBuffer) returns (ok: bool, over: bool)
    requires Good(buf) && (TagReadable(buf.Contents()) ==> PayloadFits(buf.Contents()))
    modifies buf, buf.chains
    ensures Good(buf) && From(buf.chains, old(buf.chains), [])
    ensures over <==> !TagReadable(old(buf.Contents()))
    ensures over ==> !ok && buf.Contents() == old(buf.Contents())
    ensures !over ==>
            var s := old(buf.Contents()); var h := ParseHeader(s);
            && (ok <==> h.Header? && |s| - h.size >= h.length)
            && (ok ==> buf.Contents() == s[h.size + h.length..])
  {
    hide Good, TagReadable, ParseHeader;
    ghost var s := buf.Contents();
    var len, tag;
    len, tag, over := UnmarshalHeader(buf);
    if len == -1 {
      return false, over;
    }
    Drop(buf, len);
    return true, false;
  }

  /** What evtag_consume removes is what evtag_peek_length has announced. */
  method PeekThenConsume(buf: EvBuffer) returns (n: nat, peeked: bool, consumed: bool)
    requires Good(buf) && (TagReadable(buf.Contents()) ==> PayloadFits(buf.Contents()))
    modifies buf, buf.chains
    ensures consumed ==> peeked
    ensures consumed && |old(buf.Contents())| < TWO_32
            ==> n <= |old(buf.Contents())| && buf.Contents() == old(buf.Contents())[n..]
  {
    hide Good, TagReadable, ParseHeader, PayloadFits;
    var over;
    n, peeked, over := PeekLength(buf);
    consumed, over := Consume(buf);
  }

  /** Six bytes that each say that more follow: the decoder reads behind the five it has pulled up. */
  method ReadsBehind() returns (over: bool)
    ensures over
  {
    hide Good, TagLength;
    var buf := new EvBuffer();
    NewIsGood(buf);
    Append(buf, [128, 128, 128, 128, 128, 128]);
    assert [] + [128 as byte, 128, 128, 128, 128, 128] == [128, 128, 128, 128, 128, 128];
    TagReadableIff(buf.Contents());
    var tag, count;
    tag, count, over := DecodeTagInternal(buf, true);
  }

  lemma NewIsGood(buf: EvBuffer)
    requires buf.Valid() && buf.chains == [] && !buf.freezeStart && !buf.freezeEnd
    ensures Good(buf)
  {
    EmptyListOk();
  }

  /** evtag_marshal_int and evtag_marshal_int64. */
  method MarshalInt(buf: EvBuffer, tag: nat, n: nat, wide: bool)
    requires Good(buf) && tag < TWO_32 && n < (if wide then TWO_64 else TWO_32)
    modifies buf, buf.chains
    ensures NibbleCount(n) <= 16 && Good(buf) && From(buf.chains, old(buf.chains), [])
    ensures buf.Contents() == old(buf.Contents()) + ItemBytes(tag, IntBytes(n))
  {
    hide Good, IntBytes, TagBytes;
    var data := new byte[if wide then 9 else 5](_ => 0);
    var len := EncodeIntInternal(data, n);
    var bytes := data[..len];
    var _ := EncodeTag(buf, tag);
    EncodeInt(buf, len, false);
    Append(buf, bytes);
  }

  /** evtag_unmarshal_int and evtag_unmarshal_int64: the number, and how long its encoding was. A
      failure leaves the buffer drained of what was read until then. */
  method UnmarshalInt(buf: EvBuffer, needTag: nat, wide: bool) returns (n: nat, r: int, over: bool)
    requires Good(buf)
    modifies buf, buf.chains
    ensures Good(buf) && From(buf.chains, old(buf.chains), [])
    ensures over <==> !TagReadable(old(buf.Contents()))
    ensures over ==> r == -1 && buf.Contents() == old(buf.Contents())
    ensures !over && !Complete(old(buf.Contents()), needTag) ==> r == -1
    ensures !over && Complete(old(buf.Contents()), needTag) ==>
            var s := old(buf.Contents());
            buf.Contents() == PayloadOf(s).1 && IntOutcome(s, wide, n, r)
  {
    hide Good, TagReadable, ParseTag, ParseInt, ParseHeader, Complete, PayloadOf, IntOutcome, IntOf, Behind;
    ghost var s := buf.Contents();
    var len, ok;
    len, ok, over := TakeHeader(buf, needTag);
    if !ok {
      return 0, -1, over;
    }
    ghost var t := buf.Contents();
    n, r := DecodePayload(buf, len, wide);
    OutcomeIs(s, t, needTag, wide, n, r);
  }

  /** Takes the header of an item with the tag `needTag` and all its data off the buffer. */
  method TakeHeader(buf: EvBuffer, needTag: nat) returns (len: nat, ok: bool, over: bool)
    requires Good(buf)
    modifies buf, buf.chains
    ensures Good(buf) && From(buf.chains, old(buf.chains), [])
    ensures over <==> !TagReadable(old(buf.Contents()))
    ensures over ==> !ok && buf.Contents() == old(buf.Contents())
    ensures !over ==> (ok <==> Complete(old(buf.Contents()), needTag))
    ensures ok ==> ParseHeader(old(buf.Contents())).Header? && len == ParseHeader(old(buf.Contents())).length
                   && buf.Contents() == Behind(old(buf.Contents())) && len <= |buf.Contents()|
  {
    hide Good, TagReadable, ParseTag, ParseInt, ParseHeader, Complete, Behind;
    ghost var s := buf.Contents();
    var tag, count;
    tag, count, over := DecodeTagInternal(buf, true);
    NoHeader(s, needTag);
    if count == -1 || tag != needTag {
      return 0, false, over;
    }
    len, ok := DecodeInt(buf, false);
    if !ok {
      return;
    }
    HeaderIs(s, needTag);
    var left := Length(buf);
    ok := left >= len;
  }

  /** The integer inside an item: all of the item's data goes, however much the integer takes. */
  method DecodePayload(buf: EvBuffer, len: nat, wide: bool) returns (n: nat, r: int)
    requires Good(buf) && len <= |buf.Contents()|
    modifies buf, buf.chains
    ensures Good(buf) && From(buf.chains, old(buf.chains), [])
    ensures buf.Contents() == old(buf.Contents())[len..] && IntOf(old(buf.Contents()), len, wide, n, r)
  {
    hide Good, NibbleValue;
    assert buf.Contents()[0..] == buf.Contents();
    n, r := DecodeIntInternal(buf, 0, wide);
    Drop(buf, len);
    if r < 0 || r > len {
      return n, -1;
    }
  }

  /** The number at the start of `s`, if it is no longer than `length` bytes. */
  predicate IntOf(s: seq<byte>, length: nat, wide: bool, n: nat, r: int) {
    match ParseInt(s, if wide then 16 else 8)
    case Bad => r == -1
    case Parsed(v, m) => if m <= length then r == m && n == v else r == -1
  }

  /** An item with the right tag and all its data. */
  predicate Complete(s: seq<byte>, needTag: nat) {
    var h := ParseHeader(s);
    h.Header? && h.tag == needTag && |s| - h.size >= h.length
  }

  predicate IntOutcome(s: seq<byte>, wide: bool, n: nat, r: int)
    requires ParseHeader(s).Header?
  {
    IntOf(s[ParseHeader(s).size..], ParseHeader(s).length, wide, n, r)
  }

  /** Without a tag, with another tag or without a length there is no complete item. */
  lemma NoHeader(s: seq<byte>, needTag: nat)
    ensures ParseTag(s) == Bad ==> !Complete(s, needTag)
    ensures ParseTag(s).Parsed? && ParseTag(s).value != needTag ==> !Complete(s, needTag)
    ensures ParseTag(s).Parsed? ==> ParseTag(s).length <= |s|
    ensures ParseTag(s).Parsed? && ParseInt(s[ParseTag(s).length..], 8) == Bad ==> !Complete(s, needTag)
  {
    hide TagLength, TagValue, NibbleValue;
  }

  /** What is left behind the header at the start of `s`. */
  function Behind(s: seq<byte>): (t: seq<byte>)
    requires ParseHeader(s).Header?
  {
    s[ParseHeader(s).size..]
  }

  lemma HeaderIs(s: seq<byte>, needTag: nat)
    requires ParseTag(s).Parsed? && ParseTag(s).value == needTag && ParseTag(s).length <= |s|
    requires ParseInt(s[ParseTag(s).length..], 8).Parsed?
    ensures ParseInt(s[ParseTag(s).length..], 8).length <= |s| - ParseTag(s).length
    ensures var (n, m) := (ParseTag(s).length, ParseInt(s[ParseTag(s).length..], 8).length);
            && ParseHeader(s).Header? && ParseHeader(s).length == ParseInt(s[n..], 8).value
            && Behind(s) == s[n..][m..]
            && (Complete(s, needTag) <==> ParseInt(s[n..], 8).value <= |Behind(s)|)
  {
    hide TagLength, TagValue, NibbleValue;
    var (n, m) := (ParseTag(s).length, ParseInt(s[ParseTag(s).length..], 8).length);
    assert s[n..][m..] == s[n + m..];
  }

  lemma OutcomeIs(s: seq<byte>, t: seq<byte>, needTag: nat, wide: bool, n: nat, r: int)
    requires Complete(s, needTag) && t == Behind(s) && IntOf(t, ParseHeader(s).length, wide, n, r)
    ensures ParseHeader(s).length <= |t| && PayloadOf(s).1 == t[ParseHeader(s).length..] && IntOutcome(s, wide, n, r)
  {
    hide ParseHeader, IntOf;
    var h := ParseHeader(s);
    assert s[h.size..][h.length..] == s[h.size + h.length..];
  }

  /** An integer that was marshalled comes back, and what follows it stays. */
  method IntThere(buf: EvBuffer, tag: nat, n: nat, wide: bool, ghost rest: seq<byte>) returns (v: nat, r: int)
    requires Good(buf) && tag < TWO_32 && n < (if wide then TWO_64 else TWO_32) && NibbleCount(n) <= 16
    requires buf.Contents() == ItemBytes(tag, IntBytes(n)) + rest
    modifies buf, buf.chains
    ensures Good(buf) && v == n && r == |IntBytes(n)| && buf.Contents() == rest
  {
    hide Good, TagReadable, ParseHeader, IntBytes, ParseInt;
    CountFits(n);
    var b := IntBytes(n);
    ghost var s := buf.Contents();
    ItemRoundTrip(tag, b, rest);
    IntRoundTrip(n, if wide then 16 else 8, rest);
    SplitAt(s, b, rest, ParseHeader(s).size);
    var over;
    v, r, over := UnmarshalInt(buf, tag, wide);
  }

  lemma SplitAt(s: seq<byte>, data: seq<byte>, rest: seq<byte>, size: nat)
    requires size + |data| <= |s| && s[size..size + |data|] == data && s[size + |data|..] == rest
    ensures s[size..] == data + rest
  {
  }
}

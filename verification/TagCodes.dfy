/** The variable-length encodings of tags and integers in a tagged stream, on plain bytes. */
module TagCodes {
  import opened Common
  import opened Flat

  datatype Parsed = Bad | Parsed(value: nat, length: nat)

  // Tags: seven bits per byte, lowest first; the high bit says that more follow.

  function TagBytes(tag: nat): (b: seq<byte>)
    ensures b != []
  {
    if tag < 128 then [tag] else [tag % 128 + 128] + TagBytes(tag / 128)
  }

  /** The length of the tag that `s` starts with, or 0. */
  function TagLength(s: seq<byte>): (n: nat)
    ensures n <= |s|
    ensures n > 0 ==> s[n - 1] < 128 && forall i :: 0 <= i < n - 1 ==> s[i] >= 128
    ensures n == 0 ==> forall i :: 0 <= i < |s| ==> s[i] >= 128
  {
    if s == [] then 0
    else if s[0] < 128 then 1
    else var n := TagLength(s[1..]); if n == 0 then 0 else n + 1
  }

  function TagValue(s: seq<byte>): (v: nat) {
    if s == [] then 0 else s[0] % 128 + 128 * TagValue(s[1..])
  }

  /** What a 32-bit reader makes of the tag at the start of `s`. */
  function ParseTag(s: seq<byte>): Parsed {
    var n := TagLength(s);
    if n == 0 then Bad else Parsed(TagValue(s[..n]) % TWO_32, n)
  }

  lemma {:induction false} TagLengthIs(s: seq<byte>, n: nat)
    requires 0 < n <= |s| && s[n - 1] < 128 && forall i :: 0 <= i < n - 1 ==> s[i] >= 128
    ensures TagLength(s) == n
  {
    if n > 1 {
      TagLengthIs(s[1..], n - 1);
    }
  }

  lemma {:induction false} TagBytesShape(tag: nat)
    ensures var b := TagBytes(tag);
            && b[|b| - 1] < 128 && (forall i :: 0 <= i < |b| - 1 ==> b[i] >= 128) && TagValue(b) == tag
  {
    if tag >= 128 {
      TagBytesShape(tag / 128);
      assert TagBytes(tag)[1..] == TagBytes(tag / 128);
    } else {
      assert TagBytes(tag)[1..] == [];
    }
  }

  /** Reading back a tag, whatever follows it. */
  lemma TagRoundTrip(tag: nat, rest: seq<byte>)
    requires tag < TWO_32
    ensures ParseTag(TagBytes(tag) + rest) == Parsed(tag, |TagBytes(tag)|)
  {
    var b := TagBytes(tag);
    TagBytesShape(tag);
    TagLengthIs(b + rest, |b|);
    assert (b + rest)[..|b|] == b;
  }

  lemma {:induction false} TagBytesBound(tag: nat, n: nat)
    requires (n == 1 && tag < 0x10) || (n == 2 && tag < 0x800) || (n == 3 && tag < 0x4_0000)
             || (n == 4 && tag < 0x200_0000) || (n == 5 && tag < TWO_32)
    ensures |TagBytes(tag)| <= n
  {
    if tag >= 128 {
      TagBytesBound(tag / 128, n - 1);
    }
  }

  function Power128(k: nat): (p: nat)
    ensures p > 0
  {
    if k == 0 then 1 else 128 * Power128(k - 1)
  }

  lemma {:induction false} TagValueSnoc(s: seq<byte>, b: byte)
    ensures TagValue(s + [b]) == TagValue(s) + b % 128 * Power128(|s|)
  {
    if s == [] {
      assert [b][1..] == [] && [] + [b] == [b];
    } else {
      TagValueSnoc(s[1..], b);
      assert (s + [b])[1..] == s[1..] + [b];
      var p := Power128(|s| - 1);
      assert 128 * (b % 128 * p) == b % 128 * (128 * p);
    }
  }

  // Integers: a nibble for the number of nibbles less one, then these, lowest first.

  function NibbleCount(n: nat): (c: nat)
    ensures c >= 1
  {
    if n < 16 then 1 else 1 + NibbleCount(n / 16)
  }

  function Nibble(n: nat, k: nat): (d: nat)
    ensures d < 16
  {
    if k == 0 then n % 16 else Nibble(n / 16, k - 1)
  }

  /** Nibble `k` of a byte string: the high half of a byte comes first. */
  function NibbleAt(s: seq<byte>, k: nat): (d: nat)
    requires k / 2 < |s|
    ensures d < 16
  {
    if k % 2 == 0 then s[k / 2] / 16 else s[k / 2] % 16
  }

  /** The nibbles that stand for `n`: their number less one, the digits, and zero for padding. */
  function Written(n: nat, k: nat): (d: nat)
    requires NibbleCount(n) <= 16
    ensures d < 16
  {
    if k == 0 then NibbleCount(n) - 1 else if k <= NibbleCount(n) then Nibble(n, k - 1) else 0
  }

  function IntBytes(n: nat): (s: seq<byte>)
    requires NibbleCount(n) <= 16
    ensures |s| == NibbleCount(n) / 2 + 1
  {
    seq(NibbleCount(n) / 2 + 1, i requires 0 <= i => Written(n, 2 * i) * 16 + Written(n, 2 * i + 1))
  }

  lemma IntBytesAt(n: nat, k: nat)
    requires NibbleCount(n) <= 16 && k / 2 < |IntBytes(n)|
    ensures NibbleAt(IntBytes(n), k) == Written(n, k)
  {
    var i := k / 2;
    assert IntBytes(n)[i] == Written(n, 2 * i) * 16 + Written(n, 2 * i + 1);
  }

  /** The number that nibbles `k` to `n` stand for. */
  function NibbleValue(s: seq<byte>, k: nat, n: nat): (v: nat)
    requires n / 2 < |s|
    decreases n + 1 - k
  {
    if k > n then 0 else NibbleAt(s, k) + 16 * NibbleValue(s, k + 1, n)
  }

  /** What a reader of up to `max` nibbles makes of the start of `s`. */
  function ParseInt(s: seq<byte>, max: nat): Parsed {
    if s == [] then Bad
    else
      var n := s[0] / 16 + 1;
      if n > max || n / 2 + 1 > |s| then Bad else Parsed(NibbleValue(s, 1, n), n / 2 + 1)
  }

  /** Digits put together again. */
  lemma {:induction false} NibblesOf(s: seq<byte>, k: nat, n: nat, v: nat)
    requires k <= n && n / 2 < |s| && NibbleCount(v) == n + 1 - k
    requires forall j :: k <= j <= n ==> NibbleAt(s, j) == Nibble(v, j - k)
    ensures NibbleValue(s, k, n) == v
    decreases n - k
  {
    assert NibbleAt(s, k) == v % 16;
    if v >= 16 {
      forall j | k + 1 <= j <= n ensures NibbleAt(s, j) == Nibble(v / 16, j - (k + 1)) {
      }
      NibblesOf(s, k + 1, n, v / 16);
    }
  }

  /** Reading back an integer, whatever follows it. */
  lemma IntRoundTrip(n: nat, max: nat, rest: seq<byte>)
    requires NibbleCount(n) <= max <= 16
    ensures ParseInt(IntBytes(n) + rest, max) == Parsed(n, |IntBytes(n)|)
  {
    hide IntBytes, NibbleAt, Nibble, NibbleValue;
    var b := IntBytes(n);
    var s := b + rest;
    var c := NibbleCount(n);
    forall j | 0 <= j <= c ensures NibbleAt(s, j) == Written(n, j) {
      IntBytesAt(n, j);
      NibbleFront(b, rest, j);
    }
    NibblesOf(s, 1, c, n);
    FirstNibble(s);
  }

  lemma NibbleFront(s: seq<byte>, rest: seq<byte>, k: nat)
    requires k / 2 < |s|
    ensures NibbleAt(s + rest, k) == NibbleAt(s, k)
  {
  }

  lemma FirstNibble(s: seq<byte>)
    requires s != []
    ensures NibbleAt(s, 0) == s[0] / 16
  {
  }

  lemma {:induction false} CountBound(n: nat, bits: nat)
    requires 1 <= bits && n < Power16(bits)
    ensures NibbleCount(n) <= bits
  {
    if n >= 16 {
      CountBound(n / 16, bits - 1);
    }
  }

  function Power16(k: nat): (p: nat)
    ensures p > 0
  {
    if k == 0 then 1 else 16 * Power16(k - 1)
  }

  lemma {:induction false} ValueBound(s: seq<byte>, k: nat, n: nat)
    requires n / 2 < |s| && k <= n + 1
    ensures NibbleValue(s, k, n) < Power16(n + 1 - k)
    decreases n + 1 - k
  {
    if k <= n {
      ValueBound(s, k + 1, n);
    }
  }

  lemma CountFits(n: nat)
    ensures n < TWO_32 ==> NibbleCount(n) <= 8
    ensures n < TWO_64 ==> NibbleCount(n) <= 16
  {
    assert Power16(8) == TWO_32 && Power16(16) == TWO_64 by {
      assert Power16(4) == 0x1_0000;
      assert Power16(8) == 0x1_0000_0000;
      assert Power16(12) == 0x1_0000_0000_0000;
    }
    if n < TWO_32 {
      CountBound(n, 8);
    }
    if n < TWO_64 {
      CountBound(n, 16);
    }
  }
}

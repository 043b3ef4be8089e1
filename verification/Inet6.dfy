/** The printer and the parser of 128-bit addresses. */
module Inet6 {
  import opened Common
  import opened Inet6Text

  predicate IsAddress(addr: seq<nat>) {
    |addr| == 16 && forall i :: 0 <= i < 16 ==> addr[i] < 256
  }

  predicate Words8(ws: seq<nat>) {
    |ws| == 8 && forall i :: 0 <= i < 8 ==> ws[i] < 0x10000
  }

  /** The eight words, high byte first. */
  function WordsOf(addr: seq<nat>): (ws: seq<nat>)
    requires IsAddress(addr)
    ensures Words8(ws)
  {
    seq(8, i requires 0 <= i < 8 => addr[2 * i] * 256 + addr[2 * i + 1])
  }

  function ByteAt(ws: seq<nat>, i: nat): (b: nat)
    requires Words8(ws) && i < 16
    ensures b < 256
  {
    if i % 2 == 0 then ws[i / 2] / 256 else ws[i / 2] % 256
  }

  function BytesOf(ws: seq<nat>): (addr: seq<nat>)
    requires Words8(ws)
    ensures IsAddress(addr)
  {
    seq(16, i requires 0 <= i < 16 => ByteAt(ws, i))
  }

  lemma ByteBack(addr: seq<nat>, i: nat)
    requires IsAddress(addr) && i < 16
    ensures ByteAt(WordsOf(addr), i) == addr[i]
  {
    var j := i / 2;
    assert WordsOf(addr)[j] == addr[2 * j] * 256 + addr[2 * j + 1];
    assert i == 2 * j || i == 2 * j + 1;
  }

  lemma WordBack(ws: seq<nat>, i: nat)
    requires Words8(ws) && i < 8
    ensures ByteAt(ws, 2 * i) * 256 + ByteAt(ws, 2 * i + 1) == ws[i]
  {
    assert 2 * i / 2 == i && (2 * i + 1) / 2 == i;
  }

  /** Words and bytes are two views of the same address. */
  lemma BytesBack(addr: seq<nat>, ws: seq<nat>)
    requires IsAddress(addr) && Words8(ws)
    ensures BytesOf(WordsOf(addr)) == addr
    ensures WordsOf(BytesOf(ws)) == ws
  {
    forall i | 0 <= i < 16 ensures BytesOf(WordsOf(addr))[i] == addr[i] {
      ByteBack(addr, i);
    }
    forall i | 0 <= i < 8 ensures WordsOf(BytesOf(ws))[i] == ws[i] {
      WordBack(ws, i);
    }
  }

  // ---- The canonical form ---------------------------------------------------------------------

  function HexTexts(ws: seq<nat>): (gs: seq<string>)
    ensures |gs| == |ws|
  {
    seq(|ws|, i requires 0 <= i < |ws| => HexText(ws[i]))
  }

  lemma {:induction false} HexTextsShow(ws: seq<nat>)
    requires forall i :: 0 <= i < |ws| ==> ws[i] < 0x10000
    ensures Groups(HexTexts(ws)) && AllWords(HexTexts(ws)) && Values(HexTexts(ws)) == ws
    decreases |ws|
  {
    forall i | 0 <= i < |ws| ensures IsGroup(HexTexts(ws)[i]) {
      HexTextShort(ws[i]);
    }
    if ws != [] {
      HexTextsShow(ws[1..]);
      assert HexTexts(ws)[1..] == HexTexts(ws[1..]);
    }
  }

  predicate ZeroRun(ws: seq<nat>, p: nat, n: nat) {
    p + n <= |ws| && forall k :: p <= k < p + n ==> ws[k] == 0
  }

  /** A longest run of zero words, and of those the leftmost. */
  ghost predicate LongestRun(ws: seq<nat>, p: nat, n: nat) {
    && ZeroRun(ws, p, n)
    && forall q: nat, m: nat :: ZeroRun(ws, q, m) && m > 0 ==> m < n || (m == n && p <= q)
  }

  /** Addresses that show their last 32 bits as a dotted quad. */
  predicate IsV4(ws: seq<nat>)
    requires |ws| == 8
  {
    && ws[0] == 0 && ws[1] == 0 && ws[2] == 0 && ws[3] == 0 && ws[4] == 0
    && ((ws[5] == 0 && ws[6] != 0 && ws[7] != 0) || ws[5] == 0xffff)
  }

  function QuadOf(addr: seq<nat>): seq<string>
    requires IsAddress(addr)
  {
    [DecText(addr[12]), DecText(addr[13]), DecText(addr[14]), DecText(addr[15])]
  }

  /**
    Groups without leading zeros, in lower case; "::" for the leftmost longest run of two or more
    zero words, and only for that; a dotted quad only after the two prefixes that call for one.
  */
  ghost predicate Canonical(f: Form, addr: seq<nat>)
    requires IsAddress(addr)
  {
    var ws := WordsOf(addr);
    if IsV4(ws) then f == GappedQuad([], if ws[5] == 0 then [] else [HexText(ws[5])], QuadOf(addr))
    else match f
      case Full(all) => all == HexTexts(ws) && forall q: nat, m: nat :: ZeroRun(ws, q, m) ==> m < 2
      case Gapped(left, right) =>
        var p, n := |left|, 8 - |left| - |right|;
        n >= 2 && LongestRun(ws, p, n) && left == HexTexts(ws[..p]) && right == HexTexts(ws[p + n..])
      case _ => false
  }

  /** The canonical form of an address is a text of that address. */
  lemma CanonicalMeans(f: Form, addr: seq<nat>)
    requires IsAddress(addr) && Canonical(f, addr)
    ensures f.Valid() && f.Words() == WordsOf(addr)
  {
    hide HexTexts, Values, Groups, AllWords, QuadWords, IsQuad;
    var ws := WordsOf(addr);
    if IsV4(ws) {
      V4Means(f, addr);
    } else {
      match f {
        case Full(_) => HexTextsShow(ws);
        case Gapped(left, right) => {
          var p, n := |left|, 8 - |left| - |right|;
          HexTextsShow(ws[..p]);
          HexTextsShow(ws[p + n..]);
          assert ws[p..p + n] == Zeros(n);
          assert ws == ws[..p] + ws[p..p + n] + ws[p + n..];
        }
      }
    }
  }

  lemma DecOctet(n: nat)
    requires n < 256
    ensures AllDigits(DecText(n)) && IsOctet(DecText(n)) && NumberValue(DecText(n)) == n
  {
    hide NumberValue, IsNumber, DecValue;
    DigitsAreNumber(DecText(n));
  }

  lemma FourOctets(ds: seq<string>)
    requires |ds| == 4 && IsOctet(ds[0]) && IsOctet(ds[1]) && IsOctet(ds[2]) && IsOctet(ds[3])
    requires AllDigits(ds[0]) && AllDigits(ds[1]) && AllDigits(ds[2]) && AllDigits(ds[3])
    ensures IsQuad(ds) && PlainQuad(ds)
  {
    hide IsOctet, AllDigits;
  }

  lemma QuadWordsAre(ds: seq<string>)
    requires IsQuad(ds)
    ensures QuadWords(ds) == [NumberValue(ds[0]) * 256 + NumberValue(ds[1]), NumberValue(ds[2]) * 256 + NumberValue(ds[3])]
  {
    hide NumberValue;
  }

  /** Four numbers in decimal. */
  lemma DecQuad(ds: seq<string>, a: nat, b: nat, c: nat, d: nat)
    requires |ds| == 4 && ds[0] == DecText(a) && ds[1] == DecText(b) && ds[2] == DecText(c) && ds[3] == DecText(d)
    requires a < 256 && b < 256 && c < 256 && d < 256
    ensures IsQuad(ds) && PlainQuad(ds) && QuadWords(ds) == [a * 256 + b, c * 256 + d]
  {
    hide NumberValue, IsOctet, DecText, AllDigits, QuadWords, IsQuad, PlainQuad;
    DecOctet(a);
    DecOctet(b);
    DecOctet(c);
    DecOctet(d);
    FourOctets(ds);
    QuadWordsAre(ds);
  }

  lemma V4Means(f: Form, addr: seq<nat>)
    requires IsAddress(addr) && Canonical(f, addr) && IsV4(WordsOf(addr))
    ensures f.Valid() && f.Words() == WordsOf(addr)
  {
    hide IsQuad, QuadWords, DecText;
    var ws := WordsOf(addr);
    HexTextShort(ws[5]);
    DecQuad(f.quad, addr[12], addr[13], addr[14], addr[15]);
    assert QuadWords(f.quad) == ws[6..];
    var r := f.right;
    assert Values(r) == if ws[5] == 0 then [] else [ws[5]] by {
      if ws[5] != 0 {
        assert r[1..] == [];
      }
    }
    assert Values([]) == [];
    assert f.Words() == ws;
  }

  /** There is one canonical form of an address. */
  lemma CanonicalUnique(f: Form, g: Form, addr: seq<nat>)
    requires IsAddress(addr) && Canonical(f, addr) && Canonical(g, addr)
    ensures f == g
  {
    var ws := WordsOf(addr);
    if !IsV4(ws) {
      if f.Gapped? {
        assert ZeroRun(ws, |f.left|, 8 - |f.left| - |f.right|);
      }
      if g.Gapped? {
        assert ZeroRun(ws, |g.left|, 8 - |g.left| - |g.right|);
      }
    }
  }

  // ---- The printer ----------------------------------------------------------------------------

  /** Every run of zero words that starts before `i` ends by `i` and is no better than `n` at `p`. */
  ghost predicate BestBefore(ws: seq<nat>, i: nat, p: int, n: nat) {
    && (n > 0 ==> p >= 0 && ZeroRun(ws, p, n) && p + n <= i)
    && forall q: nat, m: nat :: ZeroRun(ws, q, m) && m > 0 && q < i ==> q + m <= i && (m < n || (m == n && p <= q))
  }

  method FindGap(words: seq<nat>) returns (pos: int, ghost len: nat)
    requires |words| == 8
    ensures pos < 0 ==> pos == -1 && forall q: nat, m: nat :: ZeroRun(words, q, m) ==> m < 2
    ensures pos >= 0 ==> len >= 2 && LongestRun(words, pos, len)
  {
    var longestGapLen: nat, longestGapPos := 0, -1;
    var i := 0;
    while i < 8
      invariant 0 <= i <= 8
      invariant BestBefore(words, i, longestGapPos, longestGapLen)
      invariant 0 < i < 8 ==> words[i - 1] != 0 || words[i] != 0
    {
      if words[i] == 0 {
        var curGapPos := i;
        i := i + 1;
        var curGapLen: nat := 1;
        while i < 8 && words[i] == 0
          invariant curGapPos + curGapLen == i <= 8
          invariant ZeroRun(words, curGapPos, curGapLen)
        {
          i := i + 1;
          curGapLen := curGapLen + 1;
        }
        RunEnds(words, curGapPos, i, longestGapPos, longestGapLen);
        if curGapLen > longestGapLen {
          longestGapPos := curGapPos;
          longestGapLen := curGapLen;
        }
      } else {
        StepOver(words, i, longestGapPos, longestGapLen);
        i := i + 1;
      }
    }
    assert forall q: nat, m: nat :: ZeroRun(words, q, m) && m > 0 ==> q < 8;
    len := longestGapLen;
    if longestGapLen <= 1 {
      longestGapPos := -1;
    }
    pos := longestGapPos;
  }

  lemma RunEnds(ws: seq<nat>, s: nat, e: nat, p: int, n: nat)
    requires |ws| == 8 && s < e <= 8 && ZeroRun(ws, s, e - s)
    requires s == 0 || ws[s - 1] != 0
    requires e < 8 ==> ws[e] != 0
    requires BestBefore(ws, s, p, n)
    ensures if e - s > n then BestBefore(ws, e, s, e - s) else BestBefore(ws, e, p, n)
  {
    forall q: nat, m: nat | ZeroRun(ws, q, m) && m > 0 && q < e
      ensures q + m <= e && (q < s ==> q + m <= s) && (q >= s ==> m <= e - s)
    {
      assert !(q <= e < q + m);
    }
  }

  lemma StepOver(ws: seq<nat>, i: nat, p: int, n: nat)
    requires |ws| == 8 && i < 8 && ws[i] != 0 && BestBefore(ws, i, p, n)
    ensures BestBefore(ws, i + 1, p, n)
  {
    forall q: nat, m: nat | ZeroRun(ws, q, m) && m > 0 ensures q != i {
      assert ws[q] == 0;
    }
  }

  /** The text of the words before `i`, each with its colon, and all of it at the end. */
  function Tail(ws: seq<nat>, from: nat, i: nat): string
    requires from <= i <= |ws|
  {
    if i < |ws| then EachThen(HexTexts(ws[from..i]), "") else Join(HexTexts(ws[from..]))
  }

  function Shown(ws: seq<nat>, pos: int, len: nat, i: nat): string
    requires i <= |ws|
  {
    if pos < 0 || i <= pos then Tail(ws, 0, i)
    else if pos + len <= i then Lead(HexTexts(ws[..pos]), Tail(ws, pos + len, i))
    else ""
  }

  lemma {:induction false} EachSnoc(gs: seq<string>, g: string)
    ensures EachThen(gs + [g], "") == EachThen(gs, "") + (g + ":")
    ensures Join(gs + [g]) == EachThen(gs, "") + g
    decreases |gs|
  {
    if gs == [] {
      assert gs + [g] == [g] && [g][1..] == [];
      assert g + ":" + "" == g + ":";
    } else {
      assert (gs + [g])[1..] == gs[1..] + [g];
      EachSnoc(gs[1..], g);
      var e := EachThen(gs[1..], "");
      assert gs[0] + ":" + (e + g) == gs[0] + ":" + e + g;
      assert gs[0] + ":" + (e + (g + ":")) == gs[0] + ":" + e + (g + ":");
    }
  }

  lemma TailGrows(ws: seq<nat>, from: nat, i: nat)
    requires from <= i < |ws|
    ensures Tail(ws, from, i + 1) == Tail(ws, from, i) + (HexText(ws[i]) + if i + 1 < |ws| then ":" else "")
  {
    var gs, g := HexTexts(ws[from..i]), HexText(ws[i]);
    assert HexTexts(ws[from..i + 1]) == gs + [g];
    assert i + 1 == |ws| ==> ws[from..] == ws[from..i + 1];
    assert g + "" == g;
    EachSnoc(gs, g);
  }

  lemma ShownGrows(ws: seq<nat>, pos: int, len: nat, i: nat)
    requires |ws| == 8 && i < 8 && (pos >= 0 ==> len > 0 && pos + len <= 8)
    requires pos < 0 || i < pos || pos + len <= i
    ensures Shown(ws, pos, len, i + 1)
         == Shown(ws, pos, len, i) + (HexText(ws[i]) + if i + 1 < 8 then ":" else "")
  {
    var more := HexText(ws[i]) + if i + 1 < 8 then ":" else "";
    if pos < 0 || i < pos {
      TailGrows(ws, 0, i);
    } else {
      TailGrows(ws, pos + len, i);
      LeadSplit(HexTexts(ws[..pos]), Tail(ws, pos + len, i), more);
    }
  }

  lemma ShownGap(ws: seq<nat>, pos: nat, len: nat)
    requires |ws| == 8 && len > 0 && pos + len <= 8
    ensures Shown(ws, pos, len, pos + len)
         == Shown(ws, pos, len, pos) + if pos == 0 then "::" else ":"
  {
    var gs := HexTexts(ws[..pos]);
    assert ws[..pos] == ws[0..pos];
    assert HexTexts(ws[pos + len..pos + len]) == [] && HexTexts(ws[8..]) == [];
    assert Tail(ws, pos + len, pos + len) == "";
    if pos > 0 {
      EachSplit(gs, "", ":");
      assert "" + ":" == ":" && ":" + "" == ":";
    } else {
      assert gs == [] && Shown(ws, pos, len, pos) == "";
    }
  }

  lemma LongestRunEnds(ws: seq<nat>, p: nat, n: nat, i: nat)
    requires |ws| == 8 && LongestRun(ws, p, n) && n > 0 && p <= i <= 8
    requires forall k :: p <= k < i ==> ws[k] == 0
    requires i == 8 || ws[i] != 0
    ensures i == p + n
  {
    assert ZeroRun(ws, p, i - p);
  }

  method PrintWords(words: seq<nat>) returns (buf: string, ghost pos: int, ghost len: nat)
    requires |words| == 8
    ensures pos < 0 ==> pos == -1 && forall q: nat, m: nat :: ZeroRun(words, q, m) ==> m < 2
    ensures pos >= 0 ==> len >= 2 && LongestRun(words, pos, len)
    ensures buf == Shown(words, pos, len, 8)
  {
    hide Shown, LongestRun;
    var longestGapPos, gapLen := FindGap(words);
    pos, len := longestGapPos, gapLen;
    GapFits(words, pos, len);
    buf := "";
    var i := 0;
    while i < 8
      invariant 0 <= i <= 8
      invariant buf == Shown(words, pos, len, i)
      invariant pos < 0 || i <= pos || pos + len <= i
    {
      if words[i] == 0 && longestGapPos == i {
        ShownGap(words, pos, len);
        if i == 0 {
          buf := buf + ":";
        }
        buf := buf + ":";
        while i < 8 && words[i] == 0
          invariant pos <= i <= 8
          invariant forall k :: pos <= k < i ==> words[k] == 0
        {
          i := i + 1;
        }
        LongestRunEnds(words, pos, len, i);
      } else {
        GapStartsZero(words, pos, len);
        ShownGrows(words, pos, len, i);
        var before := buf;
        var text := HexText(words[i]);
        buf := buf + text;
        if i != 7 {
          buf := buf + ":";
        }
        assert before + (text + if i + 1 < 8 then ":" else "") == buf;
        i := i + 1;
      }
    }
  }

  lemma GapFits(ws: seq<nat>, pos: int, len: nat)
    requires |ws| == 8 && (pos >= 0 ==> LongestRun(ws, pos, len))
    ensures pos >= 0 ==> pos + len <= 8
    ensures Shown(ws, pos, len, 0) == ""
  {
    assert HexTexts(ws[0..0]) == [];
  }

  lemma GapStartsZero(ws: seq<nat>, pos: int, len: nat)
    requires |ws| == 8 && (pos >= 0 ==> len > 0 && LongestRun(ws, pos, len))
    ensures pos >= 0 ==> pos < 8 && ws[pos] == 0
  {
  }

  lemma ShownIsText(ws: seq<nat>, pos: int, len: nat, f: Form)
    requires Words8(ws) && (pos >= 0 ==> len >= 2 && LongestRun(ws, pos, len))
    requires f == if pos < 0 then Full(HexTexts(ws)) else Gapped(HexTexts(ws[..pos]), HexTexts(ws[pos + len..]))
    ensures f.Valid() && Shown(ws, pos, len, 8) == f.Text()
  {
    HexTextsShow(ws);
    if pos < 0 {
      assert ws[0..] == ws;
    } else {
      HexTextsShow(ws[..pos]);
      HexTextsShow(ws[pos + len..]);
    }
  }

  /** The text of an address is its canonical form. */
  method Print(addr: seq<nat>) returns (buf: string, ghost f: Form)
    requires IsAddress(addr)
    ensures Canonical(f, addr) && f.Valid() && buf == f.Text()
  {
    var words := WordsOf(addr);
    if words[0] == 0 && words[1] == 0 && words[2] == 0 && words[3] == 0 && words[4] == 0 &&
       ((words[5] == 0 && words[6] != 0 && words[7] != 0) || words[5] == 0xffff)
    {
      var quad := QuadText(QuadOf(addr));
      if words[5] == 0 {
        buf := "::" + quad;
        f := GappedQuad([], [], QuadOf(addr));
      } else {
        buf := "::" + (HexText(words[5]) + ":" + quad);
        f := GappedQuad([], [HexText(words[5])], QuadOf(addr));
        assert f.right[1..] == [] && EachThen(f.right, quad) == Then(f.right[0], EachThen([], quad));
      }
      V4Means(f, addr);
    } else {
      var text, pos, len := PrintWords(words);
      buf := text;
      f := if pos < 0 then Full(HexTexts(words))
           else Gapped(HexTexts(words[..pos]), HexTexts(words[pos + len..]));
      ShownIsText(words, pos, len, f);
    }
  }

  // ---- The parser -----------------------------------------------------------------------------

  lemma ScanNoWord(s: string, e: nat, at: Scanned)
    requires 0 < e <= |s| && |at.words| <= 7 && !IsHex(s[0])
    ensures Scan(s, e, at)
         == if s[0] != ':' || at.gap != -1 then None
            else if at.words != [] then Scan(s[1..], e - 1, at.(gap := |at.words|))
            else if |s| > 1 && s[1] == ':' then Scan(s[2..], e - 2, at.(gap := 0))
            else None
  {
  }

  lemma ScanEnds(s: string, e: int, at: Scanned)
    requires e <= |s| && (e <= 0 || |at.words| > 7)
    ensures Scan(s, e, at) == if e <= 0 then Some(at) else None
  {
  }

  lemma Behind(src: string, pos: nat, n: nat)
    requires pos <= |src|
    ensures pos + n <= |src| ==> src[pos..][n..] == src[pos + n..]
  {
  }

  method Store(words: array<nat>, i: nat, v: nat)
    requires i < words.Length == 8
    modifies words
    ensures words[..i + 1] == old(words[..i]) + [v]
    ensures i < 6 ==> words[6] == old(words[6]) && words[7] == old(words[7])
  {
    words[i] := v;
  }

  lemma ScanBegins(src: string, eow: nat, none: seq<nat>)
    requires none == [] && eow <= |src|
    ensures Scan(src[0..], eow - 0, Scanned(none, -1)) == Scan(src, eow, START)
  {
    assert src[0..] == src;
  }

  /** Reads words into `words` until `eow`; gives up if the text does not go on as it should. */
  method ReadWords(src: string, eow: nat, words: array<nat>) returns (ok: bool, n: nat, gapPos: int)
    requires eow <= |src| && words.Length == 8
    modifies words
    ensures ok == Scan(src, eow, START).Some?
    ensures ok ==> n <= 8 && Scan(src, eow, START) == Some(Scanned(words[..n], gapPos))
    ensures ok && n <= 6 ==> words[6] == old(words[6]) && words[7] == old(words[7])
  {
    hide Scan, StrtolLen, StrtolValue, IsHex, START;
    var pos, i := 0, 0;
    gapPos, n, ok := -1, 0, false;
    ghost var whole := Scan(src, eow, START);
    ScanBegins(src, eow, words[..0]);
    while pos < eow
      invariant 0 <= i <= 8
      invariant pos <= |src| + 1
      invariant pos <= |src| ==> Scan(src[pos..], eow - pos, Scanned(words[..i], gapPos)) == whole
      invariant pos > |src| ==> Some(Scanned(words[..i], gapPos)) == whole
      invariant i <= 6 ==> words[6] == old(words[6]) && words[7] == old(words[7])
      decreases eow - pos
    {
      ghost var at := Scanned(words[..i], gapPos);
      var rest := src[pos..];
      if i > 7 {
        ScanEnds(rest, eow - pos, at);
        return;
      }
      if IsHex(src[pos]) {
        ScanWord(rest, eow - pos, at);
        var len := StrtolLen(rest);
        if len > 4 {
          return;
        }
        Store(words, i, StrtolValue(rest));
        i := i + 1;
        pos := pos + len;
        if (pos == |src| || src[pos] != ':') && pos != eow {
          return;
        }
        Behind(src, pos - len, len + 1);
        pos := pos + 1;
      } else {
        ScanNoWord(rest, eow - pos, at);
        if src[pos] == ':' && i > 0 && gapPos == -1 {
          gapPos := i;
          Behind(src, pos, 1);
          pos := pos + 1;
        } else if src[pos] == ':' && i == 0 && pos + 1 < |src| && src[pos + 1] == ':' && gapPos == -1 {
          gapPos := i;
          Behind(src, pos, 2);
          pos := pos + 2;
        } else {
          return;
        }
      }
    }
    if pos <= |src| {
      ScanEnds(src[pos..], eow - pos, Scanned(words[..i], gapPos));
    }
    ok, n := true, i;
  }

  /** Moves the words after the gap to the end and fills the gap with zeros. */
  method FillGap(words: array<nat>, gapPos: nat, n: nat, quad: nat)
    requires words.Length == 8 && gapPos <= n && n + quad < 8
    modifies words
    ensures words[..8 - quad]
         == old(words[..gapPos]) + Zeros(8 - n - quad) + old(words[gapPos..n])
    ensures words[8 - quad..] == old(words[8 - quad..])
  {
    var nToMove, gapLen := n - gapPos, 8 - n - quad;
    forall k | 0 <= k < nToMove {
      words[gapPos + gapLen + k] := words[gapPos + k];
    }
    forall k | 0 <= k < gapLen {
      words[gapPos + k] := 0;
    }
  }

  /** Finds where the words end and reads the dotted quad after them, if there is one. */
  method FindEnd(src: string) returns (ok: bool, eow: nat, quad: seq<nat>)
    ensures !ok ==> Parse(src) == None
    ensures ok ==> eow <= |src| && (quad == [] || |quad| == 2)
    ensures ok ==> Parse(src) == var at := Scan(src, eow, START); if at.None? then None else Expand(at.value, quad)
  {
    hide Scan, Expand;
    var dot := FirstDot(src);
    ok, eow, quad := true, |src|, [];
    if dot < |src| {
      if dot == 0 {
        return false, 0, [];
      }
      eow := DigitsBack(src, dot);
      var ends := ScanQuad(src[eow..]);
      if ends.None? {
        return false, 0, [];
      }
      QuadIsTwo(src[eow..]);
      quad := ends.value;
    }
  }

  method ParseWords(src: string) returns (r: Option<seq<nat>>)
    ensures r == Parse(src)
  {
    hide Scan, Parse;
    var words := new nat[8];
    var found, eow, ends := FindEnd(src);
    if !found {
      return None;
    }
    var quad := |ends|;
    if quad == 2 {
      words[6], words[7] := ends[0], ends[1];
    }
    assert words[8 - quad..] == ends;
    var ok, n, gapPos := ReadWords(src, eow, words);
    if !ok {
      return None;
    }
    GapInWords(src, eow, START);
    var setWords := n + quad;
    if setWords > 8 || (setWords == 8 && gapPos != -1) || (setWords < 8 && gapPos == -1) {
      return None;
    }
    assert words[8 - quad..] == ends;
    ghost var read := words[..n];
    if gapPos >= 0 {
      assert read[..gapPos] == words[..gapPos] && read[gapPos..] == words[gapPos..n];
      FillGap(words, gapPos, n, quad);
    }
    assert words[..] == words[..8 - quad] + words[8 - quad..];
    r := Some(words[..]);
  }

  lemma QuadIsTwo(s: string)
    ensures ScanQuad(s).Some? ==> |ScanQuad(s).value| == 2 && Small(ScanQuad(s).value)
  {
  }

  lemma {:induction false} GapInWords(s: string, e: int, at: Scanned)
    requires e <= |s| && -1 <= at.gap <= |at.words|
    ensures var r := Scan(s, e, at); r.Some? ==> -1 <= r.value.gap <= |r.value.words|
    decreases |s|
  {
    if e > 0 && |at.words| <= 7 {
      if IsHex(s[0]) {
        var n := StrtolLen(s);
        if n < |s| {
          GapInWords(s[n + 1..], e - n - 1, at.(words := at.words + [StrtolValue(s)]));
        }
      } else if s[0] == ':' && at.words != [] && at.gap == -1 {
        GapInWords(s[1..], e - 1, at.(gap := |at.words|));
      } else if s[0] == ':' && at.words == [] && |s| > 1 && s[1] == ':' && at.gap == -1 {
        GapInWords(s[2..], e - 2, at.(gap := 0));
      }
    }
  }

  predicate Small(ws: seq<nat>) {
    forall i :: 0 <= i < |ws| ==> ws[i] < 0x10000
  }

  lemma HexSmall(s: string)
    requires AllHex(s) && |s| <= 4
    ensures HexValue(s) < 0x10000
  {
    if |s| > 0 {
      var a := s[..|s| - 1];
      if |a| > 0 {
        var b := a[..|a| - 1];
        if |b| > 0 {
          var c := b[..|b| - 1];
          assert |c| > 0 ==> c[..|c| - 1] == "";
          assert HexValue(c) < 16 && HexValue(b) < 256;
        } else {
          assert HexValue(b) == 0;
        }
        assert HexValue(a) < 0x1000;
      } else {
        assert HexValue(a) == 0;
      }
    }
  }

  lemma {:induction false} ScanSmall(s: string, e: int, at: Scanned)
    requires e <= |s| && Small(at.words)
    ensures var r := Scan(s, e, at); r.Some? ==> Small(r.value.words)
    decreases |s|
  {
    hide Scan, StrtolLen, StrtolValue, IsHex, Small;
    if e <= 0 || |at.words| > 7 {
      ScanEnds(s, e, at);
    } else if IsHex(s[0]) {
      var n, v := StrtolLen(s), StrtolValue(s);
      ScanWord(s, e, at);
      if n <= 4 {
        StrtolSmall(s);
        SmallSnoc(at.words, v);
        if n < |s| {
          ScanSmall(s[n + 1..], e - n - 1, at.(words := at.words + [v]));
        }
      }
    } else {
      ScanNoWord(s, e, at);
      if s[0] == ':' && at.words != [] && at.gap == -1 {
        ScanSmall(s[1..], e - 1, at.(gap := |at.words|));
      } else if s[0] == ':' && at.words == [] && |s| > 1 && s[1] == ':' && at.gap == -1 {
        ScanSmall(s[2..], e - 2, at.(gap := 0));
      }
    }
  }

  lemma StrtolSmall(s: string)
    requires StrtolLen(s) <= 4
    ensures StrtolValue(s) < 0x10000
  {
    var digits := s[PrefixLen(s)..];
    HexSmall(digits[..HexRun(digits)]);
  }

  lemma SmallSnoc(ws: seq<nat>, v: nat)
    requires Small(ws) && v < 0x10000
    ensures Small(ws + [v])
  {
  }

  /** Whatever text is taken, the result is an address. */
  lemma ParseGives(s: string)
    ensures Parse(s).Some? ==> Words8(Parse(s).value)
  {
    hide Scan, ScanQuad, Expand, Words8, Small;
    if Parse(s).Some? {
      var dot := FirstDot(s);
      NothingSmall();
      var eow, quad := |s|, [];
      if dot < |s| {
        eow := DigitsBack(s, dot);
        quad := ScanQuad(s[eow..]).value;
        QuadIsTwo(s[eow..]);
      }
      ScanSmall(s, eow, START);
      GapInWords(s, eow, START);
      ExpandGives(Scan(s, eow, START).value, quad);
    }
  }

  lemma NothingSmall()
    ensures Small([])
  {
  }

  /** The address a text stands for, if it stands for one. */
  function AddressOf(s: string): (r: Option<seq<nat>>)
    ensures r.Some? ==> IsAddress(r.value)
  {
    ParseGives(s);
    if Parse(s).None? then None else Some(BytesOf(Parse(s).value))
  }

  lemma ExpandGives(at: Scanned, quad: seq<nat>)
    requires Small(at.words) && Small(quad) && -1 <= at.gap <= |at.words|
    ensures Expand(at, quad).Some? ==> Words8(Expand(at, quad).value)
  {
  }

  /** Printing and parsing undo each other, for every address. */
  lemma RoundTrip(f: Form, addr: seq<nat>)
    requires IsAddress(addr) && Canonical(f, addr)
    ensures f.Valid() && AddressOf(f.Text()) == Some(addr)
  {
    CanonicalMeans(f, addr);
    ParseMeans(f);
    BytesBack(addr, WordsOf(addr));
  }

  method Pton(src: string) returns (r: Option<seq<nat>>)
    ensures r == AddressOf(src)
  {
    ParseGives(src);
    var words := ParseWords(src);
    r := if words.None? then None else Some(BytesOf(words.value));
  }

  /** What the printer writes, the parser reads back as the same address. */
  method Reread(addr: seq<nat>) returns (back: Option<seq<nat>>)
    requires IsAddress(addr)
    ensures back == Some(addr)
  {
    var text, f := Print(addr);
    RoundTrip(f, addr);
    back := Pton(text);
  }

  /** Printing what was read and reading it again changes nothing. */
  method Normalize(src: string) returns (text: Option<string>)
    ensures text.None? <==> AddressOf(src).None?
    ensures text.Some? ==> AddressOf(text.value) == AddressOf(src)
  {
    var addr := Pton(src);
    if addr.None? {
      return None;
    }
    var buf, f := Print(addr.value);
    RoundTrip(f, addr.value);
    text := Some(buf);
  }

  // ---- The length of a text -----------------------------------------------------------------------

  lemma {:induction false} EachLength(gs: seq<string>, t: string)
    requires Groups(gs)
    ensures |EachThen(gs, t)| <= 5 * |gs| + |t|
    decreases |gs|
  {
    if gs != [] {
      EachLength(gs[1..], t);
    }
  }

  lemma {:induction false} JoinLength(gs: seq<string>)
    requires Groups(gs)
    ensures |Join(gs)| <= 5 * |gs| && (gs != [] ==> |Join(gs)| >= 1)
    decreases |gs|
  {
    if gs != [] {
      JoinLength(gs[1..]);
    }
  }

  lemma DecTextShort(n: nat)
    requires n < 256
    ensures 1 <= |DecText(n)| <= 3
  {
    if n >= 10 {
      assert DecText(n) == DecText(n / 10) + [(n % 10 + '0' as int) as char];
      if n >= 100 {
        assert |DecText(n / 10)| == |DecText(n / 10 / 10)| + 1;
      }
    }
  }

  /** The text fits the printer's buffer of 64 characters, and is not empty. */
  lemma TextFits(f: Form, addr: seq<nat>)
    requires IsAddress(addr) && Canonical(f, addr) && f.Valid()
    ensures 2 <= |f.Text()| < 64
  {
    match f {
      case Full(all) => {
        JoinLength(all);
        JoinLength(all[1..]);
      }
      case Gapped(left, right) => {
        JoinLength(right);
        EachLength(left, ":" + Join(right));
      }
      case GappedQuad(left, right, quad) => {
        DecTextShort(addr[12]);
        DecTextShort(addr[13]);
        DecTextShort(addr[14]);
        DecTextShort(addr[15]);
        EachLength(right, QuadText(quad));
        EachLength(left, ":" + EachThen(right, QuadText(quad)));
      }
    }
  }
}

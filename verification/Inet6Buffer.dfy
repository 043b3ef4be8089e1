/** What is left of the round trip when the printer's text meets a buffer of a given size. */
module Inet6Buffer {
  import opened Common
  import opened Inet6Text
  import opened Inet6

  /** All of a text but its last character, which gives way to the terminator. */
  function Cut(t: string): string {
    if t == "" then "" else t[..|t| - 1]
  }

  // ---- Cutting groups -------------------------------------------------------------------------

  lemma CutHex(n: nat)
    requires n < 0x10000
    ensures n >= 16 ==> Cut(HexText(n)) == HexText(n / 16)
    ensures n < 16 ==> Cut(HexText(n)) == ""
  {
  }

  lemma CutLead(left: seq<string>, t: string)
    requires t != ""
    ensures Cut(Lead(left, t)) == Lead(left, Cut(t))
  {
    var last := t[|t| - 1..];
    assert t == Cut(t) + last;
    LeadSplit(left, Cut(t), last);
  }

  lemma CutEach(gs: seq<string>, t: string)
    requires t != ""
    ensures Cut(EachThen(gs, t)) == EachThen(gs, Cut(t))
  {
    var last := t[|t| - 1..];
    assert t == Cut(t) + last;
    EachSplit(gs, Cut(t), last);
  }

  /** The last word loses its last digit; a word of one digit leaves only the colon before it. */
  lemma CutJoin(ws: seq<nat>)
    requires ws != [] && Small(ws)
    ensures var k := |ws| - 1;
      Cut(Join(HexTexts(ws))) == if ws[k] >= 16 then Join(HexTexts(ws[k := ws[k] / 16]))
                                 else EachThen(HexTexts(ws[..k]), "")
  {
    var k := |ws| - 1;
    var gs, g, h := HexTexts(ws[..k]), HexText(ws[k]), HexText(ws[k] / 16);
    assert HexTexts(ws) == gs + [g] && HexTexts(ws[k := ws[k] / 16]) == gs + [h];
    EachSnoc(gs, g);
    EachSnoc(gs, h);
    CutHex(ws[k]);
    assert Cut(EachThen(gs, "") + g) == EachThen(gs, "") + Cut(g);
  }

  // ---- Parsing what is left -------------------------------------------------------------------

  /** Fewer than eight words without a "::" are no address. */
  lemma ParseEachOnly(gs: seq<string>)
    requires AllWords(gs) && |gs| <= 7
    ensures Parse(EachThen(gs, "")) == None
  {
    hide Scan, Parse, Values, Onto, AllWords;
    NoDots(gs, "");
    ParseNoDot(EachThen(gs, ""));
    ScanEach(gs, "", 0, START);
    OntoStart(gs);
    ScanDone("", Scanned(Values(gs), -1));
  }

  lemma ParseColon()
    ensures Parse(":") == None
  {
    FirstDotAt(":", "");
    assert ":" + "" == ":";
  }

  // ---- No cut text stands for the address -----------------------------------------------------

  lemma CutFull(ws: seq<nat>)
    requires Words8(ws)
    ensures Parse(Cut(Join(HexTexts(ws)))) != Some(ws)
  {
    CutJoin(ws);
    if ws[7] >= 16 {
      var other := ws[7 := ws[7] / 16];
      HexTextsShow(other);
      ParseFull(HexTexts(other));
      assert other[7] != ws[7];
    } else {
      HexTextsShow(ws[..7]);
      ParseEachOnly(HexTexts(ws[..7]));
    }
  }

  lemma RunStops(ws: seq<nat>, p: nat, n: nat)
    requires |ws| == 8 && LongestRun(ws, p, n) && p + n < 8
    ensures ws[p + n] != 0
  {
    assert !ZeroRun(ws, p, n + 1);
  }

  lemma CutGapped(ws: seq<nat>, p: nat, n: nat)
    requires Words8(ws) && n >= 2 && LongestRun(ws, p, n)
    ensures Parse(Cut(Lead(HexTexts(ws[..p]), Join(HexTexts(ws[p + n..]))))) != Some(ws)
  {
    hide Parse, Lead, Join, EachThen, Cut, HexTexts;
    var ls, rs := ws[..p], ws[p + n..];
    HexTextsShow(ls);
    if rs == [] {
      CutNothingAfter(HexTexts(ls));
    } else {
      var k := |rs| - 1;
      assert rs[0] != 0 by {
        RunStops(ws, p, n);
        assert rs[0] == ws[p + n];
      }
      JoinNotEmpty(rs);
      CutLead(HexTexts(ls), Join(HexTexts(rs)));
      CutJoin(rs);
      if rs[k] >= 16 {
        var other := rs[k := rs[k] / 16];
        HexTextsShow(other);
        ParseGapped(HexTexts(ls), HexTexts(other));
        assert (ls + Zeros(n) + other)[7] != ws[7];
      } else {
        HexTextsShow(rs[..k]);
        ParseLeadEach(HexTexts(ls), HexTexts(rs[..k]));
        assert (ls + Zeros(n + 1) + rs[..k])[p + n] == 0;
      }
    }
  }

  lemma JoinNotEmpty(ws: seq<nat>)
    requires ws != []
    ensures Join(HexTexts(ws)) != ""
  {
  }

  lemma CutNothingAfter(left: seq<string>)
    requires Groups(left) && |left| <= 6
    ensures Parse(Cut(Lead(left, Join([])))) == None
  {
    if left == [] {
      assert Cut(Lead(left, "")) == ":";
      ParseColon();
    } else {
      assert ":" + "" == ":" && Cut(":") == "";
      CutEach(left, ":");
      ParseEachOnly(left);
    }
  }

  // ---- Cutting a dotted quad ------------------------------------------------------------------

  lemma CutDec(n: nat)
    ensures n >= 10 ==> Cut(DecText(n)) == DecText(n / 10)
    ensures n < 10 ==> Cut(DecText(n)) == ""
  {
  }

  lemma CutQuad(ds: seq<string>)
    requires |ds| == 4 && ds[3] != ""
    ensures Cut(QuadText(ds)) == QuadText(ds[3 := Cut(ds[3])])
  {
    var d := ds[3];
    assert d == Cut(d) + d[|d| - 1..];
  }

  /** Three numbers and a dot are no dotted quad. */
  lemma ParseOpenQuad(p: string, ds: seq<string>)
    requires '.' !in p && p != "" && !IsDigit(p[|p| - 1])
    requires |ds| == 4 && ds[3] == "" && AllDigits(ds[0]) && IsOctet(ds[0]) && IsOctet(ds[1]) && IsOctet(ds[2])
    ensures Parse(p + QuadText(ds)) == None
  {
    var d, t := ds[0], DotTail(ds);
    QuadParts(p, ds);
    NoDotInDigits(d);
    hide Scan, ScanQuad, Expand, QuadText, DotTail, AllDigits, IsOctet;
    FirstDotAt(p + d, t);
    DigitsBackOf(p, d, t);
    ScanOpenQuad(ds);
  }

  lemma NoDotInDigits(d: string)
    requires AllDigits(d)
    ensures '.' !in d
  {
  }

  lemma ScanOpenQuad(ds: seq<string>)
    requires |ds| == 4 && ds[3] == "" && IsOctet(ds[0]) && IsOctet(ds[1]) && IsOctet(ds[2])
    ensures ScanQuad(QuadText(ds)) == None
  {
    hide ScanInt, NumberValue, IsOctet;
    ScanOctet(ds[0], "." + (ds[1] + ("." + (ds[2] + ("." + ds[3])))));
    ScanDotOctet(ds[1], "." + (ds[2] + ("." + ds[3])));
    ScanDotOctet(ds[2], "." + ds[3]);
    assert ("." + ds[3])[1..] == "";
    NoIntInNothing();
  }

  lemma NoIntInNothing()
    ensures ScanInt("") == None
  {
  }

  lemma CutV4(f: Form, addr: seq<nat>)
    requires IsAddress(addr) && Canonical(f, addr) && IsV4(WordsOf(addr)) && f.Valid()
    ensures Parse(Cut(f.Text())) != Some(WordsOf(addr))
  {
    var ds, b := f.quad, addr[15];
    var q, cut := QuadText(ds), ds[3 := Cut(ds[3])];
    CutQuad(ds);
    CutEach(f.right, q);
    CutLead([], EachThen(f.right, q));
    CutDec(b);
    if b >= 10 {
      QuadDiffers(f, cut, addr);
      ParseGappedQuad([], f.right, cut);
    } else {
      var r := EachThen(f.right, "");
      assert "" + QuadText(cut) == QuadText(cut);
      EachSplit(f.right, "", QuadText(cut));
      LeadSplit([], r, QuadText(cut));
      NoDots(f.right, "");
      NoDots([], r);
      LeadEnds([], f.right);
      ParseOpenQuad(Lead([], r), cut);
    }
  }

  lemma QuadDiffers(f: Form, cut: seq<string>, addr: seq<nat>)
    requires IsAddress(addr) && Canonical(f, addr) && IsV4(WordsOf(addr)) && f.Valid()
    requires addr[15] >= 10 && cut == f.quad[3 := DecText(addr[15] / 10)]
    ensures IsQuad(cut)
    ensures [] + Zeros(6 - |f.right|) + Values(f.right) + QuadWords(cut) != WordsOf(addr)
  {
    hide IsQuad, QuadWords, PlainQuad, DecText;
    var ws := WordsOf(addr);
    assert ws[7] == addr[14] * 256 + addr[15];
    DecQuad(cut, addr[12], addr[13], addr[14], addr[15] / 10);
    assert ([] + Zeros(6 - |f.right|) + Values(f.right) + QuadWords(cut))[7] == QuadWords(cut)[1];
  }

  /** A text that lost its last character does not stand for the address any more. */
  lemma CutLost(f: Form, addr: seq<nat>)
    requires IsAddress(addr) && Canonical(f, addr) && f.Valid()
    ensures AddressOf(Cut(f.Text())) != Some(addr)
  {
    var ws := WordsOf(addr);
    assert Parse(Cut(f.Text())) != Some(ws) by {
      if IsV4(ws) {
        CutV4(f, addr);
      } else if f.Full? {
        CutFull(ws);
      } else {
        CutGapped(ws, |f.left|, 8 - |f.left| - |f.right|);
      }
    }
    if Parse(Cut(f.Text())).Some? {
      ParseGives(Cut(f.Text()));
      BytesBack(addr, Parse(Cut(f.Text())).value);
    }
  }

  /** What the caller of the printer finds in a buffer of `len` characters. */
  function Stored(f: Form, len: nat): Option<string>
    requires f.Valid()
  {
    if |f.Text()| > len then None
    else if |f.Text()| == len then Some(Cut(f.Text()))
    else Some(f.Text())
  }

  /**
    The stored text reads back as the address exactly when the buffer has room for the text and its
    terminator. One character less, and the printer still reports success.
  */
  lemma RereadIff(f: Form, addr: seq<nat>, len: nat)
    requires IsAddress(addr) && Canonical(f, addr) && f.Valid()
    ensures (Stored(f, len).Some? && AddressOf(Stored(f, len).value) == Some(addr)) <==> |f.Text()| < len
  {
    if |f.Text()| == len {
      CutLost(f, addr);
    } else {
      RoundTrip(f, addr);
    }
  }

  /** Gives up only when the text is longer than the buffer. */
  method Ntop(addr: seq<nat>, len: nat) returns (dst: Option<string>, ghost f: Form)
    requires IsAddress(addr)
    ensures Canonical(f, addr) && f.Valid() && dst == Stored(f, len)
  {
    var buf, form := Print(addr);
    f := form;
    TextFits(f, addr);
    if |buf| > len {
      return None, f;
    }
    dst := Some(if |buf| < len then buf else buf[..len - 1]);
  }

  /** The loopback address in a buffer of three characters comes out as the unspecified address. */
  lemma LoopbackLost(addr: seq<nat>)
    requires IsAddress(addr) && addr[..15] == Zeros(15) && addr[15] == 1
    ensures var f := Gapped([], ["1"]);
      Canonical(f, addr) && Stored(f, 3) == Some("::") && AddressOf("::") == Some(Zeros(16))
  {
    var ws, f := WordsOf(addr), Gapped([], ["1"]);
    LoopbackWords(addr);
    ParseUnspecified();
    hide Scan, Parse, Expand, WordsOf;
    OneGroup();
    assert ws[7..] == [1] && ws[..0] == [];
    assert !IsV4(ws);
    assert LongestRun(ws, 0, 7);
  }

  lemma LoopbackWords(addr: seq<nat>)
    requires IsAddress(addr) && addr[..15] == Zeros(15) && addr[15] == 1
    ensures forall i :: 0 <= i < 7 ==> WordsOf(addr)[i] == 0
    ensures WordsOf(addr)[7] == 1
  {
    assert forall i :: 0 <= i < 15 ==> addr[i] == addr[..15][i] == 0;
    assert forall i :: 0 <= i < 7 ==> WordsOf(addr)[i] == addr[2 * i] * 256 + addr[2 * i + 1] == 0;
  }

  lemma OneGroup()
    ensures HexTexts([]) == [] && HexTexts([1]) == ["1"]
    ensures Gapped([], ["1"]).Valid() && Gapped([], ["1"]).Text() == "::1" && Cut("::1") == "::"
  {
    assert HexText(1) == "1";
  }

  lemma ParseUnspecified()
    ensures AddressOf("::") == Some(Zeros(16))
  {
    hide Parse, Scan, Lead, Join, Values, BytesOf;
    ParseGapped([], []);
    LeadEmpty();
    NoMore(Zeros(8));
    ZeroBytes();
  }

  lemma LeadEmpty()
    ensures Lead([], Join([])) == "::" && Values([]) == []
  {
  }

  lemma ZeroBytes()
    ensures BytesOf(Zeros(8)) == Zeros(16)
  {
  }
}

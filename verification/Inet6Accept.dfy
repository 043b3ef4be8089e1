/**
  Which texts the parser of addresses takes: those of a form, where it is not strict about words and
  numbers, perhaps with a colon at the end. From that follows which of them are well-formed.
*/
module Inet6Accept {
  import opened Common
  import opened Inet6Text

  /** A colon after the last word is passed over. */
  predicate TakesColon(f: Form) {
    f.Full? || (f.Gapped? && f.right != [])
  }

  /** `s` is the text of the form, or that and a colon. */
  predicate Written(f: Form, colon: bool, s: string) {
    f.Loose() && (colon ==> TakesColon(f)) && s == f.Text() + if colon then ":" else ""
  }

  // ---- Such a text is taken -------------------------------------------------------------------

  lemma {:induction false} JoinColon(gs: seq<string>)
    requires gs != []
    ensures Join(gs) + ":" == EachThen(gs, "")
    decreases |gs|
  {
    if |gs| == 1 {
      assert EachThen(gs[1..], "") == "";
    } else {
      JoinColon(gs[1..]);
    }
  }

  lemma ParseFullColon(all: seq<string>)
    requires AllWords(all) && |all| == 8
    ensures Parse(EachThen(all, "")) == Some(Values(all))
  {
    hide Scan, Parse, Values, Onto, AllWords, EachThen;
    NoDots(all, "");
    ParseNoDot(EachThen(all, ""));
    ScanEach(all, "", 0, START);
    OntoStart(all);
    ScanDone("", Scanned(Values(all), -1));
    FullExpands(Values(all), []);
    NoMore(Values(all));
  }

  lemma WrittenMeans(f: Form, colon: bool, s: string)
    requires Written(f, colon, s)
    ensures Parse(s) == Some(f.Words())
  {
    hide Parse, Values, Zeros, AllWords, Lead, Join, EachThen;
    NoMore(f.Text());
    if !colon {
      ParseMeans(f);
    } else if f.Full? {
      JoinColon(f.all);
      ParseFullColon(f.all);
    } else {
      JoinColon(f.right);
      LeadSplit(f.left, Join(f.right), ":");
      ParseLeadEach(f.left, f.right);
    }
  }

  // ---- Reading back what was scanned ----------------------------------------------------------

  /** Either nothing comes after `e`, or the digits and the dot of a quad. */
  predicate QuadBehind(s: string, e: nat) {
    e == |s| || (e < |s| && var n := HexRun(s[e..]); n > 0 && e + n < |s| && s[e + n] == '.')
  }

  lemma BehindStays(s: string, e: nat, n: nat)
    requires n <= e <= |s| && QuadBehind(s, e)
    ensures QuadBehind(s[n..], e - n)
  {
    assert s[n..][e - n..] == s[e..];
  }

  lemma {:induction false} RunThrough(s: string, e: nat)
    requires e <= HexRun(s)
    ensures HexRun(s) == e + HexRun(s[e..])
  {
    if e == 0 {
      assert s[0..] == s;
    } else {
      RunThrough(s[1..], e - 1);
      assert s[1..][e - 1..] == s[e..];
    }
  }

  /** What strtol has read. */
  lemma WordRead(s: string)
    requires s != "" && IsHex(s[0]) && StrtolLen(s) <= 4
    ensures var n := StrtolLen(s);
            IsWord(s[..n]) && WordValue(s[..n]) == StrtolValue(s) && (n < |s| ==> !IsHex(s[n]))
  {
    var n := StrtolLen(s);
    if PrefixLen(s) == 0 {
      assert s[0..] == s;
    } else {
      assert s[..n][2..] == s[2..][..n - 2];
      assert !IsHex(s[..n][1]);
      assert s[2..][0] == s[2];
    }
  }

  /** Where the scanner accepts a word, the word is inside the part to be read. */
  lemma WordInside(s: string, e: nat)
    requires 0 < e <= |s| && IsHex(s[0]) && StrtolLen(s) <= 4 && QuadBehind(s, e)
    requires var n := StrtolLen(s); n == e || (n < |s| && s[n] == ':')
    ensures var n := StrtolLen(s); 0 < n <= e && (n == e ==> e == |s|) && (n < e ==> s[n] == ':')
  {
    WordRead(s);
    if e < |s| {
      assert IsHex(s[e..][0]);
      if StrtolLen(s) > e {
        PassesDigits(s, e);
      }
    }
  }

  /** A word that reaches into the digits of the quad ends at the dot behind them. */
  lemma PassesDigits(s: string, e: nat)
    requires 0 < e < |s| && QuadBehind(s, e) && e < StrtolLen(s)
    ensures StrtolLen(s) < |s| && s[StrtolLen(s)] == '.'
  {
    assert IsHex(s[e..][0]);
    if PrefixLen(s) == 0 {
      assert s[0..] == s;
      RunThrough(s, e);
    } else {
      RunThrough(s[2..], e - 2);
      assert s[2..][e - 2..] == s[e..];
    }
  }

  function Tail(ws: seq<string>, colon: bool): string {
    if colon then EachThen(ws, "") else Join(ws)
  }

  lemma TailCons(w: string, rest: string, ws: seq<string>, colon: bool) returns (ws': seq<string>, colon': bool)
    requires IsWord(w) && AllWords(ws) && rest == Tail(ws, colon)
    ensures AllWords(ws') && ws' == [w] + ws && (colon ==> colon') && Then(w, rest) == Tail(ws', colon')
    ensures Values(ws') == [WordValue(w)] + Values(ws)
  {
    hide WordValue, IsWord;
    ws', colon' := [w] + ws, colon || ws == [];
    assert ws'[1..] == ws;
    assert EachThen(ws', "") == Then(w, EachThen(ws, ""));
    assert ws != [] ==> Join(ws') == Then(w, Join(ws));
    assert ws == [] ==> EachThen(ws, "") == Join(ws) == "";
  }

  lemma SplitWord(s: string, e: nat, n: nat)
    requires n < e <= |s| && s[n] == ':'
    ensures s[..e] == Then(s[..n], s[n + 1..][..e - n - 1])
  {
  }

  /** What was read after the "::". */
  lemma {:induction false} AfterGap(s: string, e: nat, at: Scanned) returns (ws: seq<string>, colon: bool)
    requires e <= |s| && QuadBehind(s, e) && at.gap != -1 && Scan(s, e, at).Some?
    ensures AllWords(ws) && s[..e] == Tail(ws, colon) && (e < |s| ==> colon)
    ensures Scan(s, e, at) == Some(at.(words := at.words + Values(ws)))
    decreases |s|
  {
    hide StrtolLen, StrtolValue, WordValue, IsWord, HexRun, Values, QuadBehind, Then, Join, EachThen;
    if e == 0 {
      ws, colon := [], true;
      NothingRead(s, at);
    } else {
      ScanWord(s, e, at);
      var n := StrtolLen(s);
      WordRead(s);
      WordInside(s, e);
      var w, next := s[..n], at.(words := at.words + [StrtolValue(s)]);
      if n == e {
        ws, colon := [w], false;
        OneRead(w, at);
      } else {
        BehindStays(s, e, n + 1);
        var more, last := AfterGap(s[n + 1..], e - n - 1, next);
        SplitWord(s, e, n);
        ws, colon := TailCons(w, s[n + 1..][..e - n - 1], more, last);
        Assoc(at.words, [WordValue(w)], Values(more));
      }
    }
  }

  lemma NothingRead(s: string, at: Scanned)
    ensures s[..0] == Tail([], true) == Tail([], false) == "" && Values([]) == [] && at.words + [] == at.words
  {
  }

  lemma OneRead(w: string, at: Scanned)
    requires IsWord(w)
    ensures AllWords([w]) && Tail([w], false) == w && Values([w]) == [WordValue(w)]
  {
    hide WordValue, IsWord;
    assert [w][1..] == [];
    assert Values([]) == [];
  }

  /** What was read in all: words, and perhaps a "::" and words after it. */
  datatype Reading = Reading(left: seq<string>, gap: bool, right: seq<string>, colon: bool)

  predicate Sound(r: Reading) {
    AllWords(r.left) && AllWords(r.right) && (!r.gap ==> r.right == [])
  }

  /** The text that was read, when `first` says that it is the beginning. */
  function ReadText(r: Reading, first: bool): string {
    if !r.gap then Tail(r.left, r.colon)
    else if first then Lead(r.left, Tail(r.right, r.colon))
    else EachThen(r.left, ":" + Tail(r.right, r.colon))
  }

  /** What it adds to the words that were read before. */
  function ReadOnto(at: Scanned, r: Reading): Scanned
    requires Sound(r)
  {
    if !r.gap then at.(words := at.words + Values(r.left))
    else Scanned(at.words + Values(r.left) + Values(r.right), |at.words| + |r.left|)
  }

  lemma {:induction false} FromStart(s: string, e: nat, at: Scanned) returns (r: Reading)
    requires e <= |s| && QuadBehind(s, e) && at.gap == -1 && Scan(s, e, at).Some?
    ensures Sound(r) && s[..e] == ReadText(r, at.words == []) && (e < |s| ==> r.colon)
    ensures Scan(s, e, at) == Some(ReadOnto(at, r))
    decreases |s|
  {
    hide StrtolLen, StrtolValue, WordValue, IsWord, HexRun, Values, QuadBehind, Then, Join, EachThen, Lead, ReadText;
    if e == 0 {
      r := Reading([], false, [], true);
      NothingRead(s, at);
      PlainText(r);
    } else if IsHex(s[0]) {
      ScanWord(s, e, at);
      var n := StrtolLen(s);
      WordRead(s);
      WordInside(s, e);
      var w, next := s[..n], at.(words := at.words + [StrtolValue(s)]);
      if n == e {
        r := Reading([w], false, [], false);
        OneRead(w, at);
        PlainText(r);
      } else {
        BehindStays(s, e, n + 1);
        var more := FromStart(s[n + 1..], e - n - 1, next);
        SplitWord(s, e, n);
        r := WordBefore(w, s[n + 1..][..e - n - 1], more, at);
      }
    } else {
      r := GapRead(s, e, at);
    }
  }

  lemma PlainText(r: Reading)
    requires !r.gap
    ensures ReadText(r, true) == ReadText(r, false) == Tail(r.left, r.colon)
  {
  }

  /** A word and a colon before what was read. */
  lemma WordBefore(w: string, rest: string, more: Reading, at: Scanned) returns (r: Reading)
    requires IsWord(w) && Sound(more) && rest == ReadText(more, false)
    ensures Sound(r) && Then(w, rest) == ReadText(r, true) == ReadText(r, false) && (more.colon ==> r.colon)
    ensures ReadOnto(at.(words := at.words + [WordValue(w)]), more) == ReadOnto(at, r)
  {
    hide WordValue, IsWord, Then, EachThen, Join, Tail;
    if more.gap {
      r := more.(left := [w] + more.left);
      WordsBefore(w, more.left, ":" + Tail(more.right, more.colon));
      LeadWords(r.left, Tail(r.right, r.colon));
    } else {
      var ws, colon := TailCons(w, rest, more.left, more.colon);
      r := Reading(ws, false, [], colon);
    }
    WordsBefore(w, more.left, "");
    Assoc(at.words, [WordValue(w)], Values(more.left));
  }

  lemma WordsBefore(w: string, ws: seq<string>, t: string)
    requires IsWord(w) && AllWords(ws)
    ensures AllWords([w] + ws) && EachThen([w] + ws, t) == Then(w, EachThen(ws, t))
    ensures Values([w] + ws) == [WordValue(w)] + Values(ws)
  {
    hide WordValue, IsWord;
    assert ([w] + ws)[1..] == ws;
  }

  lemma LeadWords(left: seq<string>, t: string)
    ensures left != [] ==> Lead(left, t) == EachThen(left, ":" + t)
    ensures left == [] ==> Lead(left, t) == "::" + t && EachThen(left, ":" + t) == ":" + t
  {
  }

  /** What starts with the "::", or with its second colon. */
  lemma GapRead(s: string, e: nat, at: Scanned) returns (r: Reading)
    requires 0 < e <= |s| && QuadBehind(s, e) && at.gap == -1 && !IsHex(s[0]) && Scan(s, e, at).Some?
    ensures Sound(r) && s[..e] == ReadText(r, at.words == []) && (e < |s| ==> r.colon)
    ensures Scan(s, e, at) == Some(ReadOnto(at, r))
  {
    hide Scan, ReadText, ReadOnto, QuadBehind, WordValue, IsWord, Join, EachThen, Lead, Tail;
    var first := at.words == [];
    var n := if first then 2 else 1;
    ColonsAhead(s, e, at);
    BehindStays(s, e, n);
    var ws, colon := AfterGap(s[n..], e - n, at.(gap := |at.words|));
    r := Reading([], true, ws, colon);
    GapIs(r, at);
    assert s[..e] == s[..n] + s[n..][..e - n];
  }

  lemma GapIs(r: Reading, at: Scanned)
    requires r.gap && r.left == [] && AllWords(r.right)
    ensures ReadText(r, true) == "::" + Tail(r.right, r.colon) && ReadText(r, false) == ":" + Tail(r.right, r.colon)
    ensures Sound(r) && ReadOnto(at, r) == Scanned(at.words + Values(r.right), |at.words|)
  {
    hide Tail, WordValue, IsWord;
    LeadWords([], Tail(r.right, r.colon));
    assert Values([]) == [] && at.words + [] == at.words;
  }

  lemma ColonsAhead(s: string, e: nat, at: Scanned)
    requires 0 < e <= |s| && QuadBehind(s, e) && at.gap == -1 && !IsHex(s[0]) && Scan(s, e, at).Some?
    ensures var n := if at.words == [] then 2 else 1;
            n <= e && s[..n] == (if at.words == [] then "::" else ":")
            && Scan(s, e, at) == Scan(s[n..], e - n, at.(gap := |at.words|))
  {
    if e < |s| {
      HexBehind(s, e);
    }
  }

  lemma HexBehind(s: string, e: nat)
    requires e < |s| && QuadBehind(s, e)
    ensures IsHex(s[e])
  {
    assert s[e..][0] == s[e];
  }

  // ---- Reading back a dotted quad -------------------------------------------------------------

  lemma {:induction false} SpacesAre(s: string)
    ensures forall i :: 0 <= i < Spaces(s) ==> IsSpace(s[i])
  {
    if s != "" && IsSpace(s[0]) {
      SpacesAre(s[1..]);
      forall i | 0 <= i < Spaces(s) ensures IsSpace(s[i]) {
        assert i > 0 ==> s[i] == s[1..][i - 1];
      }
    }
  }

  lemma IntBack(s: string) returns (d: string)
    requires ScanInt(s).Some?
    ensures var (v, t) := ScanInt(s).value;
            s == d + t && d != "" && IsNumber(d) && NumberValue(d) == v && (t != "" ==> !IsDigit(t[0]))
  {
    var t := ScanInt(s).value.1;
    var k, n := Spaces(s), DigitRun(AfterSign(s[Spaces(s)..]));
    d := s[..|s| - |t|];
    IntEnds(s, t, k, n);
    hide ScanInt;
    SpacesAre(d);
    SpacesOf(d, t);
    assert s[k..] == d[k..] + t;
    hide Spaces, DecValue, DigitRun;
    DigitsOf(d[k..], t, n);
  }

  lemma IntEnds(s: string, t: string, k: nat, n: nat)
    requires ScanInt(s).Some? && t == ScanInt(s).value.1 && k == Spaces(s) && n == DigitRun(AfterSign(s[k..]))
    ensures var m := |s| - |t|;
            0 < n <= m - k && s == s[..m] + t && IsDigit(s[m - 1])
            && |AfterSign(s[k..])| == n + |t| && AllDigits(AfterSign(s[k..])[..n]) && (t != "" ==> !IsDigit(t[0]))
  {
    var u := AfterSign(s[k..]);
    RestAfter(s, k, t, n);
    SignCut(s[k..]);
    hide DecValue, DigitRun, Spaces, AfterSign, ScanInt, IsDigit, AllDigits;
    EndOf(s, k, u);
    EndOf(s, |s| - |u|, t);
    assert |t| == |u| - n;
    LastDigit(s, u, n, |s| - |t|);
  }

  lemma LastDigit(s: string, u: string, n: nat, m: nat)
    requires |u| <= |s| && u == s[|s| - |u|..] && 0 < n <= |u| && AllDigits(u[..n]) && m == |s| - |u| + n
    ensures IsDigit(s[m - 1])
  {
    assert u[..n][n - 1] == s[|s| - |u| + n - 1];
  }

  lemma EndOf(s: string, k: nat, u: string)
    requires k <= |s| && |u| <= |s| - k && u == s[k..][|s| - k - |u|..]
    ensures u == s[|s| - |u|..] && s == s[..|s| - |u|] + u
  {
  }

  lemma RestAfter(s: string, k: nat, t: string, n: nat)
    requires ScanInt(s).Some? && t == ScanInt(s).value.1 && k == Spaces(s) && n == DigitRun(AfterSign(s[k..]))
    ensures 0 < n <= |AfterSign(s[k..])| && AfterSign(s[k..])[n..] == t && AllDigits(AfterSign(s[k..])[..n])
    ensures t != "" ==> !IsDigit(t[0])
  {
  }

  lemma SignCut(d: string)
    ensures |AfterSign(d)| <= |d| && AfterSign(d) == d[|d| - |AfterSign(d)|..]
  {
  }

  lemma DigitsOf(d: string, t: string, n: nat)
    requires d != "" && IsDigit(d[|d| - 1]) && n <= |AfterSign(d + t)| == n + |t|
    ensures AfterSign(d + t)[..n] == AfterSign(d) && AfterSign(d) != ""
  {
    SignOf(d, t);
  }

  lemma QuadBack(q: string) returns (ds: seq<string>)
    requires ScanQuad(q).Some?
    ensures |ds| == 4 && q == QuadText(ds) && forall i :: 0 <= i < 4 ==> ds[i] != "" && IsOctet(ds[i])
  {
    hide ScanInt, NumberValue, IsNumber, IsDigit;
    var a := ScanInt(q).value.1;
    var d0 := IntBack(q);
    var d1 := IntBack(a[1..]);
    var b := ScanInt(a[1..]).value.1;
    var d2 := IntBack(b[1..]);
    var c := ScanInt(b[1..]).value.1;
    var d3 := IntBack(c[1..]);
    ds := [d0, d1, d2, d3];
    NoMore(d3);
    assert a == "." + a[1..] && b == "." + b[1..] && c == "." + c[1..];
  }

  /** The digits before the first dot are where the quad starts. */
  lemma QuadFront(s: string, eow: nat) returns (ds: seq<string>)
    requires var dot := FirstDot(s); dot < |s| && eow == DigitsBack(s, dot) && ScanQuad(s[eow..]).Some?
    ensures |ds| == 4 && IsQuad(ds) && s[eow..] == QuadText(ds) && eow < FirstDot(s) && QuadBehind(s, eow) && eow < |s|
    ensures QuadWordsIs(ds, ScanQuad(s[eow..]).value)
  {
    hide FirstDot, DigitsBack, ScanQuad, ScanInt, IsNumber, NumberValue, AllDigits, QuadBehind, QuadText;
    var dot := FirstDot(s);
    var q := s[eow..];
    ds := QuadBack(q);
    CutAt(s, eow, dot);
    IntThere(q);
    StartsWithDigit(q, dot - eow);
    FirstOf(ds);
    DigitsFirst(ds[0], q);
    DotBehind(s, eow, dot);
    ScanQuadText(ds);
  }

  predicate QuadWordsIs(ds: seq<string>, words: seq<nat>) {
    IsQuad(ds) && QuadWords(ds) == words
  }

  lemma CutAt(s: string, a: nat, b: nat)
    requires a <= b < |s|
    ensures s[a..][..b - a] == s[a..b] && s[a..][b - a] == s[b]
  {
  }

  lemma IntThere(q: string)
    requires ScanQuad(q).Some?
    ensures ScanInt(q).Some?
  {
  }

  lemma FirstOf(ds: seq<string>)
    requires |ds| == 4
    ensures ds[0] <= QuadText(ds)
  {
  }

  lemma DotBehind(s: string, eow: nat, dot: nat)
    requires eow < dot < |s| && AllDigits(s[eow..dot]) && s[dot] == '.'
    ensures QuadBehind(s, eow)
  {
    assert s[eow..] == s[eow..dot] + s[dot..];
    DigitsAreHex(s[eow..dot]);
    HexRunOf(s[eow..dot], s[dot..]);
  }

  lemma DigitsAreHex(d: string)
    requires AllDigits(d)
    ensures AllHex(d)
  {
  }

  lemma StartsWithDigit(q: string, n: nat)
    requires n < |q| && q[n] == '.' && AllDigits(q[..n]) && ScanInt(q).Some?
    ensures n > 0 && IsDigit(q[0])
  {
    if n > 0 {
      assert q[..n][0] == q[0];
    } else {
      NoIntAtDot(q);
    }
  }

  lemma NoIntAtDot(q: string)
    requires q != "" && q[0] == '.'
    ensures ScanInt(q).None?
  {
    assert Spaces(q) == 0 && q[0..] == q && AfterSign(q) == q && DigitRun(q) == 0;
  }

  lemma DigitsFirst(d: string, q: string)
    requires d != "" && d <= q && IsDigit(q[0]) && IsNumber(d)
    ensures AllDigits(d)
  {
    assert d[0] == q[0];
    assert d[0..] == d;
  }

  // ---- The texts that are taken ---------------------------------------------------------------

  /** The form of what was read, with the numbers of the quad behind it. */
  function FormOf(r: Reading, quad: seq<string>): Form {
    if quad == [] then if r.gap then Gapped(r.left, r.right) else Full(r.left)
    else if r.gap then GappedQuad(r.left, r.right, quad) else FullQuad(r.left, quad)
  }

  /** The counts are right when the words can be spread over eight. */
  lemma CountsFit(r: Reading, quad: seq<nat>)
    requires Sound(r) && Expand(ReadOnto(START, r), quad).Some?
    ensures if r.gap then |r.left| + |r.right| + |quad| <= 7 else |r.left| + |quad| == 8
  {
    hide WordValue, IsWord;
  }

  lemma FromWords(s: string) returns (f: Form, colon: bool)
    requires Parse(s).Some? && FirstDot(s) == |s|
    ensures Written(f, colon, s)
  {
    hide Scan, Expand, QuadBehind, ReadOnto;
    assert s[..|s|] == s;
    assert QuadBehind(s, |s|) by { NothingBehind(s); }
    var r := FromStart(s, |s|, START);
    CountsFit(r, []);
    f, colon := FormOf(r, []), r.colon && (r.gap ==> r.right != []);
    TextIs(r, f, colon);
  }

  lemma NothingBehind(s: string)
    ensures QuadBehind(s, |s|)
  {
  }

  /** Without a quad, a colon at the end stands behind the text of the form. */
  lemma TextIs(r: Reading, f: Form, colon: bool)
    requires Sound(r) && f == FormOf(r, []) && f.Loose() && colon == (r.colon && (r.gap ==> r.right != []))
    ensures Written(f, colon, ReadText(r, true))
  {
    hide AllWords, Join, EachThen, Lead;
    if r.gap {
      NoWordsText();
      NoMore(Lead(r.left, Join(r.right)));
      if colon {
        JoinColon(r.right);
        LeadSplit(r.left, Join(r.right), ":");
      }
    } else {
      NoMore(Join(r.left));
      if colon {
        JoinColon(r.left);
      }
    }
  }

  lemma NoWordsText()
    ensures EachThen([], "") == Join([]) == ""
  {
  }

  lemma FromQuad(s: string) returns (f: Form)
    requires Parse(s).Some? && FirstDot(s) < |s|
    ensures Written(f, false, s)
  {
    hide Scan, Expand, QuadBehind, ReadOnto, FirstDot, DigitsBack, ScanQuad, IsQuad, QuadText, QuadWords;
    var eow := DigitsBack(s, FirstDot(s));
    QuadThere(s, eow);
    var ds := QuadFront(s, eow);
    var r := FromStart(s, eow, START);
    CountsFit(r, ScanQuad(s[eow..]).value);
    f := FormOf(r, ds);
    assert s == s[..eow] + s[eow..];
    QuadTextIs(r, ds);
    NoMore(s);
  }

  lemma QuadThere(s: string, eow: nat)
    requires Parse(s).Some? && FirstDot(s) < |s| && eow == DigitsBack(s, FirstDot(s))
    ensures var quad := ScanQuad(s[eow..]); var at := Scan(s, eow, START);
            quad.Some? && |quad.value| == 2 && at.Some? && Expand(at.value, quad.value).Some?
  {
    hide Scan, Expand, ScanInt, FirstDot, DigitsBack;
  }

  lemma QuadTextIs(r: Reading, ds: seq<string>)
    requires Sound(r) && |ds| == 4 && r.colon && FormOf(r, ds).Loose()
    ensures FormOf(r, ds).Text() == ReadText(r, true) + QuadText(ds)
  {
    hide AllWords, EachThen, Lead, IsQuad;
    var q := QuadText(ds);
    assert "" + q == q;
    EachSplit(r.left, "", q);
    EachSplit(r.right, "", q);
    LeadSplit(r.left, EachThen(r.right, ""), q);
  }

  /** Just the texts of loose forms, perhaps with a colon at the end, are taken. */
  lemma TakenIff(s: string)
    ensures Parse(s).Some? <==> exists f: Form, colon: bool :: Written(f, colon, s)
  {
    hide Parse, Written, FirstDot;
    if Parse(s).Some? {
      if FirstDot(s) == |s| {
        var f, colon := FromWords(s);
        assert Written(f, colon, s);
      } else {
        var f := FromQuad(s);
        assert Written(f, false, s);
      }
    }
    if f: Form, colon: bool :| Written(f, colon, s) {
      WrittenMeans(f, colon, s);
    }
  }

  // ---- Which of them are well-formed ----------------------------------------------------------

  predicate Chars(s: string) {
    forall i :: 0 <= i < |s| ==> IsHex(s[i]) || s[i] == ':' || s[i] == '.'
  }

  /** One colon is at the end, not two. */
  predicate EndsInColon(s: string) {
    |s| >= 2 && s[|s| - 1] == ':' && s[|s| - 2] != ':'
  }

  lemma CharsJoin(a: string, b: string)
    ensures Chars(a + b) <==> Chars(a) && Chars(b)
  {
    if Chars(a + b) {
      assert forall i :: 0 <= i < |a| ==> a[i] == (a + b)[i];
      assert forall i :: 0 <= i < |b| ==> b[i] == (a + b)[|a| + i];
    }
  }

  lemma CharsThen(g: string, rest: string)
    ensures Chars(Then(g, rest)) <==> Chars(g) && Chars(rest)
  {
    hide Chars;
    CharsJoin(g, ":");
    CharsJoin(g + ":", rest);
    ColonChar();
  }

  lemma ColonChar()
    ensures Chars(":") && Chars("::") && Chars(".") && Chars("")
  {
  }

  predicate AllChars(gs: seq<string>) {
    forall i :: 0 <= i < |gs| ==> Chars(gs[i])
  }

  lemma {:induction false} CharsEach(gs: seq<string>, t: string)
    ensures Chars(EachThen(gs, t)) <==> AllChars(gs) && Chars(t)
    decreases |gs|
  {
    hide Chars, Then;
    if gs != [] {
      CharsThen(gs[0], EachThen(gs[1..], t));
      CharsEach(gs[1..], t);
      AllCharsParts(gs);
    }
  }

  lemma AllCharsParts(gs: seq<string>)
    requires gs != []
    ensures AllChars(gs) <==> Chars(gs[0]) && AllChars(gs[1..])
  {
    hide Chars;
    if Chars(gs[0]) && AllChars(gs[1..]) {
      forall i | 0 <= i < |gs| ensures Chars(gs[i]) {
        assert i > 0 ==> gs[i] == gs[1..][i - 1];
      }
    }
  }

  lemma {:induction false} CharsOfJoin(gs: seq<string>)
    ensures Chars(Join(gs)) <==> AllChars(gs)
    decreases |gs|
  {
    hide Chars, Then;
    ColonChar();
    if |gs| > 1 {
      CharsThen(gs[0], Join(gs[1..]));
      CharsOfJoin(gs[1..]);
      AllCharsParts(gs);
    }
  }

  lemma CharsLead(left: seq<string>, t: string)
    ensures Chars(Lead(left, t)) <==> AllChars(left) && Chars(t)
  {
    hide Chars;
    ColonChar();
    CharsJoin("::", t);
    CharsJoin(":", t);
    CharsEach(left, ":" + t);
  }

  lemma CharsQuad(ds: seq<string>)
    requires |ds| == 4
    ensures Chars(QuadText(ds)) <==> AllChars(ds)
  {
    hide Chars;
    ColonChar();
    CharsJoin(".", ds[3]);
    CharsJoin(ds[2], "." + ds[3]);
    CharsJoin(".", ds[2] + ("." + ds[3]));
    CharsJoin(ds[1], "." + (ds[2] + ("." + ds[3])));
    CharsJoin(".", ds[1] + ("." + (ds[2] + ("." + ds[3]))));
    CharsJoin(ds[0], "." + (ds[1] + ("." + (ds[2] + ("." + ds[3])))));
  }

  /** A word has no other characters just when it is a group of digits. */
  lemma WordChars(gs: seq<string>)
    requires AllWords(gs)
    ensures AllChars(gs) <==> Groups(gs)
  {
    forall i | 0 <= i < |gs| ensures Chars(gs[i]) <==> IsGroup(gs[i]) {
      assert IsWord(gs[i]);
    }
  }

  lemma NumberChars(ds: seq<string>)
    requires IsQuad(ds)
    ensures AllChars(ds) <==> PlainQuad(ds)
  {
    forall i | 0 <= i < 4 ensures Chars(ds[i]) <==> AllDigits(ds[i]) {
      assert IsOctet(ds[i]);
      OneNumber(ds[i]);
    }
  }

  lemma OneNumber(d: string)
    requires IsNumber(d)
    ensures Chars(d) <==> AllDigits(d)
  {
    if Chars(d) && d != "" {
      assert Spaces(d) == 0 && d[0..] == d && AfterSign(d) == d;
    }
  }

  /** Of a loose form, its text has only the characters of a well-formed one just when it is one. */
  lemma CharsIff(f: Form)
    requires f.Loose()
    ensures Chars(f.Text()) <==> f.Valid()
  {
    hide Chars, AllChars, IsWord, Groups, IsOctet, AllDigits, Join, EachThen, Lead, QuadText;
    match f {
      case Full(all) => {
        CharsOfJoin(all);
        WordChars(all);
      }
      case Gapped(left, right) => {
        CharsLead(left, Join(right));
        CharsOfJoin(right);
        WordChars(left);
        WordChars(right);
      }
      case FullQuad(six, quad) => {
        CharsEach(six, QuadText(quad));
        CharsQuad(quad);
        WordChars(six);
        NumberChars(quad);
      }
      case GappedQuad(left, right, quad) => {
        CharsLead(left, EachThen(right, QuadText(quad)));
        CharsEach(right, QuadText(quad));
        CharsQuad(quad);
        WordChars(left);
        WordChars(right);
        NumberChars(quad);
      }
    }
  }

  // The end of a text.

  lemma {:induction false} EachEnd(gs: seq<string>, t: string)
    requires t != ""
    ensures var s := EachThen(gs, t); s != "" && s[|s| - 1] == t[|t| - 1]
    ensures var s := EachThen(gs, t); gs != [] && |t| == 1 ==> |s| >= 2 && s[|s| - 2] == ':'
    decreases |gs|
  {
    if gs != [] {
      EachEnd(gs[1..], t);
      if |gs| == 1 {
        assert EachThen(gs[1..], t) == t;
      }
    }
  }

  lemma {:induction false} JoinEnd(gs: seq<string>)
    requires AllWords(gs) && gs != []
    ensures var s := Join(gs); s != "" && IsHex(s[|s| - 1])
    decreases |gs|
  {
    if |gs| == 1 {
      assert IsWord(gs[0]);
      WordEnd(gs[0]);
    } else {
      JoinEnd(gs[1..]);
    }
  }

  lemma WordEnd(g: string)
    requires IsWord(g)
    ensures g != "" && IsHex(g[|g| - 1])
  {
    if !AllHex(g) {
      assert g[|g| - 1] == g[2..][|g| - 3];
    }
  }

  lemma LeadEnd(left: seq<string>, t: string)
    ensures var s := Lead(left, t); t != "" ==> s != "" && s[|s| - 1] == t[|t| - 1]
    ensures var s := Lead(left, t); t == "" ==> |s| >= 2 && s[|s| - 1] == ':' && s[|s| - 2] == ':'
  {
    hide EachThen;
    if left != [] {
      EachEnd(left, ":" + t);
    }
  }

  lemma QuadEnd(ds: seq<string>)
    requires IsQuad(ds)
    ensures var s := QuadText(ds); s != "" && IsDigit(s[|s| - 1])
  {
    hide NumberValue;
    var d, u := ds[3], Digits(ds[3]);
    assert IsOctet(d);
    SignCut(d[Spaces(d)..]);
    assert IsDigit(u[|u| - 1]);
    assert d != "" && d[|d| - 1] == u[|u| - 1];
  }

  /** The text of a form ends in a digit or in two colons. */
  lemma TextEnd(f: Form)
    requires f.Loose()
    ensures var s := f.Text(); s != "" && !EndsInColon(s) && (TakesColon(f) ==> s[|s| - 1] != ':')
  {
    hide AllWords, IsOctet, Join, EachThen, Lead, QuadText, Groups;
    match f {
      case Full(all) => JoinEnd(all);
      case Gapped(left, right) => {
        NoWordsText();
        if right != [] {
          JoinEnd(right);
        }
        LeadEnd(left, Join(right));
      }
      case FullQuad(six, quad) => {
        QuadEnd(quad);
        EachEnd(six, QuadText(quad));
      }
      case GappedQuad(left, right, quad) => {
        QuadEnd(quad);
        EachEnd(right, QuadText(quad));
        LeadEnd(left, EachThen(right, QuadText(quad)));
      }
    }
  }

  /** Of the texts that are taken, those are well-formed that have nothing but digits, colons and dots,
      and do not end in one colon. */
  lemma WellFormedIff(s: string)
    requires Parse(s).Some?
    ensures (exists f: Form :: f.Valid() && f.Text() == s) <==> Chars(s) && !EndsInColon(s)
  {
    hide Parse, Chars, EndsInColon;
    TakenIff(s);
    var f: Form, colon: bool :| Written(f, colon, s);
    NoMore(f.Text());
    CharsIff(f);
    TextEnd(f);
    CharsJoin(f.Text(), ":");
    ColonChar();
    if colon {
      ColonEnds(f.Text());
    }
    if g: Form :| g.Valid() && g.Text() == s {
      CharsIff(g);
      TextEnd(g);
    }
  }

  lemma ColonEnds(t: string)
    requires t != "" && t[|t| - 1] != ':'
    ensures EndsInColon(t + ":")
  {
  }

  // ---- Three of the others --------------------------------------------------------------------

  lemma PrefixTaken()
    ensures Parse("::0x1") == Some([0, 0, 0, 0, 0, 0, 0, 1]) && !Chars("::0x1")
  {
    var f := Gapped([], ["0x1"]);
    assert "0x1"[2..] == "1" && "1"[..0] == "" && HexValue("") == 0;
    assert !IsHex('x') && "::0x1"[3] == 'x' && "0x1"[1] == 'x';
    LoopbackText(f, "0x1", "::0x1");
    WrittenMeans(f, false, "::0x1");
  }

  lemma LoopbackText(f: Form, g: string, s: string)
    requires f == Gapped([], [g]) && IsWord(g) && WordValue(g) == 1 && s == "::" + g
    ensures f.Loose() && f.Text() == s && f.Words() == [0, 0, 0, 0, 0, 0, 0, 1]
  {
    hide WordValue, IsWord;
    OneRead(g, START);
    assert Lead([], Join([g])) == "::" + g;
    assert Values([]) == [];
    assert Zeros(7) == [0, 0, 0, 0, 0, 0, 0];
  }

  lemma ColonTaken()
    ensures Parse("::1:") == Some([0, 0, 0, 0, 0, 0, 0, 1]) && EndsInColon("::1:")
  {
    var f := Gapped([], ["1"]);
    assert "1"[..0] == "" && HexValue("") == 0;
    LoopbackText(f, "1", "::1");
    assert "::1" + ":" == "::1:";
    WrittenMeans(f, true, "::1:");
  }

  lemma SignTaken()
    ensures var s := "::" + "1.+2. 3.4"; Parse(s) == Some([0, 0, 0, 0, 0, 0, 1 * 256 + 2, 3 * 256 + 4]) && !Chars(s)
  {
    hide Parse, Chars;
    QuadTaken(["1", "+2", " 3", "4"], "1.+2. 3.4", 1 * 256 + 2, 3 * 256 + 4);
    PlusIsNone("::" + "1.+2. 3.4");
  }

  lemma QuadTaken(ds: seq<string>, q: string, a: nat, b: nat)
    requires ds == ["1", "+2", " 3", "4"] && q == "1.+2. 3.4" && a == 1 * 256 + 2 && b == 3 * 256 + 4
    ensures Parse("::" + q) == Some([0, 0, 0, 0, 0, 0, a, b])
  {
    hide IsQuad, QuadText, QuadWords, Parse;
    SignQuad(ds);
    var f := GappedQuad([], [], ds);
    SixZeros(f, ds, q);
    NoMore(f.Text());
    WrittenMeans(f, false, "::" + q);
    assert [0, 0, 0, 0, 0, 0] + [a, b] == [0, 0, 0, 0, 0, 0, a, b];
  }

  lemma PlusIsNone(s: string)
    requires |s| > 4 && s[4] == '+'
    ensures !Chars(s)
  {
  }

  lemma SixZeros(f: Form, ds: seq<string>, q: string)
    requires f == GappedQuad([], [], ds) && IsQuad(ds) && QuadText(ds) == q
    ensures f.Loose() && f.Text() == "::" + q && f.Words() == [0, 0, 0, 0, 0, 0] + QuadWords(ds)
  {
    hide IsQuad, QuadText, QuadWords;
    assert EachThen([], q) == q && Lead([], q) == "::" + q;
    assert Values([]) == [] && Zeros(6) == [0, 0, 0, 0, 0, 0];
    NoMore([0, 0, 0, 0, 0, 0]);
  }

  lemma SignQuad(ds: seq<string>)
    requires ds == ["1", "+2", " 3", "4"]
    ensures IsQuad(ds) && QuadText(ds) == "1.+2. 3.4" && QuadWords(ds) == [1 * 256 + 2, 3 * 256 + 4]
  {
    hide IsOctet, NumberValue;
    OneDigit("1", "1", 1);
    OneDigit("+2", "2", 2);
    OneDigit(" 3", "3", 3);
    OneDigit("4", "4", 4);
    assert forall i :: 0 <= i < 4 ==> IsOctet(ds[i]);
  }

  /** One digit, alone or behind a blank or a plus. */
  lemma OneDigit(d: string, u: string, v: nat)
    requires |u| == 1 && IsDigit(u[0]) && v == u[0] as int - '0' as int && (d == u || d == "+" + u || d == " " + u)
    ensures IsOctet(d) && NumberValue(d) == v && (d == u ==> AllDigits(d))
  {
    assert Spaces(u) == 0 && u[0..] == u && AfterSign(u) == u;
    assert (" " + u)[1..] == u && ("+" + u)[1..] == u;
    assert Digits(d) == u by {
      if d == "+" + u {
        assert d[0..] == d;
      } else if d == " " + u {
        assert Spaces(d) == 1;
      }
    }
    assert u[..0] == "" && DecValue("") == 0;
  }
}

/**
  The textual form of 128-bit addresses: what text stands for which eight words.

  The functions here are the meaning of the printer and the parser in `Inet6`; the lemmas say that
  parsing any well-formed text gives the words it shows, and so that the two undo each other.
*/
module Inet6Text {
  import opened Common

  /** The words read so far and the place of the "::", -1 if there was none. */
  datatype Scanned = Scanned(words: seq<nat>, gap: int)

  // ---- Numbers --------------------------------------------------------------------------------

  predicate IsDigit(c: char) {
    '0' <= c <= '9'
  }

  predicate IsHex(c: char) {
    IsDigit(c) || 'a' <= c <= 'f' || 'A' <= c <= 'F'
  }

  predicate IsSpace(c: char) {
    c == ' ' || 9 <= c as int <= 13
  }

  function HexDigit(c: char): (d: nat)
    requires IsHex(c)
    ensures d < 16
  {
    if IsDigit(c) then c as int - '0' as int
    else if c <= 'F' then c as int - 'A' as int + 10
    else c as int - 'a' as int + 10
  }

  function HexChar(d: nat): (c: char)
    requires d < 16
    ensures IsHex(c) && HexDigit(c) == d
  {
    if d < 10 then (d + '0' as int) as char else (d - 10 + 'a' as int) as char
  }

  predicate AllHex(s: string) {
    forall i :: 0 <= i < |s| ==> IsHex(s[i])
  }

  predicate AllDigits(s: string) {
    forall i :: 0 <= i < |s| ==> IsDigit(s[i])
  }

  function HexValue(s: string): nat
    requires AllHex(s)
  {
    if s == "" then 0 else HexValue(s[..|s| - 1]) * 16 + HexDigit(s[|s| - 1])
  }

  function DecValue(s: string): nat
    requires AllDigits(s)
  {
    if s == "" then 0 else DecValue(s[..|s| - 1]) * 10 + (s[|s| - 1] as int - '0' as int)
  }

  /** Lower-case hexadecimal without leading zeros. */
  function HexText(n: nat): (s: string)
    ensures s != "" && AllHex(s) && HexValue(s) == n
    decreases n
  {
    if n < 16 then
      assert HexValue([]) == 0;
      [HexChar(n)]
    else
      HexText(n / 16) + [HexChar(n % 16)]
  }

  function DecText(n: nat): (s: string)
    ensures s != "" && AllDigits(s) && DecValue(s) == n
    decreases n
  {
    if n < 10 then
      assert DecValue([]) == 0;
      [(n + '0' as int) as char]
    else
      DecText(n / 10) + [(n % 10 + '0' as int) as char]
  }

  lemma HexTextShort(n: nat)
    requires n < 0x10000
    ensures |HexText(n)| <= 4
  {
    assert n / 16 < 0x1000 && n / 16 / 16 < 0x100 && n / 16 / 16 / 16 < 16;
    if n >= 16 {
      var a := n / 16;
      assert |HexText(n)| == |HexText(a)| + 1;
      if a >= 16 {
        var b := a / 16;
        assert |HexText(a)| == |HexText(b)| + 1;
        if b >= 16 {
          assert |HexText(b)| == |HexText(b / 16)| + 1;
        }
      }
    }
  }

  // ---- The C library's number scanners --------------------------------------------------------

  /** How many characters of the class come first. */
  function HexRun(s: string): (n: nat)
    ensures n <= |s| && AllHex(s[..n]) && (n < |s| ==> !IsHex(s[n]))
  {
    if s == "" || !IsHex(s[0]) then 0 else
      var n := 1 + HexRun(s[1..]);
      assert s[..n] == [s[0]] + s[1..][..n - 1];
      n
  }

  function DigitRun(s: string): (n: nat)
    ensures n <= |s| && AllDigits(s[..n]) && (n < |s| ==> !IsDigit(s[n]))
  {
    if s == "" || !IsDigit(s[0]) then 0 else
      var n := 1 + DigitRun(s[1..]);
      assert s[..n] == [s[0]] + s[1..][..n - 1];
      n
  }

  function Spaces(s: string): (n: nat)
    ensures n <= |s|
  {
    if s == "" || !IsSpace(s[0]) then 0 else 1 + Spaces(s[1..])
  }

  /** `strtol` in base 16 passes over a prefix "0x" when a digit follows. */
  function PrefixLen(s: string): (n: nat)
    ensures n <= |s|
  {
    if |s| > 2 && s[0] == '0' && (s[1] == 'x' || s[1] == 'X') && IsHex(s[2]) then 2 else 0
  }

  function StrtolLen(s: string): (n: nat)
    ensures n <= |s| && (s != "" && IsHex(s[0]) ==> n > 0)
  {
    PrefixLen(s) + HexRun(s[PrefixLen(s)..])
  }

  function StrtolValue(s: string): nat {
    var digits := s[PrefixLen(s)..];
    HexValue(digits[..HexRun(digits)])
  }

  function AfterSign(s: string): string {
    if s != "" && (s[0] == '-' || s[0] == '+') then s[1..] else s
  }

  /** `%d`: white space, a sign and digits. The value and what follows it. */
  function ScanInt(s: string): Option<(int, string)> {
    var t := s[Spaces(s)..];
    var neg := t != "" && t[0] == '-';
    var u := AfterSign(t);
    var n := DigitRun(u);
    if n == 0 then None else
    var v: int := DecValue(u[..n]);
    Some((if neg then -v else v, u[n..]))
  }

  function ScanDotInt(s: string): Option<(int, string)> {
    if s == "" || s[0] != '.' then None else ScanInt(s[1..])
  }

  function OctetWords(a: int, b: int, c: int, d: int): Option<seq<nat>> {
    if 0 <= a < 256 && 0 <= b < 256 && 0 <= c < 256 && 0 <= d < 256
    then Some([a * 256 + b, c * 256 + d]) else None
  }

  /** A dotted quad that reaches to the end of the text, as two words. */
  function ScanQuad(s: string): Option<seq<nat>> {
    match ScanInt(s)
    case None => None
    case Some(a) =>
      match ScanDotInt(a.1)
      case None => None
      case Some(b) =>
        match ScanDotInt(b.1)
        case None => None
        case Some(c) =>
          match ScanDotInt(c.1)
          case None => None
          case Some(d) => if d.1 != "" then None else OctetWords(a.0, b.0, c.0, d.0)
  }

  // ---- Reading words --------------------------------------------------------------------------

  /**
    Reads words from `s`, of which `e` characters are left before the end of the words; the text
    may go on after that.
  */
  function Scan(s: string, e: int, at: Scanned): Option<Scanned>
    requires e <= |s|
    decreases |s|
  {
    if e <= 0 then Some(at)
    else if |at.words| > 7 then None
    else if IsHex(s[0]) then
      var n := StrtolLen(s);
      if n > 4 || ((n == |s| || s[n] != ':') && n != e) then None
      else
        var next := at.(words := at.words + [StrtolValue(s)]);
        if n == |s| then Some(next) else Scan(s[n + 1..], e - n - 1, next)
    else if s[0] == ':' && at.words != [] && at.gap == -1 then
      Scan(s[1..], e - 1, at.(gap := |at.words|))
    else if s[0] == ':' && at.words == [] && |s| > 1 && s[1] == ':' && at.gap == -1 then
      Scan(s[2..], e - 2, at.(gap := 0))
    else None
  }

  function Zeros(n: nat): (z: seq<nat>)
    ensures |z| == n && forall i :: 0 <= i < n ==> z[i] == 0
  {
    if n == 0 then [] else Zeros(n - 1) + [0]
  }

  /** Puts the zeros in at the gap. */
  function Expand(at: Scanned, quad: seq<nat>): Option<seq<nat>> {
    var n := |at.words| + |quad|;
    if n > 8 || (n == 8 && at.gap != -1) || (n < 8 && at.gap == -1) then None
    else if at.gap < 0 then Some(at.words + quad)
    else if at.gap > |at.words| then None
    else Some(at.words[..at.gap] + Zeros(8 - n) + at.words[at.gap..] + quad)
  }

  /** The place of the first dot, or the end of the text. */
  function FirstDot(s: string): (n: nat)
    ensures n <= |s| && '.' !in s[..n] && (n < |s| ==> s[n] == '.')
  {
    if s == "" || s[0] == '.' then 0 else
      var n := 1 + FirstDot(s[1..]);
      assert s[..n] == [s[0]] + s[1..][..n - 1];
      n
  }

  /** Where the digits that end at `n` begin. */
  function DigitsBack(s: string, n: nat): (m: nat)
    requires n <= |s|
    ensures m <= n && AllDigits(s[m..n]) && (m > 0 ==> !IsDigit(s[m - 1]))
  {
    if n == 0 || !IsDigit(s[n - 1]) then n else
      var m := DigitsBack(s, n - 1);
      assert s[m..n] == s[m..n - 1] + [s[n - 1]];
      m
  }

  const START := Scanned([], -1)

  /** The eight words a text stands for. */
  function Parse(s: string): Option<seq<nat>> {
    var dot := FirstDot(s);
    if dot == |s| then
      var at := Scan(s, |s|, START);
      if at.None? then None else Expand(at.value, [])
    else if dot == 0 then None
    else
      var eow := DigitsBack(s, dot);
      var quad := ScanQuad(s[eow..]);
      if quad.None? then None else
      var at := Scan(s, eow, START);
      if at.None? then None else Expand(at.value, quad.value)
  }

  // ---- Well-formed texts ----------------------------------------------------------------------

  /** One to four hexadecimal digits. */
  predicate IsGroup(g: string) {
    1 <= |g| <= 4 && AllHex(g)
  }

  predicate Groups(gs: seq<string>) {
    forall i :: 0 <= i < |gs| ==> IsGroup(gs[i])
  }

  /** What `strtol` reads as a word of at most four characters: such digits, or fewer behind "0x". */
  predicate IsWord(g: string) {
    IsGroup(g) || (3 <= |g| <= 4 && g[0] == '0' && (g[1] == 'x' || g[1] == 'X') && AllHex(g[2..]))
  }

  predicate AllWords(gs: seq<string>) {
    forall i :: 0 <= i < |gs| ==> IsWord(gs[i])
  }

  function WordValue(g: string): nat
    requires IsWord(g)
  {
    if AllHex(g) then HexValue(g) else HexValue(g[2..])
  }

  function Values(gs: seq<string>): (ws: seq<nat>)
    requires AllWords(gs)
    ensures |ws| == |gs|
  {
    if gs == [] then [] else [WordValue(gs[0])] + Values(gs[1..])
  }

  /** A group, a colon and what comes after. */
  function Then(g: string, rest: string): (s: string)
    ensures |s| == |g| + 1 + |rest|
  {
    g + ":" + rest
  }

  /** Each group with a colon after it, and then `t`. */
  function EachThen(gs: seq<string>, t: string): (s: string)
    ensures |s| >= |t|
  {
    if gs == [] then t else Then(gs[0], EachThen(gs[1..], t))
  }

  /** The groups with colons between them. */
  function Join(gs: seq<string>): string {
    if gs == [] then "" else if |gs| == 1 then gs[0] else Then(gs[0], Join(gs[1..]))
  }

  lemma HexRunOf(g: string, t: string)
    requires AllHex(g) && (t != "" ==> !IsHex(t[0]))
    ensures HexRun(g + t) == |g|
    decreases |g|
  {
    if g == "" {
      assert g + t == t;
    } else {
      assert (g + t)[1..] == g[1..] + t;
      HexRunOf(g[1..], t);
    }
  }

  lemma StrtolWord(g: string, t: string)
    requires IsWord(g) && (t == "" || t[0] == ':')
    ensures StrtolLen(g + t) == |g| && StrtolValue(g + t) == WordValue(g) && 1 <= |g| <= 4 && IsHex(g[0])
  {
    var s := g + t;
    if AllHex(g) {
      assert PrefixLen(s) == 0;
      assert s[0..] == s && s[..|g|] == g;
      HexRunOf(g, t);
    } else {
      assert IsHex(g[2..][0]);
      assert s[2..] == g[2..] + t && s[2..][..|g| - 2] == g[2..];
      HexRunOf(g[2..], t);
    }
  }

  lemma ThenParts(g: string, rest: string)
    ensures Then(g, rest) == g + (":" + rest)
    ensures Then(g, rest)[|g| + 1..] == rest && Then(g, rest)[|g|] == ':'
    ensures g != "" ==> Then(g, rest)[0] == g[0]
  {
  }

  lemma ScanGroup(g: string, rest: string, e: nat, at: Scanned)
    requires IsWord(g) && e <= |rest| && |at.words| <= 7
    ensures Scan(Then(g, rest), |g| + 1 + e, at)
         == Scan(rest, e, at.(words := at.words + [WordValue(g)]))
  {
    ThenParts(g, rest);
    StrtolWord(g, ":" + rest);
    hide Then, StrtolLen, StrtolValue, WordValue, AllHex, IsHex, IsWord, Scan;
    ScanWord(Then(g, rest), |g| + 1 + e, at);
  }

  /** One step of the reading, at a word. */
  lemma ScanWord(s: string, e: nat, at: Scanned)
    requires 0 < e <= |s| && |at.words| <= 7 && IsHex(s[0])
    ensures var n, next := StrtolLen(s), at.(words := at.words + [StrtolValue(s)]);
      Scan(s, e, at) == if n > 4 || ((n == |s| || s[n] != ':') && n != e) then None
                        else if n == |s| then Some(next) else Scan(s[n + 1..], e - n - 1, next)
  {
  }

  /** The state after reading some groups. */
  function Onto(at: Scanned, gs: seq<string>): Scanned
    requires AllWords(gs)
    decreases |gs|
  {
    if gs == [] then at else Onto(at.(words := at.words + [WordValue(gs[0])]), gs[1..])
  }

  lemma Assoc<T>(a: seq<T>, b: seq<T>, c: seq<T>)
    ensures a + b + c == a + (b + c)
  {
  }

  lemma NoMore<T>(a: seq<T>)
    ensures a + [] == a && [] + a == a
  {
  }

  lemma {:induction false} OntoValues(at: Scanned, gs: seq<string>)
    requires AllWords(gs)
    ensures Onto(at, gs) == at.(words := at.words + Values(gs))
    decreases |gs|
  {
    hide WordValue, IsWord;
    if gs == [] {
      NoMore(at.words);
    } else {
      var v := WordValue(gs[0]);
      OntoValues(at.(words := at.words + [v]), gs[1..]);
      assert Values(gs) == [v] + Values(gs[1..]);
      Assoc(at.words, [v], Values(gs[1..]));
    }
  }

  /** Groups that each have a colon after them are read one by one, whatever follows. */
  lemma {:induction false} ScanEach(gs: seq<string>, t: string, e: nat, at: Scanned)
    requires AllWords(gs) && e <= |t| && |at.words| + |gs| <= 8
    ensures Scan(EachThen(gs, t), |EachThen(gs, t)| - |t| + e, at) == Scan(t, e, Onto(at, gs))
    decreases |gs|
  {
    hide Scan, WordValue;
    if gs != [] {
      var rest, next := EachThen(gs[1..], t), at.(words := at.words + [WordValue(gs[0])]);
      ScanGroup(gs[0], rest, |rest| - |t| + e, at);
      ScanEach(gs[1..], t, e, next);
    }
  }

  lemma {:induction false} ScanJoin(gs: seq<string>, at: Scanned)
    requires AllWords(gs) && |at.words| + |gs| <= 8
    ensures Scan(Join(gs), |Join(gs)|, at) == Some(Onto(at, gs))
    decreases |gs|
  {
    hide Scan, WordValue, IsWord, Join, Onto, Then;
    JoinParts(gs);
    OntoParts(at, gs);
    if gs == [] {
      ScanDone("", at);
    } else if |gs| == 1 {
      ScanLast(gs[0], at);
    } else {
      ScanGroup(gs[0], Join(gs[1..]), |Join(gs[1..])|, at);
      ScanJoin(gs[1..], at.(words := at.words + [WordValue(gs[0])]));
    }
  }

  lemma JoinParts(gs: seq<string>)
    ensures gs == [] ==> Join(gs) == ""
    ensures |gs| == 1 ==> Join(gs) == gs[0]
    ensures |gs| > 1 ==> Join(gs) == Then(gs[0], Join(gs[1..]))
  {
  }

  lemma OntoParts(at: Scanned, gs: seq<string>)
    requires AllWords(gs)
    ensures gs == [] ==> Onto(at, gs) == at
    ensures gs != [] ==> AllWords(gs[1..]) && Onto(at, gs) == Onto(at.(words := at.words + [WordValue(gs[0])]), gs[1..])
    ensures |gs| == 1 ==> Onto(at, gs) == at.(words := at.words + [WordValue(gs[0])])
  {
    hide WordValue, IsWord;
  }

  lemma ScanLast(g: string, at: Scanned)
    requires IsWord(g) && |at.words| <= 7
    ensures Scan(g, |g|, at) == Some(at.(words := at.words + [WordValue(g)]))
  {
    assert g == g + "";
    StrtolWord(g, "");
  }

  /** The groups before a "::", the "::", and then `t`. */
  function Lead(left: seq<string>, t: string): (s: string)
    ensures |s| >= |t|
  {
    if left == [] then "::" + t else EachThen(left, ":" + t)
  }

  lemma ScanColon(words: seq<nat>, t: string, e: nat)
    requires e <= |t| && 1 <= |words| <= 7
    ensures Scan(":" + t, e + 1, Scanned(words, -1)) == Scan(t, e, Scanned(words, |words|))
  {
    assert (":" + t)[1..] == t;
  }

  lemma ScanLead(left: seq<string>, t: string, e: nat)
    requires AllWords(left) && e <= |t| && |left| <= 7
    ensures Scan(Lead(left, t), |Lead(left, t)| - |t| + e, START)
         == Scan(t, e, Scanned(Values(left), |left|))
  {
    hide Scan, EachThen;
    if left == [] {
      ScanStart(t, e);
    } else {
      ScanColon(Values(left), t, e);
      ScanEach(left, ":" + t, e + 1, START);
      OntoStart(left);
    }
  }

  lemma OntoStart(gs: seq<string>)
    requires AllWords(gs)
    ensures Onto(START, gs) == Scanned(Values(gs), -1)
  {
    OntoValues(START, gs);
    assert START.words + Values(gs) == Values(gs);
  }

  lemma ScanStart(t: string, e: nat)
    requires e <= |t|
    ensures Scan("::" + t, e + 2, START) == Scan(t, e, Scanned([], 0))
  {
    assert ("::" + t)[2..] == t;
  }

  // ---- No dots, and dotted quads --------------------------------------------------------------

  lemma {:induction false} FirstDotAt(p: string, t: string)
    requires '.' !in p && (t != "" ==> t[0] == '.')
    ensures FirstDot(p + t) == |p|
  {
    if p == "" {
      assert p + t == t;
    } else {
      assert (p + t)[1..] == p[1..] + t;
      FirstDotAt(p[1..], t);
    }
  }

  lemma {:induction false} NoDots(gs: seq<string>, t: string)
    requires AllWords(gs) && '.' !in t
    ensures '.' !in EachThen(gs, t) && '.' !in Join(gs) && '.' !in Lead(gs, t)
    decreases |gs|, 1
  {
    if gs != [] {
      NoDotsEach(gs, t);
      NoDotsEach(gs, ":" + t);
    }
  }

  lemma {:induction false} NoDotsEach(gs: seq<string>, t: string)
    requires AllWords(gs) && '.' !in t
    ensures '.' !in EachThen(gs, t) && '.' !in Join(gs)
    decreases |gs|
  {
    if gs != [] {
      NoDotsEach(gs[1..], t);
      assert IsWord(gs[0]);
      NoDotInWord(gs[0]);
    }
  }

  lemma NoDotInWord(g: string)
    requires IsWord(g)
    ensures '.' !in g
  {
    if !AllHex(g) {
      assert g == g[..2] + g[2..];
    }
  }

  /** What follows the groups can be split off. */
  lemma {:induction false} EachSplit(gs: seq<string>, t: string, u: string)
    ensures EachThen(gs, t + u) == EachThen(gs, t) + u
    decreases |gs|
  {
    if gs != [] {
      EachSplit(gs[1..], t, u);
    }
  }

  lemma LeadSplit(left: seq<string>, t: string, u: string)
    ensures Lead(left, t + u) == Lead(left, t) + u
  {
    EachSplit(left, ":" + t, u);
    assert ":" + t + u == ":" + (t + u) && "::" + t + u == "::" + (t + u);
  }

  /** What is left of a number without white space and sign in front. */
  function Digits(d: string): string {
    AfterSign(d[Spaces(d)..])
  }

  predicate IsNumber(d: string) {
    Digits(d) != "" && AllDigits(Digits(d))
  }

  function NumberValue(d: string): int
    requires IsNumber(d)
  {
    var v: int := DecValue(Digits(d));
    if d[Spaces(d)] == '-' then -v else v
  }

  /** Digits alone are a number. */
  lemma DigitsAreNumber(d: string)
    requires d != "" && AllDigits(d)
    ensures IsNumber(d) && NumberValue(d) == DecValue(d)
  {
    assert IsDigit(d[0]);
  }

  predicate IsOctet(d: string) {
    IsNumber(d) && 0 <= NumberValue(d) < 256
  }

  /** Four numbers, of which the first has neither white space nor a sign. */
  predicate IsQuad(ds: seq<string>) {
    |ds| == 4 && AllDigits(ds[0]) && forall i :: 0 <= i < 4 ==> IsOctet(ds[i])
  }

  /** Nor has any of the others. */
  predicate PlainQuad(ds: seq<string>) {
    IsQuad(ds) && forall i :: 0 <= i < 4 ==> AllDigits(ds[i])
  }

  function QuadText(ds: seq<string>): string
    requires |ds| == 4
  {
    ds[0] + ("." + (ds[1] + ("." + (ds[2] + ("." + ds[3])))))
  }

  function QuadWords(ds: seq<string>): (ws: seq<nat>)
    requires IsQuad(ds)
    ensures |ws| == 2
  {
    [NumberValue(ds[0]) * 256 + NumberValue(ds[1]), NumberValue(ds[2]) * 256 + NumberValue(ds[3])]
  }

  lemma {:induction false} DigitRunOf(d: string, t: string)
    requires AllDigits(d) && (t != "" ==> !IsDigit(t[0]))
    ensures DigitRun(d + t) == |d|
  {
    if d == "" {
      assert d + t == t;
    } else {
      assert (d + t)[1..] == d[1..] + t;
      DigitRunOf(d[1..], t);
    }
  }

  lemma {:induction false} SpacesOf(d: string, t: string)
    requires Spaces(d) < |d|
    ensures Spaces(d + t) == Spaces(d)
  {
    if IsSpace(d[0]) {
      assert (d + t)[1..] == d[1..] + t;
      SpacesOf(d[1..], t);
    }
  }

  lemma ScanOctet(d: string, t: string)
    requires IsOctet(d) && (t != "" ==> !IsDigit(t[0]))
    ensures ScanInt(d + t) == Some((NumberValue(d), t))
  {
    var s, u := d + t, Digits(d);
    hide Spaces;
    SpacesOf(d, t);
    SignOf(d[Spaces(d)..], t);
    assert s[Spaces(d)..] == d[Spaces(d)..] + t;
    assert (u + t)[..|u|] == u && (u + t)[|u|..] == t;
    DigitRunOf(u, t);
  }

  lemma SignOf(d: string, t: string)
    requires AfterSign(d) != ""
    ensures AfterSign(d + t) == AfterSign(d) + t && d != "" && (d + t)[0] == d[0]
  {
  }

  lemma ScanDotOctet(d: string, t: string)
    requires IsOctet(d) && (t != "" ==> !IsDigit(t[0]))
    ensures ScanDotInt("." + (d + t)) == Some((NumberValue(d), t))
  {
    assert ("." + (d + t))[1..] == d + t;
    ScanOctet(d, t);
  }

  lemma ScanQuadText(ds: seq<string>)
    requires IsQuad(ds)
    ensures ScanQuad(QuadText(ds)) == Some(QuadWords(ds))
  {
    hide ScanInt, ScanDotInt, NumberValue;
    var c, b := "." + (ds[3] + ""), "." + ds[3];
    assert b == c;
    ScanDotOctet(ds[3], "");
    ScanDotOctet(ds[2], "." + ds[3]);
    ScanDotOctet(ds[1], "." + (ds[2] + ("." + ds[3])));
    ScanOctet(ds[0], "." + (ds[1] + ("." + (ds[2] + ("." + ds[3])))));
  }

  lemma {:induction false} DigitsBackOf(p: string, d: string, t: string)
    requires AllDigits(d) && (p == "" || !IsDigit(p[|p| - 1]))
    ensures DigitsBack(p + d + t, |p + d|) == |p|
    decreases |d|
  {
    if d == "" {
      assert p + d == p;
    } else {
      var k := |d| - 1;
      assert p + d + t == p + d[..k] + (d[k..] + t);
      assert (p + d + t)[|p + d| - 1] == d[k];
      DigitsBackOf(p, d[..k], d[k..] + t);
    }
  }

  // ---- What well-formed texts mean ------------------------------------------------------------

  /** The text of an address: groups, perhaps a "::" among them, perhaps a dotted quad at the end. */
  datatype Form =
    | Full(all: seq<string>)
    | Gapped(left: seq<string>, right: seq<string>)
    | FullQuad(six: seq<string>, quad: seq<string>)
    | GappedQuad(left: seq<string>, right: seq<string>, quad: seq<string>)
  {
    /** "::" stands for at least one word, and with it or without it there are eight. */
    predicate Loose() {
      match this
      case Full(all) => AllWords(all) && |all| == 8
      case Gapped(left, right) => AllWords(left) && AllWords(right) && |left| + |right| <= 7
      case FullQuad(six, quad) => AllWords(six) && |six| == 6 && IsQuad(quad)
      case GappedQuad(left, right, quad) =>
        AllWords(left) && AllWords(right) && |left| + |right| <= 5 && IsQuad(quad)
    }

    /** Nothing but digits in the words and numbers. */
    predicate Valid() {
      && Loose()
      && match this
         case Full(all) => Groups(all)
         case Gapped(left, right) => Groups(left) && Groups(right)
         case FullQuad(six, quad) => Groups(six) && PlainQuad(quad)
         case GappedQuad(left, right, quad) => Groups(left) && Groups(right) && PlainQuad(quad)
    }

    function Text(): string
      requires Loose()
    {
      match this
      case Full(all) => Join(all)
      case Gapped(left, right) => Lead(left, Join(right))
      case FullQuad(six, quad) => EachThen(six, QuadText(quad))
      case GappedQuad(left, right, quad) => Lead(left, EachThen(right, QuadText(quad)))
    }

    function Words(): (ws: seq<nat>)
      requires Loose()
      ensures |ws| == 8
    {
      match this
      case Full(all) => Values(all)
      case Gapped(left, right) => Values(left) + Zeros(8 - |left| - |right|) + Values(right)
      case FullQuad(six, quad) => Values(six) + QuadWords(quad)
      case GappedQuad(left, right, quad) =>
        Values(left) + Zeros(6 - |left| - |right|) + Values(right) + QuadWords(quad)
    }
  }

  lemma ParseNoDot(s: string)
    requires '.' !in s
    ensures Parse(s) == var at := Scan(s, |s|, START); if at.None? then None else Expand(at.value, [])
  {
    FirstDotAt(s, "");
    assert s + "" == s;
  }

  lemma ParseQuad(p: string, quad: seq<string>)
    requires '.' !in p && IsQuad(quad) && p != "" && !IsDigit(p[|p| - 1])
    ensures Parse(p + QuadText(quad))
         == var at := Scan(p + QuadText(quad), |p|, START);
            if at.None? then None else Expand(at.value, QuadWords(quad))
  {
    var d, t := quad[0], DotTail(quad);
    QuadParts(p, quad);
    hide Scan, ScanQuad, Expand, QuadText, QuadWords, DotTail, AllDigits, NumberValue;
    FirstDotAt(p + d, t);
    DigitsBackOf(p, d, t);
    ScanQuadText(quad);
  }

  /** What follows the first number of a dotted quad. */
  function DotTail(ds: seq<string>): string
    requires |ds| == 4
  {
    "." + (ds[1] + ("." + (ds[2] + ("." + ds[3]))))
  }

  lemma QuadParts(p: string, ds: seq<string>)
    requires |ds| == 4
    ensures var s := p + QuadText(ds); s == p + ds[0] + DotTail(ds) && s[|p|..] == QuadText(ds) && |s| > |p + ds[0]|
    ensures DotTail(ds) != "" && DotTail(ds)[0] == '.'
    ensures IsQuad(ds) ==> AllDigits(ds[0]) && '.' !in ds[0]
  {
    Assoc(p, ds[0], DotTail(ds));
  }

  lemma ParseFull(all: seq<string>)
    requires AllWords(all) && |all| == 8
    ensures Parse(Join(all)) == Some(Values(all))
  {
    hide Scan, Parse, Join, Values, Onto, AllWords;
    NoDots(all, "");
    ParseNoDot(Join(all));
    ScanJoin(all, START);
    OntoStart(all);
    FullExpands(Values(all), []);
    NoMore(Values(all));
  }

  lemma ParseGapped(left: seq<string>, right: seq<string>)
    requires AllWords(left) && AllWords(right) && |left| + |right| <= 7
    ensures Parse(Lead(left, Join(right)))
         == Some(Values(left) + Zeros(8 - |left| - |right|) + Values(right))
  {
    hide Scan, Parse, Join, EachThen, Values, Onto, Expand, Lead, Zeros, AllWords, IsWord;
    var l, r, at := Values(left), Values(right), Scanned(Values(left), |left|);
    NoDots(right, "");
    NoDots(left, Join(right));
    ParseNoDot(Lead(left, Join(right)));
    ScanLead(left, Join(right), |Join(right)|);
    ScanJoin(right, at);
    OntoValues(at, right);
    GapExpands(l, r, []);
    NoMore(l + Zeros(8 - |left| - |right|) + r);
  }

  /** A colon after the last word changes nothing. */
  lemma ParseLeadEach(left: seq<string>, right: seq<string>)
    requires AllWords(left) && AllWords(right) && |left| + |right| <= 7
    ensures Parse(Lead(left, EachThen(right, "")))
         == Some(Values(left) + Zeros(8 - |left| - |right|) + Values(right))
  {
    hide Scan, Parse, Values, Onto, Expand, EachThen, Lead, Zeros, AllWords;
    var r, at := EachThen(right, ""), Scanned(Values(left), |left|);
    NoDots(right, "");
    NoDots(left, r);
    ParseNoDot(Lead(left, r));
    ScanLead(left, r, |r|);
    ScanEach(right, "", 0, at);
    OntoValues(at, right);
    ScanDone("", Onto(at, right));
    GapExpands(Values(left), Values(right), []);
    NoMore(Values(left) + Zeros(8 - |left| - |right|) + Values(right));
  }

  lemma ParseFullQuad(six: seq<string>, quad: seq<string>)
    requires AllWords(six) && |six| == 6 && IsQuad(quad)
    ensures Parse(EachThen(six, QuadText(quad))) == Some(Values(six) + QuadWords(quad))
  {
    hide Scan, Parse, Values, Onto, Expand, EachThen, QuadText, AllWords;
    var p, t := EachThen(six, ""), QuadText(quad);
    NoDots(six, "");
    EachEnds(six, "");
    EachSplit(six, "", t);
    assert "" + t == t;
    ParseQuad(p, quad);
    ScanEach(six, t, 0, START);
    OntoStart(six);
    ScanDone(t, Scanned(Values(six), -1));
    FullExpands(Values(six), QuadWords(quad));
  }

  lemma ParseGappedQuad(left: seq<string>, right: seq<string>, quad: seq<string>)
    requires AllWords(left) && AllWords(right) && |left| + |right| <= 5 && IsQuad(quad)
    ensures Parse(Lead(left, EachThen(right, QuadText(quad))))
         == Some(Values(left) + Zeros(6 - |left| - |right|) + Values(right) + QuadWords(quad))
  {
    hide Scan, Parse, Values, Onto, Expand, EachThen, QuadText, QuadWords, IsOctet, Lead, AllWords, Zeros;
    var r, t, at := EachThen(right, ""), QuadText(quad), Scanned(Values(left), |left|);
    var p := Lead(left, r);
    NoDots(right, "");
    NoDots(left, r);
    LeadEnds(left, right);
    EachSplit(right, "", t);
    assert "" + t == t;
    LeadSplit(left, r, t);
    ParseQuad(p, quad);
    ScanLead(left, EachThen(right, t), |r|);
    ScanEach(right, t, 0, at);
    OntoValues(at, right);
    ScanDone(t, Onto(at, right));
    GapExpands(Values(left), Values(right), QuadWords(quad));
  }

  /** Parsing a well-formed text gives the words it stands for. */
  lemma ParseMeans(f: Form)
    requires f.Loose()
    ensures Parse(f.Text()) == Some(f.Words())
  {
    hide Parse, Join, Lead, EachThen, Values, QuadText, QuadWords, Zeros, AllWords, IsQuad;
    match f {
      case Full(all) => ParseFull(all);
      case Gapped(left, right) => ParseGapped(left, right);
      case FullQuad(six, quad) => ParseFullQuad(six, quad);
      case GappedQuad(left, right, quad) => ParseGappedQuad(left, right, quad);
    }
  }

  lemma FullExpands(words: seq<nat>, quad: seq<nat>)
    requires |words| + |quad| == 8
    ensures Expand(Scanned(words, -1), quad) == Some(words + quad)
  {
  }

  lemma ScanDone(t: string, at: Scanned)
    ensures Scan(t, 0, at) == Some(at)
  {
  }

  lemma GapExpands(left: seq<nat>, right: seq<nat>, quad: seq<nat>)
    requires |left| + |right| + |quad| <= 7
    ensures Expand(Scanned(left + right, |left|), quad)
         == Some(left + Zeros(8 - |left| - |right| - |quad|) + right + quad)
  {
    var ws := left + right;
    assert ws[..|left|] == left && ws[|left|..] == right;
  }

  lemma {:induction false} EachEnds(gs: seq<string>, t: string)
    requires gs == [] ==> t != "" && t[|t| - 1] == ':'
    requires t != "" ==> t[|t| - 1] == ':'
    ensures var s := EachThen(gs, t); s != "" && s[|s| - 1] == ':' && !IsDigit(s[|s| - 1])
    decreases |gs|
  {
    if |gs| == 1 && t == "" {
      assert EachThen(gs[1..], t) == "";
    } else if gs != [] {
      EachEnds(gs[1..], t);
    }
  }

  lemma LeadEnds(left: seq<string>, right: seq<string>)
    ensures var s := Lead(left, EachThen(right, "")); s != "" && s[|s| - 1] == ':' && !IsDigit(s[|s| - 1])
  {
    var r := EachThen(right, "");
    if right != [] {
      EachEnds(right, "");
    }
    if left != [] {
      EachEnds(left, ":" + r);
    }
  }
}

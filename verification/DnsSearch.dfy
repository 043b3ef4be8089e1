/**
  Looking a short name up in a list of domains: which names are tried, in which order, and where
  the search stops.
*/
module DnsSearch {
  datatype SearchState = SearchState(ndots: int, domains: seq<string>)

  /** What comes of one request. A request that times out ends a search; an error does not. */
  datatype Reply = Found | Error | TimedOut

  datatype Outcome = NotSent | Resolved(name: string) | Failed | GaveUp

  // ---- The names to try -----------------------------------------------------------------------

  function Dots(s: string): nat {
    if s == "" then 0 else (if s[0] == '.' then 1 else 0) + Dots(s[1..])
  }

  function WithDomain(name: string, domain: string): string
    requires name != ""
  {
    name + (if name[|name| - 1] == '.' then "" else ".") + domain
  }

  /** The name under each of the domains, in order. */
  function Qualified(name: string, domains: seq<string>): (ns: seq<string>)
    requires name != ""
    ensures |ns| == |domains|
  {
    seq(|domains|, i requires 0 <= i < |domains| => WithDomain(name, domains[i]))
  }

  /** A name with enough dots is tried as it is first, any other name last. */
  function Candidates(st: SearchState, name: string): (ns: seq<string>)
    requires name != ""
    ensures |ns| == |st.domains| + 1
  {
    if Dots(name) >= st.ndots then [name] + Qualified(name, st.domains)
    else Qualified(name, st.domains) + [name]
  }

  /** What a search over these names comes to and how many of them it sends. */
  function Search(names: seq<string>, fits: string -> bool, reply: string -> Reply): (r: (nat, Outcome))
    ensures r.0 <= |names|
  {
    if names == [] || !fits(names[0]) then (0, NotSent)
    else match reply(names[0])
      case Found => (1, Resolved(names[0]))
      case TimedOut => (1, GaveUp)
      case Error =>
        var rest := Search(names[1..], fits, reply);
        (rest.0 + 1, if rest.1 == NotSent then Failed else rest.1)
  }

  /** Names that went out and failed leave the rest of the search. */
  lemma {:induction false} SearchFrom(names: seq<string>, fits: string -> bool, reply: string -> Reply, j: nat)
    requires j <= |names|
    requires forall i :: 0 <= i < j ==> fits(names[i]) && reply(names[i]) == Error
    ensures Search(names, fits, reply).0 == j + Search(names[j..], fits, reply).0
    ensures Search(names, fits, reply).1
         == if j > 0 && Search(names[j..], fits, reply).1 == NotSent then Failed
            else Search(names[j..], fits, reply).1
    decreases j
  {
    if j == 0 {
      assert names[0..] == names;
    } else {
      SearchFrom(names[1..], fits, reply, j - 1);
      assert names[1..][j - 1..] == names[j..];
    }
  }

  lemma SearchNone(names: seq<string>, fits: string -> bool, reply: string -> Reply)
    requires names != [] && !fits(names[0])
    ensures Search(names, fits, reply) == (0, NotSent)
  {
  }

  /** The first `j` names went out, and all before the last of them failed. */
  ghost predicate Passed(names: seq<string>, fits: string -> bool, reply: string -> Reply, j: nat) {
    && 0 < j <= |names|
    && (forall i :: 0 <= i < j ==> fits(names[i]))
    && (forall i :: 0 <= i < j - 1 ==> reply(names[i]) == Error)
  }

  /** What the answer to the `j`th name makes of the search. */
  lemma SearchAt(names: seq<string>, fits: string -> bool, reply: string -> Reply, j: nat)
    requires Passed(names, fits, reply, j)
    ensures match reply(names[j - 1])
      case Found => Search(names, fits, reply) == (j, Resolved(names[j - 1]))
      case TimedOut => Search(names, fits, reply) == (j, GaveUp)
      case Error =>
        if j == |names| || !fits(names[j]) then Search(names, fits, reply) == (j, Failed)
        else Passed(names, fits, reply, j + 1)
  {
    SearchFrom(names, fits, reply, j - 1);
    assert names[j - 1..][0] == names[j - 1];
    if reply(names[j - 1]) == Error {
      SearchFrom(names, fits, reply, j);
      assert j < |names| ==> names[j..][0] == names[j];
    }
  }

  /** When every name can be sent and every answer is an error, each name is tried, once. */
  lemma AllTried(st: SearchState, name: string, fits: string -> bool, reply: string -> Reply)
    requires name != ""
    requires forall n :: n in Candidates(st, name) ==> fits(n) && reply(n) == Error
    ensures Search(Candidates(st, name), fits, reply) == (|st.domains| + 1, Failed)
  {
    var names := Candidates(st, name);
    SearchFrom(names, fits, reply, |names|);
    assert names[|names|..] == [];
  }

  /**
    What a search finds is the first name that any answer but an error comes for, among the names
    before the first that cannot be sent.
  */
  lemma {:induction false} FindsFirst(names: seq<string>, fits: string -> bool, reply: string -> Reply)
    ensures var (k, o) := Search(names, fits, reply);
      && k <= |names|
      && (forall i :: 0 <= i < k ==> fits(names[i]))
      && (forall i :: 0 <= i < k - 1 ==> reply(names[i]) == Error)
      && (o == NotSent <==> k == 0)
      && (o.Resolved? <==> k > 0 && reply(names[k - 1]) == Found)
      && (o.Resolved? ==> o.name == names[k - 1])
      && (o == GaveUp <==> k > 0 && reply(names[k - 1]) == TimedOut)
      && (o == Failed ==> k == |names| || !fits(names[k]))
  {
    if names != [] && fits(names[0]) && reply(names[0]) == Error {
      FindsFirst(names[1..], fits, reply);
      var (k, o) := Search(names[1..], fits, reply);
      assert forall i :: 0 < i < |names| ==> names[i] == names[1..][i - 1];
    }
  }

  // ---- The domain list ------------------------------------------------------------------------

  function Undotted(domain: string): string {
    if domain == "" || domain[0] != '.' then domain else Undotted(domain[1..])
  }

  function AllUndotted(ds: seq<string>): seq<string> {
    seq(|ds|, i requires 0 <= i < |ds| => Undotted(ds[i]))
  }

  class Domain {
    const text: string
    var next: Domain?

    constructor (text: string, next: Domain?)
      ensures this.text == text && this.next == next
    {
      this.text := text;
      this.next := next;
    }
  }

  function At(nodes: seq<Domain>, i: nat): Domain? {
    if i < |nodes| then nodes[i] else null
  }

  /** `nodes` are the list from `head`. */
  ghost predicate Linked(head: Domain?, nodes: seq<Domain>)
    reads nodes`next
  {
    && head == At(nodes, 0)
    && (forall i, j :: 0 <= i < j < |nodes| ==> nodes[i] != nodes[j])
    && (forall i :: 0 <= i < |nodes| ==> nodes[i].next == At(nodes, i + 1))
  }

  lemma NoneLinked(nodes: seq<Domain>)
    ensures nodes == [] ==> Linked(null, nodes)
  {
  }

  lemma LinkedEnds(head: Domain?, nodes: seq<Domain>)
    requires Linked(head, nodes)
    ensures head == null <==> nodes == []
    ensures forall i, j :: 0 <= i < j < |nodes| ==> nodes[i] != nodes[j]
  {
  }

  lemma LinkedTail(head: Domain?, nodes: seq<Domain>)
    requires Linked(head, nodes) && nodes != []
    ensures head == nodes[0] && head !in nodes[1..] && Linked(head.next, nodes[1..])
  {
    assert nodes[0].next == At(nodes, 1);
    forall i | 0 <= i < |nodes[1..]|
      ensures nodes[1..][i].next == At(nodes[1..], i + 1)
    {
      assert nodes[1..][i] == nodes[i + 1];
    }
  }

  lemma LinkedFront(head: Domain?, nodes: seq<Domain>, d: Domain)
    requires Linked(head, nodes) && d !in nodes && d.next == head
    ensures Linked(d, [d] + nodes)
  {
    var more := [d] + nodes;
    forall i | 0 <= i < |more| ensures more[i].next == At(more, i + 1) {
      if i > 0 {
        assert more[i] == nodes[i - 1];
      }
    }
  }

  function Texts(nodes: seq<Domain>): (ts: seq<string>)
    ensures |ts| == |nodes|
  {
    seq(|nodes|, i requires 0 <= i < |nodes| => nodes[i].text)
  }

  /** Turns the link of one entry of a list round, to the part already turned. */
  method Turn(cur: Domain, prev: Domain?, ghost done: seq<Domain>, ghost left: seq<Domain>)
    returns (next: Domain?)
    requires Linked(prev, done) && Linked(cur, left)
    requires forall d :: d in left ==> d !in done
    modifies cur`next
    ensures Linked(cur, [cur] + done) && Linked(next, left[1..])
  {
    hide Linked;
    LinkedEnds(cur, left);
    LinkedTail(cur, left);
    ghost var rest := left[1..];
    next := cur.next;
    cur.next := prev;
    assert forall d: Domain :: d in rest ==> d.next == old(d.next);
    assert forall d: Domain :: d in done ==> d.next == old(d.next);
    LinkedFront(prev, done, cur);
  }

  function Reversed<T>(s: seq<T>): (r: seq<T>) {
    if s == [] then [] else Reversed(s[1..]) + [s[0]]
  }

  lemma {:induction false} ReversedAt<T>(s: seq<T>)
    ensures |Reversed(s)| == |s|
    ensures forall i :: 0 <= i < |s| ==> s[i] == Reversed(s)[|s| - 1 - i]
  {
    if s != [] {
      ReversedAt(s[1..]);
    }
  }

  lemma NoneTurned<T>(done: seq<T>, left: seq<T>)
    requires done == []
    ensures Reversed(done) + left == left
  {
  }

  lemma AllTurned<T>(done: seq<T>, left: seq<T>)
    requires left == []
    ensures Reversed(done) + left == Reversed(done) && |Reversed(done)| == |done|
  {
    ReversedAt(done);
  }

  lemma TurnOne<T>(done: seq<T>, left: seq<T>)
    requires left != []
    ensures Reversed([left[0]] + done) + left[1..] == Reversed(done) + left
    ensures left == [left[0]] + left[1..]
  {
    assert ([left[0]] + done)[1..] == done;
  }

  class Domains {
    var head: Domain?
    var num: int
    ghost var nodes: seq<Domain>

    ghost predicate Valid()
      reads this, nodes`next
    {
      Linked(head, nodes) && num == |nodes|
    }

    ghost function List(): seq<string>
      reads this
    {
      Texts(nodes)
    }

    constructor ()
      ensures Valid() && List() == []
      ensures fresh(nodes)
    {
      head, num, nodes := null, 0, [];
    }

    /** A domain loses its leading dots and goes to the front. */
    method Add(domain: string)
      requires Valid()
      modifies this
      ensures Valid() && List() == [Undotted(domain)] + old(List())
      ensures |nodes| == old(|nodes|) + 1 && nodes[1..] == old(nodes) && fresh(nodes[0])
    {
      var d := domain;
      while d != "" && d[0] == '.'
        invariant Undotted(d) == Undotted(domain)
        decreases |d|
      {
        d := d[1..];
      }
      var sdomain := new Domain(d, head);
      LinkedFront(head, nodes, sdomain);
      head, num := sdomain, num + 1;
      nodes := [sdomain] + nodes;
    }

    method Reverse()
      requires Valid()
      modifies this, nodes`next
      ensures Valid() && Reversed(nodes) == old(nodes)
    {
      hide Linked, Reversed;
      ghost var done: seq<Domain>, left := [], nodes;
      var prev: Domain? := null;
      var cur := head;
      LinkedEnds(cur, left);
      NoneLinked(done);
      NoneTurned(done, left);
      while cur != null
        invariant Linked(prev, done) && Linked(cur, left)
        invariant cur == null <==> left == []
        invariant Reversed(done) + left == nodes
        invariant forall d :: d in left ==> d !in done && d in nodes
        decreases |left|
        modifies nodes`next
      {
        LinkedTail(cur, left);
        assert cur in left;
        var next := Turn(cur, prev, done, left);
        TurnOne(done, left);
        done, left := [cur] + done, left[1..];
        prev := cur;
        cur := next;
        LinkedEnds(cur, left);
      }
      head := prev;
      AllTurned(done, left);
      nodes := done;
    }

    /** A "search" line: its domains, in the order in which they stand there. */
    method SetSearch(tokens: seq<string>)
      modifies this
      ensures Valid() && List() == AllUndotted(tokens)
    {
      hide Linked, Reversed;
      head, num, nodes := null, 0, [];
      NoneLinked(nodes);
      var i := 0;
      while i < |tokens|
        invariant 0 <= i <= |tokens|
        invariant Valid() && |nodes| == i && fresh(nodes)
        invariant forall k :: 0 <= k < i ==> nodes[k].text == Undotted(tokens[i - 1 - k])
      {
        ghost var was := nodes;
        Add(tokens[i]);
        assert forall k :: 0 < k < |nodes| ==> nodes[k] == was[k - 1];
        assert List()[0] == nodes[0].text;
        i := i + 1;
      }
      Reverse();
      ReversedAt(nodes);
      assert forall k :: 0 <= k < |tokens| ==> List()[k] == Undotted(tokens[k]);
    }

    /** The `n`th domain. */
    method Nth(n: nat) returns (domain: string)
      requires Valid() && n < num
      ensures domain == List()[n]
    {
      var dom, k := head, n;
      ghost var i := 0;
      while dom != null
        invariant 0 <= i <= |nodes| && i + k == n
        invariant dom == At(nodes, i)
        decreases |nodes| - i
      {
        if k == 0 {
          return dom.text;
        }
        k := k - 1;
        dom := dom.next;
        i := i + 1;
      }
      assert false;
      domain := "";
    }
  }

  method NumDots(s: string) returns (count: nat)
    ensures count == Dots(s)
  {
    count := 0;
    var i := 0;
    assert s[0..] == s;
    while i < |s|
      invariant 0 <= i <= |s| && count + Dots(s[i..]) == Dots(s)
    {
      assert s[i..][1..] == s[i + 1..];
      if s[i] == '.' {
        count := count + 1;
      }
      i := i + 1;
    }
  }

  /** A lookup that goes through the domains of a list. */
  class Handle {
    const name: string
    const ndots: int
    const domains: Domains
    var searching: bool
    var index: int
    /** The names sent so far. */
    var sent: seq<string>

    constructor (name: string, ndots: int, domains: Domains)
      requires name != ""
      ensures this.name == name && this.ndots == ndots && this.domains == domains
      ensures sent == [] && !searching
    {
      this.name, this.ndots, this.domains := name, ndots, domains;
      searching, index, sent := false, 0, [];
    }

    ghost function Names(noSearch: bool): (ns: seq<string>)
      requires name != ""
      reads domains
      ensures ns != []
    {
      if noSearch || domains.List() == [] then [name]
      else Candidates(SearchState(ndots, domains.List()), name)
    }

    /** How far the search is: the names sent are the first of the candidates. */
    ghost predicate Underway(noSearch: bool)
      reads this, domains, domains.nodes`next
    {
      && name != "" && domains.Valid()
      && var names, j, n := Names(noSearch), |sent|, |domains.List()|;
         && 1 <= j <= |names| && sent == names[..j]
         && (searching ==> !noSearch && n > 0 && index == (if Dots(name) >= ndots then j - 2 else j - 1))
         && (searching && Dots(name) < ndots ==> j <= n)
         && (!searching ==> j == |names|)
    }

    lemma SoFar(noSearch: bool)
      requires Underway(noSearch)
      ensures name != "" && 1 <= |sent| <= |Names(noSearch)| && sent == Names(noSearch)[..|sent|]
      ensures !searching ==> |sent| == |Names(noSearch)|
    {
    }

    method MakeNew(n: nat) returns (newName: string)
      requires name != "" && domains.Valid() && n < domains.num
      ensures newName == WithDomain(name, domains.List()[n])
    {
      var domain := domains.Nth(n);
      newName := if name[|name| - 1] == '.' then name + domain else name + ['.'] + domain;
      assert name + "" == name;
    }

    /** Sends the first name. */
    method Start(noSearch: bool, fits: string -> bool) returns (ok: bool)
      requires name != "" && domains.Valid() && sent == [] && !searching
      modifies this
      ensures ok == fits(Names(noSearch)[0])
      ensures ok ==> Underway(noSearch) && |sent| == 1
      ensures !ok ==> sent == []
    {
      var first := name;
      if !noSearch && domains.num != 0 {
        var dots := NumDots(name);
        if dots >= ndots {
          if !fits(name) {
            return false;
          }
          index := -1;
        } else {
          first := MakeNew(0);
          if !fits(first) {
            return false;
          }
          index := 0;
        }
        searching := true;
      } else if !fits(name) {
        return false;
      }
      sent := [first];
      ok := true;
    }

    /** After an error: sends the next name, if there is one and it can be sent. */
    method TryNext(noSearch: bool, fits: string -> bool) returns (more: bool)
      requires Underway(noSearch) && searching
      modifies this
      ensures more == (old(|sent|) < |Names(noSearch)| && fits(Names(noSearch)[old(|sent|)]))
      ensures more ==> Underway(noSearch) && |sent| == old(|sent|) + 1
      ensures !more ==> sent == old(sent)
    {
      ghost var names, j := Names(noSearch), |sent|;
      index := index + 1;
      if index >= domains.num {
        var dots := NumDots(name);
        if dots < ndots {
          if fits(name) {
            searching := false;
            sent := sent + [name];
            assert sent == names[..j + 1];
            return true;
          }
        }
        return false;
      }
      var newName := MakeNew(index);
      if !fits(newName) {
        return false;
      }
      sent := sent + [newName];
      assert sent == names[..j + 1];
      more := true;
    }

    /**
      The whole lookup. `fits` says which names can be put into a request and `reply` what comes
      of each.
    */
    method Resolve(noSearch: bool, fits: string -> bool, reply: string -> Reply) returns (o: Outcome)
      requires name != "" && domains.Valid() && sent == [] && !searching
      modifies this
      ensures (|sent|, o) == Search(Names(noSearch), fits, reply)
      ensures sent == Names(noSearch)[..|sent|]
    {
      ghost var names := Names(noSearch);
      if !fits(names[0]) {
        SearchNone(names, fits, reply);
      } else {
        assert Passed(names, fits, reply, 1);
      }
      hide Search, Underway, Names, Passed;
      var going := Start(noSearch, fits);
      if !going {
        return NotSent;
      }
      while true
        invariant Underway(noSearch) && names == Names(noSearch)
        invariant Passed(names, fits, reply, |sent|)
        decreases |names| - |sent|
      {
        SoFar(noSearch);
        var current := sent[|sent| - 1];
        assert current == names[|sent| - 1];
        SearchAt(names, fits, reply, |sent|);
        match reply(current) {
          case Found => return Resolved(current);
          case TimedOut => return GaveUp;
          case Error => {
            if !searching {
              return Failed;
            }
            var more := TryNext(noSearch, fits);
            if !more {
              return Failed;
            }
          }
        }
      }
    }
  }
}

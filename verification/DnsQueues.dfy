/**
  The resolver's request lists: circular lists threaded through the requests, one for every
  bucket of transaction ids and one for the requests that wait for room.
*/
module DnsQueues {
  import opened Common
  import opened RequestFlow

  /** The id in a request that is not in flight. */
  const NO_ID: nat := 0xffff

  datatype Server = Nobody | Server(id: nat)

  class Request {
    var transId: nat
    /** The id in the first two bytes of the packet. */
    var wireId: nat
    var ns: Server
    var txCount: nat
    var next: Request?
    var prev: Request?

    constructor (id: nat, ns: Server)
      ensures transId == id && wireId == id && this.ns == ns && txCount == 0
      ensures next == null && prev == null
    {
      transId := id;
      wireId := id;
      this.ns := ns;
      txCount := 0;
      next := null;
      prev := null;
    }

    method SetTransId(id: nat)
      modifies this`transId, this`wireId
      ensures transId == id && wireId == id
    {
      transId := id;
      wireId := id;
    }

    /** Whether the packet leaves, or the server's socket is full, is up to the network. */
    method Transmit()
      requires transId != NO_ID && ns.Server?
      modifies this`txCount
      ensures old(txCount) <= txCount <= old(txCount) + 1
    {
      var sent: bool := *;
      if sent {
        txCount := txCount + 1;
      }
    }
  }

  // ---- Circular lists -------------------------------------------------------------------------

  function After(i: nat, n: nat): (j: nat)
    requires i < n
    ensures j < n
  {
    if i + 1 == n then 0 else i + 1
  }

  function Before(i: nat, n: nat): (j: nat)
    requires i < n
    ensures j < n
  {
    if i == 0 then n - 1 else i - 1
  }

  /** From `head` the links go round `list`, forwards and backwards. */
  ghost predicate Ring(head: Request?, list: seq<Request>)
    reads list`next, list`prev
  {
    && Distinct(list)
    && head == (if list == [] then null else list[0])
    && (forall i :: 0 <= i < |list| ==> list[i].next == list[After(i, |list|)])
    && (forall i :: 0 <= i < |list| ==> list[i].prev == list[Before(i, |list|)])
  }

  lemma RingOfOne(req: Request)
    requires req.next == req && req.prev == req
    ensures Ring(req, [] + [req])
  {
  }

  /** Links along a list, and from its ends to one more request. */
  lemma RingGrown(list: seq<Request>, req: Request)
    requires list != [] && Distinct(list) && req !in list
    requires req.next == list[0] && list[0].prev == req
    requires req.prev == list[|list| - 1] && list[|list| - 1].next == req
    requires forall k: nat :: k < |list| - 1 ==> list[k].next == list[After(k, |list|)]
    requires forall k: nat :: 0 < k < |list| ==> list[k].prev == list[Before(k, |list|)]
    ensures Ring(list[0], list + [req])
  {
    var more, n := list + [req], |list|;
    assert forall k :: 0 <= k < n ==> more[k] == list[k];
    forall k: nat | k < n + 1
      ensures more[k].next == more[After(k, n + 1)] && more[k].prev == more[Before(k, n + 1)]
    {
      assert k < n - 1 ==> list[k].next == list[k + 1];
      assert 0 < k < n ==> list[k].prev == list[k - 1];
    }
  }

  /** Appends to the tail, which is the entry before the head. */
  method Insert(req: Request, head: Request?, ghost list: seq<Request>) returns (h: Request?)
    requires Ring(head, list) && req !in list
    modifies req`next, req`prev, list`next, list`prev
    ensures Ring(h, list + [req])
  {
    hide Distinct;
    if head == null {
      h := req;
      req.next := req;
      req.prev := req;
      RingOfOne(req);
      return;
    }
    h := head;
    ghost var n := |list|;
    assert list[0].prev == list[n - 1];
    assert forall k :: 0 <= k < n ==> list[k] != req;
    assert forall k: nat :: k < n - 1 ==> list[k].next == list[After(k, n)];
    assert forall k: nat :: 0 < k < n ==> list[k].prev == list[Before(k, n)];
    RingDistinct(head, list);
    req.prev := head.prev;
    req.prev.next := req;
    req.next := head;
    head.prev := req;
    RingGrown(list, req);
  }

  lemma RingDistinct(head: Request?, list: seq<Request>)
    requires Ring(head, list)
    ensures forall i, j :: 0 <= i < j < |list| ==> list[i] != list[j]
  {
  }

  /** The place after `k` and the place before it, on the way round past `i`. */
  function Onward(k: nat, i: nat, n: nat): (j: nat)
    requires k < n && i < n
    ensures j < n
  {
    if After(k, n) == i then After(i, n) else After(k, n)
  }

  function Backward(k: nat, i: nat, n: nat): (j: nat)
    requires k < n && i < n
    ensures j < n
  {
    if Before(k, n) == i then Before(i, n) else Before(k, n)
  }

  /** The links of a circular list that skips its entry `i`. */
  ghost predicate Skips(list: seq<Request>, i: nat)
    requires i < |list|
    reads list`next, list`prev
  {
    && (forall k: nat :: k < |list| && k != i ==> list[k].next == list[Onward(k, i, |list|)])
    && (forall k: nat :: k < |list| && k != i ==> list[k].prev == list[Backward(k, i, |list|)])
  }

  lemma SkipsIsRing(list: seq<Request>, i: nat, h: Request?)
    requires Distinct(list) && i < |list| && Skips(list, i)
    requires h == if |list| == 1 then null else if i == 0 then list[1] else list[0]
    ensures Ring(h, list[..i] + list[i + 1..])
    ensures list[i] !in list[..i] + list[i + 1..]
  {
    DistinctCut(list, i);
    hide Distinct;
    var rest := list[..i] + list[i + 1..];
    assert forall k :: 0 <= k < |rest| ==> rest[k] == list[if k < i then k else k + 1];
    forall k | 0 <= k < |rest|
      ensures rest[k].next == rest[After(k, |rest|)] && rest[k].prev == rest[Before(k, |rest|)]
    {
      var j := if k < i then k else k + 1;
      assert rest[k] == list[j];
    }
  }

  lemma RingLinks(head: Request?, list: seq<Request>)
    requires Ring(head, list)
    ensures forall i, j :: 0 <= i < j < |list| ==> list[i] != list[j]
    ensures Distinct(list) && (list != [] ==> head == list[0])
    ensures forall k: nat :: k < |list| ==> list[k].next == list[After(k, |list|)]
    ensures forall k: nat :: k < |list| ==> list[k].prev == list[Before(k, |list|)]
  {
  }

  lemma LastGone(list: seq<Request>, i: nat)
    requires |list| == 1 && i == 0
    ensures Ring(null, list[..i] + list[i + 1..])
  {
  }

  /** Leads the links of the neighbours of an entry past it. */
  method Unhook(req: Request, ghost list: seq<Request>, ghost i: nat)
    requires 1 < |list| && i < |list| && list[i] == req
    requires forall i, j :: 0 <= i < j < |list| ==> list[i] != list[j]
    requires forall k: nat :: k < |list| ==> list[k].next == list[After(k, |list|)]
    requires forall k: nat :: k < |list| ==> list[k].prev == list[Before(k, |list|)]
    modifies list`next, list`prev
    ensures Skips(list, i) && req.next == list[After(i, |list|)]
  {
    Neighbours(i, |list|);
    hide After, Before;
    ghost var after, before := After(i, |list|), Before(i, |list|);
    req.next.prev := req.prev;
    req.prev.next := req.next;
    assert forall k: nat :: k < |list| && k != before ==> list[k].next == list[After(k, |list|)];
    assert forall k: nat :: k < |list| && k != after ==> list[k].prev == list[Before(k, |list|)];
    assert list[before].next == list[after] && list[after].prev == list[before];
  }

  lemma Neighbours(i: nat, n: nat)
    requires i < n
    ensures forall k: nat :: k < n ==> (After(k, n) == i <==> k == Before(i, n))
    ensures forall k: nat :: k < n ==> (Before(k, n) == i <==> k == After(i, n))
    ensures n > 1 ==> After(i, n) != i && Before(i, n) != i
  {
  }

  method Remove(req: Request, head: Request?, ghost list: seq<Request>, ghost i: nat)
    returns (h: Request?)
    requires Ring(head, list) && i < |list| && list[i] == req
    modifies list`next, list`prev
    ensures Ring(h, list[..i] + list[i + 1..])
    ensures req.next == null && req.prev == null
  {
    hide Distinct, Ring, Skips;
    h := head;
    RingLinks(head, list);
    if req.next == req {
      req.next := null;
      req.prev := null;
      LastGone(list, i);
      return null;
    }
    Unhook(req, list, i);
    if head == req {
      h := req.next;
    }
    ghost var rest := list[..i] + list[i + 1..];
    SkipsIsRing(list, i, h);
    assert forall r: Request :: r in rest ==> r != req;
    Clear(req, h, rest);
  }

  method Clear(req: Request, ghost h: Request?, ghost rest: seq<Request>)
    requires Ring(h, rest) && forall r: Request :: r in rest ==> r != req
    modifies req`next, req`prev
    ensures Ring(h, rest) && req.next == null && req.prev == null
  {
    hide Ring;
    req.next := null;
    req.prev := null;
    assert forall r: Request :: r in rest ==> r.next == old(r.next) && r.prev == old(r.prev);
  }

  /** Walks once round the list looking for an id. */
  method FindOnRing(head: Request?, ghost list: seq<Request>, id: nat) returns (r: Request?)
    requires Ring(head, list)
    ensures r == null <==> forall q :: q in list ==> q.transId != id
    ensures r != null ==> r in list && r.transId == id
  {
    if head == null {
      return null;
    }
    r := head;
    ghost var i := 0;
    while true
      invariant 0 <= i < |list| && r == list[i]
      invariant forall j :: 0 <= j < i ==> list[j].transId != id
      decreases |list| - i
    {
      if r.transId == id {
        return;
      }
      assert list[i].next == list[After(i, |list|)];
      r := r.next;
      if r == head {
        assert i + 1 == |list|;
        return null;
      }
      i := i + 1;
    }
  }

  function Slot(id: nat, n: nat): (b: nat)
    requires n > 0
    ensures b < n
  {
    id % n
  }

  // ---- The bucket table -----------------------------------------------------------------------

  /** `members` are spread over the lists `bs` of the table `hs`, each in the bucket of its id. */
  ghost predicate Table(hs: array<Request?>, bs: seq<seq<Request>>, members: set<Request>)
    reads hs, members`next, members`prev, members`transId
  {
    && |bs| == hs.Length > 0
    && (forall b :: 0 <= b < |bs| ==> Elems(bs[b]) <= members && Ring(hs[b], bs[b]))
    && (forall r :: r in members ==> r in bs[Slot(r.transId, |bs|)])
    && (forall b, r :: 0 <= b < |bs| && r in bs[b] ==> r in members && Slot(r.transId, |bs|) == b)
  }

  lemma InOneBucket(hs: array<Request?>, bs: seq<seq<Request>>, members: set<Request>)
    requires Table(hs, bs, members)
    ensures forall b, c, r :: 0 <= b < |bs| && 0 <= c < |bs| && r in bs[b] && r in bs[c] ==> b == c
  {
    forall b, c, r | 0 <= b < |bs| && 0 <= c < |bs| && r in bs[b] && r in bs[c]
      ensures b == c
    {
      assert Slot(r.transId, |bs|) == b;
    }
  }

  lemma TakenOut(head: Request?, list: seq<Request>, i: nat)
    requires i < |list| && Ring(head, list)
    ensures forall r :: r in list[..i] + list[i + 1..] <==> r in list && r != list[i]
  {
    DistinctCut(list, i);
    assert list == list[..i] + [list[i]] + list[i + 1..];
  }

  /** Appends to the bucket of the request's id. */
  method InsertInTable(req: Request, hs: array<Request?>, ghost bs: seq<seq<Request>>,
                       ghost members: set<Request>)
    returns (ghost cs: seq<seq<Request>>)
    requires Table(hs, bs, members) && req !in members
    modifies hs, req`next, req`prev, members`next, members`prev
    ensures Table(hs, cs, members + {req})
  {
    hide Ring, Distinct, Slot;
    var b := Slot(req.transId, hs.Length);
    ghost var list := bs[b];
    InOneBucket(hs, bs, members);
    assert Elems(list + [req]) == Elems(list) + {req};
    var h := Insert(req, hs[b], list);
    hs[b] := h;
    cs := bs[b := list + [req]];
    forall c | 0 <= c < |cs| ensures Elems(cs[c]) <= members + {req} && Ring(hs[c], cs[c]) {
      if c != b {
        assert old(Ring(hs[c], bs[c]));
        assert forall r: Request :: r in bs[c] ==> r != req && r !in list;
        assert forall r: Request :: r in bs[c] ==> r.next == old(r.next) && r.prev == old(r.prev);
        assert hs[c] == old(hs[c]) && cs[c] == bs[c];
      }
    }
  }

  /** Takes a request out of the bucket of its id. */
  method RemoveFromTable(req: Request, hs: array<Request?>, ghost bs: seq<seq<Request>>,
                         ghost members: set<Request>)
    returns (ghost cs: seq<seq<Request>>)
    requires Table(hs, bs, members) && req in members
    modifies hs, members`next, members`prev
    ensures Table(hs, cs, members - {req})
    ensures forall c :: 0 <= c < hs.Length && c != Slot(req.transId, hs.Length) ==> hs[c] == old(hs[c])
  {
    hide Ring, Slot;
    var b := Slot(req.transId, hs.Length);
    ghost var list := bs[b];
    InOneBucket(hs, bs, members);
    ghost var i :| 0 <= i < |list| && list[i] == req;
    ghost var rest := list[..i] + list[i + 1..];
    assert Ring(hs[b], list);
    TakenOut(hs[b], list, i);
    var h := Remove(req, hs[b], list, i);
    hs[b] := h;
    cs := bs[b := rest];
    forall c | 0 <= c < |cs| ensures Elems(cs[c]) <= members - {req} && Ring(hs[c], cs[c]) {
      if c != b {
        assert old(Ring(hs[c], bs[c]));
        assert forall r: Request :: r in bs[c] ==> r.next == old(r.next) && r.prev == old(r.prev);
        assert hs[c] == old(hs[c]) && cs[c] == bs[c];
      }
    }
  }

  /** Looking in one bucket is enough. */
  method FindInTable(id: nat, hs: array<Request?>, ghost bs: seq<seq<Request>>, ghost members: set<Request>)
    returns (r: Request?)
    requires Table(hs, bs, members)
    ensures r == null <==> forall q :: q in members ==> q.transId != id
    ensures r != null ==> r in members && r.transId == id
  {
    var b := Slot(id, hs.Length);
    r := FindOnRing(hs[b], bs[b], id);
  }

  /** Fewer than 0xffff requests leave some id other than `NO_ID` unused. */
  lemma FreeIdExists(flying: set<Request>, ids: set<nat>)
    requires |ids| <= |flying| < NO_ID
    ensures exists id: nat :: id < NO_ID && id !in ids
  {
    if forall id: nat :: id < NO_ID ==> id in ids {
      var all := Below(NO_ID);
      assert all <= ids;
      SubsetSmaller(all, ids);
    }
  }

  ghost function Below(n: nat): (s: set<nat>)
    ensures |s| == n && forall id: nat :: id in s <==> id < n
  {
    if n == 0 then {} else Below(n - 1) + {n - 1}
  }

  lemma {:induction false} SubsetSmaller(s: set<nat>, t: set<nat>)
    requires s <= t
    ensures |s| <= |t|
  {
    if s != {} {
      var x :| x in s;
      SubsetSmaller(s - {x}, t - {x});
    }
  }

  /** The ids of a set of requests are no more than the requests. */
  lemma {:induction false} IdsFew(flying: set<Request>, ids: set<nat>)
    requires forall id :: id in ids ==> exists r :: r in flying && r.transId == id
    ensures |ids| <= |flying|
    decreases flying
  {
    if ids != {} {
      var id :| id in ids;
      var r :| r in flying && r.transId == id;
      forall x | x in ids - {id} ensures exists q :: q in flying - {r} && q.transId == x {
        var q :| q in flying && q.transId == x;
        assert q in flying - {r};
      }
      IdsFew(flying - {r}, ids - {id});
    }
  }

  lemma EmptyTable(hs: array<Request?>, bs: seq<seq<Request>>)
    requires hs.Length == |bs| > 0
    requires forall b :: 0 <= b < |bs| ==> bs[b] == [] && hs[b] == null
    ensures Table(hs, bs, {})
  {
  }

  lemma HeadIn(hs: array<Request?>, bs: seq<seq<Request>>, members: set<Request>, b: nat)
    requires Table(hs, bs, members) && b < hs.Length && hs[b] != null
    ensures hs[b] in members && Slot(hs[b].transId, hs.Length) == b
  {
    assert Ring(hs[b], bs[b]);
    assert bs[b][0] in Elems(bs[b]);
  }

  lemma AllEmpty(hs: array<Request?>, bs: seq<seq<Request>>, members: set<Request>)
    requires Table(hs, bs, members)
    requires forall b :: 0 <= b < hs.Length ==> hs[b] == null
    ensures members == {}
  {
    assert forall b :: 0 <= b < |bs| ==> Ring(hs[b], bs[b]) && bs[b] == [];
  }

  ghost predicate ComesUp(random: nat -> nat, id: nat, n: nat) {
    exists k: nat :: n <= k && random(k) == id
  }

  /** Every id turns up again and again. */
  ghost predicate Fair(random: nat -> nat) {
    forall id: nat, n: nat :: id < NO_ID ==> ComesUp(random, id, n)
  }

  class Resolver {
    /** The heads of the lists of requests in flight, one for each bucket. */
    var heads: array<Request?>
    var waitingHead: Request?
    var inflight: int
    var waiting: int
    var maxInflight: int
    var maxTransmits: nat
    var servers: seq<nat>
    /** The source of random ids, and how much of it is used up. */
    const random: nat -> nat
    var drawn: nat

    ghost var buckets: seq<seq<Request>>
    ghost var queue: seq<Request>
    ghost var flying: set<Request>

    // ---- The invariant ------------------------------------------------------------------------

    ghost function Everyone(): set<Request>
      reads this`flying, this`queue
    {
      flying + Elems(queue)
    }

    ghost predicate Lists()
      reads this`heads, this`waitingHead, this`buckets, this`queue, this`flying, heads
      reads Everyone()`next, Everyone()`prev, Everyone()`transId
    {
      && Table(heads, buckets, flying)
      && Elems(queue) <= Everyone()
      && Ring(waitingHead, queue)
      && (forall r :: r in queue ==> r !in flying)
    }

    /** In flight means: it has a server and an id of its own, the one in the packet. */
    ghost predicate Labelled()
      reads this`queue, this`flying, Everyone()`transId, Everyone()`wireId, Everyone()`ns
    {
      && (forall r :: r in flying ==> r.ns.Server? && r.transId < NO_ID && r.wireId == r.transId)
      && (forall r, q :: r in flying && q in flying && r.transId == q.transId ==> r == q)
      && (forall r :: r in queue ==> r.ns == Nobody && r.transId == NO_ID && r.wireId == NO_ID)
    }

    ghost predicate Valid()
      reads this, heads, Everyone()
    {
      && Lists()
      && Labelled()
      && inflight == |flying|
      && waiting == |queue|
      && servers != []
      && Fair(random)
    }

    ghost function State(): View<Request>
      reads this`flying, this`queue, this`maxInflight
    {
      RequestFlow.View(flying, queue, maxInflight)
    }

    constructor (limit: int, servers: seq<nat>, maxTransmits: nat, random: nat -> nat)
      requires limit >= 1 && servers != [] && Fair(random)
      ensures Valid() && fresh(heads) && heads.Length == (limit + 4) / 5
      ensures State() == RequestFlow.View({}, [], limit)
    {
      hide Fair;
      var n := (limit + 4) / 5;
      var hs := new Request?[n](_ => null);
      heads, buckets, waitingHead, queue, flying := hs, seq(n, _ => []), null, [], {};
      inflight, waiting, maxInflight := 0, 0, limit;
      this.servers, this.maxTransmits, this.random, drawn := servers, maxTransmits, random, 0;
    }

    // ---- List operations ----------------------------------------------------------------------

    method AddFlying(req: Request)
      requires Lists() && req !in Everyone()
      modifies this`buckets, this`flying, this`inflight, heads
      modifies req`next, req`prev, flying`next, flying`prev
      ensures Lists()
      ensures flying == old(flying) + {req} && inflight == old(inflight) + 1
    {
      hide Table, Ring;
      buckets := InsertInTable(req, heads, buckets, flying);
      flying := flying + {req};
      inflight := inflight + 1;
      assert forall r: Request :: r in queue ==> r.next == old(r.next) && r.prev == old(r.prev);
      assert Ring(waitingHead, queue);
    }

    method TakeFlying(req: Request)
      requires Valid() && req in flying
      modifies this`buckets, this`flying, this`inflight, heads, flying`next, flying`prev
      ensures Valid()
      ensures flying == old(flying) - {req}
    {
      hide Table, Ring, Fair, Elems;
      buckets := RemoveFromTable(req, heads, buckets, flying);
      flying := flying - {req};
      inflight := inflight - 1;
      assert forall r: Request :: r in queue ==> r.next == old(r.next) && r.prev == old(r.prev);
      assert Ring(waitingHead, queue);
    }

    method AddWaiting(req: Request)
      requires Lists() && req !in Everyone()
      modifies this`waitingHead, this`queue, this`waiting, req`next, req`prev, queue`next, queue`prev
      ensures Lists()
      ensures queue == old(queue) + [req] && waiting == old(waiting) + 1
    {
      hide Table, Ring;
      waitingHead := Insert(req, waitingHead, queue);
      queue := queue + [req];
      waiting := waiting + 1;
      assert forall r: Request :: r in flying ==> r.next == old(r.next) && r.prev == old(r.prev);
      assert Table(heads, buckets, flying);
    }

    method TakeFromLine(req: Request, ghost i: nat)
      requires Lists() && i < |queue| && queue[i] == req
      modifies this`waitingHead, this`queue, this`waiting, queue`next, queue`prev
      ensures Lists() && req !in Everyone()
      ensures queue == old(queue[..i] + queue[i + 1..]) && waiting == old(waiting) - 1
    {
      hide Table, Ring;
      TakenOut(waitingHead, queue, i);
      waitingHead := Remove(req, waitingHead, queue, i);
      queue := queue[..i] + queue[i + 1..];
      waiting := waiting - 1;
      assert forall r: Request :: r in flying ==> r.next == old(r.next) && r.prev == old(r.prev);
      assert Table(heads, buckets, flying);
    }

    method TakeWaiting(req: Request, ghost i: nat)
      requires Valid() && i < |queue| && queue[i] == req
      modifies this`waitingHead, this`queue, this`waiting, queue`next, queue`prev
      ensures Valid() && req !in Everyone()
      ensures queue == old(queue[..i] + queue[i + 1..])
    {
      hide Lists, Fair;
      ghost var q := queue;
      TakeFromLine(req, i);
      assert forall r :: r in queue ==> r in q;
    }

    // ---- Choosing a server and an id ----------------------------------------------------------

    method PickServer() returns (ns: Server)
      requires servers != []
      ensures ns.Server? && ns.id in servers
    {
      var i :| 0 <= i < |servers|;
      ns := Server.Server(servers[i]);
    }

    lemma FreeIdComesUp() returns (free: nat, k: nat)
      requires Fair(random) && |flying| < NO_ID
      ensures free < NO_ID && forall r :: r in flying ==> r.transId != free
      ensures drawn <= k && random(k) == free
    {
      var ids := set r | r in flying :: r.transId;
      IdsFew(flying, ids);
      FreeIdExists(flying, ids);
      free :| free < NO_ID && free !in ids;
      assert ComesUp(random, free, drawn);
      k :| drawn <= k && random(k) == free;
    }

    /** Draws until the id is unused; it comes to an end because fewer than all ids are used. */
    method DrawId() returns (id: nat)
      requires Table(heads, buckets, flying) && Fair(random) && |flying| < NO_ID
      modifies this`drawn
      ensures id < NO_ID && forall r :: r in flying ==> r.transId != id
    {
      ghost var free, k := FreeIdComesUp();
      hide Table, Fair;
      while true
        invariant drawn <= k
        decreases k - drawn
      {
        id := random(drawn);
        drawn := drawn + 1;
        if id < NO_ID {
          var taken := FindInTable(id, heads, buckets, flying);
          if taken == null {
            return;
          }
        }
        assert id != free;
      }
    }

    method PickId() returns (id: nat)
      requires Valid() && |flying| < NO_ID
      modifies this`drawn
      ensures Valid()
      ensures id < NO_ID && forall r :: r in flying ==> r.transId != id
    {
      hide Table, Ring, Labelled, Fair;
      id := DrawId();
    }

    // ---- Requests -----------------------------------------------------------------------------

    /** A request with a server and an id of its own goes into its bucket and out to the server. */
    method Send(req: Request)
      requires Valid() && req !in Everyone()
      requires req.ns.Server? && req.transId < NO_ID && req.wireId == req.transId
      requires forall r :: r in flying ==> r.transId != req.transId
      modifies this`buckets, this`flying, this`inflight, heads
      modifies req`next, req`prev, req`txCount, flying`next, flying`prev
      ensures Valid() && flying == old(flying) + {req}
    {
      hide Table, Ring, Fair, Elems;
      AddFlying(req);
      req.Transmit();
      assert Labelled();
    }

    method Park(req: Request)
      requires Valid() && req !in Everyone()
      requires req.ns == Nobody && req.transId == req.wireId == NO_ID
      modifies this`waitingHead, this`queue, this`waiting, req`next, req`prev, queue`next, queue`prev
      ensures Valid() && queue == old(queue) + [req]
    {
      hide Lists, Fair;
      AddWaiting(req);
      assert Labelled();
    }

    /** Makes a request and puts it in flight if there is room, else at the end of the line. */
    method Submit() returns (req: Request)
      requires Valid() && maxInflight <= NO_ID
      modifies this, heads, Everyone()`next, Everyone()`prev
      ensures Valid() && fresh(req) && heads == old(heads)
      ensures State() == Next(old(State()), Step.Submit(req))
    {
      hide Lists, Labelled, Fair;
      ghost var all := Everyone();
      if inflight < maxInflight {
        var id := PickId();
        var ns := PickServer();
        req := new Request(id, ns);
        assert req !in all;
        Send(req);
      } else {
        req := new Request(NO_ID, Nobody);
        assert req !in all;
        Park(req);
      }
    }

    /** A probe goes out whether or not there is room. */
    method Probe(ns: Server) returns (req: Request)
      requires Valid() && inflight < NO_ID && ns.Server?
      modifies this, heads, Everyone()`next, Everyone()`prev
      ensures Valid() && fresh(req) && req.ns == ns
      ensures State() == Next(old(State()), Step.Probe(req))
    {
      hide Lists, Labelled, Fair;
      ghost var all := Everyone();
      var id := PickId();
      req := new Request(id, ns);
      assert req !in all;
      Send(req);
    }

    lemma FirstWaits()
      requires Valid() && queue != []
      ensures waitingHead == queue[0] && waitingHead !in flying
    {
    }

    /** The oldest waiting request gets a server and an id and goes out. */
    method PumpOne()
      requires Valid() && inflight < NO_ID && queue != []
      modifies this, heads, Everyone()
      ensures Valid()
      ensures flying == old(flying) + {old(queue[0])} && queue == old(queue[1..])
      ensures maxInflight == old(maxInflight) && heads == old(heads)
      ensures Everyone() == old(Everyone())
    {
      hide Lists, Labelled, Fair;
      var req := waitingHead;
      FirstWaits();
      TakeWaiting(req, 0);
      req.ns := PickServer();
      var id := PickId();
      req.SetTransId(id);
      Send(req);
    }

    method Pump()
      requires Valid() && maxInflight <= NO_ID
      modifies this, heads, Everyone()
      ensures Valid() && heads == old(heads) && Everyone() == old(Everyone())
      ensures State() == RequestFlow.Pump(old(State()))
    {
      hide Lists, Labelled, Fair;
      while inflight < maxInflight && waiting != 0
        invariant Valid() && maxInflight == old(maxInflight) && heads == old(heads)
        invariant Everyone() == old(Everyone())
        invariant RequestFlow.Pump(State()) == RequestFlow.Pump(old(State()))
        decreases waiting
      {
        PumpOne();
      }
    }

    lemma SoundState()
      requires Valid()
      ensures Sound(State())
    {
    }

    /** Takes a request off its list, for good, and lets waiting ones use the room. */
    method Finish(req: Request, wasInflight: bool)
      requires Valid() && maxInflight <= NO_ID
      requires req in Everyone() && wasInflight == (req in flying)
      modifies this, heads, Everyone()
      ensures Valid() && heads == old(heads)
      ensures State() == Next(old(State()), Step.Finish(req))
      ensures req !in Everyone() && Saturated(State())
    {
      hide Lists, Labelled, Fair, Sound, Saturated, RequestFlow.Pump, Without;
      SoundState();
      ghost var v := State();
      if wasInflight {
        TakeFlying(req);
      } else {
        ghost var i := PlaceInLine(req);
        TakeWaiting(req, i);
      }
      DropSound(v, req);
      PumpKeeps(State());
      Pump();
    }

    lemma PlaceInLine(req: Request) returns (i: nat)
      requires Valid() && req in Everyone() && req !in flying
      ensures i < |queue| && queue[i] == req && Without(queue, req) == queue[..i] + queue[i + 1..]
    {
      SoundState();
      i :| 0 <= i < |queue| && queue[i] == req;
      WithoutAt(queue, i);
    }

    /** An answer, good or bad, ends a request in flight. */
    method Answer(req: Request)
      requires Valid() && maxInflight <= NO_ID && req in flying
      modifies this, heads, Everyone()
      ensures Valid() && heads == old(heads)
      ensures State() == Next(old(State()), Step.Finish(req))
      ensures req !in Everyone() && Saturated(State())
    {
      Finish(req, true);
    }

    /** Whether the request is in flight or in line shows in whether it has a server. */
    method Cancel(req: Request)
      requires Valid() && maxInflight <= NO_ID && req in Everyone()
      modifies this, heads, Everyone()
      ensures Valid() && heads == old(heads)
      ensures State() == Next(old(State()), Step.Finish(req))
      ensures req !in Everyone() && Saturated(State())
    {
      if req.ns.Server? {
        Finish(req, true);
      } else {
        Finish(req, false);
      }
    }

    /** A request whose time is up is sent again, to any server, until it was sent often enough. */
    method TimeOut(req: Request)
      requires Valid() && maxInflight <= NO_ID && req in flying
      modifies this, heads, Everyone()
      ensures Valid() && heads == old(heads)
      ensures State() == if old(req.txCount) >= old(maxTransmits) then Next(old(State()), Step.Finish(req))
                         else old(State())
      ensures old(req.txCount) < old(maxTransmits) ==>
        req.transId == old(req.transId) && req.ns.Server? && req.ns.id in servers
    {
      if req.txCount >= maxTransmits {
        Finish(req, true);
      } else {
        Resend(req);
      }
    }

    method Resend(req: Request)
      requires Valid() && req in flying
      modifies req`ns, req`txCount
      ensures Valid() && req.ns.Server? && req.ns.id in servers
    {
      hide Table, Ring, Fair, Elems;
      req.ns := PickServer();
      req.Transmit();
    }

    // ---- Changing the limit -------------------------------------------------------------------

    /**
      Sets the limit and spreads the requests in flight over a table of matching size. The requests
      stay in flight or in line as they were, so after a raise some may wait although there is room.
    */
    method SetMaxInflight(limit: int)
      requires Valid()
      modifies this, heads, Everyone()`next, Everyone()`prev
      ensures Valid() && fresh(heads)
      ensures maxInflight == (if limit < 1 then 1 else limit)
      ensures heads.Length == (maxInflight + 4) / 5
      ensures flying == old(flying) && queue == old(queue)
      ensures Saturated(State()) <==> old(queue) == [] || old(|flying|) >= (if limit < 1 then 1 else limit)
    {
      hide Valid;
      NewTable(if limit < 1 then 1 else limit);
    }

    /** The table gets a size that suits `most` requests. */
    method NewTable(most: nat)
      requires Valid() && most > 0
      modifies this, heads, Everyone()`next, Everyone()`prev
      ensures Valid() && fresh(heads) && maxInflight == most && heads.Length == (most + 4) / 5
      ensures flying == old(flying) && queue == old(queue)
    {
      hide Table, Ring, Fair, Labelled, Slot;
      var n := (most + 4) / 5;
      assert forall i :: 0 <= i < |queue| ==> queue[i] !in flying;
      var hs, bs := Rehash(n);
      assert Ring(waitingHead, queue);
      heads, buckets, maxInflight := hs, bs, most;
    }

    /** Moves every request in flight from the table of this resolver to a new one. */
    method Rehash(n: nat) returns (hs: array<Request?>, ghost bs: seq<seq<Request>>)
      requires n > 0 && Table(heads, buckets, flying)
      modifies heads, flying`next, flying`prev
      ensures fresh(hs) && hs.Length == n && Table(hs, bs, flying)
    {
      hide Table, Ring, Slot;
      hs := new Request?[n](_ => null);
      ghost var left, now := buckets, flying;
      ghost var members: set<Request> := {};
      bs := seq(n, _ => []);
      EmptyTable(hs, bs);
      var i := 0;
      while i < heads.Length
        invariant 0 <= i <= heads.Length
        invariant Table(heads, left, now) && Table(hs, bs, members)
        invariant now !! members && now + members == flying
        invariant forall b :: 0 <= b < i ==> heads[b] == null
        modifies heads, hs, flying`next, flying`prev
      {
        while heads[i] != null
          invariant Table(heads, left, now) && Table(hs, bs, members)
          invariant now !! members && now + members == flying
          invariant forall b :: 0 <= b < i ==> heads[b] == null
          decreases now
          modifies heads, hs, flying`next, flying`prev
        {
          var req := heads[i];
          HeadIn(heads, left, now, i);
          left := RemoveFromTable(req, heads, left, now);
          now := now - {req};
          bs := InsertInTable(req, hs, bs, members);
          members := members + {req};
        }
        i := i + 1;
      }
      AllEmpty(heads, left, now);
    }
  }

  /** Two requests with a limit of one, which then becomes two: one goes on waiting though there is room. */
  method WaitsWithRoom(random: nat -> nat) returns (res: Resolver)
    requires Fair(random)
    ensures fresh(res) && res.Valid() && |res.flying| == 1 == |res.queue| && res.maxInflight == 2
    ensures !Saturated(res.State())
  {
    hide Fair, Resolver.Valid;
    res := new Resolver(1, [0], 3, random);
    var first := res.Submit();
    var second := res.Submit();
    res.SetMaxInflight(2);
  }
}

/** The token bucket of a rate limit, in the machine's own arithmetic. */
module TokenBucket {
  import opened Common

  const INT_MAX: nat := 0x7fff_ffff

  /** Something for reading and something for writing. */
  datatype Both<T> = Both(read: T, write: T) {
    function Get(isWrite: bool): T {
      if isWrite then write else read
    }

    function Set(isWrite: bool, v: T): (r: Both<T>)
      ensures r.Get(isWrite) == v && r.Get(!isWrite) == Get(!isWrite)
    {
      if isWrite then Both(read, v) else Both(v, write)
    }
  }

  datatype Config = Config(rate: Both<nat>, maximum: Both<nat>)

  /** What ev_token_bucket_cfg_new accepts. */
  predicate ValidConfig(c: Config) {
    forall w: bool :: 1 <= c.rate.Get(w) <= c.maximum.Get(w) < TWO_63
  }

  function ToUnsigned(x: int): (r: nat)
    ensures r < TWO_64
  {
    x % TWO_64
  }

  function ToSigned(x: int): (r: int)
    ensures -TWO_63 <= r < TWO_63
  {
    var u := x % TWO_64;
    if u < TWO_63 then u else u - TWO_64
  }

  /** Ticks since the last update, as a difference of 32-bit numbers. */
  function TicksSince(current: nat, last: nat): (n: nat)
    ensures n < TWO_32
  {
    (current - last) % TWO_32
  }

  /** One side of ev_token_bucket_update. */
  function Refill(limit: int, rate: nat, maximum: nat, n: nat): int
    requires n > 0
  {
    if ToUnsigned(maximum - limit) / n < rate then maximum else ToSigned(limit + n * rate)
  }

  function MinInt(a: int, b: int): int {
    if a < b then a else b
  }

  /** In a bucket that is not over-full the division never overflows, and gives the plain result. */
  lemma RefillIsMin(limit: int, rate: nat, maximum: nat, n: nat)
    requires n > 0 && -TWO_63 <= limit <= maximum < TWO_63
    ensures Refill(limit, rate, maximum, n) == MinInt(maximum, limit + n * rate)
  {
    hide ToUnsigned, ToSigned;
    DivLess(maximum - limit, n, rate);
    NoWrap(maximum - limit);
    NoWrap(limit + n * rate);
  }

  /** A number that fits is not changed. */
  lemma NoWrap(x: int)
    ensures 0 <= x < TWO_64 ==> ToUnsigned(x) == x
    ensures -TWO_63 <= x < TWO_63 ==> ToSigned(x) == x
  {
  }

  lemma DivLess(room: nat, n: nat, rate: nat)
    requires n > 0
    ensures room / n < rate <==> room < n * rate
    ensures n * rate >= 0
  {
    var q := room / n;
    assert room == q * n + room % n;
    if q < rate {
      Times(q + 1, rate, n);
    } else {
      Times(rate, q, n);
    }
  }

  lemma Times(a: nat, b: nat, n: nat)
    requires a <= b
    ensures a * n <= b * n
  {
  }

  lemma Distribute(a: int, b: int, rate: int)
    ensures (a + b) * rate == a * rate + b * rate
  {
  }

  lemma NotLess(a: nat, b: nat)
    ensures a * b >= 0
  {
  }

  /** Exactly then: an over-full bucket goes on growing, unless what is to be added reaches the difference
      that has wrapped round. */
  lemma RefillIsMinIff(limit: int, rate: nat, maximum: nat, n: nat)
    requires n > 0 && rate > 0 && -TWO_63 <= limit < TWO_63 && maximum < TWO_63
    ensures Refill(limit, rate, maximum, n) == MinInt(maximum, limit + n * rate)
            <==> limit <= maximum || maximum - limit + TWO_64 <= n * rate
  {
    if limit <= maximum {
      RefillIsMin(limit, rate, maximum, n);
    } else {
      var room := maximum - limit + TWO_64;
      assert room == ToUnsigned(maximum - limit);
      DivLess(room, n, rate);
      Positive(n, rate);
      if n * rate <= room {
        OncePerRound(limit, maximum, n * rate);
      }
    }
  }

  lemma Positive(a: nat, b: nat)
    requires a > 0 && b > 0
    ensures a * b > 0
  {
  }

  /** Adding at most one turn of the machine's word gets from above to a number only by all but the gap. */
  lemma OncePerRound(limit: int, maximum: nat, add: nat)
    requires maximum < limit < TWO_63 && 0 < add <= maximum - limit + TWO_64
    ensures ToSigned(limit + add) == maximum <==> add == maximum - limit + TWO_64
  {
    var u := (limit + add) % TWO_64;
    assert u == if limit + add < TWO_64 then limit + add else limit + add - TWO_64;
  }

  /** A bucket above its maximum is filled further. */
  lemma OverfullGrows()
    ensures Refill(20, 5, 10, 1) == 25 != MinInt(10, 20 + 1 * 5)
  {
  }

  /** What may be passed at once when there is no group: nothing if the bucket is empty or worse. */
  function MostBytes(limit: int): (m: nat) {
    if limit < 0 then 0 else limit
  }

  datatype Event = Ticks(n: nat) | Pass(bytes: nat)

  predicate Allowed(limit: int, e: Event) {
    match e
    case Ticks(n) => 0 < n <= INT_MAX
    case Pass(bytes) => bytes <= MostBytes(limit)
  }

  function Apply(limit: int, rate: nat, maximum: nat, e: Event): int
    requires Allowed(limit, e)
  {
    match e
    case Ticks(n) => Refill(limit, rate, maximum, n)
    case Pass(bytes) => limit - bytes
  }

  predicate IsRun(limit: int, rate: nat, maximum: nat, events: seq<Event>)
    decreases |events|
  {
    events == [] || (Allowed(limit, events[0]) && IsRun(Apply(limit, rate, maximum, events[0]), rate, maximum, events[1..]))
  }

  function Final(limit: int, rate: nat, maximum: nat, events: seq<Event>): int
    requires IsRun(limit, rate, maximum, events)
    decreases |events|
  {
    if events == [] then limit else Final(Apply(limit, rate, maximum, events[0]), rate, maximum, events[1..])
  }

  function Passed(events: seq<Event>): nat {
    if events == [] then 0 else (if events[0].Pass? then events[0].bytes else 0) + Passed(events[1..])
  }

  function Ticked(events: seq<Event>): nat {
    if events == [] then 0 else (if events[0].Ticks? then events[0].n else 0) + Ticked(events[1..])
  }

  /** Over any run of `k` ticks no more than the maximum and `k` times the rate gets through, and the
      bucket stays between empty and full. */
  lemma {:induction false} BucketBound(limit: int, rate: nat, maximum: nat, events: seq<Event>)
    requires 0 <= limit <= maximum < TWO_63 && IsRun(limit, rate, maximum, events)
    ensures 0 <= Final(limit, rate, maximum, events) <= maximum
    ensures Passed(events) + Final(limit, rate, maximum, events) <= limit + Ticked(events) * rate
    ensures Passed(events) <= maximum + Ticked(events) * rate
    decreases |events|
  {
    hide Refill;
    NotLess(Ticked(events), rate);
    if events != [] {
      var more := events[1..];
      if events[0].Ticks? {
        var n := events[0].n;
        RefillIsMin(limit, rate, maximum, n);
        NotLess(n, rate);
        Distribute(n, Ticked(more), rate);
      }
      BucketBound(Apply(limit, rate, maximum, events[0]), rate, maximum, more);
    }
  }

  lemma OnePass(limit: int, rate: nat, maximum: nat, n: nat)
    requires n <= MostBytes(limit)
    ensures IsRun(limit, rate, maximum, [Pass(n)]) && Final(limit, rate, maximum, [Pass(n)]) == limit - n
  {
    assert [Pass(n)][1..] == [];
  }

  lemma TickThenPass(limit: int, rate: nat, maximum: nat, k: nat, n: nat)
    requires 0 < k <= INT_MAX && n <= MostBytes(Refill(limit, rate, maximum, k))
    ensures var events := [Ticks(k)] + [Pass(n)];
            && IsRun(limit, rate, maximum, events)
            && Final(limit, rate, maximum, events) == Refill(limit, rate, maximum, k) - n
  {
    var events := [Ticks(k)] + [Pass(n)];
    OnePass(Refill(limit, rate, maximum, k), rate, maximum, n);
    assert events[1..] == [Pass(n)];
  }
}

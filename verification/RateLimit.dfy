/** Rate-limited bufferevents and groups of them: suspending when a bucket is empty, and going on when
    it has been refilled. */
module RateLimit {
  import opened Common
  import opened TokenBucket

  const MAX_EVER: nat := 16384

  /** Why a direction is suspended: bandwidth of its own, of its group, or anything else. */
  datatype Reasons = Reasons(bw: bool, group: bool, other: bool) {
    predicate None() {
      !bw && !group && !other
    }
  }

  datatype Why = Bandwidth | GroupBandwidth | Other

  function With(r: Reasons, why: Why, on: bool): Reasons {
    match why
    case Bandwidth => r.(bw := on)
    case GroupBandwidth => r.(group := on)
    case Other => r.(other := on)
  }

  /** When the buckets count as updated, after an update at `tick`. */
  function Updated(last: nat, tick: nat): nat {
    if 0 < TicksSince(tick, last) <= INT_MAX then tick else last
  }

  /** A bufferevent, in so far as rate limits are concerned. `active` is what the backend was told last
      about each direction. */
  class Bev {
    var cfg: Option<Config>
    var limit: Both<int>
    var lastUpdated: nat
    var suspended: Both<Reasons>
    var enabled: Both<bool>
    var active: Both<bool>
    var refillPending: bool
    var group: Group?

    constructor ()
      ensures Valid() && cfg.None? && group == null
      ensures forall w: bool :: suspended.Get(w).None() && !enabled.Get(w)
    {
      var none := Reasons(false, false, false);
      cfg, limit, lastUpdated := None, Both(0, 0), 0;
      suspended, enabled, active := Both(none, none), Both(false, false), Both(false, false);
      refillPending, group := false, null;
    }

    /** A direction runs just when it is enabled and nothing suspends it. */
    predicate ActiveOk()
      reads this
    {
      forall w: bool :: active.Get(w) <==> enabled.Get(w) && suspended.Get(w).None()
    }

    /** No wakeup is lost: an empty bucket has suspended its direction, and as long as one is suspended
        the timer that refills the buckets is pending. */
    predicate WillWake()
      reads this
    {
      if cfg.None? then forall w: bool :: !suspended.Get(w).bw
      else forall w: bool ::
          && (limit.Get(w) <= 0 ==> suspended.Get(w).bw)
          && (suspended.Get(w).bw ==> refillPending)
    }

    /** Buckets are never over-full, as long as nothing is given back to them. */
    predicate InRange()
      reads this
    {
      cfg.Some? ==> ValidConfig(cfg.value) && forall w: bool :: -TWO_63 <= limit.Get(w) <= cfg.value.maximum.Get(w)
    }

    predicate Valid()
      reads this
    {
      && ActiveOk() && WillWake() && InRange() && (cfg.None? ==> !refillPending)
      && (group == null ==> forall w: bool :: !suspended.Get(w).group)
    }

    /** bufferevent_suspend_read and bufferevent_suspend_write. */
    method Suspend(w: bool, why: Why)
      requires ActiveOk()
      modifies this`suspended, this`active
      ensures ActiveOk() && suspended == old(suspended).Set(w, With(old(suspended).Get(w), why, true))
    {
      if suspended.Get(w).None() {
        active := active.Set(w, false);
      }
      suspended := suspended.Set(w, With(suspended.Get(w), why, true));
    }

    /** bufferevent_unsuspend_read and bufferevent_unsuspend_write. */
    method Unsuspend(w: bool, why: Why)
      requires ActiveOk()
      modifies this`suspended, this`active
      ensures ActiveOk() && suspended == old(suspended).Set(w, With(old(suspended).Get(w), why, false))
    {
      suspended := suspended.Set(w, With(suspended.Get(w), why, false));
      if suspended.Get(w).None() && enabled.Get(w) {
        active := active.Set(w, true);
      }
    }

    /** bufferevent_enable for one direction. */
    method Enable(w: bool)
      requires Valid()
      modifies this`enabled, this`active
      ensures Valid() && enabled == old(enabled).Set(w, true)
    {
      enabled := enabled.Set(w, true);
      if suspended.Get(w).None() {
        active := active.Set(w, true);
      }
    }

    /** bufferevent_disable for one direction. */
    method Disable(w: bool)
      requires Valid()
      modifies this`enabled, this`active
      ensures Valid() && enabled == old(enabled).Set(w, false)
    {
      enabled := enabled.Set(w, false);
      active := active.Set(w, false);
    }

    /** ev_token_bucket_update. */
    method Update(tick: nat) returns (r: bool)
      requires cfg.Some?
      modifies this`limit, this`lastUpdated
      ensures var n := TicksSince(tick, old(lastUpdated)); r == (0 < n <= INT_MAX)
      ensures !r ==> limit == old(limit) && lastUpdated == old(lastUpdated)
      ensures r ==> lastUpdated == tick && forall w: bool ::
                      limit.Get(w) == Refill(old(limit).Get(w), cfg.value.rate.Get(w), cfg.value.maximum.Get(w),
                                             TicksSince(tick, old(lastUpdated)))
    {
      var n := TicksSince(tick, lastUpdated);
      if n == 0 || n > INT_MAX {
        return false;
      }
      var c := cfg.value;
      limit := Both(Refill(limit.read, c.rate.read, c.maximum.read, n), Refill(limit.write, c.rate.write, c.maximum.write, n));
      lastUpdated := tick;
      return true;
    }

    /** A refill takes nothing away, and leaves no bucket over-full. */
    lemma Refilled(w: bool, n: nat)
      requires cfg.Some? && InRange() && n > 0
      ensures var c := cfg.value;
              var l := Refill(limit.Get(w), c.rate.Get(w), c.maximum.Get(w), n);
              && l == MinInt(c.maximum.Get(w), limit.Get(w) + n * c.rate.Get(w))
              && limit.Get(w) <= l <= c.maximum.Get(w)
    {
      RefillIsMin(limit.Get(w), cfg.value.rate.Get(w), cfg.value.maximum.Get(w), n);
      assert n * cfg.value.rate.Get(w) >= 0;
    }

    /** Brings the buckets up to date; what is suspended stays so. */
    method Refresh(tick: nat)
      requires InRange() && cfg.Some?
      modifies this`limit, this`lastUpdated
      ensures InRange() && forall w: bool :: old(limit).Get(w) <= limit.Get(w)
      ensures var n := TicksSince(tick, old(lastUpdated));
              0 < n <= INT_MAX ==> forall w: bool ::
                limit.Get(w) == MinInt(cfg.value.maximum.Get(w), old(limit).Get(w) + n * cfg.value.rate.Get(w))
      ensures var n := TicksSince(tick, old(lastUpdated)); !(0 < n <= INT_MAX) ==> limit == old(limit)
      ensures lastUpdated == Updated(old(lastUpdated), tick)
      ensures old(Valid()) ==> Valid()
    {
      var n := TicksSince(tick, lastUpdated);
      if n > 0 {
        Refilled(false, n);
        Refilled(true, n);
      }
      var _ := Update(tick);
    }

    /** The part of _bufferevent_decrement_read_buckets (and its twin for writing) about the bufferevent
        itself. */
    method DecrementOwn(w: bool, bytes: int)
      requires Valid() && (cfg.Some? ==> -TWO_63 <= limit.Get(w) - bytes <= cfg.value.maximum.Get(w))
      modifies this`limit, this`suspended, this`active, this`refillPending
      ensures Valid() && (cfg.None? ==> limit == old(limit)) && (cfg.Some? ==> limit == old(limit).Set(w, old(limit).Get(w) - bytes))
      ensures cfg.Some? ==> (suspended.Get(w).bw <==> limit.Get(w) <= 0)
      ensures forall v: bool :: suspended.Get(v).group == old(suspended.Get(v).group)
    {
      if cfg.Some? {
        limit := limit.Set(w, limit.Get(w) - bytes);
        if limit.Get(w) <= 0 {
          Suspend(w, Bandwidth);
          refillPending := true;
        } else if suspended.Get(w).bw {
          if !suspended.Get(!w).bw {
            refillPending := false;
          }
          Unsuspend(w, Bandwidth);
        }
      }
    }

    /** bufferevent_decrement_read_limit and its twin. */
    method DecrementLimit(w: bool, decr: int)
      requires Valid() && cfg.Some? && -TWO_63 <= limit.Get(w) - decr <= cfg.value.maximum.Get(w)
      modifies this`limit, this`suspended, this`active, this`refillPending
      ensures Valid() && limit == old(limit).Set(w, old(limit).Get(w) - decr)
    {
      var oldLimit := limit.Get(w);
      limit := limit.Set(w, oldLimit - decr);
      var newLimit := limit.Get(w);
      if oldLimit > 0 && newLimit <= 0 {
        Suspend(w, Bandwidth);
        refillPending := true;
      } else if oldLimit <= 0 && newLimit > 0 {
        if !suspended.Get(!w).bw {
          refillPending := false;
        }
        Unsuspend(w, Bandwidth);
      }
    }

    /** _bev_refill_callback, called when the timer has run out. Every direction whose bucket has
        something in it again goes on; for the others the timer is set once more. */
    method RefillCallback(tick: nat)
      requires Valid() && refillPending
      modifies this`limit, this`lastUpdated, this`suspended, this`active, this`refillPending
      ensures Valid() && forall w: bool :: suspended.Get(w).bw ==> limit.Get(w) <= 0
      ensures forall w: bool :: old(limit).Get(w) <= limit.Get(w)
      ensures var n := TicksSince(tick, old(lastUpdated));
              cfg.Some? && 0 < n <= INT_MAX ==> forall w: bool ::
                old(limit).Get(w) + n * cfg.value.rate.Get(w) > 0 ==> !suspended.Get(w).bw
      ensures forall v: bool :: suspended.Get(v).group == old(suspended.Get(v).group)
    {
      refillPending := false;
      if cfg.None? {
        return;
      }
      refillPending := RefreshAndResume(tick);
    }

    /** The part of the callback for a bufferevent that still has a limit. */
    method RefreshAndResume(tick: nat) returns (again: bool)
      requires ActiveOk() && InRange() && cfg.Some? && forall w: bool :: limit.Get(w) <= 0 ==> suspended.Get(w).bw
      modifies this`limit, this`lastUpdated, this`suspended, this`active
      ensures ActiveOk() && InRange() && forall w: bool :: suspended.Get(w).bw <==> limit.Get(w) <= 0
      ensures again <==> limit.read <= 0 || limit.write <= 0
      ensures forall w: bool :: old(limit).Get(w) <= limit.Get(w)
      ensures var n := TicksSince(tick, old(lastUpdated));
              0 < n <= INT_MAX ==> forall w: bool :: old(limit).Get(w) + n * cfg.value.rate.Get(w) > 0 ==> limit.Get(w) > 0
      ensures forall v: bool :: suspended.Get(v).group == old(suspended.Get(v).group)
    {
      Refresh(tick);
      again := ResumeBoth();
    }

    /** Resumes both directions; says whether the timer is needed again. */
    method ResumeBoth() returns (again: bool)
      requires ActiveOk() && forall w: bool :: limit.Get(w) <= 0 ==> suspended.Get(w).bw
      modifies this`suspended, this`active
      ensures ActiveOk() && forall w: bool :: suspended.Get(w).bw <==> limit.Get(w) <= 0
      ensures again <==> limit.read <= 0 || limit.write <= 0
      ensures forall v: bool :: suspended.Get(v).group == old(suspended.Get(v).group)
    {
      var first := Resume(false);
      var second := Resume(true);
      again := first || second;
      assert limit.Get(false) == limit.read && limit.Get(true) == limit.write;
    }

    /** One direction of the callback: it goes on if there is something in its bucket. */
    method Resume(w: bool) returns (again: bool)
      requires ActiveOk()
      modifies this`suspended, this`active
      ensures ActiveOk() && again == (old(suspended).Get(w).bw && limit.Get(w) <= 0)
      ensures suspended == old(suspended).Set(w, old(suspended).Get(w).(bw := again))
    {
      again := false;
      if suspended.Get(w).bw {
        if limit.Get(w) > 0 {
          Unsuspend(w, Bandwidth);
        } else {
          again := true;
        }
      }
    }

    /** bufferevent_set_rate_limit; `same` says that it is the very configuration in use. */
    method SetRateLimit(c: Option<Config>, same: bool, tick: nat)
      requires Valid() && (c.Some? ==> ValidConfig(c.value)) && (same ==> c.Some? && cfg == c)
      modifies this`cfg, this`limit, this`lastUpdated, this`suspended, this`active, this`refillPending
      ensures Valid() && cfg == c
      ensures c.Some? && !same ==> forall w: bool ::
                && limit.Get(w) == (if old(cfg).Some? then MinInt(old(limit).Get(w), c.value.maximum.Get(w)) else c.value.rate.Get(w))
                && (suspended.Get(w).bw <==> limit.Get(w) <= 0)
      ensures c.None? || same ==> limit == old(limit) && lastUpdated == old(lastUpdated)
      ensures same ==> suspended == old(suspended) && refillPending == old(refillPending)
      ensures forall v: bool :: suspended.Get(v).group == old(suspended.Get(v).group)
    {
      if c.None? {
        cfg := None;
        Unsuspend(false, Bandwidth);
        Unsuspend(true, Bandwidth);
        refillPending := false;
        return;
      }
      if same {
        return;
      }
      var reinit := cfg.Some?;
      cfg := c;
      InitBucket(tick, reinit);
      refillPending := StartBoth();
    }

    /** Suspends the directions whose bucket is empty, and only these; says whether there are any. */
    method StartBoth() returns (any: bool)
      requires ActiveOk()
      modifies this`suspended, this`active
      ensures ActiveOk() && forall w: bool :: suspended.Get(w).bw <==> limit.Get(w) <= 0
      ensures any <==> limit.read <= 0 || limit.write <= 0
      ensures forall v: bool :: suspended.Get(v).group == old(suspended.Get(v).group)
    {
      any := false;
      if limit.read > 0 {
        Unsuspend(false, Bandwidth);
      } else {
        Suspend(false, Bandwidth);
        any := true;
      }
      if limit.write > 0 {
        Unsuspend(true, Bandwidth);
      } else {
        Suspend(true, Bandwidth);
        any := true;
      }
    }

    /** ev_token_bucket_init: a bucket that is in use already is only cut down. */
    method InitBucket(tick: nat, reinit: bool)
      requires cfg.Some? && ValidConfig(cfg.value) && (reinit ==> forall w: bool :: -TWO_63 <= limit.Get(w))
      modifies this`limit, this`lastUpdated
      ensures InRange()
      ensures reinit ==> forall w: bool :: limit.Get(w) == MinInt(old(limit).Get(w), cfg.value.maximum.Get(w))
      ensures !reinit ==> forall w: bool :: limit.Get(w) == cfg.value.rate.Get(w)
    {
      var c := cfg.value;
      assert 1 <= c.rate.Get(false) <= c.maximum.Get(false) && 1 <= c.rate.Get(true) <= c.maximum.Get(true);
      if reinit {
        assert -TWO_63 <= limit.Get(false) && -TWO_63 <= limit.Get(true);
        limit := Both(MinInt(limit.read, c.maximum.read), MinInt(limit.write, c.maximum.write));
      } else {
        limit := Both(c.rate.read, c.rate.write);
        lastUpdated := tick;
      }
    }
  }

  /** A group of bufferevents that share a bucket. */
  class Group {
    var members: seq<Bev>
    var nMembers: nat
    var cfg: Config
    var limit: Both<int>
    var lastUpdated: nat
    var suspended: Both<bool>
    var pendingUnsuspend: Both<bool>
    var minShare: nat

    constructor (c: Config, tick: nat, minShare: nat)
      requires ValidConfig(c)
      ensures Valid() && members == [] && cfg == c && limit == Both(c.rate.read, c.rate.write)
    {
      members, nMembers, cfg, limit, lastUpdated := [], 0, c, Both(c.rate.read, c.rate.write), tick;
      suspended, pendingUnsuspend := Both(false, false), Both(false, false);
      this.minShare := minShare;
    }

    /** No wakeup is lost: a member that waits for its group will be woken by the next refill of the group
        that allows it. */
    predicate Valid()
      reads this, members
    {
      && nMembers == |members| && (forall i, j :: 0 <= i < j < |members| ==> members[i] != members[j])
      && (forall w: bool :: !(suspended.Get(w) && pendingUnsuspend.Get(w)))
      && forall b :: b in members ==> b.group == this && b.Valid() && forall w: bool ::
          b.suspended.Get(w).group ==> suspended.Get(w) || pendingUnsuspend.Get(w)
    }

    /** Each member is in order by itself. */
    predicate MembersOk()
      reads this, members
    {
      && nMembers == |members| && (forall i, j :: 0 <= i < j < |members| ==> members[i] != members[j])
      && forall b :: b in members ==> b.group == this && b.Valid()
    }
  }

  /** Suspending for the group's sake leaves everything else about a bufferevent as it is. */
  method SuspendForGroup(b: Bev, w: bool)
    requires b.Valid() && b.group != null
    modifies b`suspended, b`active
    ensures b.Valid() && b.suspended == old(b.suspended).Set(w, old(b.suspended).Get(w).(group := true))
  {
    b.Suspend(w, GroupBandwidth);
  }

  method UnsuspendForGroup(b: Bev, w: bool)
    requires b.Valid()
    modifies b`suspended, b`active
    ensures b.Valid() && b.suspended == old(b.suspended).Set(w, old(b.suspended).Get(w).(group := false))
  {
    b.Unsuspend(w, GroupBandwidth);
  }

  /** _bev_group_suspend_reading and its twin. Members whose lock is taken (`locked`) find out later. */
  method SuspendGroup(g: Group, w: bool, locked: set<Bev>)
    requires g.Valid()
    modifies g`suspended, g`pendingUnsuspend, g.members`suspended, g.members`active
    ensures g.Valid() && g.suspended == old(g.suspended).Set(w, true)
    ensures g.pendingUnsuspend == old(g.pendingUnsuspend).Set(w, false)
    ensures forall b :: b in g.members ==>
              b.suspended == old(b.suspended).Set(w, old(b.suspended).Get(w).(group := b !in locked || old(b.suspended).Get(w).group))
  {
    g.suspended := g.suspended.Set(w, true);
    g.pendingUnsuspend := g.pendingUnsuspend.Set(w, false);
    SuspendAll(g, w, locked);
  }

  method SuspendAll(g: Group, w: bool, locked: set<Bev>)
    requires g.MembersOk()
    modifies g.members`suspended, g.members`active
    ensures g.MembersOk()
    ensures forall b :: b in g.members ==>
              b.suspended == if b in locked then old(b.suspended) else old(b.suspended).Set(w, old(b.suspended).Get(w).(group := true))
  {
    hide Bev.WillWake, Bev.ActiveOk, Bev.InRange, Both.Set, Both.Get;
    ghost var done: seq<Bev> := [];
    for i := 0 to |g.members|
      modifies g.members`suspended, g.members`active
      invariant g.MembersOk() && done == g.members[..i]
      invariant forall b :: b in g.members ==>
                  b.suspended == if b in done && b !in locked then old(b.suspended).Set(w, old(b.suspended).Get(w).(group := true))
                                 else old(b.suspended)
    {
      done := done + [g.members[i]];
      if g.members[i] !in locked {
        SuspendForGroup(g.members[i], w);
      }
    }
  }

  /** _bev_group_unsuspend_reading and its twin, from a random member on and then round: every member is
      visited exactly once. If a member's lock is taken, this is done again at the next refill. */
  method UnsuspendGroup(g: Group, w: bool, locked: set<Bev>, random: nat) returns (ghost order: seq<Bev>)
    requires g.Valid()
    modifies g`suspended, g`pendingUnsuspend, g.members`suspended, g.members`active
    ensures g.Valid() && g.suspended == old(g.suspended).Set(w, false)
    ensures g.pendingUnsuspend.Get(!w) == old(g.pendingUnsuspend.Get(!w))
    ensures g.pendingUnsuspend.Get(w) <==> exists b :: b in g.members && b in locked
    ensures forall b :: b in g.members ==>
              b.suspended == old(b.suspended).Set(w, old(b.suspended).Get(w).(group := b in locked && old(b.suspended).Get(w).group))
    ensures multiset(order) == multiset(g.members)
  {
    g.suspended := g.suspended.Set(w, false);
    var n := |g.members|;
    var first := if n > 0 then random % n else 0;
    var again;
    again, order := WakeAll(g, first, w, locked);
    g.pendingUnsuspend := g.pendingUnsuspend.Set(w, again);
  }

  /** The members in `order` have been woken unless their lock was taken (`again`, if it was for any);
      nothing else has changed. `was` are the reasons of each before. */
  ghost predicate Progress(g: Group, was: map<Bev, Both<Reasons>>, order: seq<Bev>, again: bool, locked: set<Bev>, w: bool)
    reads g, g.members
  {
    && g.MembersOk() && (again <==> exists b :: b in order && b in locked)
    && forall b :: b in g.members ==>
         b in was && b.suspended == if b in order && b !in locked then Cleared(was[b], w) else was[b]
  }

  /** The two loops of FOREACH_RANDOM_ORDER. */
  method WakeAll(g: Group, first: nat, w: bool, locked: set<Bev>) returns (again: bool, ghost order: seq<Bev>)
    requires g.MembersOk() && first <= |g.members|
    modifies g.members`suspended, g.members`active
    ensures g.MembersOk() && order == g.members[first..] + g.members[..first] && multiset(order) == multiset(g.members)
    ensures again <==> exists b :: b in g.members && b in locked
    ensures forall b :: b in g.members ==>
              b.suspended == if b in locked then old(b.suspended) else Cleared(old(b.suspended), w)
  {
    hide Group.MembersOk;
    ghost var was := map b | b in g.members :: b.suspended;
    again, order := WakeRange(g, first, |g.members|, w, locked, false, [], was);
    again, order := WakeRange(g, 0, first, w, locked, again, order, was);
    assert g.members == g.members[..first] + g.members[first..];
    assert forall b :: b in g.members <==> b in order;
  }

  method WakeRange(g: Group, from: nat, end: nat, w: bool, locked: set<Bev>, again0: bool, ghost order0: seq<Bev>,
                   ghost was: map<Bev, Both<Reasons>>) returns (again: bool, ghost order: seq<Bev>)
    requires from <= end <= |g.members| && Progress(g, was, order0, again0, locked, w)
    modifies g.members`suspended, g.members`active
    ensures Progress(g, was, order, again, locked, w) && order == order0 + g.members[from..end]
  {
    hide Progress;
    again, order := again0, order0;
    for i := from to end
      invariant Progress(g, was, order, again, locked, w) && order == order0 + g.members[from..i]
    {
      again := Visit(g, g.members[i], w, locked, again, order, was);
      order := order + [g.members[i]];
    }
  }

  function Cleared(s: Both<Reasons>, w: bool): Both<Reasons> {
    s.Set(w, s.Get(w).(group := false))
  }

  method Visit(g: Group, b: Bev, w: bool, locked: set<Bev>, again: bool, ghost order: seq<Bev>,
               ghost was: map<Bev, Both<Reasons>>) returns (r: bool)
    requires b in g.members && Progress(g, was, order, again, locked, w)
    modifies b`suspended, b`active
    ensures Progress(g, was, order + [b], r, locked, w)
  {
    hide Bev.WillWake, Bev.ActiveOk, Bev.InRange;
    if b !in locked {
      UnsuspendForGroup(b, w);
      return again;
    }
    assert b in order + [b];
    return true;
  }

  /** A bufferevent that is in order, and so is its group, of which it is a member. */
  ghost predicate Placed(b: Bev)
    reads b, b.group, if b.group == null then {} else set x | x in b.group.members
  {
    if b.group == null then b.Valid() else b.group.Valid() && b in b.group.members
  }

  /** The share of a group's bucket, as C divides. */
  function Share(limit: int, n: nat, minShare: nat): (share: int)
    requires n > 0
    ensures share >= minShare
  {
    var q := if limit >= 0 then limit / n else -((-limit) / n);
    if q < minShare then minShare else q
  }

  /** _bufferevent_get_rlim_max. Without a group the answer is what is in the bucket, or 0. */
  method GetMax(b: Bev, w: bool, tick: nat) returns (m: nat)
    requires Placed(b)
    modifies b`limit, b`lastUpdated, b`suspended, b`active
    ensures Placed(b)
    ensures b.lastUpdated == if b.cfg.Some? then Updated(old(b.lastUpdated), tick) else old(b.lastUpdated)
    ensures var own := if b.cfg.Some? then b.limit.Get(w) else MAX_EVER;
            m == MostBytes(if b.group == null then own
                           else if b.group.suspended.Get(w) then MinInt(own, 0)
                           else MinInt(own, Share(b.group.limit.Get(w), |b.group.members|, b.group.minShare)))
    ensures b.cfg.Some? ==>
              var k := TicksSince(tick, old(b.lastUpdated));
              b.limit.Get(w) == if 0 < k <= INT_MAX
                                then MinInt(b.cfg.value.maximum.Get(w), old(b.limit).Get(w) + k * b.cfg.value.rate.Get(w))
                                else old(b.limit).Get(w)
    ensures b.group != null && b.group.suspended.Get(w) ==> m == 0 && b.suspended.Get(w).group
  {
    hide Bev.Valid, Bev.InRange, Both.Get;
    assert b.cfg.Some? ==> b.Valid() && b.InRange() by {
      PlacedIs(b);
    }
    var sofar: int := MAX_EVER;
    if b.cfg.Some? {
      b.Refresh(tick);
      sofar := b.limit.Get(w);
    }
    if b.group != null {
      var share := GroupShare(b, w);
      if sofar > share {
        sofar := share;
      }
    }
    return if sofar < 0 then 0 else sofar;
  }

  lemma PlacedIs(b: Bev)
    requires Placed(b)
    ensures b.Valid() && b.InRange()
  {
  }

  /** What the group lets one of its members pass; who asks while the group is suspended is suspended. */
  method GroupShare(b: Bev, w: bool) returns (share: int)
    requires b.group != null && Placed(b)
    modifies b`suspended, b`active
    ensures Placed(b)
    ensures b.group.suspended.Get(w) ==> share == 0 && b.suspended.Get(w).group
    ensures !b.group.suspended.Get(w) ==> share == Share(b.group.limit.Get(w), |b.group.members|, b.group.minShare)
  {
    var g := b.group;
    share := 0;
    if g.suspended.Get(w) {
      SuspendForGroup(b, w);
    } else {
      share := Share(g.limit.Get(w), g.nMembers, g.minShare);
    }
  }

  /** The part of _bufferevent_decrement_read_buckets (and its twin) about the group. */
  method DecrementGroup(g: Group, w: bool, bytes: int, locked: set<Bev>, random: nat)
    requires g.Valid()
    modifies g`limit, g`suspended, g`pendingUnsuspend, g.members`suspended, g.members`active
    ensures g.Valid() && g.limit == old(g.limit).Set(w, old(g.limit).Get(w) - bytes)
    ensures g.limit.Get(w) <= 0 ==> g.suspended.Get(w) && forall b :: b in g.members && b !in locked ==> b.suspended.Get(w).group
    ensures g.limit.Get(w) > 0 ==> !g.suspended.Get(w)
    ensures old(g.suspended).Get(w) && g.limit.Get(w) > 0
            ==> forall b :: b in g.members && b !in locked ==> !b.suspended.Get(w).group
  {
    hide Bev.Valid;
    g.limit := g.limit.Set(w, g.limit.Get(w) - bytes);
    if g.limit.Get(w) <= 0 {
      SuspendGroup(g, w, locked);
    } else if g.suspended.Get(w) {
      ghost var _ := UnsuspendGroup(g, w, locked, random);
    }
  }

  /** One direction of _bev_group_refill_callback: whoever waits for the group goes on, if the group may. */
  method RefillDirection(g: Group, w: bool, locked: set<Bev>, random: nat)
    requires g.Valid()
    modifies g`suspended, g`pendingUnsuspend, g.members`suspended, g.members`active
    ensures g.Valid() && g.suspended.Get(!w) == old(g.suspended).Get(!w)
            && g.pendingUnsuspend.Get(!w) == old(g.pendingUnsuspend).Get(!w)
    ensures old(g.pendingUnsuspend.Get(w)) || (old(g.suspended.Get(w)) && g.limit.Get(w) >= g.minShare)
            ==> !g.suspended.Get(w) && forall b :: b in g.members && b !in locked ==> !b.suspended.Get(w).group
    ensures forall b :: b in g.members ==> b.suspended.Get(!w) == old(b.suspended).Get(!w)
  {
    hide Bev.Valid;
    if g.pendingUnsuspend.Get(w) || (g.suspended.Get(w) && g.limit.Get(w) >= g.minShare) {
      ghost var _ := UnsuspendGroup(g, w, locked, random);
    }
  }

  /** _bev_group_refill_callback. */
  method RefillGroup(g: Group, tick: nat, locked: set<Bev>, random: nat)
    requires g.Valid()
    modifies g`limit, g`lastUpdated, g`suspended, g`pendingUnsuspend, g.members`suspended, g.members`active
    ensures g.Valid() && g.lastUpdated == Updated(old(g.lastUpdated), tick)
    ensures var n := TicksSince(tick, old(g.lastUpdated)); forall w: bool ::
              g.limit.Get(w) == if 0 < n <= INT_MAX
                                then Refill(old(g.limit.Get(w)), g.cfg.rate.Get(w), g.cfg.maximum.Get(w), n)
                                else old(g.limit.Get(w))
    ensures forall w: bool ::
              old(g.pendingUnsuspend.Get(w)) || (old(g.suspended.Get(w)) && g.limit.Get(w) >= g.minShare) ==>
                !g.suspended.Get(w) && forall b :: b in g.members && b !in locked ==> !b.suspended.Get(w).group
  {
    hide Bev.Valid;
    var n := TicksSince(tick, g.lastUpdated);
    if 0 < n <= INT_MAX {
      g.limit := Both(Refill(g.limit.read, g.cfg.rate.read, g.cfg.maximum.read, n),
                      Refill(g.limit.write, g.cfg.rate.write, g.cfg.maximum.write, n));
      g.lastUpdated := tick;
    }
    RefillDirection(g, false, locked, random);
    RefillDirection(g, true, locked, random);
  }

  /** The part of bufferevent_add_to_rate_limit_group for a bufferevent that is in no group. */
  method EnterGroup(b: Bev, g: Group)
    requires b.Valid() && b.group == null && g.Valid() && b !in g.members
    modifies b`group, b`suspended, b`active, g`members, g`nMembers
    ensures g.Valid() && g.members == old(g.members) + [b]
    ensures forall w: bool :: b.suspended.Get(w).group <==> g.suspended.Get(w)
  {
    hide Bev.Valid, With;
    NoneForGroup(b);
    Join(b, g);
    g.nMembers := g.nMembers + 1;
    g.members := g.members + [b];
    if g.suspended.read {
      SuspendForGroup(b, false);
    }
    if g.suspended.write {
      SuspendForGroup(b, true);
    }
  }

  lemma NoneForGroup(b: Bev)
    requires b.Valid() && b.group == null
    ensures forall w: bool :: !b.suspended.Get(w).group
  {
  }

  method Join(b: Bev, g: Group)
    requires b.Valid()
    modifies b`group
    ensures b.Valid() && b.group == g
  {
    b.group := g;
  }

  /** bufferevent_remove_from_rate_limit_group: what waited for the group goes on. */
  method RemoveFromGroup(b: Bev, g: Group)
    requires b.group == g && g.Valid() && b in g.members
    modifies b`group, b`suspended, b`active, g`members, g`nMembers
    ensures b.Valid() && b.group == null && g.Valid() && g.members == RemoveFirst(old(g.members), b)
  {
    hide RemoveFirst, Bev.Valid, Both.Get;
    RemoveFirstMembers(g.members, b);
    g.nMembers := g.nMembers - 1;
    g.members := RemoveFirst(g.members, b);
    Leave(b);
  }

  /** What waited for the group goes on. */
  method Leave(b: Bev)
    requires b.Valid()
    modifies b`group, b`suspended, b`active
    ensures b.Valid() && b.group == null
  {
    b.group := null;
    b.Unsuspend(false, GroupBandwidth);
    b.Unsuspend(true, GroupBandwidth);
  }

  /** bufferevent_add_to_rate_limit_group: a member of another group leaves that one first. */
  method AddToGroup(b: Bev, g: Group)
    requires Placed(b) && g.Valid()
    modifies b`group, b`suspended, b`active, g`members, g`nMembers
    modifies if b.group == null then {} else {b.group}`members, if b.group == null then {} else {b.group}`nMembers
    ensures b.group == g && g.Valid() && b in g.members
    ensures old(b.group) == g ==> g.members == old(g.members) && b.suspended == old(b.suspended) && b.active == old(b.active)
    ensures old(b.group) != g ==> g.members == old(g.members) + [b]
    ensures old(b.group) != g ==> forall w: bool :: b.suspended.Get(w).group <==> g.suspended.Get(w)
    ensures old(b.group) != null && old(b.group) != g
            ==> old(b.group).Valid() && old(b.group).members == RemoveFirst(old(b.group.members), b)
  {
    if b.group == g {
      return;
    }
    ghost var was := b.group;
    if b.group != null {
      RemoveFromGroup(b, b.group);
    }
    EnterGroup(b, g);
  }

  /** _bufferevent_decrement_read_buckets and its twin: `bytes` have gone through. */
  method Decrement(b: Bev, w: bool, bytes: int, locked: set<Bev>, random: nat)
    requires Placed(b) && (b.cfg.Some? ==> -TWO_63 <= b.limit.Get(w) - bytes <= b.cfg.value.maximum.Get(w))
    modifies b`limit, b`suspended, b`active, b`refillPending
    modifies b.group, if b.group == null then {} else set x | x in b.group.members
    ensures Placed(b) && b.group == old(b.group)
    ensures b.cfg.Some? ==> b.limit == old(b.limit).Set(w, old(b.limit).Get(w) - bytes)
    ensures b.group != null ==> b.group.limit == old(b.group.limit).Set(w, old(b.group.limit).Get(w) - bytes)
    ensures b.group != null ==> (b.group.suspended.Get(w) <==> b.group.limit.Get(w) <= 0)
  {
    b.DecrementOwn(w, bytes);
    if b.group != null {
      DecrementGroup(b.group, w, bytes, locked, random);
    }
  }

  /** Asks how much may go through and lets up to that much through. The bucket then is an event further
      in a run that the bound of TokenBucket is about. */
  method PassSome(b: Bev, w: bool, tick: nat, want: nat) returns (n: nat)
    requires b.Valid() && b.group == null && b.cfg.Some? && 0 <= b.limit.Get(w)
    modifies b
    ensures b.Valid() && b.group == null && b.cfg == old(b.cfg) && n <= want && 0 <= b.limit.Get(w)
    ensures b.lastUpdated == Updated(old(b.lastUpdated), tick) && (n < want ==> b.limit.Get(w) == 0)
    ensures var k := TicksSince(tick, old(b.lastUpdated)); var c := b.cfg.value;
            var first := if 0 < k <= INT_MAX then [Ticks(k)] else [];
            && IsRun(old(b.limit).Get(w), c.rate.Get(w), c.maximum.Get(w), first + [Pass(n)])
            && b.limit.Get(w) == Final(old(b.limit).Get(w), c.rate.Get(w), c.maximum.Get(w), first + [Pass(n)])
  {
    hide Both.Get, Both.Set;
    var before := b.limit.Get(w);
    var k := TicksSince(tick, b.lastUpdated);
    if k > 0 {
      b.Refilled(w, k);
    }
    var m := GetMax(b, w, tick);
    n := if want < m then want else m;
    var c := b.cfg.value;
    if 0 < k <= INT_MAX {
      TickThenPass(before, c.rate.Get(w), c.maximum.Get(w), k, n);
    } else {
      OnePass(before, c.rate.Get(w), c.maximum.Get(w), n);
      assert [] + [Pass(n)] == [Pass(n)];
    }
    hide Final, IsRun;
    b.DecrementOwn(w, n);
  }

  /** Somebody asks at `tick` to let `want` bytes through. */
  datatype Ask = Ask(tick: nat, want: nat)

  /** The ticks that count between a last update and the last of the asks. */
  function Elapsed(last: nat, asks: seq<Ask>): (k: nat)
    decreases |asks|
  {
    if asks == [] then 0
    else
      var k := TicksSince(asks[0].tick, last);
      (if 0 < k <= INT_MAX then k else 0) + Elapsed(Updated(last, asks[0].tick), asks[1..])
  }

  /** What one ask and its refill do to the bucket and to what has gone through. */
  lemma StepBound(limit: int, rate: nat, maximum: nat, k: nat, n: nat)
    requires 0 <= limit <= maximum < TWO_63
    requires var events := (if 0 < k <= INT_MAX then [Ticks(k)] else []) + [Pass(n)]; IsRun(limit, rate, maximum, events)
    ensures var events := (if 0 < k <= INT_MAX then [Ticks(k)] else []) + [Pass(n)];
            && 0 <= Final(limit, rate, maximum, events) <= maximum
            && n + Final(limit, rate, maximum, events) <= limit + (if 0 < k <= INT_MAX then k else 0) * rate
  {
    var events := (if 0 < k <= INT_MAX then [Ticks(k)] else []) + [Pass(n)];
    BucketBound(limit, rate, maximum, events);
    hide Final, IsRun;
    PassedOne(n);
    if 0 < k <= INT_MAX {
      assert events[0] == Ticks(k) && events[1..] == [Pass(n)];
    } else {
      assert events == [Pass(n)];
    }
  }

  lemma PassedOne(n: nat)
    ensures Passed([Pass(n)]) == n && Ticked([Pass(n)]) == 0
  {
    assert [Pass(n)][1..] == [];
  }

  /** Any sequence of asks: what goes through in all is no more than a full bucket and the rate for
      every tick that has passed. */
  method PassAll(b: Bev, w: bool, asks: seq<Ask>) returns (passed: seq<nat>)
    requires b.Valid() && b.group == null && b.cfg.Some? && 0 <= b.limit.Get(w)
    modifies b
    ensures b.Valid() && b.group == null && b.cfg == old(b.cfg) && 0 <= b.limit.Get(w) <= b.cfg.value.maximum.Get(w)
    ensures |passed| == |asks| && forall i :: 0 <= i < |asks| ==> passed[i] <= asks[i].want
    ensures Sum(passed) + b.limit.Get(w)
            <= old(b.limit.Get(w)) + Elapsed(old(b.lastUpdated), asks) * b.cfg.value.rate.Get(w)
    ensures Sum(passed) <= b.cfg.value.maximum.Get(w) + Elapsed(old(b.lastUpdated), asks) * b.cfg.value.rate.Get(w)
  {
    hide Final, IsRun, Elapsed, Sum;
    passed := [];
    ghost var c, start, spent := b.cfg.value, b.limit.Get(w), 0;
    NothingPassed(b.lastUpdated, asks);
    for i := 0 to |asks|
      invariant b.Valid() && b.group == null && b.cfg == old(b.cfg) && 0 <= b.limit.Get(w)
      invariant |passed| == i && forall j :: 0 <= j < i ==> passed[j] <= asks[j].want
      invariant spent >= 0 && spent + Elapsed(b.lastUpdated, asks[i..]) == Elapsed(old(b.lastUpdated), asks)
      invariant Sum(passed) + b.limit.Get(w) <= start + spent * c.rate.Get(w)
    {
      ghost var limit, k := b.limit.Get(w), TicksSince(asks[i].tick, b.lastUpdated);
      ghost var more := if 0 < k <= INT_MAX then k else 0;
      AskNext(b.lastUpdated, asks, i);
      var n := PassSome(b, w, asks[i].tick, asks[i].want);
      StepBound(limit, c.rate.Get(w), c.maximum.Get(w), k, n);
      SumSnoc(passed, n);
      Distribute(spent, more, c.rate.Get(w));
      passed, spent := passed + [n], spent + more;
    }
    AllAsked(b.lastUpdated, asks);
  }

  lemma NothingPassed(last: nat, asks: seq<Ask>)
    ensures Sum([]) == 0 && asks[0..] == asks
  {
  }

  lemma AllAsked(last: nat, asks: seq<Ask>)
    ensures Elapsed(last, asks[|asks|..]) == 0
  {
  }

  lemma AskNext(last: nat, asks: seq<Ask>, i: nat)
    requires i < |asks|
    ensures var k := TicksSince(asks[i].tick, last);
            Elapsed(last, asks[i..])
            == (if 0 < k <= INT_MAX then k else 0) + Elapsed(Updated(last, asks[i].tick), asks[i + 1..])
  {
    assert asks[i..][1..] == asks[i + 1..];
  }

  lemma SumSnoc(s: seq<nat>, n: nat)
    ensures Sum(s + [n]) == Sum(s) + n
  {
    assert (s + [n])[..|s|] == s;
  }
}

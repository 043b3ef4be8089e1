/**
  The order in which the resolver sends its requests, apart from the lists that hold them.

  A request is in flight, or it waits in line, or it is over. `Next` says what one step of the
  resolver does to these groups; the lemmas below are about all runs of such steps.
*/
module RequestFlow {
  import opened Common

  /** `flying` are the requests sent to a server, `queue` those waiting, oldest first. */
  datatype View<T> = View(flying: set<T>, queue: seq<T>, limit: int)

  /** A probe of a server is sent at once, whatever the limit. `Finish` ends or cancels a request. */
  datatype Step<T> = Submit(r: T) | Probe(r: T) | Finish(r: T)

  ghost predicate Sound<T>(v: View<T>) {
    Distinct(v.queue) && forall r :: r in v.queue ==> r !in v.flying
  }

  /** Nobody waits while there is room. */
  predicate Saturated<T>(v: View<T>) {
    v.queue != [] ==> |v.flying| >= v.limit
  }

  function Elems<T>(s: seq<T>): set<T> {
    set r | r in s
  }

  function Outstanding<T>(v: View<T>): set<T> {
    v.flying + Elems(v.queue)
  }

  function Without<T(==)>(s: seq<T>, r: T): seq<T> {
    if s == [] then [] else (if s[0] == r then [] else [s[0]]) + Without(s[1..], r)
  }

  /** The members of `s` outside `gone`, in the same order. */
  function Keep<T(==)>(s: seq<T>, gone: set<T>): seq<T> {
    if s == [] then [] else (if s[0] in gone then [] else [s[0]]) + Keep(s[1..], gone)
  }

  /** Moves the head of the line into flight while there is room. */
  function Pump<T(==)>(v: View<T>): View<T>
    decreases |v.queue|
  {
    if |v.flying| < v.limit && v.queue != []
    then Pump(View(v.flying + {v.queue[0]}, v.queue[1..], v.limit))
    else v
  }

  function Drop<T(==)>(v: View<T>, r: T): View<T> {
    if r in v.flying then v.(flying := v.flying - {r}) else v.(queue := Without(v.queue, r))
  }

  function Next<T(==)>(v: View<T>, s: Step<T>): View<T> {
    match s
    case Submit(r) =>
      if |v.flying| < v.limit then v.(flying := v.flying + {r}) else v.(queue := v.queue + [r])
    case Probe(r) => v.(flying := v.flying + {r})
    case Finish(r) => Pump(Drop(v, r))
  }

  /** How many of the waiting requests there is room for. */
  function Room<T>(v: View<T>): nat {
    if v.limit <= |v.flying| then 0
    else if |v.queue| <= v.limit - |v.flying| then |v.queue|
    else v.limit - |v.flying|
  }

  /** The pump takes the oldest waiting requests, as many as fit, and then nobody waits needlessly. */
  lemma TakeOne<T>(f: set<T>, q: seq<T>, k: nat)
    requires 0 < k <= |q|
    ensures f + Elems(q[..k]) == f + {q[0]} + Elems(q[1..][..k - 1])
    ensures q[k..] == q[1..][k - 1..]
  {
    assert q[..k] == [q[0]] + q[1..][..k - 1];
    ElemsAppend([q[0]], q[1..][..k - 1]);
    assert Elems([q[0]]) == {q[0]};
  }

  lemma {:induction false} PumpExact<T>(v: View<T>)
    requires Sound(v)
    ensures Pump(v) == View(v.flying + Elems(v.queue[..Room(v)]), v.queue[Room(v)..], v.limit)
    ensures Sound(Pump(v)) && Saturated(Pump(v))
    decreases |v.queue|
  {
    if |v.flying| < v.limit && v.queue != [] {
      var w := View(v.flying + {v.queue[0]}, v.queue[1..], v.limit);
      PumpExact(w);
      assert Room(v) == Room(w) + 1;
      TakeOne(v.flying, v.queue, Room(v));
    } else {
      assert v.flying + Elems(v.queue[..0]) == v.flying;
    }
  }

  lemma {:induction false} WithoutElems<T>(s: seq<T>, r: T)
    ensures forall x :: x in Without(s, r) <==> x in s && x != r
    ensures r !in s ==> Without(s, r) == s
  {
    if s != [] {
      WithoutElems(s[1..], r);
      assert s == [s[0]] + s[1..];
    }
  }

  lemma Assoc<T>(a: seq<T>, b: seq<T>, c: seq<T>)
    ensures (a + b) + c == a + (b + c)
  {
  }

  lemma {:induction false} WithoutAppend<T>(s: seq<T>, t: seq<T>, r: T)
    ensures Without(s + t, r) == Without(s, r) + Without(t, r)
  {
    if s == [] {
      assert s + t == t;
    } else {
      WithoutAppend(s[1..], t, r);
      assert (s + t)[1..] == s[1..] + t && (s + t)[0] == s[0];
      Assoc(if s[0] == r then [] else [s[0]], Without(s[1..], r), Without(t, r));
    }
  }

  lemma DistinctCut<T>(s: seq<T>, i: nat)
    requires i < |s| && Distinct(s)
    ensures Distinct(s[..i] + s[i + 1..]) && s[i] !in s[..i] && s[i] !in s[i + 1..]
  {
  }

  lemma Around<T>(s: seq<T>, i: nat)
    requires i < |s|
    ensures s == s[..i] + ([s[i]] + s[i + 1..])
  {
  }

  lemma WithoutOne<T>(r: T, b: seq<T>)
    requires r !in b
    ensures Without([r] + b, r) == b
  {
    WithoutElems(b, r);
    assert ([r] + b)[1..] == b;
  }

  lemma WithoutMiddle<T>(a: seq<T>, r: T, b: seq<T>)
    requires r !in a && r !in b
    ensures Without(a + ([r] + b), r) == a + b
  {
    hide Without;
    WithoutOne(r, b);
    WithoutElems(a, r);
    WithoutAppend(a, [r] + b, r);
  }

  /** Taking one entry out of a list without repetitions. */
  lemma WithoutAt<T>(s: seq<T>, i: nat)
    requires i < |s| && Distinct(s)
    ensures Without(s, s[i]) == s[..i] + s[i + 1..] && Distinct(Without(s, s[i]))
  {
    hide Without, Distinct;
    DistinctCut(s, i);
    Around(s, i);
    WithoutMiddle(s[..i], s[i], s[i + 1..]);
  }

  lemma {:induction false} KeepAppend<T>(s: seq<T>, t: seq<T>, gone: set<T>)
    ensures Keep(s + t, gone) == Keep(s, gone) + Keep(t, gone)
  {
    if s == [] {
      assert s + t == t;
    } else {
      KeepAppend(s[1..], t, gone);
      assert (s + t)[1..] == s[1..] + t && (s + t)[0] == s[0];
      Assoc(if s[0] in gone then [] else [s[0]], Keep(s[1..], gone), Keep(t, gone));
    }
  }

  lemma {:induction false} KeepAll<T>(s: seq<T>, gone: set<T>)
    requires forall r :: r in s ==> r !in gone
    ensures Keep(s, gone) == s
  {
    if s != [] {
      KeepAll(s[1..], gone);
    }
  }

  lemma {:induction false} KeepWithout<T>(s: seq<T>, gone: set<T>, r: T)
    ensures Keep(s, gone + {r}) == Keep(Without(s, r), gone)
  {
    if s != [] {
      KeepWithout(s[1..], gone, r);
      if s[0] != r {
        var w := Without(s, r);
        assert w == [s[0]] + Without(s[1..], r);
        assert w[0] == s[0] && w[1..] == Without(s[1..], r);
      } else {
        assert Without(s, r) == Without(s[1..], r);
        assert Keep(s, gone + {r}) == Keep(s[1..], gone + {r});
      }
    }
  }

  lemma ElemsAppend<T>(s: seq<T>, t: seq<T>)
    ensures Elems(s + t) == Elems(s) + Elems(t)
  {
  }

  /** The pump moves requests; it neither drops nor adds any. */
  lemma PumpKeeps<T>(v: View<T>)
    requires Sound(v)
    ensures Outstanding(Pump(v)) == Outstanding(v)
    ensures Sound(Pump(v)) && Saturated(Pump(v)) && Pump(v).limit == v.limit
  {
    hide Elems, Sound, Saturated, Pump;
    PumpExact(v);
    var k := Room(v);
    assert Outstanding(Pump(v)) == v.flying + Elems(v.queue[..k]) + Elems(v.queue[k..]);
    ElemsAppend(v.queue[..k], v.queue[k..]);
    assert v.queue == v.queue[..k] + v.queue[k..];
  }

  lemma DropSound<T>(v: View<T>, r: T)
    requires Sound(v) && (r in v.flying || r in v.queue)
    ensures Sound(Drop(v, r))
    ensures Outstanding(Drop(v, r)) == Outstanding(v) - {r}
  {
    if r !in v.flying {
      var i :| 0 <= i < |v.queue| && v.queue[i] == r;
      WithoutAt(v.queue, i);
      WithoutElems(v.queue, r);
    }
  }

  // ---- Runs -----------------------------------------------------------------------------------

  function Play<T(==)>(v: View<T>, steps: seq<Step<T>>): View<T>
    decreases |steps|
  {
    if steps == [] then v else Play(Next(v, steps[0]), steps[1..])
  }

  function Seen<T>(used: set<T>, s: Step<T>): set<T> {
    if s.Finish? then used else used + {s.r}
  }

  ghost predicate Known<T>(v: View<T>, used: set<T>) {
    Outstanding(v) <= used
  }

  /** A request is new when it comes in, and outstanding when it ends; `used` were seen before. */
  predicate Admits<T(==)>(v: View<T>, s: Step<T>, used: set<T>) {
    if s.Finish? then s.r in v.flying || s.r in v.queue else s.r !in used
  }

  predicate Legal<T(==)>(v: View<T>, steps: seq<Step<T>>, used: set<T>)
    decreases |steps|
  {
    steps == [] ||
    (Admits(v, steps[0], used) && Legal(Next(v, steps[0]), steps[1..], Seen(used, steps[0])))
  }

  function Submitted<T>(steps: seq<Step<T>>): seq<T> {
    if steps == [] then []
    else (if steps[0].Submit? then [steps[0].r] else []) + Submitted(steps[1..])
  }

  function Probed<T>(steps: seq<Step<T>>): set<T> {
    if steps == [] then {}
    else (if steps[0].Probe? then {steps[0].r} else {}) + Probed(steps[1..])
  }

  function Finished<T>(steps: seq<Step<T>>): set<T> {
    if steps == [] then {}
    else (if steps[0].Finish? then {steps[0].r} else {}) + Finished(steps[1..])
  }

  /** The requests one step sends, in the order of sending, apart from probes. */
  function Starts<T(==)>(v: View<T>, s: Step<T>): seq<T> {
    match s
    case Submit(r) => if |v.flying| < v.limit then [r] else []
    case Probe(_) => []
    case Finish(r) => Drop(v, r).queue[..Room(Drop(v, r))]
  }

  function Started<T(==)>(v: View<T>, steps: seq<Step<T>>): seq<T>
    decreases |steps|
  {
    if steps == [] then [] else Starts(v, steps[0]) + Started(Next(v, steps[0]), steps[1..])
  }

  /** The requests that end while still in line. */
  function GivenUp<T(==)>(v: View<T>, steps: seq<Step<T>>): set<T>
    decreases |steps|
  {
    if steps == [] then {}
    else (if steps[0].Finish? && steps[0].r !in v.flying then {steps[0].r} else {})
         + GivenUp(Next(v, steps[0]), steps[1..])
  }

  /** One step keeps the groups apart and leaves nobody waiting needlessly. */
  lemma StepKeeps<T>(v: View<T>, s: Step<T>, used: set<T>)
    requires Sound(v) && Known(v, used)
    requires Admits(v, s, used)
    ensures Sound(Next(v, s)) && Known(Next(v, s), Seen(used, s))
    ensures Saturated(v) || s.Finish? ==> Saturated(Next(v, s))
    ensures Next(v, s).limit == v.limit
    ensures Outstanding(Next(v, s)) == if s.Finish? then Outstanding(v) - {s.r} else Outstanding(v) + {s.r}
  {
    hide Sound, Saturated, Elems, Pump, Without;
    if s.Finish? {
      DropSound(v, s.r);
      PumpKeeps(Drop(v, s.r));
    } else {
      NotUsed(v, s.r, used);
      if s.Submit? && |v.flying| >= v.limit {
        JoinsQueue(v, s.r);
      } else {
        Departs(v, s.r);
      }
    }
  }

  lemma NotUsed<T>(v: View<T>, r: T, used: set<T>)
    requires Known(v, used) && r !in used
    ensures r !in v.flying && r !in v.queue
  {
    assert r !in Elems(v.queue);
  }

  lemma JoinsQueue<T>(v: View<T>, r: T)
    requires Sound(v) && r !in v.flying && r !in v.queue
    ensures var w := v.(queue := v.queue + [r]);
      Sound(w) && Outstanding(w) == Outstanding(v) + {r} && (|v.flying| >= v.limit ==> Saturated(w))
  {
    ElemsAppend(v.queue, [r]);
    assert Elems([r]) == {r};
  }

  lemma Departs<T>(v: View<T>, r: T)
    requires Sound(v) && r !in v.flying && r !in v.queue
    ensures var w := v.(flying := v.flying + {r});
      Sound(w) && Outstanding(w) == Outstanding(v) + {r} && (Saturated(v) ==> Saturated(w))
  {
  }

  /** Over any run, nobody waits while there is room. */
  lemma {:induction false} AlwaysSaturated<T>(v: View<T>, steps: seq<Step<T>>, used: set<T>)
    requires Sound(v) && Known(v, used) && Saturated(v) && Legal(v, steps, used)
    ensures Sound(Play(v, steps)) && Saturated(Play(v, steps))
    decreases |steps|
  {
    if steps != [] {
      StepKeeps(v, steps[0], used);
      AlwaysSaturated(Next(v, steps[0]), steps[1..], Seen(used, steps[0]));
    }
  }

  lemma {:induction false} OnlyNewFinish<T>(v: View<T>, steps: seq<Step<T>>, used: set<T>, r: T)
    requires Sound(v) && Known(v, used) && Legal(v, steps, used)
    requires r in used && r !in v.flying && r !in v.queue
    ensures r !in Finished(steps)
    decreases |steps|
  {
    if steps != [] {
      var w := Next(v, steps[0]);
      StepKeeps(v, steps[0], used);
      assert r !in Outstanding(w);
      OnlyNewFinish(w, steps[1..], Seen(used, steps[0]), r);
    }
  }

  /** Nothing is lost or invented: what is outstanding is what came in and has not ended. */
  lemma {:induction false} Conserved<T>(v: View<T>, steps: seq<Step<T>>, used: set<T>)
    requires Sound(v) && Known(v, used) && Legal(v, steps, used)
    ensures Outstanding(Play(v, steps))
         == Outstanding(v) + Elems(Submitted(steps)) + Probed(steps) - Finished(steps)
    decreases |steps|
  {
    if steps == [] {
      assert Elems(Submitted(steps)) == {};
    } else {
      var s, w, rest := steps[0], Next(v, steps[0]), steps[1..];
      var seen := Seen(used, s);
      StepKeeps(v, s, used);
      Conserved(w, rest, seen);
      ElemsSubmitted(steps);
      NewLater(w, rest, seen);
      assert s.Finish? ==> s.r in used && s.r !in Elems(Submitted(rest)) && s.r !in Probed(rest);
      var p, f := Probed(steps), Finished(steps);
      assert p == (if s.Probe? then {s.r} else {}) + Probed(rest);
      assert f == (if s.Finish? then {s.r} else {}) + Finished(rest);
      var end := Outstanding(Play(v, steps));
      assert end == Outstanding(Play(w, rest));
      ConservedStep(s, Outstanding(v), Elems(Submitted(rest)), Probed(rest), Finished(rest), end);
    }
  }

  lemma ConservedStep<T>(s: Step<T>, o: set<T>, subs: set<T>, probes: set<T>, ends: set<T>, end: set<T>)
    requires end == (if s.Finish? then o - {s.r} else o + {s.r}) + subs + probes - ends
    requires s.Finish? ==> s.r !in subs && s.r !in probes
    ensures end == o + ((if s.Submit? then {s.r} else {}) + subs)
                     + ((if s.Probe? then {s.r} else {}) + probes)
                     - ((if s.Finish? then {s.r} else {}) + ends)
  {
  }

  lemma ElemsSubmitted<T>(steps: seq<Step<T>>)
    requires steps != []
    ensures Elems(Submitted(steps))
         == (if steps[0].Submit? then {steps[0].r} else {}) + Elems(Submitted(steps[1..]))
  {
    if steps[0].Submit? {
      ElemsAppend([steps[0].r], Submitted(steps[1..]));
      assert Elems([steps[0].r]) == {steps[0].r};
    }
  }

  lemma {:induction false} NewLater<T>(v: View<T>, steps: seq<Step<T>>, used: set<T>)
    requires Legal(v, steps, used)
    ensures forall r :: r in used ==> r !in Submitted(steps) && r !in Probed(steps)
    decreases |steps|
  {
    if steps != [] {
      NewLater(Next(v, steps[0]), steps[1..], Seen(used, steps[0]));
    }
  }

  /** A request in flight never gives up its place in line: it has none. */
  lemma {:induction false} FlyingNotGivenUp<T>(v: View<T>, steps: seq<Step<T>>, used: set<T>)
    requires Sound(v) && Known(v, used) && Legal(v, steps, used)
    ensures forall r :: r in GivenUp(v, steps) ==> r in v.queue || r !in used
    decreases |steps|
  {
    if steps != [] {
      var s, w := steps[0], Next(v, steps[0]);
      StepKeeps(v, s, used);
      FlyingNotGivenUp(w, steps[1..], Seen(used, s));
      forall r | r in GivenUp(w, steps[1..]) ensures r in v.queue || r !in used {
        if s.Finish? {
          assert r in w.queue ==> r in v.queue by {
            DropSound(v, s.r);
            PumpExact(Drop(v, s.r));
            WithoutElems(v.queue, s.r);
          }
        }
      }
    }
  }

  /**
    First in, first out over every run that starts with nobody waiting needlessly: the requests
    sent, followed by those still in line, are the ones that were in line followed by the ones
    submitted, less those that ended in line. Order is kept and none is skipped.
  */
  lemma {:induction false} FirstInFirstOut<T>(v: View<T>, steps: seq<Step<T>>, used: set<T>)
    requires Sound(v) && Known(v, used) && Saturated(v) && Legal(v, steps, used)
    ensures Started(v, steps) + Play(v, steps).queue
         == Keep(v.queue + Submitted(steps), GivenUp(v, steps))
    decreases |steps|
  {
    if steps == [] {
      NobodyMoves(v, steps);
    } else {
      var w, rest := Next(v, steps[0]), steps[1..];
      hide Sound, Known, Saturated, Keep, Elems, Outstanding, Pump, Starts;
      StepKeeps(v, steps[0], used);
      FirstInFirstOut(w, rest, Seen(used, steps[0]));
      StepInOrder(v, steps, used);
      assert Started(v, steps) == Starts(v, steps[0]) + Started(w, rest);
      assert Play(v, steps) == Play(w, rest);
      Assoc(Starts(v, steps[0]), Started(w, rest), Play(w, rest).queue);
    }
  }

  lemma NobodyMoves<T>(v: View<T>, steps: seq<Step<T>>)
    requires steps == []
    ensures Started(v, steps) + Play(v, steps).queue == Keep(v.queue + Submitted(steps), GivenUp(v, steps))
  {
    assert v.queue + Submitted(steps) == v.queue;
    KeepAll(v.queue, GivenUp(v, steps));
  }

  lemma StepInOrder<T>(v: View<T>, steps: seq<Step<T>>, used: set<T>)
    requires steps != [] && Sound(v) && Known(v, used) && Saturated(v) && Legal(v, steps, used)
    ensures var w := Next(v, steps[0]);
      Starts(v, steps[0]) + Keep(w.queue + Submitted(steps[1..]), GivenUp(w, steps[1..]))
      == Keep(v.queue + Submitted(steps), GivenUp(v, steps))
  {
    hide Keep, Sound, Known, Saturated, Starts;
    if steps[0].Finish? {
      FinishStep(v, steps, used);
    } else {
      ArriveStep(v, steps, used);
    }
  }

  lemma FinishStep<T>(v: View<T>, steps: seq<Step<T>>, used: set<T>)
    requires steps != [] && Sound(v) && Known(v, used) && Saturated(v) && Legal(v, steps, used)
    requires steps[0].Finish?
    ensures var w := Next(v, steps[0]);
      Starts(v, steps[0]) + Keep(w.queue + Submitted(steps[1..]), GivenUp(w, steps[1..]))
      == Keep(v.queue + Submitted(steps), GivenUp(v, steps))
  {
    var r, w, rest := steps[0].r, Next(v, steps[0]), steps[1..];
    var later, out, gone := Submitted(rest), GivenUp(w, rest), GivenUp(v, steps);
    assert steps[0] == Finish(r) && Submitted(steps) == later;
    assert gone == (if r in v.flying then {} else {r}) + out;
    assert Legal(w, rest, used) && (r in v.flying || r in v.queue);
    hide *;
    FinishLater(v, r, rest, used);
    FinishInOrder(v, r, later, out, gone);
  }

  lemma ArriveStep<T>(v: View<T>, steps: seq<Step<T>>, used: set<T>)
    requires steps != [] && Sound(v) && Known(v, used) && Saturated(v) && Legal(v, steps, used)
    requires !steps[0].Finish?
    ensures var w := Next(v, steps[0]);
      Starts(v, steps[0]) + Keep(w.queue + Submitted(steps[1..]), GivenUp(w, steps[1..]))
      == Keep(v.queue + Submitted(steps), GivenUp(v, steps))
  {
    var s, w, rest := steps[0], Next(v, steps[0]), steps[1..];
    var later, out := Submitted(rest), GivenUp(w, rest);
    assert GivenUp(v, steps) == out;
    assert Submitted(steps) == (if s.Submit? then [s.r] else []) + later;
    assert Admits(v, s, used) && Legal(w, rest, Seen(used, s));
    StepKeeps(v, s, used);
    assert s.r in Seen(used, s) && (s.r in w.flying ==> s.r !in w.queue);
    hide *;
    FlyingNotGivenUp(w, rest, Seen(used, s));
    ArriveInOrder(v, s, later, out);
  }

  lemma ArriveInOrder<T>(v: View<T>, s: Step<T>, later: seq<T>, out: set<T>)
    requires Saturated(v) && !s.Finish?
    requires s.r in Next(v, s).flying ==> s.r !in out
    ensures Starts(v, s) + Keep(Next(v, s).queue + later, out)
         == Keep(v.queue + ((if s.Submit? then [s.r] else []) + later), out)
  {
    if s.Submit? && |v.flying| < v.limit {
      assert v.queue == [];
      KeepAppend([s.r], later, out);
      KeepAll([s.r], out);
      assert v.queue + ([s.r] + later) == [s.r] + later && v.queue + later == later;
    } else if s.Submit? {
      assert Starts(v, s) == [] && v.queue + [s.r] + later == v.queue + ([s.r] + later);
    } else {
      assert Starts(v, s) == [] && [] + later == later;
    }
  }

  lemma FinishLater<T>(v: View<T>, r: T, rest: seq<Step<T>>, used: set<T>)
    requires Sound(v) && Known(v, used) && (r in v.flying || r in v.queue)
    requires Legal(Next(v, Finish(r)), rest, used)
    ensures r !in Submitted(rest)
    ensures forall x :: x in GivenUp(Next(v, Finish(r)), rest) ==> x !in Next(v, Finish(r)).flying
  {
    var w := Next(v, Finish(r));
    StepKeeps(v, Finish(r), used);
    NewLater(w, rest, used);
    FlyingNotGivenUp(w, rest, used);
    assert r in used by { assert r in Outstanding(v); }
    assert w.flying <= used;
  }

  lemma FinishInOrder<T>(v: View<T>, r: T, later: seq<T>, out: set<T>, gone: set<T>)
    requires Sound(v) && Saturated(v) && (r in v.flying || (r in v.queue && r !in later))
    requires forall x :: x in out ==> x !in Next(v, Finish(r)).flying
    requires gone == (if r in v.flying then {} else {r}) + out
    ensures Starts(v, Finish(r)) + Keep(Next(v, Finish(r)).queue + later, out) == Keep(v.queue + later, gone)
  {
    var w := Drop(v, r);
    DropSound(v, r);
    PumpExact(w);
    var q, k := w.queue, Room(w);
    assert Starts(v, Finish(r)) == q[..k] && Next(v, Finish(r)).queue == q[k..];
    if r in v.flying {
      assert forall x :: x in q[..k] ==> x in Pump(w).flying;
      SentInOrder(q, k, later, out);
      assert gone == out;
    } else {
      assert k == 0 && q == Without(v.queue, r) && gone == out + {r};
      GivenUpInOrder(v.queue, r, later, out);
    }
  }

  lemma SentInOrder<T>(q: seq<T>, k: nat, later: seq<T>, out: set<T>)
    requires k <= |q| && forall x :: x in q[..k] ==> x !in out
    ensures q[..k] + Keep(q[k..] + later, out) == Keep(q + later, out)
  {
    KeepAll(q[..k], out);
    KeepAppend(q[..k], q[k..] + later, out);
    assert q + later == q[..k] + (q[k..] + later);
  }

  lemma GivenUpInOrder<T>(q: seq<T>, r: T, later: seq<T>, out: set<T>)
    requires r !in later
    ensures Without(q, r)[..0] + Keep(Without(q, r)[0..] + later, out) == Keep(q + later, out + {r})
  {
    KeepWithout(q + later, out, r);
    WithoutAppend(q, later, r);
    WithoutElems(later, r);
    hide *;
    assert Without(q, r)[..0] == [] && Without(q, r)[0..] == Without(q, r);
  }

  /** Without probes the limit on requests in flight is never exceeded. */
  lemma {:induction false} LimitKept<T>(v: View<T>, steps: seq<Step<T>>, used: set<T>)
    requires Sound(v) && Known(v, used) && Legal(v, steps, used)
    requires |v.flying| <= v.limit && Probed(steps) == {}
    ensures |Play(v, steps).flying| <= v.limit
    decreases |steps|
  {
    if steps != [] {
      var s, w := steps[0], Next(v, steps[0]);
      StepKeeps(v, s, used);
      assert !s.Probe? by {
        assert s.Probe? ==> s.r in Probed(steps);
      }
      assert |w.flying| <= v.limit by {
        if s.Finish? {
          DropSound(v, s.r);
          PumpFits(Drop(v, s.r));
        }
      }
      LimitKept(w, steps[1..], Seen(used, s));
    }
  }

  lemma {:induction false} PumpFits<T>(v: View<T>)
    requires Sound(v)
    ensures |v.flying| <= v.limit ==> |Pump(v).flying| <= v.limit
    decreases |v.queue|
  {
    if |v.flying| < v.limit && v.queue != [] {
      PumpFits(View(v.flying + {v.queue[0]}, v.queue[1..], v.limit));
    }
  }
}

/**
  Running active events: strict priority between the queues, first come first served within one.

  What callbacks do is a script, one list of actions for each callback that runs; every statement
  here is about all scripts. A callback after the end of the script does nothing.
*/
module Dispatch {
  class Event {
    const pri: nat
    /** The loop's own events; they have priority 0. */
    const internal: bool
    var active: bool

    constructor (pri: nat, internal: bool)
      requires internal ==> pri == 0
      ensures this.pri == pri && this.internal == internal && !active
    {
      this.pri, this.internal, active := pri, internal, false;
    }
  }

  datatype Action = Activate(ev: Event) | Delete(ev: Event) | Break

  /** A callback that began: for which activation, and whether no event of a smaller number was active. */
  datatype Start = Start(ev: Event, stamp: nat, lowest: bool)

  /** What became of an activation. */
  datatype Fate = Waiting(ev: Event) | Ran(at: nat) | Dropped

  type Queues = seq<seq<Event>>

  // ---- What holds of queues, activations and starts -------------------------------------------

  /** `stamps` are the active events, each with the number of its activation. */
  ghost predicate Queued(queues: Queues, stamps: map<Event, nat>) {
    && (forall q, i :: 0 <= q < |queues| && 0 <= i < |queues[q]| ==>
          queues[q][i] in stamps && queues[q][i].pri == q)
    && (forall e :: e in stamps ==> e.pri < |queues| && e in queues[e.pri])
  }

  /** Events stand in their queue in the order of their activations. */
  ghost predicate InOrder(queue: seq<Event>, stamps: map<Event, nat>) {
    && (forall e :: e in queue ==> e in stamps)
    && (forall i, j :: 0 <= i < j < |queue| ==> stamps[queue[i]] < stamps[queue[j]])
  }

  /** Every activation waits, or was started once, or was dropped. */
  ghost predicate Accounted(stamps: map<Event, nat>, fates: seq<Fate>, log: seq<Start>) {
    && (forall e :: e in stamps ==> stamps[e] < |fates| && fates[stamps[e]] == Waiting(e))
    && (forall s :: 0 <= s < |fates| && fates[s].Waiting? ==> fates[s].ev in stamps && stamps[fates[s].ev] == s)
    && (forall k :: 0 <= k < |log| ==> log[k].stamp < |fates| && fates[log[k].stamp] == Ran(k))
    && (forall s :: 0 <= s < |fates| && fates[s].Ran? ==> fates[s].at < |log| && log[fates[s].at].stamp == s)
  }

  /**
    No callback began while an event of a smaller number was active, and callbacks of one priority
    began in the order of their activations, which are before those of the events still active.
  */
  ghost predicate Fair(stamps: map<Event, nat>, log: seq<Start>) {
    && (forall k :: 0 <= k < |log| ==> log[k].lowest)
    && (forall k, m :: 0 <= k < m < |log| && log[k].ev.pri == log[m].ev.pri ==> log[k].stamp < log[m].stamp)
    && (forall k, e :: 0 <= k < |log| && e in stamps && e.pri == log[k].ev.pri ==> log[k].stamp < stamps[e])
  }

  ghost predicate Sound(queues: Queues, stamps: map<Event, nat>, fates: seq<Fate>, log: seq<Start>) {
    && Queued(queues, stamps)
    && (forall q :: 0 <= q < |queues| ==> InOrder(queues[q], stamps))
    && Accounted(stamps, fates, log)
    && Fair(stamps, log)
  }

  /** No event with a number below `p` is active. */
  ghost predicate NoneBelow(queues: Queues, p: int) {
    forall q :: 0 <= q < p && q < |queues| ==> queues[q] == []
  }

  // ---- One more, one less ---------------------------------------------------------------------

  lemma Enter(queues: Queues, stamps: map<Event, nat>, fates: seq<Fate>, log: seq<Start>, ev: Event)
    requires Sound(queues, stamps, fates, log) && ev !in stamps && ev.pri < |queues|
    ensures Sound(queues[ev.pri := queues[ev.pri] + [ev]], stamps[ev := |fates|], fates + [Waiting(ev)], log)
  {
    var p := ev.pri;
    var longer, more := queues[p] + [ev], stamps[ev := |fates|];
    var rest := queues[p := longer];
    forall q | 0 <= q < |rest| ensures InOrder(rest[q], more) {
      assert InOrder(queues[q], stamps);
      assert forall e :: e in queues[q] ==> e != ev;
    }
    forall e | e in more ensures e.pri < |rest| && e in rest[e.pri] {
      if e == ev {
        assert longer[|queues[p]|] == ev;
      }
    }
  }

  /** `queues` without the entry at `i` of the queue of `ev`. */
  function Leave(queues: Queues, p: nat, i: nat): (rest: Queues)
    requires p < |queues| && i < |queues[p]|
    ensures |rest| == |queues|
  {
    queues[p := queues[p][..i] + queues[p][i + 1..]]
  }

  lemma LeaveQueued(queues: Queues, stamps: map<Event, nat>, ev: Event, i: nat)
    requires Queued(queues, stamps) && forall q :: 0 <= q < |queues| ==> InOrder(queues[q], stamps)
    requires ev in stamps && i < |queues[ev.pri]| && queues[ev.pri][i] == ev
    ensures Queued(Leave(queues, ev.pri, i), stamps - {ev})
    ensures forall q :: 0 <= q < |queues| ==> InOrder(Leave(queues, ev.pri, i)[q], stamps - {ev})
  {
    var p := ev.pri;
    var queue, less, rest := queues[p], stamps - {ev}, Leave(queues, p, i);
    assert InOrder(queue, stamps);
    ShorterInOrder(queue, stamps, ev, i);
    hide InOrder;
    assert forall q :: 0 <= q < |queues| && q != p ==> ev !in queues[q];
    forall q | 0 <= q < |queues| && q != p ensures InOrder(rest[q], less) {
      assert InOrder(queues[q], stamps);
      OthersInOrder(queues[q], stamps, ev);
    }
  }

  lemma ShorterInOrder(queue: seq<Event>, stamps: map<Event, nat>, ev: Event, i: nat)
    requires InOrder(queue, stamps) && i < |queue| && queue[i] == ev
    ensures InOrder(queue[..i] + queue[i + 1..], stamps - {ev})
    ensures forall e :: e in queue && e != ev ==> e in queue[..i] + queue[i + 1..]
  {
    var shorter := queue[..i] + queue[i + 1..];
    assert forall k :: 0 <= k < |shorter| ==> shorter[k] == queue[if k < i then k else k + 1];
    forall e | e in queue && e != ev ensures e in shorter {
      var k :| 0 <= k < |queue| && queue[k] == e;
      assert shorter[if k < i then k else k - 1] == e;
    }
  }

  lemma OthersInOrder(queue: seq<Event>, stamps: map<Event, nat>, ev: Event)
    requires InOrder(queue, stamps) && ev !in queue
    ensures InOrder(queue, stamps - {ev})
  {
  }

  lemma DropSound(queues: Queues, stamps: map<Event, nat>, fates: seq<Fate>, log: seq<Start>, ev: Event, i: nat)
    requires Sound(queues, stamps, fates, log)
    requires ev in stamps && i < |queues[ev.pri]| && queues[ev.pri][i] == ev
    ensures Sound(Leave(queues, ev.pri, i), stamps - {ev}, fates[stamps[ev] := Dropped], log)
  {
    hide Queued, InOrder, Leave;
    LeaveQueued(queues, stamps, ev, i);
  }

  lemma BeginSound(queues: Queues, stamps: map<Event, nat>, fates: seq<Fate>, log: seq<Start>, p: nat)
    requires Sound(queues, stamps, fates, log) && p < |queues| && queues[p] != [] && NoneBelow(queues, p)
    ensures queues[p][0] in stamps && stamps[queues[p][0]] < |fates|
    ensures var ev := queues[p][0];
      Sound(queues[p := queues[p][1..]], stamps - {ev}, fates[stamps[ev] := Ran(|log|)],
            log + [Start(ev, stamps[ev], NoneBelow(queues, p))])
  {
    var ev := queues[p][0];
    assert InOrder(queues[p], stamps);
    FirstIsOldest(queues, stamps, p);
    LeaveQueued(queues, stamps, ev, 0);
    assert queues[p][..0] + queues[p][1..] == queues[p][1..];
    assert Leave(queues, p, 0) == queues[p := queues[p][1..]];
    hide Queued, InOrder, Leave;
    var s := stamps[ev];
    BeginAccounted(stamps, fates, log, ev, true);
    assert forall e :: e in stamps - {ev} && e.pri == p ==> s < stamps[e];
  }

  lemma FirstIsOldest(queues: Queues, stamps: map<Event, nat>, p: nat)
    requires Queued(queues, stamps) && p < |queues| && queues[p] != [] && InOrder(queues[p], stamps)
    ensures forall e :: e in stamps && e.pri == p && e != queues[p][0] ==> stamps[queues[p][0]] < stamps[e]
  {
    forall e | e in stamps && e.pri == p && e != queues[p][0]
      ensures stamps[queues[p][0]] < stamps[e]
    {
      var k :| 0 <= k < |queues[p]| && queues[p][k] == e;
    }
  }

  lemma BeginAccounted(stamps: map<Event, nat>, fates: seq<Fate>, log: seq<Start>, ev: Event, lowest: bool)
    requires Accounted(stamps, fates, log) && ev in stamps
    ensures Accounted(stamps - {ev}, fates[stamps[ev] := Ran(|log|)], log + [Start(ev, stamps[ev], lowest)])
  {
  }

  // ---- The loop -------------------------------------------------------------------------------

  class Base {
    var queues: Queues
    /** The priority being run, -1 outside of callbacks. */
    var running: int
    var continueFlag: bool
    var breakFlag: bool
    const script: seq<seq<Action>>
    var played: nat
    const events: set<Event>

    ghost var stamps: map<Event, nat>
    ghost var fates: seq<Fate>
    ghost var log: seq<Start>

    ghost predicate Scripted() {
      && (forall e :: e in events ==> e.internal ==> e.pri == 0)
      && (forall k :: 0 <= k < |script| ==> Known(script[k]))
    }

    ghost predicate Known(actions: seq<Action>) {
      forall i :: 0 <= i < |actions| && !actions[i].Break? ==> actions[i].ev in events
    }

    ghost predicate Valid()
      reads this, events
    {
      && Sound(queues, stamps, fates, log)
      && (forall e :: e in events ==> e.pri < |queues|)
      && (forall e :: e in stamps ==> e in events)
      && (forall e :: e in events ==> e.active == (e in stamps))
      && Scripted()
      && played <= |script|
    }

    constructor (n: nat, events: set<Event>, script: seq<seq<Action>>)
      requires forall e :: e in events ==> e.pri < n && !e.active && (e.internal ==> e.pri == 0)
      requires forall k, i :: 0 <= k < |script| && 0 <= i < |script[k]| && !script[k][i].Break? ==> script[k][i].ev in events
      ensures Valid() && running == -1 && log == [] && |queues| == n && NoneBelow(queues, n)
      ensures this.events == events && this.script == script
    {
      this.events, this.script, played := events, script, 0;
      queues := seq(n, _ => []);
      running, continueFlag, breakFlag := -1, false, false;
      stamps, fates, log := map[], [], [];
    }

    /**
      Puts an event at the end of its queue, unless it is active already. One that outranks the
      callback in progress tells the loop to start over.
    */
    method ActivateNow(ev: Event)
      requires Valid() && ev in events
      modifies this`queues, this`continueFlag, this`fates, this`stamps, ev`active
      ensures Valid() && ev.active
      ensures continueFlag == (old(continueFlag) || (!old(ev.active) && ev.pri < running))
      ensures queues == if old(ev.active) then old(queues) else old(queues)[ev.pri := old(queues[ev.pri]) + [ev]]
    {
      hide Sound;
      if ev.active {
        return;
      }
      if ev.pri < running {
        continueFlag := true;
      }
      Enter(queues, stamps, fates, log, ev);
      ev.active := true;
      stamps := stamps[ev := |fates|];
      fates := fates + [Waiting(ev)];
      queues := queues[ev.pri := queues[ev.pri] + [ev]];
    }

    method DeleteNow(ev: Event)
      requires Valid() && ev in events
      modifies this`queues, this`fates, this`stamps, ev`active
      ensures Valid() && !ev.active && |queues| == old(|queues|)
      ensures forall q :: 0 <= q < |queues| && q != ev.pri ==> queues[q] == old(queues[q])
      ensures !old(ev.active) ==> queues == old(queues)
      ensures old(ev.active) ==> var was := old(queues[ev.pri]);
                exists i :: 0 <= i < |was| && was[i] == ev && queues[ev.pri] == was[..i] + was[i + 1..]
    {
      if !ev.active {
        return;
      }
      var queue := queues[ev.pri];
      var i :| 0 <= i < |queue| && queue[i] == ev;
      DropSound(queues, stamps, fates, log, ev, i);
      fates := fates[stamps[ev] := Dropped];
      stamps := stamps - {ev};
      queues := queues[ev.pri := queue[..i] + queue[i + 1..]];
      ev.active := false;
    }

    /** The first event of a queue leaves it and its callback begins. */
    method Begin(p: nat) returns (ev: Event)
      requires Valid() && p < |queues| && queues[p] != [] && NoneBelow(queues, p)
      modifies this`queues, this`fates, this`stamps, this`log, events`active
      ensures Valid() && ev in events && ev.pri == p
      ensures ev == old(queues[p][0]) && queues == old(queues)[p := old(queues[p][1..])]
      ensures |log| == old(|log|) + 1 && log[..old(|log|)] == old(log) && log[old(|log|)].ev == ev
    {
      ev := queues[p][0];
      BeginSound(queues, stamps, fates, log, p);
      hide Sound;
      log := log + [Start(ev, stamps[ev], NoneBelow(queues, p))];
      fates := fates[stamps[ev] := Ran(|log| - 1)];
      stamps := stamps - {ev};
      queues := queues[p := queues[p][1..]];
      ev.active := false;
    }

    /** A callback does what the script says. */
    method Callback()
      requires Valid() && 0 <= running
      requires continueFlag || NoneBelow(queues, running)
      modifies this`queues, this`continueFlag, this`breakFlag, this`played, this`fates, this`stamps, events`active
      ensures Valid() && |queues| == old(|queues|)
      ensures continueFlag || NoneBelow(queues, running)
      ensures running == 0 && !old(continueFlag) ==> !continueFlag
      ensures if old(played) == |script| then played == old(played) && queues == old(queues)
              else played == old(played) + 1
    {
      hide Sound;
      if played == |script| {
        return;
      }
      var actions := script[played];
      played := played + 1;
      var i := 0;
      while i < |actions|
        invariant 0 <= i <= |actions| && Known(actions)
        invariant Valid() && |queues| == old(|queues|) && played == old(played) + 1
        invariant continueFlag || NoneBelow(queues, running)
        invariant running == 0 && !old(continueFlag) ==> !continueFlag
      {
        match actions[i] {
          case Activate(ev) => ActivateNow(ev);
          case Delete(ev) => DeleteNow(ev);
          case Break => breakFlag := true;
        }
        i := i + 1;
      }
    }

    /** Runs the events of one queue until it is empty, or a callback says to stop or start over. */
    method ProcessQueue(p: nat) returns (count: int)
      requires Valid() && p < |queues| && running == p && !continueFlag && NoneBelow(queues, p)
      modifies this`queues, this`continueFlag, this`breakFlag, this`played
      modifies this`fates, this`stamps, this`log, events`active
      ensures Valid() && |queues| == old(|queues|) && old(played) <= played
      ensures count >= -1 && (count == -1 <==> breakFlag && log != old(log))
      ensures old(log) <= log
      ensures count >= 0 && !continueFlag ==> NoneBelow(queues, p + 1)
      ensures count == 0 ==> !continueFlag
      ensures old(queues[p]) != [] ==> |log| > old(|log|) && log[old(|log|)].ev == old(queues[p][0])
    {
      hide Sound;
      count := 0;
      ghost var first, was := queues[p], log;
      while queues[p] != []
        invariant Valid() && |queues| == old(|queues|) && old(played) <= played <= |script|
        invariant !continueFlag && NoneBelow(queues, p)
        invariant count >= 0 && was <= log
        invariant log == was ==> queues[p] == first && count == 0
        invariant log != was ==> !breakFlag && |log| > |was| && first != [] && log[|was|].ev == first[0]
        invariant p > 0 && log != was ==> count > 0
        decreases |script| - played, |queues[p]|
      {
        ghost var now := log;
        var ev := Begin(p);
        assert |now| > |was| ==> log[|was|] == log[..|now|][|was|];
        if !ev.internal {
          count := count + 1;
        }
        Callback();
        if breakFlag {
          return -1;
        }
        if continueFlag {
          return;
        }
      }
    }

    /**
      Runs the first queue that has events, and goes on to the next only as long as all that ran
      were the loop's own events.
    */
    method ProcessActive() returns (count: int)
      requires Valid() && !continueFlag
      modifies this`queues, this`continueFlag, this`breakFlag, this`played, this`running
      modifies this`fates, this`stamps, this`log, events`active
      ensures Valid() && running == -1 && |queues| == old(|queues|) && old(played) <= played
      ensures old(log) <= log
      ensures log == old(log) <==> NoneBelow(old(queues), old(|queues|))
    {
      count := 0;
      var i := 0;
      while i < |queues|
        invariant 0 <= i <= |queues| == old(|queues|)
        invariant Valid() && old(log) <= log && old(played) <= played
        invariant !continueFlag && NoneBelow(queues, i)
        invariant log == old(log) ==> queues == old(queues)
        invariant log != old(log) ==> exists q :: 0 <= q < |old(queues)| && old(queues)[q] != []
      {
        if queues[i] != [] {
          running := i;
          count := ProcessQueue(i);
          if count < 0 {
            running := -1;
            return;
          } else if count > 0 {
            break;
          }
        }
        i := i + 1;
      }
      running := -1;
    }

    /**
      The event loop: in each round some events become active, by their descriptors, signals or
      times, and then active events run.
    */
    method Loop(rounds: seq<seq<Event>>)
      requires Valid() && running == -1
      requires forall k, i :: 0 <= k < |rounds| && 0 <= i < |rounds[k]| ==> rounds[k][i] in events
      modifies this`queues, this`continueFlag, this`breakFlag, this`played, this`running
      modifies this`fates, this`stamps, this`log, events`active
      ensures Valid() && old(log) <= log
    {
      breakFlag := false;
      var k := 0;
      while k < |rounds|
        invariant 0 <= k <= |rounds| && Valid() && running == -1 && old(log) <= log
      {
        continueFlag := false;
        if breakFlag {
          break;
        }
        var i := 0;
        while i < |rounds[k]|
          invariant 0 <= i <= |rounds[k]|
          invariant Valid() && running == -1 && !continueFlag && old(log) <= log
        {
          ActivateNow(rounds[k][i]);
          i := i + 1;
        }
        var n := ProcessActive();
        k := k + 1;
      }
    }
  }
}

/**
 The check scheduler: each tick launches the enabled checks that are due and not still running; runs
 finish at any time. A trace lists the critical sections in the order they happened.
 */
module Scheduler {
  /** Times and intervals in nanoseconds. */
  datatype Check = Check(name: string, enabled: bool, interval: int)

  datatype Event =
    | Consider(check: Check, now: int)   // a tick looks at one enabled check
    | Finish(name: string, now: int)     // a run of that name ends

  datatype State = State(lastRun: map<string, int>, inflight: map<string, bool>) {
    predicate InFlight(name: string) {
      name in inflight && inflight[name]
    }

    predicate Launches(c: Check, now: int) {
      (c.name !in lastRun || now - lastRun[c.name] >= c.interval) && !InFlight(c.name)
    }
  }

  function Step(s: State, e: Event): State {
    match e
    case Consider(c, now) =>
      if s.Launches(c, now) then State(s.lastRun[c.name := now], s.inflight[c.name := true]) else s
    case Finish(name, now) => s.(inflight := s.inflight[name := false])
  }

  function After(tr: seq<Event>): State {
    if tr == [] then State(map[], map[]) else Step(After(tr[..|tr| - 1]), tr[|tr| - 1])
  }

  /** Event i starts a run of this name. */
  predicate Starts(tr: seq<Event>, i: nat, name: string)
    requires i < |tr|
  {
    tr[i].Consider? && tr[i].check.name == name && After(tr[..i]).Launches(tr[i].check, tr[i].now)
  }

  /** The events of one pass over the check list. */
  function PassEvents(checks: seq<Check>, now: int): seq<Event> {
    if checks == [] then []
    else
      var c := checks[|checks| - 1];
      PassEvents(checks[..|checks| - 1], now) + if !c.enabled || c.interval <= 0 then [] else [Consider(c, now)]
  }

  /** ix lists, ascending, exactly the positions of the checks that are enabled with a positive interval, and
      the events consider just those checks. */
  ghost predicate PicksAll(checks: seq<Check>, now: int, events: seq<Event>, ix: seq<nat>) {
    && |ix| == |events|
    && (forall j, k :: 0 <= j < k < |ix| ==> ix[j] < ix[k])
    && (forall j :: 0 <= j < |ix| ==> ix[j] < |checks| && events[j] == Consider(checks[ix[j]], now))
    && (forall i: nat :: i in ix <==> i < |checks| && checks[i].enabled && checks[i].interval > 0)
  }

  /** A tick considers each such check once, in list order, and nothing else. */
  ghost predicate IsPass(checks: seq<Check>, now: int, events: seq<Event>) {
    exists ix :: PicksAll(checks, now, events, ix)
  }

  lemma {:induction false} PassConsiders(checks: seq<Check>, now: int)
    ensures IsPass(checks, now, PassEvents(checks, now))
  {
    if checks == [] {
      assert PicksAll(checks, now, [], []);
    } else {
      var n := |checks| - 1;
      PassConsiders(checks[..n], now);
      var before := PassEvents(checks[..n], now);
      var ix :| PicksAll(checks[..n], now, before, ix);
      PicksNext(checks, now, before, ix);
    }
  }

  lemma PicksNext(checks: seq<Check>, now: int, before: seq<Event>, ix: seq<nat>)
    requires checks != [] && PicksAll(checks[..|checks| - 1], now, before, ix)
    ensures var c := checks[|checks| - 1];
            if c.enabled && c.interval > 0 then IsPass(checks, now, before + [Consider(c, now)])
            else IsPass(checks, now, before + [])
  {
    var n: nat := |checks| - 1;
    if checks[n].enabled && checks[n].interval > 0 {
      var more := ix + [n];
      assert forall i: nat :: i in more <==> i in ix || i == n;
      assert PicksAll(checks, now, before + [Consider(checks[n], now)], more);
    } else {
      assert before + [] == before;
      assert PicksAll(checks, now, before, ix);
    }
  }

  lemma PassHas(checks: seq<Check>, now: int, events: seq<Event>, c: Check)
    requires IsPass(checks, now, events) && c in checks && c.enabled && c.interval > 0
    ensures Consider(c, now) in events
  {
    var ix :| PicksAll(checks, now, events, ix);
    var i: nat :| i < |checks| && checks[i] == c;
    assert i in ix;
    var j :| 0 <= j < |ix| && ix[j] == i;
    assert events[j] == Consider(c, now);
  }

  /** The checks launched over a trace, in order. */
  function Launched(tr: seq<Event>): seq<Check> {
    if tr == [] then []
    else
      var front, e := tr[..|tr| - 1], tr[|tr| - 1];
      Launched(front) + if e.Consider? && After(front).Launches(e.check, e.now) then [e.check] else []
  }

  /** A run of this name began at this tick, or its records are what they were. */
  ghost predicate StartedOrSame(was: State, after: State, name: string, now: int) {
    || (name in after.lastRun && after.lastRun[name] == now && after.InFlight(name))
    || ((name in after.lastRun <==> name in was.lastRun) && (name in after.lastRun ==> after.lastRun[name] == was.lastRun[name]) &&
        after.InFlight(name) == was.InFlight(name))
  }

  /** Whether this check should be launched, seen from this state. */
  predicate Wanting(s: State, checks: seq<Check>, c: Check, now: int) {
    c in checks && c.enabled && c.interval > 0 && s.Launches(c, now)
  }

  lemma PassNext(tr: seq<Event>, checks: seq<Check>, now: int)
    requires checks != []
    ensures var n := |checks| - 1;
            var before := tr + PassEvents(checks[..n], now);
            tr + PassEvents(checks, now) ==
            if checks[n].enabled && checks[n].interval > 0 then before + [Consider(checks[n], now)] else before
  {}

  /** What one tick does to the records: it starts every check that wants it, and leaves those of all names
      it does not start. */
  lemma {:induction false} TickStarts(tr: seq<Event>, checks: seq<Check>, now: int)
    ensures forall name :: StartedOrSame(After(tr), After(tr + PassEvents(checks, now)), name, now)
    ensures forall c :: Wanting(After(tr), checks, c, now) ==> Began(After(tr + PassEvents(checks, now)), c.name, now)
  {
    if checks == [] {
      assert tr + [] == tr;
    } else {
      var n := |checks| - 1;
      var front, c, before := checks[..n], checks[n], tr + PassEvents(checks[..n], now);
      var s, mid := After(tr), After(before);
      assert checks == front + [c];
      TickStarts(tr, front, now);
      PassNext(tr, checks, now);
      Extend(before, Consider(c, now));
      hide After;
      hide PassEvents;
      hide StartedOrSame;
      hide Began;
      if c.enabled && c.interval > 0 {
        ConsiderMoves(s, mid, checks, c, now);
      }
      hide Step;
      assert forall x :: Wanting(s, checks, x, now) ==> x == c || Wanting(s, front, x, now);
    }
  }

  /** And what it launches: only checks that want it. */
  lemma {:induction false} TickLaunches(tr: seq<Event>, checks: seq<Check>, now: int) returns (started: seq<Check>)
    ensures Launched(tr + PassEvents(checks, now)) == Launched(tr) + started
    ensures forall c :: c in started ==> Wanting(After(tr), checks, c, now)
  {
    if checks == [] {
      started := [];
      assert tr + [] == tr && Launched(tr) + [] == Launched(tr);
    } else {
      var n := |checks| - 1;
      var front, c, before := checks[..n], checks[n], tr + PassEvents(checks[..n], now);
      var s, mid := After(tr), After(before);
      assert checks == front + [c];
      started := TickLaunches(tr, front, now);
      TickStarts(tr, front, now);
      PassNext(tr, checks, now);
      Extend(before, Consider(c, now));
      hide After;
      hide PassEvents;
      hide Launched;
      hide StartedOrSame;
      hide Began;
      assert forall x :: Wanting(s, front, x, now) ==> Wanting(s, checks, x, now);
      if c.enabled && c.interval > 0 && mid.Launches(c, now) {
        ConsiderMoves(s, mid, checks, c, now);
        LaunchedOne(Launched(tr), started, c);
        started := started + [c];
      }
    }
  }

  /** A run of this name began at this moment and is in flight. */
  predicate Began(s: State, name: string, now: int) {
    name in s.lastRun && s.lastRun[name] == now && s.InFlight(name)
  }

  lemma LaunchedOne(log: seq<Check>, started: seq<Check>, c: Check)
    ensures log + started + [c] == log + (started + [c])
    ensures forall x :: x in started + [c] <==> x in started || x == c
  {}

  lemma ConsiderMoves(s: State, mid: State, checks: seq<Check>, c: Check, now: int)
    requires c in checks && c.enabled && c.interval > 0
    requires forall name :: StartedOrSame(s, mid, name, now)
    ensures var t := Step(mid, Consider(c, now));
            && (forall name :: StartedOrSame(s, t, name, now))
            && (forall name :: Began(mid, name, now) ==> Began(t, name, now))
            && (s.Launches(c, now) ==> Began(t, c.name, now))
            && (mid.Launches(c, now) ==> Wanting(s, checks, c, now))
  {
    var t := Step(mid, Consider(c, now));
    assert StartedOrSame(s, mid, c.name, now);
    forall name ensures StartedOrSame(s, t, name, now) {
      assert StartedOrSame(s, mid, name, now);
    }
  }

  class Scheduler {
    var lastRun: map<string, int>
    var inflight: map<string, bool>
    var launched: seq<Check>
    ghost var trace: seq<Event>

    ghost predicate Valid()
      reads this
    {
      State(lastRun, inflight) == After(trace) && launched == Launched(trace)
    }

    constructor ()
      ensures Valid() && trace == []
    {
      lastRun, inflight, launched, trace := map[], map[], [], [];
    }

    /** Launch whatever is due; each check is looked at under the lock. Afterwards every check of the list
        that was due and not in flight has been started, and only such checks have. */
    method Reconcile(checks: seq<Check>, now: int)
      requires Valid()
      modifies this
      ensures Valid() && trace == old(trace) + PassEvents(checks, now)
      ensures IsPass(checks, now, trace[|old(trace)|..])
      ensures forall c :: c in checks && c.enabled && c.interval > 0 &&
                          (c.name !in old(lastRun) || now - old(lastRun)[c.name] >= c.interval) &&
                          !(c.name in old(inflight) && old(inflight)[c.name]) ==>
                            c.name in lastRun && lastRun[c.name] == now && c.name in inflight && inflight[c.name]
      ensures |old(launched)| <= |launched| && launched[..|old(launched)|] == old(launched)
      ensures forall c :: c in launched[|old(launched)|..] ==>
                            && c in checks && c.enabled && c.interval > 0
                            && (c.name !in old(lastRun) || now - old(lastRun)[c.name] >= c.interval)
                            && !(c.name in old(inflight) && old(inflight)[c.name])
    {
      hide After;
      hide Launched;
      for i := 0 to |checks|
        invariant Valid() && trace == old(trace) + PassEvents(checks[..i], now)
      {
        var c := checks[i];
        assert checks[..i + 1][..i] == checks[..i];
        if c.enabled && c.interval > 0 {
          Extend(trace, Consider(c, now));
          var due := c.name !in lastRun || now - lastRun[c.name] >= c.interval;
          if due && !(c.name in inflight && inflight[c.name]) {
            lastRun := lastRun[c.name := now];
            inflight := inflight[c.name := true];
            launched := launched + [c];
          }
          trace := trace + [Consider(c, now)];
          assert trace == old(trace) + (PassEvents(checks[..i], now) + [Consider(c, now)]);
        }
      }
      assert checks[..|checks|] == checks;
      PassConsiders(checks, now);
      assert trace[|old(trace)|..] == PassEvents(checks, now);
      TickStarts(old(trace), checks, now);
      ghost var started := TickLaunches(old(trace), checks, now);
      hide PassEvents;
      hide IsPass;
      hide StartedOrSame;
      ghost var was := State(old(lastRun), old(inflight));
      assert launched[|old(launched)|..] == started;
      forall c | c in checks && c.enabled && c.interval > 0 && was.Launches(c, now)
        ensures c.name in lastRun && lastRun[c.name] == now && c.name in inflight && inflight[c.name]
      {
        assert Wanting(was, checks, c, now);
        assert Began(State(lastRun, inflight), c.name, now);
      }
    }

    /** A run is over. */
    method Finished(name: string, now: int)
      requires Valid()
      modifies this
      ensures Valid() && trace == old(trace) + [Finish(name, now)]
    {
      Extend(trace, Finish(name, now));
      inflight := inflight[name := false];
      trace := trace + [Finish(name, now)];
    }
  }

  lemma Extend(tr: seq<Event>, e: Event)
    ensures After(tr + [e]) == Step(After(tr), e)
    ensures Launched(tr + [e]) == Launched(tr) + if e.Consider? && After(tr).Launches(e.check, e.now) then [e.check] else []
  {
    assert (tr + [e])[..|tr|] == tr;
  }

  // ----- at most one run in flight -----

  /** Runs of this name started and not finished. */
  function Running(tr: seq<Event>, name: string): int {
    if tr == [] then 0
    else
      var n := |tr| - 1;
      Running(tr[..n], name) +
      if Starts(tr, n, name) then 1 else if tr[n].Finish? && tr[n].name == name then -1 else 0
  }

  /** Only a run in progress finishes. */
  ghost predicate Genuine(tr: seq<Event>) {
    forall i :: 0 <= i < |tr| && tr[i].Finish? ==> Running(tr[..i], tr[i].name) > 0
  }

  /** Whatever the interleaving of ticks and completions, a name has at most one run in flight. */
  lemma {:induction false} OneInFlight(tr: seq<Event>, name: string)
    requires Genuine(tr)
    ensures Running(tr, name) == if After(tr).InFlight(name) then 1 else 0
  {
    if tr != [] {
      var n := |tr| - 1;
      assert forall i :: 0 <= i < n ==> tr[..n][..i] == tr[..i];
      OneInFlight(tr[..n], name);
      assert tr[n].Finish? ==> Running(tr[..n], tr[n].name) > 0;
    }
  }

  // ----- spacing -----

  lemma LastRunMoves(s: State, e: Event, name: string)
    ensures var t := Step(s, e);
            if e.Consider? && e.check.name == name && s.Launches(e.check, e.now)
            then name in t.lastRun && t.lastRun[name] == e.now
            else (name in t.lastRun <==> name in s.lastRun) && (name in s.lastRun ==> t.lastRun[name] == s.lastRun[name])
  {}

  /** lastRun holds the time of the latest start. */
  lemma {:induction false} LastRunIsLatest(tr: seq<Event>, n: nat, name: string)
    requires n <= |tr|
    ensures name in After(tr[..n]).lastRun <==> exists i: nat :: i < n && Starts(tr, i, name)
    ensures forall i: nat :: i < n && Starts(tr, i, name) && (forall k: nat :: i < k < n ==> !Starts(tr, k, name)) ==>
                               After(tr[..n]).lastRun[name] == tr[i].now
  {
    if n > 0 {
      LastRunIsLatest(tr, n - 1, name);
      assert tr[..n][..n - 1] == tr[..n - 1];
      LastRunMoves(After(tr[..n - 1]), tr[n - 1], name);
      var last: nat := n - 1;
      if Starts(tr, last, name) {
        assert After(tr[..n]).lastRun[name] == tr[last].now;
      } else {
        hide Starts;
        assert forall i: nat :: i < n && Starts(tr, i, name) ==> i < last;
        assert name in After(tr[..n]).lastRun <==> name in After(tr[..last]).lastRun;
      }
    }
  }

  /** Successive starts of a name are at least the starting check's interval apart, even if several
      checks share the name. */
  lemma StartsAreSpaced(tr: seq<Event>, i: nat, j: nat, name: string)
    requires i < j < |tr| && Starts(tr, i, name) && Starts(tr, j, name)
    requires forall k: nat :: i < k < j ==> !Starts(tr, k, name)
    ensures tr[j].now - tr[i].now >= tr[j].check.interval
  {
    LastRunIsLatest(tr, j, name);
  }

  // ----- bounded lateness -----

  /** Ticks read the clock before they take the lock, a run reads it at its end. */
  ghost predicate Ordered(tr: seq<Event>) {
    forall i: nat, j: nat :: i < j < |tr| && tr[i].Consider? ==> tr[i].now <= tr[j].now
  }

  predicate LooksAt(tr: seq<Event>, i: nat, c: Check)
    requires i < |tr|
  {
    tr[i] == Consider(c, tr[i].now)
  }

  /** i and j are successive looks at c. */
  ghost predicate NextLook(tr: seq<Event>, c: Check, i: nat, j: nat)
    requires i < j < |tr|
  {
    LooksAt(tr, i, c) && LooksAt(tr, j, c) && forall k: nat :: i < k < j ==> !LooksAt(tr, k, c)
  }

  /** The ticks look at c at most d apart. */
  ghost predicate Watched(tr: seq<Event>, c: Check, d: int) {
    forall i: nat, j: nat :: i < j < |tr| && NextLook(tr, c, i, j) ==> tr[j].now - tr[i].now <= d
  }

  /** One tick: the list it read, the clock, and where in the trace its critical sections lie. */
  datatype Tick = Tick(checks: seq<Check>, now: int, from: nat, to: nat)

  function Considers(events: seq<Event>): seq<Event> {
    if events == [] then []
    else
      var e := events[|events| - 1];
      Considers(events[..|events| - 1]) + if e.Consider? then [e] else []
  }

  lemma {:induction false} ConsidersKeeps(events: seq<Event>, e: Event)
    requires e in Considers(events)
    ensures e in events
  {
    if e in Considers(events[..|events| - 1]) {
      ConsidersKeeps(events[..|events| - 1], e);
    }
  }

  /** The trace comes from these ticks, one after the other, with runs ending at any time. */
  ghost predicate Ticked(tr: seq<Event>, ticks: seq<Tick>) {
    && (forall m :: 0 <= m < |ticks| ==> ticks[m].from <= ticks[m].to <= |tr|)
    && (forall m, n :: 0 <= m < n < |ticks| ==> ticks[m].to <= ticks[n].from)
    && (forall m :: 0 <= m < |ticks| ==> IsPass(ticks[m].checks, ticks[m].now, Considers(tr[ticks[m].from..ticks[m].to])))
    && (forall i: nat :: i < |tr| && tr[i].Consider? ==> exists m :: InTick(tr, ticks, i, m))
  }

  ghost predicate InTick(tr: seq<Event>, ticks: seq<Tick>, i: nat, m: nat)
    requires i < |tr|
  {
    m < |ticks| && ticks[m].from <= i < ticks[m].to && tr[i].now == ticks[m].now
  }

  /** If every tick finds c in its list, and ticks are at most d apart, c is looked at at least that often. */
  lemma TicksWatch(tr: seq<Event>, ticks: seq<Tick>, c: Check, d: int)
    requires Ticked(tr, ticks) && c.enabled && c.interval > 0 && d >= 0
    requires forall m :: 0 <= m < |ticks| ==> c in ticks[m].checks
    requires forall m :: 0 < m < |ticks| ==> ticks[m].now - ticks[m - 1].now <= d
    ensures Watched(tr, c, d)
  {
    forall i: nat, j: nat | i < j < |tr| && NextLook(tr, c, i, j) ensures tr[j].now - tr[i].now <= d {
      var m: nat :| InTick(tr, ticks, i, m);
      var n: nat :| InTick(tr, ticks, j, n);
      if m + 1 < n {
        var _ := TickLooks(tr, ticks, c, m + 1);
      }
    }
  }

  lemma TickLooks(tr: seq<Event>, ticks: seq<Tick>, c: Check, m: nat) returns (k: nat)
    requires Ticked(tr, ticks) && m < |ticks| && c in ticks[m].checks && c.enabled && c.interval > 0
    ensures ticks[m].from <= k < ticks[m].to && LooksAt(tr, k, c)
  {
    var t := ticks[m];
    var events := tr[t.from..t.to];
    PassHas(t.checks, t.now, Considers(events), c);
    ConsidersKeeps(events, Consider(c, t.now));
    hide *;
    hide LooksAt;
    var j :| 0 <= j < |events| && events[j] == Consider(c, t.now);
    k := t.from + j;
  }

  lemma {:induction false} PreviousLook(tr: seq<Event>, c: Check, s: nat, e: nat) returns (p: nat)
    requires s < e < |tr| && LooksAt(tr, s, c)
    ensures s <= p < e && LooksAt(tr, p, c) && forall k: nat :: p < k < e ==> !LooksAt(tr, k, c)
    decreases e - s
  {
    if k: nat :| s < k < e && LooksAt(tr, k, c) {
      p := PreviousLook(tr, c, k, e);
    } else {
      p := s;
    }
  }

  /** A look at c after event f, no earlier than `due`. */
  predicate LateLook(tr: seq<Event>, c: Check, f: nat, due: int, e: nat)
    requires e < |tr|
  {
    f < e && LooksAt(tr, e, c) && tr[e].now >= due
  }

  lemma {:induction false} FirstLateLook(tr: seq<Event>, c: Check, f: nat, due: int, e: nat) returns (first: nat)
    requires e < |tr| && LateLook(tr, c, f, due, e)
    ensures first <= e && LateLook(tr, c, f, due, first)
    ensures forall k: nat :: k < first ==> !LateLook(tr, c, f, due, k)
    decreases e
  {
    if k: nat :| k < e && LateLook(tr, c, f, due, k) {
      first := FirstLateLook(tr, c, f, due, k);
    } else {
      first := e;
    }
  }

  lemma {:induction false} StaysFinished(tr: seq<Event>, f: nat, n: nat, name: string)
    requires f < n <= |tr| && tr[f].Finish? && tr[f].name == name
    requires forall k: nat :: f < k < n ==> !Starts(tr, k, name)
    ensures !After(tr[..n]).InFlight(name)
  {
    assert tr[..n][..n - 1] == tr[..n - 1];
    if f < n - 1 {
      StaysFinished(tr, f, n - 1, name);
      assert !Starts(tr, n - 1, name);
    }
  }

  function Due(tr: seq<Event>, c: Check, s: nat, f: nat): int
    requires s < |tr| && f < |tr|
  {
    if tr[s].now + c.interval >= tr[f].now then tr[s].now + c.interval else tr[f].now
  }

  lemma LookIsSoon(tr: seq<Event>, c: Check, d: int, s: nat, f: nat, e: nat)
    requires Ordered(tr) && Watched(tr, c, d)
    requires s < f < |tr| && LooksAt(tr, s, c)
    requires e < |tr| && LateLook(tr, c, f, Due(tr, c, s, f), e)
    requires forall k: nat :: k < e ==> !LateLook(tr, c, f, Due(tr, c, s, f), k)
    ensures tr[e].now <= Due(tr, c, s, f) + d
  {
    var p := PreviousLook(tr, c, s, e);
    assert NextLook(tr, c, p, e);
    assert !LateLook(tr, c, f, Due(tr, c, s, f), p);
  }

  lemma LateLookStarts(tr: seq<Event>, c: Check, s: nat, f: nat, e: nat)
    requires s < f < e < |tr| && LooksAt(tr, s, c) && Starts(tr, s, c.name) && tr[f].Finish? && tr[f].name == c.name
    requires LooksAt(tr, e, c) && tr[e].now - tr[s].now >= c.interval
    requires forall k: nat :: s < k < e ==> !Starts(tr, k, c.name)
    ensures Starts(tr, e, c.name)
  {
    LastRunIsLatest(tr, e, c.name);
    StaysFinished(tr, f, e, c.name);
  }

  /** A check that stays enabled is restarted (it or another of its name) at most d after its interval
      has elapsed and its previous run has finished, whichever is later, if ticks look at it at most d
      apart. */
  lemma BoundedLateness(tr: seq<Event>, c: Check, d: int, s: nat, f: nat, later: nat)
    requires Ordered(tr) && Watched(tr, c, d)
    requires s < f < |tr| && LooksAt(tr, s, c) && Starts(tr, s, c.name) && tr[f].Finish? && tr[f].name == c.name
    requires later < |tr| && LateLook(tr, c, f, Due(tr, c, s, f), later)
    ensures exists g: nat :: s < g < |tr| && Starts(tr, g, c.name) && tr[g].now <= Due(tr, c, s, f) + d
  {
    var e := FirstLateLook(tr, c, f, Due(tr, c, s, f), later);
    LookIsSoon(tr, c, d, s, f, e);
    hide After;
    if g: nat :| s < g < e && Starts(tr, g, c.name) {
      assert tr[g].Consider?;
      assert tr[g].now <= tr[e].now;
    } else {
      LateLookStarts(tr, c, s, f, e);
    }
  }

  /** So with ticks at most d apart a check that stays in the list is restarted in time. */
  lemma TicksRestart(tr: seq<Event>, ticks: seq<Tick>, c: Check, d: int, s: nat, f: nat, later: nat)
    requires Ticked(tr, ticks) && Ordered(tr) && c.enabled && c.interval > 0 && d >= 0
    requires forall m :: 0 <= m < |ticks| ==> c in ticks[m].checks
    requires forall m :: 0 < m < |ticks| ==> ticks[m].now - ticks[m - 1].now <= d
    requires s < f < |tr| && LooksAt(tr, s, c) && Starts(tr, s, c.name) && tr[f].Finish? && tr[f].name == c.name
    requires later < |ticks| && f < ticks[later].from && ticks[later].now >= tr[s].now + c.interval && ticks[later].now >= tr[f].now
    ensures exists g: nat :: s < g < |tr| && Starts(tr, g, c.name) &&
                             (tr[g].now <= tr[s].now + c.interval + d || tr[g].now <= tr[f].now + d)
  {
    TicksWatch(tr, ticks, c, d);
    var e := TickLooks(tr, ticks, c, later);
    hide Watched;
    hide Starts;
    TickTime(tr, ticks, later, e);
    BoundedLateness(tr, c, d, s, f, e);
    var g: nat :| s < g < |tr| && Starts(tr, g, c.name) && tr[g].now <= Due(tr, c, s, f) + d;
  }

  lemma TickTime(tr: seq<Event>, ticks: seq<Tick>, m: nat, i: nat)
    requires Ticked(tr, ticks) && m < |ticks| && ticks[m].from <= i < ticks[m].to && tr[i].Consider?
    ensures tr[i].now == ticks[m].now
  {
    var n: nat :| InTick(tr, ticks, i, n);
    assert n == m;
  }
}

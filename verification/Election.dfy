/**
 The cross-node alert election as a transition system: every watcher of a dead node runs
 ShouldSend for the same incident key. One action is one critical section of one node, or one
 message fate. A run starts from ledgers with no live entry for the key, and each node calls
 ShouldSend at most once.
 */
module Election {
  import opened Names

  /** A ledger entry for the key; an absent or expired one reads as NoEntry. */
  datatype Entry = Entry(owner: string, sent: bool)

  const NO_ENTRY := Entry("", false)

  /** Where a node is in its ShouldSend call. */
  datatype Phase =
    | Idle
    | Claiming(pending: set<string>, owner: string, sentElsewhere: bool)
    | Done(deliver: bool)

  /** The peer list each node's call reads, and the node the incident is about. */
  datatype Cluster = Cluster(listed: map<string, set<string>>, subject: string) {
    /** The peers a call queries and later notifies: never itself, never the subject. */
    function PeersOf(c: string): set<string> {
      (if c in listed then listed[c] else {}) - {c, subject}
    }
  }

  /** `stray` holds claims whose caller gave up on them, `mail` the sent-messages in flight;
      both are (from, to) pairs. */
  datatype State = State(
    ledger: map<string, Entry>,
    phase: map<string, Phase>,
    stray: set<(string, string)>,
    mail: set<(string, string)>)
  {
    function EntryAt(n: string): Entry {
      if n in ledger then ledger[n] else NO_ENTRY
    }

    function PhaseAt(n: string): Phase {
      if n in phase then phase[n] else Idle
    }

    function WithEntry(n: string, e: Entry): (t: State)
      ensures forall m :: t.EntryAt(m) == if m == n then e else EntryAt(m)
      ensures forall m :: t.PhaseAt(m) == PhaseAt(m)
      ensures t.stray == stray && t.mail == mail
    {
      this.(ledger := ledger[n := e])
    }

    function WithPhase(n: string, ph: Phase): (t: State)
      ensures forall m :: t.PhaseAt(m) == if m == n then ph else PhaseAt(m)
      ensures forall m :: t.EntryAt(m) == EntryAt(m)
      ensures t.stray == stray && t.mail == mail
    {
      this.(phase := phase[n := ph])
    }

    function WithTraffic(stray': set<(string, string)>, mail': set<(string, string)>): (t: State)
      ensures forall m :: t.PhaseAt(m) == PhaseAt(m)
      ensures forall m :: t.EntryAt(m) == EntryAt(m)
    {
      State(ledger, phase, stray', mail')
    }

    predicate Delivered(n: string) {
      PhaseAt(n) == Done(true)
    }
  }

  const START := State(map[], map[], {}, {})

  datatype Action =
    | Register(c: string)               // record own candidacy
    | Answered(c: string, p: string)    // p handles c's claim and c receives the reply
    | Lost(c: string, p: string)        // c gives up on its claim to p
    | Stray(c: string, p: string)       // p handles a claim its caller gave up on
    | Decide(c: string)                 // all claims resolved: stand down or commit
    | SentArrives(c: string, p: string) // p handles c's sent-message
    | Reset(n: string)                  // n's entry passes its time to live

  // The effect of each ledger access on the entry.

  function AfterClaim(e: Entry, c: string): Entry {
    e.(owner := MinName(e.owner, c))
  }

  function AfterSent(e: Entry, c: string): Entry {
    Entry(MinName(e.owner, c), true)
  }

  /** Another node's delivery was recorded here while this one was asking around. */
  predicate RacedOut(e: Entry, c: string) {
    e.sent && e.owner != c
  }

  ghost predicate Enabled(cl: Cluster, s: State, a: Action) {
    match a
    case Register(c) => c != "" && c != cl.subject && s.PhaseAt(c) == Idle
    case Answered(c, p) => s.PhaseAt(c).Claiming? && p in s.PhaseAt(c).pending
    case Lost(c, p) => s.PhaseAt(c).Claiming? && p in s.PhaseAt(c).pending
    case Stray(c, p) => (c, p) in s.stray
    case Decide(c) => s.PhaseAt(c).Claiming? && s.PhaseAt(c).pending == {}
    case SentArrives(c, p) => (c, p) in s.mail
    case Reset(n) => true
  }

  function Apply(cl: Cluster, s: State, a: Action): State {
    match a
    case Register(c) =>
      var e := AfterClaim(s.EntryAt(c), c);
      s.WithEntry(c, e)
      .WithPhase(c, if e.sent then Done(false) else Claiming(cl.PeersOf(c), e.owner, false))
    case Answered(c, p) =>
      var e := AfterClaim(s.EntryAt(p), c);
      var ph := s.PhaseAt(c);
      if !ph.Claiming? then s
      else
        s.WithEntry(p, e)
        .WithPhase(c, Claiming(ph.pending - {p}, MinName(ph.owner, e.owner), ph.sentElsewhere || e.sent))
    case Lost(c, p) =>
      var ph := s.PhaseAt(c);
      if !ph.Claiming? then s
      else s.WithPhase(c, ph.(pending := ph.pending - {p})).WithTraffic(s.stray + {(c, p)}, s.mail)
    case Stray(c, p) =>
      s.WithEntry(p, AfterClaim(s.EntryAt(p), c)).WithTraffic(s.stray - {(c, p)}, s.mail)
    case Decide(c) =>
      var ph := s.PhaseAt(c);
      if !ph.Claiming? then s
      else if ph.sentElsewhere || ph.owner != c then s.WithPhase(c, Done(false))
      else if RacedOut(s.EntryAt(c), c) then
        s.WithEntry(c, Entry(c, true)).WithPhase(c, Done(false))
      else
        s.WithEntry(c, Entry(c, true)).WithPhase(c, Done(true))
        .WithTraffic(s.stray, s.mail + set p | p in cl.PeersOf(c) :: (c, p))
    case SentArrives(c, p) =>
      s.WithEntry(p, AfterSent(s.EntryAt(p), c)).WithTraffic(s.stray, s.mail - {(c, p)})
    case Reset(n) =>
      s.WithEntry(n, NO_ENTRY)
  }

  /** states[i] is the state before actions[i]. */
  datatype Run = Run(states: seq<State>, actions: seq<Action>) {
    function Last(): State
      requires states != []
    {
      states[|states| - 1]
    }
  }

  ghost predicate Follows(cl: Cluster, r: Run) {
    && |r.states| == |r.actions| + 1
    && forall i :: 0 <= i < |r.actions| ==>
                     Enabled(cl, r.states[i], r.actions[i]) && r.states[i + 1] == Apply(cl, r.states[i], r.actions[i])
  }

  ghost predicate IsRun(cl: Cluster, r: Run) {
    Follows(cl, r) && r.states[0] == START
  }

  /** No entry of n expires during the run. */
  ghost predicate Lasting(r: Run, n: string) {
    Reset(n) !in r.actions
  }
}

/** The connection registry: dials, incoming connections, leaves, updates and retry timers
    interleave freely; every step is one critical section of the code. */
module Registry {
  import opened Common

  type ConnId = nat

  const MAX_ATTEMPTS: nat := 5

  /** Where a connection comes from: a dial of this node, or a peer; the handler that serves
      one from a peer knows whether it registered it. */
  datatype Origin = Dialed | Served(owns: bool)

  /** A connection: its peer, whether this node closed it, and where it comes from. What the
      network or the peer did to it is not known here. */
  datatype Conn = Conn(peer: NodeId, closed: bool, origin: Origin)

  /** A failed dial: the attempt number it got, and how often the counter of the peer had been
      reset by then. */
  datatype Failed = Failed(peer: NodeId, epoch: nat, attempt: nat)

  datatype State = State(
    self: NodeId,
    conns: map<NodeId, ConnId>,       // the registry
    all: map<ConnId, Conn>,           // every connection ever completed
    dials: multiset<NodeId>,          // dials under way
    timers: multiset<NodeId>,         // retries that are scheduled
    resetting: multiset<NodeId>,      // resets of counters that are still to come
    count: Counting)

  /** The attempt counters, and a record of what they led to. The code keeps only the first. */
  datatype Counting = Counting(
    attempts: map<NodeId, nat>,       // failed dials to a peer since its last reset
    deciding: set<Failed>,            // counted failures whose retry is not yet decided
    resets: map<NodeId, nat>,         // how often a peer's counter was reset
    retries: map<Failed, nat>)        // the failures that led to a retry, and in which epoch

  datatype Step =
    | NotifyJoin(peer: NodeId)
    | RetryFires(peer: NodeId)
    | DialFails(peer: NodeId)
    | Decide(failure: Failed)
    | DialCompletes(peer: NodeId, conn: ConnId)
    | Incoming(peer: NodeId, conn: ConnId)
    | HandlerExits(conn: ConnId)
    | NotifyLeave(peer: NodeId)
    | NotifyUpdate(peer: NodeId)
    | NotifyAliveDead(peer: NodeId)
    | ResetAttempts(peer: NodeId)

  function Init(self: NodeId): State {
    State(self, map[], map[], multiset{}, multiset{}, multiset{}, Counting(map[], {}, map[], map[]))
  }

  function Attempts(n: Counting, p: NodeId): nat {
    if p in n.attempts then n.attempts[p] else 0
  }

  /** The present epoch of a peer: the number of resets of its counter. */
  function Epoch(n: Counting, p: NodeId): nat {
    if p in n.resets then n.resets[p] else 0
  }

  predicate Enabled(st: State, step: Step) {
    match step
    case NotifyJoin(_) => true
    case RetryFires(p) => p in st.timers
    case DialFails(p) => p in st.dials
    case Decide(f) => f in st.count.deciding
    case DialCompletes(p, c) => p in st.dials && c !in st.all
    case Incoming(_, c) => c !in st.all
    case HandlerExits(c) => c in st.all && st.all[c].origin.Served?
    case NotifyLeave(_) => true
    case NotifyUpdate(_) => true
    case NotifyAliveDead(_) => true
    case ResetAttempts(p) => p in st.resetting
  }

  /** The code resets a counter in a critical section of its own, some time after a join that
      finds a connection or makes one, after a leave and after an update. */
  function Reset(n: Counting, p: NodeId): Counting {
    n.(attempts := n.attempts - {p}, resets := n.resets[p := Epoch(n, p) + 1])
  }

  function WillReset(st: State, p: NodeId): State {
    st.(resetting := st.resetting + multiset{p})
  }

  /** The first half of a join: skip oneself, reset the counter of a known peer, else begin to
      dial. */
  function StartJoin(st: State, p: NodeId): State {
    if p == st.self then st
    else if p in st.conns then WillReset(st, p)
    else st.(dials := st.dials + multiset{p})
  }

  /** A failed dial counts. */
  function CountFailure(n: Counting, p: NodeId): Counting {
    var attempts := Attempts(n, p) + 1;
    n.(attempts := n.attempts[p := attempts], deciding := n.deciding + {Failed(p, Epoch(n, p), attempts)})
  }

  /** After the counter is unlocked, a failure below the limit leads to a retry. */
  function DecideRetry(n: Counting, f: Failed): Counting {
    var n' := n.(deciding := n.deciding - {f});
    if f.attempt < MAX_ATTEMPTS then n'.(retries := n.retries[f := Epoch(n, f.peer)]) else n'
  }

  /** The delay of a retry in milliseconds. */
  function Delay(f: Failed): nat {
    f.attempt * f.attempt * 100
  }

  /** The second half of a join: look again, then register the connection or close it. */
  function FinishDial(st: State, p: NodeId, c: ConnId): State {
    var st' := st.(dials := st.dials - multiset{p});
    if p in st.conns then st'.(all := st.all[c := Conn(p, true, Dialed)])
    else WillReset(st', p).(all := st.all[c := Conn(p, false, Dialed)], conns := st.conns[p := c])
  }

  /** An incoming connection from oneself or without a name is closed; another is registered
      unless its peer is, and is served either way. */
  function Accept(st: State, p: NodeId, c: ConnId): State {
    if p == "" || p == st.self then st.(all := st.all[c := Conn(p, true, Served(false))])
    else if p !in st.conns then st.(all := st.all[c := Conn(p, false, Served(true))], conns := st.conns[p := c])
    else st.(all := st.all[c := Conn(p, false, Served(false))])
  }

  /** Close the registered connection of a peer, if any, and forget it. */
  function CloseRegistered(st: State, p: NodeId): State {
    if p in st.conns && st.conns[p] in st.all then
      st.(all := st.all[st.conns[p] := st.all[st.conns[p]].(closed := true)], conns := st.conns - {p})
    else st.(conns := st.conns - {p})
  }

  /** A handler that exits takes its connection out of the registry if it registered it and
      it is still there. */
  function CleanUp(st: State, c: ConnId): State
    requires c in st.all && st.all[c].origin.Served?
  {
    var conn := st.all[c];
    if conn.origin.owns && conn.peer in st.conns && st.conns[conn.peer] == c then st.(conns := st.conns - {conn.peer}) else st
  }

  /** The join that follows an update or a dead connection runs in a goroutine of its own: it
      is a NotifyJoin step, at any later time. */
  function Apply(st: State, step: Step): State
    requires Enabled(st, step)
  {
    match step
    case NotifyJoin(p) => StartJoin(st, p)
    case RetryFires(p) => StartJoin(st.(timers := st.timers - multiset{p}), p)
    case DialFails(p) => st.(dials := st.dials - multiset{p}, count := CountFailure(st.count, p))
    case Decide(f) =>
      st.(timers := if f.attempt < MAX_ATTEMPTS then st.timers + multiset{f.peer} else st.timers,
          count := DecideRetry(st.count, f))
    case DialCompletes(p, c) => FinishDial(st, p, c)
    case Incoming(p, c) => Accept(st, p, c)
    case HandlerExits(c) => CleanUp(st, c)
    case NotifyLeave(p) => WillReset(CloseRegistered(st, p), p)
    case NotifyUpdate(p) => WillReset(CloseRegistered(st, p), p)
    case NotifyAliveDead(p) => CloseRegistered(st, p)
    case ResetAttempts(p) => st.(resetting := st.resetting - multiset{p}, count := Reset(st.count, p))
  }

  ghost predicate IsRun(trace: seq<State>, steps: seq<Step>) {
    |trace| == |steps| + 1 && trace[0] == Init(trace[0].self) &&
    forall i | 0 <= i < |steps| :: Enabled(trace[i], steps[i]) && trace[i + 1] == Apply(trace[i], steps[i])
  }

  // ----- the registry

  /** Every registered connection was not closed by this node, belongs to its peer, and is not
      to this node. */
  ghost predicate RegistryOk(st: State) {
    st.self !in st.conns &&
    forall p | p in st.conns :: st.conns[p] in st.all && st.all[st.conns[p]].peer == p && !st.all[st.conns[p]].closed
  }

  /** A dialed connection is either registered or closed. */
  ghost predicate DialsTracked(st: State) {
    forall c | c in st.all && st.all[c].origin == Dialed ::
      !st.all[c].closed <==> (st.all[c].peer in st.conns && st.conns[st.all[c].peer] == c)
  }

  ghost predicate NotSelf(st: State) {
    RegistryOk(st) && DialsTracked(st) && st.self !in st.dials && st.self !in st.timers &&
    forall f | f in st.count.deciding :: f.peer != st.self
  }

  lemma StartJoinKeepsRegistry(st: State, p: NodeId)
    requires NotSelf(st)
    ensures NotSelf(StartJoin(st, p)) && StartJoin(st, p).self == st.self
  {
  }

  lemma CloseKeepsRegistry(st: State, p: NodeId)
    requires NotSelf(st)
    ensures NotSelf(CloseRegistered(st, p)) && CloseRegistered(st, p).self == st.self
    ensures NotSelf(WillReset(CloseRegistered(st, p), p))
  {
  }

  lemma FinishDialKeepsRegistry(st: State, p: NodeId, c: ConnId)
    requires NotSelf(st) && c !in st.all && p in st.dials
    ensures NotSelf(FinishDial(st, p, c)) && FinishDial(st, p, c).self == st.self
  {
  }

  lemma AcceptKeepsRegistry(st: State, p: NodeId, c: ConnId)
    requires NotSelf(st) && c !in st.all
    ensures NotSelf(Accept(st, p, c)) && Accept(st, p, c).self == st.self
  {
  }

  lemma CleanUpKeepsRegistry(st: State, c: ConnId)
    requires NotSelf(st) && c in st.all && st.all[c].origin.Served?
    ensures NotSelf(CleanUp(st, c)) && CleanUp(st, c).self == st.self
  {
  }

  lemma RetryKeepsRegistry(st: State, p: NodeId)
    requires NotSelf(st) && p in st.timers
    ensures var st' := StartJoin(st.(timers := st.timers - multiset{p}), p); NotSelf(st') && st'.self == st.self
  {
    hide StartJoin;
    StartJoinKeepsRegistry(st.(timers := st.timers - multiset{p}), p);
  }

  lemma CountingKeepsRegistry(st: State, step: Step)
    requires NotSelf(st) && Enabled(st, step) && (step.DialFails? || step.Decide? || step.ResetAttempts?)
    ensures NotSelf(Apply(st, step))
  {
  }

  lemma StepKeepsRegistry(st: State, step: Step)
    requires NotSelf(st) && Enabled(st, step)
    ensures NotSelf(Apply(st, step)) && Apply(st, step).self == st.self
  {
    hide StartJoin, CloseRegistered, FinishDial, Accept, CleanUp, NotSelf;
    match step
    case NotifyJoin(p) => StartJoinKeepsRegistry(st, p);
    case RetryFires(p) => RetryKeepsRegistry(st, p);
    case DialCompletes(p, c) => FinishDialKeepsRegistry(st, p, c);
    case Incoming(p, c) => AcceptKeepsRegistry(st, p, c);
    case HandlerExits(c) => CleanUpKeepsRegistry(st, c);
    case NotifyLeave(p) => CloseKeepsRegistry(st, p);
    case NotifyUpdate(p) => CloseKeepsRegistry(st, p);
    case NotifyAliveDead(p) => CloseKeepsRegistry(st, p);
    case DialFails(p) => CountingKeepsRegistry(st, step);
    case Decide(f) => CountingKeepsRegistry(st, step);
    case ResetAttempts(p) => CountingKeepsRegistry(st, step);
  }

  lemma {:induction false} RunKeepsRegistry(trace: seq<State>, steps: seq<Step>, i: nat)
    requires IsRun(trace, steps) && i < |trace|
    ensures NotSelf(trace[i]) && trace[i].self == trace[0].self
  {
    if i > 0 {
      RunKeepsRegistry(trace, steps, i - 1);
      StepKeepsRegistry(trace[i - 1], steps[i - 1]);
    }
  }

  /** In every interleaving the registry never lists this node, and what it lists for a peer
      is a connection to that peer that this node did not close. */
  lemma RegistryNeverListsSelf(trace: seq<State>, steps: seq<Step>, i: nat)
    requires IsRun(trace, steps) && i < |trace|
    ensures trace[0].self !in trace[i].conns
    ensures forall p | p in trace[i].conns ::
              trace[i].conns[p] in trace[i].all && trace[i].all[trace[i].conns[p]] == trace[i].all[trace[i].conns[p]].(peer := p, closed := false)
  {
    RunKeepsRegistry(trace, steps, i);
  }

  /** No dialed connection leaks: at every moment of every run, one that this node did not
      close is the registered one of its peer, and the registered one was not closed. */
  lemma NoDialLeaks(trace: seq<State>, steps: seq<Step>, i: nat, c: ConnId)
    requires IsRun(trace, steps) && i < |trace| && c in trace[i].all && trace[i].all[c].origin == Dialed
    ensures !trace[i].all[c].closed <==>
            trace[i].all[c].peer in trace[i].conns && trace[i].conns[trace[i].all[c].peer] == c
  {
    RunKeepsRegistry(trace, steps, i);
  }

  /** A dial that completes is registered, or it is closed because the peer is registered. */
  lemma DialRegisteredOrClosed(trace: seq<State>, steps: seq<Step>, i: nat, p: NodeId, c: ConnId)
    requires IsRun(trace, steps) && i < |steps| && steps[i] == DialCompletes(p, c)
    ensures p in trace[i + 1].conns && c in trace[i + 1].all
    ensures trace[i + 1].conns[p] == c <==> p !in trace[i].conns
    ensures trace[i + 1].all[c].closed <==> trace[i + 1].conns[p] != c
  {
    RunKeepsRegistry(trace, steps, i);
  }

  /** A handler that exits takes at most its own connection out of the registry. */
  lemma CleanupIsOwn(trace: seq<State>, steps: seq<Step>, i: nat, c: ConnId)
    requires IsRun(trace, steps) && i < |steps| && steps[i] == HandlerExits(c)
    ensures forall p | p in trace[i].conns && trace[i].conns[p] != c ::
              p in trace[i + 1].conns && trace[i + 1].conns[p] == trace[i].conns[p]
    ensures trace[i + 1].conns.Keys <= trace[i].conns.Keys
    ensures forall p | p in trace[i + 1].conns :: trace[i + 1].conns[p] == trace[i].conns[p]
  {
  }

  // ----- what single steps do

  /** An incoming connection: one without a name or from this node is closed and changes nothing
      else; one from a peer that is not registered is registered; a second one of a registered
      peer is served without being registered. */
  lemma IncomingRegistered(trace: seq<State>, steps: seq<Step>, i: nat, p: NodeId, c: ConnId)
    requires IsRun(trace, steps) && i < |steps| && steps[i] == Incoming(p, c)
    ensures c in trace[i + 1].all && trace[i + 1].all[c].peer == p
    ensures trace[i + 1].all[c].closed <==> p == "" || p == trace[0].self
    ensures trace[i + 1].conns ==
            if p == "" || p == trace[0].self || p in trace[i].conns then trace[i].conns else trace[i].conns[p := c]
    ensures trace[i + 1].all[c].origin ==
            Served(p != "" && p != trace[0].self && p !in trace[i].conns)
    ensures forall d | d in trace[i].all :: d in trace[i + 1].all && trace[i + 1].all[d] == trace[i].all[d]
  {
    RunKeepsRegistry(trace, steps, i);
  }

  /** A leave, an update and a dead connection close the registered connection of the peer and
      forget it; every other connection stays as it is. After a leave and an update a reset of the
      peer's counter is due. */
  lemma PeerIsClosed(trace: seq<State>, steps: seq<Step>, i: nat, p: NodeId)
    requires IsRun(trace, steps) && i < |steps|
    requires steps[i] == NotifyLeave(p) || steps[i] == NotifyUpdate(p) || steps[i] == NotifyAliveDead(p)
    ensures trace[i + 1].conns == trace[i].conns - {p}
    ensures p in trace[i].conns ==> trace[i].conns[p] in trace[i + 1].all && trace[i + 1].all[trace[i].conns[p]].closed
    ensures forall c | c in trace[i].all && (p in trace[i].conns ==> c != trace[i].conns[p]) ::
              c in trace[i + 1].all && trace[i + 1].all[c] == trace[i].all[c]
    ensures !steps[i].NotifyAliveDead? ==> p in trace[i + 1].resetting
  {
    RunKeepsRegistry(trace, steps, i);
  }

  /** The dial that a step begins: a join or retry of a peer that is neither this node nor
      registered. */
  function DialBegun(st: State, step: Step): multiset<NodeId> {
    match step
    case NotifyJoin(p) => if p == st.self || p in st.conns then multiset{} else multiset{p}
    case RetryFires(p) => if p == st.self || p in st.conns then multiset{} else multiset{p}
    case _ => multiset{}
  }

  /** The dial that a step ends. */
  function DialEnded(step: Step): multiset<NodeId> {
    match step
    case DialFails(p) => multiset{p}
    case DialCompletes(p, _) => multiset{p}
    case _ => multiset{}
  }

  /** Dials are conserved: each one begins with a join and ends once. */
  lemma DialsBeginAndEnd(trace: seq<State>, steps: seq<Step>, i: nat)
    requires IsRun(trace, steps) && i < |steps|
    ensures trace[i + 1].dials == trace[i].dials + DialBegun(trace[i], steps[i]) - DialEnded(steps[i])
  {
    StepMovesDials(trace[i], steps[i]);
  }

  predicate IsDialStep(step: Step) {
    step.NotifyJoin? || step.RetryFires? || step.DialFails? || step.DialCompletes?
  }

  lemma StepMovesDials(st: State, step: Step)
    requires Enabled(st, step)
    ensures Apply(st, step).dials == st.dials + DialBegun(st, step) - DialEnded(step)
  {
    hide Apply, Enabled;
    if IsDialStep(step) {
      DialStepMovesDials(st, step);
    } else {
      OtherStepMovesNoDial(st, step);
    }
  }

  lemma DialStepMovesDials(st: State, step: Step)
    requires Enabled(st, step) && IsDialStep(step)
    ensures Apply(st, step).dials == st.dials + DialBegun(st, step) - DialEnded(step)
  {
    hide StartJoin, FinishDial, CountFailure;
    match step
    case NotifyJoin(p) => JoinMovesDials(st, p);
    case RetryFires(p) => JoinMovesDials(st.(timers := st.timers - multiset{p}), p);
    case DialCompletes(p, c) => DialMovesDials(st, p, c);
    case DialFails(_) =>
  }

  lemma OtherStepMovesNoDial(st: State, step: Step)
    requires Enabled(st, step) && !IsDialStep(step)
    ensures Apply(st, step).dials == st.dials
  {
    hide CloseRegistered, Accept, CleanUp, DecideRetry, Reset;
    match step
    case Incoming(p, c) => AcceptMovesNoDial(st, p, c);
    case HandlerExits(c) => ExitMovesNoDial(st, c);
    case NotifyLeave(p) => CloseMovesNoDial(st, p);
    case NotifyUpdate(p) => CloseMovesNoDial(st, p);
    case NotifyAliveDead(p) => CloseMovesNoDial(st, p);
    case Decide(_) =>
    case ResetAttempts(_) =>
  }

  lemma JoinMovesDials(st: State, p: NodeId)
    ensures StartJoin(st, p).dials == st.dials + (if p == st.self || p in st.conns then multiset{} else multiset{p})
  {
  }

  lemma DialMovesDials(st: State, p: NodeId, c: ConnId)
    ensures FinishDial(st, p, c).dials == st.dials - multiset{p}
  {
  }

  lemma AcceptMovesNoDial(st: State, p: NodeId, c: ConnId)
    ensures Accept(st, p, c).dials == st.dials
  {
  }

  lemma ExitMovesNoDial(st: State, c: ConnId)
    requires c in st.all && st.all[c].origin.Served?
    ensures CleanUp(st, c).dials == st.dials
  {
  }

  lemma CloseMovesNoDial(st: State, p: NodeId)
    ensures CloseRegistered(st, p).dials == st.dials
  {
  }

  /** A handler that registered its connection takes it out of the registry when it exits, if it
      is still there. */
  lemma ExitUnregisters(trace: seq<State>, steps: seq<Step>, i: nat, c: ConnId)
    requires IsRun(trace, steps) && i < |steps| && steps[i] == HandlerExits(c)
    ensures c in trace[i].all && trace[i].all[c].origin.Served?
    ensures forall p | p in trace[i].conns && trace[i].conns[p] == c :: p in trace[i + 1].conns <==> !trace[i].all[c].origin.owns
  {
    RunKeepsRegistry(trace, steps, i);
  }

  // ----- the retries

  /** Failures are numbered from one within an epoch, and decided at most once. */
  ghost predicate Numbered(n: Counting) {
    (forall f | f in n.deciding || f in n.retries :: Counted(n, f)) &&
    (forall f | f in n.retries :: f !in n.deciding && f.attempt < MAX_ATTEMPTS && f.epoch <= n.retries[f] <= Epoch(n, f.peer))
  }

  predicate Counted(n: Counting, f: Failed) {
    1 <= f.attempt && (f.epoch < Epoch(n, f.peer) || (f.epoch == Epoch(n, f.peer) && f.attempt <= Attempts(n, f.peer)))
  }

  function AfterStep(n: Counting, step: Step): Counting {
    match step
    case DialFails(p) => CountFailure(n, p)
    case Decide(f) => DecideRetry(n, f)
    case ResetAttempts(p) => Reset(n, p)
    case _ => n
  }

  lemma StepCounts(st: State, step: Step)
    requires Enabled(st, step)
    ensures Apply(st, step).count == AfterStep(st.count, step)
    ensures step.Decide? ==> step.failure in st.count.deciding
  {
  }

  lemma StepKeepsNumbers(n: Counting, step: Step)
    requires Numbered(n) && (step.Decide? ==> step.failure in n.deciding)
    ensures Numbered(AfterStep(n, step))
  {
  }

  lemma {:induction false} RunKeepsNumbers(trace: seq<State>, steps: seq<Step>, i: nat)
    requires IsRun(trace, steps) && i < |trace|
    ensures Numbered(trace[i].count) && Complete(trace[i].count)
  {
    if i > 0 {
      RunKeepsNumbers(trace, steps, i - 1);
      StepKeepsComplete(trace[i - 1].count, steps[i - 1]);
      StepKeepsNumbers(trace[i - 1].count, steps[i - 1]);
      StepCounts(trace[i - 1], steps[i - 1]);
    }
  }

  /** Of the failures of the present epoch each one below the limit is undecided or led to a
      retry. */
  ghost predicate Complete(n: Counting) {
    forall p, m {:trigger Failed(p, Epoch(n, p), m)} | 1 <= m <= Attempts(n, p) && m < MAX_ATTEMPTS ::
      Failed(p, Epoch(n, p), m) in n.deciding || Failed(p, Epoch(n, p), m) in n.retries
  }

  lemma StepKeepsComplete(n: Counting, step: Step)
    requires Complete(n)
    ensures Complete(AfterStep(n, step))
  {
    var n' := AfterStep(n, step);
    forall p, m | 1 <= m <= Attempts(n', p) && m < MAX_ATTEMPTS
      ensures Failed(p, Epoch(n', p), m) in n'.deciding || Failed(p, Epoch(n', p), m) in n'.retries
    {
      if m <= Attempts(n, p) && Epoch(n', p) == Epoch(n, p) {
        assert Failed(p, Epoch(n, p), m) in n.deciding || Failed(p, Epoch(n, p), m) in n.retries;
      }
    }
  }

  /** The retries that failures of one epoch led to. */
  function CountedIn(n: Counting, p: NodeId, epoch: nat): set<Failed> {
    set f | f in n.retries && f.peer == p && f.epoch == epoch
  }

  /** The retries that were scheduled during one epoch. */
  function ScheduledIn(n: Counting, p: NodeId, epoch: nat): set<Failed> {
    set f | f in n.retries && f.peer == p && n.retries[f] == epoch
  }

  /** The failures of a peer that are counted but not decided. */
  function Undecided(n: Counting, p: NodeId): set<Failed> {
    set f | f in n.deciding && f.peer == p
  }

  /** Those of them that will lead to a retry. */
  function Pending(n: Counting, p: NodeId): set<Failed> {
    set f | f in Undecided(n, p) && f.attempt < MAX_ATTEMPTS
  }

  /** The sum of the delays of some retries. */
  ghost function TotalDelay(fs: set<Failed>): nat {
    if fs == {} then 0
    else
      var f :| f in fs;
      Delay(f) + TotalDelay(fs - {f})
  }

  lemma {:induction false} TotalDelayWithout(fs: set<Failed>, f: Failed)
    requires f in fs
    ensures TotalDelay(fs) == Delay(f) + TotalDelay(fs - {f})
    decreases |fs|
  {
    var g :| g in fs && TotalDelay(fs) == Delay(g) + TotalDelay(fs - {g});
    if f != g {
      TotalDelayWithout(fs - {g}, f);
      TotalDelayWithout(fs - {f}, g);
      assert fs - {g} - {f} == fs - {f} - {g};
    }
  }

  /** Failures of one epoch with numbers up to n: there are at most n, and their delays sum to
      at most 100 ms times the sum of the first n squares, exactly that if all are there. */
  lemma {:induction false} DelaysBounded(fs: set<Failed>, p: NodeId, epoch: nat, n: nat)
    requires forall f | f in fs :: f.peer == p && f.epoch == epoch && 1 <= f.attempt <= n
    ensures |fs| <= n && TotalDelay(fs) <= BackoffSum(n)
    ensures (forall m | 1 <= m <= n :: Failed(p, epoch, m) in fs) ==> |fs| == n && TotalDelay(fs) == BackoffSum(n)
  {
    hide TotalDelay;
    if n == 0 {
      assert fs == {} by {
        assert forall f | f in fs :: false;
      }
      NoDelay();
    } else {
      var last := Failed(p, epoch, n);
      DelaysBounded(fs - {last}, p, epoch, n - 1);
      if last in fs {
        TotalDelayWithout(fs, last);
        assert forall m | 1 <= m < n :: Failed(p, epoch, m) in fs ==> Failed(p, epoch, m) in fs - {last};
      } else {
        assert fs - {last} == fs;
      }
    }
  }

  lemma NoDelay()
    ensures TotalDelay({}) == 0
  {
  }

  /** 100 ms times the sum of the first n squares. */
  function BackoffSum(n: nat): nat {
    if n == 0 then 0 else BackoffSum(n - 1) + n * n * 100
  }

  lemma AllDecided(n: Counting, p: NodeId)
    requires Complete(n) && Numbered(n)
    ensures Attempts(n, p) >= 4 && Undecided(n, p) == {} ==>
              forall m | 1 <= m <= 4 :: Failed(p, Epoch(n, p), m) in CountedIn(n, p, Epoch(n, p))
  {
    if Attempts(n, p) >= 4 && Undecided(n, p) == {} {
      forall m | 1 <= m <= 4 ensures Failed(p, Epoch(n, p), m) in CountedIn(n, p, Epoch(n, p)) {
        assert Failed(p, Epoch(n, p), m) !in Undecided(n, p);
      }
    }
  }

  /** The failures that are counted between two resets of a peer's counter lead to at most four
      retries, over all the dials that run at once, and their delays sum to at most 3000 ms; once
      four were counted and all are decided, it is exactly that. */
  lemma RetriesBounded(trace: seq<State>, steps: seq<Step>, i: nat, p: NodeId, epoch: nat)
    requires IsRun(trace, steps) && i < |trace|
    ensures var retried := CountedIn(trace[i].count, p, epoch);
            |retried| <= 4 && TotalDelay(retried) <= 3000 &&
            (epoch == Epoch(trace[i].count, p) && Attempts(trace[i].count, p) >= 4 && Undecided(trace[i].count, p) == {} ==>
               |retried| == 4 && TotalDelay(retried) == 3000)
  {
    RunKeepsNumbers(trace, steps, i);
    AllDecided(trace[i].count, p);
    DelaysBounded(CountedIn(trace[i].count, p, epoch), p, epoch, 4);
    assert BackoffSum(2) == 500;
    assert BackoffSum(4) == 3000;
  }

  /** How often a retry of the peer fired. */
  function Fired(steps: seq<Step>, p: NodeId): nat {
    if steps == [] then 0
    else Fired(steps[..|steps| - 1], p) + (if steps[|steps| - 1] == RetryFires(p) then 1 else 0)
  }

  function RetriesOf(n: Counting, p: NodeId): set<Failed> {
    set f | f in n.retries && f.peer == p
  }

  /** Whether a step schedules a retry of the peer. */
  predicate Schedules(step: Step, p: NodeId) {
    step.Decide? && step.failure.peer == p && step.failure.attempt < MAX_ATTEMPTS
  }

  lemma StepMovesTimers(st: State, step: Step, p: NodeId)
    requires Enabled(st, step)
    ensures Apply(st, step).timers[p] ==
            st.timers[p] + (if Schedules(step, p) then 1 else 0) - (if step == RetryFires(p) then 1 else 0)
  {
    hide CountFailure, DecideRetry, Reset;
  }

  lemma StepAddsRetries(n: Counting, step: Step, p: NodeId)
    requires Numbered(n) && (step.Decide? ==> step.failure in n.deciding)
    ensures |RetriesOf(AfterStep(n, step), p)| == |RetriesOf(n, p)| + (if Schedules(step, p) then 1 else 0)
  {
    if Schedules(step, p) {
      assert RetriesOf(AfterStep(n, step), p) == RetriesOf(n, p) + {step.failure};
    } else {
      assert RetriesOf(AfterStep(n, step), p) == RetriesOf(n, p);
    }
  }

  /** Retries are conserved: each one is a timer until it fires, and every timer is one. */
  lemma {:induction false} TimersAreRetries(trace: seq<State>, steps: seq<Step>, i: nat, p: NodeId)
    requires IsRun(trace, steps) && i <= |steps|
    ensures trace[i].timers[p] + Fired(steps[..i], p) == |RetriesOf(trace[i].count, p)|
  {
    hide Apply, Enabled, Numbered, RetriesOf, AfterStep, Schedules;
    if i == 0 {
      NoRetries(trace[0], p);
    } else {
      TimersAreRetries(trace, steps, i - 1, p);
      RunKeepsNumbers(trace, steps, i - 1);
      StepCounts(trace[i - 1], steps[i - 1]);
      StepMovesTimers(trace[i - 1], steps[i - 1], p);
      StepAddsRetries(trace[i - 1].count, steps[i - 1], p);
      assert steps[..i][..i - 1] == steps[..i - 1];
    }
  }

  lemma NoRetries(st: State, p: NodeId)
    requires st == Init(st.self)
    ensures st.timers[p] == 0 && |RetriesOf(st.count, p)| == 0
  {
    assert RetriesOf(st.count, p) == {};
  }

  /** The peer whose counter is to be reset because of a step: at its leave, its update, a dial to
      it that is registered, and a join or retry that finds it registered. */
  function ResetCause(st: State, step: Step): multiset<NodeId> {
    match step
    case NotifyLeave(p) => multiset{p}
    case NotifyUpdate(p) => multiset{p}
    case DialCompletes(p, _) => if p in st.conns then multiset{} else multiset{p}
    case NotifyJoin(p) => if p in st.conns then multiset{p} else multiset{}
    case RetryFires(p) => if p in st.conns then multiset{p} else multiset{}
    case _ => multiset{}
  }

  /** Each cause brings one reset, and nothing else does. */
  lemma ResetsAreCaused(trace: seq<State>, steps: seq<Step>, i: nat)
    requires IsRun(trace, steps) && i < |steps|
    ensures trace[i + 1].resetting ==
            trace[i].resetting + ResetCause(trace[i], steps[i]) -
            (if steps[i].ResetAttempts? then multiset{steps[i].peer} else multiset{})
  {
    RunKeepsRegistry(trace, steps, i);
    StepMovesResets(trace[i], steps[i]);
  }

  lemma StepMovesResets(st: State, step: Step)
    requires Enabled(st, step) && st.self !in st.conns
    ensures Apply(st, step).resetting ==
            st.resetting + ResetCause(st, step) - (if step.ResetAttempts? then multiset{step.peer} else multiset{})
  {
    hide StartJoin, CloseRegistered, FinishDial, Accept, CleanUp, CountFailure, DecideRetry, Reset;
    match step
    case NotifyJoin(q) => JoinMovesResets(st, q);
    case RetryFires(q) => JoinMovesResets(st.(timers := st.timers - multiset{q}), q);
    case DialCompletes(q, c) => DialMovesResets(st, q, c);
    case Incoming(q, c) => AcceptMovesNoReset(st, q, c);
    case HandlerExits(c) => ExitMovesNoReset(st, c);
    case NotifyLeave(q) => CloseMovesNoReset(st, q);
    case NotifyUpdate(q) => CloseMovesNoReset(st, q);
    case NotifyAliveDead(q) => CloseMovesNoReset(st, q);
    case DialFails(_) =>
    case Decide(_) =>
    case ResetAttempts(_) =>
  }

  lemma JoinMovesResets(st: State, p: NodeId)
    requires st.self !in st.conns
    ensures StartJoin(st, p).resetting == st.resetting + (if p in st.conns then multiset{p} else multiset{})
  {
  }

  lemma DialMovesResets(st: State, p: NodeId, c: ConnId)
    ensures FinishDial(st, p, c).resetting == st.resetting + (if p in st.conns then multiset{} else multiset{p})
  {
  }

  lemma AcceptMovesNoReset(st: State, p: NodeId, c: ConnId)
    ensures Accept(st, p, c).resetting == st.resetting
  {
  }

  lemma ExitMovesNoReset(st: State, c: ConnId)
    requires c in st.all && st.all[c].origin.Served?
    ensures CleanUp(st, c).resetting == st.resetting
  {
  }

  lemma CloseMovesNoReset(st: State, p: NodeId)
    ensures CloseRegistered(st, p).resetting == st.resetting
  {
  }

  // ----- what is scheduled between two resets

  lemma {:induction false} TotalDelayUnion(a: set<Failed>, b: set<Failed>)
    requires a !! b
    ensures TotalDelay(a + b) == TotalDelay(a) + TotalDelay(b)
    ensures |a + b| == |a| + |b|
  {
    hide TotalDelay;
    if a == {} {
      NoDelay();
      assert a + b == b;
    } else {
      var f :| f in a;
      TotalDelayUnion(a - {f}, b);
      TotalDelayWithout(a, f);
      TotalDelayWithout(a + b, f);
      assert a + b - {f} == (a - {f}) + b;
    }
  }

  lemma TotalDelayMonotone(a: set<Failed>, b: set<Failed>)
    requires a <= b
    ensures TotalDelay(a) <= TotalDelay(b) && |a| <= |b|
  {
    TotalDelayUnion(a, b - a);
    assert a + (b - a) == b;
  }

  /** What was retried in the epoch, or may still be, and was counted before it, was pending at
      its start. */
  ghost predicate CarriedOnly(n: Counting, p: NodeId, epoch: nat, carried: set<Failed>) {
    epoch <= Epoch(n, p) &&
    (forall f | f in n.deciding && f.peer == p && f.epoch < epoch && f.attempt < MAX_ATTEMPTS :: f in carried) &&
    (forall f | f in n.retries && f.peer == p && f.epoch < epoch && n.retries[f] == epoch :: f in carried)
  }

  lemma StepCarries(n: Counting, step: Step, p: NodeId, epoch: nat, carried: set<Failed>)
    requires CarriedOnly(n, p, epoch, carried) && (step.Decide? ==> step.failure in n.deciding)
    ensures CarriedOnly(AfterStep(n, step), p, epoch, carried)
  {
  }

  lemma {:induction false} RunCarries(trace: seq<State>, steps: seq<Step>, i: nat, j: nat, p: NodeId)
    requires IsRun(trace, steps) && i < |steps| && i < j < |trace| && steps[i] == ResetAttempts(p)
    ensures CarriedOnly(trace[j].count, p, Epoch(trace[i].count, p) + 1, Pending(trace[i].count, p))
  {
    if j == i + 1 {
      RunKeepsNumbers(trace, steps, i);
    } else {
      RunCarries(trace, steps, i, j - 1, p);
      StepCounts(trace[j - 1], steps[j - 1]);
      StepCarries(trace[j - 1].count, steps[j - 1], p, Epoch(trace[i].count, p) + 1, Pending(trace[i].count, p));
    }
  }

  /** A retry is scheduled after the counter is unlocked, so a reset may come in between: in
      the epoch that a reset begins at most four retries are scheduled, and one more for each
      failure that was pending at the reset. */
  lemma ScheduledBetweenResets(trace: seq<State>, steps: seq<Step>, i: nat, j: nat, p: NodeId)
    requires IsRun(trace, steps) && i < |steps| && i < j < |trace| && steps[i] == ResetAttempts(p)
    ensures var scheduled := ScheduledIn(trace[j].count, p, Epoch(trace[i].count, p) + 1);
            |scheduled| <= 4 + |Pending(trace[i].count, p)| &&
            TotalDelay(scheduled) <= 3000 + TotalDelay(Pending(trace[i].count, p))
  {
    var epoch, carried := Epoch(trace[i].count, p) + 1, Pending(trace[i].count, p);
    var own := CountedIn(trace[j].count, p, epoch);
    RunCarries(trace, steps, i, j, p);
    RunKeepsNumbers(trace, steps, i);
    RunKeepsNumbers(trace, steps, j);
    RetriesBounded(trace, steps, j, p, epoch);
    TotalDelayUnion(own, carried);
    TotalDelayMonotone(ScheduledIn(trace[j].count, p, epoch), own + carried);
  }

  /** A run goes on, without another reset of the peer's counter. */
  ghost predicate Continues(trace: seq<State>, steps: seq<Step>, trace': seq<State>, steps': seq<Step>, p: NodeId) {
    |trace'| == |steps'| + 1 && IsRun(trace', steps') && |trace| == |steps| + 1 && |steps| <= |steps'| &&
    trace'[..|trace|] == trace && steps'[..|steps|] == steps &&
    forall i | |steps| <= i < |steps'| :: steps'[i] != ResetAttempts(p)
  }

  lemma ContinueHere(trace: seq<State>, steps: seq<Step>, p: NodeId)
    requires IsRun(trace, steps)
    ensures Continues(trace, steps, trace, steps, p)
  {
  }

  lemma ContinueOn(trace0: seq<State>, steps0: seq<Step>, trace: seq<State>, steps: seq<Step>, p: NodeId, step: Step)
    returns (trace': seq<State>, steps': seq<Step>)
    requires Continues(trace0, steps0, trace, steps, p) && Enabled(trace[|steps|], step) && step != ResetAttempts(p)
    ensures Continues(trace0, steps0, trace', steps', p) && |trace'| == |steps'| + 1
    ensures trace'[|steps'|] == Apply(trace[|steps|], step)
  {
    trace', steps' := trace + [Apply(trace[|steps|], step)], steps + [step];
  }

  /** The peer is not registered, and since the counting stood at `start` in the epoch, n dials
      to it failed and led to a retry at once. */
  ghost predicate RetriedAll(st: State, start: Counting, p: NodeId, epoch: nat, n: nat) {
    p != st.self && p !in st.conns && Epoch(st.count, p) == epoch && Attempts(st.count, p) == n &&
    st.count.deciding == start.deciding && ScheduledIn(st.count, p, epoch) == FirstFailures(p, epoch, n)
  }

  function FirstFailures(p: NodeId, epoch: nat, n: nat): set<Failed> {
    set m: nat | 1 <= m <= n :: Failed(p, epoch, m)
  }

  lemma FirstFailuresNext(p: NodeId, epoch: nat, n: nat)
    ensures FirstFailures(p, epoch, n + 1) == FirstFailures(p, epoch, n) + {Failed(p, epoch, n + 1)}
  {
  }

  lemma ScheduledMore(n: Counting, n': Counting, f: Failed, epoch: nat)
    requires n'.retries == n.retries[f := epoch]
    ensures ScheduledIn(n', f.peer, epoch) == ScheduledIn(n, f.peer, epoch) + {f}
  {
  }

  /** One more dial fails, and its retry is scheduled. */
  lemma RetryOnce(st: State, start: Counting, p: NodeId, epoch: nat, n: nat) returns (st1: State, st2: State)
    requires RetriedAll(st, start, p, epoch, n) && Numbered(st.count) && n < 4
    ensures Enabled(st, NotifyJoin(p)) && st1 == Apply(st, NotifyJoin(p))
    ensures Enabled(st1, DialFails(p)) && st2 == Apply(st1, DialFails(p))
    ensures Enabled(st2, Decide(Failed(p, epoch, n + 1)))
    ensures RetriedAll(Apply(st2, Decide(Failed(p, epoch, n + 1))), start, p, epoch, n + 1)
  {
    hide FirstFailures, ScheduledIn;
    var f := Failed(p, epoch, n + 1);
    st1 := Apply(st, NotifyJoin(p));
    st2 := Apply(st1, DialFails(p));
    var end := Apply(st2, Decide(f));
    assert f !in st.count.deciding;
    assert end.count.deciding == st.count.deciding + {f} - {f} == st.count.deciding;
    assert end.count.retries == st.count.retries[f := epoch];
    ScheduledMore(st.count, end.count, f, epoch);
    FirstFailuresNext(p, epoch, n);
  }

  lemma {:induction false} RetryUpTo(trace: seq<State>, steps: seq<Step>, p: NodeId, epoch: nat, n: nat)
    returns (trace': seq<State>, steps': seq<Step>)
    requires |trace| == |steps| + 1 && IsRun(trace, steps) && p != trace[0].self && n <= 4
    requires var st := trace[|steps|].count;
             Epoch(st, p) == epoch && Attempts(st, p) == 0 && ScheduledIn(st, p, epoch) == {}
    ensures Continues(trace, steps, trace', steps', p) && |trace'| == |steps'| + 1
    ensures RetriedAll(trace'[|steps'|], trace[|steps|].count, p, epoch, n)
  {
    hide IsRun, Continues, Enabled, Apply, RetriedAll, Numbered;
    if n == 0 {
      NoneRetried(trace, steps, p, epoch);
      ContinueHere(trace, steps, p);
      trace', steps' := ContinueOn(trace, steps, trace, steps, p, NotifyLeave(p));
    } else {
      trace', steps' := RetryUpTo(trace, steps, p, epoch, n - 1);
      NumberedAtEnd(trace, steps, trace', steps', p);
      var st1, st2 := RetryOnce(trace'[|steps'|], trace[|steps|].count, p, epoch, n - 1);
      trace', steps' := ContinueOn(trace, steps, trace', steps', p, NotifyJoin(p));
      trace', steps' := ContinueOn(trace, steps, trace', steps', p, DialFails(p));
      trace', steps' := ContinueOn(trace, steps, trace', steps', p, Decide(Failed(p, epoch, n)));
    }
  }

  lemma NumberedAtEnd(trace: seq<State>, steps: seq<Step>, trace': seq<State>, steps': seq<Step>, p: NodeId)
    requires Continues(trace, steps, trace', steps', p)
    ensures Numbered(trace'[|steps'|].count)
  {
    RunKeepsNumbers(trace', steps', |steps'|);
  }

  lemma NoneRetried(trace: seq<State>, steps: seq<Step>, p: NodeId, epoch: nat)
    requires IsRun(trace, steps) && p != trace[0].self
    requires var st := trace[|steps|].count;
             Epoch(st, p) == epoch && Attempts(st, p) == 0 && ScheduledIn(st, p, epoch) == {}
    ensures Enabled(trace[|steps|], NotifyLeave(p))
    ensures RetriedAll(Apply(trace[|steps|], NotifyLeave(p)), trace[|steps|].count, p, epoch, 0)
  {
    RunKeepsRegistry(trace, steps, |steps|);
    assert FirstFailures(p, epoch, 0) == {};
  }

  /** Failures that are pending are decided, one after the other. */
  lemma {:induction false} DecideAll(trace0: seq<State>, steps0: seq<Step>, trace: seq<State>, steps: seq<Step>, p: NodeId, fs: set<Failed>)
    returns (trace': seq<State>, steps': seq<Step>)
    requires |trace| == |steps| + 1 && Continues(trace0, steps0, trace, steps, p) && fs <= Pending(trace[|steps|].count, p)
    ensures Continues(trace0, steps0, trace', steps', p) && |trace'| == |steps'| + 1
    ensures var before, after := trace[|steps|].count, trace'[|steps'|].count;
            after.deciding == before.deciding - fs && Epoch(after, p) == Epoch(before, p) &&
            ScheduledIn(after, p, Epoch(before, p)) == ScheduledIn(before, p, Epoch(before, p)) + fs
  {
    hide IsRun, Continues, Enabled, Apply;
    trace', steps' := trace, steps;
    if fs != {} {
      var f :| f in fs;
      trace', steps' := DecideAll(trace0, steps0, trace, steps, p, fs - {f});
      DecideOne(trace'[|steps'|], p, f);
      trace', steps' := ContinueOn(trace0, steps0, trace', steps', p, Decide(f));
    }
  }

  lemma DecideOne(st: State, p: NodeId, f: Failed)
    requires f in Pending(st.count, p)
    ensures Enabled(st, Decide(f))
    ensures var after := Apply(st, Decide(f)).count;
            after.deciding == st.count.deciding - {f} && Epoch(after, p) == Epoch(st.count, p) &&
            ScheduledIn(after, p, Epoch(st.count, p)) == ScheduledIn(st.count, p, Epoch(st.count, p)) + {f}
  {
    ScheduledMore(st.count, Apply(st, Decide(f)).count, f, Epoch(st.count, p));
  }

  /** The bound is reached after every reset: some continuation up to the next one schedules
      four retries and one for each pending failure, with all their delays. */
  lemma BoundIsReached(trace: seq<State>, steps: seq<Step>, p: NodeId) returns (trace': seq<State>, steps': seq<Step>)
    requires |trace| == |steps| + 1 && IsRun(trace, steps) && steps != [] && steps[|steps| - 1] == ResetAttempts(p) && p != trace[0].self
    ensures Continues(trace, steps, trace', steps', p) && |trace'| == |steps'| + 1
    ensures var pending := Pending(trace[|steps| - 1].count, p);
            var scheduled := ScheduledIn(trace'[|steps'|].count, p, Epoch(trace[|steps| - 1].count, p) + 1);
            |scheduled| == 4 + |pending| && TotalDelay(scheduled) == 3000 + TotalDelay(pending)
  {
    hide IsRun, Continues, Enabled, Apply, RetriedAll, TotalDelay;
    var pending, epoch := Pending(trace[|steps| - 1].count, p), Epoch(trace[|steps| - 1].count, p) + 1;
    AfterReset(trace, steps, p);
    trace', steps' := RetryUpTo(trace, steps, p, epoch, 4);
    RetriedFour(trace'[|steps'|], trace[|steps|].count, p, epoch);
    trace', steps' := DecideAll(trace, steps, trace', steps', p, pending);
    TotalDelayUnion(FirstFailures(p, epoch, 4), pending);
  }

  lemma AfterReset(trace: seq<State>, steps: seq<Step>, p: NodeId)
    requires IsRun(trace, steps) && steps != [] && steps[|steps| - 1] == ResetAttempts(p)
    ensures |trace| == |steps| + 1
    ensures var before, st := trace[|steps| - 1].count, trace[|steps|].count;
            var epoch := Epoch(before, p) + 1;
            Epoch(st, p) == epoch && Attempts(st, p) == 0 && ScheduledIn(st, p, epoch) == {} && st.deciding == before.deciding &&
            forall f | f in before.deciding && f.peer == p :: f.epoch < epoch
  {
    RunKeepsNumbers(trace, steps, |steps| - 1);
  }

  lemma RetriedFour(st: State, start: Counting, p: NodeId, epoch: nat)
    requires RetriedAll(st, start, p, epoch, 4)
    ensures Epoch(st.count, p) == epoch && st.count.deciding == start.deciding
    ensures ScheduledIn(st.count, p, epoch) == FirstFailures(p, epoch, 4)
    ensures |FirstFailures(p, epoch, 4)| == 4 && TotalDelay(FirstFailures(p, epoch, 4)) == 3000
  {
    DelaysBounded(FirstFailures(p, epoch, 4), p, epoch, 4);
    assert BackoffSum(2) == 500;
    assert BackoffSum(4) == 3000;
  }

  /** Every continuation of a run up to the next reset of the peer's counter schedules at most
      four retries in the present epoch, with at most 3000 ms of delay. */
  ghost predicate AtMostFour(trace: seq<State>, steps: seq<Step>, p: NodeId) {
    forall trace': seq<State>, steps': seq<Step> | Continues(trace, steps, trace', steps', p) ::
      var scheduled := ScheduledIn(trace'[|steps'|].count, p, Epoch(trace'[|steps'|].count, p));
      |scheduled| <= 4 && TotalDelay(scheduled) <= 3000
  }

  /** The limit of four retries between two resets, and of their delays, holds after a reset if
      and only if no failure was pending at it. */
  lemma LimitHoldsIff(trace: seq<State>, steps: seq<Step>, p: NodeId)
    requires IsRun(trace, steps) && steps != [] && steps[|steps| - 1] == ResetAttempts(p)
    ensures AtMostFour(trace, steps, p) <==> Pending(trace[|steps| - 1].count, p) == {}
  {
    hide TotalDelay, Apply, Enabled;
    var pending := Pending(trace[|steps| - 1].count, p);
    if pending == {} {
      forall trace': seq<State>, steps': seq<Step> | Continues(trace, steps, trace', steps', p)
        ensures var scheduled := ScheduledIn(trace'[|steps'|].count, p, Epoch(trace'[|steps'|].count, p));
                |scheduled| <= 4 && TotalDelay(scheduled) <= 3000
      {
        SameBefore(trace, steps, trace', steps', p);
        EpochStays(trace, steps, trace', steps', p, |steps'|);
        AfterReset(trace, steps, p);
        ScheduledBetweenResets(trace', steps', |steps| - 1, |steps'|, p);
        NoDelay();
      }
    } else {
      RunKeepsRegistry(trace, steps, |steps| - 1);
      var trace', steps' := BoundIsReached(trace, steps, p);
      EpochStays(trace, steps, trace', steps', p, |steps'|);
      AfterReset(trace, steps, p);
      NotNone(pending);
    }
  }

  lemma NotNone(fs: set<Failed>)
    requires fs != {}
    ensures |fs| >= 1
  {
  }

  lemma SameBefore(trace: seq<State>, steps: seq<Step>, trace': seq<State>, steps': seq<Step>, p: NodeId)
    requires Continues(trace, steps, trace', steps', p)
    ensures forall i | 0 <= i < |trace| :: trace'[i] == trace[i]
    ensures forall i | 0 <= i < |steps| :: steps'[i] == steps[i]
  {
    assert forall i | 0 <= i < |trace| :: trace'[i] == trace'[..|trace|][i];
    assert forall i | 0 <= i < |steps| :: steps'[i] == steps'[..|steps|][i];
  }

  lemma {:induction false} EpochStays(trace: seq<State>, steps: seq<Step>, trace': seq<State>, steps': seq<Step>, p: NodeId, i: nat)
    requires Continues(trace, steps, trace', steps', p) && |steps| <= i <= |steps'|
    ensures Epoch(trace'[i].count, p) == Epoch(trace[|steps|].count, p)
  {
    if i == |steps| {
      SameBefore(trace, steps, trace', steps', p);
    } else {
      EpochStays(trace, steps, trace', steps', p, i - 1);
      StepCounts(trace'[i - 1], steps'[i - 1]);
    }
  }

  /** The condition can fail: a dial fails, the peer leaves, and its counter is reset before the
      retry of the dial is decided. Then a fifth retry can be scheduled before the next reset. */
  lemma FifthRetryPossible(self: NodeId, p: NodeId) returns (trace: seq<State>, steps: seq<Step>, trace': seq<State>, steps': seq<Step>)
    requires p != self
    ensures |trace| == 5 && IsRun(trace, steps) && trace[0] == Init(self)
    ensures steps == [NotifyJoin(p), DialFails(p), NotifyLeave(p), ResetAttempts(p)]
    ensures Continues(trace, steps, trace', steps', p)
    ensures |trace'| == |steps'| + 1 && |ScheduledIn(trace'[|steps'|].count, p, 1)| == 5
  {
    hide Continues;
    steps := [NotifyJoin(p), DialFails(p), NotifyLeave(p), ResetAttempts(p)];
    var st0 := Init(self);
    var st1 := Apply(st0, steps[0]);
    var st2 := Apply(st1, steps[1]);
    var st3 := Apply(st2, steps[2]);
    trace := [st0, st1, st2, st3, Apply(st3, steps[3])];
    assert Pending(st3.count, p) == {Failed(p, 0, 1)};
    trace', steps' := BoundIsReached(trace, steps, p);
  }

  /** The connected nodes: each registered peer once, and never this node. */
  method GetConnectedNodes(st: State) returns (ids: seq<NodeId>)
    ensures Distinct(ids) && Elements(ids) == st.conns.Keys - {st.self}
  {
    ids := [];
    var todo := st.conns.Keys;
    while todo != {}
      invariant todo <= st.conns.Keys && Distinct(ids)
      invariant Elements(ids) == st.conns.Keys - todo - {st.self}
      decreases todo
    {
      var id :| id in todo;
      todo := todo - {id};
      if st.self == id {
        continue;
      }
      assert id !in Elements(ids);
      ElementsSnoc(ids, id);
      ids := ids + [id];
    }
  }
}

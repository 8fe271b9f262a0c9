/** What the rebalancers' cycles do to a key while the membership rests. The cycles of different
    nodes overlap as they like, and a send may arrive at any later time. */
module Placement {
  import opened Common
  import opened Rendezvous
  import opened Cluster

  // ----- a node runs a whole cycle

  /** From step i on the node runs one cycle, which has come to its end before step j. */
  ghost predicate RunsCycle(trace: seq<State>, steps: seq<Step>, n: NodeId, i: int, j: int) {
    0 <= i < j < |trace| <= |steps| + 1 && steps[i].StartCycle? && steps[i].n == n &&
    (forall t | i < t < j :: !StartsCycle(steps[t], n)) &&
    CycleOf(trace[j], n) == []
  }

  predicate StartsCycle(step: Step, n: NodeId) {
    step.StartCycle? && step.n == n
  }

  ghost predicate RanCycle(trace: seq<State>, steps: seq<Step>, n: NodeId) {
    exists i, j :: RunsCycle(trace, steps, n, i, j)
  }

  /** Only the node's own steps change its running cycle: a start, and the key it deals with. */
  lemma CycleAdvances(cfg: Config, st: State, step: Step, n: NodeId)
    requires Enabled(st, step) && !StartsCycle(step, n) && n !in Changes(step)
    ensures CycleOf(Apply(cfg, st, step), n) ==
            if step.ProcessKey? && step.n == n then CycleOf(st, n)[1..] else CycleOf(st, n)
  {
  }

  /** What is on the list of a running cycle that comes to its end is dealt with on the way. */
  lemma {:induction false} EntryProcessed(cfg: Config, trace: seq<State>, steps: seq<Step>, n: NodeId, snap: Snapshot, i: nat, j: nat)
    returns (t: nat)
    requires IsRun(cfg, trace, steps) && i <= j <= |steps|
    requires forall u | i <= u < j :: !StartsCycle(steps[u], n) && n !in Changes(steps[u])
    requires snap in CycleOf(trace[i], n) && CycleOf(trace[j], n) == []
    ensures i <= t < j && steps[t] == ProcessKey(n) && CycleOf(trace[t], n) != [] && CycleOf(trace[t], n)[0] == snap
    decreases j - i
  {
    CycleAdvances(cfg, trace[i], steps[i], n);
    if steps[i] == ProcessKey(n) && CycleOf(trace[i], n)[0] == snap {
      t := i;
    } else {
      t := EntryProcessed(cfg, trace, steps, n, snap, i + 1, j);
    }
  }

  /** A node that runs a cycle deals with each key that it holds at the start of it. */
  lemma HeldKeyProcessed(cfg: Config, trace: seq<State>, steps: seq<Step>, n: NodeId, k: Key, i: nat, j: nat) returns (t: nat)
    requires IsRun(cfg, trace, steps) && RunsCycle(trace, steps, n, i, j)
    requires forall u | i <= u < j :: n !in Changes(steps[u])
    requires k in StoreOf(trace[i], n)
    ensures i < t < j && steps[t] == ProcessKey(n) && CycleOf(trace[t], n) != [] && CycleOf(trace[t], n)[0].key == k
  {
    var order := steps[i].order;
    assert k in Elements(order);
    var p :| 0 <= p < |order| && order[p] == k;
    assert CycleOf(trace[i + 1], n) == Take(StoreOf(trace[i], n), order);
    assert CycleOf(trace[i + 1], n)[p].key == k;
    t := EntryProcessed(cfg, trace, steps, n, CycleOf(trace[i + 1], n)[p], i + 1, j);
  }

  // ----- a resting cluster

  /** Nobody joins or leaves, and no eviction takes the key. */
  predicate Rests(step: Step, k: Key) {
    Changes(step) == {} && !(step.Evict? && step.k == k)
  }

  /** A copy with the value, and with no deadline before `until`. */
  predicate FitCopy(c: Copy, v: Value, until: int) {
    c.value == v && (c.expiresAt.Some? ==> c.expiresAt.value >= until)
  }

  ghost predicate FitStores(reps: set<NodeId>, st: State, k: Key, v: Value, until: int) {
    forall n | n in reps && k in StoreOf(st, n) :: FitCopy(StoreOf(st, n)[k], v, until)
  }

  ghost predicate FitCycles(reps: set<NodeId>, st: State, k: Key, v: Value, until: int) {
    forall n, i | n in reps && 0 <= i < |CycleOf(st, n)| && CycleOf(st, n)[i].key == k ::
      FitCopy(CycleOf(st, n)[i].copy, v, until)
  }

  /** The replicas agree on the value of the key, as far as they have it, and nothing of it
      expires before `until`. Each holder may have a deadline of its own; what the other members
      have does not matter. */
  ghost predicate Fit(reps: set<NodeId>, st: State, k: Key, v: Value, until: int) {
    FitStores(reps, st, k, v, until) && FitCycles(reps, st, k, v, until)
  }

  /** A message does no harm when it arrives now: a set leaves a fit copy at a replica, a ttl
      change of a replica's copy a deadline that is late enough, and a delete does not reach a
      replica. */
  predicate FitMsg(cfg: Config, st: State, m: Msg, v: Value, until: int) {
    match m.body
    case SetBody(w, ttl) => m.to in Replicas(cfg, st, m.key) && FitCopy(ReceivedCopy(w, ttl, st.now), v, until)
    case DeleteBody => m.to !in Replicas(cfg, st, m.key)
    case TtlBody(ttl) => m.to in Replicas(cfg, st, m.key) ==> st.now + ttl >= until
  }

  predicate ArrivesFit(cfg: Config, st: State, step: Step, k: Key, v: Value, until: int) {
    step.Deliver? && step.m.key == k && step.m.to in st.members ==> FitMsg(cfg, st, step.m, v, until)
  }

  lemma FitSends(cfg: Config, reps: set<NodeId>, st: State, n: NodeId, k: Key, v: Value, until: int)
    requires reps == Replicas(cfg, st, k) && Fit(reps, st, k, v, until) && Enabled(st, ProcessKey(n))
    ensures forall m | m in Sent(cfg, st, n) && m.key == k :: m.body.SetBody? && FitMsg(cfg, st, m, v, until)
  {
    assert CycleOf(st, n)[0].key == k && n in reps ==> FitCopy(CycleOf(st, n)[0].copy, v, until);
  }

  lemma FitProcess(cfg: Config, reps: set<NodeId>, st: State, n: NodeId, k: Key, v: Value, until: int)
    requires Fit(reps, st, k, v, until) && Enabled(st, ProcessKey(n))
    ensures Fit(reps, Process(cfg, st, n), k, v, until)
  {
    var st' := Process(cfg, st, n);
    forall x, i | x in reps && 0 <= i < |CycleOf(st', x)| && CycleOf(st', x)[i].key == k
      ensures FitCopy(CycleOf(st', x)[i].copy, v, until)
    {
      if x == n {
        assert CycleOf(st', n)[i] == CycleOf(st, n)[i + 1];
      } else {
        assert CycleOf(st', x)[i] == CycleOf(st, x)[i];
      }
    }
  }

  lemma FitDeliver(cfg: Config, reps: set<NodeId>, st: State, m: Msg, k: Key, v: Value, until: int)
    requires reps == Replicas(cfg, st, k) && Fit(reps, st, k, v, until) && ArrivesFit(cfg, st, Deliver(m), k, v, until)
    ensures Fit(reps, Receive(st, m), k, v, until)
  {
    assert forall x :: CycleOf(Receive(st, m), x) == CycleOf(st, x);
  }

  lemma FitStart(cfg: Config, reps: set<NodeId>, st: State, n: NodeId, order: seq<Key>, k: Key, v: Value, until: int)
    requires Fit(reps, st, k, v, until) && Enabled(st, StartCycle(n, order))
    ensures Fit(reps, Apply(cfg, st, StartCycle(n, order)), k, v, until)
  {
    var st' := Apply(cfg, st, StartCycle(n, order));
    forall x, i | x in reps && 0 <= i < |CycleOf(st', x)| && CycleOf(st', x)[i].key == k
      ensures FitCopy(CycleOf(st', x)[i].copy, v, until)
    {
      if x == n {
        assert order[i] in Elements(order);
        assert CycleOf(st', n)[i] == Snapshot(order[i], StoreOf(st, n)[order[i]]);
      } else {
        assert CycleOf(st', x)[i] == CycleOf(st, x)[i];
      }
    }
  }

  lemma FitLater(reps: set<NodeId>, st: State, st': State, k: Key, v: Value, until: int)
    requires Fit(reps, st, k, v, until)
    requires st'.members == st.members && st'.store == st.store && st'.cycle == st.cycle
    ensures Fit(reps, st', k, v, until)
  {
    assert forall x :: CycleOf(st', x) == CycleOf(st, x);
  }

  lemma FitEvict(reps: set<NodeId>, st: State, n: NodeId, k': Key, k: Key, v: Value, until: int)
    requires Fit(reps, st, k, v, until) && k' != k
    ensures Fit(reps, DropAt(st, n, k'), k, v, until)
  {
    assert forall x :: CycleOf(DropAt(st, n, k'), x) == CycleOf(st, x);
  }

  lemma StepStaysFit(cfg: Config, reps: set<NodeId>, st: State, step: Step, k: Key, v: Value, until: int)
    requires reps == Replicas(cfg, st, k) && Fit(reps, st, k, v, until)
    requires Enabled(st, step) && Rests(step, k) && ArrivesFit(cfg, st, step, k, v, until)
    ensures Fit(reps, Apply(cfg, st, step), k, v, until)
  {
    match step
    case Deliver(m) => FitDeliver(cfg, reps, st, m, k, v, until);
    case StartCycle(n, order) => FitStart(cfg, reps, st, n, order, k, v, until);
    case ProcessKey(n) => FitProcess(cfg, reps, st, n, k, v, until);
    case Evict(n, k') => FitEvict(reps, st, n, k', k, v, until);
    case Tick(_) => FitLater(reps, st, Apply(cfg, st, step), k, v, until);
    case ClientSet(_, _, _) => FitLater(reps, st, Apply(cfg, st, step), k, v, until);
    case ClientDelete(_) => FitLater(reps, st, Apply(cfg, st, step), k, v, until);
    case ClientSetTtl(_, _) => FitLater(reps, st, Apply(cfg, st, step), k, v, until);
    case CollectExpired(_) => FitLater(reps, st, Apply(cfg, st, step), k, v, until);
    case DeleteExpired(_, _) => FitLater(reps, st, Apply(cfg, st, step), k, v, until);
  }

  /** A rebalancer sent the message earlier in the run. */
  ghost predicate SentWithin(cfg: Config, trace: seq<State>, steps: seq<Step>, i: int, m: Msg) {
    exists j :: SentAt(cfg, trace, steps, j, i, m)
  }

  ghost predicate SentAt(cfg: Config, trace: seq<State>, steps: seq<Step>, j: int, i: int, m: Msg) {
    0 <= j < i <= |steps| < |trace| && steps[j].ProcessKey? && CycleOf(trace[j], steps[j].n) != [] &&
    m in Sent(cfg, trace[j], steps[j].n)
  }

  /** The assumptions on a run in which the rebalancers place a key. Of the messages that arrive
      those are assumed to do no harm that are older than the run or come from a client or a ttl
      worker; nothing is assumed of what the rebalancers send. */
  ghost predicate PlacingRun(cfg: Config, trace: seq<State>, steps: seq<Step>, k: Key, v: Value, until: int) {
    IsRun(cfg, trace, steps) && Fit(Replicas(cfg, trace[0], k), trace[0], k, v, until) &&
    (forall i | 0 <= i < |steps| :: Rests(steps[i], k)) &&
    (forall i | 0 <= i < |steps| && steps[i].Deliver? ::
       SentWithin(cfg, trace, steps, i, steps[i].m) || ArrivesFit(cfg, trace[i], steps[i], k, v, until)) &&
    (forall i | 0 <= i < |trace| :: trace[i].now < until)
  }

  lemma NobodyChanges(steps: seq<Step>, k: Key)
    requires forall i | 0 <= i < |steps| :: Rests(steps[i], k)
    ensures forall i | 0 <= i < |steps| :: Changes(steps[i]) == {}
  {
  }

  lemma {:induction false} StaysTheSame(cfg: Config, trace: seq<State>, steps: seq<Step>, k: Key, i: nat, j: nat)
    requires IsRun(cfg, trace, steps) && i <= j <= |steps|
    requires forall t | 0 <= t < |steps| :: Rests(steps[t], k)
    ensures Replicas(cfg, trace[j], k) == Replicas(cfg, trace[i], k) && trace[j].members == trace[i].members
    ensures trace[j].now >= trace[i].now
  {
    if i < j {
      StaysTheSame(cfg, trace, steps, k, i, j - 1);
    }
  }

  /** What a rebalancer sent is still harmless when it arrives later. */
  lemma SentStaysFit(cfg: Config, trace: seq<State>, steps: seq<Step>, k: Key, v: Value, until: int, j: nat, i: nat, m: Msg)
    requires IsRun(cfg, trace, steps) && j < i <= |steps| && SentAt(cfg, trace, steps, j, i, m) && m.key == k
    requires forall t | 0 <= t < |steps| :: Rests(steps[t], k)
    requires Fit(Replicas(cfg, trace[j], k), trace[j], k, v, until)
    ensures FitMsg(cfg, trace[i], m, v, until)
  {
    hide Fit, Apply, Rests, Replicas, Sent;
    FitSends(cfg, Replicas(cfg, trace[j], k), trace[j], steps[j].n, k, v, until);
    StaysTheSame(cfg, trace, steps, k, j, i);
  }

  lemma {:induction false} StaysFit(cfg: Config, trace: seq<State>, steps: seq<Step>, k: Key, v: Value, until: int, i: nat)
    requires PlacingRun(cfg, trace, steps, k, v, until) && i <= |steps|
    ensures forall t | 0 <= t <= i :: Fit(Replicas(cfg, trace[t], k), trace[t], k, v, until)
    ensures forall t | 0 <= t < i :: ArrivesFit(cfg, trace[t], steps[t], k, v, until)
    ensures Replicas(cfg, trace[i], k) == Replicas(cfg, trace[0], k) && trace[i].members == trace[0].members
  {
    hide Fit, Apply, Enabled, Rests, Replicas, SentAt, FitMsg;
    StaysTheSame(cfg, trace, steps, k, 0, i);
    if i > 0 {
      StaysFit(cfg, trace, steps, k, v, until, i - 1);
      var step := steps[i - 1];
      if step.Deliver? && step.m.key == k && SentWithin(cfg, trace, steps, i - 1, step.m) {
        var j :| SentAt(cfg, trace, steps, j, i - 1, step.m);
        SentBefore(cfg, trace, steps, j, i - 1, step.m);
        SentStaysFit(cfg, trace, steps, k, v, until, j, i - 1, step.m);
      }
      StepStaysFit(cfg, Replicas(cfg, trace[i - 1], k), trace[i - 1], step, k, v, until);
    }
  }

  lemma SentBefore(cfg: Config, trace: seq<State>, steps: seq<Step>, j: int, i: int, m: Msg)
    requires SentAt(cfg, trace, steps, j, i, m)
    ensures 0 <= j < i
  {
  }

  /** A replica that has the key keeps it. */
  lemma {:induction false} ReplicaKeeps(cfg: Config, trace: seq<State>, steps: seq<Step>, k: Key, v: Value, until: int, r: NodeId, i: nat, j: nat)
    requires PlacingRun(cfg, trace, steps, k, v, until) && i <= j <= |steps|
    requires r in Replicas(cfg, trace[0], k) && k in StoreOf(trace[i], r)
    ensures k in StoreOf(trace[j], r)
  {
    hide Fit, ArrivesFit, Apply, Enabled, Rests, Replicas, StoreOf;
    if i < j {
      ReplicaKeeps(cfg, trace, steps, k, v, until, r, i, j - 1);
      StaysFit(cfg, trace, steps, k, v, until, j);
      StaysTheSame(cfg, trace, steps, k, 0, j - 1);
      StepKeepsAtReplica(cfg, trace[j - 1], steps[j - 1], k, v, until, r);
    }
  }

  lemma StepKeepsAtReplica(cfg: Config, st: State, step: Step, k: Key, v: Value, until: int, r: NodeId)
    requires ArrivesFit(cfg, st, step, k, v, until) && Enabled(st, step) && Rests(step, k)
    requires r in Replicas(cfg, st, k) && k in StoreOf(st, r)
    ensures k in StoreOf(Apply(cfg, st, step), r)
  {
    if Removes(step, k) && step.m.to != r {
      assert StoreOf(Apply(cfg, st, step), r) == StoreOf(st, r);
    } else {
      ReplicaKeepsKey(cfg, st, step, k, r);
    }
  }

  /** A member that is no replica and does not have the key stays without it. */
  lemma {:induction false} OthersStayWithout(cfg: Config, trace: seq<State>, steps: seq<Step>, k: Key, v: Value, until: int, x: NodeId, i: nat, j: nat)
    requires PlacingRun(cfg, trace, steps, k, v, until) && i <= j <= |steps|
    requires x in trace[0].members && x !in Replicas(cfg, trace[0], k) && k !in StoreOf(trace[i], x)
    ensures k !in StoreOf(trace[j], x)
  {
    hide Fit, ArrivesFit, Apply, Enabled, Rests, Replicas, StoreOf;
    if i < j {
      OthersStayWithout(cfg, trace, steps, k, v, until, x, i, j - 1);
      StaysFit(cfg, trace, steps, k, v, until, j);
      StaysTheSame(cfg, trace, steps, k, 0, j - 1);
      StepStaysWithout(cfg, trace[j - 1], steps[j - 1], k, v, until, x);
    }
  }

  lemma StepStaysWithout(cfg: Config, st: State, step: Step, k: Key, v: Value, until: int, x: NodeId)
    requires ArrivesFit(cfg, st, step, k, v, until) && Enabled(st, step) && Rests(step, k)
    requires x in st.members && x !in Replicas(cfg, st, k) && k !in StoreOf(st, x)
    ensures k !in StoreOf(Apply(cfg, st, step), x)
  {
  }

  /** A member that is no replica is without the key once it has run a cycle. */
  lemma OthersDrop(cfg: Config, trace: seq<State>, steps: seq<Step>, k: Key, v: Value, until: int, h: NodeId, x: NodeId)
    requires PlacingRun(cfg, trace, steps, k, v, until) && h in Replicas(cfg, trace[0], k)
    requires x in trace[0].members && x !in Replicas(cfg, trace[0], k) && RanCycle(trace, steps, x)
    ensures k !in StoreOf(Last(trace), x)
  {
    hide Fit, Enabled, Apply, StoreOf, Replicas;
    var i, j :| RunsCycle(trace, steps, x, i, j);
    var t := i;
    if k in StoreOf(trace[i], x) {
      StaysFit(cfg, trace, steps, k, v, until, i);
      NobodyChanges(steps, k);
      t := HeldKeyProcessed(cfg, trace, steps, x, k, i, j);
      StaysFit(cfg, trace, steps, k, v, until, t);
      OtherDrops(cfg, trace[t], k, h, x);
      t := t + 1;
    }
    OthersStayWithout(cfg, trace, steps, k, v, until, x, t, |steps|);
  }

  lemma OtherDrops(cfg: Config, st: State, k: Key, h: NodeId, x: NodeId)
    requires Enabled(st, ProcessKey(x)) && CycleOf(st, x)[0].key == k
    requires h in Replicas(cfg, st, k) && x !in Replicas(cfg, st, k)
    ensures k !in StoreOf(Apply(cfg, st, ProcessKey(x)), x)
  {
  }

  /** Whatever the node sends of the key from step i until step j arrives some time later. */
  ghost predicate SendsArrive(cfg: Config, trace: seq<State>, steps: seq<Step>, k: Key, h: NodeId, i: int, j: int) {
    forall t, m | 0 <= i < t < j <= |steps| < |trace| && steps[t] == ProcessKey(h) && CycleOf(trace[t], h) != [] &&
                  m in Sent(cfg, trace[t], h) && m.key == k ::
      Arrives(steps, t, m)
  }

  /** The node runs a cycle whose sends of the key all arrive, during the cycle or after it. */
  ghost predicate CycleArrives(cfg: Config, trace: seq<State>, steps: seq<Step>, k: Key, h: NodeId) {
    exists i, j :: RunsCycle(trace, steps, h, i, j) && SendsArrive(cfg, trace, steps, k, h, i, j)
  }

  predicate Arrives(steps: seq<Step>, i: nat, m: Msg) {
    exists j | i < j < |steps| :: steps[j] == Deliver(m)
  }

  /** The other replicas have the key once one that had it ran a cycle and its sends arrived. */
  lemma ReplicasReceive(cfg: Config, trace: seq<State>, steps: seq<Step>, k: Key, v: Value, until: int, h: NodeId, r: NodeId)
    requires PlacingRun(cfg, trace, steps, k, v, until) && h in Replicas(cfg, trace[0], k) && k in StoreOf(trace[0], h)
    requires CycleArrives(cfg, trace, steps, k, h)
    requires r in Replicas(cfg, trace[0], k)
    ensures k in StoreOf(Last(trace), r)
  {
    hide Fit, Enabled, Apply, StoreOf, Replicas, Sent, Rests;
    var i, j :| RunsCycle(trace, steps, h, i, j) && SendsArrive(cfg, trace, steps, k, h, i, j);
    ReplicaKeeps(cfg, trace, steps, k, v, until, h, 0, i);
    NobodyChanges(steps, k);
    StaysFit(cfg, trace, steps, k, v, until, i);
    var t := HeldKeyProcessed(cfg, trace, steps, h, k, i, j);
    StaysFit(cfg, trace, steps, k, v, until, t);
    if r == h {
      ReplicaKeeps(cfg, trace, steps, k, v, until, h, i, |steps|);
    } else {
      var m := SentTo(cfg, trace[t], h, k, v, until, r);
      assert Arrives(steps, t, m);
      var u :| t < u < |steps| && steps[u] == Deliver(m);
      SetArrives(cfg, trace[u], m);
      ReplicaKeeps(cfg, trace, steps, k, v, until, r, u + 1, |steps|);
    }
  }

  lemma SetArrives(cfg: Config, st: State, m: Msg)
    requires Enabled(st, Deliver(m)) && m.body.SetBody?
    ensures m.key in StoreOf(Apply(cfg, st, Deliver(m)), m.to)
  {
  }

  lemma SentTo(cfg: Config, st: State, h: NodeId, k: Key, v: Value, until: int, r: NodeId) returns (m: Msg)
    requires Fit(Replicas(cfg, st, k), st, k, v, until) && st.now < until
    requires CycleOf(st, h) != [] && CycleOf(st, h)[0].key == k
    requires h in Replicas(cfg, st, k) && r in Replicas(cfg, st, k) && r != h
    ensures m in Sent(cfg, st, h) && m.to == r && m.key == k && m.body.SetBody?
  {
    var c := CycleOf(st, h)[0].copy;
    m := Msg(r, k, SetBody(c.value, RemainingTtl(c, st.now).value));
  }

  /** While the membership rests, let the replicas that have a key agree on its value, and let
      one of them have it. Once this replica and every member that is no replica have run a cycle,
      in any interleaving with each other and with everything else, and what the replica sent in
      its cycle has arrived, however late, exactly the top N members hold the key, with that
      value, and none of their copies expires before `until`. */
  lemma RoundPlacesKey(cfg: Config, trace: seq<State>, steps: seq<Step>, k: Key, v: Value, until: int, h: NodeId, m: NodeId)
    requires PlacingRun(cfg, trace, steps, k, v, until)
    requires h in Replicas(cfg, trace[0], k) && k in StoreOf(trace[0], h)
    requires forall x | x in trace[0].members && x !in Replicas(cfg, trace[0], k) :: RanCycle(trace, steps, x)
    requires CycleArrives(cfg, trace, steps, k, h)
    requires m in trace[0].members
    ensures k in StoreOf(Last(trace), m) <==> m in Replicas(cfg, trace[0], k)
    ensures k in StoreOf(Last(trace), m) ==> FitCopy(StoreOf(Last(trace), m)[k], v, until)
  {
    hide RanCycle, CycleArrives, Fit;
    if m in Replicas(cfg, trace[0], k) {
      ReplicasReceive(cfg, trace, steps, k, v, until, h, m);
      StaysFit(cfg, trace, steps, k, v, until, |steps|);
      FitHere(cfg, Last(trace), k, v, until, m);
    } else {
      OthersDrop(cfg, trace, steps, k, v, until, h, m);
    }
  }

  lemma FitHere(cfg: Config, st: State, k: Key, v: Value, until: int, m: NodeId)
    requires Fit(Replicas(cfg, st, k), st, k, v, until) && m in Replicas(cfg, st, k)
    ensures k in StoreOf(st, m) ==> FitCopy(StoreOf(st, m)[k], v, until)
  {
  }

  // ----- a key that no replica has

  /** No replica has the key or is about to send it. */
  ghost predicate Orphaned(cfg: Config, st: State, k: Key) {
    (forall r | r in Replicas(cfg, st, k) :: k !in StoreOf(st, r)) &&
    (forall r, i | r in Replicas(cfg, st, k) && 0 <= i < |CycleOf(st, r)| :: CycleOf(st, r)[i].key != k)
  }

  /** Nobody joins or leaves. */
  predicate SameMembers(step: Step) {
    Changes(step) == {}
  }

  predicate DeliversSet(step: Step, k: Key) {
    step.Deliver? && step.m.key == k && step.m.body.SetBody?
  }

  /** The assumptions on a run in which a key is lost: of the sets of the key only those that a
      rebalancer sends during the run may arrive. */
  ghost predicate OrphanRun(cfg: Config, trace: seq<State>, steps: seq<Step>, k: Key) {
    IsRun(cfg, trace, steps) && Orphaned(cfg, trace[0], k) &&
    (forall i | 0 <= i < |steps| :: SameMembers(steps[i])) &&
    (forall i | 0 <= i < |steps| && DeliversSet(steps[i], k) :: SentWithin(cfg, trace, steps, i, steps[i].m))
  }

  lemma StepStaysOrphaned(cfg: Config, st: State, step: Step, k: Key)
    requires Orphaned(cfg, st, k) && Enabled(st, step) && SameMembers(step) && !DeliversSet(step, k)
    ensures Orphaned(cfg, Apply(cfg, st, step), k)
  {
    var st' := Apply(cfg, st, step);
    forall r | r in Replicas(cfg, st', k) ensures k !in StoreOf(st', r) {
      StepStaysGone(cfg, st, step, k, r);
    }
    forall r, i | r in Replicas(cfg, st', k) && 0 <= i < |CycleOf(st', r)| ensures CycleOf(st', r)[i].key != k {
      if StartsCycle(step, r) {
        assert step.order[i] in Elements(step.order);
        assert CycleOf(st', r)[i].key == step.order[i];
      } else {
        CycleAdvances(cfg, st, step, r);
      }
    }
  }

  lemma StepStaysGone(cfg: Config, st: State, step: Step, k: Key, x: NodeId)
    requires Enabled(st, step) && !DeliversSet(step, k) && k !in StoreOf(st, x)
    ensures k !in StoreOf(Apply(cfg, st, step), x)
  {
  }

  lemma OrphanNotSent(cfg: Config, trace: seq<State>, steps: seq<Step>, k: Key, j: int, i: int, m: Msg)
    requires SentAt(cfg, trace, steps, j, i, m) && Orphaned(cfg, trace[j], k)
    ensures m.key != k
  {
  }

  lemma {:induction false} StaysOrphaned(cfg: Config, trace: seq<State>, steps: seq<Step>, k: Key, i: nat)
    requires OrphanRun(cfg, trace, steps, k) && i <= |steps|
    ensures forall t | 0 <= t <= i :: Orphaned(cfg, trace[t], k) && trace[t].members == trace[0].members
    ensures forall t | 0 <= t < i :: !DeliversSet(steps[t], k)
  {
    hide Orphaned, Apply, Enabled, SentAt;
    if i > 0 {
      StaysOrphaned(cfg, trace, steps, k, i - 1);
      if DeliversSet(steps[i - 1], k) {
        var m := steps[i - 1].m;
        var j :| SentAt(cfg, trace, steps, j, i - 1, m);
        SentBefore(cfg, trace, steps, j, i - 1, m);
        OrphanNotSent(cfg, trace, steps, k, j, i - 1, m);
      }
      StepStaysOrphaned(cfg, trace[i - 1], steps[i - 1], k);
      MembersStay(cfg, trace[i - 1], steps[i - 1]);
    }
  }

  lemma MembersStay(cfg: Config, st: State, step: Step)
    requires Enabled(st, step) && SameMembers(step)
    ensures Apply(cfg, st, step).members == st.members
  {
  }

  lemma {:induction false} OrphanStaysGone(cfg: Config, trace: seq<State>, steps: seq<Step>, k: Key, x: NodeId, i: nat, j: nat)
    requires OrphanRun(cfg, trace, steps, k) && i <= j <= |steps|
    requires k !in StoreOf(trace[i], x)
    ensures k !in StoreOf(trace[j], x)
  {
    hide Orphaned, Apply, Enabled, DeliversSet, StoreOf;
    if i < j {
      OrphanStaysGone(cfg, trace, steps, k, x, i, j - 1);
      StaysOrphaned(cfg, trace, steps, k, j);
      StepStaysGone(cfg, trace[j - 1], steps[j - 1], k, x);
    }
  }

  /** That a replica has the key cannot be dropped from RoundPlacesKey: when none has it or is
      about to send it, every member that runs a cycle is without it afterwards, whatever
      else arrives. */
  lemma RoundLosesOrphan(cfg: Config, trace: seq<State>, steps: seq<Step>, k: Key, m: NodeId)
    requires OrphanRun(cfg, trace, steps, k) && cfg.replicas >= 1
    requires m in trace[0].members && RanCycle(trace, steps, m)
    ensures k !in StoreOf(Last(trace), m)
  {
    hide Orphaned, Enabled, Apply, StoreOf;
    var i, j :| RunsCycle(trace, steps, m, i, j);
    var t := i;
    if k in StoreOf(trace[i], m) {
      t := HeldKeyProcessed(cfg, trace, steps, m, k, i, j);
      StaysOrphaned(cfg, trace, steps, k, t);
      OrphanDropped(cfg, trace[t], k, m);
      t := t + 1;
    }
    OrphanStaysGone(cfg, trace, steps, k, m, t, |steps|);
  }

  lemma OrphanDropped(cfg: Config, st: State, k: Key, m: NodeId)
    requires Orphaned(cfg, st, k) && cfg.replicas >= 1 && m in st.members
    requires Enabled(st, ProcessKey(m)) && CycleOf(st, m)[0].key == k
    ensures k !in StoreOf(Apply(cfg, st, ProcessKey(m)), m)
  {
    TopNonempty(cfg.scores(k), cfg.replicas, st.members);
    assert CycleOf(st, m)[0].key == k;
  }
}

/** The rebalancer cycle as the code runs it, with whatever else happens between its keys. */
module Rebalancer {
  import opened Common
  import opened Rendezvous
  import opened Cluster
  import opened Placement

  /** The nodes that this one is connected to: every member but itself, in some order. */
  method ConnectedNodes(members: set<NodeId>, n: NodeId) returns (nodes: seq<NodeId>)
    requires n in members
    ensures Distinct(nodes) && n !in nodes && Elements(nodes) + {n} == members
  {
    nodes := [];
    var todo := members - {n};
    while todo != {}
      invariant todo <= members - {n} && Distinct(nodes)
      invariant Elements(nodes) == members - {n} - todo
      decreases todo
    {
      var id :| id in todo;
      todo := todo - {id};
      assert id !in Elements(nodes);
      ElementsSnoc(nodes, id);
      nodes := nodes + [id];
    }
    assert n !in Elements(nodes);
  }

  /** Send a copy to each listed replica but this node. */
  method SendToReplicas(st: State, n: NodeId, reps: seq<Replica>, k: Key, v: Value, ttl: int) returns (st': State)
    ensures st' == st.(msgs := st.msgs + Broadcast(Elements(Ids(reps)) - {n}, k, SetBody(v, ttl)))
  {
    st' := st;
    for i := 0 to |reps|
      invariant st' == st.(msgs := st.msgs + Broadcast(Elements(Ids(reps)[..i]) - {n}, k, SetBody(v, ttl)))
    {
      var rep := reps[i].id;
      assert Ids(reps)[..i + 1] == Ids(reps)[..i] + [rep];
      ElementsSnoc(Ids(reps)[..i], rep);
      if rep == n {
        continue;
      }
      st' := st'.(msgs := st'.msgs + {Msg(rep, k, SetBody(v, ttl))});
    }
    assert Ids(reps)[..|reps|] == Ids(reps);
  }

  /** One key of the cycle: find its replicas, then drop the copy or pass it on. */
  method ProcessOne(cfg: Config, st: State, n: NodeId) returns (st': State)
    requires Enabled(st, ProcessKey(n))
    requires DistinctScores(cfg.scores(CycleOf(st, n)[0].key), st.members)
    ensures st' == Process(cfg, st, n)
  {
    var snap := CycleOf(st, n)[0];
    st' := st.(cycle := st.cycle[n := CycleOf(st, n)[1..]]);
    var nodes := ConnectedNodes(st.members, n);
    var topReplicas := GetReplicaNodes(cfg.scores(snap.key), nodes, n, cfg.replicas);
    NoReplicas(topReplicas);
    assert Elements(Ids(topReplicas)) == Replicas(cfg, st, snap.key);
    hide Replicas;
    if |topReplicas| == 0 {
      NothingSent(cfg, st, n);
      return;
    }
    var selfIsReplica := IsAmong(topReplicas, n);
    assert selfIsReplica <==> n in Elements(Ids(topReplicas));
    if !selfIsReplica {
      NothingSent(cfg, st, n);
      st' := DropAt(st', n, snap.key);
      return;
    }
    var ttl := 0;
    if snap.copy.expiresAt.Some? {
      var remaining := snap.copy.expiresAt.value - st.now;
      if remaining <= 0 {
        NothingSent(cfg, st, n);
        return;
      }
      ttl := remaining;
    }
    st' := SendToReplicas(st', n, topReplicas, snap.key, snap.copy.value, ttl);
  }

  lemma NoReplicas(rs: seq<Replica>)
    ensures |rs| == 0 <==> Elements(Ids(rs)) == {}
  {
    if |rs| > 0 {
      assert Ids(rs)[0] in Elements(Ids(rs));
    }
  }

  lemma NothingSent(cfg: Config, st: State, n: NodeId)
    requires CycleOf(st, n) != []
    requires n !in Replicas(cfg, st, CycleOf(st, n)[0].key) || RemainingTtl(CycleOf(st, n)[0].copy, st.now) == None
    ensures Sent(cfg, st, n) == {} && st.msgs + Sent(cfg, st, n) == st.msgs
  {
  }

  // ----- a cycle among everything else that happens

  /** A run under construction, which leads from st to st'. */
  ghost predicate Leads(cfg: Config, trace: seq<State>, steps: seq<Step>, st: State, st': State) {
    IsRun(cfg, trace, steps) && trace[0] == st && Last(trace) == st'
  }

  /** A step of the node's own rebalancer. */
  predicate IsOwn(step: Step, n: NodeId) {
    (step.StartCycle? && step.n == n) || (step.ProcessKey? && step.n == n)
  }

  /** The steps of the node's own rebalancer, in their order. */
  function Own(steps: seq<Step>, n: NodeId): seq<Step> {
    if steps == [] then []
    else
      var before := Own(steps[..|steps| - 1], n);
      if IsOwn(steps[|steps| - 1], n) then before + [steps[|steps| - 1]] else before
  }

  /** What else may happen while node n runs its cycle: anything but a second cycle of n and
      its leaving. Joining nodes come from a universe in which no scores collide. */
  predicate Around(step: Step, n: NodeId, universe: set<NodeId>) {
    !IsOwn(step, n) && !(step.Leave? && step.n == n) && (step.Join? ==> step.n in universe)
  }

  lemma LeadsOn(cfg: Config, trace: seq<State>, steps: seq<Step>, st: State, st': State, step: Step, n: NodeId)
    returns (trace': seq<State>, steps': seq<Step>)
    requires Leads(cfg, trace, steps, st, st') && Enabled(st', step)
    ensures Leads(cfg, trace', steps', st, Apply(cfg, st', step)) && steps' == steps + [step]
    ensures Own(steps', n) == Own(steps, n) + (if IsOwn(step, n) then [step] else [])
  {
    trace', steps' := ExtendRun(cfg, trace, steps, step);
    assert steps'[..|steps|] == steps;
  }

  lemma AroundKeeps(cfg: Config, st: State, step: Step, n: NodeId, universe: set<NodeId>)
    requires Enabled(st, step) && Around(step, n, universe)
    requires n in st.members && st.members <= universe
    ensures var st' := Apply(cfg, st, step);
            n in st'.members && st'.members <= universe && CycleOf(st', n) == CycleOf(st, n)
  {
    CycleAdvances(cfg, st, step, n);
  }

  /** Other steps run: those that are possible at their turn. */
  method Interfere(cfg: Config, st: State, n: NodeId, others: seq<Step>, ghost universe: set<NodeId>,
                   ghost origin: State, ghost trace: seq<State>, ghost steps: seq<Step>)
    returns (st': State, ghost trace': seq<State>, ghost steps': seq<Step>)
    requires Leads(cfg, trace, steps, origin, st)
    requires n in st.members && st.members <= universe
    requires forall s | s in others :: Around(s, n, universe)
    ensures Leads(cfg, trace', steps', origin, st')
    ensures n in st'.members && st'.members <= universe
    ensures CycleOf(st', n) == CycleOf(st, n) && Own(steps', n) == Own(steps, n)
    ensures |steps| <= |steps'| && steps'[..|steps|] == steps
  {
    hide Leads, Own, Apply;
    st', trace', steps' := st, trace, steps;
    for i := 0 to |others|
      invariant Leads(cfg, trace', steps', origin, st')
      invariant n in st'.members && st'.members <= universe
      invariant CycleOf(st', n) == CycleOf(st, n) && Own(steps', n) == Own(steps, n)
      invariant |steps| <= |steps'| && steps'[..|steps|] == steps
    {
      if Enabled(st', others[i]) {
        assert others[i] in others;
        trace', steps' := LeadsOn(cfg, trace', steps', origin, st', others[i], n);
        AroundKeeps(cfg, st', others[i], n, universe);
        st' := Apply(cfg, st', others[i]);
      }
    }
  }

  /** The steps of a whole cycle. */
  function CycleSteps(n: NodeId, order: seq<Key>, i: nat): seq<Step> {
    [StartCycle(n, order)] + seq(i, _ => ProcessKey(n))
  }

  /** A whole cycle: take a snapshot of the keys, then deal with them one by one, while before
      each key other steps happen, `env(i)` before key i. The outcome is the end of a run of the
      machine in which node n has run one cycle, and of its own did nothing else. */
  method RebalanceCycle(cfg: Config, st: State, n: NodeId, order: seq<Key>, env: nat -> seq<Step>, ghost universe: set<NodeId>)
    returns (st': State, ghost trace: seq<State>, ghost steps: seq<Step>)
    requires Enabled(st, StartCycle(n, order)) && st.members <= universe
    requires forall k :: DistinctScores(cfg.scores(k), universe)
    requires forall i, s | s in env(i) :: Around(s, n, universe)
    ensures IsRun(cfg, trace, steps) && trace[0] == st && Last(trace) == st'
    ensures n in st'.members && CycleOf(st', n) == []
    ensures Own(steps, n) == CycleSteps(n, order, |order|)
    ensures RanCycle(trace, steps, n)
  {
    hide Leads, Own, Process, Sent, RunsCycle, CycleSteps;
    trace, steps := NoSteps(st, cfg);
    NothingLeads(cfg, st, n, order);
    trace, steps := LeadsOn(cfg, trace, steps, st, st, StartCycle(n, order), n);
    st' := Apply(cfg, st, StartCycle(n, order));
    ghost var keys := CycleOf(st', n);
    for i := 0 to |order|
      invariant Leads(cfg, trace, steps, st, st')
      invariant n in st'.members && st'.members <= universe
      invariant CycleOf(st', n) == keys[i..] && |keys| == |order|
      invariant Own(steps, n) == CycleSteps(n, order, i)
      invariant |steps| > 0 && steps[0] == StartCycle(n, order)
    {
      st', trace, steps := Interfere(cfg, st', n, env(i), universe, st, trace, steps);
      trace, steps := LeadsOn(cfg, trace, steps, st, st', ProcessKey(n), n);
      var next := ProcessOne(cfg, st', n);
      ProcessAdvances(cfg, st', n);
      CycleStepsSnoc(n, order, i);
      st' := next;
    }
    CycleRan(cfg, trace, steps, n, order, st, st');
  }

  lemma NothingLeads(cfg: Config, st: State, n: NodeId, order: seq<Key>)
    ensures Leads(cfg, [st], [], st, st) && Own([], n) == []
    ensures CycleSteps(n, order, 0) == [StartCycle(n, order)]
  {
  }

  lemma CycleStepsSnoc(n: NodeId, order: seq<Key>, i: nat)
    ensures CycleSteps(n, order, i + 1) == CycleSteps(n, order, i) + [ProcessKey(n)]
  {
  }

  lemma ProcessAdvances(cfg: Config, st: State, n: NodeId)
    requires CycleOf(st, n) != []
    ensures Process(cfg, st, n).members == st.members && CycleOf(Process(cfg, st, n), n) == CycleOf(st, n)[1..]
  {
  }

  /** The first of the node's own steps starts the cycle, and no other does. */
  lemma CycleRan(cfg: Config, trace: seq<State>, steps: seq<Step>, n: NodeId, order: seq<Key>, st: State, st': State)
    requires Leads(cfg, trace, steps, st, st') && CycleOf(st', n) == []
    requires |steps| > 0 && steps[0] == StartCycle(n, order) && Own(steps, n) == CycleSteps(n, order, |order|)
    ensures IsRun(cfg, trace, steps) && trace[0] == st && Last(trace) == st'
    ensures RanCycle(trace, steps, n)
  {
    StartsOnce(steps, n, order, |order|);
    assert RunsCycle(trace, steps, n, 0, |steps|);
  }

  lemma {:induction false} StartsOnce(steps: seq<Step>, n: NodeId, order: seq<Key>, i: nat)
    requires |steps| > 0 && steps[0] == StartCycle(n, order) && Own(steps, n) == CycleSteps(n, order, i)
    ensures forall t | 0 < t < |steps| :: !StartsCycle(steps[t], n)
  {
    var last := |steps| - 1;
    if last > 0 {
      if IsOwn(steps[last], n) {
        var before := Own(steps[..last], n);
        assert Own(steps, n)[..|before|] == before && Own(steps, n)[|before|] == steps[last];
        OwnStarts(steps[..last], n);
        assert i > 0 && before == CycleSteps(n, order, i - 1);
        StartsOnce(steps[..last], n, order, i - 1);
      } else {
        StartsOnce(steps[..last], n, order, i);
      }
    }
  }

  lemma {:induction false} OwnStarts(steps: seq<Step>, n: NodeId)
    requires |steps| > 0 && IsOwn(steps[0], n)
    ensures Own(steps, n) != []
  {
    if |steps| > 1 {
      OwnStarts(steps[..|steps| - 1], n);
    }
  }
}

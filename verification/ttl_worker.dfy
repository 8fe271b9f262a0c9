/** The ttl worker deletes a key that has expired at its own node from every replica. */
module TtlWorker {
  import opened Common
  import opened Rendezvous
  import opened Cluster
  import opened Resting
  import opened TwoNodes

  /** Nobody joins or leaves, and no client touches the key. */
  predicate Untouched(step: Step, k: Key) {
    Changes(step) == {} && !(step.ClientSet? && step.k == k) && !(step.ClientDelete? && step.k == k) &&
    !(step.ClientSetTtl? && step.k == k)
  }

  ghost predicate UntouchedRun(cfg: Config, st: State, trace: seq<State>, steps: seq<Step>, k: Key) {
    IsRun(cfg, trace, steps) && trace[0] == st && forall i | 0 <= i < |steps| :: Untouched(steps[i], k)
  }

  predicate IsLive(st: State, r: NodeId, k: Key) {
    k in StoreOf(st, r) && !IsExpired(StoreOf(st, r)[k], st.now)
  }

  /** A delete of the key arrives at a replica whose copy has not expired. */
  predicate RemovesLive(cfg: Config, st: State, step: Step, k: Key) {
    step.Deliver? && step.m.key == k && step.m.body.DeleteBody? && step.m.to in Replicas(cfg, st, k) && IsLive(st, step.m.to, k)
  }

  ghost predicate NeverRemovesLive(cfg: Config, st: State, k: Key) {
    forall trace, steps, i | UntouchedRun(cfg, st, trace, steps, k) && 0 <= i < |steps| < |trace| ::
      !RemovesLive(cfg, trace[i], steps[i], k)
  }

  // ----- when nothing of the key can be live at a replica again

  predicate ToReplica(cfg: Config, st: State, m: Msg, k: Key) {
    m in st.msgs && m.key == k && m.to in Replicas(cfg, st, k)
  }

  /** A replica has a copy, or a set is on its way to it. */
  ghost predicate MayHave(cfg: Config, st: State, k: Key, r: NodeId) {
    k in StoreOf(st, r) || exists m :: ToReplica(cfg, st, m, k) && m.to == r && m.body.SetBody?
  }

  /** The copies of all replicas have expired; a set on its way to a replica brings an expired
      copy, as does a ttl change to a replica that may have one; and no replica's running cycle
      has still to send a copy to another. */
  ghost predicate Spent(cfg: Config, st: State, k: Key) {
    (forall r | r in Replicas(cfg, st, k) :: !IsLive(st, r, k)) &&
    (forall m | ToReplica(cfg, st, m, k) && m.body.SetBody? :: m.body.ttl < 0) &&
    (forall m | ToReplica(cfg, st, m, k) && m.body.TtlBody? && MayHave(cfg, st, k, m.to) :: m.body.ttl < 0) &&
    (forall r, i | r in Replicas(cfg, st, k) && 0 <= i < |CycleOf(st, r)| :: !WillSend(cfg, st, k, r, CycleOf(st, r)[i]))
  }

  lemma StepKeepsExpired(cfg: Config, st: State, step: Step, k: Key, r: NodeId)
    requires Spent(cfg, st, k) && Enabled(st, step) && Untouched(step, k) && r in Replicas(cfg, st, k)
    ensures !IsLive(Apply(cfg, st, step), r, k)
  {
    if step.Deliver? && step.m.to == r && step.m.key == k {
      assert ToReplica(cfg, st, step.m, k);
      assert step.m.body.TtlBody? && k in StoreOf(st, r) ==> MayHave(cfg, st, k, r);
    }
  }

  lemma StepSendsNoSet(cfg: Config, st: State, step: Step, k: Key, m: Msg)
    requires Spent(cfg, st, k) && Enabled(st, step) && Untouched(step, k)
    requires m in Apply(cfg, st, step).msgs && m.key == k && m.to in Replicas(cfg, st, k) && !m.body.DeleteBody?
    ensures m in st.msgs
  {
    if step.ProcessKey? {
      assert step.n in Replicas(cfg, st, k) ==> !WillSend(cfg, st, k, step.n, CycleOf(st, step.n)[0]);
    }
  }

  lemma StepKeepsMayHave(cfg: Config, st: State, step: Step, k: Key, r: NodeId)
    requires Spent(cfg, st, k) && Enabled(st, step) && Untouched(step, k) && r in Replicas(cfg, st, k)
    requires MayHave(cfg, Apply(cfg, st, step), k, r)
    ensures MayHave(cfg, st, k, r)
  {
    hide Spent;
    var st' := Apply(cfg, st, step);
    ReplicasRest(cfg, st, step, k);
    if k in StoreOf(st', r) {
      if k !in StoreOf(st, r) {
        assert step.Deliver? && step.m.to == r && step.m.key == k && step.m.body.SetBody?;
        assert ToReplica(cfg, st, step.m, k);
      }
    } else {
      var m :| ToReplica(cfg, st', m, k) && m.to == r && m.body.SetBody?;
      StepSendsNoSet(cfg, st, step, k, m);
      assert ToReplica(cfg, st, m, k);
    }
  }

  lemma StepSendsNothingLater(cfg: Config, st: State, step: Step, k: Key, r: NodeId, i: nat)
    requires Spent(cfg, st, k) && Enabled(st, step) && Untouched(step, k) && r in Replicas(cfg, st, k)
    requires i < |CycleOf(Apply(cfg, st, step), r)|
    ensures !WillSend(cfg, Apply(cfg, st, step), k, r, CycleOf(Apply(cfg, st, step), r)[i])
  {
    ReplicasRest(cfg, st, step, k);
    SnapshotFrom(cfg, st, step, r, i);
    assert !IsLive(st, r, k);
  }

  lemma StepStaysSpent(cfg: Config, st: State, step: Step, k: Key)
    requires Spent(cfg, st, k) && Enabled(st, step) && Untouched(step, k)
    ensures Spent(cfg, Apply(cfg, st, step), k)
  {
    hide Apply, Enabled, WillSend, Replicas, MayHave, IsLive, Untouched;
    var st' := Apply(cfg, st, step);
    UntouchedRests(cfg, st, step, k);
    forall r | r in Replicas(cfg, st', k) ensures !IsLive(st', r, k) {
      StepKeepsExpired(cfg, st, step, k, r);
    }
    forall m | ToReplica(cfg, st', m, k) && m.body.SetBody? ensures m.body.ttl < 0 {
      StepSendsNoSet(cfg, st, step, k, m);
      assert ToReplica(cfg, st, m, k);
    }
    forall m | ToReplica(cfg, st', m, k) && m.body.TtlBody? && MayHave(cfg, st', k, m.to) ensures m.body.ttl < 0 {
      StepSendsNoSet(cfg, st, step, k, m);
      StepKeepsMayHave(cfg, st, step, k, m.to);
      assert ToReplica(cfg, st, m, k);
    }
    forall r, i | r in Replicas(cfg, st', k) && 0 <= i < |CycleOf(st', r)| ensures !WillSend(cfg, st', k, r, CycleOf(st', r)[i]) {
      StepSendsNothingLater(cfg, st, step, k, r, i);
    }
  }

  lemma UntouchedRests(cfg: Config, st: State, step: Step, k: Key)
    requires Enabled(st, step) && Untouched(step, k)
    ensures Replicas(cfg, Apply(cfg, st, step), k) == Replicas(cfg, st, k)
  {
    ReplicasRest(cfg, st, step, k);
  }

  lemma {:induction false} RunStaysSpent(cfg: Config, trace: seq<State>, steps: seq<Step>, k: Key, i: nat)
    requires IsRun(cfg, trace, steps) && Spent(cfg, trace[0], k) && i <= |steps|
    requires forall j | 0 <= j < |steps| :: Untouched(steps[j], k)
    ensures Spent(cfg, trace[i], k)
  {
    hide Spent, Apply, Enabled, Untouched;
    if i > 0 {
      RunStaysSpent(cfg, trace, steps, k, i - 1);
      StepStaysSpent(cfg, trace[i - 1], steps[i - 1], k);
    }
  }

  lemma SpentRemovesNoLive(cfg: Config, st: State, k: Key)
    requires Spent(cfg, st, k)
    ensures NeverRemovesLive(cfg, st, k)
  {
    hide IsLive;
    forall trace, steps, i | UntouchedRun(cfg, st, trace, steps, k) && 0 <= i < |steps| < |trace|
      ensures !RemovesLive(cfg, trace[i], steps[i], k)
    {
      RunStaysSpent(cfg, trace, steps, k, i);
    }
  }

  // ----- otherwise a live copy can be removed

  predicate Inner(step: Step) {
    step.ProcessKey? || step.Deliver?
  }

  /** A run of rebalancer steps and deliveries that ends with a live copy at a replica. */
  ghost predicate LeadsToLive(cfg: Config, st: State, trace: seq<State>, steps: seq<Step>, k: Key, r: NodeId) {
    trace != [] && IsRun(cfg, trace, steps) && trace[0] == st && (forall s | s in steps :: Inner(s)) &&
    Last(trace).members == st.members && Last(trace).expired == st.expired &&
    r in Replicas(cfg, st, k) && IsLive(Last(trace), r, k)
  }

  lemma SetMakesLive(cfg: Config, st: State, trace: seq<State>, steps: seq<Step>, k: Key, m: Msg)
    returns (trace': seq<State>, steps': seq<Step>)
    requires trace != [] && IsRun(cfg, trace, steps) && trace[0] == st && forall s | s in steps :: Inner(s)
    requires Last(trace).members == st.members && Last(trace).expired == st.expired
    requires m in Last(trace).msgs && m.key == k && m.to in Replicas(cfg, st, k) && m.body.SetBody? && m.body.ttl >= 0
    ensures LeadsToLive(cfg, st, trace', steps', k, m.to)
  {
    hide IsRun, Apply, Enabled;
    SetLands(cfg, Last(trace), m);
    trace', steps' := ExtendRun(cfg, trace, steps, Deliver(m));
  }

  lemma TtlMakesLive(cfg: Config, st: State, trace: seq<State>, steps: seq<Step>, k: Key, m: Msg)
    returns (trace': seq<State>, steps': seq<Step>)
    requires trace != [] && IsRun(cfg, trace, steps) && trace[0] == st && forall s | s in steps :: Inner(s)
    requires Last(trace).members == st.members && Last(trace).expired == st.expired
    requires m in Last(trace).msgs && m.key == k && m.to in Replicas(cfg, st, k) && m.body.TtlBody? && m.body.ttl >= 0
    requires k in StoreOf(Last(trace), m.to)
    ensures LeadsToLive(cfg, st, trace', steps', k, m.to)
  {
    hide IsRun;
    trace', steps' := ExtendRun(cfg, trace, steps, Deliver(m));
  }

  lemma LiveNow(cfg: Config, st: State, k: Key, r: NodeId) returns (trace: seq<State>, steps: seq<Step>)
    requires r in Replicas(cfg, st, k) && IsLive(st, r, k)
    ensures LeadsToLive(cfg, st, trace, steps, k, r)
  {
    trace, steps := NoStepsYet(cfg, st);
  }

  lemma SetLeadsToLive(cfg: Config, st: State, k: Key, m: Msg) returns (trace: seq<State>, steps: seq<Step>)
    requires ToReplica(cfg, st, m, k) && m.body.SetBody? && m.body.ttl >= 0
    ensures LeadsToLive(cfg, st, trace, steps, k, m.to)
  {
    hide IsRun, LeadsToLive;
    trace, steps := NoStepsYet(cfg, st);
    trace, steps := SetMakesLive(cfg, st, trace, steps, k, m);
  }

  /** A ttl change arrives at a copy, or else after a set that is on its way. */
  lemma TtlLeadsToLive(cfg: Config, st: State, k: Key, m: Msg) returns (trace: seq<State>, steps: seq<Step>)
    requires ToReplica(cfg, st, m, k) && m.body.TtlBody? && MayHave(cfg, st, k, m.to) && m.body.ttl >= 0
    ensures LeadsToLive(cfg, st, trace, steps, k, m.to)
  {
    hide IsRun, LeadsToLive, Apply, Enabled;
    trace, steps := NoStepsYet(cfg, st);
    if k !in StoreOf(st, m.to) {
      var m' :| ToReplica(cfg, st, m', k) && m'.to == m.to && m'.body.SetBody?;
      SetLands(cfg, st, m');
      trace, steps := ExtendRun(cfg, trace, steps, Deliver(m'));
    }
    trace, steps := TtlMakesLive(cfg, st, trace, steps, k, m);
  }

  lemma SendLeadsToLive(cfg: Config, st: State, k: Key, q: NodeId, i: nat)
    returns (trace: seq<State>, steps: seq<Step>, r: NodeId)
    requires q in Replicas(cfg, st, k) && i < |CycleOf(st, q)| && WillSend(cfg, st, k, q, CycleOf(st, q)[i])
    ensures LeadsToLive(cfg, st, trace, steps, k, r)
  {
    hide IsRun, LeadsToLive;
    var m;
    trace, steps, m := SnapshotSent(cfg, st, k, q, i);
    trace, steps := SetMakesLive(cfg, st, trace, steps, k, m);
    r := m.to;
  }

  lemma NotSpentLeadsToLive(cfg: Config, st: State, k: Key) returns (trace: seq<State>, steps: seq<Step>, r: NodeId)
    requires !Spent(cfg, st, k)
    ensures LeadsToLive(cfg, st, trace, steps, k, r)
  {
    hide LeadsToLive, WillSend, IsLive, Replicas, ToReplica, MayHave;
    if r' :| r' in Replicas(cfg, st, k) && IsLive(st, r', k) {
      r := r';
      trace, steps := LiveNow(cfg, st, k, r);
    } else if m :| ToReplica(cfg, st, m, k) && m.body.SetBody? && m.body.ttl >= 0 {
      r := m.to;
      trace, steps := SetLeadsToLive(cfg, st, k, m);
    } else if m :| ToReplica(cfg, st, m, k) && m.body.TtlBody? && MayHave(cfg, st, k, m.to) && m.body.ttl >= 0 {
      r := m.to;
      trace, steps := TtlLeadsToLive(cfg, st, k, m);
    } else {
      var q, i :| q in Replicas(cfg, st, k) && 0 <= i < |CycleOf(st, q)| && WillSend(cfg, st, k, q, CycleOf(st, q)[i]);
      trace, steps, r := SendLeadsToLive(cfg, st, k, q, i);
    }
  }

  /** The worker of any node that has the key on its list then deletes the live copy. */
  lemma LiveIsRemoved(cfg: Config, st: State, k: Key, n: NodeId, trace: seq<State>, steps: seq<Step>, r: NodeId)
    requires LeadsToLive(cfg, st, trace, steps, k, r) && n in st.members && k in ExpiredOf(st, n)
    ensures !NeverRemovesLive(cfg, st, k)
  {
    hide IsRun, UntouchedRun, RemovesLive;
    var m := Msg(r, k, DeleteBody);
    WorkerDeletes(cfg, st, Last(trace), k, n, r);
    var trace', steps' := ExtendRun(cfg, trace, steps, DeleteExpired(n, k));
    var trace'', steps'' := ExtendRun(cfg, trace', steps', Deliver(m));
    InnerUntouched(cfg, st, trace'', steps'', k);
    assert RemovesLive(cfg, trace''[|steps'|], steps''[|steps'|], k);
  }

  lemma WorkerDeletes(cfg: Config, st: State, st': State, k: Key, n: NodeId, r: NodeId)
    requires st'.members == st.members && st'.expired == st.expired && n in st.members && k in ExpiredOf(st, n)
    requires r in Replicas(cfg, st, k) && IsLive(st', r, k)
    ensures Enabled(st', DeleteExpired(n, k))
    ensures var end := Apply(cfg, st', DeleteExpired(n, k));
            Enabled(end, Deliver(Msg(r, k, DeleteBody))) && RemovesLive(cfg, end, Deliver(Msg(r, k, DeleteBody)), k)
  {
  }

  lemma InnerUntouched(cfg: Config, st: State, trace: seq<State>, steps: seq<Step>, k: Key)
    requires IsRun(cfg, trace, steps) && trace[0] == st
    requires forall s | s in steps :: Inner(s) || s.DeleteExpired?
    ensures UntouchedRun(cfg, st, trace, steps, k)
  {
    assert forall i | 0 <= i < |steps| :: steps[i] in steps;
  }

  /** Let a node's ttl worker have the key on its list. While the membership rests and no client
      touches the key, no delete removes a live copy from a replica, however late the worker gets
      to the key and its deletes arrive, if and only if nothing of the key can be live at a
      replica again. */
  lemma NoLiveRemovedIff(cfg: Config, st: State, k: Key, n: NodeId)
    requires n in st.members && k in ExpiredOf(st, n)
    ensures NeverRemovesLive(cfg, st, k) <==> Spent(cfg, st, k)
  {
    hide Spent, NeverRemovesLive, LeadsToLive;
    if Spent(cfg, st, k) {
      SpentRemovesNoLive(cfg, st, k);
    } else {
      var trace, steps, r := NotSpentLeadsToLive(cfg, st, k);
      LiveIsRemoved(cfg, st, k, n, trace, steps, r);
    }
  }

  /** The condition can fail. A set with a ttl reaches one of two replicas late, so that its copy
      expires later; the worker of the other one deletes both. */
  lemma WorkerRemovesLiveCopy() returns (trace: seq<State>, steps: seq<Step>, late: Msg)
    ensures trace != [] && IsRun(ByLength(2), trace, steps) && Initial(trace[0])
    ensures |steps| >= 2 && steps[|steps| - 2] == CollectExpired(Name(0)) && steps[|steps| - 1] == DeleteExpired(Name(0), LOST_KEY)
    ensures Enabled(Last(trace), Deliver(late)) && RemovesLive(ByLength(2), Last(trace), Deliver(late), LOST_KEY)
    ensures Held(Last(trace), Name(1)) == Some(Copy("v", Some(8))) && Last(trace).now == 6
    ensures Held(Apply(ByLength(2), Last(trace), Deliver(late)), Name(1)) == None
  {
    hide IsRun, Two, Replicas, Apply, Enabled, Held, RemovesLive;
    var a, b, soon, later := Name(0), Name(1), Some(Copy("v", Some(5))), Some(Copy("v", Some(8)));
    trace, steps := TwoJoin();
    trace, steps := SetBoth(trace, steps, 0, None, None, {}, "v", 5);
    var sent := {} + Sets("v", 5);
    trace, steps := Land(trace, steps, 0, None, None, sent, Msg(a, LOST_KEY, SetBody("v", 5)));
    trace, steps := Wait(trace, steps, 0, soon, None, sent, 3);
    trace, steps := Land(trace, steps, 3, soon, None, sent, Msg(b, LOST_KEY, SetBody("v", 5)));
    trace, steps := Wait(trace, steps, 3, soon, later, sent, 3);
    var st1;
    st1, late := FirstDeletes(Last(trace), 6, soon.value, later.value, sent);
    trace, steps := ExtendRun(ByLength(2), trace, steps, CollectExpired(a));
    trace, steps := ExtendRun(ByLength(2), trace, steps, DeleteExpired(a, LOST_KEY));
  }

  /** The first node's worker finds its copy expired while the second's is live. */
  lemma FirstDeletes(st: State, now: int, c: Copy, c': Copy, sent: set<Msg>) returns (st1: State, m: Msg)
    requires Two(st, now, Some(c), Some(c'), sent) && IsExpired(c, now) && !IsExpired(c', now)
    ensures Enabled(st, CollectExpired(Name(0))) && st1 == Apply(ByLength(2), st, CollectExpired(Name(0)))
    ensures Enabled(st1, DeleteExpired(Name(0), LOST_KEY))
    ensures var st2 := Apply(ByLength(2), st1, DeleteExpired(Name(0), LOST_KEY));
            st2.now == now && Held(st2, Name(1)) == Some(c') && Enabled(st2, Deliver(m)) &&
            RemovesLive(ByLength(2), st2, Deliver(m), LOST_KEY) && Held(Apply(ByLength(2), st2, Deliver(m)), Name(1)) == None
  {
    hide Replicas;
    m := Msg(Name(1), LOST_KEY, DeleteBody);
    st1 := Apply(ByLength(2), st, CollectExpired(Name(0)));
    BothAreReplicas(st1);
    var st2 := Apply(ByLength(2), st1, DeleteExpired(Name(0), LOST_KEY));
    BothAreReplicas(st2);
  }
}

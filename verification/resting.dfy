/** What the replicas of a key may come to hold while the membership rests: the exact conditions
    under which they keep a value, and under which a deleted key stays away. */
module Resting {
  import opened Common
  import opened Rendezvous
  import opened Cluster
  import opened TwoNodes

  // ----- the values that replicas have

  /** Nobody joins or leaves, and clients set only allowed values of the key. */
  predicate Quiet(step: Step, k: Key, allowed: set<Value>) {
    Changes(step) == {} && (step.ClientSet? && step.k == k ==> step.value in allowed)
  }

  ghost predicate QuietRun(cfg: Config, st: State, trace: seq<State>, steps: seq<Step>, k: Key, allowed: set<Value>) {
    IsRun(cfg, trace, steps) && trace[0] == st && forall i | 0 <= i < |steps| :: Quiet(steps[i], k, allowed)
  }

  /** Each replica that has the key has an allowed value of it. */
  ghost predicate CopiesAllowed(cfg: Config, st: State, k: Key, allowed: set<Value>) {
    forall r | r in Replicas(cfg, st, k) && k in StoreOf(st, r) :: StoreOf(st, r)[k].value in allowed
  }

  /** Each set of the key on its way to a replica brings an allowed value. */
  ghost predicate MessagesAllowed(cfg: Config, st: State, k: Key, allowed: set<Value>) {
    forall m | m in st.msgs && m.key == k && m.to in Replicas(cfg, st, k) && m.body.SetBody? :: m.body.value in allowed
  }

  /** What a replica's running cycle has still to send to another replica is allowed. */
  ghost predicate SnapshotsAllowed(cfg: Config, st: State, k: Key, allowed: set<Value>) {
    forall r, i | r in Replicas(cfg, st, k) && 0 <= i < |CycleOf(st, r)| && WillSend(cfg, st, k, r, CycleOf(st, r)[i]) ::
      CycleOf(st, r)[i].copy.value in allowed
  }

  predicate WillSend(cfg: Config, st: State, k: Key, r: NodeId, snap: Snapshot) {
    snap.key == k && RemainingTtl(snap.copy, st.now).Some? && Replicas(cfg, st, k) != {r}
  }

  ghost predicate Safe(cfg: Config, st: State, k: Key, allowed: set<Value>) {
    CopiesAllowed(cfg, st, k, allowed) && MessagesAllowed(cfg, st, k, allowed) && SnapshotsAllowed(cfg, st, k, allowed)
  }

  /** At the end of every quiet run, and so at every moment of it, the replicas have allowed
      values only. */
  ghost predicate AlwaysAllowed(cfg: Config, st: State, k: Key, allowed: set<Value>) {
    forall trace, steps | QuietRun(cfg, st, trace, steps, k, allowed) && trace != [] ::
      CopiesAllowed(cfg, Last(trace), k, allowed)
  }

  // ----- a quiet step keeps a safe state safe

  lemma ReplicasRest(cfg: Config, st: State, step: Step, k: Key)
    requires Enabled(st, step) && Changes(step) == {}
    ensures Apply(cfg, st, step).members == st.members && Apply(cfg, st, step).now >= st.now
    ensures Replicas(cfg, Apply(cfg, st, step), k) == Replicas(cfg, st, k)
  {
  }

  lemma StepKeepsCopies(cfg: Config, st: State, step: Step, k: Key, allowed: set<Value>, r: NodeId)
    requires Safe(cfg, st, k, allowed) && Enabled(st, step) && Quiet(step, k, allowed)
    requires r in Replicas(cfg, st, k) && k in StoreOf(Apply(cfg, st, step), r)
    ensures StoreOf(Apply(cfg, st, step), r)[k].value in allowed
  {
    if step.Deliver? && step.m.to == r && step.m.key == k && step.m.body.SetBody? {
      assert step.m.body.value in allowed;
    } else {
      assert k in StoreOf(st, r) && StoreOf(Apply(cfg, st, step), r)[k].value == StoreOf(st, r)[k].value;
    }
  }

  lemma StepKeepsMessages(cfg: Config, st: State, step: Step, k: Key, allowed: set<Value>, m: Msg)
    requires Safe(cfg, st, k, allowed) && Enabled(st, step) && Quiet(step, k, allowed)
    requires m in Apply(cfg, st, step).msgs && m.key == k && m.to in Replicas(cfg, st, k) && m.body.SetBody?
    ensures m.body.value in allowed
  {
    if step.ProcessKey? && m !in st.msgs {
      var snap := CycleOf(st, step.n)[0];
      assert m in Sent(cfg, st, step.n) && m.to != step.n;
      assert WillSend(cfg, st, k, step.n, snap);
    }
  }

  lemma StepKeepsSnapshots(cfg: Config, st: State, step: Step, k: Key, allowed: set<Value>, r: NodeId, i: nat)
    requires Safe(cfg, st, k, allowed) && Enabled(st, step) && Quiet(step, k, allowed)
    requires r in Replicas(cfg, st, k)
    requires var st' := Apply(cfg, st, step); i < |CycleOf(st', r)| && WillSend(cfg, st', k, r, CycleOf(st', r)[i])
    ensures CycleOf(Apply(cfg, st, step), r)[i].copy.value in allowed
  {
    ReplicasRest(cfg, st, step, k);
    SnapshotFrom(cfg, st, step, r, i);
  }

  /** A snapshot in a running cycle was there before, or was just taken from the store. */
  lemma SnapshotFrom(cfg: Config, st: State, step: Step, r: NodeId, i: nat)
    requires Enabled(st, step) && Changes(step) == {} && i < |CycleOf(Apply(cfg, st, step), r)|
    ensures var snap := CycleOf(Apply(cfg, st, step), r)[i];
            (exists j :: 0 <= j < |CycleOf(st, r)| && CycleOf(st, r)[j] == snap) ||
            (snap.key in StoreOf(st, r) && snap.copy == StoreOf(st, r)[snap.key])
  {
    var snap := CycleOf(Apply(cfg, st, step), r)[i];
    if step.StartCycle? && step.n == r {
      assert step.order[i] in Elements(step.order);
    } else if step.ProcessKey? && step.n == r {
      assert CycleOf(st, r)[i + 1] == snap;
    } else {
      assert CycleOf(st, r)[i] == snap;
    }
  }

  lemma StepStaysSafe(cfg: Config, st: State, step: Step, k: Key, allowed: set<Value>)
    requires Safe(cfg, st, k, allowed) && Enabled(st, step) && Quiet(step, k, allowed)
    ensures Safe(cfg, Apply(cfg, st, step), k, allowed)
  {
    hide Safe, WillSend, Apply, Enabled, Replicas;
    var st' := Apply(cfg, st, step);
    ReplicasRest(cfg, st, step, k);
    forall r | r in Replicas(cfg, st', k) && k in StoreOf(st', r) ensures StoreOf(st', r)[k].value in allowed {
      StepKeepsCopies(cfg, st, step, k, allowed, r);
    }
    forall m | m in st'.msgs && m.key == k && m.to in Replicas(cfg, st', k) && m.body.SetBody? ensures m.body.value in allowed {
      StepKeepsMessages(cfg, st, step, k, allowed, m);
    }
    forall r, i | r in Replicas(cfg, st', k) && 0 <= i < |CycleOf(st', r)| && WillSend(cfg, st', k, r, CycleOf(st', r)[i])
      ensures CycleOf(st', r)[i].copy.value in allowed
    {
      StepKeepsSnapshots(cfg, st, step, k, allowed, r, i);
    }
    SafeIs(cfg, st', k, allowed);
  }

  lemma SafeIs(cfg: Config, st: State, k: Key, allowed: set<Value>)
    ensures Safe(cfg, st, k, allowed) <==>
            CopiesAllowed(cfg, st, k, allowed) && MessagesAllowed(cfg, st, k, allowed) && SnapshotsAllowed(cfg, st, k, allowed)
  {
  }

  lemma {:induction false} RunStaysSafe(cfg: Config, trace: seq<State>, steps: seq<Step>, k: Key, allowed: set<Value>, i: nat)
    requires IsRun(cfg, trace, steps) && Safe(cfg, trace[0], k, allowed) && i <= |steps|
    requires forall j | 0 <= j < |steps| :: Quiet(steps[j], k, allowed)
    ensures Safe(cfg, trace[i], k, allowed)
  {
    hide Safe, Apply, Enabled, Quiet;
    if i > 0 {
      RunStaysSafe(cfg, trace, steps, k, allowed, i - 1);
      StepStaysSafe(cfg, trace[i - 1], steps[i - 1], k, allowed);
    }
  }

  // ----- a state that is not safe goes wrong

  lemma NoStepsYet(cfg: Config, st: State) returns (trace: seq<State>, steps: seq<Step>)
    ensures IsRun(cfg, trace, steps) && trace == [st] && steps == []
  {
    trace, steps := [st], [];
  }

  /** A run in which one node's rebalancer goes on with its cycle until it is at entry i. */
  lemma {:induction false} CycleOnward(cfg: Config, st: State, r: NodeId, i: nat) returns (trace: seq<State>, steps: seq<Step>)
    requires r in st.members && i < |CycleOf(st, r)|
    ensures trace != [] && IsRun(cfg, trace, steps) && trace[0] == st && forall s | s in steps :: s == ProcessKey(r)
    ensures Onward(st, Last(trace), r, i)
  {
    hide IsRun, Apply, Enabled;
    if i == 0 {
      trace, steps := NoStepsYet(cfg, st);
    } else {
      trace, steps := CycleOnward(cfg, st, r, i - 1);
      ProcessOnward(cfg, st, Last(trace), r, i - 1);
      trace, steps := ExtendRun(cfg, trace, steps, ProcessKey(r));
    }
  }

  ghost predicate Onward(st: State, st': State, r: NodeId, i: nat) {
    st'.members == st.members && st'.now == st.now && st'.expired == st.expired && i <= |CycleOf(st, r)| &&
    CycleOf(st', r) == CycleOf(st, r)[i..]
  }

  lemma ProcessOnward(cfg: Config, st: State, st': State, r: NodeId, i: nat)
    requires Onward(st, st', r, i) && r in st.members && i < |CycleOf(st, r)|
    ensures Enabled(st', ProcessKey(r)) && Onward(st, Apply(cfg, st', ProcessKey(r)), r, i + 1)
  {
  }

  /** What a replica's running cycle has still to send reaches another replica in some run. */
  lemma SnapshotSent(cfg: Config, st: State, k: Key, r: NodeId, i: nat)
    returns (trace: seq<State>, steps: seq<Step>, m: Msg)
    requires r in Replicas(cfg, st, k) && i < |CycleOf(st, r)| && WillSend(cfg, st, k, r, CycleOf(st, r)[i])
    ensures trace != [] && IsRun(cfg, trace, steps) && trace[0] == st && forall s | s in steps :: s == ProcessKey(r)
    ensures Last(trace).members == st.members && Last(trace).now == st.now && Last(trace).expired == st.expired
    ensures m in Last(trace).msgs && m.key == k && m.to in Replicas(cfg, st, k)
    ensures var copy := CycleOf(st, r)[i].copy; m.body == SetBody(copy.value, RemainingTtl(copy, st.now).value)
  {
    hide IsRun, Apply, Enabled;
    var copy := CycleOf(st, r)[i].copy;
    var other :| other in Replicas(cfg, st, k) && other != r;
    trace, steps := CycleOnward(cfg, st, r, i);
    ProcessOnward(cfg, st, Last(trace), r, i);
    m := HeadSent(cfg, st, Last(trace), k, r, i, other);
    trace, steps := ExtendRun(cfg, trace, steps, ProcessKey(r));
  }

  lemma HeadSent(cfg: Config, st: State, st': State, k: Key, r: NodeId, i: nat, other: NodeId) returns (m: Msg)
    requires Onward(st, st', r, i) && i < |CycleOf(st, r)| && Enabled(st', ProcessKey(r))
    requires r in Replicas(cfg, st, k) && other in Replicas(cfg, st, k) && other != r
    requires CycleOf(st, r)[i].key == k && RemainingTtl(CycleOf(st, r)[i].copy, st.now).Some?
    ensures m in Apply(cfg, st', ProcessKey(r)).msgs
    ensures var copy := CycleOf(st, r)[i].copy; m == Msg(other, k, SetBody(copy.value, RemainingTtl(copy, st.now).value))
  {
    var copy := CycleOf(st, r)[i].copy;
    m := Msg(other, k, SetBody(copy.value, RemainingTtl(copy, st.now).value));
    assert m in Sent(cfg, st', r);
  }

  /** A delivered set leaves its value at its target. */
  lemma SetLands(cfg: Config, st: State, m: Msg)
    requires m in st.msgs && m.body.SetBody?
    ensures Enabled(st, Deliver(m))
    ensures var st' := Apply(cfg, st, Deliver(m));
            st'.members == st.members && st'.now == st.now && st'.expired == st.expired && st'.msgs == st.msgs &&
            m.key in StoreOf(st', m.to) && StoreOf(st', m.to)[m.key] == ReceivedCopy(m.body.value, m.body.ttl, st.now)
  {
  }

  lemma QuietIs(cfg: Config, st: State, trace: seq<State>, steps: seq<Step>, k: Key, allowed: set<Value>)
    requires IsRun(cfg, trace, steps) && trace[0] == st
    requires forall s | s in steps :: s.ProcessKey? || s.Deliver? || s.DeleteExpired?
    ensures QuietRun(cfg, st, trace, steps, k, allowed)
  {
    assert forall i | 0 <= i < |steps| :: steps[i] in steps;
  }

  lemma BadValueIs(cfg: Config, st: State, k: Key, allowed: set<Value>, r: NodeId)
    requires r in Replicas(cfg, st, k) && k in StoreOf(st, r) && StoreOf(st, r)[k].value !in allowed
    ensures !CopiesAllowed(cfg, st, k, allowed)
  {
  }

  /** A run that ends with the delivery of a bad set. */
  lemma BadSetLands(cfg: Config, st: State, trace: seq<State>, steps: seq<Step>, k: Key, allowed: set<Value>, m: Msg)
    requires trace != [] && IsRun(cfg, trace, steps) && trace[0] == st && Last(trace).members == st.members
    requires forall s | s in steps :: s.ProcessKey?
    requires m in Last(trace).msgs && m.key == k && m.to in Replicas(cfg, st, k) && m.body.SetBody? && m.body.value !in allowed
    ensures !AlwaysAllowed(cfg, st, k, allowed)
  {
    hide IsRun, Apply, Enabled, CopiesAllowed, QuietRun;
    SetLands(cfg, Last(trace), m);
    var trace', steps' := ExtendRun(cfg, trace, steps, Deliver(m));
    BadValueIs(cfg, Last(trace'), k, allowed, m.to);
    QuietIs(cfg, st, trace', steps', k, allowed);
  }

  lemma NotSafeGoesWrong(cfg: Config, st: State, k: Key, allowed: set<Value>)
    requires !Safe(cfg, st, k, allowed)
    ensures !AlwaysAllowed(cfg, st, k, allowed)
  {
    hide IsRun, CopiesAllowed, QuietRun, WillSend, AlwaysAllowed;
    var trace, steps := NoStepsYet(cfg, st);
    if !CopiesAllowed(cfg, st, k, allowed) {
      GoesWrongHere(cfg, st, k, allowed, trace, steps);
    } else if !MessagesAllowed(cfg, st, k, allowed) {
      var m :| m in st.msgs && m.key == k && m.to in Replicas(cfg, st, k) && m.body.SetBody? && m.body.value !in allowed;
      BadSetLands(cfg, st, trace, steps, k, allowed, m);
    } else {
      var r, i :| r in Replicas(cfg, st, k) && 0 <= i < |CycleOf(st, r)| && WillSend(cfg, st, k, r, CycleOf(st, r)[i]) &&
                  CycleOf(st, r)[i].copy.value !in allowed;
      var m;
      trace, steps, m := SnapshotSent(cfg, st, k, r, i);
      BadSetLands(cfg, st, trace, steps, k, allowed, m);
    }
  }

  lemma GoesWrongHere(cfg: Config, st: State, k: Key, allowed: set<Value>, trace: seq<State>, steps: seq<Step>)
    requires IsRun(cfg, trace, steps) && trace == [st] && steps == [] && !CopiesAllowed(cfg, st, k, allowed)
    ensures !AlwaysAllowed(cfg, st, k, allowed)
  {
    QuietIs(cfg, st, trace, steps, k, allowed);
    assert Last(trace) == st;
  }

  lemma SafeStaysAllowed(cfg: Config, st: State, k: Key, allowed: set<Value>)
    requires Safe(cfg, st, k, allowed)
    ensures AlwaysAllowed(cfg, st, k, allowed)
  {
    hide Safe, CopiesAllowed;
    forall trace, steps | QuietRun(cfg, st, trace, steps, k, allowed) && trace != [] ensures CopiesAllowed(cfg, Last(trace), k, allowed) {
      RunStaysSafe(cfg, trace, steps, k, allowed, |steps|);
      SafeIs(cfg, Last(trace), k, allowed);
    }
  }

  /** While the membership rests and clients set only allowed values, the replicas have allowed
      values only, whatever happens, if and only if the state is safe. */
  lemma AllowedValuesIff(cfg: Config, st: State, k: Key, allowed: set<Value>)
    ensures AlwaysAllowed(cfg, st, k, allowed) <==> Safe(cfg, st, k, allowed)
  {
    hide Safe, AlwaysAllowed;
    if Safe(cfg, st, k, allowed) {
      SafeStaysAllowed(cfg, st, k, allowed);
    } else {
      NotSafeGoesWrong(cfg, st, k, allowed);
    }
  }

  // ----- a value is kept

  /** In every run in which the membership rests and no client sets another value of the key,
      each replica that has the key has this value. */
  ghost predicate KeepsValue(cfg: Config, st: State, k: Key, v: Value) {
    forall trace, steps | QuietRun(cfg, st, trace, steps, k, {v}) && trace != [] ::
      forall r | r in Replicas(cfg, Last(trace), k) && k in StoreOf(Last(trace), r) :: StoreOf(Last(trace), r)[k].value == v
  }

  /** A value is kept if and only if the replicas that have the key have it, every set on its way
      to a replica brings it, and it is what a replica's running cycle has still to send to
      another replica. What the other members have, and copies that expired before their turn,
      do not matter. */
  lemma ValueKeptIff(cfg: Config, st: State, k: Key, v: Value)
    ensures KeepsValue(cfg, st, k, v) <==>
            (forall r | r in Replicas(cfg, st, k) && k in StoreOf(st, r) :: StoreOf(st, r)[k].value == v) &&
            (forall m | m in st.msgs && m.key == k && m.to in Replicas(cfg, st, k) && m.body.SetBody? :: m.body.value == v) &&
            (forall r, i | r in Replicas(cfg, st, k) && 0 <= i < |CycleOf(st, r)| && CycleOf(st, r)[i].key == k ::
               RemainingTtl(CycleOf(st, r)[i].copy, st.now).Some? && Replicas(cfg, st, k) != {r} ==> CycleOf(st, r)[i].copy.value == v)
  {
    hide Replicas, RemainingTtl, QuietRun;
    AllowedValuesIff(cfg, st, k, {v});
    assert AlwaysAllowed(cfg, st, k, {v}) <==> KeepsValue(cfg, st, k, v);
  }

  /** An old set can break the condition: its reply timed out at one of two replicas, a newer
      one reached both, and then the old one arrives. */
  lemma OldMessageOverwrites() returns (trace: seq<State>, steps: seq<Step>, late: Msg)
    ensures trace != [] && IsRun(ByLength(2), trace, steps) && Initial(trace[0])
    ensures Replicas(ByLength(2), Last(trace), LOST_KEY) == {Name(0), Name(1)}
    ensures Held(Last(trace), Name(0)) == Some(Copy("w", None)) && Held(Last(trace), Name(1)) == Some(Copy("w", None))
    ensures late in Last(trace).msgs && Held(Apply(ByLength(2), Last(trace), Deliver(late)), Name(1)) == Some(Copy("v", None))
  {
    hide IsRun, Two, Replicas, Apply, Held;
    var a, b := Name(0), Name(1);
    trace, steps := TwoJoin();
    trace, steps := SetBoth(trace, steps, 0, None, None, {}, "v", 0);
    var sent := {} + Sets("v", 0);
    trace, steps := Land(trace, steps, 0, None, None, sent, Msg(a, LOST_KEY, SetBody("v", 0)));
    trace, steps := SetBoth(trace, steps, 0, Some(Copy("v", None)), None, sent, "w", 0);
    sent := sent + Sets("w", 0);
    trace, steps := Land(trace, steps, 0, Some(Copy("v", None)), None, sent, Msg(a, LOST_KEY, SetBody("w", 0)));
    trace, steps := Land(trace, steps, 0, Some(Copy("w", None)), None, sent, Msg(b, LOST_KEY, SetBody("w", 0)));
    late := Msg(b, LOST_KEY, SetBody("v", 0));
    TwoIs(Last(trace), 0, Some(Copy("w", None)), Some(Copy("w", None)), sent);
    LandsAt(Last(trace), 0, Some(Copy("w", None)), Some(Copy("w", None)), sent, late);
    TwoIs(Apply(ByLength(2), Last(trace), Deliver(late)), 0, Some(Copy("w", None)), Some(Copy("v", None)), sent);
  }

  // ----- a deleted key stays away

  /** In every run in which the membership rests and no client sets the key, no replica comes to
      have it. */
  ghost predicate StaysAway(cfg: Config, st: State, k: Key) {
    forall trace, steps | QuietRun(cfg, st, trace, steps, k, {}) && trace != [] ::
      forall r | r in Replicas(cfg, Last(trace), k) :: k !in StoreOf(Last(trace), r)
  }

  /** Deletes leave no trace: a key stays away from its replicas if and only if none has it, no
      set of it is on its way to one, and none has still to send it to another. */
  lemma DeletedStaysAwayIff(cfg: Config, st: State, k: Key)
    ensures StaysAway(cfg, st, k) <==>
            (forall r | r in Replicas(cfg, st, k) :: k !in StoreOf(st, r)) &&
            (forall m | m in st.msgs && m.key == k && m.to in Replicas(cfg, st, k) :: !m.body.SetBody?) &&
            (forall r, i | r in Replicas(cfg, st, k) && 0 <= i < |CycleOf(st, r)| && CycleOf(st, r)[i].key == k ::
               RemainingTtl(CycleOf(st, r)[i].copy, st.now) == None || Replicas(cfg, st, k) == {r})
  {
    hide Replicas, RemainingTtl, QuietRun;
    AllowedValuesIff(cfg, st, k, {});
    assert AlwaysAllowed(cfg, st, k, {}) <==> StaysAway(cfg, st, k);
  }

  /** A replica that missed a delete can break the condition: in its next cycle it brings the key
      back to the other, which had deleted it. */
  lemma DeletedKeyReturns() returns (trace: seq<State>, steps: seq<Step>, late: Msg)
    ensures trace != [] && IsRun(ByLength(2), trace, steps) && Initial(trace[0])
    ensures Replicas(ByLength(2), Last(trace), LOST_KEY) == {Name(0), Name(1)}
    ensures Held(Last(trace), Name(0)) == None && steps != [] && steps[|steps| - 1] == ProcessKey(Name(1))
    ensures late in Sent(ByLength(2), trace[|steps| - 1], Name(1)) && late in Last(trace).msgs
    ensures Held(Apply(ByLength(2), Last(trace), Deliver(late)), Name(0)) == Some(Copy("v", None))
  {
    hide IsRun, Two, Replicas, Apply, Held, Enabled, Sent;
    var a, b, copy := Name(0), Name(1), Some(Copy("v", None));
    trace, steps := TwoJoin();
    trace, steps := SetBoth(trace, steps, 0, None, None, {}, "v", 0);
    var sent := {} + Sets("v", 0);
    trace, steps := Land(trace, steps, 0, None, None, sent, Msg(a, LOST_KEY, SetBody("v", 0)));
    trace, steps := Land(trace, steps, 0, copy, None, sent, Msg(b, LOST_KEY, SetBody("v", 0)));
    trace, steps := DeleteBoth(trace, steps, 0, copy, copy, sent);
    trace, steps := Land(trace, steps, 0, copy, copy, sent + Deletes(), Msg(a, LOST_KEY, DeleteBody));
    TwoIs(Last(trace), 0, None, copy, sent + Deletes());
    var st1;
    st1, late := SecondSends(Last(trace), 0, None, "v", sent + Deletes());
    trace, steps := ExtendRun(ByLength(2), trace, steps, StartCycle(b, [LOST_KEY]));
    trace, steps := ExtendRun(ByLength(2), trace, steps, ProcessKey(b));
    BothAreReplicas(Last(trace));
  }
}

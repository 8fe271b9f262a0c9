/** Replication as a step machine: clients, the rebalancers and the network interleave freely.
    A message that was sent may be delivered at any later time, more than once, or never. */
module Cluster {
  import opened Common
  import opened Rendezvous
  import Quorum

  type Key = string
  type Value = string

  /** Replica count and, for each key, the scores that the nodes give it. */
  datatype Config = Config(replicas: nat, scores: Key -> Scores)

  datatype Copy = Copy(value: Value, expiresAt: Option<int>)

  datatype Snapshot = Snapshot(key: Key, copy: Copy)

  datatype Body = SetBody(value: Value, ttl: int) | DeleteBody | TtlBody(ttl: int)

  datatype Msg = Msg(to: NodeId, key: Key, body: Body)

  /** What clients asked for, with the time they asked. */
  datatype Event =
    | Written(key: Key, value: Value, ttl: int, at: int)
    | Retimed(key: Key, ttl: int, at: int)

  datatype State = State(
    now: int,
    members: set<NodeId>,
    store: map<NodeId, map<Key, Copy>>,
    cycle: map<NodeId, seq<Snapshot>>,  // the rest of each node's running rebalance cycle
    expired: map<NodeId, set<Key>>,  // the keys that each node's ttl worker has still to delete
    msgs: set<Msg>,
    history: set<Event>)

  datatype Step =
    | Tick(d: nat)
    | Join(n: NodeId)
    | Leave(n: NodeId, crash: bool)
    | ClientSet(k: Key, value: Value, ttl: int)
    | ClientDelete(k: Key)
    | ClientSetTtl(k: Key, ttl: int)
    | Deliver(m: Msg)
    | Evict(n: NodeId, k: Key)
    | StartCycle(n: NodeId, order: seq<Key>)
    | ProcessKey(n: NodeId)
    | CollectExpired(n: NodeId)
    | DeleteExpired(n: NodeId, k: Key)

  function StoreOf(st: State, n: NodeId): map<Key, Copy> {
    if n in st.store then st.store[n] else map[]
  }

  function CycleOf(st: State, n: NodeId): seq<Snapshot> {
    if n in st.cycle then st.cycle[n] else []
  }

  function ExpiredOf(st: State, n: NodeId): set<Key> {
    if n in st.expired then st.expired[n] else {}
  }

  function Replicas(cfg: Config, st: State, k: Key): set<NodeId> {
    Top(cfg.scores(k), cfg.replicas, st.members)
  }

  function PutAt(st: State, n: NodeId, k: Key, c: Copy): State {
    st.(store := st.store[n := StoreOf(st, n)[k := c]])
  }

  function DropAt(st: State, n: NodeId, k: Key): State {
    st.(store := st.store[n := StoreOf(st, n) - {k}])
  }

  /** Messages with one body for every node of a set. */
  function Broadcast(to: set<NodeId>, k: Key, body: Body): set<Msg> {
    set n | n in to :: Msg(n, k, body)
  }

  /** The copy a node stores when a set with this ttl reaches it. */
  function ReceivedCopy(v: Value, ttl: int, now: int): Copy {
    Copy(v, if ttl != 0 then Some(now + ttl) else None)
  }

  /** A node applies an operation to its own store. A set with ttl 0 never expires; a ttl
      change of a missing key does nothing. */
  function Receive(st: State, m: Msg): State {
    match m.body
    case SetBody(v, ttl) => PutAt(st, m.to, m.key, ReceivedCopy(v, ttl, st.now))
    case DeleteBody => DropAt(st, m.to, m.key)
    case TtlBody(ttl) =>
      if m.key in StoreOf(st, m.to)
      then PutAt(st, m.to, m.key, StoreOf(st, m.to)[m.key].(expiresAt := Some(st.now + ttl)))
      else st
  }

  /** The ttl a rebalancer sends with a copy; None when the copy has already expired. */
  function RemainingTtl(c: Copy, now: int): Option<int> {
    match c.expiresAt
    case None => Some(0)
    case Some(e) => if e - now <= 0 then None else Some(e - now)
  }

  /** What a node sends for the next key of its running cycle: a replica sends its copy, unless
      it has expired, to the other replicas. */
  function Sent(cfg: Config, st: State, n: NodeId): set<Msg>
    requires CycleOf(st, n) != []
  {
    var snap := CycleOf(st, n)[0];
    var reps := Replicas(cfg, st, snap.key);
    match RemainingTtl(snap.copy, st.now)
    case None => {}
    case Some(ttl) => if n in reps then Broadcast(reps - {n}, snap.key, SetBody(snap.copy.value, ttl)) else {}
  }

  /** One key of a running cycle: a node that is no replica drops its copy, without asking
      whether anyone else has one; a replica sends. A key that is to have no replica at all is
      left alone. */
  function Process(cfg: Config, st: State, n: NodeId): State
    requires CycleOf(st, n) != []
  {
    var k := CycleOf(st, n)[0].key;
    var st' := st.(cycle := st.cycle[n := CycleOf(st, n)[1..]], msgs := st.msgs + Sent(cfg, st, n));
    var reps := Replicas(cfg, st, k);
    if reps != {} && n !in reps then DropAt(st', n, k) else st'
  }

  predicate IsExpired(c: Copy, now: int) {
    c.expiresAt.Some? && now > c.expiresAt.value
  }

  /** What the walk of the ttl worker collects. The worker does not drop these copies itself: it
      deletes each of the keys afterwards as a client would, at every replica, whatever has
      become of the copy in the meantime. */
  function ExpiredKeys(st: State, n: NodeId): set<Key> {
    set k | k in StoreOf(st, n) && IsExpired(StoreOf(st, n)[k], st.now)
  }

  predicate Enabled(st: State, step: Step) {
    match step
    case Tick(_) => true
    case Join(n) => n !in st.members
    case Leave(n, _) => n in st.members
    case ClientSet(_, _, _) => true
    case ClientDelete(_) => true
    case ClientSetTtl(_, _) => true
    case Deliver(m) => m in st.msgs
    case Evict(_, _) => true
    case StartCycle(n, order) => n in st.members && Distinct(order) && Elements(order) == StoreOf(st, n).Keys
    case ProcessKey(n) => n in st.members && CycleOf(st, n) != []
    case CollectExpired(n) => n in st.members && ExpiredOf(st, n) == {}
    case DeleteExpired(n, k) => n in st.members && k in ExpiredOf(st, n)
  }

  function Take(store: map<Key, Copy>, order: seq<Key>): (s: seq<Snapshot>)
    requires forall k | k in order :: k in store
    ensures |s| == |order|
    ensures forall i | 0 <= i < |order| :: s[i] == Snapshot(order[i], store[order[i]])
  {
    seq(|order|, i requires 0 <= i < |order| => Snapshot(order[i], store[order[i]]))
  }

  function Apply(cfg: Config, st: State, step: Step): State
    requires Enabled(st, step)
  {
    match step
    case Tick(d) => st.(now := st.now + d)
    case Join(n) => st.(members := st.members + {n})
    case Leave(n, crash) =>
      var left := st.(members := st.members - {n});
      if crash
      then left.(store := st.store - {n}, cycle := st.cycle - {n}, expired := st.expired - {n})
      else left
    case ClientSet(k, v, ttl) =>
      st.(msgs := st.msgs + Broadcast(Replicas(cfg, st, k), k, SetBody(v, ttl)),
          history := st.history + {Written(k, v, ttl, st.now)})
    case ClientDelete(k) => st.(msgs := st.msgs + Broadcast(Replicas(cfg, st, k), k, DeleteBody))
    case ClientSetTtl(k, ttl) =>
      st.(msgs := st.msgs + Broadcast(Replicas(cfg, st, k), k, TtlBody(ttl)),
          history := st.history + {Retimed(k, ttl, st.now)})
    case Deliver(m) => Receive(st, m)
    case Evict(n, k) => DropAt(st, n, k)
    case StartCycle(n, order) =>
      assert forall k | k in order :: k in Elements(order);
      st.(cycle := st.cycle[n := Take(StoreOf(st, n), order)])
    case ProcessKey(n) => Process(cfg, st, n)
    case CollectExpired(n) => st.(expired := st.expired[n := ExpiredKeys(st, n)])
    case DeleteExpired(n, k) =>
      st.(expired := st.expired[n := ExpiredOf(st, n) - {k}],
          msgs := st.msgs + Broadcast(Replicas(cfg, st, k), k, DeleteBody))
  }

  ghost predicate IsRun(cfg: Config, trace: seq<State>, steps: seq<Step>) {
    |trace| == |steps| + 1 &&
    forall i | 0 <= i < |steps| :: Enabled(trace[i], steps[i]) && trace[i + 1] == Apply(cfg, trace[i], steps[i])
  }

  /** A cluster that holds nothing and has been asked for nothing. */
  ghost predicate Initial(st: State) {
    st.store == map[] && st.cycle == map[] && st.expired == map[] && st.msgs == {} && st.history == {}
  }

  // ----- survival of a key

  function Changes(step: Step): set<NodeId> {
    match step
    case Join(n) => {n}
    case Leave(n, _) => {n}
    case _ => {}
  }

  /** The nodes that joined or left during a run. */
  function Changed(steps: seq<Step>): set<NodeId> {
    if steps == [] then {} else Changed(steps[..|steps| - 1]) + Changes(steps[|steps| - 1])
  }

  /** A step that may take the key away from a node without the rebalancer: a delivered
      delete, or an eviction. */
  predicate Removes(step: Step, k: Key) {
    (step.Deliver? && step.m.key == k && step.m.body.DeleteBody?) || (step.Evict? && step.k == k)
  }

  lemma {:induction false} ChangedMonotone(steps: seq<Step>, i: nat)
    requires i < |steps|
    ensures Changes(steps[i]) <= Changed(steps)
    ensures Changed(steps[..i]) <= Changed(steps)
  {
    var n := |steps| - 1;
    if i < n {
      ChangedMonotone(steps[..n], i);
      assert steps[..n][..i] == steps[..i];
    }
  }

  /** Only the changed nodes can have changed sides. */
  lemma {:induction false} MembersDifferByChanged(cfg: Config, trace: seq<State>, steps: seq<Step>)
    requires IsRun(cfg, trace, steps)
    ensures forall x | x !in Changed(steps) :: x in trace[0].members <==> x in trace[|steps|].members
  {
    if steps != [] {
      var n := |steps| - 1;
      MembersDifferByChanged(cfg, trace[..|steps|], steps[..n]);
      assert trace[..|steps|][n] == trace[n];
    }
  }

  /** Of the unchanged holders among the original replicas, the best one stays a replica as
      long as fewer nodes changed than held the key: what can come above it are the changed
      nodes and the replicas that did not hold the key. */
  lemma BestHolderStays(score: Scores, n: nat, before: set<NodeId>, after: set<NodeId>,
                        changed: set<NodeId>, holders: set<NodeId>, h: NodeId)
    requires holders <= Top(score, n, before) && |Top(score, n, before)| <= n && |changed| < |holders|
    requires h in holders && h !in changed
    requires forall x | x !in changed :: x in before <==> x in after
    requires forall x | x in holders && x !in changed :: score(x) <= score(h)
    ensures h in Top(score, n, after)
  {
    var others := Top(score, n, before) - holders;
    forall y | y in Better(score, before, h) ensures y in Top(score, n, before) {
      SetShrinks(Better(score, before, y), Better(score, before, h));
    }
    forall y | y in Better(score, after, h) ensures y in changed + others {
      assert y in before ==> y in Better(score, before, h);
    }
    SetShrinks(Better(score, after, h), changed + others);
    assert |changed + others| <= |changed| + |others|;
    assert Top(score, n, before) == holders + others;
    assert |Top(score, n, before)| == |holders| + |others|;
  }

  /** A replica keeps the key through every step that does not remove it. */
  lemma ReplicaKeepsKey(cfg: Config, st: State, step: Step, k: Key, h: NodeId)
    requires Enabled(st, step) && !Removes(step, k) && h !in Changes(step)
    requires h in Replicas(cfg, st, k) && k in StoreOf(st, h)
    ensures k in StoreOf(Apply(cfg, st, step), h)
  {
  }

  /** A key held by some of its replicas survives every run in which fewer nodes join or leave
      than held it and no delete or eviction removes it, whatever the rebalancers do and
      whichever messages get through: one of the original holders stays in the top N throughout
      and always holds the key. */
  lemma HeldKeySurvives(cfg: Config, trace: seq<State>, steps: seq<Step>, k: Key, holders: set<NodeId>) returns (h: NodeId)
    requires IsRun(cfg, trace, steps) && DistinctScores(cfg.scores(k), trace[0].members)
    requires holders <= Replicas(cfg, trace[0], k) && forall r | r in holders :: k in StoreOf(trace[0], r)
    requires |Changed(steps)| < |holders|
    requires forall i | 0 <= i < |steps| :: !Removes(steps[i], k)
    ensures h in holders
    ensures forall i | 0 <= i < |trace| :: h in Replicas(cfg, trace[i], k) && k in StoreOf(trace[i], h)
  {
    var score, changed := cfg.scores(k), Changed(steps);
    TopSize(score, cfg.replicas, trace[0].members);
    if holders - changed == {} {
      SetShrinks(holders, changed);
      assert false;
    }
    h := BestExists(score, holders - changed);
    forall i | 0 <= i < |trace| ensures h in Replicas(cfg, trace[i], k) {
      PrefixIsRun(cfg, trace, steps, i);
      MembersDifferByChanged(cfg, trace[..i + 1], steps[..i]);
      if i < |steps| {
        ChangedMonotone(steps, i);
      } else {
        assert steps[..i] == steps;
      }
      BestHolderStays(score, cfg.replicas, trace[0].members, trace[i].members, changed, holders, h);
    }
    HolderKeepsKey(cfg, trace, steps, k, h, |steps|);
  }

  /** With N replicas, a key held by all of its top N survives fewer than N joins and leaves; a
      cluster smaller than N must also keep one of its nodes. */
  lemma KeySurvives(cfg: Config, trace: seq<State>, steps: seq<Step>, k: Key) returns (h: NodeId)
    requires IsRun(cfg, trace, steps) && DistinctScores(cfg.scores(k), trace[0].members)
    requires forall r | r in Replicas(cfg, trace[0], k) :: k in StoreOf(trace[0], r)
    requires |Changed(steps)| < cfg.replicas && |Changed(steps)| < |trace[0].members|
    requires forall i | 0 <= i < |steps| :: !Removes(steps[i], k)
    ensures h in Replicas(cfg, trace[0], k)
    ensures forall i | 0 <= i < |trace| :: h in Replicas(cfg, trace[i], k) && k in StoreOf(trace[i], h)
  {
    TopSize(cfg.scores(k), cfg.replicas, trace[0].members);
    h := HeldKeySurvives(cfg, trace, steps, k, Replicas(cfg, trace[0], k));
  }

  /** A write that reached a quorum of its replicas keeps its key through every run in which at
      most half of that many nodes join or leave. */
  lemma QuorumWriteSurvives(cfg: Config, trace: seq<State>, steps: seq<Step>, k: Key, reached: set<NodeId>) returns (h: NodeId)
    requires IsRun(cfg, trace, steps) && DistinctScores(cfg.scores(k), trace[0].members)
    requires Quorum.IsQuorum(reached, Replicas(cfg, trace[0], k)) && forall r | r in reached :: k in StoreOf(trace[0], r)
    requires |Changed(steps)| <= |Replicas(cfg, trace[0], k)| / 2
    requires forall i | 0 <= i < |steps| :: !Removes(steps[i], k)
    ensures h in reached
    ensures forall i | 0 <= i < |trace| :: h in Replicas(cfg, trace[i], k) && k in StoreOf(trace[i], h)
  {
    h := HeldKeySurvives(cfg, trace, steps, k, reached);
  }

  lemma PrefixIsRun(cfg: Config, trace: seq<State>, steps: seq<Step>, i: nat)
    requires IsRun(cfg, trace, steps) && i <= |steps|
    ensures IsRun(cfg, trace[..i + 1], steps[..i])
  {
  }

  lemma {:induction false} HolderKeepsKey(cfg: Config, trace: seq<State>, steps: seq<Step>, k: Key, h: NodeId, i: nat)
    requires IsRun(cfg, trace, steps) && i <= |steps|
    requires h !in Changed(steps) && forall j | 0 <= j < |steps| :: !Removes(steps[j], k)
    requires forall j | 0 <= j < |trace| :: h in Replicas(cfg, trace[j], k)
    requires k in StoreOf(trace[0], h)
    ensures forall j | 0 <= j <= i :: k in StoreOf(trace[j], h)
  {
    if i > 0 {
      HolderKeepsKey(cfg, trace, steps, k, h, i - 1);
      ChangedMonotone(steps, i - 1);
      ReplicaKeepsKey(cfg, trace[i - 1], steps[i - 1], k, h);
    }
  }

  // ----- the bound is sharp

  lemma ExtendRun(cfg: Config, trace: seq<State>, steps: seq<Step>, step: Step)
    returns (trace': seq<State>, steps': seq<Step>)
    requires IsRun(cfg, trace, steps) && Enabled(Last(trace), step)
    ensures trace' != [] && IsRun(cfg, trace', steps') && trace'[0] == trace[0] && Last(trace') == Apply(cfg, Last(trace), step)
    ensures Changed(steps') == Changed(steps) + Changes(step)
    ensures steps' == steps + [step] && |trace'| == |steps'| + 1 && trace'[|steps|] == Last(trace)
  {
    trace', steps' := trace + [Apply(cfg, Last(trace), step)], steps + [step];
    assert steps'[..|steps|] == steps;
  }

  function Last(trace: seq<State>): State
    requires trace != []
  {
    trace[|trace| - 1]
  }

  /** Node names: never empty, and longer for newer nodes. */
  function Name(i: nat): (s: NodeId)
    ensures |s| == i + 1
  {
    seq(i + 1, _ => 'n')
  }

  function Names(lo: nat, hi: nat): set<NodeId> {
    set i: nat | lo <= i < hi :: Name(i)
  }

  lemma {:induction false} NamesStep(lo: nat, hi: nat)
    requires lo <= hi
    ensures Names(lo, hi + 1) == Names(lo, hi) + {Name(hi)} && Name(hi) !in Names(lo, hi)
    ensures |Names(lo, hi)| == hi - lo
  {
    forall x | x in Names(lo, hi) ensures |x| <= hi {
    }
    if lo < hi {
      NamesStep(lo, hi - 1);
    }
  }

  const LOST_KEY: Key := "k"
  const LOST_COPY: Copy := Copy("v", None)

  /** The cluster of the counterexample: n replicas, and longer names score higher. */
  function ByLength(n: nat): Config {
    Config(n, (k: Key) => ((x: NodeId) => |x|))
  }

  function Fresh(): State {
    State(0, {}, map[], map[], map[], {}, {})
  }

  /** n nodes have joined, a client has set the key, and the set has reached the first h. */
  function Holding(n: nat, h: nat): State {
    State(0, Names(0, n), map x | x in Names(0, h) :: map[LOST_KEY := LOST_COPY], map[], map[],
          Broadcast(Names(0, n), LOST_KEY, SetBody("v", 0)), {Written(LOST_KEY, "v", 0, 0)})
  }

  predicate LocalOnly(steps: seq<Step>) {
    forall s | s in steps :: s.Join? || s.StartCycle? || s.ProcessKey?
  }

  lemma LocalOnlySnoc(steps: seq<Step>, step: Step)
    requires LocalOnly(steps) && (step.Join? || step.StartCycle? || step.ProcessKey?)
    ensures LocalOnly(steps + [step])
  {
  }

  lemma NoSteps(st: State, cfg: Config) returns (trace: seq<State>, steps: seq<Step>)
    ensures IsRun(cfg, trace, steps) && trace == [st] && Changed(steps) == {} && LocalOnly(steps)
  {
    trace, steps := [st], [];
  }

  /** i more nodes join the first n. */
  lemma {:induction false} JoinNewer(cfg: Config, st: State, n: nat, i: nat) returns (trace: seq<State>, steps: seq<Step>)
    requires st.members == Names(0, n)
    ensures trace != [] && IsRun(cfg, trace, steps) && trace[0] == st
    ensures Last(trace) == st.(members := Names(0, n + i))
    ensures Changed(steps) == Names(n, n + i) && LocalOnly(steps)
  {
    hide IsRun, LocalOnly, Changed;
    if i == 0 {
      trace, steps := NoSteps(st, cfg);
    } else {
      trace, steps := JoinNewer(cfg, st, n, i - 1);
      NamesStep(0, n + i - 1);
      NamesStep(n, n + i - 1);
      LocalOnlySnoc(steps, Join(Name(n + i - 1)));
      trace, steps := ExtendRun(cfg, trace, steps, Join(Name(n + i - 1)));
    }
  }

  lemma AllAreReplicas(n: nat, st: State)
    requires st.members == Names(0, n)
    ensures Replicas(ByLength(n), st, LOST_KEY) == Names(0, n)
  {
    NamesStep(0, n);
    forall x | x in st.members ensures Rank(ByLength(n).scores(LOST_KEY), st.members, x) < n {
      RankBelowSize(ByLength(n).scores(LOST_KEY), st.members, x);
    }
  }

  lemma OlderIsOut(n: nat, h: nat, st: State, i: nat)
    requires st.members == Names(0, n + h) && i < h <= n
    ensures Name(i) !in Replicas(ByLength(n), st, LOST_KEY)
  {
    NamesStep(h, n + h);
    SetShrinks(Names(h, n + h), Better(ByLength(n).scores(LOST_KEY), st.members, Name(i)));
  }

  lemma ClientSetReaches(n: nat)
    ensures var st := Fresh().(members := Names(0, n));
            Apply(ByLength(n), st, ClientSet(LOST_KEY, "v", 0)) == Holding(n, 0)
  {
    var st := Fresh().(members := Names(0, n));
    AllAreReplicas(n, st);
    assert Holding(n, 0).store == map[];
  }

  lemma DeliverNext(n: nat, i: nat)
    requires i < n
    ensures var m := Msg(Name(i), LOST_KEY, SetBody("v", 0));
            Enabled(Holding(n, i), Deliver(m)) && Apply(ByLength(n), Holding(n, i), Deliver(m)) == Holding(n, i + 1)
  {
    var m := Msg(Name(i), LOST_KEY, SetBody("v", 0));
    NamesStep(0, i);
    assert StoreOf(Holding(n, i), Name(i)) == map[];
    assert Receive(Holding(n, i), m).store == Holding(n, i).store[Name(i) := map[LOST_KEY := LOST_COPY]];
    assert Receive(Holding(n, i), m).store == Holding(n, i + 1).store;
  }

  /** From an empty cluster to the key being held by the first h nodes. */
  lemma {:induction false} HoldersGetKey(n: nat, h: nat) returns (trace: seq<State>, steps: seq<Step>)
    requires h <= n
    ensures trace != [] && IsRun(ByLength(n), trace, steps) && trace[0] == Fresh() && Last(trace) == Holding(n, h)
  {
    hide IsRun, Changed, Apply, Enabled, LocalOnly;
    if h == 0 {
      assert Names(0, 0) == {};
      trace, steps := JoinNewer(ByLength(n), Fresh(), 0, n);
      ClientSetReaches(n);
      ClientSetEnabled(Last(trace));
      trace, steps := ExtendRun(ByLength(n), trace, steps, ClientSet(LOST_KEY, "v", 0));
    } else {
      trace, steps := HoldersGetKey(n, h - 1);
      DeliverNext(n, h - 1);
      trace, steps := ExtendRun(ByLength(n), trace, steps, Deliver(Msg(Name(h - 1), LOST_KEY, SetBody("v", 0))));
    }
  }

  lemma ClientSetEnabled(st: State)
    ensures Enabled(st, ClientSet(LOST_KEY, "v", 0))
  {
  }

  /** After the newer nodes are in and the first i holders ran their cycle. */
  ghost predicate Dropped(n: nat, h: nat, st: State, i: nat) {
    st.members == Names(0, n + h) &&
    (forall j: nat | i <= j < h :: StoreOf(st, Name(j)) == map[LOST_KEY := LOST_COPY]) &&
    (forall x | LOST_KEY in StoreOf(st, x) :: x in Names(i, h))
  }

  lemma NothingDropped(n: nat, h: nat, st: State)
    requires st == Holding(n, h).(members := Names(0, n + h))
    ensures Dropped(n, h, st, 0)
  {
  }

  lemma DropNext(n: nat, h: nat, st: State, i: nat)
    requires i < h <= n && Dropped(n, h, st, i)
    ensures Enabled(st, StartCycle(Name(i), [LOST_KEY]))
    ensures var st' := Apply(ByLength(n), st, StartCycle(Name(i), [LOST_KEY]));
            Enabled(st', ProcessKey(Name(i))) && Dropped(n, h, Apply(ByLength(n), st', ProcessKey(Name(i))), i + 1)
  {
    var me := Name(i);
    assert Elements([LOST_KEY]) == {LOST_KEY};
    var st' := Apply(ByLength(n), st, StartCycle(me, [LOST_KEY]));
    assert CycleOf(st', me) == [Snapshot(LOST_KEY, LOST_COPY)];
    OlderIsOut(n, h, st', i);
    TopNonempty(ByLength(n).scores(LOST_KEY), n, st'.members);
    var end := Apply(ByLength(n), st', ProcessKey(me));
    assert end.store == st.store[me := StoreOf(st, me) - {LOST_KEY}];
    forall j: nat | i < j < h ensures StoreOf(end, Name(j)) == map[LOST_KEY := LOST_COPY] {
      assert Name(j) != me;
    }
    forall x | LOST_KEY in StoreOf(end, x) ensures x in Names(i + 1, h) {
      assert x != me && LOST_KEY in StoreOf(st, x);
    }
  }

  lemma {:induction false} OlderDrop(n: nat, h: nat, i: nat) returns (trace: seq<State>, steps: seq<Step>)
    requires i <= h <= n
    ensures trace != [] && IsRun(ByLength(n), trace, steps) && trace[0] == Holding(n, h)
    ensures Dropped(n, h, Last(trace), i)
    ensures Changed(steps) == Names(n, n + h) && LocalOnly(steps)
  {
    hide IsRun, Dropped, Apply, Changed, LocalOnly, Names, Enabled;
    if i == 0 {
      trace, steps := JoinNewer(ByLength(n), Holding(n, h), n, h);
      NothingDropped(n, h, Last(trace));
    } else {
      trace, steps := OlderDrop(n, h, i - 1);
      DropNext(n, h, Last(trace), i - 1);
      LocalOnlySnoc(steps, StartCycle(Name(i - 1), [LOST_KEY]));
      trace, steps := ExtendRun(ByLength(n), trace, steps, StartCycle(Name(i - 1), [LOST_KEY]));
      LocalOnlySnoc(steps, ProcessKey(Name(i - 1)));
      trace, steps := ExtendRun(ByLength(n), trace, steps, ProcessKey(Name(i - 1)));
    }
  }

  /** As many changes as there are holders are enough to lose a key, for every replica count n
      and every number h of holders, with no delete, no eviction and no crash. From an empty
      cluster n nodes join, a client sets the key, and the set reaches h of the n replicas; then
      h better nodes join, and each holder drops its copy before anything else happens. With
      h = 1 a single join does it. */
  lemma EnoughChangesLoseKey(n: nat, h: nat)
    returns (cfg: Config, trace: seq<State>, steps: seq<Step>, trace': seq<State>, steps': seq<Step>, holders: set<NodeId>)
    requires 1 <= h <= n
    ensures cfg.replicas == n && trace != [] && IsRun(cfg, trace, steps) && Initial(trace[0])
    ensures trace' != [] && IsRun(cfg, trace', steps') && trace'[0] == Last(trace)
    ensures |holders| == h && holders <= Replicas(cfg, Last(trace), LOST_KEY)
    ensures forall x :: x in holders <==> LOST_KEY in StoreOf(Last(trace), x)
    ensures |Changed(steps')| == h && LocalOnly(steps')
    ensures DistinctScores(cfg.scores(LOST_KEY), Last(trace').members)
    ensures forall x :: LOST_KEY !in StoreOf(Last(trace'), x)
  {
    hide IsRun, LocalOnly, Changed, Dropped, Replicas, Holding, Enabled, Apply, Names, StoreOf;
    cfg, holders := ByLength(n), Names(0, h);
    trace, steps := HoldersGetKey(n, h);
    trace', steps' := OlderDrop(n, h, h);
    AllDropped(n, h, Last(trace'));
    HoldersOf(n, h);
    NamesStep(n, n + h);
  }

  lemma HoldersOf(n: nat, h: nat)
    requires h <= n
    ensures |Names(0, h)| == h && Names(0, h) <= Replicas(ByLength(n), Holding(n, h), LOST_KEY)
    ensures forall x :: x in Names(0, h) <==> LOST_KEY in StoreOf(Holding(n, h), x)
  {
    AllAreReplicas(n, Holding(n, h));
    NamesStep(0, h);
  }

  lemma AllDropped(n: nat, h: nat, st: State)
    requires Dropped(n, h, st, h)
    ensures DistinctScores(ByLength(n).scores(LOST_KEY), st.members)
    ensures forall x :: LOST_KEY !in StoreOf(st, x)
  {
    assert Names(h, h) == {};
  }
}

/** Where the copies in the cluster come from: nothing is stored that no client wrote, and no
    copy expires before some client said it may. */
module Provenance {
  import opened Common
  import opened Rendezvous
  import opened Cluster
  import Quorum

  ghost predicate WasWritten(history: set<Event>, k: Key, v: Value) {
    exists w | w in history :: w.Written? && w.key == k && w.value == v
  }

  ghost predicate WasWrittenForever(history: set<Event>, k: Key, v: Value) {
    exists w | w in history :: w.Written? && w.key == k && w.value == v && w.ttl == 0
  }

  /** Some client set this value with a ttl, or changed the key's ttl, so that the deadline it
      asked for is no later than `bound`. */
  ghost predicate MayExpire(history: set<Event>, k: Key, v: Value, bound: int) {
    exists w | w in history ::
      w.key == k && w.at + w.ttl <= bound && (w.Retimed? || (w.Written? && w.value == v && w.ttl != 0))
  }

  ghost predicate CopyJustified(history: set<Event>, k: Key, c: Copy) {
    WasWritten(history, k, c.value) &&
    match c.expiresAt
    case None => WasWrittenForever(history, k, c.value)
    case Some(e) => MayExpire(history, k, c.value, e)
  }

  ghost predicate WasRetimed(history: set<Event>, k: Key, bound: int) {
    exists w | w in history :: w.Retimed? && w.key == k && w.at + w.ttl <= bound
  }

  /** A message is justified when the copy it would leave now is. */
  ghost predicate MsgJustified(history: set<Event>, now: int, m: Msg) {
    match m.body
    case SetBody(v, ttl) => CopyJustified(history, m.key, ReceivedCopy(v, ttl, now))
    case DeleteBody => true
    case TtlBody(ttl) => WasRetimed(history, m.key, now + ttl)
  }

  ghost predicate StoresJustified(st: State) {
    forall n, k | k in StoreOf(st, n) :: CopyJustified(st.history, k, StoreOf(st, n)[k])
  }

  ghost predicate CyclesJustified(st: State) {
    forall n, i | 0 <= i < |CycleOf(st, n)| :: CopyJustified(st.history, CycleOf(st, n)[i].key, CycleOf(st, n)[i].copy)
  }

  ghost predicate MsgsJustified(st: State) {
    forall m | m in st.msgs :: MsgJustified(st.history, st.now, m)
  }

  ghost predicate Justified(st: State) {
    StoresJustified(st) && CyclesJustified(st) && MsgsJustified(st)
  }

  // ----- more history and more time justify no less

  lemma MoreHistory(history: set<Event>, history': set<Event>, k: Key, c: Copy)
    requires CopyJustified(history, k, c) && history <= history'
    ensures CopyJustified(history', k, c)
  {
    var w :| w in history && w.Written? && w.key == k && w.value == c.value;
    assert w in history';
    match c.expiresAt
    case None =>
      var f :| f in history && f.Written? && f.key == k && f.value == c.value && f.ttl == 0;
      assert f in history';
    case Some(e) =>
      var f :| f in history && f.key == k && f.at + f.ttl <= e &&
               (f.Retimed? || (f.Written? && f.value == c.value && f.ttl != 0));
      assert f in history';
  }

  /** A message that is delivered later leaves a copy that expires no earlier. */
  lemma LaterMsg(history: set<Event>, history': set<Event>, now: int, now': int, m: Msg)
    requires MsgJustified(history, now, m) && history <= history' && now <= now'
    ensures MsgJustified(history', now', m)
  {
    match m.body
    case SetBody(v, ttl) =>
      MoreHistory(history, history', m.key, ReceivedCopy(v, ttl, now));
      if ttl != 0 {
        var f :| f in history' && f.key == m.key && f.at + f.ttl <= now + ttl &&
                 (f.Retimed? || (f.Written? && f.value == v && f.ttl != 0));
        assert f.at + f.ttl <= now' + ttl;
      }
    case DeleteBody =>
    case TtlBody(ttl) =>
      var f :| f in history && f.Retimed? && f.key == m.key && f.at + f.ttl <= now + ttl;
      assert f in history' && f.at + f.ttl <= now' + ttl;
  }

  lemma FrameJustified(st: State, st': State)
    requires Justified(st) && st.history <= st'.history && st.now <= st'.now
    requires forall n, k | k in StoreOf(st', n) :: k in StoreOf(st, n) && StoreOf(st', n)[k] == StoreOf(st, n)[k]
    requires forall n, i | 0 <= i < |CycleOf(st', n)| :: CycleOf(st', n)[i] in CycleOf(st, n)
    requires forall m | m in st'.msgs && m !in st.msgs :: MsgJustified(st'.history, st'.now, m)
    ensures Justified(st')
  {
    forall n, k | k in StoreOf(st', n) ensures CopyJustified(st'.history, k, StoreOf(st', n)[k]) {
      MoreHistory(st.history, st'.history, k, StoreOf(st, n)[k]);
    }
    forall n, i | 0 <= i < |CycleOf(st', n)|
      ensures CopyJustified(st'.history, CycleOf(st', n)[i].key, CycleOf(st', n)[i].copy)
    {
      var snap := CycleOf(st', n)[i];
      assert snap in CycleOf(st, n);
      var j :| 0 <= j < |CycleOf(st, n)| && CycleOf(st, n)[j] == snap;
      MoreHistory(st.history, st'.history, CycleOf(st, n)[j].key, CycleOf(st, n)[j].copy);
    }
    forall m | m in st'.msgs ensures MsgJustified(st'.history, st'.now, m) {
      if m in st.msgs {
        LaterMsg(st.history, st'.history, st.now, st'.now, m);
      }
    }
  }

  lemma PutJustified(st: State, n: NodeId, k: Key, c: Copy)
    requires Justified(st) && CopyJustified(st.history, k, c)
    ensures Justified(PutAt(st, n, k, c))
  {
    var st' := PutAt(st, n, k, c);
    assert forall x :: CycleOf(st', x) == CycleOf(st, x);
    forall x, k' | k' in StoreOf(st', x) ensures CopyJustified(st'.history, k', StoreOf(st', x)[k']) {
      if x != n || k' != k {
        assert k' in StoreOf(st, x);
      }
    }
  }

  lemma DeliverJustified(st: State, m: Msg)
    requires Justified(st) && m in st.msgs
    ensures Justified(Receive(st, m))
  {
    assert MsgJustified(st.history, st.now, m);
    match m.body
    case SetBody(v, ttl) => PutJustified(st, m.to, m.key, ReceivedCopy(v, ttl, st.now));
    case DeleteBody => FrameJustified(st, Receive(st, m));
    case TtlBody(ttl) =>
      if m.key in StoreOf(st, m.to) {
        var c := StoreOf(st, m.to)[m.key];
        var f :| f in st.history && f.Retimed? && f.key == m.key && f.at + f.ttl <= st.now + ttl;
        assert CopyJustified(st.history, m.key, c);
        PutJustified(st, m.to, m.key, c.(expiresAt := Some(st.now + ttl)));
      }
  }

  /** A rebalancer passes on what it has: with the time that remains, so that the deadline at
      the receiver is no earlier, and never as a copy without a deadline. */
  lemma ProcessJustified(cfg: Config, st: State, n: NodeId)
    requires Justified(st) && CycleOf(st, n) != []
    ensures Justified(Process(cfg, st, n))
  {
    var snap := CycleOf(st, n)[0];
    var st' := Process(cfg, st, n);
    assert CopyJustified(st.history, snap.key, snap.copy);
    forall m | m in st'.msgs && m !in st.msgs ensures MsgJustified(st.history, st.now, m) {
      var ttl := RemainingTtl(snap.copy, st.now).value;
      assert ReceivedCopy(snap.copy.value, ttl, st.now) == snap.copy;
    }
    FrameJustified(st, st');
  }

  lemma StartJustified(cfg: Config, st: State, n: NodeId, order: seq<Key>)
    requires Justified(st) && Enabled(st, StartCycle(n, order))
    ensures Justified(Apply(cfg, st, StartCycle(n, order)))
  {
    var st' := Apply(cfg, st, StartCycle(n, order));
    assert forall x :: StoreOf(st', x) == StoreOf(st, x);
    forall x, i | 0 <= i < |CycleOf(st', x)|
      ensures CopyJustified(st'.history, CycleOf(st', x)[i].key, CycleOf(st', x)[i].copy)
    {
      if x == n {
        assert order[i] in Elements(order);
        assert CopyJustified(st.history, order[i], StoreOf(st, n)[order[i]]);
        assert CycleOf(st', n)[i] == Snapshot(order[i], StoreOf(st, n)[order[i]]);
      } else {
        assert CycleOf(st', x)[i] == CycleOf(st, x)[i];
      }
    }
  }

  lemma ClientSetJustified(cfg: Config, st: State, k: Key, v: Value, ttl: int)
    requires Justified(st)
    ensures Justified(Apply(cfg, st, ClientSet(k, v, ttl)))
  {
    var st' := Apply(cfg, st, ClientSet(k, v, ttl));
    assert Written(k, v, ttl, st.now) in st'.history;
    assert CopyJustified(st'.history, k, ReceivedCopy(v, ttl, st.now));
    FrameJustified(st, st');
  }

  lemma ClientSetTtlJustified(cfg: Config, st: State, k: Key, ttl: int)
    requires Justified(st)
    ensures Justified(Apply(cfg, st, ClientSetTtl(k, ttl)))
  {
    var st' := Apply(cfg, st, ClientSetTtl(k, ttl));
    assert Retimed(k, ttl, st.now) in st'.history;
    assert WasRetimed(st'.history, k, st.now + ttl);
    FrameJustified(st, st');
  }

  lemma StepJustified(cfg: Config, st: State, step: Step)
    requires Justified(st) && Enabled(st, step)
    ensures Justified(Apply(cfg, st, step))
  {
    match step
    case ClientSet(k, v, ttl) => ClientSetJustified(cfg, st, k, v, ttl);
    case ClientSetTtl(k, ttl) => ClientSetTtlJustified(cfg, st, k, ttl);
    case Deliver(m) => DeliverJustified(st, m);
    case StartCycle(n, order) => StartJustified(cfg, st, n, order);
    case ProcessKey(n) => ProcessJustified(cfg, st, n);
    case Tick(_) => FrameJustified(st, Apply(cfg, st, step));
    case Join(_) => FrameJustified(st, Apply(cfg, st, step));
    case Leave(_, _) => FrameJustified(st, Apply(cfg, st, step));
    case ClientDelete(_) => FrameJustified(st, Apply(cfg, st, step));
    case Evict(_, _) => FrameJustified(st, Apply(cfg, st, step));
    case CollectExpired(_) => FrameJustified(st, Apply(cfg, st, step));
    case DeleteExpired(_, _) => FrameJustified(st, Apply(cfg, st, step));
  }

  lemma {:induction false} RunJustified(cfg: Config, trace: seq<State>, steps: seq<Step>)
    requires IsRun(cfg, trace, steps) && Initial(trace[0])
    ensures Justified(trace[|steps|])
  {
    if steps != [] {
      var n := |steps| - 1;
      PrefixIsRun(cfg, trace, steps, n);
      RunJustified(cfg, trace[..n + 1], steps[..n]);
      StepJustified(cfg, trace[n], steps[n]);
    }
  }

  /** Over every run, with every failure: a stored value was the argument of an earlier set of
      that key; a copy without a deadline goes back to a set without one; and a copy with a
      deadline expires no earlier than some client's set of that value, or ttl change, asked. */
  lemma StoredCopiesWereAskedFor(cfg: Config, trace: seq<State>, steps: seq<Step>, n: NodeId, k: Key)
    requires IsRun(cfg, trace, steps) && Initial(trace[0]) && k in StoreOf(trace[|steps|], n)
    ensures var st := trace[|steps|];
            var c := StoreOf(st, n)[k];
            WasWritten(st.history, k, c.value) &&
            (c.expiresAt == None ==> WasWrittenForever(st.history, k, c.value)) &&
            (c.expiresAt.Some? ==> MayExpire(st.history, k, c.value, c.expiresAt.value))
  {
    RunJustified(cfg, trace, steps);
  }

  // ----- the history is what clients did

  /** A client's operation of the run, with the time it was asked for. */
  ghost predicate AskedAt(trace: seq<State>, steps: seq<Step>, j: int, w: Event) {
    0 <= j < |steps| < |trace| &&
    if w.Written? then steps[j] == ClientSet(w.key, w.value, w.ttl) && w.at == trace[j].now
    else steps[j] == ClientSetTtl(w.key, w.ttl) && w.at == trace[j].now
  }

  /** The history holds the sets and the ttl changes of clients and nothing else. */
  lemma {:induction false} HistoryIsClients(cfg: Config, trace: seq<State>, steps: seq<Step>, i: nat, w: Event)
    requires IsRun(cfg, trace, steps) && Initial(trace[0]) && i <= |steps|
    ensures w in trace[i].history <==> exists j :: 0 <= j < i && AskedAt(trace, steps, j, w)
  {
    if i > 0 {
      HistoryIsClients(cfg, trace, steps, i - 1, w);
      HistoryStep(cfg, trace[i - 1], steps[i - 1], w);
      assert w in trace[i].history && w !in trace[i - 1].history ==> AskedAt(trace, steps, i - 1, w);
    }
  }

  lemma HistoryStep(cfg: Config, st: State, step: Step, w: Event)
    requires Enabled(st, step)
    ensures w in Apply(cfg, st, step).history <==>
            w in st.history ||
            (if w.Written? then step == ClientSet(w.key, w.value, w.ttl) && w.at == st.now
             else step == ClientSetTtl(w.key, w.ttl) && w.at == st.now)
  {
  }

  // ----- what the ttl workers delete

  /** Some client set the key with a ttl, or changed its ttl, and the deadline it asked for has
      passed. */
  ghost predicate WasTimed(history: set<Event>, k: Key, now: int) {
    exists w | w in history :: w.key == k && w.at + w.ttl < now && (w.Retimed? || w.ttl != 0)
  }

  ghost predicate ListsTimed(st: State) {
    forall n, k | k in ExpiredOf(st, n) :: WasTimed(st.history, k, st.now)
  }

  lemma TimedStays(history: set<Event>, history': set<Event>, k: Key, now: int, now': int)
    requires WasTimed(history, k, now) && history <= history' && now <= now'
    ensures WasTimed(history', k, now')
  {
    var w :| w in history && w.key == k && w.at + w.ttl < now && (w.Retimed? || w.ttl != 0);
    assert w in history';
  }

  lemma ExpiredWasTimed(history: set<Event>, k: Key, c: Copy, now: int)
    requires CopyJustified(history, k, c) && c.expiresAt.Some? && c.expiresAt.value < now
    ensures WasTimed(history, k, now)
  {
    var w :| w in history && w.key == k && w.at + w.ttl <= c.expiresAt.value &&
             (w.Retimed? || (w.Written? && w.value == c.value && w.ttl != 0));
    assert w.at + w.ttl < now;
  }

  lemma StepKeepsLists(cfg: Config, st: State, step: Step)
    requires Justified(st) && ListsTimed(st) && Enabled(st, step)
    ensures ListsTimed(Apply(cfg, st, step))
  {
    var st' := Apply(cfg, st, step);
    forall n, k | k in ExpiredOf(st', n) ensures WasTimed(st'.history, k, st'.now) {
      if step == CollectExpired(n) {
        ExpiredWasTimed(st.history, k, StoreOf(st, n)[k], st.now);
      } else {
        assert k in ExpiredOf(st, n);
        TimedStays(st.history, st'.history, k, st.now, st'.now);
      }
    }
  }

  lemma {:induction false} RunKeepsLists(cfg: Config, trace: seq<State>, steps: seq<Step>, i: nat)
    requires IsRun(cfg, trace, steps) && Initial(trace[0]) && i <= |steps|
    ensures Justified(trace[i]) && ListsTimed(trace[i])
  {
    hide Justified, ListsTimed, Apply, Enabled;
    if i == 0 {
      NothingListed(trace[0]);
    } else {
      RunKeepsLists(cfg, trace, steps, i - 1);
      StepJustified(cfg, trace[i - 1], steps[i - 1]);
      StepKeepsLists(cfg, trace[i - 1], steps[i - 1]);
    }
  }

  lemma NothingListed(st: State)
    requires Initial(st)
    ensures Justified(st) && ListsTimed(st)
  {
  }

  /** A key is on a worker's list only if some client set it with a ttl, or changed its ttl, and
      the deadline that this asked for has passed. */
  lemma ListedWasTimed(cfg: Config, trace: seq<State>, steps: seq<Step>, i: nat, n: NodeId, k: Key) returns (j: nat, w: Event)
    requires IsRun(cfg, trace, steps) && Initial(trace[0]) && i <= |steps| && k in ExpiredOf(trace[i], n)
    ensures j < i && AskedAt(trace, steps, j, w) && w.key == k
    ensures w.at + w.ttl < trace[i].now && (w.Retimed? || w.ttl != 0)
  {
    hide Justified;
    RunKeepsLists(cfg, trace, steps, i);
    assert WasTimed(trace[i].history, k, trace[i].now);
    w :| w in trace[i].history && w.key == k && w.at + w.ttl < trace[i].now && (w.Retimed? || w.ttl != 0);
    HistoryIsClients(cfg, trace, steps, i, w);
    j :| 0 <= j < i && AskedAt(trace, steps, j, w);
  }

  /** A key that clients only ever set without a ttl is never deleted by a worker. */
  lemma UntimedNeverDeleted(cfg: Config, trace: seq<State>, steps: seq<Step>, i: nat, n: NodeId, k: Key)
    requires IsRun(cfg, trace, steps) && Initial(trace[0]) && i < |steps|
    requires forall j | 0 <= j < |steps| ::
               (steps[j].ClientSet? && steps[j].k == k ==> steps[j].ttl == 0) && !(steps[j].ClientSetTtl? && steps[j].k == k)
    ensures steps[i] != DeleteExpired(n, k)
  {
    if steps[i] == DeleteExpired(n, k) {
      var j, w := ListedWasTimed(cfg, trace, steps, i, n, k);
      assert false;
    }
  }

  // ----- a value survives with its key

  /** Whatever there is of the key, stored, about to be sent and not expired, or sent and not
      among the messages of `before`, has one value. The copies of nodes that are no replicas
      matter here, because with changing membership any node may become one. */
  ghost predicate Carries(st: State, k: Key, v: Value, before: set<Msg>) {
    (forall n | k in StoreOf(st, n) :: StoreOf(st, n)[k].value == v) &&
    (forall n, i | 0 <= i < |CycleOf(st, n)| && Unexpired(CycleOf(st, n)[i], k, st.now) :: CycleOf(st, n)[i].copy.value == v) &&
    (forall m | m in st.msgs && m !in before && m.key == k && m.body.SetBody? :: m.body.value == v)
  }

  predicate Unexpired(snap: Snapshot, k: Key, now: int) {
    snap.key == k && RemainingTtl(snap.copy, now).Some?
  }

  /** No client sets another value of the key, and no message of `before` brings one. */
  predicate SetsOnly(step: Step, k: Key, v: Value, before: set<Msg>) {
    (step.ClientSet? && step.k == k ==> step.value == v) &&
    (step.Deliver? && step.m in before && step.m.key == k && step.m.body.SetBody? ==> step.m.body.value == v)
  }

  lemma SnapshotsCarry(cfg: Config, st: State, step: Step, k: Key, v: Value, before: set<Msg>, n: NodeId, i: nat)
    requires Carries(st, k, v, before) && Enabled(st, step)
    requires var st' := Apply(cfg, st, step); i < |CycleOf(st', n)| && Unexpired(CycleOf(st', n)[i], k, st'.now)
    ensures CycleOf(Apply(cfg, st, step), n)[i].copy.value == v
  {
    var snap := CycleOf(Apply(cfg, st, step), n)[i];
    if step.StartCycle? && step.n == n {
      assert step.order[i] in Elements(step.order);
      assert snap == Snapshot(step.order[i], StoreOf(st, n)[step.order[i]]);
    } else if step.ProcessKey? && step.n == n {
      assert snap == CycleOf(st, n)[i + 1];
    } else {
      assert snap in CycleOf(st, n);
    }
  }

  lemma StepCarries(cfg: Config, st: State, step: Step, k: Key, v: Value, before: set<Msg>)
    requires Carries(st, k, v, before) && Enabled(st, step) && SetsOnly(step, k, v, before)
    ensures Carries(Apply(cfg, st, step), k, v, before)
  {
    var st' := Apply(cfg, st, step);
    forall n | k in StoreOf(st', n) ensures StoreOf(st', n)[k].value == v {
      StoresCarry(cfg, st, step, k, v, before, n);
    }
    forall n, i | 0 <= i < |CycleOf(st', n)| && Unexpired(CycleOf(st', n)[i], k, st'.now) ensures CycleOf(st', n)[i].copy.value == v {
      SnapshotsCarry(cfg, st, step, k, v, before, n, i);
    }
    forall m | m in st'.msgs && m !in before && m.key == k && m.body.SetBody? ensures m.body.value == v {
      MessagesCarry(cfg, st, step, k, v, before, m);
    }
  }

  lemma StoresCarry(cfg: Config, st: State, step: Step, k: Key, v: Value, before: set<Msg>, n: NodeId)
    requires Carries(st, k, v, before) && Enabled(st, step) && SetsOnly(step, k, v, before)
    requires k in StoreOf(Apply(cfg, st, step), n)
    ensures StoreOf(Apply(cfg, st, step), n)[k].value == v
  {
    if step.Deliver? && step.m.to == n && step.m.key == k && step.m.body.SetBody? {
      assert step.m.body.value == v;
    } else {
      assert k in StoreOf(st, n) && StoreOf(Apply(cfg, st, step), n)[k].value == StoreOf(st, n)[k].value;
    }
  }

  lemma MessagesCarry(cfg: Config, st: State, step: Step, k: Key, v: Value, before: set<Msg>, m: Msg)
    requires Carries(st, k, v, before) && Enabled(st, step) && SetsOnly(step, k, v, before)
    requires m in Apply(cfg, st, step).msgs && m !in before && m.key == k && m.body.SetBody?
    ensures m.body.value == v
  {
  }

  lemma {:induction false} RunCarries(cfg: Config, trace: seq<State>, steps: seq<Step>, k: Key, v: Value, before: set<Msg>, i: nat)
    requires IsRun(cfg, trace, steps) && Carries(trace[0], k, v, before) && i <= |steps|
    requires forall j | 0 <= j < |steps| :: SetsOnly(steps[j], k, v, before)
    ensures Carries(trace[i], k, v, before)
  {
    hide Carries, Apply, Enabled, SetsOnly;
    if i > 0 {
      RunCarries(cfg, trace, steps, k, v, before, i - 1);
      StepCarries(cfg, trace[i - 1], steps[i - 1], k, v, before);
    }
  }

  /** Not only the key survives but its value: when at the start no copy and no running cycle
      that has still to send it has another value, no client sets another one and no earlier set
      of another one arrives,
      the holder that stays a replica has that value throughout. */
  lemma HeldValueSurvives(cfg: Config, trace: seq<State>, steps: seq<Step>, k: Key, v: Value, holders: set<NodeId>)
    returns (h: NodeId)
    requires IsRun(cfg, trace, steps) && DistinctScores(cfg.scores(k), trace[0].members)
    requires holders <= Replicas(cfg, trace[0], k) && forall r | r in holders :: k in StoreOf(trace[0], r)
    requires |Changed(steps)| < |holders|
    requires forall i | 0 <= i < |steps| :: !Removes(steps[i], k) && SetsOnly(steps[i], k, v, trace[0].msgs)
    requires Carries(trace[0], k, v, trace[0].msgs)
    ensures h in holders
    ensures forall i | 0 <= i < |trace| ::
              h in Replicas(cfg, trace[i], k) && k in StoreOf(trace[i], h) && StoreOf(trace[i], h)[k].value == v
  {
    h := HeldKeySurvives(cfg, trace, steps, k, holders);
    forall i | 0 <= i < |trace| ensures StoreOf(trace[i], h)[k].value == v {
      RunCarries(cfg, trace, steps, k, v, trace[0].msgs, i);
    }
  }

  /** The same for a write that reached a quorum: it is still there after at most half as many
      joins and leaves as it has replicas. */
  lemma QuorumValueSurvives(cfg: Config, trace: seq<State>, steps: seq<Step>, k: Key, v: Value, reached: set<NodeId>)
    returns (h: NodeId)
    requires IsRun(cfg, trace, steps) && DistinctScores(cfg.scores(k), trace[0].members)
    requires Quorum.IsQuorum(reached, Replicas(cfg, trace[0], k)) && forall r | r in reached :: k in StoreOf(trace[0], r)
    requires |Changed(steps)| <= |Replicas(cfg, trace[0], k)| / 2
    requires forall i | 0 <= i < |steps| :: !Removes(steps[i], k) && SetsOnly(steps[i], k, v, trace[0].msgs)
    requires Carries(trace[0], k, v, trace[0].msgs)
    ensures h in reached
    ensures forall i | 0 <= i < |trace| ::
              h in Replicas(cfg, trace[i], k) && k in StoreOf(trace[i], h) && StoreOf(trace[i], h)[k].value == v
  {
    h := HeldValueSurvives(cfg, trace, steps, k, v, reached);
  }

  // ----- chains of rebalance hops

  /** A copy sent by a rebalancer at one time and stored by the receiver at another. */
  datatype Hop = Hop(sent: int, received: int)

  function AfterHop(c: Copy, hop: Hop): Option<Copy> {
    match RemainingTtl(c, hop.sent)
    case None => None
    case Some(ttl) => Some(ReceivedCopy(c.value, ttl, hop.received))
  }

  function AfterHops(c: Copy, hops: seq<Hop>): Option<Copy> {
    if hops == [] then Some(c)
    else
      match AfterHops(c, hops[..|hops| - 1])
      case None => None
      case Some(c') => AfterHop(c', hops[|hops| - 1])
  }

  function TotalDelay(hops: seq<Hop>): int {
    if hops == [] then 0
    else TotalDelay(hops[..|hops| - 1]) + hops[|hops| - 1].received - hops[|hops| - 1].sent
  }

  /** After any chain of hops that was not cut short, the deadline is the original one plus
      the delays of the hops. */
  lemma {:induction false} DeadlineAfterHops(c: Copy, hops: seq<Hop>)
    requires AfterHops(c, hops).Some?
    ensures AfterHops(c, hops).value ==
            Copy(c.value, if c.expiresAt.Some? then Some(c.expiresAt.value + TotalDelay(hops)) else None)
  {
    if hops != [] {
      DeadlineAfterHops(c, hops[..|hops| - 1]);
    }
  }

  /** Each hop is sent before the deadline that the copy has by then. */
  predicate SentInTime(deadline: int, hops: seq<Hop>) {
    forall i | 0 <= i < |hops| :: hops[i].sent < deadline + TotalDelay(hops[..i])
  }

  lemma SentInTimeLast(deadline: int, hops: seq<Hop>)
    requires hops != []
    ensures var n := |hops| - 1;
            SentInTime(deadline, hops) <==> SentInTime(deadline, hops[..n]) && hops[n].sent < deadline + TotalDelay(hops[..n])
  {
    assert forall i | 0 <= i < |hops| - 1 :: hops[..|hops| - 1][..i] == hops[..i];
  }

  /** A chain is cut short exactly by a hop that is sent when the copy has expired; a copy
      without a deadline always arrives. */
  lemma {:induction false} HopsArriveIffUnexpired(c: Copy, hops: seq<Hop>)
    ensures AfterHops(c, hops).Some? <==> c.expiresAt == None || SentInTime(c.expiresAt.value, hops)
  {
    hide SentInTime, TotalDelay;
    if hops == [] {
      NoHops(c);
    } else {
      var n := |hops| - 1;
      HopsArriveIffUnexpired(c, hops[..n]);
      if c.expiresAt.Some? {
        SentInTimeLast(c.expiresAt.value, hops);
      }
      if AfterHops(c, hops[..n]).Some? {
        DeadlineAfterHops(c, hops[..n]);
      }
    }
  }

  lemma NoHops(c: Copy)
    ensures c.expiresAt.Some? ==> SentInTime(c.expiresAt.value, [])
  {
  }
}

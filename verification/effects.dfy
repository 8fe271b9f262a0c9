/** What single steps do, over every run of the machine: what a client's operation sends, what a
    message leaves where it arrives, what a ttl worker collects and who is a member. */
module Effects {
  import opened Common
  import opened Rendezvous
  import opened Cluster

  ghost predicate Takes(cfg: Config, trace: seq<State>, steps: seq<Step>, i: int, step: Step) {
    IsRun(cfg, trace, steps) && 0 <= i < |steps| && steps[i] == step
  }

  /** A node is a member exactly after its join and until it leaves. */
  lemma MembersAfter(cfg: Config, trace: seq<State>, steps: seq<Step>, i: nat, x: NodeId)
    requires IsRun(cfg, trace, steps) && i < |steps|
    ensures x in trace[i + 1].members <==>
            steps[i] == Join(x) || (x in trace[i].members && !(steps[i].Leave? && steps[i].n == x))
  {
  }

  /** A crash takes what the node had with it, any other leave does not; nobody else loses
      anything. */
  lemma LeaveLoses(cfg: Config, trace: seq<State>, steps: seq<Step>, i: nat, n: NodeId, crash: bool)
    requires Takes(cfg, trace, steps, i, Leave(n, crash))
    ensures crash ==> StoreOf(trace[i + 1], n) == map[] && CycleOf(trace[i + 1], n) == [] && ExpiredOf(trace[i + 1], n) == {}
    ensures forall x | !crash || x != n :: StoreOf(trace[i + 1], x) == StoreOf(trace[i], x)
  {
  }

  // ----- what is sent

  /** Every replica of the key, and nobody else, is sent this body. */
  ghost predicate SendsToReplicas(cfg: Config, st: State, st': State, k: Key, body: Body) {
    forall m :: m in st'.msgs <==> m in st.msgs || (m.key == k && m.to in Replicas(cfg, st, k) && m.body == body)
  }

  /** What an operation sends: a client's set its value and ttl, a ttl change the new ttl, and a
      delete, by a client or by a ttl worker, the delete. */
  lemma OperationSends(cfg: Config, trace: seq<State>, steps: seq<Step>, i: nat)
    requires IsRun(cfg, trace, steps) && i < |steps|
    ensures steps[i].ClientSet? ==>
              SendsToReplicas(cfg, trace[i], trace[i + 1], steps[i].k, SetBody(steps[i].value, steps[i].ttl))
    ensures steps[i].ClientSetTtl? ==> SendsToReplicas(cfg, trace[i], trace[i + 1], steps[i].k, TtlBody(steps[i].ttl))
    ensures steps[i].ClientDelete? ==> SendsToReplicas(cfg, trace[i], trace[i + 1], steps[i].k, DeleteBody)
    ensures steps[i].DeleteExpired? ==> SendsToReplicas(cfg, trace[i], trace[i + 1], steps[i].k, DeleteBody)
    ensures steps[i].ClientSet? || steps[i].ClientSetTtl? || steps[i].ClientDelete? || steps[i].DeleteExpired? ==>
              forall x :: StoreOf(trace[i + 1], x) == StoreOf(trace[i], x)
  {
  }

  /** A message that was sent can arrive at any later time. */
  lemma {:induction false} SentStays(cfg: Config, trace: seq<State>, steps: seq<Step>, i: nat, j: nat)
    requires IsRun(cfg, trace, steps) && i <= j < |trace|
    ensures trace[i].msgs <= trace[j].msgs
  {
    if i < j {
      SentStays(cfg, trace, steps, i, j - 1);
    }
  }

  // ----- what is left where a message arrives

  function HeldAt(st: State, n: NodeId, k: Key): Option<Copy> {
    if k in StoreOf(st, n) then Some(StoreOf(st, n)[k]) else None
  }

  /** A set leaves its value, with a deadline counted from its arrival unless the ttl is 0; a
      delete leaves nothing; a ttl change leaves the value that is there, if any, with a deadline
      counted from its arrival. No other copy changes. */
  lemma ArrivalLeaves(cfg: Config, trace: seq<State>, steps: seq<Step>, i: nat, m: Msg)
    requires Takes(cfg, trace, steps, i, Deliver(m))
    ensures var before, after := HeldAt(trace[i], m.to, m.key), HeldAt(trace[i + 1], m.to, m.key);
            (m.body.SetBody? ==>
               after == Some(Copy(m.body.value, if m.body.ttl == 0 then None else Some(trace[i].now + m.body.ttl)))) &&
            (m.body.DeleteBody? ==> after == None) &&
            (m.body.TtlBody? ==>
               after == if before == None then None else Some(Copy(before.value.value, Some(trace[i].now + m.body.ttl))))
    ensures forall n, k | n != m.to || k != m.key :: HeldAt(trace[i + 1], n, k) == HeldAt(trace[i], n, k)
  {
  }

  lemma EvictionRemoves(cfg: Config, trace: seq<State>, steps: seq<Step>, i: nat, n: NodeId, k: Key)
    requires Takes(cfg, trace, steps, i, Evict(n, k))
    ensures HeldAt(trace[i + 1], n, k) == None
    ensures forall n', k' | n' != n || k' != k :: HeldAt(trace[i + 1], n', k') == HeldAt(trace[i], n', k')
  {
  }

  /** A client's ttl change reaches each replica: whenever it arrives at one that has the key, the
      value stays and the deadline is the time of arrival plus the ttl. */
  lemma TtlChangeArrives(cfg: Config, trace: seq<State>, steps: seq<Step>, i: nat, j: nat, k: Key, ttl: int, r: NodeId)
    requires Takes(cfg, trace, steps, i, ClientSetTtl(k, ttl)) && i < j < |trace|
    requires r in Replicas(cfg, trace[i], k) && k in StoreOf(trace[j], r)
    ensures Enabled(trace[j], Deliver(Msg(r, k, TtlBody(ttl))))
    ensures j < |steps| && steps[j] == Deliver(Msg(r, k, TtlBody(ttl))) ==>
              k in StoreOf(trace[j + 1], r) &&
              StoreOf(trace[j + 1], r)[k] == Copy(StoreOf(trace[j], r)[k].value, Some(trace[j].now + ttl))
  {
    hide Apply, Receive, Replicas;
    OperationSends(cfg, trace, steps, i);
    SentStays(cfg, trace, steps, i + 1, j);
    if j < |steps| && steps[j] == Deliver(Msg(r, k, TtlBody(ttl))) {
      ArrivalLeaves(cfg, trace, steps, j, Msg(r, k, TtlBody(ttl)));
    }
  }

  // ----- the ttl worker

  /** Right after its walk a worker has on its list exactly the keys of which its node has a copy
      whose deadline has passed. */
  lemma CollectedIffExpired(cfg: Config, trace: seq<State>, steps: seq<Step>, i: nat, n: NodeId, k: Key)
    requires Takes(cfg, trace, steps, i, CollectExpired(n))
    ensures k in ExpiredOf(trace[i + 1], n) <==>
            k in StoreOf(trace[i], n) && StoreOf(trace[i], n)[k].expiresAt.Some? &&
            StoreOf(trace[i], n)[k].expiresAt.value < trace[i].now
  {
  }

  /** It then takes the keys off its list one by one. */
  lemma DeletedIsOffList(cfg: Config, trace: seq<State>, steps: seq<Step>, i: nat, n: NodeId, k: Key)
    requires Takes(cfg, trace, steps, i, DeleteExpired(n, k))
    ensures k in ExpiredOf(trace[i], n) && ExpiredOf(trace[i + 1], n) == ExpiredOf(trace[i], n) - {k}
    ensures forall x | x != n :: ExpiredOf(trace[i + 1], x) == ExpiredOf(trace[i], x)
  {
  }
}

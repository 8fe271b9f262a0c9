/** Runs of a cluster of two nodes that both replicate one key, for concrete cases. */
module TwoNodes {
  import opened Common
  import opened Rendezvous
  import opened Cluster

  /** What a node has of the key. */
  function Held(st: State, n: NodeId): Option<Copy> {
    if LOST_KEY in StoreOf(st, n) then Some(StoreOf(st, n)[LOST_KEY]) else None
  }

  function StoreWith(c: Option<Copy>): map<Key, Copy> {
    if c.Some? then map[LOST_KEY := c.value] else map[]
  }

  /** The time, what the two nodes have, and messages that are on their way, while no cycle and
      no ttl worker is running. */
  ghost predicate Two(st: State, now: int, c: Option<Copy>, c': Option<Copy>, sent: set<Msg>) {
    st.members == {Name(0), Name(1)} && Name(0) != Name(1) && st.now == now && sent <= st.msgs &&
    StoreOf(st, Name(0)) == StoreWith(c) && StoreOf(st, Name(1)) == StoreWith(c') && st.cycle == map[] && st.expired == map[]
  }

  lemma TwoIs(st: State, now: int, c: Option<Copy>, c': Option<Copy>, sent: set<Msg>)
    requires Two(st, now, c, c', sent)
    ensures st.members == {Name(0), Name(1)} && st.now == now && sent <= st.msgs
    ensures Held(st, Name(0)) == c && Held(st, Name(1)) == c'
    ensures Replicas(ByLength(2), st, LOST_KEY) == {Name(0), Name(1)}
  {
    BothAreReplicas(st);
  }

  lemma BothAreReplicas(st: State)
    requires st.members == {Name(0), Name(1)}
    ensures Replicas(ByLength(2), st, LOST_KEY) == {Name(0), Name(1)}
  {
    NamesAreTwo();
    AllAreReplicas(2, st);
  }

  lemma NamesAreTwo()
    ensures Names(0, 2) == {Name(0), Name(1)} && Name(0) != Name(1)
  {
    NamesStep(0, 0);
    NamesStep(0, 1);
    assert Names(0, 0) == {};
  }

  lemma TwoJoin() returns (trace: seq<State>, steps: seq<Step>)
    ensures trace != [] && IsRun(ByLength(2), trace, steps) && Initial(trace[0])
    ensures Two(Last(trace), 0, None, None, {})
  {
    hide IsRun;
    NamesAreTwo();
    trace, steps := JoinNewer(ByLength(2), Fresh(), 0, 2);
  }

  /** The messages of a client's set, one for each node. */
  function Sets(v: Value, ttl: int): set<Msg> {
    Broadcast({Name(0), Name(1)}, LOST_KEY, SetBody(v, ttl))
  }

  function Deletes(): set<Msg> {
    Broadcast({Name(0), Name(1)}, LOST_KEY, DeleteBody)
  }

  /** What a node has after a set or a delete reached it. */
  function Landed(body: Body, now: int): Option<Copy> {
    if body.SetBody? then Some(ReceivedCopy(body.value, body.ttl, now)) else None
  }

  lemma LandsAt(st: State, now: int, c: Option<Copy>, c': Option<Copy>, sent: set<Msg>, m: Msg)
    requires Two(st, now, c, c', sent) && m in sent && m.key == LOST_KEY && !m.body.TtlBody? && m.to in {Name(0), Name(1)}
    ensures Enabled(st, Deliver(m))
    ensures var landed := Landed(m.body, now);
            Two(Apply(ByLength(2), st, Deliver(m)), now, if m.to == Name(0) then landed else c,
                if m.to == Name(1) then landed else c', sent)
  {
  }

  lemma Land(trace: seq<State>, steps: seq<Step>, now: int, c: Option<Copy>, c': Option<Copy>, sent: set<Msg>, m: Msg)
    returns (trace': seq<State>, steps': seq<Step>)
    requires trace != [] && IsRun(ByLength(2), trace, steps) && Two(Last(trace), now, c, c', sent)
    requires m in sent && m.key == LOST_KEY && !m.body.TtlBody? && m.to in {Name(0), Name(1)}
    ensures trace' != [] && IsRun(ByLength(2), trace', steps') && trace'[0] == trace[0]
    ensures var landed := Landed(m.body, now);
            Two(Last(trace'), now, if m.to == Name(0) then landed else c, if m.to == Name(1) then landed else c', sent)
  {
    hide IsRun, Two, Apply, Enabled;
    LandsAt(Last(trace), now, c, c', sent, m);
    trace', steps' := ExtendRun(ByLength(2), trace, steps, Deliver(m));
  }

  lemma SetBoth(trace: seq<State>, steps: seq<Step>, now: int, c: Option<Copy>, c': Option<Copy>, sent: set<Msg>, v: Value, ttl: int)
    returns (trace': seq<State>, steps': seq<Step>)
    requires trace != [] && IsRun(ByLength(2), trace, steps) && Two(Last(trace), now, c, c', sent)
    ensures trace' != [] && IsRun(ByLength(2), trace', steps') && trace'[0] == trace[0]
    ensures Two(Last(trace'), now, c, c', sent + Sets(v, ttl))
  {
    hide IsRun, Replicas;
    BothAreReplicas(Last(trace));
    trace', steps' := ExtendRun(ByLength(2), trace, steps, ClientSet(LOST_KEY, v, ttl));
  }

  lemma DeleteBoth(trace: seq<State>, steps: seq<Step>, now: int, c: Option<Copy>, c': Option<Copy>, sent: set<Msg>)
    returns (trace': seq<State>, steps': seq<Step>)
    requires trace != [] && IsRun(ByLength(2), trace, steps) && Two(Last(trace), now, c, c', sent)
    ensures trace' != [] && IsRun(ByLength(2), trace', steps') && trace'[0] == trace[0]
    ensures Two(Last(trace'), now, c, c', sent + Deletes())
  {
    hide IsRun, Replicas;
    BothAreReplicas(Last(trace));
    trace', steps' := ExtendRun(ByLength(2), trace, steps, ClientDelete(LOST_KEY));
  }

  lemma Wait(trace: seq<State>, steps: seq<Step>, now: int, c: Option<Copy>, c': Option<Copy>, sent: set<Msg>, d: nat)
    returns (trace': seq<State>, steps': seq<Step>)
    requires trace != [] && IsRun(ByLength(2), trace, steps) && Two(Last(trace), now, c, c', sent)
    ensures trace' != [] && IsRun(ByLength(2), trace', steps') && trace'[0] == trace[0]
    ensures Two(Last(trace'), now + d, c, c', sent)
  {
    hide IsRun;
    trace', steps' := ExtendRun(ByLength(2), trace, steps, Tick(d));
  }

  /** The second node's rebalancer sends its copy to the first. */
  lemma SecondSends(st: State, now: int, c: Option<Copy>, v: Value, sent: set<Msg>) returns (st1: State, m: Msg)
    requires Two(st, now, c, Some(Copy(v, None)), sent)
    ensures Enabled(st, StartCycle(Name(1), [LOST_KEY])) && st1 == Apply(ByLength(2), st, StartCycle(Name(1), [LOST_KEY]))
    ensures Enabled(st1, ProcessKey(Name(1))) && m in Sent(ByLength(2), st1, Name(1))
    ensures var st2 := Apply(ByLength(2), st1, ProcessKey(Name(1)));
            st2.members == st.members && Held(st2, Name(0)) == c && m in st2.msgs &&
            Held(Apply(ByLength(2), st2, Deliver(m)), Name(0)) == Some(Copy(v, None))
  {
    hide Replicas;
    assert Elements([LOST_KEY]) == {LOST_KEY};
    m := Msg(Name(0), LOST_KEY, SetBody(v, 0));
    st1 := Apply(ByLength(2), st, StartCycle(Name(1), [LOST_KEY]));
    assert CycleOf(st1, Name(1)) == [Snapshot(LOST_KEY, Copy(v, None))];
    BothAreReplicas(st1);
  }
}

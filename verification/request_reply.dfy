/** Requests and replies matched by correlation id, as a step machine: the network may lose,
    delay, reorder and duplicate messages, and calls may time out at any moment. */
module RequestReply {
  import opened Common

  type Id = string
  type Payload = string

  datatype Request = Request(id: Id, target: NodeId, payload: Payload)

  /** A reply frame; an empty error means success. */
  datatype Reply = Reply(id: Id, payload: Payload, error: string)

  datatype Outcome = Returned(payload: Payload) | RemoteError(error: string) | SendFailed | TimedOut | Cancelled

  datatype Status = Waiting | Done(outcome: Outcome)

  datatype Call = Call(target: NodeId, payload: Payload, status: Status)

  /** One execution of a request handler: on whose request, and what it gave back. */
  datatype Handling = Handling(id: Id, at: NodeId, input: Payload, output: Payload, error: string)

  const NO_HANDLER := "application not found or no request handler"

  datatype State = State(
    calls: map<Id, Call>,
    pending: map<Id, Option<Reply>>,  // one reply slot for each entry of the pending map
    requests: set<Request>,
    replies: set<Reply>,
    handled: set<Handling>)

  datatype Step =
    | Begin(id: Id, target: NodeId, payload: Payload)
    | Send(id: Id)
    | FailSend(id: Id)
    | Handle(r: Request, output: Payload, error: string)
    | Reject(r: Request)
    | Deliver(reply: Reply)
    | Receive(id: Id)
    | Timeout(id: Id)
    | Cancel(id: Id)

  const INIT := State(map[], map[], {}, {}, {})

  /** A begun call gets a correlation id that no call had before. */
  predicate Enabled(st: State, step: Step) {
    match step
    case Begin(id, _, _) => id !in st.calls
    case Send(id) => id in st.pending && id in st.calls
    case FailSend(id) => id in st.pending && id in st.calls
    case Handle(r, _, _) => r in st.requests
    case Reject(r) => r in st.requests
    case Deliver(r) => r in st.replies
    case Receive(id) => id in st.pending && id in st.calls && st.pending[id].Some?
    case Timeout(id) => id in st.pending && id in st.calls
    case Cancel(id) => id in st.pending && id in st.calls
  }

  /** A call returns: its entry leaves the pending map, whatever the outcome. */
  function Finish(st: State, id: Id, outcome: Outcome): State
    requires id in st.calls
  {
    st.(calls := st.calls[id := st.calls[id].(status := Done(outcome))], pending := st.pending - {id})
  }

  function Apply(st: State, step: Step): State
    requires Enabled(st, step)
  {
    match step
    case Begin(id, target, payload) =>
      st.(calls := st.calls[id := Call(target, payload, Waiting)], pending := st.pending[id := None])
    case Send(id) => st.(requests := st.requests + {Request(id, st.calls[id].target, st.calls[id].payload)})
    case FailSend(id) => Finish(st, id, SendFailed)
    case Handle(r, output, error) =>
      st.(handled := st.handled + {Handling(r.id, r.target, r.payload, output, error)},
          replies := st.replies + {Reply(r.id, output, error)})
    case Reject(r) => st.(replies := st.replies + {Reply(r.id, "", NO_HANDLER)})
    case Deliver(r) =>
      // the slot holds one reply: a second one, and one for an unknown id, are dropped
      if r.id in st.pending && st.pending[r.id] == None then st.(pending := st.pending[r.id := Some(r)]) else st
    case Receive(id) =>
      var r := st.pending[id].value;
      Finish(st, id, if r.error != "" then RemoteError(r.error) else Returned(r.payload))
    case Timeout(id) => Finish(st, id, TimedOut)
    case Cancel(id) => Finish(st, id, Cancelled)
  }

  ghost predicate IsRun(trace: seq<State>, steps: seq<Step>) {
    |trace| == |steps| + 1 && trace[0] == INIT &&
    forall i | 0 <= i < |steps| :: Enabled(trace[i], steps[i]) && trace[i + 1] == Apply(trace[i], steps[i])
  }

  // ----- the invariant

  /** The pending map holds exactly the calls in flight. */
  ghost predicate PendingIsInFlight(st: State) {
    forall id :: id in st.pending <==> id in st.calls && st.calls[id].status == Waiting
  }

  predicate IsCallOf(st: State, id: Id, target: NodeId, payload: Payload) {
    id in st.calls && st.calls[id].target == target && st.calls[id].payload == payload
  }

  /** A handler ran on this call's own target and payload and gave this output. */
  ghost predicate Answered(st: State, id: Id, output: Payload, error: string) {
    exists h | h in st.handled :: h.id == id && h.output == output && h.error == error && IsCallOf(st, id, h.at, h.input)
  }

  ghost predicate ReplyGenuine(st: State, r: Reply) {
    r == Reply(r.id, "", NO_HANDLER) || Answered(st, r.id, r.payload, r.error)
  }

  /** A returned payload and a remote error come from a reply to this call. */
  ghost predicate OutcomeGenuine(st: State, id: Id, outcome: Outcome) {
    (outcome.Returned? ==> Answered(st, id, outcome.payload, "")) &&
    (outcome.RemoteError? && outcome.error != NO_HANDLER ==> exists p :: Answered(st, id, p, outcome.error))
  }

  ghost predicate Inv(st: State) {
    PendingIsInFlight(st) &&
    (forall r | r in st.requests :: IsCallOf(st, r.id, r.target, r.payload)) &&
    (forall r | r in st.replies :: ReplyGenuine(st, r)) &&
    (forall id | id in st.pending && st.pending[id].Some? :: st.pending[id].value in st.replies && st.pending[id].value.id == id) &&
    (forall id | id in st.calls && st.calls[id].status.Done? :: OutcomeGenuine(st, id, st.calls[id].status.outcome))
  }

  /** A call never changes but for its status, and handlings are never forgotten. */
  ghost predicate Extends(st: State, st': State) {
    st.handled <= st'.handled &&
    forall id | id in st.calls :: IsCallOf(st', id, st.calls[id].target, st.calls[id].payload)
  }

  lemma AnsweredStays(st: State, st': State)
    requires Extends(st, st')
    ensures forall id, p, e | Answered(st, id, p, e) :: Answered(st', id, p, e)
    ensures forall r | ReplyGenuine(st, r) :: ReplyGenuine(st', r)
    ensures forall id, o | OutcomeGenuine(st, id, o) :: OutcomeGenuine(st', id, o)
  {
    forall id, p, e | Answered(st, id, p, e) ensures Answered(st', id, p, e) {
      var h :| h in st.handled && h.id == id && h.output == p && h.error == e && IsCallOf(st, id, h.at, h.input);
      assert h in st'.handled && IsCallOf(st', id, h.at, h.input);
    }
    forall id, o | OutcomeGenuine(st, id, o) ensures OutcomeGenuine(st', id, o) {
      if o.RemoteError? && o.error != NO_HANDLER {
        var p :| Answered(st, id, p, o.error);
        assert Answered(st', id, p, o.error);
      }
    }
  }

  lemma StepKeepsInv(st: State, step: Step)
    requires Inv(st) && Enabled(st, step)
    ensures Inv(Apply(st, step)) && Extends(st, Apply(st, step))
  {
    var st' := Apply(st, step);
    AnsweredStays(st, st');
    match step
    case Handle(r, output, error) =>
      assert Handling(r.id, r.target, r.payload, output, error) in st'.handled;
      assert Answered(st', r.id, output, error);
    case Receive(id) =>
      var r := st.pending[id].value;
      assert ReplyGenuine(st', r);
    case _ =>
  }

  lemma {:induction false} RunKeepsInv(trace: seq<State>, steps: seq<Step>, i: nat)
    requires IsRun(trace, steps) && i < |trace|
    ensures Inv(trace[i])
  {
    if i > 0 {
      RunKeepsInv(trace, steps, i - 1);
      StepKeepsInv(trace[i - 1], steps[i - 1]);
    }
  }

  /** In every interleaving, a payload that a call returns is what a handler at that call's
      target made of that call's own payload, without an error. */
  lemma ReturnedPayloadIsOwn(trace: seq<State>, steps: seq<Step>, i: nat, id: Id)
    requires IsRun(trace, steps) && i < |trace|
    requires id in trace[i].calls && trace[i].calls[id].status.Done? && trace[i].calls[id].status.outcome.Returned?
    ensures var c := trace[i].calls[id];
            exists h | h in trace[i].handled ::
              h.id == id && h.at == c.target && h.input == c.payload && h.output == c.status.outcome.payload && h.error == ""
  {
    RunKeepsInv(trace, steps, i);
    assert Answered(trace[i], id, trace[i].calls[id].status.outcome.payload, "");
  }

  /** The pending map holds exactly the calls that have not returned, in every interleaving. */
  lemma PendingExact(trace: seq<State>, steps: seq<Step>, i: nat)
    requires IsRun(trace, steps) && i < |trace|
    ensures forall id :: id in trace[i].pending <==> id in trace[i].calls && trace[i].calls[id].status == Waiting
  {
    RunKeepsInv(trace, steps, i);
  }

  /** A call returns once: whatever replies come later, its outcome stays. */
  lemma {:induction false} OutcomeIsFinal(trace: seq<State>, steps: seq<Step>, i: nat, j: nat, id: Id)
    requires IsRun(trace, steps) && i <= j < |trace|
    requires id in trace[i].calls && trace[i].calls[id].status.Done?
    ensures id in trace[j].calls && trace[j].calls[id] == trace[i].calls[id]
  {
    if i < j {
      OutcomeIsFinal(trace, steps, i, j - 1, id);
      RunKeepsInv(trace, steps, j - 1);
    }
  }

  /** A step that concerns one call leaves every other call and its reply slot alone. */
  function Concerns(step: Step): Option<Id> {
    match step
    case Begin(id, _, _) => Some(id)
    case FailSend(id) => Some(id)
    case Deliver(r) => Some(r.id)
    case Receive(id) => Some(id)
    case Timeout(id) => Some(id)
    case Cancel(id) => Some(id)
    case _ => None
  }

  /** Over any stretch of a run in which no step concerns a call, nothing about it changes:
      late, duplicated or misdirected replies for others cannot reach it. */
  lemma {:induction false} OthersUntouched(trace: seq<State>, steps: seq<Step>, i: nat, j: nat, id: Id)
    requires IsRun(trace, steps) && i <= j < |trace|
    requires forall s | i <= s < j :: Concerns(steps[s]) != Some(id)
    ensures id in trace[j].calls <==> id in trace[i].calls
    ensures id in trace[i].calls ==> trace[j].calls[id] == trace[i].calls[id]
    ensures id in trace[j].pending <==> id in trace[i].pending
    ensures id in trace[i].pending ==> trace[j].pending[id] == trace[i].pending[id]
  {
    if i < j {
      OthersUntouched(trace, steps, i, j - 1, id);
    }
  }

  lemma StepKeepsSlot(st: State, step: Step, id: Id)
    requires PendingIsInFlight(st) && Enabled(st, step) && id in st.calls
    requires id in st.pending ==> st.pending[id].Some?
    ensures id in Apply(st, step).calls
    ensures id in Apply(st, step).pending ==> id in st.pending && Apply(st, step).pending[id] == st.pending[id]
  {
  }

  /** A call takes the first reply that reaches its slot while it waits; once the slot is full
      no later reply replaces it. */
  lemma {:induction false} FirstReplyStays(trace: seq<State>, steps: seq<Step>, i: nat, j: nat, id: Id)
    requires IsRun(trace, steps) && i <= j < |trace|
    requires id in trace[i].pending && trace[i].pending[id].Some?
    ensures id in trace[j].calls
    ensures id in trace[j].pending ==> trace[j].pending[id] == trace[i].pending[id]
  {
    hide Inv, Apply;
    if i == j {
      RunKeepsInv(trace, steps, i);
      InFlightOf(trace[i]);
    } else {
      FirstReplyStays(trace, steps, i, j - 1, id);
      RunKeepsInv(trace, steps, j - 1);
      InFlightOf(trace[j - 1]);
      StepKeepsSlot(trace[j - 1], steps[j - 1], id);
    }
  }

  lemma InFlightOf(st: State)
    requires Inv(st)
    ensures PendingIsInFlight(st)
  {
  }

  // ----- a reply reaches its caller

  /** A reply for a waiting call fills its empty slot, and nothing else changes. Any other reply is
      dropped. */
  lemma DeliverFillsSlot(trace: seq<State>, steps: seq<Step>, i: nat, r: Reply)
    requires IsRun(trace, steps) && i < |steps| && steps[i] == Deliver(r)
    ensures trace[i + 1].pending == if r.id in trace[i].pending && trace[i].pending[r.id] == None
                                    then trace[i].pending[r.id := Some(r)] else trace[i].pending
    ensures trace[i + 1].calls == trace[i].calls
  {
  }

  /** A call that takes a reply returns its payload if and only if the reply has no error, and
      else that error. */
  lemma ReplyIsReturned(trace: seq<State>, steps: seq<Step>, i: nat, id: Id)
    requires IsRun(trace, steps) && i < |steps| && steps[i] == Receive(id)
    ensures id in trace[i].calls && id in trace[i].pending && trace[i].pending[id].Some?
    ensures id in trace[i + 1].calls && id !in trace[i + 1].pending
    ensures var r, status := trace[i].pending[id].value, trace[i + 1].calls[id].status;
            (status == Done(Returned(r.payload)) <==> r.error == "") && (r.error != "" ==> status == Done(RemoteError(r.error)))
  {
  }

  /** A call that ends in another way says which. */
  lemma OtherOutcomes(trace: seq<State>, steps: seq<Step>, i: nat, id: Id)
    requires IsRun(trace, steps) && i < |steps| && steps[i] in {FailSend(id), Timeout(id), Cancel(id)}
    ensures id in trace[i + 1].calls && id !in trace[i + 1].pending
    ensures trace[i + 1].calls[id].status ==
            Done(if steps[i] == Timeout(id) then TimedOut else if steps[i] == Cancel(id) then Cancelled else SendFailed)
  {
  }

  /** Step j delivers r to the call, and no reply for the call was delivered before it while the
      call waited. */
  predicate FirstDelivered(trace: seq<State>, steps: seq<Step>, j: int, id: Id, r: Reply) {
    0 <= j < |steps| < |trace| && steps[j] == Deliver(r) && r.id == id && id in trace[j].pending &&
    forall t | 0 <= t < j && steps[t].Deliver? && steps[t].reply.id == id :: id !in trace[t].pending
  }

  lemma StepMovesSlot(st: State, step: Step, id: Id)
    requires Enabled(st, step) && PendingIsInFlight(st)
    ensures var st' := Apply(st, step);
            id in st'.pending ==>
              if step.Begin? && step.id == id then st'.pending[id] == None
              else id in st.pending &&
                   st'.pending[id] == if step.Deliver? && step.reply.id == id && st.pending[id] == None then Some(step.reply)
                                      else st.pending[id]
  {
  }

  /** While the slot of a waiting call is empty, no reply was delivered to it. */
  lemma {:induction false} EmptySlot(trace: seq<State>, steps: seq<Step>, i: nat, id: Id)
    requires IsRun(trace, steps) && i < |trace| && id in trace[i].pending && trace[i].pending[id] == None
    ensures forall t | 0 <= t < i && steps[t].Deliver? && steps[t].reply.id == id :: id !in trace[t].pending
  {
    hide Inv, Apply, Enabled;
    if i > 0 {
      RunKeepsInv(trace, steps, i - 1);
      InFlightOf(trace[i - 1]);
      StepMovesSlot(trace[i - 1], steps[i - 1], id);
      if steps[i - 1].Begin? && steps[i - 1].id == id {
        BeginIsNew(trace[i - 1], steps[i - 1]);
        NotBegun(trace, steps, i - 1, id);
      } else {
        EmptySlot(trace, steps, i - 1, id);
      }
    }
  }

  /** Before a call begins it is not pending. */
  lemma {:induction false} NotBegun(trace: seq<State>, steps: seq<Step>, i: nat, id: Id)
    requires IsRun(trace, steps) && i < |trace| && id !in trace[i].calls
    ensures forall t | 0 <= t <= i :: id !in trace[t].calls && id !in trace[t].pending
  {
    RunKeepsInv(trace, steps, i);
    if i > 0 {
      if id in trace[i - 1].calls {
        CallsStay(trace[i - 1], steps[i - 1], id);
        assert false;
      }
      NotBegun(trace, steps, i - 1, id);
    }
  }

  lemma BeginIsNew(st: State, step: Step)
    requires Enabled(st, step) && step.Begin?
    ensures step.id !in st.calls
  {
  }

  lemma CallsStay(st: State, step: Step, id: Id)
    requires Enabled(st, step) && id in st.calls
    ensures id in Apply(st, step).calls
  {
  }

  /** The reply in a slot is the first that was delivered for the call while it waited. */
  lemma {:induction false} SlotIsFirstDelivered(trace: seq<State>, steps: seq<Step>, i: nat, id: Id) returns (j: nat)
    requires IsRun(trace, steps) && i < |trace| && id in trace[i].pending && trace[i].pending[id].Some?
    ensures j < i && FirstDelivered(trace, steps, j, id, trace[i].pending[id].value)
  {
    hide Inv, Apply, Enabled;
    RunKeepsInv(trace, steps, i - 1);
    InFlightOf(trace[i - 1]);
    StepMovesSlot(trace[i - 1], steps[i - 1], id);
    if trace[i - 1].pending[id] == None {
      EmptySlot(trace, steps, i - 1, id);
      j := i - 1;
    } else {
      j := SlotIsFirstDelivered(trace, steps, i - 1, id);
    }
  }

  /** Over every interleaving: a call that receives gets the first reply that was delivered for it
      while it waited, and returns its payload if and only if that reply has no error. */
  lemma CallReturnsFirstReply(trace: seq<State>, steps: seq<Step>, i: nat, id: Id) returns (j: nat, r: Reply)
    requires IsRun(trace, steps) && i < |steps| && steps[i] == Receive(id)
    ensures j < i && FirstDelivered(trace, steps, j, id, r)
    ensures id in trace[i + 1].calls
    ensures trace[i + 1].calls[id].status == Done(if r.error == "" then Returned(r.payload) else RemoteError(r.error))
  {
    ReplyIsReturned(trace, steps, i, id);
    r := trace[i].pending[id].value;
    j := SlotIsFirstDelivered(trace, steps, i, id);
  }

  /** From every state of every run a new call can be made and answered: what the handler gives
      back reaches the caller, and so does its error. */
  lemma CallCanBeAnswered(trace: seq<State>, steps: seq<Step>, id: Id, target: NodeId, payload: Payload, output: Payload, error: string)
    returns (trace': seq<State>, steps': seq<Step>)
    requires |trace| == |steps| + 1 && IsRun(trace, steps) && id !in trace[|steps|].calls
    ensures IsRun(trace', steps') && |trace'| == |steps'| + 1
    ensures steps' == steps + [Begin(id, target, payload), Send(id), Handle(Request(id, target, payload), output, error),
                               Deliver(Reply(id, output, error)), Receive(id)]
    ensures id in trace'[|steps'|].calls
    ensures trace'[|steps'|].calls[id] == Call(target, payload, Done(if error == "" then Returned(output) else RemoteError(error)))
  {
    hide IsRun;
    var request, reply := Request(id, target, payload), Reply(id, output, error);
    trace', steps' := Extend(trace, steps, Begin(id, target, payload));
    trace', steps' := Extend(trace', steps', Send(id));
    trace', steps' := Extend(trace', steps', Handle(request, output, error));
    trace', steps' := Extend(trace', steps', Deliver(reply));
    trace', steps' := Extend(trace', steps', Receive(id));
  }

  /** A request that finds no handler is answered with the error that says so. */
  lemma CallCanBeRejected(trace: seq<State>, steps: seq<Step>, id: Id, target: NodeId, payload: Payload)
    returns (trace': seq<State>, steps': seq<Step>, reply: Reply)
    requires |trace| == |steps| + 1 && IsRun(trace, steps) && id !in trace[|steps|].calls
    ensures IsRun(trace', steps') && |trace'| == |steps'| + 1
    ensures steps' == steps + [Begin(id, target, payload), Send(id), Reject(Request(id, target, payload)), Deliver(reply), Receive(id)]
    ensures id in trace'[|steps'|].calls
    ensures trace'[|steps'|].calls[id] == Call(target, payload, Done(RemoteError("application not found or no request handler")))
  {
    hide IsRun;
    reply := Reply(id, "", NO_HANDLER);
    trace', steps' := Extend(trace, steps, Begin(id, target, payload));
    trace', steps' := Extend(trace', steps', Send(id));
    trace', steps' := Extend(trace', steps', Reject(Request(id, target, payload)));
    trace', steps' := Extend(trace', steps', Deliver(reply));
    trace', steps' := Extend(trace', steps', Receive(id));
  }

  lemma Extend(trace: seq<State>, steps: seq<Step>, step: Step) returns (trace': seq<State>, steps': seq<Step>)
    requires IsRun(trace, steps) && |trace| == |steps| + 1 && Enabled(trace[|steps|], step)
    ensures IsRun(trace', steps') && |trace'| == |steps'| + 1 && steps' == steps + [step]
    ensures trace'[|steps'|] == Apply(trace[|steps|], step)
  {
    trace', steps' := trace + [Apply(trace[|steps|], step)], steps + [step];
  }
}

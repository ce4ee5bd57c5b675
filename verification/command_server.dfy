/**
  The command server: its counter of pending requests, the settlement of each
  request with the broker, and its graceful stop, as one system of interleaved
  steps.
 */
module CommandServer {
  import opened Attributes
  import opened Counters
  import Responses
  import Services

  // Where a request is: in the deliveries channel, or turned away from it by the
  // draining server; with its goroutine before the handler, in the handler, between
  // finalize and the settlement, before the deferred decrement, or finished.
  datatype Progress =
    | Queued
    | Turned
    | Validating
    | Handling
    | Finalizing(wasClosed: bool)
    | Settled
    | Finished

  // acks and rejects count what the broker has been told about the message.
  datatype Request = Request(
    at: Progress,
    response: Option<Responses.State>,
    acks: nat,
    rejects: nat,
    isDecremented: bool)

  const Arrived := Request(Queued, None, 0, 0, false)

  datatype Phase = Running | StoppingConsumers | Waiting | Leaving(cause: Cause) | Stopped(cause: Cause)

  // Why the state machine has left its last state.
  datatype Cause = Drained | Forced | Failed

  datatype System = System(
    phase: Phase,
    graceful: bool,
    forceful: bool,
    finalized: bool,
    pending: nat,
    queue: seq<nat>,
    requests: map<nat, Request>)

  const Initially := System(Running, false, false, false, 0, [], map[])

  datatype RequestStep =
    | Refuse
    | Accept(mode: Responses.ReplyMode)
    | Respond(call: Responses.Call, around: Responses.Around)
    | HandlerReturns
    | Settle
    | Decrement
    | GiveUp

  datatype ServerStep =
    | SeeGraceful
    | ConsumersStopped(ok: bool)
    | SeeForceful
    | SeeAmqpClosed
    | SeeDrained
    | Finalize

  datatype Event =
    | Deliver(id: nat)
    | Dispatch
    | Turn(ok: bool)
    | ByRequest(id: nat, step: RequestStep)
    | ByServer(action: ServerStep)
    | RequestStop
    | RequestGracefulStop

  // The server is in a select statement that executes commands.
  predicate Selecting(s: System) {
    s.phase == Running || (s.phase == Waiting && s.pending > 0)
  }

  // A handler may keep its response and use it after it has returned.
  predicate StepEnabled(s: System, r: Request, step: RequestStep) {
    match step
    case Refuse => r.at == Validating
    case Accept(_) => r.at == Validating
    case Respond(_, _) => r.response.Some?
    case HandlerReturns => r.at == Handling && r.response.Some?
    case Settle => r.at.Finalizing?
    case Decrement => r.at == Settled && Selecting(s)
    case GiveUp => r.at == Settled && (s.forceful || s.finalized)
  }

  predicate ServerEnabled(s: System, action: ServerStep) {
    match action
    case SeeGraceful => s.phase == Running && s.graceful
    case ConsumersStopped(_) => s.phase == StoppingConsumers
    case SeeForceful => Selecting(s) && s.forceful
    case SeeAmqpClosed => s.phase == Running
    case SeeDrained => s.phase == Waiting && s.pending == 0
    case Finalize => s.phase.Leaving?
  }

  predicate Enabled(s: System, ev: Event) {
    match ev
    case Deliver(id) => id !in s.requests && !s.finalized
    case Dispatch => s.phase == Running && s.queue != [] && s.queue[0] in s.requests
    case Turn(_) => s.phase == Waiting && s.pending > 0 && s.queue != [] && s.queue[0] in s.requests
    case ByRequest(id, step) => id in s.requests && StepEnabled(s, s.requests[id], step)
    case ByServer(action) => ServerEnabled(s, action)
    case RequestStop => true
    case RequestGracefulStop => true
  }

  function RequestAfter(r: Request, step: RequestStep): Request
    requires step.Respond? || step.HandlerReturns? ==> r.response.Some?
    requires step.Settle? ==> r.at.Finalizing?
  {
    match step
    case Refuse => r.(at := Settled, rejects := r.rejects + 1)
    case Accept(mode) => r.(at := Handling, response := Some(Responses.New(mode)))
    case Respond(call, around) => r.(response := Some(Responses.CallAfter(r.response.value, call, around)))
    case HandlerReturns =>
      r.(at := Finalizing(r.response.value.isClosed), response := Some(Responses.Finalized(r.response.value)))
    case Settle =>
      if r.at.wasClosed then r.(at := Settled, acks := r.acks + 1)
      else r.(at := Settled, rejects := r.rejects + 1)
    case Decrement => r.(at := Finished, isDecremented := true)
    case GiveUp => r.(at := Finished)
  }

  function PhaseAfter(s: System, action: ServerStep): Phase {
    match action
    case SeeGraceful => StoppingConsumers
    case ConsumersStopped(ok) => if ok then Waiting else Leaving(Failed)
    case SeeForceful => Leaving(Forced)
    case SeeAmqpClosed => Leaving(Failed)
    case SeeDrained => Leaving(Drained)
    case Finalize => if s.phase.Leaving? then Stopped(s.phase.cause) else s.phase
  }

  function Do(s: System, ev: Event): System
    requires Enabled(s, ev)
  {
    match ev
    case Deliver(id) => s.(queue := s.queue + [id], requests := s.requests[id := Arrived])
    case Dispatch =>
      s.(queue := s.queue[1..],
      pending := s.pending + 1,
      requests := s.requests[s.queue[0] := s.requests[s.queue[0]].(at := Validating)])
    case Turn(ok) =>
      var r := s.requests[s.queue[0]];
      s.(queue := s.queue[1..],
      phase := if ok then s.phase else Leaving(Failed),
      requests := s.requests[s.queue[0] := r.(at := Turned, rejects := r.rejects + 1)])
    case ByRequest(id, step) =>
      s.(pending := if step.Decrement? then Dec(s.pending) else s.pending,
      requests := s.requests[id := RequestAfter(s.requests[id], step)])
    case ByServer(action) =>
      s.(phase := PhaseAfter(s, action),
      graceful := s.graceful || action.Finalize?,
      forceful := s.forceful || action.Finalize?,
      finalized := s.finalized || action.Finalize?)
    case RequestStop => s.(forceful := true)
    case RequestGracefulStop => s.(graceful := s.graceful || !s.forceful)
  }

  ghost function After(events: seq<Event>): Option<System> {
    if |events| == 0 then Some(Initially)
    else
      match After(events[..|events| - 1])
      case None => None
      case Some(s) =>
        var ev := events[|events| - 1];
        if Enabled(s, ev) then Some(Do(s, ev)) else None
  }

  // ---- The invariant ----

  // Its goroutine has been started, and the server has not executed its decrement.
  predicate IsOpen(r: Request) {
    r.at != Queued && r.at != Turned && !r.isDecremented
  }

  function Open(requests: map<nat, Request>): set<nat> {
    set id | id in requests && IsOpen(requests[id])
  }

  ghost predicate QueueExact(queue: seq<nat>, requests: map<nat, Request>) {
    && (forall i, j | 0 <= i < j < |queue| :: queue[i] != queue[j])
    && (forall i | 0 <= i < |queue| :: queue[i] in requests && requests[queue[i]] == Arrived)
  }

  // A message is settled at most once, and exactly once when its goroutine comes to
  // its decrement: acked if the handler closed the response, rejected otherwise.
  ghost predicate RequestValid(r: Request) {
    && (r.response.Some? ==> Responses.Valid(r.response.value))
    && (r.at == Queued || r.at == Validating || r.at == Turned ==> r.response == None)
    && (r.at == Queued || r.at == Validating || r.at == Handling || r.at.Finalizing? ==> r.acks == r.rejects == 0)
    && (r.at == Turned ==> r.acks == 0 && r.rejects == 1)
    && (r.at == Handling || r.at.Finalizing? ==> r.response.Some?)
    && (r.at == Handling ==> (r.response.value.isClosed ==> r.response.value.isAnswered))
    && (r.at.Finalizing? ==> r.response.value.isClosed && r.at.wasClosed == r.response.value.isAnswered)
    && (r.at == Settled || r.at == Finished ==>
          && r.acks + r.rejects == 1
          && (r.acks == 1 <==> r.response.Some? && r.response.value.isAnswered)
          && (r.response.Some? ==> r.response.value.isClosed))
    && (r.isDecremented ==> r.at == Finished)
  }

  ghost predicate PhaseValid(s: System) {
    && (s.phase.Stopped? <==> s.finalized)
    && (s.finalized ==> s.graceful && s.forceful)
    && (s.phase == Leaving(Drained) || s.phase == Stopped(Drained) ==> s.pending == 0)
    && (s.phase == Leaving(Forced) ==> s.forceful)
  }

  ghost predicate Valid(s: System) {
    && s.pending == |Open(s.requests)|
    && QueueExact(s.queue, s.requests)
    && (forall id | id in s.requests :: RequestValid(s.requests[id]))
    && PhaseValid(s)
  }

  lemma StepKeepsRequest(s: System, r: Request, step: RequestStep)
    requires RequestValid(r) && StepEnabled(s, r, step)
    ensures RequestValid(RequestAfter(r, step))
    ensures if step.Decrement? then IsOpen(r) && !IsOpen(RequestAfter(r, step)) else IsOpen(RequestAfter(r, step)) == IsOpen(r)
    ensures r != Arrived
  {
  }

  // Replacing one request changes the set of open ones by at most that request.
  lemma OpenAfter(requests: map<nat, Request>, id: nat, r: Request)
    requires id in requests
    ensures Open(requests[id := r]) == if IsOpen(r) then Open(requests) + {id} else Open(requests) - {id}
    ensures |Open(requests[id := r])| == |Open(requests)|
                                         + (if IsOpen(r) && !IsOpen(requests[id]) then 1 else 0)
                                         - (if !IsOpen(r) && IsOpen(requests[id]) then 1 else 0)
  {
    assert id in Open(requests) <==> IsOpen(requests[id]);
    assert Open(requests[id := r]) == if IsOpen(r) then Open(requests) + {id} else Open(requests) - {id};
  }

  lemma DeliverKeepsCount(requests: map<nat, Request>, id: nat)
    requires id !in requests
    ensures Open(requests[id := Arrived]) == Open(requests)
  {
  }

  lemma StepKeepsCount(s: System, id: nat, step: RequestStep)
    requires s.pending == |Open(s.requests)| && id in s.requests
    requires RequestValid(s.requests[id]) && StepEnabled(s, s.requests[id], step)
    ensures step.Decrement? ==> s.pending > 0
    ensures (if step.Decrement? then Dec(s.pending) else s.pending) == |Open(s.requests[id := RequestAfter(s.requests[id], step)])|
  {
    StepKeepsRequest(s, s.requests[id], step);
    OpenAfter(s.requests, id, RequestAfter(s.requests[id], step));
    assert id in Open(s.requests) <==> IsOpen(s.requests[id]);
  }

  // Each of the server's own steps with a request keeps the count exact; a decrement
  // finds the counter positive.
  lemma DoKeepsCount(s: System, ev: Event)
    requires s.pending == |Open(s.requests)| && QueueExact(s.queue, s.requests) && Enabled(s, ev)
    requires forall id | id in s.requests :: RequestValid(s.requests[id])
    ensures Do(s, ev).pending == |Open(Do(s, ev).requests)|
    ensures ev.ByRequest? && ev.step.Decrement? ==> s.pending > 0
  {
    match ev
    case Deliver(id) => DeliverKeepsCount(s.requests, id);
    case Dispatch => OpenAfter(s.requests, s.queue[0], s.requests[s.queue[0]].(at := Validating));
    case Turn(_) => OpenAfter(s.requests, s.queue[0], Do(s, ev).requests[s.queue[0]]);
    case ByRequest(id, step) => StepKeepsCount(s, id, step);
    case ByServer(_) =>
    case RequestStop =>
    case RequestGracefulStop =>
  }

  // A request outside the queue may change.
  lemma ChangeKeepsQueue(queue: seq<nat>, requests: map<nat, Request>, id: nat, r: Request)
    requires QueueExact(queue, requests) && id !in queue
    ensures QueueExact(queue, requests[id := r])
  {
  }

  lemma DoKeepsQueue(s: System, ev: Event)
    requires Valid(s) && Enabled(s, ev)
    ensures QueueExact(Do(s, ev).queue, Do(s, ev).requests)
  {
    match ev
    case Deliver(id) =>
    case Dispatch => ChangeKeepsQueue(s.queue[1..], s.requests, s.queue[0], Do(s, ev).requests[s.queue[0]]);
    case Turn(_) => ChangeKeepsQueue(s.queue[1..], s.requests, s.queue[0], Do(s, ev).requests[s.queue[0]]);
    case ByRequest(id, step) =>
      StepKeepsRequest(s, s.requests[id], step);
      ChangeKeepsQueue(s.queue, s.requests, id, RequestAfter(s.requests[id], step));
    case ByServer(_) =>
    case RequestStop =>
    case RequestGracefulStop =>
  }

  lemma DoKeepsRequests(s: System, ev: Event, id: nat)
    requires QueueExact(s.queue, s.requests) && forall i | i in s.requests :: RequestValid(s.requests[i])
    requires Enabled(s, ev) && id in Do(s, ev).requests
    ensures RequestValid(Do(s, ev).requests[id])
  {
    match ev
    case Deliver(_) =>
    case Dispatch => assert s.requests[s.queue[0]] == Arrived;
    case Turn(_) => assert s.requests[s.queue[0]] == Arrived;
    case ByRequest(i, step) => StepKeepsRequest(s, s.requests[i], step);
    case ByServer(_) =>
    case RequestStop =>
    case RequestGracefulStop =>
  }

  lemma DoKeepsPhase(s: System, ev: Event)
    requires PhaseValid(s) && Enabled(s, ev)
    requires ev.ByRequest? && ev.step.Decrement? ==> s.pending > 0
    ensures PhaseValid(Do(s, ev))
  {
  }

  lemma {:induction false} AlwaysValid(events: seq<Event>)
    requires After(events).Some?
    ensures Valid(After(events).value)
  {
    if |events| > 0 {
      var s, ev := After(events[..|events| - 1]).value, events[|events| - 1];
      AlwaysValid(events[..|events| - 1]);
      DoKeepsCount(s, ev);
      DoKeepsQueue(s, ev);
      DoKeepsPhase(s, ev);
      forall id | id in Do(s, ev).requests ensures RequestValid(Do(s, ev).requests[id]) {
        DoKeepsRequests(s, ev, id);
      }
    } else {
      assert Open(map[]) == {};
    }
  }

  // ---- Accounting ----

  // On every run the counter is the number of started requests whose decrement has
  // not been executed, and a decrement never underflows.
  lemma PendingExact(events: seq<Event>, ev: Event)
    requires After(events).Some?
    ensures After(events).value.pending == |Open(After(events).value.requests)|
    ensures Enabled(After(events).value, ev) && ev.ByRequest? && ev.step.Decrement? ==>
              Do(After(events).value, ev).pending == After(events).value.pending - 1
  {
    AlwaysValid(events);
    if Enabled(After(events).value, ev) {
      DoKeepsCount(After(events).value, ev);
    }
  }

  // On every run, no message is settled twice; one whose handler has returned and
  // whose goroutine is done with it has been acked exactly if the handler answered,
  // and rejected otherwise; and no request is answered by more than one message.
  lemma SettledOnce(events: seq<Event>, id: nat)
    requires After(events).Some? && id in After(events).value.requests
    ensures var r := After(events).value.requests[id];
            && r.acks + r.rejects <= 1
            && (r.at == Settled || r.at == Finished ==>
                  if r.response.Some? && r.response.value.isAnswered then r.acks == 1 else r.rejects == 1)
            && (r.isDecremented ==> r.acks + r.rejects == 1)
            && (r.response.Some? ==> |r.response.value.published| <= 1)
            && (r.response.Some? && r.response.value.published != [] ==> r.rejects == 0)
  {
    AlwaysValid(events);
    assert RequestValid(After(events).value.requests[id]);
  }

  // ---- Graceful stop ----

  // A server that stops because it has drained leaves no request behind: everything
  // it started has been settled exactly once and counted down.
  lemma DrainedMeansSettled(events: seq<Event>, id: nat)
    requires After(events).Some? && id in After(events).value.requests
    requires After(events).value.phase == Leaving(Drained) || After(events).value.phase == Stopped(Drained)
    ensures var r := After(events).value.requests[id];
            r.at == Queued || r.at == Turned || (r.isDecremented && r.acks + r.rejects == 1)
  {
    AlwaysValid(events);
    var s := After(events).value;
    assert RequestValid(s.requests[id]);
    assert IsOpen(s.requests[id]) <==> id in Open(s.requests);
  }

  // An error of the broker: the AMQP channel has been closed, or consumers cannot be
  // stopped or a message rejected.
  predicate IsFailure(ev: Event) {
    ev == ByServer(SeeAmqpClosed) || ev == ByServer(ConsumersStopped(false)) || ev == Turn(false)
  }

  // How the server goes from one state to the next: every error ends it, and nothing else
  // does but a forceful stop or a finished drain.
  lemma PhaseChanges(s: System, ev: Event)
    requires Enabled(s, ev)
    ensures IsFailure(ev) ==> Do(s, ev).phase == Leaving(Failed)
    ensures Do(s, ev).phase != s.phase ==>
              match Do(s, ev).phase
              case Running => false
              case StoppingConsumers => s.phase == Running && s.graceful
              case Waiting => s.phase == StoppingConsumers
              case Leaving(Drained) => s.phase == Waiting && s.pending == 0
              case Leaving(Forced) => Selecting(s) && s.forceful
              case Leaving(Failed) => IsFailure(ev)
              case Stopped(cause) => s.phase == Leaving(cause)
  {
  }

  function SignalsOf(s: System): Services.Signals {
    Services.Signals(s.forceful, s.graceful, s.finalized)
  }

  // The channels of the state machine are closed by what closes them there, and by
  // nothing else.
  lemma SignalsFollow(s: System, ev: Event)
    requires Enabled(s, ev)
    ensures SignalsOf(Do(s, ev)) ==
            match ev
            case RequestStop => Services.CloseEach(SignalsOf(s), Services.Closes(SignalsOf(s), Services.Stop))
            case RequestGracefulStop => Services.CloseEach(SignalsOf(s), Services.Closes(SignalsOf(s), Services.GracefulStop))
            case ByServer(Finalize) =>
              Services.CloseEach(SignalsOf(s), [Services.Finalized, Services.Forceful, Services.Graceful])
            case _ => SignalsOf(s)
  {
  }

  // Nothing on the run is a forceful stop or an error.
  predicate IsQuiet(ev: Event) {
    && ev != RequestStop
    && ev != ByServer(SeeAmqpClosed)
    && ev != ByServer(ConsumersStopped(false))
    && ev != Turn(false)
  }

  ghost predicate StoppedCleanly(s: System) {
    && (s.forceful ==> s.phase.Stopped?)
    && (s.phase.Leaving? || s.phase.Stopped? ==> s.phase.cause == Drained)
  }

  lemma DoKeepsClean(s: System, ev: Event)
    requires StoppedCleanly(s) && Enabled(s, ev) && IsQuiet(ev)
    ensures StoppedCleanly(Do(s, ev))
  {
  }

  // On a run without forceful stop and without errors the server finishes only once
  // it has drained.
  lemma {:induction false} QuietRunsDrain(events: seq<Event>)
    requires After(events).Some? && forall i | 0 <= i < |events| :: IsQuiet(events[i])
    ensures StoppedCleanly(After(events).value)
  {
    if |events| > 0 {
      QuietRunsDrain(events[..|events| - 1]);
      DoKeepsClean(After(events[..|events| - 1]).value, events[|events| - 1]);
    }
  }

  lemma GracefulStopFinishes(events: seq<Event>, id: nat)
    requires After(events).Some? && forall i | 0 <= i < |events| :: IsQuiet(events[i])
    requires After(events).value.finalized && id in After(events).value.requests
    ensures After(events).value.pending == 0
    ensures var r := After(events).value.requests[id];
            r.at == Queued || r.at == Turned || (r.isDecremented && r.acks + r.rejects == 1)
  {
    AlwaysValid(events);
    QuietRunsDrain(events);
    DrainedMeansSettled(events, id);
  }

  // ---- Nothing is left waiting ----

  // The step the server may take of its own accord when it serves no command.
  function OwnStep(s: System): ServerStep {
    match s.phase
    case StoppingConsumers => ConsumersStopped(true)
    case Waiting => SeeDrained
    case _ => Finalize
  }

  function Distance(phase: Phase): nat {
    match phase
    case Running => 4
    case StoppingConsumers => 3
    case Waiting => 2
    case Leaving(_) => 1
    case Stopped(_) => 0
  }

  // A goroutine that has settled its message can always finish, or the server has a
  // step that brings it to a phase in which it can. While a request is open the
  // server cannot be in the drained state.
  lemma SettledCanFinish(events: seq<Event>, id: nat)
    requires After(events).Some? && id in After(events).value.requests
    requires After(events).value.requests[id].at == Settled
    ensures var s := After(events).value;
            || Enabled(s, ByRequest(id, Decrement))
            || Enabled(s, ByRequest(id, GiveUp))
            || ((s.phase == StoppingConsumers || s.phase.Leaving?) && ServerEnabled(s, OwnStep(s))
                && Distance(Do(s, ByServer(OwnStep(s))).phase) < Distance(s.phase))
    ensures !After(events).value.forceful && Enabled(After(events).value, ByRequest(id, Decrement)) ==>
              !Enabled(After(events).value, ByRequest(id, GiveUp))
  {
    AlwaysValid(events);
    var s := After(events).value;
    assert RequestValid(s.requests[id]);
    assert id in Open(s.requests);
  }

  // A draining server whose handlers have all returned can always move: it serves
  // a decrement, or it has none left to serve.
  lemma DrainNeverStalls(events: seq<Event>)
    requires After(events).Some? && After(events).value.phase == Waiting
    requires !After(events).value.forceful
    requires forall id | id in Open(After(events).value.requests) :: After(events).value.requests[id].at == Settled
    ensures var s := After(events).value;
            if s.pending == 0 then Enabled(s, ByServer(SeeDrained))
            else exists id :: Enabled(s, ByRequest(id, Decrement)) && Do(s, ByRequest(id, Decrement)).pending == s.pending - 1
  {
    AlwaysValid(events);
    var s := After(events).value;
    if s.pending > 0 {
      var id :| id in Open(s.requests);
      assert Enabled(s, ByRequest(id, Decrement));
    }
  }

  // ---- The settlement of one request, as the goroutine does it ----

  datatype Exchange = Unicast | Multicast | Balanced

  datatype Settlement = Acked | Rejected(requeue: bool)

  // What the goroutine finds before it can call the handler.
  datatype Found =
    | BadMessage
    | NoHandler
    | NoRevision
    | Handler(mode: Responses.ReplyMode, uses: seq<Use>)

  // The calls the handler makes on the response before it returns.
  datatype Use = Use(call: Responses.Call, around: Responses.Around)

  // An AMQP message; a second settlement of it would close the AMQP channel.
  class Message {
    const exchange: Exchange
    var settled: Option<Settlement>

    constructor (exchange: Exchange)
      ensures this.exchange == exchange && settled == None
    {
      this.exchange := exchange;
      settled := None;
    }

    method Ack()
      requires settled == None
      modifies this
      ensures settled == Some(Acked)
    {
      settled := Some(Acked);
    }

    method Reject(requeue: bool)
      requires settled == None
      modifies this
      ensures settled == Some(Rejected(requeue))
    {
      settled := Some(Rejected(requeue));
    }
  }

  // dispatch and handle, up to the deferred decrement, for a handler that returns. The
  // message goes back to the queue for another peer if it is load-balanced and nobody
  // listens here any more, or the handler returned without answering before the deadline.
  // A
  // call that panics ends the process, so uses holds the calls that do not; expired
  // says whether the context is done once the handler has returned.
  method Dispatch(msg: Message, found: Found, expired: bool) returns (published: seq<Responses.Message>)
    requires msg.settled == None
    modifies msg
    ensures match found
            case Handler(_, uses) =>
              msg.settled == Some(if uses != [] then Acked else Rejected(msg.exchange == Balanced && !expired))
            case NoHandler => msg.settled == Some(Rejected(msg.exchange == Balanced))
            case _ => msg.settled == Some(Rejected(false))
    ensures published != [] <==>
            && found.Handler? && found.uses != [] && found.mode != Responses.NoReply
            && !found.uses[0].around.expired && !found.uses[0].around.broken
    ensures published != [] ==>
              match found.uses[0].call
              case Done(payload) => published == [Responses.Success(payload)]
              case Error(error) => published == [Responses.Failure(error)]
              case Close => published == [Responses.Success("")]
  {
    match found {
      case BadMessage =>
        msg.Reject(false);
        return [];
      case NoHandler =>
        msg.Reject(msg.exchange == Balanced);
        return [];
      case NoRevision =>
        msg.Reject(false);
        return [];
      case Handler(mode, uses) =>
        var res := new Responses.Response(mode);
        for i := 0 to |uses|
          modifies res
          invariant i == 0 ==> res.Model() == Responses.New(mode)
          invariant i > 0 ==> res.Model() == Responses.CallAfter(Responses.New(mode), uses[0].call, uses[0].around)
        {
          UseResponse(res, uses[i]);
        }
        var wasClosed := res.Finalize();
        if wasClosed {
          msg.Ack();
        } else if msg.exchange == Balanced {
          msg.Reject(!expired);
        } else {
          msg.Reject(false);
        }
        return res.published;
    }
  }

  method UseResponse(res: Responses.Response, use: Use)
    modifies res
    ensures res.Model() == Responses.CallAfter(old(res.Model()), use.call, use.around)
  {
    match use.call {
      case Done(payload) =>
        var panics := res.Done(payload, use.around);
      case Error(error) =>
        var panics := res.Error(error, use.around);
      case Close =>
        var closed, panics := res.Close(use.around);
    }
  }

  // ---- The drain loop ----

  // What the select statement of waitForHandlers receives; a message that cannot be
  // rejected is an AMQP error.
  datatype Input =
    | Arrival(msg: Message, ok: bool)
    | Decremented
    | ForcefulClosed

  datatype Ending = HandlersDone | Stop | AmqpError | StillWaiting

  function Decrements(inputs: seq<Input>): (n: nat)
    ensures n <= |inputs|
  {
    if |inputs| == 0 then 0
    else Decrements(inputs[..|inputs| - 1]) + if inputs[|inputs| - 1].Decremented? then 1 else 0
  }

  predicate Interrupts(i: Input) {
    i.ForcefulClosed? || (i.Arrival? && !i.ok)
  }

  ghost function Messages(inputs: seq<Input>): set<Message> {
    set i | 0 <= i < |inputs| && inputs[i].Arrival? :: inputs[i].msg
  }

  // Each message arrives once, and nobody else settles it.
  ghost predicate Fresh(inputs: seq<Input>, from: nat)
    reads Messages(inputs)
  {
    && (forall i | from <= i < |inputs| && inputs[i].Arrival? :: inputs[i].msg.settled == None)
    && (forall i, j | 0 <= i < j < |inputs| && inputs[i].Arrival? && inputs[j].Arrival? :: inputs[i].msg != inputs[j].msg)
  }

  ghost predicate TurnedAway(inputs: seq<Input>, n: nat)
    requires n <= |inputs|
    reads Messages(inputs)
  {
    forall i | 0 <= i < n && inputs[i].Arrival? :: inputs[i].msg.settled == Some(Rejected(inputs[i].msg.exchange == Multicast))
  }

  class Server {
    var pending: nat

    // Where waitForHandlers stands once it has taken n inputs, if it was entered with
    // was pending requests.
    ghost predicate Waited(was: nat, inputs: seq<Input>, n: nat)
      requires n <= |inputs|
      reads this, Messages(inputs)
    {
      && TurnedAway(inputs, n)
      && Fresh(inputs, n)
      && pending == was - Decrements(inputs[..n])
    }

    method Take(inputs: seq<Input>, n: nat, ghost was: nat)
      requires n < |inputs| && Waited(was, inputs, n) && pending > 0
      modifies this, Messages(inputs)
      ensures Waited(was, inputs, n + 1)
    {
      assert inputs[..n + 1][..n] == inputs[..n];
      match inputs[n] {
        case Arrival(msg, _) =>
          msg.Reject(msg.exchange == Multicast);
        case Decremented =>
          pending := Dec(pending);
        case ForcefulClosed =>
      }
    }

    // waitForHandlers, given everything it will receive. It returns normally exactly
    // when as many decrements as there were pending requests have come in.
    method WaitForHandlers(inputs: seq<Input>) returns (taken: nat, ending: Ending)
      requires Fresh(inputs, 0)
      modifies this, Messages(inputs)
      ensures taken <= |inputs| && Waited(old(pending), inputs, taken)
      ensures forall i | 0 <= i < taken - 1 :: inputs[i].Decremented? || (inputs[i].Arrival? && inputs[i].ok)
      ensures match ending
              case HandlersDone => Decrements(inputs[..taken]) == old(pending)
              case Stop => taken > 0 && inputs[taken - 1].ForcefulClosed?
              case AmqpError => taken > 0 && inputs[taken - 1].Arrival? && !inputs[taken - 1].ok
              case StillWaiting => taken == |inputs| && Decrements(inputs) < old(pending)
    {
      taken := 0;
      while pending > 0 && taken < |inputs|
        invariant taken <= |inputs| && Waited(old(pending), inputs, taken)
        invariant forall i | 0 <= i < taken :: !Interrupts(inputs[i])
        decreases |inputs| - taken
      {
        var input := inputs[taken];
        Take(inputs, taken, old(pending));
        taken := taken + 1;
        if input.ForcefulClosed? {
          return taken, Stop;
        }
        if input.Arrival? && !input.ok {
          return taken, AmqpError;
        }
      }
      assert inputs[..|inputs|] == inputs;
      ending := if pending == 0 then HandlersDone else StillWaiting;
    }
  }
}

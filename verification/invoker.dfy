/**
  The invoker of command calls: its table of pending calls, the callers that wait
  for replies, and its graceful stop, as one system of interleaved steps.
 */
module InvokerProtocol {
  import opened Attributes
  import opened Deliveries
  import Services

  // A reply channel with room for one message; sends and closes count what has
  // been done to it.
  datatype Channel = Channel(buffer: Option<Delivery>, sends: nat, closes: nat)

  const NewChannel := Channel(None, 0, 0)

  // A receive from the channel does not block.
  predicate Ready(ch: Channel) {
    ch.buffer.Some? || ch.closes > 0
  }

  datatype Outcome = Reply(msg: Delivery) | Failed

  // Where a caller is in `call`: offering itself for tracking, publishing its
  // request, waiting for the reply, in the deferred function, or blocked in it.
  datatype Progress =
    | Asking
    | Publishing
    | Waiting
    | Leaving(outcome: Outcome)
    | Cancelling(outcome: Outcome)
    | Done(outcome: Outcome)

  // isTracked and isCancelled record that the invoker has taken the call from its
  // track and cancel channels.
  datatype Caller = Caller(key: string, at: Progress, reply: Channel, isTracked: bool, isCancelled: bool)

  // The invoker's state function, or where it is between two of them.
  datatype Phase =
    | Running
    | Draining
    | AwaitingClosed
    | Closing
    | Finalizing
    | Stopped

  // The channels of the state machine are closed or not; amqpClosed says that the
  // broker has reported the end of the AMQP channel. While the invoker has sent a
  // reply but not yet closed the channel, answering names the caller.
  datatype System = System(
    phase: Phase,
    answering: Option<nat>,
    graceful: bool,
    forceful: bool,
    finalized: bool,
    pending: map<string, nat>,
    callers: map<nat, Caller>,
    deliveries: seq<Delivery>,
    deliveriesClosed: bool,
    amqpClosed: bool)

  const Initially := System(Running, None, false, false, false, map[], map[], [], false, false)

  datatype CallerAction =
    | Track
    | GiveUp
    | Published(ok: bool)
    | ReceiveReply
    | StopWaiting
    | Leave
    | Cancel
    | CancelForced

  datatype InvokerAction =
    | Handle
    | CloseReply
    | SeeGraceful
    | SeeForceful
    | SeeAmqpClosed
    | SeeDeliveriesClosed
    | Drained
    | CloseChannel
    | Finalize

  datatype OutsideAction =
    | Deliver(msg: Delivery)
    | CloseDeliveries
    | ReportAmqpClosed
    | RequestStop
    | RequestGracefulStop

  datatype Event =
    | Call(c: nat, key: string)
    | ByCaller(c: nat, action: CallerAction)
    | ByInvoker(step: InvokerAction)
    | Outside(change: OutsideAction)

  // The invoker is in a select statement that takes cancellations and deliveries.
  predicate Selecting(s: System) {
    s.answering == None && (s.phase == Running || (s.phase == Draining && s.pending != map[]))
  }

  // A context may expire at any moment, so asking and waiting can always end.
  predicate CallerEnabled(s: System, caller: Caller, action: CallerAction) {
    match action
    case Track => caller.at == Asking && s.phase == Running && s.answering == None
    case GiveUp => caller.at == Asking
    case Published(_) => caller.at == Publishing
    case ReceiveReply => caller.at == Waiting && caller.reply.buffer.Some?
    case StopWaiting => caller.at == Waiting
    case Leave => caller.at.Leaving?
    case Cancel => caller.at.Cancelling? && Selecting(s)
    case CancelForced => caller.at.Cancelling? && s.forceful
  }

  predicate InvokerEnabled(s: System, step: InvokerAction) {
    match step
    case Handle => Selecting(s) && s.deliveries != []
    case CloseReply => s.answering.Some?
    case SeeGraceful => Selecting(s) && s.phase == Running && s.graceful
    case SeeForceful => Selecting(s) && s.forceful
    case SeeAmqpClosed => (Selecting(s) || s.phase == AwaitingClosed) && s.amqpClosed
    case SeeDeliveriesClosed => Selecting(s) && s.deliveriesClosed && s.deliveries == []
    case Drained => s.answering == None && s.phase == Draining && s.pending == map[]
    case CloseChannel => s.phase == Closing
    case Finalize => s.phase == Finalizing
  }

  // A message ID is used for one call only.
  ghost predicate FreshKey(callers: map<nat, Caller>, key: string) {
    forall d | d in callers :: callers[d].key != key
  }

  ghost predicate Enabled(s: System, ev: Event) {
    match ev
    case Call(c, key) => c !in s.callers && FreshKey(s.callers, key)
    case ByCaller(c, action) => c in s.callers && CallerEnabled(s, s.callers[c], action)
    case ByInvoker(step) => InvokerEnabled(s, step)
    case Outside(change) => change.Deliver? || change.CloseDeliveries? ==> !s.deliveriesClosed
  }

  function CallerAfter(caller: Caller, action: CallerAction): Caller
    requires action.ReceiveReply? ==> caller.reply.buffer.Some?
    requires action.Leave? ==> caller.at.Leaving?
    requires action.Cancel? || action.CancelForced? ==> caller.at.Cancelling?
  {
    match action
    case Track => caller.(at := Publishing, isTracked := true)
    case GiveUp => caller.(at := Done(Failed))
    case Published(ok) => caller.(at := if ok then Waiting else Leaving(Failed))
    case ReceiveReply =>
      caller.(at := Leaving(Reply(caller.reply.buffer.value)), reply := caller.reply.(buffer := None))
    case StopWaiting => caller.(at := Leaving(Failed))
    case Leave =>
      if Ready(caller.reply) then caller.(at := Done(caller.at.outcome), reply := caller.reply.(buffer := None))
      else caller.(at := Cancelling(caller.at.outcome))
    case Cancel => caller.(at := Done(caller.at.outcome), isCancelled := true)
    case CancelForced => caller.(at := Done(caller.at.outcome))
  }

  function PendingAfter(pending: map<string, nat>, c: nat, key: string, action: CallerAction): map<string, nat> {
    match action
    case Track => pending[key := c]
    case Cancel => pending - {key}
    case _ => pending
  }

  // replySync up to its send; the second result is the acknowledgement.
  function ReplySync(s: System, msg: Delivery): (System, bool) {
    if msg.routingKey !in s.pending || s.pending[msg.routingKey] !in s.callers then (s, false)
    else
      var c := s.pending[msg.routingKey];
      var caller := s.callers[c];
      var sent := caller.(reply := caller.reply.(buffer := Some(msg), sends := caller.reply.sends + 1));
      (s.(pending := s.pending - {msg.routingKey}, callers := s.callers[c := sent], answering := Some(c)), true)
  }

  function HandleDelivery(s: System): System
    requires s.deliveries != []
  {
    var msg := s.deliveries[0];
    var s' := if msg.isCorrelated then ReplySync(s, msg).0 else s;
    s'.(deliveries := s.deliveries[1..])
  }

  function Closed(caller: Caller): Caller {
    caller.(reply := caller.reply.(closes := caller.reply.closes + 1))
  }

  function CloseReplyOf(s: System): System
    requires s.answering.Some?
  {
    var c := s.answering.value;
    if c in s.callers then s.(answering := None, callers := s.callers[c := Closed(s.callers[c])])
    else s.(answering := None)
  }

  function PhaseAfter(phase: Phase, step: InvokerAction): Phase {
    match step
    case SeeGraceful => Draining
    case SeeForceful => Closing
    case SeeAmqpClosed => Finalizing
    case SeeDeliveriesClosed => AwaitingClosed
    case Drained => Closing
    case CloseChannel => Finalizing
    case Finalize => Stopped
    case _ => phase
  }

  function InvokerAfter(s: System, step: InvokerAction): System
    requires InvokerEnabled(s, step)
  {
    match step
    case Handle => HandleDelivery(s)
    case CloseReply => CloseReplyOf(s)
    case Finalize => s.(phase := Stopped, graceful := true, forceful := true, finalized := true)
    case _ => s.(phase := PhaseAfter(s.phase, step))
  }

  function OutsideAfter(s: System, change: OutsideAction): System {
    s.(deliveries := if change.Deliver? then s.deliveries + [change.msg] else s.deliveries,
    deliveriesClosed := s.deliveriesClosed || change.CloseDeliveries?,
    amqpClosed := s.amqpClosed || change.ReportAmqpClosed?,
    forceful := s.forceful || change.RequestStop?,
    graceful := s.graceful || (change.RequestGracefulStop? && !s.forceful))
  }

  function Do(s: System, ev: Event): System
    requires Enabled(s, ev)
  {
    match ev
    case Call(c, key) => s.(callers := s.callers[c := Caller(key, Asking, NewChannel, false, false)])
    case ByCaller(c, action) =>
      s.(pending := PendingAfter(s.pending, c, s.callers[c].key, action),
      callers := s.callers[c := CallerAfter(s.callers[c], action)])
    case ByInvoker(step) => InvokerAfter(s, step)
    case Outside(change) => OutsideAfter(s, change)
  }

  ghost function After(events: seq<Event>): Option<System> {
    if |events| == 0 then Some(Initially)
    else
      match After(events[..|events| - 1])
      case None => None
      case Some(s) =>
        var ev := events[|events| - 1];
        if Enabled(s, ev) then Some(Do(s, ev)) else None
  }

  // ---- The invariant ----

  // Tracked, and neither answered nor cancelled.
  predicate IsOpen(caller: Caller) {
    caller.isTracked && caller.reply.sends == 0 && !caller.isCancelled
  }

  ghost predicate OutcomeOf(at: Progress, o: Outcome) {
    match at
    case Leaving(p) => o == p
    case Cancelling(p) => o == p
    case Done(p) => o == p
    case _ => false
  }

  // A channel is sent to at most once and closed at most once, after the send, and
  // what it carries is addressed to its caller.
  ghost predicate CallerValid(caller: Caller) {
    && caller.reply.closes <= caller.reply.sends <= 1
    && (caller.reply.buffer.Some? ==> caller.reply.sends == 1 && caller.reply.buffer.value.routingKey == caller.key)
    && (forall o :: OutcomeOf(caller.at, o) && o.Reply? ==> o.msg.routingKey == caller.key && caller.reply.sends == 1)
    && (caller.at == Asking ==> !caller.isTracked)
    && (!caller.isTracked ==> caller.reply.sends == 0 && (caller.at == Asking || caller.at == Done(Failed)))
    && (caller.isCancelled ==> caller.at.Done?)
  }

  // The pending table is exactly the set of open calls.
  ghost predicate PendingExact(pending: map<string, nat>, callers: map<nat, Caller>) {
    && (forall key | key in pending ::
          pending[key] in callers && callers[pending[key]].key == key && IsOpen(callers[pending[key]]))
    && (forall c | c in callers && IsOpen(callers[c]) ::
          callers[c].key in pending && pending[callers[c].key] == c)
  }

  ghost predicate TableValid(pending: map<string, nat>, callers: map<nat, Caller>) {
    && PendingExact(pending, callers)
    && (forall c, d | c in callers && d in callers && c != d :: callers[c].key != callers[d].key)
    && (forall c | c in callers :: CallerValid(callers[c]))
  }

  // The one channel that has been sent to but not closed is the one the invoker is
  // about to close.
  ghost predicate AnsweringExact(answering: Option<nat>, callers: map<nat, Caller>) {
    && (answering.Some? ==> answering.value in callers)
    && (forall c | c in callers :: callers[c].reply.closes < callers[c].reply.sends <==> answering == Some(c))
  }

  ghost predicate FlagsValid(s: System) {
    && (s.phase == Stopped <==> s.finalized)
    && (s.finalized ==> s.graceful && s.forceful)
    && (s.phase == Draining ==> s.graceful)
    && (s.answering.Some? ==> s.phase == Running || s.phase == Draining)
  }

  ghost predicate Valid(s: System) {
    TableValid(s.pending, s.callers) && AnsweringExact(s.answering, s.callers) && FlagsValid(s)
  }

  // A caller that stays as open as it was.
  lemma KeepsTable(pending: map<string, nat>, callers: map<nat, Caller>, c: nat, caller: Caller)
    requires TableValid(pending, callers) && c in callers
    requires caller.key == callers[c].key && CallerValid(caller) && IsOpen(caller) == IsOpen(callers[c])
    ensures TableValid(pending, callers[c := caller])
  {
  }

  // A caller whose call is answered or cancelled, and taken out of the table.
  lemma ClosesInTable(pending: map<string, nat>, callers: map<nat, Caller>, c: nat, caller: Caller)
    requires TableValid(pending, callers) && c in callers
    requires caller.key == callers[c].key && CallerValid(caller) && !IsOpen(caller)
    ensures TableValid(pending - {caller.key}, callers[c := caller])
  {
    var pending' := pending - {caller.key};
    var callers' := callers[c := caller];
    forall key | key in pending'
      ensures pending'[key] in callers' && callers'[pending'[key]].key == key && IsOpen(callers'[pending'[key]])
    {
      assert callers[pending[key]].key == key;
    }
  }

  lemma OpensInTable(pending: map<string, nat>, callers: map<nat, Caller>, c: nat, caller: Caller)
    requires TableValid(pending, callers) && c in callers && !IsOpen(callers[c])
    requires caller.key == callers[c].key && CallerValid(caller) && IsOpen(caller)
    ensures TableValid(pending[caller.key := c], callers[c := caller])
  {
    var pending' := pending[caller.key := c];
    var callers' := callers[c := caller];
    forall key | key in pending'
      ensures pending'[key] in callers' && callers'[pending'[key]].key == key && IsOpen(callers'[pending'[key]])
    {
      if key != caller.key {
        assert callers[pending[key]].key == key;
      }
    }
  }

  lemma JoinsTable(pending: map<string, nat>, callers: map<nat, Caller>, c: nat, key: string)
    requires TableValid(pending, callers) && c !in callers
    requires FreshKey(callers, key)
    ensures TableValid(pending, callers[c := Caller(key, Asking, NewChannel, false, false)])
  {
  }

  // What a caller's action does to the caller alone.
  lemma ActionKeepsCaller(s: System, caller: Caller, action: CallerAction)
    requires CallerValid(caller) && CallerEnabled(s, caller, action)
    ensures var caller' := CallerAfter(caller, action);
            && CallerValid(caller')
            && caller'.key == caller.key
            && (action.Track? ==> !IsOpen(caller) && IsOpen(caller'))
            && (action.Cancel? ==> !IsOpen(caller'))
            && (!action.Track? && !action.Cancel? ==> IsOpen(caller') == IsOpen(caller))
  {
    if caller.at.Leaving? || caller.at.Cancelling? {
      assert OutcomeOf(caller.at, caller.at.outcome);
    }
  }

  lemma ActionAdvances(s: System, caller: Caller, action: CallerAction)
    requires CallerEnabled(s, caller, action)
    ensures Rank(CallerAfter(caller, action).at) < Rank(caller.at)
  {
    assert action.Leave? ==> Rank(caller.at) == 2;
  }

  lemma CallerKeepsTable(s: System, c: nat, action: CallerAction)
    requires TableValid(s.pending, s.callers) && c in s.callers && CallerEnabled(s, s.callers[c], action)
    ensures TableValid(PendingAfter(s.pending, c, s.callers[c].key, action), s.callers[c := CallerAfter(s.callers[c], action)])
  {
    var caller := s.callers[c];
    ActionKeepsCaller(s, caller, action);
    if action.Track? {
      OpensInTable(s.pending, s.callers, c, CallerAfter(caller, action));
    } else if action.Cancel? {
      ClosesInTable(s.pending, s.callers, c, CallerAfter(caller, action));
    } else {
      KeepsTable(s.pending, s.callers, c, CallerAfter(caller, action));
    }
  }

  // A caller's action sends nothing and closes nothing.
  lemma ActionKeepsCounts(s: System, caller: Caller, action: CallerAction)
    requires CallerEnabled(s, caller, action)
    ensures CallerAfter(caller, action).reply.sends == caller.reply.sends
    ensures CallerAfter(caller, action).reply.closes == caller.reply.closes
  {
    assert action.Leave? ==> caller.at.Leaving?;
  }

  lemma CallerKeepsAnswering(s: System, c: nat, action: CallerAction)
    requires AnsweringExact(s.answering, s.callers) && c in s.callers && CallerEnabled(s, s.callers[c], action)
    ensures AnsweringExact(s.answering, s.callers[c := CallerAfter(s.callers[c], action)])
  {
    ActionKeepsCounts(s, s.callers[c], action);
  }

  lemma SendKeepsTable(s: System, msg: Delivery)
    requires TableValid(s.pending, s.callers)
    ensures TableValid(ReplySync(s, msg).0.pending, ReplySync(s, msg).0.callers)
  {
    if msg.routingKey in s.pending {
      var c := s.pending[msg.routingKey];
      var caller := s.callers[c];
      ClosesInTable(s.pending, s.callers, c,
                    caller.(reply := caller.reply.(buffer := Some(msg), sends := caller.reply.sends + 1)));
    }
  }

  lemma SendKeepsAnswering(s: System, msg: Delivery)
    requires TableValid(s.pending, s.callers) && AnsweringExact(s.answering, s.callers) && s.answering == None
    ensures AnsweringExact(ReplySync(s, msg).0.answering, ReplySync(s, msg).0.callers)
  {
    if msg.routingKey in s.pending {
      assert IsOpen(s.callers[s.pending[msg.routingKey]]);
    }
  }

  lemma CloseReplyKeepsTable(s: System)
    requires TableValid(s.pending, s.callers) && AnsweringExact(s.answering, s.callers) && s.answering.Some?
    ensures TableValid(CloseReplyOf(s).pending, CloseReplyOf(s).callers)
  {
    var c := s.answering.value;
    KeepsTable(s.pending, s.callers, c, Closed(s.callers[c]));
  }

  lemma CloseReplyKeepsAnswering(s: System)
    requires TableValid(s.pending, s.callers) && AnsweringExact(s.answering, s.callers) && s.answering.Some?
    ensures AnsweringExact(CloseReplyOf(s).answering, CloseReplyOf(s).callers)
  {
    assert CallerValid(s.callers[s.answering.value]);
  }

  lemma InvokerKeepsTable(s: System, step: InvokerAction)
    requires TableValid(s.pending, s.callers) && AnsweringExact(s.answering, s.callers) && InvokerEnabled(s, step)
    ensures TableValid(InvokerAfter(s, step).pending, InvokerAfter(s, step).callers)
  {
    if step.Handle? {
      SendKeepsTable(s, s.deliveries[0]);
    } else if step.CloseReply? {
      CloseReplyKeepsTable(s);
    }
  }

  lemma InvokerKeepsAnswering(s: System, step: InvokerAction)
    requires TableValid(s.pending, s.callers) && AnsweringExact(s.answering, s.callers) && InvokerEnabled(s, step)
    ensures AnsweringExact(InvokerAfter(s, step).answering, InvokerAfter(s, step).callers)
  {
    if step.Handle? {
      SendKeepsAnswering(s, s.deliveries[0]);
    } else if step.CloseReply? {
      CloseReplyKeepsAnswering(s);
    }
  }

  lemma DoKeepsTable(s: System, ev: Event)
    requires TableValid(s.pending, s.callers) && AnsweringExact(s.answering, s.callers) && Enabled(s, ev)
    ensures TableValid(Do(s, ev).pending, Do(s, ev).callers)
  {
    match ev
    case Call(c, key) => JoinsTable(s.pending, s.callers, c, key);
    case ByCaller(c, action) => CallerKeepsTable(s, c, action);
    case ByInvoker(step) => InvokerKeepsTable(s, step);
    case Outside(_) =>
  }

  lemma DoKeepsAnswering(s: System, ev: Event)
    requires TableValid(s.pending, s.callers) && AnsweringExact(s.answering, s.callers) && Enabled(s, ev)
    ensures AnsweringExact(Do(s, ev).answering, Do(s, ev).callers)
  {
    match ev
    case Call(c, key) =>
    case ByCaller(c, action) => CallerKeepsAnswering(s, c, action);
    case ByInvoker(step) => InvokerKeepsAnswering(s, step);
    case Outside(_) =>
  }

  lemma InvokerKeepsFlags(s: System, step: InvokerAction)
    requires FlagsValid(s) && InvokerEnabled(s, step)
    ensures FlagsValid(InvokerAfter(s, step))
  {
  }

  lemma DoKeepsFlags(s: System, ev: Event)
    requires FlagsValid(s) && Enabled(s, ev)
    ensures FlagsValid(Do(s, ev))
  {
    match ev
    case ByInvoker(step) => InvokerKeepsFlags(s, step);
    case Outside(_) =>
    case ByCaller(_, _) =>
    case Call(_, _) =>
  }

  lemma {:induction false} AlwaysValid(events: seq<Event>)
    requires After(events).Some?
    ensures Valid(After(events).value)
  {
    if |events| > 0 {
      var s, ev := After(events[..|events| - 1]).value, events[|events| - 1];
      AlwaysValid(events[..|events| - 1]);
      DoKeepsTable(s, ev);
      DoKeepsAnswering(s, ev);
      DoKeepsFlags(s, ev);
    }
  }

  // ---- Calls get their own reply, once ----

  // On every run the pending table is exactly the open calls, no channel has been
  // sent to or closed twice, and a reply that a caller has been given, or that
  // waits for it, carries the caller's own message ID.
  lemma {:induction false} OwnReplyOnce(events: seq<Event>, c: nat)
    requires After(events).Some? && c in After(events).value.callers
    ensures PendingExact(After(events).value.pending, After(events).value.callers)
    ensures var caller := After(events).value.callers[c];
            && caller.reply.closes <= caller.reply.sends <= 1
            && (caller.reply.buffer.Some? ==> caller.reply.buffer.value.routingKey == caller.key)
            && (forall o :: OutcomeOf(caller.at, o) && o.Reply? ==> o.msg.routingKey == caller.key)
  {
    AlwaysValid(events);
  }

  // Whenever the invoker handles a reply to a pending call, the channel is empty and
  // open, so that the send does not block; and nothing that happens between the
  // send and the close can make the close fail.
  lemma SendNeverBlocks(events: seq<Event>, msg: Delivery)
    requires After(events).Some? && msg.routingKey in After(events).value.pending
    ensures var s := After(events).value;
            && s.pending[msg.routingKey] in s.callers
            && s.callers[s.pending[msg.routingKey]].reply == NewChannel
            && ReplySync(s, msg).1
            && ReplySync(s, msg).0.answering == Some(s.pending[msg.routingKey])
            && s.pending[msg.routingKey] in ReplySync(s, msg).0.callers
            && ReplySync(s, msg).0.callers[s.pending[msg.routingKey]].reply == Channel(Some(msg), 1, 0)
            && msg.routingKey !in ReplySync(s, msg).0.pending
  {
    AlwaysValid(events);
    var s := After(events).value;
    assert IsOpen(s.callers[s.pending[msg.routingKey]]);
  }

  lemma CloseNeverFails(events: seq<Event>)
    requires After(events).Some? && After(events).value.answering.Some?
    ensures var s := After(events).value;
            && s.answering.value in s.callers
            && s.callers[s.answering.value].reply.sends == 1
            && s.callers[s.answering.value].reply.closes == 0
  {
    AlwaysValid(events);
  }

  // What a caller comes away with: the reply it has received, or a failure if it gives up
  // or cannot publish; and it keeps that to its return.
  lemma ActionOutcome(s: System, caller: Caller, action: CallerAction)
    requires CallerEnabled(s, caller, action)
    ensures action.ReceiveReply? ==> OutcomeOf(CallerAfter(caller, action).at, Reply(caller.reply.buffer.value))
    ensures action.GiveUp? || action.StopWaiting? || action == Published(false) ==> OutcomeOf(CallerAfter(caller, action).at, Failed)
    ensures forall o | OutcomeOf(caller.at, o) :: OutcomeOf(CallerAfter(caller, action).at, o)
  {
  }

  // The message has been delivered as a correlated response.
  predicate Arrived(events: seq<Event>, msg: Delivery) {
    Outside(Deliver(msg)) in events && msg.isCorrelated
  }

  ghost predicate CallerHasArrived(events: seq<Event>, caller: Caller) {
    && (caller.reply.buffer.Some? ==> Arrived(events, caller.reply.buffer.value))
    && (forall o :: OutcomeOf(caller.at, o) && o.Reply? ==> Arrived(events, o.msg))
  }

  ghost predicate AllArrived(events: seq<Event>, callers: map<nat, Caller>, deliveries: seq<Delivery>) {
    && (forall msg | msg in deliveries :: Outside(Deliver(msg)) in events)
    && (forall c | c in callers :: CallerHasArrived(events, callers[c]))
  }

  lemma ActionKeepsArrived(events: seq<Event>, s: System, caller: Caller, action: CallerAction)
    requires CallerHasArrived(events, caller) && CallerEnabled(s, caller, action)
    ensures CallerHasArrived(events, CallerAfter(caller, action))
  {
    if caller.at.Leaving? || caller.at.Cancelling? {
      assert OutcomeOf(caller.at, caller.at.outcome);
    }
  }

  lemma InvokerKeepsArrived(events: seq<Event>, s: System, step: InvokerAction)
    requires AllArrived(events, s.callers, s.deliveries) && InvokerEnabled(s, step)
    ensures AllArrived(events, InvokerAfter(s, step).callers, InvokerAfter(s, step).deliveries)
  {
    match step
    case Handle => assert s.deliveries[0] in s.deliveries;
    case CloseReply =>
    case Finalize =>
    case _ =>
  }

  lemma MoreHaveArrived(events: seq<Event>, ev: Event, callers: map<nat, Caller>, deliveries: seq<Delivery>)
    requires AllArrived(events, callers, deliveries)
    ensures AllArrived(events + [ev], callers, deliveries)
  {
  }

  // On every run, a reply that a caller has been given, or that waits for it, is one that
  // the broker has delivered as a correlated response, unchanged.
  lemma {:induction false} RepliesHaveArrived(events: seq<Event>)
    requires After(events).Some?
    ensures AllArrived(events, After(events).value.callers, After(events).value.deliveries)
  {
    if |events| > 0 {
      var before, ev := events[..|events| - 1], events[|events| - 1];
      var s := After(before).value;
      RepliesHaveArrived(before);
      MoreHaveArrived(before, ev, s.callers, s.deliveries);
      assert events == before + [ev];
      match ev
      case Call(_, _) =>
      case ByCaller(c, action) => ActionKeepsArrived(events, s, s.callers[c], action);
      case ByInvoker(step) => InvokerKeepsArrived(events, s, step);
      case Outside(_) =>
    }
  }

  // ---- Graceful stop drains ----

  // The call that the event takes out of the pending table, as a reply to it or as its
  // cancellation.
  function SettledKey(s: System, ev: Event): Option<string> {
    match ev
    case ByInvoker(Handle) =>
      if s.deliveries != [] && s.deliveries[0].isCorrelated && s.deliveries[0].routingKey in s.pending then
        Some(s.deliveries[0].routingKey)
      else None
    case ByCaller(c, Cancel) =>
      if c in s.callers && s.callers[c].key in s.pending then Some(s.callers[c].key) else None
    case _ => None
  }

  predicate Loses(pending: map<string, nat>, settled: Option<string>, pending': map<string, nat>) {
    match settled
    case None => pending' == pending
    case Some(key) => pending' == pending - {key} && |pending'| == |pending| - 1
  }

  lemma HandleShrinks(s: System)
    requires s.deliveries != []
    requires forall key | key in s.pending :: s.pending[key] in s.callers
    ensures Loses(s.pending, SettledKey(s, ByInvoker(Handle)), HandleDelivery(s).pending)
  {
    RemoveOne(s.pending, s.deliveries[0].routingKey);
  }

  lemma ActionShrinks(s: System, c: nat, action: CallerAction)
    requires c in s.callers && !action.Track?
    ensures Loses(s.pending, SettledKey(s, ByCaller(c, action)), PendingAfter(s.pending, c, s.callers[c].key, action))
  {
    var key := s.callers[c].key;
    RemoveOne(s.pending, key);
    assert key !in s.pending ==> s.pending - {key} == s.pending;
  }

  lemma OtherStepsKeepPending(s: System, step: InvokerAction)
    requires InvokerEnabled(s, step) && !step.Handle?
    ensures InvokerAfter(s, step).pending == s.pending
  {
    match step
    case CloseReply =>
    case Finalize =>
    case _ =>
  }

  // While draining, the pending table loses exactly the call that an event settles,
  // if it settles one, and gains none.
  lemma DrainShrinks(s: System, ev: Event)
    requires PendingExact(s.pending, s.callers) && s.phase == Draining && Enabled(s, ev)
    ensures Loses(s.pending, SettledKey(s, ev), Do(s, ev).pending)
  {
    match ev
    case ByInvoker(step) =>
      if step.Handle? {
        HandleShrinks(s);
      } else {
        OtherStepsKeepPending(s, step);
      }
    case ByCaller(c, action) => ActionShrinks(s, c, action);
    case Call(_, _) =>
    case Outside(_) =>
  }

  lemma RemoveOne(m: map<string, nat>, key: string)
    ensures key in m ==> |m - {key}| == |m| - 1
  {
    assert key in m ==> m.Keys == (m - {key}).Keys + {key};
  }

  // How the invoker goes from one state to the next: to draining on a graceful stop; to
  // closing the AMQP channel on a forceful stop or from a drain that has emptied the
  // table; to its end once the channel is closed.
  lemma PhaseChanges(s: System, ev: Event)
    requires Enabled(s, ev) && Do(s, ev).phase != s.phase
    ensures match Do(s, ev).phase
            case Running => false
            case Draining => s.phase == Running && s.graceful
            case Closing => (Selecting(s) && s.forceful) || (s.phase == Draining && s.pending == map[])
            case Finalizing => s.amqpClosed || s.phase == Closing
            case AwaitingClosed => Selecting(s) && s.deliveriesClosed && s.deliveries == []
            case Stopped => s.phase == Finalizing
  {
    match ev
    case ByInvoker(step) => StepChanges(s, step);
    case ByCaller(_, _) =>
    case Call(_, _) =>
    case Outside(_) =>
  }

  function SignalsOf(s: System): Services.Signals {
    Services.Signals(s.forceful, s.graceful, s.finalized)
  }

  // The channels of the state machine are closed by what closes them there, and by
  // nothing else.
  lemma SignalsFollow(s: System, ev: Event)
    requires Enabled(s, ev)
    ensures SignalsOf(Do(s, ev)) ==
            match ev
            case Outside(RequestStop) => Services.CloseEach(SignalsOf(s), Services.Closes(SignalsOf(s), Services.Stop))
            case Outside(RequestGracefulStop) =>
              Services.CloseEach(SignalsOf(s), Services.Closes(SignalsOf(s), Services.GracefulStop))
            case ByInvoker(Finalize) =>
              Services.CloseEach(SignalsOf(s), [Services.Finalized, Services.Forceful, Services.Graceful])
            case _ => SignalsOf(s)
  {
    match ev
    case ByInvoker(step) => StepKeepsSignals(s, step);
    case ByCaller(_, _) =>
    case Call(_, _) =>
    case Outside(_) =>
  }

  lemma StepKeepsSignals(s: System, step: InvokerAction)
    requires InvokerEnabled(s, step)
    ensures SignalsOf(InvokerAfter(s, step)) ==
            if step.Finalize? then Services.Signals(true, true, true) else SignalsOf(s)
  {
    match step
    case Handle =>
    case CloseReply =>
    case Finalize =>
    case _ =>
  }

  lemma StepChanges(s: System, step: InvokerAction)
    requires InvokerEnabled(s, step)
    ensures InvokerAfter(s, step).phase == PhaseAfter(s.phase, step)
  {
    match step
    case Handle =>
    case CloseReply =>
    case Finalize =>
    case _ =>
  }

  // ---- Nobody is left waiting ----

  function Rank(at: Progress): nat {
    match at
    case Asking => 5
    case Publishing => 4
    case Waiting => 3
    case Leaving(_) => 2
    case Cancelling(_) => 1
    case Done(_) => 0
  }

  function Stage(phase: Phase): nat {
    match phase
    case Running => 4
    case Draining => 3
    case AwaitingClosed => 2
    case Closing => 2
    case Finalizing => 1
    case Stopped => 0
  }

  // How many steps of its own the invoker is from closing Forceful, if it takes
  // nothing more from anyone.
  function Distance(s: System): nat {
    2 * Stage(s.phase) + if s.answering.Some? then 1 else 0
  }

  // The next step of the invoker at a moment when it serves no caller.
  function NextOf(s: System): InvokerAction {
    if s.answering.Some? then CloseReply
    else
      match s.phase
      case Draining => Drained
      case AwaitingClosed => SeeAmqpClosed
      case Closing => CloseChannel
      case _ => Finalize
  }

  ghost predicate CallerCanStep(s: System, c: nat)
    requires c in s.callers
  {
    exists action :: CallerEnabled(s, s.callers[c], action)
  }

  // The consumer has been closed but the broker has not reported the end of the
  // AMQP channel, for which the invoker waits without a select statement. Closing is a
  // call to the broker too, but one that returns.
  predicate AwaitsBroker(s: System) {
    s.phase == AwaitingClosed && !s.amqpClosed
  }

  // The action that a caller may take of its own accord.
  function OwnAction(s: System, at: Progress): CallerAction
    requires !at.Done?
  {
    match at
    case Asking => GiveUp
    case Publishing => Published(false)
    case Waiting => StopWaiting
    case Leaving(_) => Leave
    case Cancelling(_) => if s.forceful then CancelForced else Cancel
  }

  // Only a caller blocked on its cancellation can have no step: exactly when the
  // invoker is in no select statement and Forceful is open.
  lemma StepIff(s: System, c: nat)
    requires c in s.callers && !s.callers[c].at.Done?
    ensures CallerCanStep(s, c) <==> (s.callers[c].at.Cancelling? ==> Selecting(s) || s.forceful)
  {
    if s.callers[c].at.Cancelling? ==> Selecting(s) || s.forceful {
      assert CallerEnabled(s, s.callers[c], OwnAction(s, s.callers[c].at));
    }
  }

  // A caller moves by its own events only, and always towards its return.
  lemma OnlyOwnSteps(s: System, ev: Event, c: nat)
    requires Enabled(s, ev) && c in s.callers
    ensures c in Do(s, ev).callers
    ensures if ev.ByCaller? && ev.c == c then Rank(Do(s, ev).callers[c].at) < Rank(s.callers[c].at)
            else Do(s, ev).callers[c].at == s.callers[c].at
  {
    match ev
    case ByCaller(d, action) => ActionAdvances(s, s.callers[d], action);
    case ByInvoker(step) => InvokerMovesNobody(s, step, c);
    case Call(_, _) =>
    case Outside(_) =>
  }

  lemma InvokerMovesNobody(s: System, step: InvokerAction, c: nat)
    requires InvokerEnabled(s, step) && c in s.callers
    ensures c in InvokerAfter(s, step).callers && InvokerAfter(s, step).callers[c].at == s.callers[c].at
  {
    match step
    case Handle => SendMovesNobody(s, s.deliveries[0], c);
    case CloseReply =>
    case Finalize =>
    case _ =>
  }

  lemma SendMovesNobody(s: System, msg: Delivery, c: nat)
    requires c in s.callers
    ensures c in ReplySync(s, msg).0.callers && ReplySync(s, msg).0.callers[c].at == s.callers[c].at
  {
  }

  // The step that an invoker that serves no caller may take.
  lemma InvokerCanStep(s: System)
    requires Valid(s) && !Selecting(s) && s.phase != Stopped && !AwaitsBroker(s)
    ensures InvokerEnabled(s, NextOf(s)) && Distance(InvokerAfter(s, NextOf(s))) < Distance(s)
  {
  }

  ghost predicate InvokerCanMove(s: System) {
    exists step :: InvokerEnabled(s, step)
  }

  // On every run, a caller that has not returned can move towards its return, or
  // the invoker can move towards closing Forceful, which releases it - unless the
  // invoker awaits the broker, Forceful is open and the caller is blocked on its
  // cancellation. Exactly then neither of them can do anything.
  lemma {:induction false} NeverWedged(events: seq<Event>, c: nat)
    requires After(events).Some?
    requires c in After(events).value.callers && !After(events).value.callers[c].at.Done?
    ensures var s := After(events).value;
            || CallerCanStep(s, c)
            || (InvokerEnabled(s, NextOf(s)) && Distance(InvokerAfter(s, NextOf(s))) < Distance(s))
            || (AwaitsBroker(s) && s.callers[c].at.Cancelling? && !s.forceful)
    ensures var s := After(events).value;
            (CallerCanStep(s, c) || InvokerCanMove(s) <==> !(AwaitsBroker(s) && s.callers[c].at.Cancelling? && !s.forceful))
    ensures Distance(After(events).value) == 0 ==> CallerCanStep(After(events).value, c)
  {
    AlwaysValid(events);
    var s := After(events).value;
    StepIff(s, c);
    if !CallerCanStep(s, c) && !AwaitsBroker(s) {
      InvokerCanStep(s);
      assert InvokerEnabled(s, NextOf(s));
    }
  }

  // Whatever else happens, the invoker never moves to an earlier stage, and when it
  // is in no select statement nothing takes it further from closing Forceful.
  lemma DistanceNeverGrows(s: System, ev: Event)
    requires Enabled(s, ev)
    ensures Stage(Do(s, ev).phase) <= Stage(s.phase)
    ensures !Selecting(s) ==> Distance(Do(s, ev)) <= Distance(s)
    ensures s.forceful ==> Do(s, ev).forceful
  {
    match ev
    case ByInvoker(step) => InvokerComesCloser(s, step);
    case ByCaller(_, _) =>
    case Call(_, _) =>
    case Outside(_) =>
  }

  lemma InvokerComesCloser(s: System, step: InvokerAction)
    requires InvokerEnabled(s, step)
    ensures Stage(InvokerAfter(s, step).phase) <= Stage(s.phase)
    ensures !step.Handle? ==> Distance(InvokerAfter(s, step)) < Distance(s)
    ensures s.forceful ==> InvokerAfter(s, step).forceful
  {
    match step
    case Handle =>
    case CloseReply =>
    case Finalize =>
    case _ =>
  }

  // The exception is real: a broker that closes the consumer while a call is being
  // abandoned, and never reports the AMQP channel as closed, leaves the caller
  // blocked.
  lemma AwaitingBrokerBlocks(key: string)
    ensures exists events ::
              && After(events).Some?
              && CallerIs(After(events).value, 0, Caller(key, Cancelling(Failed), NewChannel, true, false))
              && !CallerCanStep(After(events).value, 0)
              && !InvokerCanMove(After(events).value)
  {
    var called := Initially.(callers := map[0 := Caller(key, Asking, NewChannel, false, false)]);
    var tracked := called.(pending := map[key := 0], callers := map[0 := Caller(key, Publishing, NewChannel, true, false)]);
    var failed := tracked.(callers := map[0 := Caller(key, Leaving(Failed), NewChannel, true, false)]);
    var left := failed.(callers := map[0 := Caller(key, Cancelling(Failed), NewChannel, true, false)]);
    var closed := left.(deliveriesClosed := true);
    var e0: seq<Event> := [];
    var e1 := Then(e0, Call(0, key), called);
    var e2 := Then(e1, ByCaller(0, Track), tracked);
    var e3 := Then(e2, ByCaller(0, Published(false)), failed);
    var e4 := Then(e3, ByCaller(0, Leave), left);
    var e5 := Then(e4, Outside(CloseDeliveries), closed);
    var e6 := Then(e5, ByInvoker(SeeDeliveriesClosed), closed.(phase := AwaitingClosed));
    NeverWedged(e6, 0);
  }

  predicate CallerIs(s: System, c: nat, caller: Caller) {
    c in s.callers && s.callers[c] == caller
  }

  lemma Then(events: seq<Event>, ev: Event, s': System) returns (more: seq<Event>)
    requires After(events).Some? && Enabled(After(events).value, ev) && Do(After(events).value, ev) == s'
    ensures After(more) == Some(s')
  {
    more := events + [ev];
    assert more[..|events|] == events;
  }
}

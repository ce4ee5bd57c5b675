/**
  Commands for a service's state machine: callers of Do and DoGraceful hand a function
  to it, it runs the function, and the service may be stopped at any moment.
 */
module Commands {
  import opened Attributes
  import Services

  // Err is what the function returned; Stopped is ErrStopped, by which the caller gives
  // up.
  datatype Verdict = Ran(err: Option<Error>) | Stopped

  datatype Progress = Offering | Awaiting | Returned(verdict: Verdict)

  // The reply channel has room for one message. outcome records what the function
  // returned when it ran; sends counts the replies, runs the executions.
  datatype Caller = Caller(
    isGraceful: bool,
    at: Progress,
    isTaken: bool,
    runs: nat,
    sends: nat,
    reply: Option<Option<Error>>,
    outcome: Option<Option<Error>>)

  // executing is the caller whose request the state machine has received and not yet
  // answered; isServing says that its present state takes requests.
  datatype System = System(
    signals: Services.Signals,
    isServing: bool,
    executing: Option<nat>,
    callers: map<nat, Caller>)

  const Initially := System(Services.AllOpen, true, None, map[])

  datatype Event =
    | Offer(c: nat, isGraceful: bool)
    | Take(c: nat)
    | Execute(err: Option<Error>)
    | Receive(c: nat)
    | SeeStopped(c: nat)
    | ChangeState(isServing: bool)
    | Closes(call: Services.Call)

  // The channels that make a caller give up: Do minds a graceful stop, DoGraceful does
  // not.
  predicate GivesUp(signals: Services.Signals, isGraceful: bool) {
    signals.forceful || signals.finalized || (signals.graceful && !isGraceful)
  }

  predicate Enabled(s: System, ev: Event) {
    match ev
    case Offer(c, _) => c !in s.callers
    case Take(c) => c in s.callers && s.callers[c].at == Offering && s.isServing && s.executing == None
    case Execute(_) => s.executing.Some? && s.executing.value in s.callers
    case Receive(c) => c in s.callers && s.callers[c].at == Awaiting && s.callers[c].reply.Some?
    case SeeStopped(c) => c in s.callers && !s.callers[c].at.Returned? && GivesUp(s.signals, s.callers[c].isGraceful)
    case ChangeState(_) => s.executing == None && !s.signals.finalized
    case Closes(call) => call == Services.Ended ==> s.executing == None && !s.isServing
  }

  function Do(s: System, ev: Event): System
    requires Enabled(s, ev)
  {
    match ev
    case Offer(c, isGraceful) => s.(callers := s.callers[c := Caller(isGraceful, Offering, false, 0, 0, None, None)])
    case Take(c) => s.(executing := Some(c), callers := s.callers[c := s.callers[c].(at := Awaiting, isTaken := true)])
    case Execute(err) =>
      var c := s.executing.value;
      var caller := s.callers[c];
      s.(executing := None,
      callers := s.callers[c := caller.(runs := caller.runs + 1, sends := caller.sends + 1, reply := Some(err), outcome := Some(err))])
    case Receive(c) => s.(callers := s.callers[c := s.callers[c].(at := Returned(Ran(s.callers[c].reply.value)), reply := None)])
    case SeeStopped(c) => s.(callers := s.callers[c := s.callers[c].(at := Returned(Stopped))])
    case ChangeState(isServing) => s.(isServing := isServing)
    case Closes(call) => s.(signals := Services.CloseEach(s.signals, Services.Closes(s.signals, call)))
  }

  ghost function After(events: seq<Event>): Option<System> {
    if |events| == 0 then Some(Initially)
    else
      match After(events[..|events| - 1])
      case None => None
      case Some(s) =>
        var ev := events[|events| - 1];
        if Enabled(s, ev) then Some(Do(s, ev)) else None
  }

  // A request that the state machine has received has run exactly once, or is about to;
  // any other has not run. A caller returns what its function returned, or gives up.
  ghost predicate CallerValid(s: System, c: nat)
    requires c in s.callers
  {
    var caller := s.callers[c];
    && caller.runs == (if caller.isTaken && s.executing != Some(c) then 1 else 0)
    && caller.sends == caller.runs
    && (caller.outcome.Some? <==> caller.runs == 1)
    && (caller.reply.Some? ==> caller.reply == caller.outcome)
    && (s.executing == Some(c) ==> caller.isTaken)
    && (caller.at == Offering ==> !caller.isTaken)
    && (caller.at == Awaiting ==> caller.isTaken && (caller.reply.Some? <==> caller.runs == 1))
    && (caller.at.Returned? && caller.at.verdict.Ran? ==> caller.outcome == Some(caller.at.verdict.err))
    && (caller.at == Returned(Stopped) ==> GivesUp(s.signals, caller.isGraceful))
  }

  ghost predicate Valid(s: System) {
    && (s.executing.Some? ==> s.executing.value in s.callers)
    && (forall c | c in s.callers :: CallerValid(s, c))
    && (s.signals.finalized ==> s.signals.forceful && s.signals.graceful)
    && (s.signals.finalized ==> s.executing == None && !s.isServing)
  }

  lemma DoKeepsCaller(s: System, ev: Event, c: nat)
    requires Valid(s) && Enabled(s, ev) && c in Do(s, ev).callers
    ensures CallerValid(Do(s, ev), c)
  {
    assert c in s.callers ==> CallerValid(s, c);
    match ev
    case Offer(_, _) =>
    case Take(_) =>
    case Execute(_) =>
    case Receive(_) =>
    case SeeStopped(_) =>
    case ChangeState(_) =>
    case Closes(_) =>
  }

  lemma {:induction false} AlwaysValid(events: seq<Event>)
    requires After(events).Some?
    ensures Valid(After(events).value)
  {
    if |events| > 0 {
      var s, ev := After(events[..|events| - 1]).value, events[|events| - 1];
      AlwaysValid(events[..|events| - 1]);
      forall c | c in Do(s, ev).callers ensures CallerValid(Do(s, ev), c) {
        DoKeepsCaller(s, ev, c);
      }
    }
  }

  // The request that the state machine has received last.
  function LastTaken(events: seq<Event>): Option<nat> {
    if |events| == 0 then None
    else if events[|events| - 1].Take? then Some(events[|events| - 1].c)
    else LastTaken(events[..|events| - 1])
  }

  // What the caller's function returned, from the events alone.
  function ExecutedFor(events: seq<Event>, c: nat): Option<Option<Error>> {
    if |events| == 0 then None
    else
      var before, ev := events[..|events| - 1], events[|events| - 1];
      if ev.Execute? && LastTaken(before) == Some(c) then Some(ev.err) else ExecutedFor(before, c)
  }

  lemma {:induction false} OutcomesAreExecuted(events: seq<Event>)
    requires After(events).Some?
    ensures var s := After(events).value;
            && (s.executing.Some? ==> s.executing == LastTaken(events))
            && (LastTaken(events).Some? ==> LastTaken(events).value in s.callers)
            && (forall c | c in s.callers :: s.callers[c].outcome == ExecutedFor(events, c))
            && (forall c | c !in s.callers :: ExecutedFor(events, c) == None)
            && (forall c | c in s.callers :: s.callers[c].isTaken <==> Take(c) in events)
            && (forall c :: Take(c) in events ==> c in s.callers)
  {
    if |events| > 0 {
      var before, ev := events[..|events| - 1], events[|events| - 1];
      OutcomesAreExecuted(before);
      assert events == before + [ev];
      match ev
      case Offer(_, _) =>
      case Take(_) =>
      case Execute(_) =>
      case Receive(_) =>
      case SeeStopped(_) =>
      case ChangeState(_) =>
      case Closes(_) =>
    }
  }

  // On every run a function runs at most once; a caller that is told an outcome is told
  // the one its function had; and one that gives up does so because the service is
  // stopping, its function having run, or running, exactly if the state machine had
  // taken the request.
  lemma {:induction false} RunsOnce(events: seq<Event>, c: nat)
    requires After(events).Some? && c in After(events).value.callers
    ensures var s := After(events).value;
            var caller := s.callers[c];
            && caller.runs <= 1
            && (caller.at.Returned? && caller.at.verdict.Ran? ==>
                  caller.runs == 1 && ExecutedFor(events, c) == Some(caller.at.verdict.err))
            && (caller.at == Returned(Stopped) ==>
                  && (s.signals.forceful || s.signals.finalized || (s.signals.graceful && !caller.isGraceful))
                  && (Take(c) in events <==> caller.runs == 1 || s.executing == Some(c)))
  {
    AlwaysValid(events);
    OutcomesAreExecuted(events);
    assert CallerValid(After(events).value, c);
  }

  // Execute never blocks on its reply, even if nobody waits for it any more.
  lemma {:induction false} ReplyNeverBlocks(events: seq<Event>, err: Option<Error>)
    requires After(events).Some? && After(events).value.executing.Some?
    ensures var s := After(events).value;
            && Enabled(s, Execute(err))
            && s.callers[s.executing.value].sends == 0
            && s.callers[s.executing.value].reply == None
  {
    AlwaysValid(events);
    assert CallerValid(After(events).value, After(events).value.executing.value);
  }

  predicate CanReturn(s: System, c: nat) {
    Enabled(s, Receive(c)) || Enabled(s, SeeStopped(c))
  }

  // A caller that has not returned can return exactly if its reply has come or the
  // service is stopping; otherwise its function is running, or its request has not been
  // taken and no channel it minds is closed.
  lemma {:induction false} WaitsIff(events: seq<Event>, c: nat)
    requires After(events).Some?
    requires c in After(events).value.callers && !After(events).value.callers[c].at.Returned?
    ensures var s := After(events).value;
            (!CanReturn(s, c) <==>
             && !s.signals.forceful && !s.signals.finalized && (s.signals.graceful ==> s.callers[c].isGraceful)
             && (s.executing == Some(c) || s.callers[c].at == Offering))
    ensures After(events).value.signals.finalized ==> CanReturn(After(events).value, c)
  {
    AlwaysValid(events);
    assert CallerValid(After(events).value, c);
  }
}

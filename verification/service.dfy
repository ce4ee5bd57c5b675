/**
  The state machine under every service: its three channels, which are only ever
  closed, and the calls that close them.
 */
module Services {
  import opened Attributes

  datatype Name = Forceful | Graceful | Finalized

  // Which of the channels are closed.
  datatype Signals = Signals(forceful: bool, graceful: bool, finalized: bool)

  const AllOpen := Signals(false, false, false)

  predicate IsClosed(s: Signals, n: Name) {
    match n
    case Forceful => s.forceful
    case Graceful => s.graceful
    case Finalized => s.finalized
  }

  // The calls that may close channels, from any goroutine and in any order; Ended
  // is the end of Run.
  datatype Call = Stop | GracefulStop | Ended

  // The channels a call closes, in order. Closing a closed channel is a panic.
  function Closes(s: Signals, c: Call): seq<Name> {
    match c
    case Stop => if s.forceful then [] else [Forceful]
    case GracefulStop => if s.forceful || s.graceful then [] else [Graceful]
    case Ended =>
      if s.finalized then []
      else [Finalized] + (if s.forceful then [] else [Forceful]) + (if s.graceful then [] else [Graceful])
  }

  function CloseEach(s: Signals, names: seq<Name>): Signals {
    Signals(s.forceful || Forceful in names, s.graceful || Graceful in names, s.finalized || Finalized in names)
  }

  function After(calls: seq<Call>): Signals {
    if |calls| == 0 then AllOpen
    else
      var s := After(calls[..|calls| - 1]);
      CloseEach(s, Closes(s, calls[|calls| - 1]))
  }

  // Every close on a run, in order.
  function Log(calls: seq<Call>): seq<Name> {
    if |calls| == 0 then []
    else Log(calls[..|calls| - 1]) + Closes(After(calls[..|calls| - 1]), calls[|calls| - 1])
  }

  lemma ClosesOpenOnly(s: Signals, c: Call)
    ensures forall n | n in Closes(s, c) :: !IsClosed(s, n)
    ensures forall i, j | 0 <= i < j < |Closes(s, c)| :: Closes(s, c)[i] != Closes(s, c)[j]
  {
  }

  // On every run no channel is closed twice, the closed ones are those that have
  // been closed, and once the service is finalized all of them are.
  lemma {:induction false} ClosedOnce(calls: seq<Call>)
    ensures forall i, j | 0 <= i < j < |Log(calls)| :: Log(calls)[i] != Log(calls)[j]
    ensures forall n :: n in Log(calls) <==> IsClosed(After(calls), n)
    ensures After(calls).finalized ==> After(calls).forceful && After(calls).graceful
  {
    if |calls| > 0 {
      var before, last := calls[..|calls| - 1], calls[|calls| - 1];
      ClosedOnce(before);
      ClosesOpenOnly(After(before), last);
      var old', new' := Log(before), Closes(After(before), last);
      forall i, j | 0 <= i < j < |Log(calls)| ensures Log(calls)[i] != Log(calls)[j] {
        if i < |old'| <= j {
          assert old'[i] in old' && new'[j - |old'|] in new';
        }
      }
    }
  }

  // The ith call asks for a graceful stop, and no forceful one has come before it.
  ghost predicate GracefulInTime(calls: seq<Call>, i: nat) {
    i < |calls| && calls[i] == GracefulStop && Stop !in calls[..i]
  }

  // Finalized is closed exactly if Run has ended; a graceful stop counts only if it
  // comes before every forceful one.
  lemma {:induction false} ClosedIff(calls: seq<Call>)
    ensures After(calls).finalized <==> Ended in calls
    ensures After(calls).forceful <==> Stop in calls || Ended in calls
    ensures After(calls).graceful <==> Ended in calls || exists i: nat :: GracefulInTime(calls, i)
  {
    if |calls| > 0 {
      var before, last := calls[..|calls| - 1], calls[|calls| - 1];
      ClosedIff(before);
      assert calls == before + [last];
      GracefulStep(calls);
    }
  }

  lemma GracefulStep(calls: seq<Call>)
    requires |calls| > 0
    ensures var before, last := calls[..|calls| - 1], calls[|calls| - 1];
            (exists i: nat :: GracefulInTime(calls, i)) <==>
            (exists i: nat :: GracefulInTime(before, i)) || (last == GracefulStop && Stop !in before)
  {
    var before, last := calls[..|calls| - 1], calls[|calls| - 1];
    forall i: nat | i < |before| ensures GracefulInTime(before, i) <==> GracefulInTime(calls, i) {
      assert calls[..i] == before[..i];
    }
    assert GracefulInTime(calls, |before|) <==> last == GracefulStop && Stop !in before;
  }

  // A channel that carries nothing and is only ever closed, once.
  class Signal {
    var isClosed: bool

    constructor ()
      ensures !isClosed
    {
      isClosed := false;
    }

    method Close()
      requires !isClosed
      modifies this
      ensures isClosed
    {
      isClosed := true;
    }
  }

  // What one call of a state function returns.
  datatype Returned = Returned(hasNext: bool, err: Option<Error>)

  // The states have ended for good with the nth call.
  predicate Stops(r: Returned) {
    !r.hasNext || r.err.Some?
  }

  class StateMachine {
    const forceful: Signal
    const graceful: Signal
    const finalized: Signal
    var err: Option<Error>

    constructor ()
      ensures Valid() && Model() == AllOpen && err == None
      ensures fresh(forceful) && fresh(graceful) && fresh(finalized)
    {
      forceful := new Signal();
      graceful := new Signal();
      finalized := new Signal();
      err := None;
    }

    ghost predicate Valid()
      reads this
    {
      forceful != graceful && graceful != finalized && forceful != finalized
    }

    function Model(): Signals
      reads forceful, graceful, finalized
    {
      Signals(forceful.isClosed, graceful.isClosed, finalized.isClosed)
    }

    method Stop()
      requires Valid()
      modifies forceful
      ensures Model() == CloseEach(old(Model()), Closes(old(Model()), Call.Stop))
    {
      if !forceful.isClosed {
        forceful.Close();
      }
    }

    method GracefulStop()
      requires Valid()
      modifies graceful
      ensures Model() == CloseEach(old(Model()), Closes(old(Model()), Call.GracefulStop))
    {
      if !forceful.isClosed && !graceful.isClosed {
        graceful.Close();
      }
    }

    method Close()
      requires Valid()
      modifies forceful, graceful, finalized
      ensures Model() == CloseEach(old(Model()), Closes(old(Model()), Ended))
    {
      if finalized.isClosed {
        return;
      }
      finalized.Close();
      if !forceful.isClosed {
        forceful.Close();
      }
      if !graceful.isClosed {
        graceful.Close();
      }
    }

    // Run enters one state after another: results[i] is what the ith call of a state
    // function returns. If none of them ends the service, Run is still in a state
    // function when the results are used up.
    method Run(results: seq<Returned>, finalizer: Option<Error> -> Option<Error>) returns (calls: nat, ended: bool)
      requires Valid()
      modifies this`err, forceful, graceful, finalized
      ensures calls <= |results| && (ended || calls == |results|)
      ensures ended <==> calls > 0 && Stops(results[calls - 1])
      ensures forall i | 0 <= i < calls - 1 :: !Stops(results[i])
      ensures ended ==> err == finalizer(results[calls - 1].err)
      ensures Model() == if ended then CloseEach(old(Model()), Closes(old(Model()), Ended)) else old(Model())
      ensures !ended ==> err == old(err)
    {
      var e: Option<Error> := None;
      var hasState := true;
      calls := 0;
      while hasState && e == None && calls < |results|
        invariant calls <= |results|
        invariant hasState && e == None <==> calls == 0 || !Stops(results[calls - 1])
        invariant forall i | 0 <= i < calls - 1 :: !Stops(results[i])
        invariant calls > 0 ==> e == results[calls - 1].err
        invariant Model() == old(Model()) && err == old(err)
      {
        hasState, e := results[calls].hasNext, results[calls].err;
        calls := calls + 1;
      }
      if hasState && e == None {
        return calls, false;
      }
      err := finalizer(e);
      Close();
      ended := true;
    }
  }
}

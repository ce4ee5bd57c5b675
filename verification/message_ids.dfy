/** All the message IDs one peer gives out: those of its sessions and of its client. */
module MessageIds {
  import opened Attributes
  import opened Ident
  import opened SessionState
  import opened SessionRuns

  // sessions[i] is the run of the session with sequence i + 1; sequence zero is
  // the zero-session, whose IDs the client counts in clientNum.
  datatype PeerRun = PeerRun(sessions: seq<Trace>, clientNum: Revision, issued: seq<MessageID>)

  const NewPeer := PeerRun([], 0, [])

  datatype Event =
    | NewSession
    | SessionDoes(i: nat, op: Op)
    | ClientCalls

  predicate Enabled(p: PeerRun, ev: Event) {
    match ev
    case NewSession => |p.sessions| < MAX_UINT32
    case SessionDoes(i, _) => i < |p.sessions| && InRange(p.sessions[i].state)
    case ClientCalls => p.clientNum < MAX_UINT32
  }

  function IssuedBy(id: PeerID, i: nat, s: State): MessageID
    requires i < MAX_UINT32
  {
    MessageID(Ref(SessionID(id, i + 1), s.rev), s.msgSeq)
  }

  function Do(id: PeerID, p: PeerRun, ev: Event): PeerRun
    requires Enabled(p, ev) && |p.sessions| <= MAX_UINT32
  {
    match ev
    case NewSession => p.(sessions := p.sessions + [Start])
    case SessionDoes(i, op) =>
      var next := Step(p.sessions[i], op);
      p.(sessions := p.sessions[i := next],
      issued := if op.SendMessage? && !p.sessions[i].state.isDestroyed then p.issued + [IssuedBy(id, i, next.state)]
      else p.issued)
    case ClientCalls =>
      p.(clientNum := p.clientNum + 1,
      issued := p.issued + [MessageID(Ref(SessionID(id, 0), 0), p.clientNum + 1)])
  }

  // An ID that has been given out is on record with the session it belongs to.
  ghost predicate Recorded(id: PeerID, p: PeerRun, m: MessageID) {
    && m.ref.id.peer == id
    && 1 <= m.num
    && (if m.ref.id.num == 0 then m.ref.rev == 0 && m.num <= p.clientNum
        else m.ref.id.num <= |p.sessions| && Stamp(m.ref.rev, m.num) in p.sessions[m.ref.id.num - 1].issued)
  }

  ghost predicate PeerValid(id: PeerID, p: PeerRun) {
    && |p.sessions| <= MAX_UINT32
    && (forall t | t in p.sessions :: TraceValid(t))
    && (forall m | m in p.issued :: Recorded(id, p, m))
    && (forall i, j | 0 <= i < j < |p.issued| :: p.issued[i] != p.issued[j])
  }

  lemma StepRecords(t: Trace, op: Op)
    requires TraceValid(t) && InRange(t.state)
    ensures forall m | m in t.issued :: m in Step(t, op).issued
    ensures op.SendMessage? && !t.state.isDestroyed ==>
              var m := Stamp(Step(t, op).state.rev, Step(t, op).state.msgSeq);
              m in Step(t, op).issued && m !in t.issued && m.num >= 1
  {
    if op.SendMessage? && !t.state.isDestroyed {
      var m := Stamp(t.state.rev, t.state.msgSeq + 1);
      forall i | 0 <= i < |t.issued| ensures t.issued[i] != m {
      }
    }
  }

  lemma SessionStep(id: PeerID, p: PeerRun, i: nat, op: Op)
    requires PeerValid(id, p) && Enabled(p, SessionDoes(i, op))
    ensures PeerValid(id, Do(id, p, SessionDoes(i, op)))
  {
    var p' := Do(id, p, SessionDoes(i, op));
    assert p.sessions[i] in p.sessions;
    StepKeepsTrace(p.sessions[i], op);
    StepRecords(p.sessions[i], op);
    forall m | m in p.issued ensures Recorded(id, p', m) {
      assert Recorded(id, p, m);
    }
    if op.SendMessage? && !p.sessions[i].state.isDestroyed {
      var m := IssuedBy(id, i, p'.sessions[i].state);
      assert Recorded(id, p', m);
      forall j | 0 <= j < |p.issued| ensures p.issued[j] != m {
        assert Recorded(id, p, p.issued[j]);
      }
    }
  }

  lemma DoKeepsValid(id: PeerID, p: PeerRun, ev: Event)
    requires PeerValid(id, p) && Enabled(p, ev)
    ensures PeerValid(id, Do(id, p, ev))
  {
    match ev
    case NewSession =>
      var p' := Do(id, p, ev);
      assert TraceValid(Start);
      forall m | m in p'.issued ensures Recorded(id, p', m) {
        assert Recorded(id, p, m);
      }
    case SessionDoes(i, op) => SessionStep(id, p, i, op);
    case ClientCalls =>
      var p' := Do(id, p, ev);
      forall m | m in p.issued ensures Recorded(id, p', m) {
        assert Recorded(id, p, m);
      }
      forall i | 0 <= i < |p.issued| ensures p.issued[i] != p'.issued[|p.issued|] {
        assert Recorded(id, p, p.issued[i]);
      }
  }

  ghost function After(id: PeerID, events: seq<Event>): Option<PeerRun>
    ensures After(id, events).Some? ==> PeerValid(id, After(id, events).value)
  {
    if |events| == 0 then Some(NewPeer)
    else
      match After(id, events[..|events| - 1])
      case None => None
      case Some(p) =>
        var ev := events[|events| - 1];
        if Enabled(p, ev) then
          DoKeepsValid(id, p, ev);
          Some(Do(id, p, ev))
        else None
  }

  // On every run of a peer, with any number of sessions, no two message IDs are
  // equal, no two are printed alike, and all of them are valid.
  lemma {:induction false} NeverRepeats(id: PeerID, events: seq<Event>)
    requires After(id, events).Some?
    ensures var issued := After(id, events).value.issued;
            && (forall i, j | 0 <= i < j < |issued| :: issued[i] != issued[j] && PrintMessage(issued[i]) != PrintMessage(issued[j]))
            && (ValidPeer(id) ==> forall m | m in issued :: ValidMessage(m) && ParseMessageID(PrintMessage(m)) == Some(m))
  {
    var p := After(id, events).value;
    forall i, j | 0 <= i < j < |p.issued| ensures PrintMessage(p.issued[i]) != PrintMessage(p.issued[j]) {
      if PrintMessage(p.issued[i]) == PrintMessage(p.issued[j]) {
        PrintMessageInjective(p.issued[i], p.issued[j]);
      }
    }
    forall m | m in p.issued && ValidPeer(id) ensures ValidMessage(m) && ParseMessageID(PrintMessage(m)) == Some(m) {
      assert Recorded(id, p, m);
      MessageRoundTrip(m);
    }
  }
}

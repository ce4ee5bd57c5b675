/**
  The notification listener: which sessions listen to which namespaces, the count of
  listeners per namespace, and the bindings the broker holds for this peer's queue.
 */
module Listening {
  import opened Attributes
  import opened Counters

  type SessionID = nat

  type Handler = nat

  // The notification queue is bound twice for a namespace that has listeners: by the
  // peer's own key on the unicast exchange, and by the namespace on the multicast one.
  datatype Binding = Unicast(ns: string) | Multicast(ns: string)

  type Handlers = map<SessionID, map<string, Handler>>

  datatype State = State(namespaces: map<string, nat>, handlers: Handlers, bindings: set<Binding>)

  const Initial := State(map[], map[], {})

  function Count(namespaces: map<string, nat>, ns: string): nat {
    if ns in namespaces then namespaces[ns] else 0
  }

  function HandlersOf(handlers: Handlers, id: SessionID): map<string, Handler> {
    if id in handlers then handlers[id] else map[]
  }

  predicate Listens(handlers: Handlers, id: SessionID, ns: string) {
    id in handlers && ns in handlers[id]
  }

  function Listeners(handlers: Handlers, ns: string): set<SessionID> {
    set id | id in handlers && ns in handlers[id]
  }

  function AfterBind(s: State, ns: string): State {
    var count := Count(s.namespaces, ns);
    s.(namespaces := s.namespaces[ns := count + 1],
    bindings := if count != 0 then s.bindings else s.bindings + {Unicast(ns), Multicast(ns)})
  }

  function AfterUnbind(s: State, ns: string): State {
    var count := Dec(Count(s.namespaces, ns));
    s.(namespaces := s.namespaces[ns := count],
    bindings := if count != 0 then s.bindings else s.bindings - {Unicast(ns), Multicast(ns)})
  }

  function AfterUnbindAll(s: State, order: seq<string>): State {
    if |order| == 0 then s
    else AfterUnbind(AfterUnbindAll(s, order[..|order| - 1]), order[|order| - 1])
  }

  function AfterListen(s: State, id: SessionID, ns: string, h: Handler): State {
    var listening := s.(handlers := s.handlers[id := HandlersOf(s.handlers, id)[ns := h]]);
    if Listens(s.handlers, id, ns) then listening else AfterBind(listening, ns)
  }

  function AfterUnlisten(s: State, id: SessionID, ns: string): State {
    if !Listens(s.handlers, id, ns) then s
    else AfterUnbind(s.(handlers := s.handlers[id := s.handlers[id] - {ns}]), ns)
  }

  // Go visits the namespaces of a map in any order.
  ghost predicate IsOrder(order: seq<string>, keys: set<string>) {
    && (forall k :: k in keys <==> k in order)
    && (forall i, j | 0 <= i < j < |order| :: order[i] != order[j])
  }

  function AfterUnlistenAll(s: State, id: SessionID, order: seq<string>): State {
    AfterUnbindAll(s.(handlers := s.handlers - {id}), order)
  }

  datatype Op =
    | OpListen(id: SessionID, ns: string, h: Handler)
    | OpUnlisten(id: SessionID, ns: string)
    | OpUnlistenAll(id: SessionID, order: seq<string>)

  ghost predicate Enabled(s: State, op: Op) {
    op.OpUnlistenAll? ==> IsOrder(op.order, HandlersOf(s.handlers, op.id).Keys)
  }

  function Do(s: State, op: Op): State {
    match op
    case OpListen(id, ns, h) => AfterListen(s, id, ns, h)
    case OpUnlisten(id, ns) => AfterUnlisten(s, id, ns)
    case OpUnlistenAll(id, order) => AfterUnlistenAll(s, id, order)
  }

  ghost function After(ops: seq<Op>): Option<State> {
    if |ops| == 0 then Some(Initial)
    else
      match After(ops[..|ops| - 1])
      case None => None
      case Some(s) => if Enabled(s, ops[|ops| - 1]) then Some(Do(s, ops[|ops| - 1])) else None
  }

  // ---- Counts and bindings are exact ----

  // The count of a namespace is off by owed, the number of listeners that have been
  // removed but not yet counted down.
  ghost predicate ExactFor(s: State, ns: string, owed: nat) {
    && Count(s.namespaces, ns) == |Listeners(s.handlers, ns)| + owed
    && (Unicast(ns) in s.bindings <==> Count(s.namespaces, ns) > 0)
    && (Multicast(ns) in s.bindings <==> Count(s.namespaces, ns) > 0)
  }

  ghost predicate Exact(s: State) {
    forall ns :: ExactFor(s, ns, 0)
  }

  lemma AddListener(handlers: Handlers, id: SessionID, ns: string, h: Handler, n: string)
    ensures var handlers' := handlers[id := HandlersOf(handlers, id)[ns := h]];
            |Listeners(handlers', n)| == |Listeners(handlers, n)| + if n == ns && !Listens(handlers, id, ns) then 1 else 0
  {
    var handlers' := handlers[id := HandlersOf(handlers, id)[ns := h]];
    assert Listeners(handlers', n) == if n == ns then Listeners(handlers, n) + {id} else Listeners(handlers, n);
  }

  lemma RemoveListener(handlers: Handlers, id: SessionID, ns: string, n: string)
    requires Listens(handlers, id, ns)
    ensures |Listeners(handlers[id := handlers[id] - {ns}], n)| == |Listeners(handlers, n)| - if n == ns then 1 else 0
  {
    assert Listeners(handlers[id := handlers[id] - {ns}], n) == if n == ns then Listeners(handlers, n) - {id} else Listeners(handlers, n);
  }

  lemma RemoveSession(handlers: Handlers, id: SessionID, n: string)
    ensures |Listeners(handlers - {id}, n)| == |Listeners(handlers, n)| - if Listens(handlers, id, n) then 1 else 0
  {
    assert Listeners(handlers - {id}, n) == if Listens(handlers, id, n) then Listeners(handlers, n) - {id} else Listeners(handlers, n);
  }

  // A decrement owed for one namespace is paid by one unbind, and wraps nothing.
  lemma UnbindPays(s: State, ns: string, n: string, owed: nat)
    requires ExactFor(s, n, owed) && (n == ns ==> owed > 0)
    ensures ExactFor(AfterUnbind(s, ns), n, if n == ns then owed - 1 else owed)
    ensures n == ns ==> Count(AfterUnbind(s, ns).namespaces, ns) == Count(s.namespaces, ns) - 1
  {
  }

  lemma {:induction false} UnbindAllPays(s: State, order: seq<string>, n: string)
    requires forall i, j | 0 <= i < j < |order| :: order[i] != order[j]
    requires ExactFor(s, n, if n in order then 1 else 0)
    ensures ExactFor(AfterUnbindAll(s, order), n, 0)
    ensures AfterUnbindAll(s, order).handlers == s.handlers
  {
    UnbindAllOwes(s, order, |order|, n);
    assert order[..|order|] == order;
  }

  lemma {:induction false} UnbindAllOwes(s: State, order: seq<string>, m: nat, n: string)
    requires m <= |order| && forall i, j | 0 <= i < j < |order| :: order[i] != order[j]
    requires ExactFor(s, n, if n in order then 1 else 0)
    ensures ExactFor(AfterUnbindAll(s, order[..m]), n, if n in order && n !in order[..m] then 1 else 0)
    ensures AfterUnbindAll(s, order[..m]).handlers == s.handlers
  {
    if m > 0 {
      UnbindAllOwes(s, order, m - 1, n);
      assert order[..m][..m - 1] == order[..m - 1];
      UnbindPays(AfterUnbindAll(s, order[..m - 1]), order[m - 1], n, if n in order && n !in order[..m - 1] then 1 else 0);
    }
  }

  lemma ListenKeepsExact(s: State, id: SessionID, ns: string, h: Handler)
    requires Exact(s)
    ensures Exact(AfterListen(s, id, ns, h))
  {
    forall n ensures ExactFor(AfterListen(s, id, ns, h), n, 0) {
      assert ExactFor(s, n, 0);
      AddListener(s.handlers, id, ns, h, n);
    }
  }

  lemma UnlistenKeepsExact(s: State, id: SessionID, ns: string)
    requires Exact(s)
    ensures Exact(AfterUnlisten(s, id, ns))
  {
    if Listens(s.handlers, id, ns) {
      var removed := s.(handlers := s.handlers[id := s.handlers[id] - {ns}]);
      forall n ensures ExactFor(AfterUnlisten(s, id, ns), n, 0) {
        assert ExactFor(s, n, 0);
        RemoveListener(s.handlers, id, ns, n);
        UnbindPays(removed, ns, n, if n == ns then 1 else 0);
      }
    }
  }

  lemma UnlistenAllKeepsExact(s: State, id: SessionID, order: seq<string>)
    requires Exact(s) && IsOrder(order, HandlersOf(s.handlers, id).Keys)
    ensures Exact(AfterUnlistenAll(s, id, order))
  {
    forall n ensures ExactFor(AfterUnlistenAll(s, id, order), n, 0) {
      assert ExactFor(s, n, 0);
      RemoveSession(s.handlers, id, n);
      UnbindAllPays(s.(handlers := s.handlers - {id}), order, n);
    }
  }

  // On every run with a working broker, the count of each namespace is the number of
  // sessions that have a handler for it, and both its bindings exist exactly if that
  // number is positive.
  lemma {:induction false} AlwaysExact(ops: seq<Op>)
    requires After(ops).Some?
    ensures Exact(After(ops).value)
  {
    if |ops| > 0 {
      AlwaysExact(ops[..|ops| - 1]);
      var s := After(ops[..|ops| - 1]).value;
      match ops[|ops| - 1]
      case OpListen(id, ns, h) => ListenKeepsExact(s, id, ns, h);
      case OpUnlisten(id, ns) => UnlistenKeepsExact(s, id, ns);
      case OpUnlistenAll(id, order) => UnlistenAllKeepsExact(s, id, order);
    } else {
      forall ns ensures ExactFor(Initial, ns, 0) {
        assert Listeners(map[], ns) == {};
      }
    }
  }

  // No decrement on any run wraps: whenever a session that listens to a namespace
  // stops doing so, the count falls by exactly one.
  lemma NeverUnderflows(ops: seq<Op>, op: Op, ns: string)
    requires After(ops).Some? && Enabled(After(ops).value, op) && !op.OpListen?
    requires Listens(After(ops).value.handlers, op.id, ns) && (op.OpUnlisten? ==> op.ns == ns)
    ensures Count(Do(After(ops).value, op).namespaces, ns) == Count(After(ops).value.namespaces, ns) - 1
  {
    var s := After(ops).value;
    AlwaysExact(ops);
    assert ExactFor(s, ns, 0);
    match op
    case OpUnlisten(id, _) =>
      UnlistenKeepsExact(s, id, ns);
      RemoveListener(s.handlers, id, ns, ns);
      assert ExactFor(Do(s, op), ns, 0);
    case OpUnlistenAll(id, order) =>
      UnlistenAllKeepsExact(s, id, order);
      RemoveSession(s.handlers, id, ns);
      UnbindAllKeepsHandlers(s.(handlers := s.handlers - {id}), order);
      assert ExactFor(Do(s, op), ns, 0);
  }

  lemma {:induction false} UnbindAllKeepsHandlers(s: State, order: seq<string>)
    ensures AfterUnbindAll(s, order).handlers == s.handlers
  {
    if |order| > 0 {
      UnbindAllKeepsHandlers(s, order[..|order| - 1]);
    }
  }

  // ---- Handlers are the last ones set ----

  // The handler a session has for a namespace, from the operations alone.
  function HandlerAfter(ops: seq<Op>, id: SessionID, ns: string): Option<Handler> {
    if |ops| == 0 then None
    else
      match ops[|ops| - 1]
      case OpListen(i, n, h) => if i == id && n == ns then Some(h) else HandlerAfter(ops[..|ops| - 1], id, ns)
      case OpUnlisten(i, n) => if i == id && n == ns then None else HandlerAfter(ops[..|ops| - 1], id, ns)
      case OpUnlistenAll(i, _) => if i == id then None else HandlerAfter(ops[..|ops| - 1], id, ns)
  }

  lemma {:induction false} HandlersAreLatest(ops: seq<Op>, id: SessionID, ns: string)
    requires After(ops).Some?
    ensures var handlers := After(ops).value.handlers;
            HandlerAfter(ops, id, ns) == if Listens(handlers, id, ns) then Some(handlers[id][ns]) else None
  {
    if |ops| > 0 {
      HandlersAreLatest(ops[..|ops| - 1], id, ns);
      var s, op := After(ops[..|ops| - 1]).value, ops[|ops| - 1];
      if op.OpUnlistenAll? {
        UnbindAllKeepsHandlers(s.(handlers := s.handlers - {op.id}), op.order);
      }
    }
  }

  // A namespace is bound exactly if some session's last word on it was to listen.
  lemma BoundIff(ops: seq<Op>, ns: string)
    requires After(ops).Some?
    ensures Unicast(ns) in After(ops).value.bindings <==> exists id :: HandlerAfter(ops, id, ns).Some?
    ensures Multicast(ns) in After(ops).value.bindings <==> exists id :: HandlerAfter(ops, id, ns).Some?
  {
    AlwaysExact(ops);
    var s := After(ops).value;
    assert ExactFor(s, ns, 0);
    forall id ensures id in Listeners(s.handlers, ns) <==> HandlerAfter(ops, id, ns).Some? {
      HandlersAreLatest(ops, id, ns);
    }
    if |Listeners(s.handlers, ns)| > 0 {
      var id :| id in Listeners(s.handlers, ns);
      assert HandlerAfter(ops, id, ns).Some?;
    }
  }

  // ---- The listener as an object ----

  class Broker {
    var bindings: set<Binding>

    method QueueBind(b: Binding)
      modifies this
      ensures bindings == old(bindings) + {b}
    {
      bindings := bindings + {b};
    }

    method QueueUnbind(b: Binding)
      modifies this
      ensures bindings == old(bindings) - {b}
    {
      bindings := bindings - {b};
    }
  }

  class Listener {
    var namespaces: map<string, nat>
    var handlers: Handlers
    const channel: Broker

    constructor (channel: Broker)
      ensures this.channel == channel && namespaces == map[] && handlers == map[]
    {
      namespaces, handlers := map[], map[];
      this.channel := channel;
    }

    ghost function Model(): State
      reads this, channel
    {
      State(namespaces, handlers, channel.bindings)
    }

    method Bind(ns: string)
      modifies this`namespaces, channel
      ensures Model() == AfterBind(old(Model()), ns)
    {
      var count := Count(namespaces, ns);
      namespaces := namespaces[ns := count + 1];
      if count != 0 {
        return;
      }
      channel.QueueBind(Binding.Unicast(ns));
      channel.QueueBind(Binding.Multicast(ns));
    }

    method Unbind(ns: string)
      modifies this`namespaces, channel
      ensures Model() == AfterUnbind(old(Model()), ns)
    {
      var count := Dec(Count(namespaces, ns));
      namespaces := namespaces[ns := count];
      if count != 0 {
        return;
      }
      channel.QueueUnbind(Binding.Unicast(ns));
      channel.QueueUnbind(Binding.Multicast(ns));
    }

    method Listen(id: SessionID, ns: string, h: Handler) returns (added: bool)
      modifies this, channel
      ensures Model() == AfterListen(old(Model()), id, ns, h)
      ensures added <==> !old(Listens(handlers, id, ns))
      ensures old(Exact(Model())) ==> Exact(Model())
    {
      ListenKeepsExactIf(Model(), id, ns, h);
      var mine := if id in handlers then handlers[id] else map[];
      var known := ns in mine;
      handlers := handlers[id := mine[ns := h]];
      if known {
        return false;
      }
      Bind(ns);
      return true;
    }

    method Unlisten(id: SessionID, ns: string) returns (removed: bool)
      modifies this, channel
      ensures Model() == AfterUnlisten(old(Model()), id, ns)
      ensures removed <==> old(Listens(handlers, id, ns))
      ensures old(Exact(Model())) ==> Exact(Model())
    {
      UnlistenKeepsExactIf(Model(), id, ns);
      if id !in handlers {
        return false;
      }
      if ns !in handlers[id] {
        return false;
      }
      handlers := handlers[id := handlers[id] - {ns}];
      Unbind(ns);
      return true;
    }

    method UnlistenAll(id: SessionID) returns (ghost order: seq<string>)
      modifies this, channel
      ensures IsOrder(order, HandlersOf(old(handlers), id).Keys)
      ensures Model() == AfterUnlistenAll(old(Model()), id, order)
      ensures old(Exact(Model())) ==> Exact(Model())
    {
      ghost var before := Model();
      var remaining := (if id in handlers then handlers[id] else map[]).Keys;
      handlers := handlers - {id};
      ghost var removed := Model();
      order := [];
      while remaining != {}
        invariant forall k :: k in HandlersOf(before.handlers, id) <==> k in order || k in remaining
        invariant forall k | k in order :: k !in remaining
        invariant forall i, j | 0 <= i < j < |order| :: order[i] != order[j]
        invariant Model() == AfterUnbindAll(removed, order)
        decreases remaining
      {
        var ns :| ns in remaining;
        Unbind(ns);
        assert (order + [ns])[..|order|] == order;
        order := order + [ns];
        remaining := remaining - {ns};
      }
      if Exact(before) {
        UnlistenAllKeepsExact(before, id, order);
      }
    }
  }

  lemma ListenKeepsExactIf(s: State, id: SessionID, ns: string, h: Handler)
    ensures Exact(s) ==> Exact(AfterListen(s, id, ns, h))
  {
    if Exact(s) {
      ListenKeepsExact(s, id, ns, h);
    }
  }

  lemma UnlistenKeepsExactIf(s: State, id: SessionID, ns: string)
    ensures Exact(s) ==> Exact(AfterUnlisten(s, id, ns))
  {
    if Exact(s) {
      UnlistenKeepsExact(s, id, ns);
    }
  }
}

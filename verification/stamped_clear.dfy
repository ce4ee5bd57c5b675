/**
  The protocol with one change: when a peer absorbs the reply to its Clear, it moves
  UpdatedAt of the entries it blanks along with FetchedAt. Then no read at any revision
  returns a wrong value, on any run.
 */
module StampedClear {
  import opened Attributes
  import opened SessionState
  import opened History
  import opened SessionRuns
  import opened AttrCache
  import opened CacheTruth
  import opened SessionProtocol
  import opened SessionGuarantees

  function StampEntry(e: CachedAttr, rev: Revision): CachedAttr {
    if rev > e.fetchedAt then CachedAttr(VAttr(e.attr.attr.(value := ""), e.attr.createdAt, rev), rev) else e
  }

  function StampEntries(nc: NsCache, rev: Revision): NsCache {
    map k | k in nc :: StampEntry(nc[k], rev)
  }

  function FinishStamped(peer: Peer, call: Call): Peer
    requires IsServed(call)
  {
    if call.ClearServed? && call.cleared.Ok? then
      var c' := Observe(peer.cache, call.cleared);
      peer.(cache := SetNs(c', call.ns, StampEntries(NsIn(c', call.ns), call.cleared.value)))
    else FinishCall(peer, call)
  }

  function DoStamped(s: System, ev: Event): System
    requires Enabled(s, ev)
  {
    match ev
    case Finish(p, id) =>
      var peer := FinishStamped(s.peers[p], s.peers[p].calls[id]);
      s.(peers := s.peers[p := peer.(calls := peer.calls - {id})])
    case _ => Do(s, ev)
  }

  ghost function AfterStamped(events: seq<Event>): Option<System> {
    if |events| == 0 then Some(Initially)
    else
      match AfterStamped(events[..|events| - 1])
      case None => None
      case Some(s) =>
        var ev := events[|events| - 1];
        if Enabled(s, ev) then Some(DoStamped(s, ev)) else None
  }

  // ---- The invariant: values are constant on [UpdatedAt, FetchedAt] ----

  ghost predicate ValueConstant(h: Versions, ns: string, k: string, e: CachedAttr) {
    && e.attr.attr.key == k
    && e.attr.createdAt <= Head(h)
    && e.attr.updatedAt <= e.fetchedAt <= Head(h)
    && NeverBefore(h, e.attr.createdAt, ns, k)
    && (forall r | e.attr.updatedAt <= r <= e.fetchedAt :: AttrAt(h[r], ns, k).value == e.attr.attr.value)
    && (e.attr.attr.isFrozen ==> ConstantOn(h, e.attr.updatedAt, e.fetchedAt, ns, e.attr.attr))
  }

  ghost predicate NsConstant(h: Versions, ns: string, nc: NsCache) {
    forall k | k in nc :: ValueConstant(h, ns, k, nc[k])
  }

  ghost predicate CacheConstant(h: Versions, c: Cache) {
    c.highestRev <= Head(h) && forall ns | ns in c.entries :: NsConstant(h, ns, c.entries[ns])
  }

  // What is known of a call, where only values are vouched for in what a fetch has found
  // in the cache: the same as if the peer had cleared the namespace at that revision.
  ghost predicate CallConstant(h: Versions, isDestroyed: bool, call: Call) {
    CallTrue(h, isDestroyed, ValuesOnly(call), call)
  }

  function ValuesOnly(call: Call): map<string, set<Revision>> {
    if call.FetchSent? || call.FetchServed? then map[call.ns := {call.rev}] else map[]
  }

  ghost predicate PeerConstant(h: Versions, isDestroyed: bool, peer: Peer) {
    && CacheConstant(h, peer.cache)
    && (peer.cache.isClosed ==> isDestroyed)
    && forall id | id in peer.calls :: CallConstant(h, isDestroyed, peer.calls[id])
  }

  ghost predicate SystemConstant(s: System) {
    && TraceValid(s.owner)
    && (s.isRemoved ==> s.owner.state.isDestroyed)
    && forall p | p in s.peers :: PeerConstant(s.owner.versions, s.owner.state.isDestroyed, s.peers[p])
  }

  // ---- The future does not change any of this ----

  lemma CacheConstantLater(h: Versions, h': Versions, c: Cache)
    requires Extends(h, h') && CacheConstant(h, c)
    ensures CacheConstant(h', c)
  {
    forall r | 0 <= r < |h| ensures h'[r] == h[r] {
      ExtendsAt(h, h', r);
    }
    forall ns, k | ns in c.entries && k in c.entries[ns] ensures ValueConstant(h', ns, k, c.entries[ns][k]) {
      assert NsConstant(h, ns, c.entries[ns]);
      assert ValueConstant(h, ns, k, c.entries[ns][k]);
    }
  }

  lemma OwnerMoves(s: System, op: Op)
    requires SystemConstant(s) && InRange(s.owner.state)
    ensures SystemConstant(s.(owner := Step(s.owner, op)))
  {
    StepKeepsTrace(s.owner, op);
    var h, h' := s.owner.versions, Step(s.owner, op).versions;
    var d, d' := s.owner.state.isDestroyed, Step(s.owner, op).state.isDestroyed;
    forall p | p in s.peers ensures PeerConstant(h', d', s.peers[p]) {
      var peer := s.peers[p];
      CacheConstantLater(h, h', peer.cache);
      forall id | id in peer.calls ensures CallConstant(h', d', peer.calls[id]) {
        CallTrueLater(h, h', d, d', ValuesOnly(peer.calls[id]), ValuesOnly(peer.calls[id]), peer.calls[id]);
      }
    }
  }

  // ---- Reading ----

  lemma ConsultConstant(h: Versions, ns: string, nc: NsCache, rev: Revision, k: string)
    requires ValidHistory(h) && rev < |h|
    requires k in nc ==> ValueConstant(h, ns, k, nc[k])
    ensures AnswerTrue(h, false, rev, ns, k, Consult(nc, rev, k))
  {
    CatalogsKeyed(h, rev, ns);
    if k in nc && nc[k].attr.attr.isFrozen && nc[k].fetchedAt <= rev {
      assert AttrAt(h[nc[k].fetchedAt], ns, nc[k].attr.attr.key) == nc[k].attr.attr;
      FrozenForever(h, nc[k].fetchedAt, rev, ns, k);
    }
  }

  lemma LocalAnswersTrue(h: Versions, c: Cache, rev: Revision, ns: string, keys: seq<string>)
    requires ValidHistory(h) && rev < |h| && CacheConstant(h, c)
    requires FetchLocal(c, rev, ns, keys).Ok?
    ensures var l := FetchLocal(c, rev, ns, keys).value;
            && (forall k | k in l.unsolved :: k in keys)
            && ReadTrue(h, false, rev, ns, (set k | k in keys && k !in l.unsolved), l.solved)
  {
    var nc := NsIn(c, ns);
    forall k | k in keys ensures AnswerTrue(h, false, rev, ns, k, Consult(nc, rev, k)) {
      assert ns in c.entries ==> NsConstant(h, ns, c.entries[ns]);
      ConsultConstant(h, ns, nc, rev, k);
    }
    ConsultAllMembers(nc, rev, keys);
    AnswersTrue(h, false, ns, nc, rev, keys, ConsultAll(nc, rev, keys).value);
  }

  // ---- Absorbing replies ----

  lemma SetNsConstant(h: Versions, c: Cache, ns: string, nc: NsCache)
    requires CacheConstant(h, c) && NsConstant(h, ns, nc)
    ensures CacheConstant(h, SetNs(c, ns, nc))
  {
  }

  lemma {:induction false} StoreAllConstant(h: Versions, ns: string, nc: NsCache, attrs: seq<VAttr>, f: Revision)
    requires NsConstant(h, ns, nc) && FetchedTrue(h, ns, attrs, f)
    ensures NsConstant(h, ns, StoreAll(nc, attrs, f))
  {
    if |attrs| > 0 {
      var m := |attrs| - 1;
      StoreAllConstant(h, ns, nc, attrs[..m], f);
      assert attrs[m] in attrs;
    }
  }

  lemma StoreKeepsConstant(h: Versions, c: Cache, ns: string, f: Fetched)
    requires CacheConstant(h, c) && FetchedTrue(h, ns, f.attrs, f.rev)
    ensures CacheConstant(h, SetNs(Observe(c, Ok(f.rev)), ns, StoreAll(NsIn(c, ns), f.attrs, f.rev)))
  {
    StoreAllConstant(h, ns, NsIn(c, ns), f.attrs, f.rev);
    SetNsConstant(h, Observe(c, Ok(f.rev)), ns, StoreAll(NsIn(c, ns), f.attrs, f.rev));
  }

  // A blanked entry speaks of no revision before the Clear any more. One that is frozen
  // was empty already.
  lemma StampKeepsConstant(h: Versions, ns: string, nc: NsCache, u: Revision)
    requires ValidHistory(h) && 0 < u <= Head(h) && ClearedAt(h, u, ns) && NsConstant(h, ns, nc)
    ensures NsConstant(h, ns, StampEntries(nc, u))
  {
    forall k | k in nc ensures ValueConstant(h, ns, k, StampEntry(nc[k], u)) {
      var e := nc[k];
      assert ValueConstant(h, ns, k, e);
      assert AttrAt(h[u], ns, k).value == "";
      if u > e.fetchedAt && e.attr.attr.isFrozen {
        assert AttrAt(h[e.fetchedAt], ns, e.attr.attr.key) == e.attr.attr;
        FrozenForever(h, e.fetchedAt, u, ns, k);
      }
    }
  }

  lemma FinishKeepsCache(h: Versions, d: bool, peer: Peer, call: Call)
    requires ValidHistory(h) && PeerConstant(h, d, peer)
    requires IsServed(call) && CallConstant(h, d, call)
    ensures CacheConstant(h, FinishStamped(peer, call).cache)
  {
    match call
    case FetchServed(rev, ns, keys, l, reply) =>
      if reply.Ok? {
        SelectTrue(h, reply.value.rev, ns, l.unsolved);
        StoreKeepsConstant(h, peer.cache, ns, reply.value);
      }
    case UpdateServed(rev, ns, attrs, reply) =>
      if reply.Ok? {
        StoreKeepsConstant(h, peer.cache, ns, reply.value);
      }
    case ClearServed(rev, ns, reply) =>
      if reply.Ok? {
        var c' := Observe(peer.cache, reply);
        StampKeepsConstant(h, ns, NsIn(c', ns), reply.value);
        SetNsConstant(h, c', ns, StampEntries(NsIn(c', ns), reply.value));
      }
    case HeadServed(reply) =>
    case DestroyServed(reply) =>
  }

  lemma FinishKeepsRest(h: Versions, d: bool, peer: Peer, call: Call)
    requires IsServed(call) && CallConstant(h, d, call) && (peer.cache.isClosed ==> d)
    ensures FinishStamped(peer, call).cache.isClosed ==> d
    ensures FinishStamped(peer, call).calls == peer.calls
  {
  }

  // ---- Steps ----

  lemma SetPeerConstant(s: System, p: nat, peer: Peer)
    requires SystemConstant(s) && PeerConstant(s.owner.versions, s.owner.state.isDestroyed, peer)
    ensures SystemConstant(s.(peers := s.peers[p := peer]))
  {
  }

  lemma SetCallConstant(s: System, p: nat, id: nat, call: Call)
    requires SystemConstant(s) && p in s.peers && CallConstant(s.owner.versions, s.owner.state.isDestroyed, call)
    ensures SystemConstant(SetCall(s, p, id, call))
  {
    SetPeerConstant(s, p, s.peers[p].(calls := s.peers[p].calls[id := call]));
  }

  // The owner's part does not depend on the peers.
  lemma ServeUpdateConstant(s: System, rev: Revision, ns: string, attrs: seq<Attr>)
    requires SystemConstant(s) && InRange(s.owner.state) && DistinctKeys(attrs)
    ensures var (owner, call) := ServeUpdate(s, rev, ns, attrs);
            SystemConstant(s.(owner := owner)) && CallConstant(owner.versions, owner.state.isDestroyed, call)
  {
    ServeUpdateTrue(System(s.owner, s.isRemoved, map[]), map[], rev, ns, attrs);
    OwnerMoves(s, Update(rev, ns, attrs));
  }

  lemma ServeClearConstant(s: System, rev: Revision, ns: string)
    requires SystemConstant(s) && InRange(s.owner.state)
    ensures var (owner, call) := ServeClear(s, rev, ns);
            SystemConstant(s.(owner := owner)) && CallConstant(owner.versions, owner.state.isDestroyed, call)
  {
    ServeClearTrue(System(s.owner, s.isRemoved, map[]), map[], rev, ns);
    OwnerMoves(s, Clear(rev, ns));
  }

  lemma ServeDestroyConstant(s: System, rev: Revision)
    requires SystemConstant(s) && InRange(s.owner.state)
    ensures var (owner, call) := ServeDestroy(s, rev);
            SystemConstant(s.(owner := owner)) && CallConstant(owner.versions, owner.state.isDestroyed, call)
  {
    ServeDestroyTrue(System(s.owner, s.isRemoved, map[]), map[], rev);
    OwnerMoves(s, TryDestroyAt(rev));
  }

  lemma ServeConstant(s: System, p: nat, id: nat)
    requires SystemConstant(s) && Enabled(s, Serve(p, id))
    ensures var (owner, call) := ServeCall(s, s.peers[p].calls[id]);
            && SystemConstant(s.(owner := owner))
            && CallConstant(owner.versions, owner.state.isDestroyed, call)
  {
    var call := s.peers[p].calls[id];
    assert CallConstant(s.owner.versions, s.owner.state.isDestroyed, call);
    match call
    case FetchSent(rev, ns, keys, l) =>
    case HeadSent =>
    case UpdateSent(rev, ns, attrs) => ServeUpdateConstant(s, rev, ns, attrs);
    case ClearSent(rev, ns) => ServeClearConstant(s, rev, ns);
    case DestroySent(rev) => ServeDestroyConstant(s, rev);
  }

  lemma BeginKeepsConstant(s: System, ev: Event)
    requires SystemConstant(s) && Enabled(s, ev)
    requires ev.BeginFetch? || ev.BeginHead? || ev.BeginUpdate? || ev.BeginClear? || ev.BeginDestroy?
    ensures SystemConstant(Do(s, ev))
  {
    match ev
    case BeginFetch(p, id, rev, ns, keys) =>
      LocalAnswersTrue(s.owner.versions, s.peers[p].cache, rev, ns, keys);
      SetCallConstant(s, p, id, FetchSent(rev, ns, keys, FetchLocal(s.peers[p].cache, rev, ns, keys).value));
    case BeginHead(p, id) => SetCallConstant(s, p, id, HeadSent);
    case BeginUpdate(p, id, rev, ns, attrs) =>
      FilterDistinct(NsIn(s.peers[p].cache, ns), rev, attrs);
      SetCallConstant(s, p, id, UpdateSent(rev, ns, StartUpdate(s.peers[p].cache, rev, ns, attrs).value));
    case BeginClear(p, id, rev, ns) => SetCallConstant(s, p, id, ClearSent(rev, ns));
    case BeginDestroy(p, id, rev) => SetCallConstant(s, p, id, DestroySent(rev));
  }

  lemma ReadCreatedKeepsConstant(s: System, p: nat, id: nat)
    requires SystemConstant(s) && Enabled(s, ReadCreated(p, id))
    ensures SystemConstant(Do(s, ReadCreated(p, id)))
  {
    var h, call := s.owner.versions, s.peers[p].calls[id];
    assert CallConstant(h, s.owner.state.isDestroyed, call);
    StampedTrue(h, call.newRev, Head(h), call.ns, call.attrs);
    var created := CreatedRevs(TableIn(s.owner.state.attrs, call.ns), call.attrs);
    assert StampedFrom(h, call.newRev, Head(h), call.ns, call.attrs, Stamped(call.attrs, Updated(call.newRev, created)));
    SetCallConstant(s, p, id, UpdateServed(call.rev, call.ns, call.attrs, Ok(Fetched(call.newRev, Stamped(call.attrs, Updated(call.newRev, created))))));
  }

  lemma FinishKeepsConstant(s: System, p: nat, id: nat)
    requires SystemConstant(s) && Enabled(s, Finish(p, id))
    ensures SystemConstant(DoStamped(s, Finish(p, id)))
  {
    var peer := FinishStamped(s.peers[p], s.peers[p].calls[id]);
    var h, d := s.owner.versions, s.owner.state.isDestroyed;
    assert PeerConstant(h, d, s.peers[p]);
    FinishKeepsCache(h, d, s.peers[p], s.peers[p].calls[id]);
    FinishKeepsRest(h, d, s.peers[p], s.peers[p].calls[id]);
    SetPeerConstant(s, p, peer.(calls := peer.calls - {id}));
  }

  lemma DoKeepsConstant(s: System, ev: Event)
    requires SystemConstant(s) && Enabled(s, ev)
    ensures SystemConstant(DoStamped(s, ev))
  {
    match ev
    case OwnerDoes(op) => OwnerMoves(s, op);
    case RemoveSession =>
    case Join(p) => SetPeerConstant(s, p, Peer(EmptyCache, map[], map[]));
    case See(p, rev) => SetPeerConstant(s, p, s.peers[p].(cache := SeeRevision(s.peers[p].cache, rev)));
    case Serve(p, id) =>
      ServeConstant(s, p, id);
      var (owner, call) := ServeCall(s, s.peers[p].calls[id]);
      SetCallConstant(s.(owner := owner), p, id, call);
    case ReadCreated(p, id) => ReadCreatedKeepsConstant(s, p, id);
    case Finish(p, id) => FinishKeepsConstant(s, p, id);
    case Lose(p, id) => SetPeerConstant(s, p, s.peers[p].(calls := s.peers[p].calls - {id}));
    case _ => BeginKeepsConstant(s, ev);
  }

  lemma {:induction false} AlwaysConstant(events: seq<Event>)
    requires AfterStamped(events).Some?
    ensures SystemConstant(AfterStamped(events).value)
  {
    if |events| > 0 {
      AlwaysConstant(events[..|events| - 1]);
      DoKeepsConstant(AfterStamped(events[..|events| - 1]).value, events[|events| - 1]);
    }
  }

  // On every run with stamped Clears, whatever a Fetch returns has the owner's values at
  // the revision asked for - any revision, below a Clear or above it.
  lemma {:induction false} EveryReadHasTrueValues(events: seq<Event>, p: nat, rev: Revision, ns: string, keys: seq<string>, attrs: seq<Attr>)
    requires AfterStamped(events).Some?
    requires FetchReturns(AfterStamped(events).value, p, rev, ns, keys, attrs)
    ensures ReadTrue(AfterStamped(events).value.owner.versions, false, rev, ns, (set k | k in keys), attrs)
  {
    AlwaysConstant(events);
    var s := AfterStamped(events).value;
    var h, peer := s.owner.versions, s.peers[p];
    if FetchLocal(peer.cache, rev, ns, keys) == Ok(Local(attrs, [])) {
      LocalAnswersTrue(h, peer.cache, rev, ns, keys);
      assert (set k | k in keys && k !in Local(attrs, []).unsolved) == (set k | k in keys);
    } else {
      var id, l, reply :| InCall(s, p, id) && peer.calls[id] == FetchServed(rev, ns, keys, l, reply)
                          && FinishFetch(peer.cache, rev, ns, l.solved, reply).result == Ok(attrs);
      assert CallConstant(h, s.owner.state.isDestroyed, peer.calls[id]);
      JoinedTrue(h, false, rev, reply.value.rev, ns, keys, l);
    }
  }
}

/**
  The owner of a session and any number of remote peers that cache its
  attributes. A remote call is split where the source holds no lock: it is sent,
  the owner acts on it, and its reply is absorbed, all at different times and in
  any order relative to other calls. Replies and requests may be lost.
 */
module SessionProtocol {
  import opened Attributes
  import opened SessionState
  import opened History
  import opened SessionRuns
  import opened AttrCache
  import opened CacheTruth

  datatype Call =
    | FetchSent(rev: Revision, ns: string, keys: seq<string>, local: Local)
    | FetchServed(rev: Revision, ns: string, keys: seq<string>, local: Local, fetched: Result<Fetched, Error>)
    | HeadSent
    | HeadServed(head: Result<Revision, Error>)
    | UpdateSent(rev: Revision, ns: string, attrs: seq<Attr>)
      // The owner has committed the update but not yet read the CreatedAt stamps.
    | UpdateCommitted(rev: Revision, ns: string, attrs: seq<Attr>, newRev: Revision)
    | UpdateServed(rev: Revision, ns: string, attrs: seq<Attr>, updated: Result<Fetched, Error>)
    | ClearSent(rev: Revision, ns: string)
    | ClearServed(rev: Revision, ns: string, cleared: Result<Revision, Error>)
    | DestroySent(rev: Revision)
    | DestroyServed(destroyed: Result<(), Error>)

  // clears records the revisions that this peer's completed Clears produced.
  datatype Peer = Peer(cache: Cache, clears: map<string, set<Revision>>, calls: map<nat, Call>)

  // isRemoved says that the owner's peer has dropped the session from its store,
  // which it does some time after the session is destroyed.
  datatype System = System(owner: Trace, isRemoved: bool, peers: map<nat, Peer>)

  const Initially := System(Start, false, map[])

  datatype Event =
    | OwnerDoes(op: Op)
    | RemoveSession
    | Join(p: nat)
    | See(p: nat, rev: Revision)
    | BeginFetch(p: nat, id: nat, rev: Revision, ns: string, keys: seq<string>)
    | BeginHead(p: nat, id: nat)
    | BeginUpdate(p: nat, id: nat, rev: Revision, ns: string, attrs: seq<Attr>)
    | BeginClear(p: nat, id: nat, rev: Revision, ns: string)
    | BeginDestroy(p: nat, id: nat, rev: Revision)
    | Serve(p: nat, id: nat)
    | ReadCreated(p: nat, id: nat)
    | Finish(p: nat, id: nat)
    | Lose(p: nat, id: nat)

  predicate IsSent(call: Call) {
    call.FetchSent? || call.HeadSent? || call.UpdateSent? || call.ClearSent? || call.DestroySent?
  }

  predicate IsServed(call: Call) {
    call.FetchServed? || call.HeadServed? || call.UpdateServed? || call.ClearServed? || call.DestroyServed?
  }

  predicate Free(s: System, p: nat, id: nat) {
    p in s.peers && id !in s.peers[p].calls
  }

  predicate InCall(s: System, p: nat, id: nat) {
    p in s.peers && id in s.peers[p].calls
  }

  // Revision numbers that remote peers hold were issued by the owner, and the
  // keys of one Update call are distinct. A Begin event is one that does contact
  // the owner; calls answered from the cache alone change nothing.
  ghost predicate Enabled(s: System, ev: Event) {
    && InRange(s.owner.state)
    && match ev
       case OwnerDoes(_) => true
       case RemoveSession => s.owner.state.isDestroyed
       case Join(p) => p !in s.peers
       case See(p, rev) => p in s.peers && rev <= s.owner.state.rev
       case BeginFetch(p, id, rev, ns, keys) =>
         && Free(s, p, id) && rev <= s.owner.state.rev
         && FetchLocal(s.peers[p].cache, rev, ns, keys).Ok?
         && FetchLocal(s.peers[p].cache, rev, ns, keys).value.unsolved != []
       case BeginHead(p, id) => Free(s, p, id) && StartHead(s.peers[p].cache) == None
       case BeginUpdate(p, id, rev, ns, attrs) =>
         && Free(s, p, id) && rev <= s.owner.state.rev && DistinctKeys(attrs)
         && StartUpdate(s.peers[p].cache, rev, ns, attrs).Ok?
       case BeginClear(p, id, rev, ns) =>
         Free(s, p, id) && rev <= s.owner.state.rev && StartClear(s.peers[p].cache, rev, ns) == None
       case BeginDestroy(p, id, rev) =>
         Free(s, p, id) && rev <= s.owner.state.rev && StartDestroy(s.peers[p].cache, rev) == None
       case Serve(p, id) => InCall(s, p, id) && IsSent(s.peers[p].calls[id])
       case ReadCreated(p, id) => InCall(s, p, id) && s.peers[p].calls[id].UpdateCommitted?
       case Finish(p, id) => InCall(s, p, id) && IsServed(s.peers[p].calls[id])
       case Lose(p, id) => InCall(s, p, id)
  }

  function SetCall(s: System, p: nat, id: nat, call: Call): System
    requires p in s.peers
  {
    s.(peers := s.peers[p := s.peers[p].(calls := s.peers[p].calls[id := call])])
  }

  // What the owner's handlers do with a request.
  function ServeUpdate(s: System, rev: Revision, ns: string, attrs: seq<Attr>): (Trace, Call) {
    if s.isRemoved then (s.owner, UpdateServed(rev, ns, attrs, Err(NotFound)))
    else
      match TryUpdate(s.owner.state, rev, ns, attrs).result
      case Err(e) => (s.owner, UpdateServed(rev, ns, attrs, Err(e)))
      case Ok(diff) => (Step(s.owner, Update(rev, ns, attrs)), UpdateCommitted(rev, ns, attrs, diff.rev))
  }

  function ServeClear(s: System, rev: Revision, ns: string): (Trace, Call) {
    if s.isRemoved then (s.owner, ClearServed(rev, ns, Err(NotFound)))
    else
      match TryClear(s.owner.state, rev, ns).result
      case Err(e) => (s.owner, ClearServed(rev, ns, Err(e)))
      case Ok(newRev) => (Step(s.owner, Clear(rev, ns)), ClearServed(rev, ns, Ok(newRev)))
  }

  function ServeDestroy(s: System, rev: Revision): (Trace, Call) {
    if s.isRemoved then (s.owner, DestroyServed(Err(NotFound)))
    else
      match TryDestroy(s.owner.state, rev).result
      case Err(e) => (s.owner, DestroyServed(Err(e)))
      case Ok(_) => (Step(s.owner, TryDestroyAt(rev)), DestroyServed(Ok(())))
  }

  function ServeCall(s: System, call: Call): (Trace, Call)
    requires IsSent(call)
  {
    var head := s.owner.state.rev;
    match call
    case FetchSent(rev, ns, keys, l) =>
      (s.owner,
       FetchServed(rev, ns, keys, l,
       if s.isRemoved then Err(NotFound)
       else Ok(Fetched(head, Select(TableIn(s.owner.state.attrs, ns), l.unsolved)))))
    case HeadSent => (s.owner, HeadServed(if s.isRemoved then Err(NotFound) else Ok(head)))
    case UpdateSent(rev, ns, attrs) => ServeUpdate(s, rev, ns, attrs)
    case ClearSent(rev, ns) => ServeClear(s, rev, ns)
    case DestroySent(rev) => ServeDestroy(s, rev)
  }

  function FinishCall(peer: Peer, call: Call): Peer
    requires IsServed(call)
  {
    match call
    case FetchServed(rev, ns, keys, l, reply) => peer.(cache := FinishFetch(peer.cache, rev, ns, l.solved, reply).next)
    case HeadServed(reply) => peer.(cache := FinishHead(peer.cache, reply).next)
    case UpdateServed(rev, ns, attrs, reply) => peer.(cache := FinishUpdate(peer.cache, ns, reply).next)
    case ClearServed(rev, ns, reply) =>
      var cleared := peer.(cache := FinishClear(peer.cache, ns, reply).next);
      if reply.Err? then cleared
      else cleared.(clears := peer.clears[ns := (if ns in peer.clears then peer.clears[ns] else {}) + {reply.value}])
    case DestroyServed(reply) => peer.(cache := FinishDestroy(peer.cache, reply).next)
  }

  function Do(s: System, ev: Event): System
    requires Enabled(s, ev)
  {
    match ev
    case OwnerDoes(op) => s.(owner := Step(s.owner, op))
    case RemoveSession => s.(isRemoved := true)
    case Join(p) => s.(peers := s.peers[p := Peer(EmptyCache, map[], map[])])
    case See(p, rev) => s.(peers := s.peers[p := s.peers[p].(cache := SeeRevision(s.peers[p].cache, rev))])
    case BeginFetch(p, id, rev, ns, keys) =>
      SetCall(s, p, id, FetchSent(rev, ns, keys, FetchLocal(s.peers[p].cache, rev, ns, keys).value))
    case BeginHead(p, id) => SetCall(s, p, id, HeadSent)
    case BeginUpdate(p, id, rev, ns, attrs) =>
      SetCall(s, p, id, UpdateSent(rev, ns, StartUpdate(s.peers[p].cache, rev, ns, attrs).value))
    case BeginClear(p, id, rev, ns) => SetCall(s, p, id, ClearSent(rev, ns))
    case BeginDestroy(p, id, rev) => SetCall(s, p, id, DestroySent(rev))
    case Serve(p, id) =>
      var (owner, call) := ServeCall(s, s.peers[p].calls[id]);
      SetCall(s.(owner := owner), p, id, call)
    case ReadCreated(p, id) =>
      var call := s.peers[p].calls[id];
      var created := CreatedRevs(TableIn(s.owner.state.attrs, call.ns), call.attrs);
      SetCall(s, p, id, UpdateServed(call.rev, call.ns, call.attrs, Ok(Fetched(call.newRev, Stamped(call.attrs, Updated(call.newRev, created))))))
    case Finish(p, id) =>
      var peer := FinishCall(s.peers[p], s.peers[p].calls[id]);
      s.(peers := s.peers[p := peer.(calls := peer.calls - {id})])
    case Lose(p, id) =>
      s.(peers := s.peers[p := s.peers[p].(calls := s.peers[p].calls - {id})])
  }

  // The system after a sequence of events; None if one of them could not happen.
  ghost function After(events: seq<Event>): Option<System> {
    if |events| == 0 then Some(Initially)
    else
      match After(events[..|events| - 1])
      case None => None
      case Some(s) =>
        var ev := events[|events| - 1];
        if Enabled(s, ev) then Some(Do(s, ev)) else None
  }

  // ---- The invariant ----

  // The attributes sent with an update that made revision u, stamped by way of the table
  // of a revision q that is at least as late.
  ghost predicate StampedFrom(h: Versions, u: Revision, q: nat, ns: string, attrs: seq<Attr>, stamped: seq<VAttr>) {
    u <= q < |h| && stamped == Stamped(attrs, Updated(u, CreatedRevs(TableAt(h, q, ns), attrs)))
  }

  ghost predicate CallTrue(h: Versions, isDestroyed: bool, clears: map<string, set<Revision>>, call: Call) {
    match call
    case FetchSent(rev, ns, keys, l) =>
      && rev <= Head(h)
      && (forall k | k in l.unsolved :: k in keys)
      && ReadSound(h, Clears(clears, ns), rev, ns, (set k | k in keys && k !in l.unsolved), l.solved)
    case FetchServed(rev, ns, keys, l, reply) =>
      && rev <= Head(h)
      && (forall k | k in l.unsolved :: k in keys)
      && ReadSound(h, Clears(clears, ns), rev, ns, (set k | k in keys && k !in l.unsolved), l.solved)
      && (reply == Err(NotFound) ==> isDestroyed)
      && (reply.Ok? ==>
            && rev <= reply.value.rev <= Head(h)
            && reply.value.attrs == Select(TableAt(h, reply.value.rev, ns), l.unsolved))
    case HeadSent => true
    case HeadServed(reply) =>
      (reply.Ok? ==> reply.value <= Head(h)) && (reply == Err(NotFound) ==> isDestroyed)
    case UpdateSent(rev, ns, attrs) => DistinctKeys(attrs)
    case UpdateCommitted(rev, ns, attrs, u) =>
      && DistinctKeys(attrs)
      && rev + 1 == u <= Head(h)
      && CommittedAt(h, rev, ns, attrs)
      && forall i | 0 <= i < |attrs| :: AttrAt(h[u], ns, attrs[i].key) == attrs[i]
    case UpdateServed(rev, ns, attrs, reply) =>
      && (reply.Ok? ==>
            && DistinctKeys(attrs)
            && rev + 1 == reply.value.rev <= Head(h)
            && CommittedAt(h, rev, ns, attrs)
            && FetchedTrue(h, ns, reply.value.attrs, reply.value.rev)
            && exists q :: StampedFrom(h, reply.value.rev, q, ns, attrs, reply.value.attrs))
      && (reply == Err(NotFound) ==> isDestroyed)
    case ClearSent(rev, ns) => true
    case ClearServed(rev, ns, reply) =>
      && (reply.Ok? ==> rev + 1 == reply.value <= Head(h) && ClearedAt(h, reply.value, ns))
      && (reply == Err(NotFound) ==> isDestroyed)
    case DestroySent(rev) => true
    case DestroyServed(reply) => reply.Ok? ==> isDestroyed
  }

  ghost predicate ClearsTrue(h: Versions, clears: map<string, set<Revision>>) {
    forall ns, u | ns in clears && u in clears[ns] :: 0 < u <= Head(h) && ClearedAt(h, u, ns)
  }

  ghost predicate PeerTrue(h: Versions, isDestroyed: bool, peer: Peer) {
    && CacheTrue(h, peer.clears, peer.cache)
    && ClearsTrue(h, peer.clears)
    && (peer.cache.isClosed ==> isDestroyed)
    && forall id | id in peer.calls :: CallTrue(h, isDestroyed, peer.clears, peer.calls[id])
  }

  ghost predicate SystemTrue(s: System) {
    && TraceValid(s.owner)
    && (s.isRemoved ==> s.owner.state.isDestroyed)
    && forall p | p in s.peers :: PeerTrue(s.owner.versions, s.owner.state.isDestroyed, s.peers[p])
  }

  // ---- Steps of the owner ----

  lemma CallTrueLater(h: Versions, h': Versions, d: bool, d': bool, clears: map<string, set<Revision>>, clears': map<string, set<Revision>>,
                      call: Call)
    requires Extends(h, h') && (d ==> d')
    requires forall ns :: Clears(clears, ns) <= Clears(clears', ns)
    requires CallTrue(h, d, clears, call)
    ensures CallTrue(h', d', clears', call)
  {
    forall r | 0 <= r < |h| ensures h'[r] == h[r] {
      ExtendsAt(h, h', r);
    }
    match call
    case FetchSent(rev, ns, keys, l) =>
      ReadSoundLater(h, h', Clears(clears, ns), Clears(clears', ns), rev, ns, (set k | k in keys && k !in l.unsolved), l.solved);
    case FetchServed(rev, ns, keys, l, reply) =>
      ReadSoundLater(h, h', Clears(clears, ns), Clears(clears', ns), rev, ns, (set k | k in keys && k !in l.unsolved), l.solved);
    case UpdateServed(rev, ns, attrs, reply) =>
      if reply.Ok? {
        FetchedTrueLater(h, h', ns, reply.value.attrs, reply.value.rev);
        var q :| StampedFrom(h, reply.value.rev, q, ns, attrs, reply.value.attrs);
        assert StampedFrom(h', reply.value.rev, q, ns, attrs, reply.value.attrs);
      }
    case _ =>
  }

  lemma PeerTrueLater(h: Versions, h': Versions, d: bool, d': bool, peer: Peer)
    requires Extends(h, h') && (d ==> d')
    requires PeerTrue(h, d, peer)
    ensures PeerTrue(h', d', peer)
  {
    CacheTrueLater(h, h', peer.clears, peer.cache);
    forall r | 0 <= r < |h| ensures h'[r] == h[r] {
      ExtendsAt(h, h', r);
    }
    forall id | id in peer.calls ensures CallTrue(h', d', peer.clears, peer.calls[id]) {
      CallTrueLater(h, h', d, d', peer.clears, peer.clears, peer.calls[id]);
    }
  }

  lemma OwnerStep(s: System, op: Op)
    requires SystemTrue(s) && InRange(s.owner.state)
    ensures SystemTrue(s.(owner := Step(s.owner, op)))
    ensures Extends(s.owner.versions, Step(s.owner, op).versions)
    ensures s.owner.state.isDestroyed ==> Step(s.owner, op).state.isDestroyed
  {
    StepKeepsTrace(s.owner, op);
    var owner' := Step(s.owner, op);
    forall p | p in s.peers ensures PeerTrue(owner'.versions, owner'.state.isDestroyed, s.peers[p]) {
      PeerTrueLater(s.owner.versions, owner'.versions, s.owner.state.isDestroyed, owner'.state.isDestroyed, s.peers[p]);
    }
  }

  lemma {:induction false} CurrentDistinct(t: Table, attrs: seq<Attr>, n: nat, i: nat)
    requires DistinctKeys(attrs) && i < n <= |attrs|
    ensures Current(t, attrs, n, attrs[i].key) == attrs[i]
  {
    if i < n - 1 {
      CurrentDistinct(t, attrs, n - 1, i);
    }
  }

  lemma ServeUpdateTrue(s: System, clears: map<string, set<Revision>>, rev: Revision, ns: string, attrs: seq<Attr>)
    requires SystemTrue(s) && InRange(s.owner.state) && DistinctKeys(attrs)
    ensures var (owner, call) := ServeUpdate(s, rev, ns, attrs);
            && SystemTrue(s.(owner := owner))
            && CallTrue(owner.versions, owner.state.isDestroyed, clears, call)
  {
    var st := s.owner.state;
    TraceKeyed(s.owner);
    if !s.isRemoved && TryUpdate(st, rev, ns, attrs).result.Ok? {
      OwnerStep(s, Update(rev, ns, attrs));
      TryUpdateEvolves(st, rev, ns, attrs);
      forall i | 0 <= i < |attrs|
        ensures AttrAt(TryUpdate(st, rev, ns, attrs).next.attrs, ns, attrs[i].key) == attrs[i]
      {
        CurrentDistinct(TableIn(st.attrs, ns), attrs, |attrs|, i);
      }
    }
  }

  lemma ServeClearTrue(s: System, clears: map<string, set<Revision>>, rev: Revision, ns: string)
    requires SystemTrue(s) && InRange(s.owner.state)
    ensures var (owner, call) := ServeClear(s, rev, ns);
            && SystemTrue(s.(owner := owner))
            && CallTrue(owner.versions, owner.state.isDestroyed, clears, call)
  {
    TraceKeyed(s.owner);
    if !s.isRemoved && TryClear(s.owner.state, rev, ns).result.Ok? {
      OwnerStep(s, Clear(rev, ns));
      TryClearEvolves(s.owner.state, rev, ns);
    }
  }

  lemma ServeDestroyTrue(s: System, clears: map<string, set<Revision>>, rev: Revision)
    requires SystemTrue(s) && InRange(s.owner.state)
    ensures var (owner, call) := ServeDestroy(s, rev);
            && SystemTrue(s.(owner := owner))
            && CallTrue(owner.versions, owner.state.isDestroyed, clears, call)
  {
    if !s.isRemoved {
      OwnerStep(s, TryDestroyAt(rev));
    }
  }

  // The reply the owner makes to a request is true of the history from then on.
  lemma ServeTrue(s: System, p: nat, id: nat)
    requires SystemTrue(s) && Enabled(s, Serve(p, id))
    ensures var (owner, call) := ServeCall(s, s.peers[p].calls[id]);
            && SystemTrue(s.(owner := owner))
            && CallTrue(owner.versions, owner.state.isDestroyed, s.peers[p].clears, call)
  {
    var call := s.peers[p].calls[id];
    assert CallTrue(s.owner.versions, s.owner.state.isDestroyed, s.peers[p].clears, call);
    match call
    case FetchSent(rev, ns, keys, l) =>
    case HeadSent =>
    case UpdateSent(rev, ns, attrs) => ServeUpdateTrue(s, s.peers[p].clears, rev, ns, attrs);
    case ClearSent(rev, ns) => ServeClearTrue(s, s.peers[p].clears, rev, ns);
    case DestroySent(rev) => ServeDestroyTrue(s, s.peers[p].clears, rev);
  }

  // ---- Steps of a peer ----

  lemma {:induction false} FilterDistinct(nc: NsCache, rev: Revision, attrs: seq<Attr>)
    requires DistinctKeys(attrs) && Filter(nc, rev, attrs).Some?
    ensures DistinctKeys(Filter(nc, rev, attrs).value)
    ensures forall a | a in Filter(nc, rev, attrs).value :: a in attrs
  {
    if |attrs| > 0 {
      var m := |attrs| - 1;
      FilterDistinct(nc, rev, attrs[..m]);
      var sent := Filter(nc, rev, attrs[..m]).value;
      forall i | 0 <= i < |sent| ensures sent[i].key != attrs[m].key {
        assert sent[i] in attrs[..m];
      }
    }
  }

  lemma NsInTrue(h: Versions, clears: map<string, set<Revision>>, c: Cache, ns: string)
    requires CacheTrue(h, clears, c)
    ensures NsTrue(h, Clears(clears, ns), c.highestRev, ns, NsIn(c, ns))
  {
  }

  lemma BeginFetchTrue(h: Versions, d: bool, peer: Peer, rev: Revision, ns: string, keys: seq<string>)
    requires ValidHistory(h) && rev <= Head(h)
    requires PeerTrue(h, d, peer) && FetchLocal(peer.cache, rev, ns, keys).Ok?
    ensures CallTrue(h, d, peer.clears, FetchSent(rev, ns, keys, FetchLocal(peer.cache, rev, ns, keys).value))
  {
    NsInTrue(h, peer.clears, peer.cache, ns);
    ConsultAllMembers(NsIn(peer.cache, ns), rev, keys);
    ConsultAllSound(h, Clears(peer.clears, ns), ns, NsIn(peer.cache, ns), rev, keys, peer.cache.highestRev);
  }

  lemma StoreTrue(h: Versions, clears: map<string, set<Revision>>, c: Cache, ns: string, f: Fetched)
    requires CacheTrue(h, clears, c) && FetchedTrue(h, ns, f.attrs, f.rev)
    ensures CacheTrue(h, clears, SetNs(Observe(c, Ok(f.rev)), ns, StoreAll(NsIn(c, ns), f.attrs, f.rev)))
  {
    var c' := Observe(c, Ok(f.rev));
    ObserveTrue(h, clears, c, Ok(f.rev));
    NsInTrue(h, clears, c', ns);
    StoreAllTrue(h, Clears(clears, ns), c'.highestRev, ns, NsIn(c', ns), f.attrs, f.rev);
    SetNsTrue(h, clears, clears, c', ns, StoreAll(NsIn(c, ns), f.attrs, f.rev));
  }

  // Absorbing a reply, however late, keeps the cache true.
  lemma FinishTrue(h: Versions, d: bool, peer: Peer, call: Call)
    requires ValidHistory(h) && PeerTrue(h, d, peer)
    requires IsServed(call) && CallTrue(h, d, peer.clears, call)
    ensures PeerTrue(h, d, FinishCall(peer, call))
    ensures FinishCall(peer, call).calls == peer.calls
  {
    var peer' := FinishCall(peer, call);
    match call
    case FetchServed(rev, ns, keys, l, reply) =>
      if reply.Ok? {
        SelectTrue(h, reply.value.rev, ns, l.unsolved);
        ObserveTrue(h, peer.clears, peer.cache, Ok(reply.value.rev));
        StoreTrue(h, peer.clears, peer.cache, ns, reply.value);
      } else {
        ObserveTrue(h, peer.clears, peer.cache, Err(reply.error));
      }
    case HeadServed(reply) =>
      ObserveTrue(h, peer.clears, peer.cache, reply);
    case UpdateServed(rev, ns, attrs, reply) =>
      if reply.Ok? {
        StoreTrue(h, peer.clears, peer.cache, ns, reply.value);
      } else {
        ObserveTrue(h, peer.clears, peer.cache, Err(reply.error));
      }
    case ClearServed(rev, ns, reply) =>
      ObserveTrue(h, peer.clears, peer.cache, reply);
      if reply.Ok? {
        FinishClearTrue(h, d, peer, rev, ns, reply.value);
      }
    case DestroyServed(reply) =>
  }

  lemma FinishClearTrue(h: Versions, d: bool, peer: Peer, rev: Revision, ns: string, u: Revision)
    requires ValidHistory(h) && PeerTrue(h, d, peer)
    requires 0 < u < |h| && ClearedAt(h, u, ns)
    ensures PeerTrue(h, d, FinishCall(peer, ClearServed(rev, ns, Ok(u))))
  {
    var peer' := FinishCall(peer, ClearServed(rev, ns, Ok(u)));
    var c' := Observe(peer.cache, Ok(u));
    ObserveTrue(h, peer.clears, peer.cache, Ok(u));
    NsInTrue(h, peer.clears, c', ns);
    BlankEntriesTrue(h, Clears(peer.clears, ns), c'.highestRev, ns, NsIn(c', ns), u);
    assert Clears(peer'.clears, ns) == Clears(peer.clears, ns) + {u};
    SetNsTrue(h, peer.clears, peer'.clears, c', ns, BlankEntries(NsIn(c', ns), u));
    forall id | id in peer'.calls ensures CallTrue(h, d, peer'.clears, peer'.calls[id]) {
      CallTrueLater(h, h, d, d, peer.clears, peer'.clears, peer.calls[id]);
    }
  }

  lemma SetPeer(s: System, p: nat, peer: Peer)
    requires SystemTrue(s) && PeerTrue(s.owner.versions, s.owner.state.isDestroyed, peer)
    ensures SystemTrue(s.(peers := s.peers[p := peer]))
  {
  }

  lemma SetCallTrue(s: System, p: nat, id: nat, call: Call)
    requires SystemTrue(s) && p in s.peers
    requires CallTrue(s.owner.versions, s.owner.state.isDestroyed, s.peers[p].clears, call)
    ensures SystemTrue(SetCall(s, p, id, call))
  {
    SetPeer(s, p, s.peers[p].(calls := s.peers[p].calls[id := call]));
  }

  lemma CallIsTrue(s: System, p: nat, id: nat)
    requires SystemTrue(s) && InCall(s, p, id)
    ensures CallTrue(s.owner.versions, s.owner.state.isDestroyed, s.peers[p].clears, s.peers[p].calls[id])
  {
  }

  lemma ReadCreatedTrue(s: System, p: nat, id: nat)
    requires SystemTrue(s) && Enabled(s, ReadCreated(p, id))
    ensures SystemTrue(Do(s, ReadCreated(p, id)))
  {
    var h, call := s.owner.versions, s.peers[p].calls[id];
    assert CallTrue(h, s.owner.state.isDestroyed, s.peers[p].clears, call);
    StampedTrue(h, call.newRev, Head(h), call.ns, call.attrs);
    var stamped := Stamped(call.attrs, Updated(call.newRev, CreatedRevs(TableIn(s.owner.state.attrs, call.ns), call.attrs)));
    assert StampedFrom(h, call.newRev, Head(h), call.ns, call.attrs, stamped);
    SetCallTrue(s, p, id, UpdateServed(call.rev, call.ns, call.attrs, Ok(Fetched(call.newRev, stamped))));
  }

  lemma DoKeepsTrue(s: System, ev: Event)
    requires SystemTrue(s) && Enabled(s, ev)
    ensures SystemTrue(Do(s, ev))
  {
    var h := s.owner.versions;
    var d := s.owner.state.isDestroyed;
    match ev
    case OwnerDoes(op) => OwnerStep(s, op);
    case RemoveSession =>
    case Join(p) => SetPeer(s, p, Peer(EmptyCache, map[], map[]));
    case See(p, rev) =>
      ObserveTrue(h, s.peers[p].clears, s.peers[p].cache, Ok(rev));
      SetPeer(s, p, s.peers[p].(cache := SeeRevision(s.peers[p].cache, rev)));
    case BeginFetch(p, id, rev, ns, keys) =>
      BeginFetchTrue(h, d, s.peers[p], rev, ns, keys);
      SetCallTrue(s, p, id, FetchSent(rev, ns, keys, FetchLocal(s.peers[p].cache, rev, ns, keys).value));
    case BeginHead(p, id) => SetCallTrue(s, p, id, HeadSent);
    case BeginUpdate(p, id, rev, ns, attrs) =>
      FilterDistinct(NsIn(s.peers[p].cache, ns), rev, attrs);
      SetCallTrue(s, p, id, UpdateSent(rev, ns, StartUpdate(s.peers[p].cache, rev, ns, attrs).value));
    case BeginClear(p, id, rev, ns) => SetCallTrue(s, p, id, ClearSent(rev, ns));
    case BeginDestroy(p, id, rev) => SetCallTrue(s, p, id, DestroySent(rev));
    case Serve(p, id) =>
      ServeTrue(s, p, id);
      var (owner, call) := ServeCall(s, s.peers[p].calls[id]);
      SetCallTrue(s.(owner := owner), p, id, call);
    case ReadCreated(p, id) => ReadCreatedTrue(s, p, id);
    case Finish(p, id) =>
      var peer := FinishCall(s.peers[p], s.peers[p].calls[id]);
      FinishTrue(h, d, s.peers[p], s.peers[p].calls[id]);
      SetPeer(s, p, peer.(calls := peer.calls - {id}));
    case Lose(p, id) =>
      SetPeer(s, p, s.peers[p].(calls := s.peers[p].calls - {id}));
  }

  lemma {:induction false} AlwaysTrue(events: seq<Event>)
    requires After(events).Some?
    ensures SystemTrue(After(events).value)
  {
    if |events| > 0 {
      AlwaysTrue(events[..|events| - 1]);
      DoKeepsTrue(After(events[..|events| - 1]).value, events[|events| - 1]);
    }
  }
}

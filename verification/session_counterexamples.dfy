/** Runs on which the remote cache does less than its documentation promises. */
module SessionCounterexamples {
  import opened Attributes
  import opened SessionState
  import opened History
  import opened SessionRuns
  import opened AttrCache
  import opened CacheTruth
  import opened SessionProtocol
  import opened SessionGuarantees

  ghost predicate Reachable(s: System) {
    exists events :: After(events) == Some(s)
  }

  lemma Advance(s: System, ev: Event)
    requires Reachable(s) && Enabled(s, ev)
    ensures Reachable(Do(s, ev))
  {
    var events :| After(events) == Some(s);
    assert (events + [ev])[..|events + [ev]| - 1] == events;
    assert After(events + [ev]) == Some(Do(s, ev));
  }

  lemma WriteSingle(t: Table, a: Attr, nextRev: Revision)
    ensures WriteAll(t, [a], nextRev) == WriteOne(Written(t, []), a, nextRev)
  {
    assert [a][..0] == [];
    assert WriteAll(t, [a][..0], nextRev) == Some(Written(t, []));
  }

  lemma ConsultMiss(nc: NsCache, rev: Revision, k: string)
    requires k !in nc
    ensures ConsultAll(nc, rev, [k]) == Some(Local([], [k]))
  {
    var none: seq<string> := [];
    assert [k][..0] == none && none + [k] == [k];
    assert ConsultAll(nc, rev, [k][..0]) == Some(Local([], []));
  }

  lemma ConsultHit(nc: NsCache, rev: Revision, k: string)
    requires Consult(nc, rev, k).Solved?
    ensures ConsultAll(nc, rev, [k]) == Some(Local([Consult(nc, rev, k).attr], []))
  {
    var none: seq<Attr> := [];
    assert [k][..0] == [] && none + [Consult(nc, rev, k).attr] == [Consult(nc, rev, k).attr];
    assert ConsultAll(nc, rev, [k][..0]) == Some(Local([], []));
  }

  lemma SelectSingle(t: Table, k: string)
    requires k in t
    ensures Select(t, [k]) == [t[k]]
  {
    assert [k][..0] == [];
    assert Select(t, [k][..0]) == [];
  }

  lemma StoreSingle(nc: NsCache, v: VAttr, f: Revision)
    ensures StoreAll(nc, [v], f) == Store(nc, v, f)
  {
    assert [v][..0] == [];
    assert StoreAll(nc, [v][..0], f) == nc;
  }

  // ---- The runs, state by state, for one key k and one peer 0 ----

  const NS := "ns"
  const K := "k"
  const X := VAttr(Attr(K, "x", false), 1, 1)

  function OneTable(v: VAttr): Catalog {
    map[NS := map[K := v]]
  }

  function OneEntry(v: VAttr, fetchedAt: Revision): map<string, NsCache> {
    map[NS := map[K := CachedAttr(v, fetchedAt)]]
  }

  // The owner creates k with the value "x".
  const Created := Trace(State(1, 0, false, OneTable(X)), [map[], OneTable(X)], [0], [])

  function WithPeer(owner: Trace, cache: Cache, clears: map<string, set<Revision>>, calls: map<nat, Call>): System {
    System(owner, false, map[0 := Peer(cache, clears, calls)])
  }

  // Events of a run in which peer 0 has at most the one call 0.
  lemma Begins(owner: Trace, cache: Cache, clears: map<string, set<Revision>>, ev: Event, call: Call)
    requires Reachable(WithPeer(owner, cache, clears, map[])) && Enabled(WithPeer(owner, cache, clears, map[]), ev)
    requires Do(WithPeer(owner, cache, clears, map[]), ev) == SetCall(WithPeer(owner, cache, clears, map[]), 0, 0, call)
    ensures Reachable(WithPeer(owner, cache, clears, map[0 := call]))
  {
    var s := WithPeer(owner, cache, clears, map[]);
    Advance(s, ev);
    assert SetCall(s, 0, 0, call) == WithPeer(owner, cache, clears, map[0 := call]);
  }

  lemma Serves(owner: Trace, cache: Cache, clears: map<string, set<Revision>>, call: Call, owner': Trace, call': Call)
    requires Reachable(WithPeer(owner, cache, clears, map[0 := call]))
    requires InRange(owner.state) && IsSent(call)
    requires ServeCall(WithPeer(owner, cache, clears, map[0 := call]), call) == (owner', call')
    ensures Reachable(WithPeer(owner', cache, clears, map[0 := call']))
  {
    var s := WithPeer(owner, cache, clears, map[0 := call]);
    Advance(s, Serve(0, 0));
    var peer := s.peers[0].(calls := s.peers[0].calls[0 := call']);
    assert peer == Peer(cache, clears, map[0 := call']);
    assert Do(s, Serve(0, 0)) == System(owner', false, s.peers[0 := peer]);
    assert s.peers[0 := peer] == map[0 := peer];
  }

  lemma Finishes(owner: Trace, cache: Cache, clears: map<string, set<Revision>>, call: Call, peer: Peer)
    requires Reachable(WithPeer(owner, cache, clears, map[0 := call]))
    requires InRange(owner.state) && IsServed(call)
    requires FinishCall(Peer(cache, clears, map[0 := call]), call) == peer.(calls := map[0 := call])
    ensures Reachable(WithPeer(owner, peer.cache, peer.clears, map[]))
  {
    var s := WithPeer(owner, cache, clears, map[0 := call]);
    Advance(s, Finish(0, 0));
    assert map[0 := call] - {0} == map[];
    var peer' := peer.(calls := map[]);
    assert s.peers[0 := peer'] == map[0 := peer'];
    assert Do(s, Finish(0, 0)) == System(owner, false, s.peers[0 := peer']);
  }

  const Fetching := FetchSent(1, NS, [K], Local([], [K]))
  const Answered := FetchServed(1, NS, [K], Local([], [K]), Ok(Fetched(1, [X])))
  const Knowing := Cache(1, false, OneEntry(X, 1))

  lemma CreatedReachable()
    ensures Reachable(WithPeer(Created, EmptyCache, map[], map[]))
  {
    assert After([]) == Some(Initially);
    var ev := OwnerDoes(Update(0, NS, [X.attr]));
    Advance(Initially, ev);
    WriteSingle(map[], X.attr, 1);
    assert Do(Initially, ev) == System(Created, false, map[]);
    Advance(Do(Initially, ev), Join(0));
  }

  lemma AnsweredReachable()
    ensures Reachable(WithPeer(Created, EmptyCache, map[], map[0 := Answered]))
  {
    CreatedReachable();
    ConsultMiss(map[], 1, K);
    Begins(Created, EmptyCache, map[], BeginFetch(0, 0, 1, NS, [K]), Fetching);
    SelectSingle(map[K := X], K);
    Serves(Created, EmptyCache, map[], Fetching, Created, Answered);
  }

  // Peer 0 has fetched k at the revision that created it.
  lemma KnowingReachable()
    ensures Reachable(WithPeer(Created, Knowing, map[], map[]))
  {
    AnsweredReachable();
    StoreSingle(map[], X, 1);
    Finishes(Created, EmptyCache, map[], Answered, Peer(Knowing, map[], map[]));
  }

  // The peer clears the namespace, which the owner does at revision 2...
  const XCleared := VAttr(Attr(K, "", false), 1, 2)
  const Cleared := Trace(State(2, 0, false, OneTable(XCleared)), [map[], OneTable(X), OneTable(XCleared)], [0, 1], [])
  const Blanked := Cache(2, false, OneEntry(VAttr(Attr(K, "", false), 1, 1), 2))

  lemma KnowingBlanked(u: Revision)
    requires 1 < u
    ensures FinishClear(Knowing, NS, Ok(u)).next == Cache(u, false, OneEntry(VAttr(Attr(K, "", false), 1, 1), u))
  {
    var blanked: NsCache := map[K := CachedAttr(VAttr(Attr(K, "", false), 1, 1), u)];
    assert BlankEntries(Knowing.entries[NS], u) == blanked;
    assert Knowing.entries[NS := blanked] == map[NS := blanked];
  }

  // The owner clears a namespace in which k is "x"...
  lemma ClearX(rev: Revision)
    requires rev < MAX_UINT32
    ensures var s := State(rev, 0, false, OneTable(X));
            var t := OneTable(VAttr(Attr(K, "", false), 1, rev + 1));
            TryClear(s, rev, NS) == SessionState.Outcome(State(rev + 1, 0, false, t), Ok(rev + 1))
  {
    var t: Table := map[K := X];
    var blank := VAttr(Attr(K, "", false), 1, rev + 1);
    assert K in t && t[K].attr.value != "";
    assert SessionState.BlankAll(t, rev + 1) == map[K := blank];
    assert OneTable(X)[NS := map[K := blank]] == OneTable(blank);
  }

  // ...and the peer that knows it as it was absorbs the reply.
  lemma KnowingBlanks(owner: Trace, u: Revision)
    requires 1 < u && InRange(owner.state)
    requires Reachable(WithPeer(owner, Knowing, map[], map[0 := ClearServed(u - 1, NS, Ok(u))]))
    ensures Reachable(WithPeer(owner, Cache(u, false, OneEntry(VAttr(Attr(K, "", false), 1, 1), u)), map[NS := {u}], map[]))
  {
    KnowingBlanked(u);
    var none: set<Revision> := {};
    assert none + {u} == {u};
    var blanked := Cache(u, false, OneEntry(VAttr(Attr(K, "", false), 1, 1), u));
    Finishes(owner, Knowing, map[], ClearServed(u - 1, NS, Ok(u)), Peer(blanked, map[NS := {u}], map[]));
  }

  lemma BlankedReachable()
    ensures Reachable(WithPeer(Cleared, Blanked, map[NS := {2}], map[]))
  {
    KnowingReachable();
    Begins(Created, Knowing, map[], BeginClear(0, 0, 1, NS), ClearSent(1, NS));
    ClearX(1);
    assert Created.versions + [OneTable(XCleared)] == Cleared.versions && Created.accepted + [1] == Cleared.accepted;
    Serves(Created, Knowing, map[], ClearSent(1, NS), Cleared, ClearServed(1, NS, Ok(2)));
    KnowingBlanks(Cleared, 2);
  }

  // ...and then reads "" at revision 1, where the owner had "x".
  lemma ReadBelowClearCanBeWrong()
    ensures exists s :: Reachable(s)
                        && FetchReturns(s, 0, 1, NS, [K], [Attr(K, "", false)])
                        && AttrAt(s.owner.versions[1], NS, K).value == "x"
  {
    BlankedReachable();
    var s := WithPeer(Cleared, Blanked, map[NS := {2}], map[]);
    ConsultHit(Blanked.entries[NS], 1, K);
    assert FetchReturns(s, 0, 1, NS, [K], [Attr(K, "", false)]);
  }

  // The owner writes to another namespace in between, so that the Clear is made against
  // revision 2, at which the peer has not fetched k.
  const Aside := Trace(State(2, 0, false, OneTable(X)), [map[], OneTable(X), OneTable(X)], [0, 1], [])
  const XClearedLater := VAttr(Attr(K, "", false), 1, 3)
  const ClearedLater := Trace(State(3, 0, false, OneTable(XClearedLater)),
                              [map[], OneTable(X), OneTable(X), OneTable(XClearedLater)], [0, 1, 2], [])
  const BlankedLater := Cache(3, false, OneEntry(VAttr(Attr(K, "", false), 1, 1), 3))

  lemma AsideReachable()
    ensures Reachable(WithPeer(Aside, Knowing, map[], map[]))
  {
    KnowingReachable();
    var s := WithPeer(Created, Knowing, map[], map[]);
    var ev := OwnerDoes(Clear(1, "aside"));
    Advance(s, ev);
    assert AllBlank(map[]);
    assert Created.versions + [OneTable(X)] == Aside.versions && Created.accepted + [1] == Aside.accepted;
    assert Do(s, ev) == WithPeer(Aside, Knowing, map[], map[]);
  }

  lemma BlankedLaterReachable()
    ensures Reachable(WithPeer(ClearedLater, BlankedLater, map[NS := {3}], map[]))
  {
    AsideReachable();
    Begins(Aside, Knowing, map[], BeginClear(0, 0, 2, NS), ClearSent(2, NS));
    ClearX(2);
    assert Aside.versions + [OneTable(XClearedLater)] == ClearedLater.versions && Aside.accepted + [2] == ClearedLater.accepted;
    Serves(Aside, Knowing, map[], ClearSent(2, NS), ClearedLater, ClearServed(2, NS, Ok(3)));
    KnowingBlanks(ClearedLater, 3);
  }

  // The cache answers a revision that it never fetched, and could not have answered
  // before the Clear, with "" where the owner had "x".
  lemma ReadBetweenFetchAndClearCanBeWrong()
    ensures exists s :: Reachable(s)
                        && FetchReturns(s, 0, 2, NS, [K], [Attr(K, "", false)])
                        && AttrAt(s.owner.versions[2], NS, K).value == "x"
    ensures Consult(Knowing.entries[NS], 2, K) == Unsolved
  {
    BlankedLaterReachable();
    var s := WithPeer(ClearedLater, BlankedLater, map[NS := {3}], map[]);
    ConsultHit(BlankedLater.entries[NS], 2, K);
    assert FetchReturns(s, 0, 2, NS, [K], [Attr(K, "", false)]);
  }

  // The owner freezes k, with an empty value, at revision 2; the peer, which only
  // knows k as it was, clears the namespace at revision 3.
  const Frozen := VAttr(Attr(K, "", true), 1, 2)
  const Froze := Trace(State(2, 0, false, OneTable(Frozen)), [map[], OneTable(X), OneTable(Frozen)], [0, 1], [])
  const FrozeCleared := Trace(State(3, 0, false, OneTable(Frozen)),
                              [map[], OneTable(X), OneTable(Frozen), OneTable(Frozen)], [0, 1, 2], [])
  const Unaware := Cache(3, false, OneEntry(VAttr(Attr(K, "", false), 1, 1), 3))

  lemma FrozeReachable()
    ensures Reachable(WithPeer(Froze, Knowing, map[], map[]))
  {
    KnowingReachable();
    var s := WithPeer(Created, Knowing, map[], map[]);
    var ev := OwnerDoes(Update(1, NS, [Frozen.attr]));
    Advance(s, ev);
    WriteSingle(map[K := X], Frozen.attr, 2);
    var t: Table := map[K := X];
    assert t[K := Frozen] == map[K := Frozen];
    assert Created.state.attrs[NS := map[K := Frozen]] == OneTable(Frozen);
    assert Created.versions + [OneTable(Frozen)] == Froze.versions && Created.accepted + [1] == Froze.accepted;
    assert Do(s, ev) == WithPeer(Froze, Knowing, map[], map[]);
  }

  lemma UnawareReachable()
    ensures Reachable(WithPeer(FrozeCleared, Unaware, map[NS := {3}], map[]))
  {
    FrozeReachable();
    Begins(Froze, Knowing, map[], BeginClear(0, 0, 2, NS), ClearSent(2, NS));
    assert AllBlank(map[K := Frozen]);
    assert Froze.versions + [OneTable(Frozen)] == FrozeCleared.versions && Froze.accepted + [2] == FrozeCleared.accepted;
    Serves(Froze, Knowing, map[], ClearSent(2, NS), FrozeCleared, ClearServed(2, NS, Ok(3)));
    KnowingBlanks(FrozeCleared, 3);
  }

  // An update of k to "" against the revision of that Clear is filtered away and
  // succeeds, although the owner would refuse it.
  lemma FilterAfterClearCanDiffer()
    ensures exists s, attrs :: Reachable(s) && 0 in s.peers
                               && DistinctKeys(attrs)
                               && StartUpdate(s.peers[0].cache, 3, NS, attrs) == Ok([])
                               && TryUpdate(s.owner.state, 3, NS, []).result.Ok?
                               && TryUpdate(s.owner.state, 3, NS, attrs).result == Err(FrozenAttributes(3))
  {
    UnawareReachable();
    var s := WithPeer(FrozeCleared, Unaware, map[NS := {3}], map[]);
    var a := Attr(K, "", false);
    WriteSingle(map[K := Frozen], a, 4);
    assert [a][..0] == [];
    assert Filter(Unaware.entries[NS], 3, [a][..0]) == Some([]);
    assert Known(Unaware.entries[NS], 3, a) && !KnownFrozen(Unaware.entries[NS], a);
    assert StartUpdate(s.peers[0].cache, 3, NS, [a]) == Ok([]);
    assert WriteAll(map[K := Frozen], [], 4) == Some(Written(map[K := Frozen], []));
    assert TryUpdate(s.owner.state, 3, NS, []).result.Ok?;
    assert WriteAll(TableIn(s.owner.state.attrs, NS), [a], 4) == None;
    assert TryUpdate(s.owner.state, 3, NS, [a]).result == Err(FrozenAttributes(3));
    assert DistinctKeys([a]);
  }

  // A peer that has destroyed a session rejects a second destroy with NotFound,
  // which the owner, until it drops the session, would have answered with success.
  lemma SecondDestroyIsRejected()
    ensures exists s :: Reachable(s) && 0 in s.peers && !s.isRemoved
                        && StartDestroy(s.peers[0].cache, s.owner.state.rev) == Some(NotFound)
                        && TryDestroy(s.owner.state, s.owner.state.rev).result == Ok(false)
  {
    CreatedReachable();
    Begins(Created, EmptyCache, map[], BeginDestroy(0, 0, 1), DestroySent(1));
    var gone := Created.(state := Created.state.(isDestroyed := true));
    Serves(Created, EmptyCache, map[], DestroySent(1), gone, DestroyServed(Ok(())));
    Finishes(gone, EmptyCache, map[], DestroyServed(Ok(())), Peer(EmptyCache.(isClosed := true), map[], map[]));
    assert StartDestroy(WithPeer(gone, EmptyCache.(isClosed := true), map[], map[]).peers[0].cache, 1) == Some(NotFound);
  }

  // ---- Stamps that are too late ----

  // The peer, which knows nothing yet, updates k to the value it has.
  const XStamped := VAttr(X.attr, 1, 2)
  const Restated := Cache(2, false, OneEntry(XStamped, 2))

  lemma NothingFiltered()
    ensures StartUpdate(EmptyCache, 1, NS, [X.attr]) == Ok([X.attr])
  {
    var none: seq<Attr> := [];
    assert [X.attr][..0] == none && none + [X.attr] == [X.attr];
    assert Filter(map[], 1, [X.attr][..0]) == Some(none);
  }

  lemma RestatingReachable()
    ensures Reachable(WithPeer(Created, EmptyCache, map[], map[0 := UpdateSent(1, NS, [X.attr])]))
  {
    CreatedReachable();
    NothingFiltered();
    Begins(Created, EmptyCache, map[], BeginUpdate(0, 0, 1, NS, [X.attr]), UpdateSent(1, NS, [X.attr]));
  }

  lemma CommittedReachable()
    ensures Reachable(WithPeer(Aside, EmptyCache, map[], map[0 := UpdateCommitted(1, NS, [X.attr], 2)]))
  {
    RestatingReachable();
    WriteSingle(map[K := X], X.attr, 2);
    assert Created.versions + [OneTable(X)] == Aside.versions && Created.accepted + [1] == Aside.accepted;
    Serves(Created, EmptyCache, map[], UpdateSent(1, NS, [X.attr]), Aside, UpdateCommitted(1, NS, [X.attr], 2));
  }

  lemma RestatedReachable()
    ensures Reachable(WithPeer(Aside, Restated, map[], map[]))
  {
    CommittedReachable();
    var s := WithPeer(Aside, EmptyCache, map[], map[0 := UpdateCommitted(1, NS, [X.attr], 2)]);
    Advance(s, ReadCreated(0, 0));
    assert Stamped([X.attr], Updated(2, CreatedRevs(map[K := X], [X.attr]))) == [XStamped];
    var served := UpdateServed(1, NS, [X.attr], Ok(Fetched(2, [XStamped])));
    var peer := Peer(EmptyCache, map[], map[0 := served]);
    assert s.peers[0].calls[0 := served] == map[0 := served];
    assert s.peers[0 := peer] == map[0 := peer];
    assert Do(s, ReadCreated(0, 0)) == WithPeer(Aside, EmptyCache, map[], map[0 := served]);
    StoreSingle(map[], XStamped, 2);
    Finishes(Aside, EmptyCache, map[], served, Peer(Restated, map[], map[]));
  }

  // A read at revision 1 is then stale for the cache, which does not ask the owner; the
  // owner could have answered.
  lemma StaleReadCanBeSpurious()
    ensures exists s :: Reachable(s) && 0 in s.peers
                        && FetchLocal(s.peers[0].cache, 1, NS, [K]) == Err(StaleFetch(1))
                        && History.Get(s.owner.state.attrs, 1, NS, K) == Ok(X.attr)
  {
    RestatedReachable();
    var s := WithPeer(Aside, Restated, map[], map[]);
    assert [K][..0] == [];
    assert ConsultAll(Restated.entries[NS], 1, [K][..0]) == Some(Local([], []));
    assert ConsultAll(Restated.entries[NS], 1, [K]) == None;
    assert FetchLocal(s.peers[0].cache, 1, NS, [K]) == Err(StaleFetch(1));
  }

  // ---- Repeated keys ----

  // An update of k to "x" and then to "y": the owner keeps "y", the cache "x".
  lemma RepeatedKeysCanDiffer()
    ensures var attrs := [Attr(K, "x", false), Attr(K, "y", false)];
            var w := WriteAll(map[], attrs, 1);
            && w.Some?
            && AttrIn(w.value.table, K).value == "y"
            && var nc := StoreAll(map[], Stamped(attrs, Updated(1, CreatedRevs(w.value.table, attrs))), 1);
               K in nc && nc[K].attr.attr.value == "x"
  {
    var attrs := [Attr(K, "x", false), Attr(K, "y", false)];
    assert attrs[..1] == [attrs[0]] && attrs[1] == Attr(K, "y", false);
    WriteSingle(map[], attrs[0], 1);
    var w := WriteAll(map[], attrs, 1).value;
    StoresFirst(map[], attrs, Updated(1, CreatedRevs(w.table, attrs)), K);
  }

  // ---- Destroying a session that is gone ----

  const Gone := Created.(state := Created.state.(isDestroyed := true))

  // While a peer's destroy is under way the owner destroys the session and drops it.
  lemma GoneReachable()
    ensures Reachable(WithPeer(Gone, EmptyCache, map[], map[0 := DestroySent(1)]).(isRemoved := true))
  {
    CreatedReachable();
    Begins(Created, EmptyCache, map[], BeginDestroy(0, 0, 1), DestroySent(1));
    Advance(WithPeer(Created, EmptyCache, map[], map[0 := DestroySent(1)]), OwnerDoes(DestroyNow));
    Advance(WithPeer(Gone, EmptyCache, map[], map[0 := DestroySent(1)]), RemoveSession);
  }

  // A destroy whose reply is *not found* leaves the cached session open, although the
  // same reply to any other call closes it.
  lemma NotFoundAfterDestroyKeepsOpen()
    ensures exists s :: Reachable(s) && s.isRemoved && 0 in s.peers
                        && s.peers[0].calls == map[0 := DestroyServed(Err(NotFound))]
                        && StartHead(FinishCall(s.peers[0], s.peers[0].calls[0]).cache) == Option.None
  {
    GoneReachable();
    var s := WithPeer(Gone, EmptyCache, map[], map[0 := DestroySent(1)]).(isRemoved := true);
    Advance(s, Serve(0, 0));
    assert s.peers[0].calls[0 := DestroyServed(Err(NotFound))] == map[0 := DestroyServed(Err(NotFound))];
  }

  lemma NotFoundClosesUnlessDestroy(c: Cache, rev: Revision, ns: string, solved: seq<Attr>)
    requires !c.isClosed
    ensures FinishFetch(c, rev, ns, solved, Err(NotFound)).next.isClosed
    ensures FinishHead(c, Err(NotFound)).next.isClosed
    ensures FinishUpdate(c, ns, Err(NotFound)).next.isClosed
    ensures FinishClear(c, ns, Err(NotFound)).next.isClosed
    ensures !FinishDestroy(c, Err(NotFound)).next.isClosed
  {
  }

  // ---- Empty updates ----

  // An empty update by a remote peer is sent to the owner, where it makes a revision
  // that differs from the last in nothing.
  lemma {:induction false} EmptyRemoteUpdateMakesRevision(events: seq<Event>, p: nat, ns: string)
    requires After(events).Some? && p in After(events).value.peers
    requires var s := After(events).value; InRange(s.owner.state) && !s.owner.state.isDestroyed
    ensures var s := After(events).value;
            var rev := s.owner.state.rev;
            && StartUpdate(s.peers[p].cache, rev, ns, []) == Ok([])
            && TryUpdate(s.owner.state, rev, ns, []).result == Ok(Diff(ns, rev + 1, []))
            && TryUpdate(s.owner.state, rev, ns, []).next == State(rev + 1, 0, false, s.owner.state.attrs)
  {
    AlwaysTrue(events);
    var s := After(events).value;
    assert PeerTrue(s.owner.versions, s.owner.state.isDestroyed, s.peers[p]);
    var none: seq<Attr> := [];
    assert Filter(NsIn(s.peers[p].cache, ns), s.owner.state.rev, none) == Some([]);
  }
}

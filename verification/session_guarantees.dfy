/** What the protocol guarantees on every run, and where it does not. */
module SessionGuarantees {
  import opened Attributes
  import opened SessionState
  import opened History
  import opened SessionRuns
  import opened AttrCache
  import opened CacheTruth
  import opened SessionProtocol

  // In state s a Fetch(rev, ns, keys) by peer p may return attrs: from the cache
  // alone, or by absorbing a reply that has arrived.
  ghost predicate FetchReturns(s: System, p: nat, rev: Revision, ns: string, keys: seq<string>, attrs: seq<Attr>) {
    && p in s.peers
    && rev <= Head(s.owner.versions)
    && (|| FetchLocal(s.peers[p].cache, rev, ns, keys) == Ok(Local(attrs, []))
        || exists id, l, reply ::
             && InCall(s, p, id)
             && s.peers[p].calls[id] == FetchServed(rev, ns, keys, l, reply)
             && FinishFetch(s.peers[p].cache, rev, ns, l.solved, reply).result == Ok(attrs))
  }

  // Cached reads are true to history: on every interleaving, what a Fetch at rev
  // returns is the owner's attribute at rev for each key, provided rev is later
  // than every completed Clear of this peer in the namespace; at the revision of
  // the last such Clear the values are still right.
  lemma {:induction false} ReadsTrueToHistory(events: seq<Event>, p: nat, rev: Revision, ns: string, keys: seq<string>, attrs: seq<Attr>)
    requires After(events).Some?
    requires FetchReturns(After(events).value, p, rev, ns, keys, attrs)
    ensures var s := After(events).value;
            ReadSound(s.owner.versions, Clears(s.peers[p].clears, ns), rev, ns, (set k | k in keys), attrs)
  {
    AlwaysTrue(events);
    var s := After(events).value;
    var h := s.owner.versions;
    var peer := s.peers[p];
    if FetchLocal(peer.cache, rev, ns, keys) == Ok(Local(attrs, [])) {
      BeginFetchTrue(h, s.owner.state.isDestroyed, peer, rev, ns, keys);
      assert (set k | k in keys && k !in Local(attrs, []).unsolved) == (set k | k in keys);
    } else {
      var id, l, reply :| InCall(s, p, id) && peer.calls[id] == FetchServed(rev, ns, keys, l, reply)
                          && FinishFetch(peer.cache, rev, ns, l.solved, reply).result == Ok(attrs);
      FetchedAnswers(s, p, id, rev, ns, keys, l, reply, attrs);
    }
  }

  lemma FetchedAnswers(s: System, p: nat, id: nat, rev: Revision, ns: string, keys: seq<string>, l: Local,
                       reply: Result<Fetched, Error>, attrs: seq<Attr>)
    requires SystemTrue(s) && rev <= Head(s.owner.versions)
    requires InCall(s, p, id) && s.peers[p].calls[id] == FetchServed(rev, ns, keys, l, reply)
    requires FinishFetch(s.peers[p].cache, rev, ns, l.solved, reply).result == Ok(attrs)
    ensures ReadSound(s.owner.versions, Clears(s.peers[p].clears, ns), rev, ns, (set k | k in keys), attrs)
  {
    var h, peer := s.owner.versions, s.peers[p];
    assert CallTrue(h, s.owner.state.isDestroyed, peer.clears, peer.calls[id]);
    AnswersSound(h, Clears(peer.clears, ns), rev, reply.value.rev, ns, keys, l);
  }

  // For a peer that has never completed a Clear in the namespace, GetMany answers
  // every key with the owner's attribute at the revision, and so does Get; at revision
  // zero both do so without a Fetch.
  lemma {:induction false} RemoteRevisionTrue(events: seq<Event>, p: nat, rev: Revision, ns: string, keys: seq<string>, attrs: seq<Attr>)
    requires After(events).Some? && p in After(events).value.peers
    requires rev == 0 || FetchReturns(After(events).value, p, rev, ns, keys, attrs)
    requires Clears(After(events).value.peers[p].clears, ns) == {}
    ensures forall k | k in keys ::
              k in RevisionGetMany(rev, keys, attrs) &&
              RevisionGetMany(rev, keys, attrs)[k] == AttrAt(After(events).value.owner.versions[rev], ns, k)
    ensures |keys| == 1 ==>
              RevisionGet(rev, keys[0], attrs) == AttrAt(After(events).value.owner.versions[rev], ns, keys[0])
  {
    AlwaysTrue(events);
    var h := After(events).value.owner.versions;
    if rev > 0 {
      ReadsTrueToHistory(events, p, rev, ns, keys, attrs);
      ExactAnswers(h, rev, ns, keys, attrs);
      if |keys| == 1 {
        assert keys == [keys[0]];
        ExactAnswer(h, rev, ns, keys[0], attrs);
      }
    }
  }

  lemma ExactAnswers(h: Versions, rev: nat, ns: string, keys: seq<string>, attrs: seq<Attr>)
    requires rev < |h| && ReadTrue(h, true, rev, ns, (set k | k in keys), attrs)
    ensures forall k | k in keys :: k in Overlay(EmptyTable(keys), attrs)
                                    && Overlay(EmptyTable(keys), attrs)[k] == AttrAt(h[rev], ns, k)
  {
    GetManyTrue(h, rev, ns, keys, attrs, true);
  }

  lemma ExactAnswer(h: Versions, rev: nat, ns: string, key: string, attrs: seq<Attr>)
    requires rev < |h| && ReadTrue(h, true, rev, ns, (set k | k in [key]), attrs)
    ensures GetResult(key, attrs) == AttrAt(h[rev], ns, key)
  {
    assert (set k | k in [key]) == {key};
    GetTrue(h, rev, ns, key, attrs, true);
  }

  // ---- Later states of a run ----

  lemma {:induction false} RunContinues(events: seq<Event>, more: seq<Event>)
    requires After(events + more).Some?
    ensures After(events).Some?
    ensures var s, s' := After(events).value, After(events + more).value;
            && Extends(s.owner.versions, s'.owner.versions)
            && (s.owner.state.isDestroyed ==> s'.owner.state.isDestroyed)
  {
    if |more| == 0 {
      assert events + more == events;
    } else {
      var m := |more| - 1;
      assert (events + more)[..|events + more| - 1] == events + more[..m];
      RunContinues(events, more[..m]);
      AlwaysTrue(events + more[..m]);
      var s := After(events + more[..m]).value;
      EventExtends(s, more[m]);
    }
  }

  lemma EventExtends(s: System, ev: Event)
    requires SystemTrue(s) && Enabled(s, ev)
    ensures Extends(s.owner.versions, Do(s, ev).owner.versions)
    ensures s.owner.state.isDestroyed ==> Do(s, ev).owner.state.isDestroyed
  {
    match ev
    case OwnerDoes(op) => StepKeepsTrace(s.owner, op);
    case Serve(p, id) => ServeExtends(s, p, id);
    case _ =>
  }

  lemma ServeExtends(s: System, p: nat, id: nat)
    requires SystemTrue(s) && Enabled(s, Serve(p, id))
    ensures Extends(s.owner.versions, Do(s, Serve(p, id)).owner.versions)
    ensures s.owner.state.isDestroyed ==> Do(s, Serve(p, id)).owner.state.isDestroyed
  {
    match s.peers[p].calls[id]
    case UpdateSent(rev, ns, attrs) => StepKeepsTrace(s.owner, Update(rev, ns, attrs));
    case ClearSent(rev, ns) => StepKeepsTrace(s.owner, Clear(rev, ns));
    case DestroySent(rev) => StepKeepsTrace(s.owner, TryDestroyAt(rev));
    case _ =>
  }

  // A cached attribute marked frozen is the owner's at every revision from its
  // UpdatedAt on, on every continuation of the run, whatever Clears this peer made.
  lemma CachedFrozenAgrees(events: seq<Event>, more: seq<Event>, p: nat, ns: string, k: string, r: nat)
    requires After(events + more).Some? && After(events).Some?
    requires var s := After(events).value; p in s.peers && k in NsIn(s.peers[p].cache, ns)
    requires var e := NsIn(After(events).value.peers[p].cache, ns)[k];
             e.attr.attr.isFrozen && e.attr.updatedAt <= r < |After(events + more).value.owner.versions|
    ensures AttrAt(After(events + more).value.owner.versions[r], ns, k)
         == NsIn(After(events).value.peers[p].cache, ns)[k].attr.attr
  {
    var s, s' := After(events).value, After(events + more).value;
    AlwaysTrue(events);
    AlwaysTrue(events + more);
    RunContinues(events, more);
    var peer := s.peers[p];
    assert PeerTrue(s.owner.versions, s.owner.state.isDestroyed, peer);
    NsInTrue(s.owner.versions, peer.clears, peer.cache, ns);
    var e := NsIn(peer.cache, ns)[k];
    EntryTrueLater(s.owner.versions, s'.owner.versions, Clears(peer.clears, ns), ns, k, e);
    CachedFrozenForever(s'.owner.versions, Clears(peer.clears, ns), ns, k, e, r);
  }

  // ---- Filtering an update ----

  // Leaving out attributes that the table already holds changes nothing.
  lemma {:induction false} FilteredWrites(t: Table, nc: NsCache, rev: Revision, attrs: seq<Attr>, nextRev: Revision)
    requires DistinctKeys(attrs)
    requires Filter(nc, rev, attrs).Some?
    requires forall a | a in attrs && Known(nc, rev, a) :: AttrIn(t, a.key) == a
    ensures WriteAll(t, Filter(nc, rev, attrs).value, nextRev) == WriteAll(t, attrs, nextRev)
  {
    if |attrs| > 0 {
      var m := |attrs| - 1;
      var a := attrs[m];
      FilteredWrites(t, nc, rev, attrs[..m], nextRev);
      if Known(nc, rev, a) {
        if WriteAll(t, attrs[..m], nextRev).Some? {
          UntouchedKeeps(t, attrs[..m], nextRev, a.key);
        }
      } else {
        var sent := Filter(nc, rev, attrs).value;
        assert sent[..|sent| - 1] == Filter(nc, rev, attrs[..m]).value;
      }
    }
  }

  lemma KnownIsPresent(h: Versions, h': Versions, d: bool, peer: Peer, rev: Revision, ns: string, attr: Attr)
    requires ValidHistory(h') && Extends(h, h') && PeerTrue(h, d, peer)
    requires rev < |h'| && peer.cache.highestRev <= rev
    requires Known(NsIn(peer.cache, ns), rev, attr)
    requires NsIn(peer.cache, ns)[attr.key].attr.attr.isFrozen || rev !in Clears(peer.clears, ns)
    ensures AttrAt(h'[rev], ns, attr.key) == attr
  {
    var clears := Clears(peer.clears, ns);
    var e := NsIn(peer.cache, ns)[attr.key];
    NsInTrue(h, peer.clears, peer.cache, ns);
    EntryTrueLater(h, h', clears, ns, attr.key, e);
    if e.attr.attr.isFrozen {
      CachedFrozenForever(h', clears, ns, attr.key, e, rev);
    }
  }

  // Filtering preserves meaning: whenever the owner gets to see the update, the
  // filtered list has the same outcome as the full one - verdict, diff, table and
  // all - unless an attribute that is not known to be frozen was left out and rev
  // is the revision that a Clear of this very peer produced.
  lemma FilterPreservesUpdate(events: seq<Event>, more: seq<Event>, p: nat, rev: Revision, ns: string, attrs: seq<Attr>)
    requires After(events + more).Some? && After(events).Some?
    requires var s := After(events).value;
             && p in s.peers && DistinctKeys(attrs)
             && StartUpdate(s.peers[p].cache, rev, ns, attrs).Ok?
             && (rev !in Clears(s.peers[p].clears, ns) || forall a | a in attrs :: Known(NsIn(s.peers[p].cache, ns), rev, a) ==> a.isFrozen)
    ensures var sent := StartUpdate(After(events).value.peers[p].cache, rev, ns, attrs).value;
            var owner := After(events + more).value.owner.state;
            TryUpdate(owner, rev, ns, sent) == TryUpdate(owner, rev, ns, attrs)
  {
    var s, s' := After(events).value, After(events + more).value;
    AlwaysTrue(events);
    AlwaysTrue(events + more);
    RunContinues(events, more);
    var owner := s'.owner.state;
    if !owner.isDestroyed && rev == owner.rev {
      var t := TableIn(owner.attrs, ns);
      var nc := NsIn(s.peers[p].cache, ns);
      forall a | a in attrs && Known(nc, rev, a) ensures AttrIn(t, a.key) == a {
        KnownIsPresent(s.owner.versions, s'.owner.versions, s.owner.state.isDestroyed, s.peers[p], rev, ns, a);
      }
      FilteredWrites(t, nc, rev, attrs, Inc32(rev));
    }
  }

  // The owner has frozen an attribute that the filter leaves out as unfrozen.
  ghost predicate LeavesOutFrozen(nc: NsCache, rev: Revision, attrs: seq<Attr>, t: Table) {
    exists a :: a in attrs && Known(nc, rev, a) && !a.isFrozen && AttrIn(t, a.key).isFrozen
  }

  lemma KnownValueIsPresent(h: Versions, h': Versions, d: bool, peer: Peer, rev: Revision, ns: string, attr: Attr)
    requires ValidHistory(h') && Extends(h, h') && PeerTrue(h, d, peer)
    requires rev < |h'| && peer.cache.highestRev <= rev
    requires Known(NsIn(peer.cache, ns), rev, attr)
    ensures AttrAt(h'[rev], ns, attr.key).key == attr.key
    ensures AttrAt(h'[rev], ns, attr.key).value == attr.value
    ensures attr.isFrozen ==> AttrAt(h'[rev], ns, attr.key) == attr
  {
    var clears := Clears(peer.clears, ns);
    var e := NsIn(peer.cache, ns)[attr.key];
    NsInTrue(h, peer.clears, peer.cache, ns);
    EntryTrueLater(h, h', clears, ns, attr.key, e);
    CatalogsKeyed(h', rev, ns);
    if e.attr.attr.isFrozen {
      CachedFrozenForever(h', clears, ns, attr.key, e, rev);
    }
  }

  // An element that conflicts in a list of distinct keys conflicts in every longer
  // such list, wherever it stands.
  lemma ConflictsAnywhere(t: Table, sent: seq<Attr>, attrs: seq<Attr>, nextRev: Revision)
    requires Keyed(t) && DistinctKeys(sent) && DistinctKeys(attrs)
    requires forall a | a in sent :: a in attrs
    requires WriteAll(t, sent, nextRev) == None
    ensures WriteAll(t, attrs, nextRev) == None
  {
    WriteAllMeaning(t, sent, nextRev);
    WriteAllMeaning(t, attrs, nextRev);
    var n :| 0 <= n < |sent| && Conflicts(t, sent, n);
    assert sent[n] in attrs;
    var m :| 0 <= m < |attrs| && attrs[m] == sent[n];
    CurrentUntouched(t, sent, n, sent[n].key);
    CurrentUntouched(t, attrs, m, attrs[m].key);
    assert Conflicts(t, attrs, m);
  }

  lemma {:induction false} CurrentUntouched(t: Table, attrs: seq<Attr>, n: nat, key: string)
    requires n <= |attrs| && forall i | 0 <= i < n :: attrs[i].key != key
    ensures Current(t, attrs, n, key) == AttrIn(t, key)
  {
    if n > 0 {
      CurrentUntouched(t, attrs, n - 1, key);
    }
  }

  // Whatever Clears the peer has made, a filtered update has the outcome of the full
  // one unless the owner accepts it and something frozen was left out of it.
  lemma FilterPreservesUpdateIff(events: seq<Event>, more: seq<Event>, p: nat, rev: Revision, ns: string, attrs: seq<Attr>)
    requires After(events + more).Some? && After(events).Some?
    requires var s := After(events).value;
             && p in s.peers && DistinctKeys(attrs)
             && StartUpdate(s.peers[p].cache, rev, ns, attrs).Ok?
    ensures var sent := StartUpdate(After(events).value.peers[p].cache, rev, ns, attrs).value;
            var owner := After(events + more).value.owner.state;
            var nc := NsIn(After(events).value.peers[p].cache, ns);
            (TryUpdate(owner, rev, ns, sent) == TryUpdate(owner, rev, ns, attrs) <==>
             !(TryUpdate(owner, rev, ns, sent).result.Ok? && LeavesOutFrozen(nc, rev, attrs, TableIn(owner.attrs, ns))))
  {
    var s, s' := After(events).value, After(events + more).value;
    AlwaysTrue(events);
    AlwaysTrue(events + more);
    RunContinues(events, more);
    var owner := s'.owner.state;
    var t := TableIn(owner.attrs, ns);
    var nc := NsIn(s.peers[p].cache, ns);
    if !owner.isDestroyed && rev == owner.rev {
      FilterDistinct(nc, rev, attrs);
      CatalogsKeyed(s'.owner.versions, rev, ns);
      if WriteAll(t, Filter(nc, rev, attrs).value, Inc32(rev)) == None {
        ConflictsAnywhere(t, Filter(nc, rev, attrs).value, attrs, Inc32(rev));
      }
      forall a | a in attrs && Known(nc, rev, a)
        ensures AttrIn(t, a.key).key == a.key && AttrIn(t, a.key).value == a.value
        ensures a.isFrozen ==> AttrIn(t, a.key) == a
      {
        KnownValueIsPresent(s.owner.versions, s'.owner.versions, s.owner.state.isDestroyed, s.peers[p], rev, ns, a);
      }
      if LeavesOutFrozen(nc, rev, attrs, t) {
        var a :| a in attrs && Known(nc, rev, a) && !a.isFrozen && AttrIn(t, a.key).isFrozen;
        if WriteAll(t, attrs, Inc32(rev)).Some? {
          FrozenInTheWay(t, attrs, Inc32(rev), a.key);
        }
      } else {
        forall a | a in attrs && Known(nc, rev, a) ensures AttrIn(t, a.key) == a {
          assert !AttrIn(t, a.key).isFrozen || a.isFrozen;
        }
        FilteredWrites(t, nc, rev, attrs, Inc32(rev));
      }
    }
  }

  // ---- Rejecting without asking ----

  lemma {:induction false} FrozenInTheWay(t: Table, attrs: seq<Attr>, nextRev: Revision, k: string)
    requires AttrIn(t, k).isFrozen
    requires WriteAll(t, attrs, nextRev).Some?
    ensures AttrIn(WriteAll(t, attrs, nextRev).value.table, k) == AttrIn(t, k)
    ensures AttrIn(t, k).key == k ==> forall a | a in attrs && a.key == k :: a == AttrIn(t, k)
  {
    if |attrs| > 0 {
      FrozenInTheWay(t, attrs[..|attrs| - 1], nextRev, k);
    }
  }

  // An update that the cache alone rejects would be rejected by the owner, now
  // and at any later time.
  lemma RejectedUpdateIsJustified(events: seq<Event>, more: seq<Event>, p: nat, rev: Revision, ns: string, attrs: seq<Attr>)
    requires After(events + more).Some? && After(events).Some?
    requires p in After(events).value.peers
    requires StartUpdate(After(events).value.peers[p].cache, rev, ns, attrs).Err?
    ensures var s' := After(events + more).value;
            s'.isRemoved || TryUpdate(s'.owner.state, rev, ns, attrs).result.Err?
  {
    var s, s' := After(events).value, After(events + more).value;
    AlwaysTrue(events);
    AlwaysTrue(events + more);
    RunContinues(events, more);
    var c := s.peers[p].cache;
    assert PeerTrue(s.owner.versions, s.owner.state.isDestroyed, s.peers[p]);
    if !c.isClosed && c.highestRev <= rev && rev == s'.owner.state.rev {
      var a := KnownFrozenIn(NsIn(c, ns), rev, attrs);
      NsInTrue(s.owner.versions, s.peers[p].clears, c, ns);
      var e := NsIn(c, ns)[a.key];
      CachedFrozenAgrees(events, more, p, ns, a.key, rev);
      if WriteAll(TableIn(s'.owner.state.attrs, ns), attrs, Inc32(rev)).Some? {
        FrozenInTheWay(TableIn(s'.owner.state.attrs, ns), attrs, Inc32(rev), a.key);
      }
    }
  }

  lemma {:induction false} KnownFrozenIn(nc: NsCache, rev: Revision, attrs: seq<Attr>) returns (a: Attr)
    requires Filter(nc, rev, attrs) == None
    ensures a in attrs && KnownFrozen(nc, a)
  {
    var m := |attrs| - 1;
    if Filter(nc, rev, attrs[..m]) == None {
      a := KnownFrozenIn(nc, rev, attrs[..m]);
    } else {
      a := attrs[m];
    }
  }

  lemma RejectedClearIsJustified(events: seq<Event>, more: seq<Event>, p: nat, rev: Revision, ns: string)
    requires After(events + more).Some? && After(events).Some?
    requires p in After(events).value.peers
    requires StartClear(After(events).value.peers[p].cache, rev, ns).Some?
    ensures var s' := After(events + more).value;
            s'.isRemoved || TryClear(s'.owner.state, rev, ns).result.Err?
  {
    var s, s' := After(events).value, After(events + more).value;
    AlwaysTrue(events);
    AlwaysTrue(events + more);
    RunContinues(events, more);
    var c := s.peers[p].cache;
    assert PeerTrue(s.owner.versions, s.owner.state.isDestroyed, s.peers[p]);
    if !c.isClosed && c.highestRev <= rev && rev == s'.owner.state.rev {
      FrozenBlocksClear(events, more, p, rev, ns);
    }
  }

  lemma FrozenBlocksClear(events: seq<Event>, more: seq<Event>, p: nat, rev: Revision, ns: string)
    requires After(events + more).Some? && After(events).Some?
    requires p in After(events).value.peers && rev == After(events + more).value.owner.state.rev
    requires !KnownClearable(NsIn(After(events).value.peers[p].cache, ns))
    requires After(events).value.peers[p].cache.highestRev <= rev
    ensures !Clearable(TableIn(After(events + more).value.owner.state.attrs, ns))
  {
    var s, s' := After(events).value, After(events + more).value;
    AlwaysTrue(events);
    AlwaysTrue(events + more);
    var nc := NsIn(s.peers[p].cache, ns);
    var k :| k in nc && nc[k].attr.attr.isFrozen && nc[k].attr.attr.value != "";
    assert PeerTrue(s.owner.versions, s.owner.state.isDestroyed, s.peers[p]);
    NsInTrue(s.owner.versions, s.peers[p].clears, s.peers[p].cache, ns);
    CachedFrozenAgrees(events, more, p, ns, k, rev);
    assert AttrAt(s'.owner.state.attrs, ns, k) == nc[k].attr.attr;
  }

  // A destroy that the cache alone rejects as stale would be rejected. One that it
  // rejects as not found would be rejected exactly if the session has left the
  // owner's store or rev is not its last revision: until then the owner answers
  // a second destroy at the last revision with success.
  lemma RejectedDestroyIsJustifiedIff(events: seq<Event>, more: seq<Event>, p: nat, rev: Revision)
    requires After(events + more).Some? && After(events).Some?
    requires p in After(events).value.peers
    requires StartDestroy(After(events).value.peers[p].cache, rev).Some?
    ensures var s' := After(events + more).value;
            var e := StartDestroy(After(events).value.peers[p].cache, rev).value;
            && (e == StaleUpdate(rev) ==> ServeDestroy(s', rev).1.destroyed.Err?)
            && (e == NotFound ==>
                  && s'.owner.state.isDestroyed
                  && (ServeDestroy(s', rev).1.destroyed.Err? <==> s'.isRemoved || rev != s'.owner.state.rev))
  {
    AlwaysTrue(events);
    AlwaysTrue(events + more);
    RunContinues(events, more);
    var s := After(events).value;
    assert PeerTrue(s.owner.versions, s.owner.state.isDestroyed, s.peers[p]);
  }

  // ---- Reads below a remote Clear ----

  // The revision that last wrote the key, as of revision r; zero if none has.
  ghost function LastWrite(h: Versions, r: nat, ns: string, k: string): nat
    requires r < |h|
  {
    if k in TableAt(h, r, ns) then TableAt(h, r, ns)[k].updatedAt else 0
  }

  // From its last write on, the attribute is the same.
  lemma SameSinceLastWrite(h: Versions, r: nat, q: nat, ns: string, k: string)
    requires ValidHistory(h) && r <= q < |h| && LastWrite(h, q, ns, k) <= r
    ensures AttrAt(h[r], ns, k) == AttrAt(h[q], ns, k)
  {
    if k in TableAt(h, q, ns) {
      StampsSummariseHistory(h, q, ns, k);
      assert TableAt(h, r, ns)[k] == TableAt(h, q, ns)[k];
    } else if k in TableAt(h, r, ns) {
      Persists(h, r, q, ns, k);
    }
  }

  // A Clear writes to a key exactly if it has a value.
  lemma ClearWritesIff(h: Versions, u: Revision, ns: string, k: string)
    requires ValidHistory(h) && 0 < u < |h| && ClearedAt(h, u, ns)
    ensures AttrAt(h[u - 1], ns, k).value == "" <==> LastWrite(h, u, ns, k) < u
  {
    if k in TableAt(h, u - 1, ns) {
      StampsInRange(h, u - 1, ns, k);
    }
  }

  ghost predicate IsRight(h: Versions, rev: nat, ns: string, k: string, answer: Answer)
    requires rev < |h|
  {
    answer.Solved? && answer.attr.value == AttrAt(h[rev], ns, k).value
  }

  // A completed Clear at u blanks an entry fetched at f < u; afterwards the cache
  // answers "" at every revision from the entry's UpdatedAt up to u. Before, it
  // answered up to f only and left the others to the owner. The new answer is right
  // - at a revision up to f exactly if the old one was, and was empty;
  // - after f exactly if the last write up to that revision wrote the empty value, or,
  //   if there has been none since f, the cached value was empty.
  // It is right from the owner's last write to the key on, as the stamp at u tells; at
  // the revision the Clear was made against, exactly then.
  lemma BlankedReadIff(h: Versions, clears: set<Revision>, ns: string, k: string, nc: NsCache, u: Revision, rev: Revision)
    requires ValidHistory(h) && 0 < u < |h| && ClearedAt(h, u, ns)
    requires k in nc && EntryTrue(h, clears, ns, k, nc[k]) && nc[k].fetchedAt < u
    requires nc[k].fetchedAt in clears ==> nc[k].attr.attr.value == ""
    requires nc[k].attr.createdAt <= rev && nc[k].attr.updatedAt <= rev <= u
    ensures BlankedReads(h, clears, ns, k, nc[k], u, rev, Consult(nc, rev, k), Consult(BlankEntries(nc, u), rev, k))
  {
    var f := nc[k].fetchedAt;
    ClearWritesIff(h, u, ns, k);
    assert AttrAt(h[u], ns, k).value == "";
    if nc[k].attr.attr.isFrozen {
      CachedFrozenForever(h, clears, ns, k, nc[k], u);
    }
    if LastWrite(h, u, ns, k) <= rev {
      SameSinceLastWrite(h, rev, u, ns, k);
    }
    if f < rev {
      var w := LastWrite(h, rev, ns, k);
      if k in TableAt(h, rev, ns) {
        StampsInRange(h, rev, ns, k);
      }
      SameSinceLastWrite(h, if w <= f then f else w, rev, ns, k);
    }
  }

  ghost predicate BlankedReads(h: Versions, clears: set<Revision>, ns: string, k: string, e: CachedAttr, u: Revision, rev: Revision,
                               before: Answer, after: Answer)
    requires rev <= u < |h|
  {
    var isRight := IsRight(h, rev, ns, k, after);
    && after == Solved(e.attr.attr.(value := ""))
    && (if rev <= e.fetchedAt then before == Solved(e.attr.attr)
        else if e.attr.attr.isFrozen then before == after
        else before == Unsolved)
    && (rev <= e.fetchedAt && e.fetchedAt !in clears ==> IsRight(h, rev, ns, k, before))
    && (isRight <==>
        if rev <= e.fetchedAt then IsRight(h, rev, ns, k, before) && e.attr.attr.value == ""
        else if LastWrite(h, rev, ns, k) <= e.fetchedAt then e.attr.attr.value == ""
        else LastWrite(h, rev, ns, k) <= rev && AttrAt(h[LastWrite(h, rev, ns, k)], ns, k).value == "")
    && (LastWrite(h, u, ns, k) <= rev ==> isRight)
    && (rev + 1 == u ==> (isRight <==> LastWrite(h, u, ns, k) <= rev))
  }

  // So it is on every run, whenever a peer absorbs the reply to one of its Clears.
  lemma {:induction false} ReadBelowClearIff(events: seq<Event>, p: nat, id: nat, asked: Revision, ns: string, k: string, u: Revision,
                                             rev: Revision)
    requires After(events).Some?
    requires var s := After(events).value;
             && InRange(s.owner.state) && InCall(s, p, id)
             && s.peers[p].calls[id] == ClearServed(asked, ns, Ok(u))
             && k in NsIn(s.peers[p].cache, ns)
    requires var e := NsIn(After(events).value.peers[p].cache, ns)[k];
             && e.fetchedAt < u
             && e.attr.createdAt <= rev && e.attr.updatedAt <= rev <= u
    ensures var s := After(events).value;
            var nc := NsIn(s.peers[p].cache, ns);
            && u < |s.owner.versions|
            && BlankedReads(s.owner.versions, Clears(s.peers[p].clears, ns), ns, k, nc[k], u, rev,
                            Consult(nc, rev, k), Consult(NsIn(Do(s, Finish(p, id)).peers[p].cache, ns), rev, k))
  {
    AlwaysTrue(events);
    var s := After(events).value;
    assert CallTrue(s.owner.versions, s.owner.state.isDestroyed, s.peers[p].clears, s.peers[p].calls[id]);
    ClearBlanks(s, p, id, asked, ns, u);
    PeerBlankedRead(s.owner.versions, s.owner.state.isDestroyed, s.peers[p], ns, k, u, rev);
  }

  lemma PeerBlankedRead(h: Versions, d: bool, peer: Peer, ns: string, k: string, u: Revision, rev: Revision)
    requires ValidHistory(h) && PeerTrue(h, d, peer) && 0 < u < |h| && ClearedAt(h, u, ns)
    requires k in NsIn(peer.cache, ns)
    requires var e := NsIn(peer.cache, ns)[k];
             e.fetchedAt < u && e.attr.createdAt <= rev && e.attr.updatedAt <= rev <= u
    ensures var nc := NsIn(peer.cache, ns);
            BlankedReads(h, Clears(peer.clears, ns), ns, k, nc[k], u, rev, Consult(nc, rev, k), Consult(BlankEntries(nc, u), rev, k))
  {
    NsInTrue(h, peer.clears, peer.cache, ns);
    var e := NsIn(peer.cache, ns)[k];
    if e.fetchedAt in Clears(peer.clears, ns) {
      assert AttrAt(h[e.fetchedAt], ns, k).value == "";
    }
    BlankedReadIff(h, Clears(peer.clears, ns), ns, k, NsIn(peer.cache, ns), u, rev);
  }

  lemma ClearBlanks(s: System, p: nat, id: nat, asked: Revision, ns: string, u: Revision)
    requires Enabled(s, Finish(p, id)) && s.peers[p].calls[id] == ClearServed(asked, ns, Ok(u))
    ensures p in Do(s, Finish(p, id)).peers
    ensures NsIn(Do(s, Finish(p, id)).peers[p].cache, ns) == BlankEntries(NsIn(s.peers[p].cache, ns), u)
  {
    assert BlankEntries(map[], u) == map[];
  }

  // ---- Stale reads after an update ----

  lemma {:induction false} StampMovesIff(t: Table, attrs: seq<Attr>, nextRev: Revision, i: nat)
    requires DistinctKeys(attrs) && i < |attrs|
    requires WriteAll(t, attrs, nextRev).Some?
    requires attrs[i].key in t
    ensures var t' := WriteAll(t, attrs, nextRev).value.table;
            var v := t[attrs[i].key];
            && attrs[i].key in t'
            && t'[attrs[i].key] == if attrs[i].value == v.attr.value && attrs[i].isFrozen == v.attr.isFrozen then v
                                   else VAttr(attrs[i], v.createdAt, nextRev)
    decreases |attrs|
  {
    var m := |attrs| - 1;
    if i < m {
      StampMovesIff(t, attrs[..m], nextRev, i);
    } else {
      UntouchedKeeps(t, attrs[..m], nextRev, attrs[m].key);
    }
  }

  // The client stamps whatever it sent with the revision u of the update. Reading
  // such an attribute at any earlier revision at which it existed is therefore stale
  // for the cache; the owner cannot answer it either exactly if the update changed it
  // or it had been written after that revision already.
  lemma StaleAfterUpdateIff(h: Versions, u: Revision, q: nat, ns: string, attrs: seq<Attr>, i: nat, rev: Revision)
    requires ValidHistory(h) && 0 < u <= q < |h|
    requires DistinctKeys(attrs) && i < |attrs|
    requires WriteAll(TableAt(h, u - 1, ns), attrs, u).Some?
    requires TableAt(h, u, ns) == WriteAll(TableAt(h, u - 1, ns), attrs, u).value.table
    requires rev < u && attrs[i].key in TableAt(h, rev, ns)
    ensures var v := Stamped(attrs, Updated(u, CreatedRevs(TableAt(h, q, ns), attrs)))[i];
            Consult(map[attrs[i].key := CachedAttr(v, u)], rev, attrs[i].key) == Stale
    ensures attrs[i].key in TableAt(h, u - 1, ns)
    ensures ((History.Get(h[u], rev, ns, attrs[i].key) == Err(StaleFetch(rev))) <==>
             (attrs[i] != AttrAt(h[u - 1], ns, attrs[i].key) || TableAt(h, u - 1, ns)[attrs[i].key].updatedAt > rev))
  {
    var k := attrs[i].key;
    var t := TableAt(h, u - 1, ns);
    Persists(h, rev, u - 1, ns, k);
    Persists(h, rev, u, ns, k);
    StampsInRange(h, rev, ns, k);
    StampMovesIff(t, attrs, u, i);
    Persists(h, u - 1, q, ns, k);
    Persists(h, u - 1, u, ns, k);
    StampsInRange(h, u - 1, ns, k);
    CatalogsKeyed(h, u - 1, ns);
    WriteAllMeaning(t, attrs, u);
    CurrentDistinct(t, attrs, |attrs|, i);
  }

  // ---- Repeated keys in one update ----

  function FirstWith(attrs: seq<Attr>, key: string): Option<Attr> {
    if |attrs| == 0 then None
    else if attrs[0].key == key then Some(attrs[0])
    else FirstWith(attrs[1..], key)
  }

  lemma {:induction false} FirstWithPrefix(attrs: seq<Attr>, key: string)
    requires |attrs| > 0
    ensures var before := FirstWith(attrs[..|attrs| - 1], key);
            FirstWith(attrs, key) == if before.Some? then before
            else if attrs[|attrs| - 1].key == key then Some(attrs[|attrs| - 1])
            else None
  {
    if |attrs| > 1 && attrs[0].key != key {
      assert attrs[1..][..|attrs| - 2] == attrs[..|attrs| - 1][1..];
      FirstWithPrefix(attrs[1..], key);
    }
  }

  // Of several attributes with the same key in one response the first is cached.
  lemma {:induction false} StoresFirst(nc: NsCache, attrs: seq<Attr>, u: Updated, key: string)
    requires |u.createdRevs| == |attrs| && u.rev > 0
    requires key in nc ==> nc[key].fetchedAt < u.rev
    ensures var nc' := StoreAll(nc, Stamped(attrs, u), u.rev);
            match FirstWith(attrs, key)
            case Some(a) => key in nc' && nc'[key].attr.attr == a && nc'[key].fetchedAt == u.rev
            case None => (key in nc' <==> key in nc) && (key in nc ==> nc'[key] == nc[key])
  {
    if |attrs| > 0 {
      var m := |attrs| - 1;
      var u' := Updated(u.rev, u.createdRevs[..m]);
      assert Stamped(attrs, u)[..m] == Stamped(attrs[..m], u');
      StoresFirst(nc, attrs[..m], u', key);
      FirstWithPrefix(attrs, key);
    }
  }

  // After a successful update at u, with keys repeated or not, what the cache has
  // stored for a key is the owner's attribute at u exactly if the first element of
  // the list with that key equals the last one.
  lemma RepeatedKeysIff(h: Versions, u: Revision, q: nat, ns: string, nc: NsCache, attrs: seq<Attr>, i: nat)
    requires ValidHistory(h) && 0 < u <= q < |h| && i < |attrs|
    requires WriteAll(TableAt(h, u - 1, ns), attrs, u).Some?
    requires TableAt(h, u, ns) == WriteAll(TableAt(h, u - 1, ns), attrs, u).value.table
    requires attrs[i].key in nc ==> nc[attrs[i].key].fetchedAt < u
    ensures var k := attrs[i].key;
            var nc' := StoreAll(nc, Stamped(attrs, Updated(u, CreatedRevs(TableAt(h, q, ns), attrs))), u);
            && k in nc'
            && (nc'[k].attr.attr == AttrAt(h[u], ns, k)
                <==> FirstWith(attrs, k) == Some(Current(map[], attrs, |attrs|, k)))
  {
    var k := attrs[i].key;
    StoresFirst(nc, attrs, Updated(u, CreatedRevs(TableAt(h, q, ns), attrs)), k);
    CatalogsKeyed(h, u - 1, ns);
    WriteAllMeaning(TableAt(h, u - 1, ns), attrs, u);
    FirstWithPresent(attrs, i);
    CurrentOfList(TableAt(h, u - 1, ns), map[], attrs, |attrs|, i);
  }

  lemma {:induction false} FirstWithPresent(attrs: seq<Attr>, i: nat)
    requires i < |attrs|
    ensures FirstWith(attrs, attrs[i].key).Some?
  {
    if i > 0 && attrs[0].key != attrs[i].key {
      FirstWithPresent(attrs[1..], i - 1);
    }
  }

  lemma {:induction false} CurrentOfList(t: Table, t': Table, attrs: seq<Attr>, n: nat, i: nat)
    requires i < n <= |attrs|
    ensures Current(t, attrs, n, attrs[i].key) == Current(t', attrs, n, attrs[i].key)
  {
    if i < n - 1 {
      CurrentOfList(t, t', attrs, n - 1, i);
    }
  }
}

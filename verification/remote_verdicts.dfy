/**
  What the remote session tells its callers: which verdict a call gets, from the cache
  alone or from the reply, and what a success means for the owner's history.
 */
module RemoteVerdicts {
  import opened Attributes
  import opened SessionState
  import opened History
  import opened SessionRuns
  import opened AttrCache
  import opened CacheTruth
  import opened SessionProtocol
  import opened SessionGuarantees
  import opened CacheContents

  // ---- Before the owner is asked ----

  // The entry existed at rev and has been written since.
  predicate IsStale(nc: NsCache, rev: Revision, k: string) {
    k in nc && nc[k].attr.createdAt <= rev < nc[k].attr.updatedAt
  }

  // The entry covers rev: it is as the owner had it from UpdatedAt to FetchedAt, and for
  // good if it is frozen.
  predicate Covers(e: CachedAttr, rev: Revision) {
    e.attr.createdAt <= rev && e.attr.updatedAt <= rev && (rev <= e.fetchedAt || e.attr.attr.isFrozen)
  }

  // The cache cannot tell.
  predicate IsUnknown(nc: NsCache, rev: Revision, k: string) {
    k !in nc || (nc[k].attr.createdAt <= rev && nc[k].attr.updatedAt <= rev && !Covers(nc[k], rev))
  }

  lemma {:induction false} ConsultAllFails(nc: NsCache, rev: Revision, keys: seq<string>)
    ensures ConsultAll(nc, rev, keys) == None <==> exists k | k in keys :: IsStale(nc, rev, k)
  {
    if |keys| > 0 {
      var m := |keys| - 1;
      ConsultAllFails(nc, rev, keys[..m]);
      assert keys[m] in keys;
      if k :| k in keys[..m] && IsStale(nc, rev, k) {
        assert k in keys;
      }
    }
  }

  // A fetch is stale exactly if one of its keys is; otherwise the cache answers what it
  // covers, and leaves to the owner exactly what it cannot tell - which on a closed
  // session is an error.
  lemma FetchLocalVerdict(c: Cache, rev: Revision, ns: string, keys: seq<string>)
    ensures var nc := NsIn(c, ns);
            var r := FetchLocal(c, rev, ns, keys);
            var isStale := exists k | k in keys :: IsStale(nc, rev, k);
            var isOpen := exists k | k in keys :: IsUnknown(nc, rev, k);
            && (r == Err(StaleFetch(rev)) <==> isStale)
            && (r == Err(NotFound) <==> !isStale && c.isClosed && isOpen)
            && (r.Ok? <==> !isStale && !(c.isClosed && isOpen))
            && (r.Ok? ==>
                  && (forall k :: k in r.value.unsolved <==> k in keys && IsUnknown(nc, rev, k))
                  && (forall a :: a in r.value.solved <==> exists k | k in keys :: k in nc && Covers(nc[k], rev) && a == nc[k].attr.attr))
  {
    var nc := NsIn(c, ns);
    ConsultAllFails(nc, rev, keys);
    if ConsultAll(nc, rev, keys).Some? {
      ConsultAllMembers(nc, rev, keys);
      var l := ConsultAll(nc, rev, keys).value;
      forall k | k in keys ensures Consult(nc, rev, k) == Unsolved <==> IsUnknown(nc, rev, k) {
      }
      if |l.unsolved| > 0 {
        assert l.unsolved[0] in l.unsolved;
      }
      forall a ensures a in l.solved <==> exists k | k in keys :: k in nc && Covers(nc[k], rev) && a == nc[k].attr.attr {
        forall k | k in keys ensures Consult(nc, rev, k) == Solved(a) <==> k in nc && Covers(nc[k], rev) && a == nc[k].attr.attr {
        }
      }
    }
  }

  // The cache has a as it is asked for: at rev, or for good.
  predicate IsHeld(nc: NsCache, rev: Revision, a: Attr) {
    a.key in nc && nc[a.key].attr.attr == a && (a.isFrozen || nc[a.key].fetchedAt == rev)
  }

  predicate IsBarred(nc: NsCache, a: Attr) {
    a.key in nc && nc[a.key].attr.attr.isFrozen && nc[a.key].attr.attr != a
  }

  lemma {:induction false} FilterMembers(nc: NsCache, rev: Revision, attrs: seq<Attr>)
    ensures Filter(nc, rev, attrs) == None <==> exists a | a in attrs :: IsBarred(nc, a)
    ensures Filter(nc, rev, attrs).Some? ==>
              forall a :: a in Filter(nc, rev, attrs).value <==> a in attrs && !IsHeld(nc, rev, a)
  {
    if |attrs| > 0 {
      var m := |attrs| - 1;
      FilterMembers(nc, rev, attrs[..m]);
      assert forall a :: a in attrs <==> a in attrs[..m] || a == attrs[m];
      assert attrs[m] in attrs;
      if a :| a in attrs[..m] && IsBarred(nc, a) {
        assert a in attrs;
      }
    }
  }

  // What an update is told without the owner being asked, and what is sent otherwise:
  // all but the attributes the cache holds as they are asked for.
  lemma StartUpdateVerdict(c: Cache, rev: Revision, ns: string, attrs: seq<Attr>)
    ensures var nc := NsIn(c, ns);
            var r := StartUpdate(c, rev, ns, attrs);
            var isBarred := exists a | a in attrs :: IsBarred(nc, a);
            && (r == Err(NotFound) <==> c.isClosed)
            && (r == Err(StaleUpdate(rev)) <==> !c.isClosed && rev < c.highestRev)
            && (r == Err(FrozenAttributes(rev)) <==> !c.isClosed && c.highestRev <= rev && isBarred)
            && (r.Ok? <==> !c.isClosed && c.highestRev <= rev && !isBarred)
            && (r.Ok? ==> forall a :: a in r.value <==> a in attrs && !IsHeld(nc, rev, a))
  {
    FilterMembers(NsIn(c, ns), rev, attrs);
  }

  lemma StartOthersVerdict(c: Cache, rev: Revision, ns: string)
    ensures var nc := NsIn(c, ns);
            var isBarred := exists k | k in nc :: nc[k].attr.attr.isFrozen && nc[k].attr.attr.value != "";
            && (StartClear(c, rev, ns) == Some(NotFound) <==> c.isClosed)
            && (StartClear(c, rev, ns) == Some(StaleUpdate(rev)) <==> !c.isClosed && rev < c.highestRev)
            && (StartClear(c, rev, ns) == Some(FrozenAttributes(rev)) <==> !c.isClosed && c.highestRev <= rev && isBarred)
            && (StartClear(c, rev, ns) == None <==> !c.isClosed && c.highestRev <= rev && !isBarred)
    ensures StartDestroy(c, rev) == Some(NotFound) <==> c.isClosed
    ensures StartDestroy(c, rev) == Some(StaleUpdate(rev)) <==> !c.isClosed && rev < c.highestRev
    ensures StartDestroy(c, rev) == None <==> !c.isClosed && c.highestRev <= rev
    ensures StartHead(c) == if c.isClosed then Some(NotFound) else None
  {
  }

  // ---- Once the reply is there ----

  function Max(a: Revision, b: Revision): Revision {
    if a < b then b else a
  }

  // The session is closed by *not found*, and the highest revision known is the reply's
  // if that is higher.
  ghost predicate Observed(before: Cache, after: Cache, reply: Result<Revision, Error>) {
    && (after.isClosed <==> before.isClosed || reply == Err(NotFound))
    && after.highestRev == (if reply.Ok? then Max(before.highestRev, reply.value) else before.highestRev)
  }

  // A call succeeds exactly if its reply does, with the highest revision known; it fails
  // with the reply's own error.
  ghost predicate Told(before: Cache, reply: Result<Revision, Error>, r: Result<Revision, Error>) {
    match reply
    case Ok(rev) => r == Ok(Max(before.highestRev, rev))
    case Err(e) => r == Err(e)
  }

  lemma FinishUpdateVerdict(c: Cache, ns: string, reply: Result<Fetched, Error>)
    ensures var o := FinishUpdate(c, ns, reply);
            var made: Result<Revision, Error> := if reply.Ok? then Ok(reply.value.rev) else Err(reply.error);
            Told(c, made, o.result) && Observed(c, o.next, made)
  {
  }

  lemma FinishHeadVerdict(c: Cache, reply: Result<Revision, Error>)
    ensures Told(c, reply, FinishHead(c, reply).result) && Observed(c, FinishHead(c, reply).next, reply)
    ensures forall rev :: if c.isClosed then SeeRevision(c, rev) == c else Observed(c, SeeRevision(c, rev), Ok(rev))
  {
  }

  lemma FinishClearVerdict(c: Cache, ns: string, reply: Result<Revision, Error>)
    ensures Told(c, reply, FinishClear(c, ns, reply).result) && Observed(c, FinishClear(c, ns, reply).next, reply)
  {
  }

  // A destroy has the reply's verdict; only success closes the session.
  lemma FinishDestroyVerdict(c: Cache, reply: Result<(), Error>)
    ensures FinishDestroy(c, reply).result.Ok? <==> reply.Ok?
    ensures reply.Err? ==> FinishDestroy(c, reply).result == Err(reply.error)
    ensures FinishDestroy(c, reply).next.isClosed <==> c.isClosed || reply.Ok?
    ensures FinishDestroy(c, reply).next.highestRev == c.highestRev
  {
  }

  // A fetch that the owner has answered fails only if an attribute that existed at rev
  // has been written since; otherwise it returns what the cache had solved and the
  // attributes of the reply that existed at rev.
  lemma FinishFetchVerdict(c: Cache, rev: Revision, ns: string, solved: seq<Attr>, reply: Result<Fetched, Error>)
    ensures var o := FinishFetch(c, rev, ns, solved, reply);
            && (reply.Err? ==> o.result == Err(reply.error) && Observed(c, o.next, Err(reply.error)))
            && (reply.Ok? ==>
                  var isStale := exists v | v in reply.value.attrs :: v.createdAt <= rev < v.updatedAt;
                  && Observed(c, o.next, Ok(reply.value.rev))
                  && (if isStale then o.result == Err(StaleFetch(rev)) else o.result.Ok?)
                  && (o.result.Ok? ==>
                        forall a :: a in o.result.value <==>
                                    a in solved || exists v | v in reply.value.attrs :: v.createdAt <= rev && a == v.attr))
  {
    if reply.Ok? {
      AnswersMembers(solved, reply.value.attrs, rev);
    }
  }

  // What has been fetched once is not fetched again: for every attribute of the reply
  // to a fetch at rev, the cache has an answer at rev afterwards.
  lemma FetchedIsCached(c: Cache, rev: Revision, ns: string, solved: seq<Attr>, f: Fetched, v: VAttr)
    requires rev <= f.rev && 0 < f.rev && v in f.attrs
    ensures !IsUnknown(NsIn(FinishFetch(c, rev, ns, solved, Ok(f)).next, ns), rev, v.attr.key)
  {
    FetchAbsorbs(c, rev, ns, solved, f);
    FirstOfIsFirst(f.attrs, v.attr.key);
    assert AbsorbedAt(NsIn(c, ns), NsIn(FinishFetch(c, rev, ns, solved, Ok(f)).next, ns), f.attrs, f.rev, v.attr.key);
  }

  // ---- What the owner does with a request ----

  // While the session is in its store, the owner's handlers pass on its verdict; once it
  // has been dropped everything is *not found*.
  lemma ServeVerdict(s: System, rev: Revision, ns: string, attrs: seq<Attr>)
    requires InRange(s.owner.state)
    ensures var o := TryUpdate(s.owner.state, rev, ns, attrs);
            var (owner, call) := ServeUpdate(s, rev, ns, attrs);
            && (call == UpdateCommitted(rev, ns, attrs, Inc32(rev)) <==> !s.isRemoved && o.result.Ok?)
            && (call == UpdateServed(rev, ns, attrs, Err(NotFound)) <==> s.isRemoved || o.result == Err(NotFound))
            && (!s.isRemoved && o.result.Err? ==> call == UpdateServed(rev, ns, attrs, Err(o.result.error)))
            && owner.state == if s.isRemoved then s.owner.state else o.next
    ensures var o := TryClear(s.owner.state, rev, ns);
            var (owner, call) := ServeClear(s, rev, ns);
            && call == ClearServed(rev, ns, if s.isRemoved then Err(NotFound) else o.result)
            && owner.state == if s.isRemoved then s.owner.state else o.next
    ensures var o := TryDestroy(s.owner.state, rev);
            var (owner, call) := ServeDestroy(s, rev);
            && call.DestroyServed?
            && (call.destroyed.Ok? <==> !s.isRemoved && rev == s.owner.state.rev)
            && (call.destroyed.Err? ==> call.destroyed == Err(if s.isRemoved then NotFound else StaleUpdate(rev)))
            && owner.state == if s.isRemoved then s.owner.state else o.next
  {
  }

  // A fetch is answered with the head and exactly the attributes asked for that exist.
  lemma ServeReadVerdict(s: System, rev: Revision, ns: string, keys: seq<string>, l: Local)
    ensures ServeCall(s, HeadSent) == (s.owner, HeadServed(if s.isRemoved then Err(NotFound) else Ok(s.owner.state.rev)))
    ensures var (owner, call) := ServeCall(s, FetchSent(rev, ns, keys, l));
            var t := TableIn(s.owner.state.attrs, ns);
            && owner == s.owner
            && call.FetchServed? && call.rev == rev && call.ns == ns && call.keys == keys && call.local == l
            && (call.fetched.Err? <==> s.isRemoved)
            && (call.fetched.Err? ==> call.fetched.error == NotFound)
            && (call.fetched.Ok? ==>
                  && call.fetched.value.rev == s.owner.state.rev
                  && forall v :: v in call.fetched.value.attrs <==> exists k | k in l.unsolved :: k in t && v == t[k])
  {
    SelectMembers(TableIn(s.owner.state.attrs, ns), l.unsolved);
  }

  // ---- What a success means ----

  // Each attribute is as it was asked for last, and everything else is as before.
  ghost predicate UpdatedTo(before: Catalog, after: Catalog, ns: string, attrs: seq<Attr>) {
    && (forall k :: AttrAt(after, ns, k) == Current(TableIn(before, ns), attrs, |attrs|, k))
    && (forall n | n != ns :: TableIn(after, n) == TableIn(before, n))
  }

  // Each attribute of the namespace is as before but empty, and everything else is as
  // before.
  ghost predicate EmptiedTo(before: Catalog, after: Catalog, ns: string) {
    && (forall k :: AttrAt(after, ns, k) == AttrAt(before, ns, k).(value := ""))
    && (forall n | n != ns :: TableIn(after, n) == TableIn(before, n))
  }

  lemma CommittedUpdates(h: Versions, rev: Revision, ns: string, attrs: seq<Attr>)
    requires ValidHistory(h) && rev < MAX_UINT32 && rev + 1 < |h| && CommittedAt(h, rev, ns, attrs)
    ensures UpdatedTo(h[rev], h[rev + 1], ns, attrs)
  {
    CatalogsKeyed(h, rev, ns);
    WriteAllMeaning(TableAt(h, rev, ns), attrs, rev + 1);
    assert TableIn(h[rev + 1], ns) == TableAt(h, rev + 1, ns);
  }

  lemma ClearedEmpties(h: Versions, u: Revision, ns: string)
    requires 0 < u < |h| && ClearedAt(h, u, ns)
    ensures EmptiedTo(h[u - 1], h[u], ns)
  {
  }

  // On every run, an update that returns success was committed by the owner: the next
  // revision after the one asked for holds each attribute as it was asked for last, and
  // differs from that one in nothing else.
  lemma {:induction false} UpdateReturnsCommitted(events: seq<Event>, p: nat, id: nat)
    requires After(events).Some? && InCall(After(events).value, p, id)
    requires After(events).value.peers[p].calls[id].UpdateServed?
    ensures var s := After(events).value;
            UpdateToldTruly(s.owner.versions, s.peers[p].cache, s.peers[p].calls[id])
  {
    AlwaysTrue(events);
    var s := After(events).value;
    CallIsTrue(s, p, id);
    TrueUpdateIsTold(s.owner.versions, s.owner.state.isDestroyed, s.peers[p].clears, s.peers[p].cache, s.peers[p].calls[id]);
  }

  ghost predicate UpdateToldTruly(h: Versions, c: Cache, call: Call)
    requires call.UpdateServed?
  {
    var r := FinishUpdate(c, call.ns, call.updated).result;
    && (r.Err? ==> call.updated == Err(r.error))
    && (r.Ok? ==>
          call.rev + 1 < |h| && call.rev + 1 <= r.value && UpdatedTo(h[call.rev], h[call.rev + 1], call.ns, call.attrs))
  }

  lemma TrueUpdateIsTold(h: Versions, d: bool, clears: map<string, set<Revision>>, c: Cache, call: Call)
    requires ValidHistory(h) && CallTrue(h, d, clears, call) && call.UpdateServed?
    ensures UpdateToldTruly(h, c, call)
  {
    FinishUpdateVerdict(c, call.ns, call.updated);
    if call.updated.Ok? {
      CommittedUpdates(h, call.rev, call.ns, call.attrs);
    }
  }

  // A clear that returns success made the next revision after the one asked for, in which
  // each attribute of the namespace is as before but empty.
  lemma {:induction false} ClearReturnsCommitted(events: seq<Event>, p: nat, id: nat)
    requires After(events).Some? && InCall(After(events).value, p, id)
    requires After(events).value.peers[p].calls[id].ClearServed?
    ensures var s := After(events).value;
            ClearToldTruly(s.owner.versions, s.peers[p].cache, s.peers[p].calls[id])
  {
    AlwaysTrue(events);
    var s := After(events).value;
    CallIsTrue(s, p, id);
    TrueClearIsTold(s.owner.versions, s.owner.state.isDestroyed, s.peers[p].clears, s.peers[p].cache, s.peers[p].calls[id]);
  }

  ghost predicate ClearToldTruly(h: Versions, c: Cache, call: Call)
    requires call.ClearServed?
  {
    var r := FinishClear(c, call.ns, call.cleared).result;
    && (r.Err? ==> call.cleared == Err(r.error))
    && (r.Ok? ==> call.rev + 1 < |h| && call.rev + 1 <= r.value && EmptiedTo(h[call.rev], h[call.rev + 1], call.ns))
  }

  lemma TrueClearIsTold(h: Versions, d: bool, clears: map<string, set<Revision>>, c: Cache, call: Call)
    requires CallTrue(h, d, clears, call) && call.ClearServed?
    ensures ClearToldTruly(h, c, call)
  {
    FinishClearVerdict(c, call.ns, call.cleared);
    if call.cleared.Ok? {
      TrueClearEmpties(h, d, clears, call);
    }
  }

  lemma TrueClearEmpties(h: Versions, d: bool, clears: map<string, set<Revision>>, call: Call)
    requires CallTrue(h, d, clears, call) && call.ClearServed? && call.cleared.Ok?
    ensures call.rev + 1 == call.cleared.value < |h| && EmptiedTo(h[call.rev], h[call.rev + 1], call.ns)
  {
    ClearedEmpties(h, call.cleared.value, call.ns);
  }

  // A destroy that returns success leaves the owner's session destroyed.
  lemma {:induction false} DestroyReturnsDestroyed(events: seq<Event>, p: nat, id: nat)
    requires After(events).Some? && InCall(After(events).value, p, id)
    requires After(events).value.peers[p].calls[id].DestroyServed?
    ensures var s := After(events).value;
            var r := FinishDestroy(s.peers[p].cache, s.peers[p].calls[id].destroyed).result;
            r.Ok? ==> s.owner.state.isDestroyed
  {
    AlwaysTrue(events);
    var s := After(events).value;
    CallIsTrue(s, p, id);
  }

  // ---- Reads before an update ----

  // An attribute sent with an update that made revision u, stamped by way of the table of
  // a later revision q, and read at an earlier revision: if the key exists at q, the
  // cache says that it was empty exactly if it did not exist, and stale exactly if it
  // did. If it does not, because nothing was asked for and nothing was there, the stamp
  // is zero and the cache says stale.
  lemma CreatedStampIsExact(h: Versions, u: Revision, q: nat, ns: string, attrs: seq<Attr>, i: nat, rev: Revision)
    requires ValidHistory(h) && u <= q < |h| && i < |attrs| && rev < u
    ensures var k := attrs[i].key;
            var v := Stamped(attrs, Updated(u, CreatedRevs(TableAt(h, q, ns), attrs)))[i];
            var answer := Consult(map[k := CachedAttr(v, u)], rev, k);
            && (k in TableAt(h, q, ns) ==>
                  (answer == Empty <==> k !in TableAt(h, rev, ns)) && (answer == Stale <==> k in TableAt(h, rev, ns)))
            && (k in TableAt(h, u, ns) ==> k in TableAt(h, q, ns))
            && (k !in TableAt(h, q, ns) ==> answer == Stale)
  {
    var k := attrs[i].key;
    if k in TableAt(h, q, ns) {
      ExistsSinceCreated(h, rev, q, ns, k);
    }
    if k in TableAt(h, u, ns) {
      Persists(h, u, q, ns, k);
    }
  }

  // On every run, once a peer has absorbed the reply to its update at u, and held nothing
  // as late, it answers reads of what it sent, at any earlier revision, by whether the
  // owner had the key then.
  lemma {:induction false} ReadBeforeUpdate(events: seq<Event>, p: nat, id: nat, i: nat, rev: Revision)
    requires After(events).Some? && InRange(After(events).value.owner.state) && InCall(After(events).value, p, id)
    requires After(events).value.peers[p].calls[id].UpdateServed? && After(events).value.peers[p].calls[id].updated.Ok?
    requires var s := After(events).value;
             var call := s.peers[p].calls[id];
             && i < |call.attrs| && rev < call.updated.value.rev < |s.owner.versions|
             && HeldSince(NsIn(s.peers[p].cache, call.ns), call.attrs[i].key) < call.updated.value.rev
             && call.attrs[i].key in TableAt(s.owner.versions, call.updated.value.rev, call.ns)
    ensures var s := After(events).value;
            var call := s.peers[p].calls[id];
            var k := call.attrs[i].key;
            var answer := Consult(NsIn(Do(s, Finish(p, id)).peers[p].cache, call.ns), rev, k);
            answer == if k in TableAt(s.owner.versions, rev, call.ns) then Stale else Empty
  {
    AlwaysTrue(events);
    var s := After(events).value;
    var call := s.peers[p].calls[id];
    CallIsTrue(s, p, id);
    AbsorbedUpdate(s.owner.versions, s.peers[p].cache, call.updated.value.rev, call.ns, call.attrs, call.updated.value, i, rev);
    assert Do(s, Finish(p, id)).peers[p].cache == FinishUpdate(s.peers[p].cache, call.ns, call.updated).next;
  }

  lemma AbsorbedUpdate(h: Versions, c: Cache, u: Revision, ns: string, attrs: seq<Attr>, f: Fetched, i: nat, rev: Revision)
    requires ValidHistory(h) && rev < u < |h| && f.rev == u && DistinctKeys(attrs) && i < |attrs|
    requires exists q :: StampedFrom(h, u, q, ns, attrs, f.attrs)
    requires HeldSince(NsIn(c, ns), attrs[i].key) < u && attrs[i].key in TableAt(h, u, ns)
    ensures var k := attrs[i].key;
            Consult(NsIn(FinishUpdate(c, ns, Ok(f)).next, ns), rev, k) == if k in TableAt(h, rev, ns) then Stale else Empty
  {
    var k := attrs[i].key;
    var q :| StampedFrom(h, u, q, ns, attrs, f.attrs);
    UpdateAbsorbs(c, ns, f);
    assert AbsorbedAt(NsIn(c, ns), NsIn(FinishUpdate(c, ns, Ok(f)).next, ns), f.attrs, u, k);
    FirstOfIsFirst(f.attrs, k);
    assert f.attrs[i].attr.key == k;
    assert FirstOf(f.attrs, k) == Some(f.attrs[i]);
    CreatedStampIsExact(h, u, q, ns, attrs, i, rev);
  }
}

/**
  What a remote peer's cache holds after a reply has been absorbed, and what the caller
  is told, in terms of the entries and the reply alone.
 */
module CacheContents {
  import opened Attributes
  import opened SessionState
  import opened History
  import opened SessionRuns
  import opened AttrCache
  import opened CacheTruth
  import opened SessionProtocol
  import opened SessionGuarantees

  // ---- What a reply leaves in the cache ----

  // A missing entry counts as fetched at revision zero.
  function HeldSince(nc: NsCache, k: string): Revision {
    if k in nc then nc[k].fetchedAt else 0
  }

  predicate SameEntry(before: NsCache, after: NsCache, k: string) {
    (k in after <==> k in before) && (k in before ==> after[k] == before[k])
  }

  // The first attribute of a reply with the key.
  function FirstOf(attrs: seq<VAttr>, k: string): Option<VAttr> {
    if |attrs| == 0 then None
    else
      match FirstOf(attrs[..|attrs| - 1], k)
      case Some(v) => Some(v)
      case None => if attrs[|attrs| - 1].attr.key == k then Some(attrs[|attrs| - 1]) else None
  }

  lemma {:induction false} FirstOfIsFirst(attrs: seq<VAttr>, k: string)
    ensures match FirstOf(attrs, k)
            case None => forall v | v in attrs :: v.attr.key != k
            case Some(v) =>
              v.attr.key == k && exists i :: 0 <= i < |attrs| && attrs[i] == v && forall j | 0 <= j < i :: attrs[j].attr.key != k
  {
    if |attrs| > 0 {
      FirstOfIsFirst(attrs[..|attrs| - 1], k);
    }
  }

  // A reply at revision f has been absorbed: what was fetched at f or later stays, what
  // the reply does not have stays, and every other key holds the first attribute that
  // the reply has for it, fetched at f.
  ghost predicate Absorbed(before: NsCache, after: NsCache, attrs: seq<VAttr>, f: Revision) {
    forall k :: AbsorbedAt(before, after, attrs, f, k)
  }

  predicate AbsorbedAt(before: NsCache, after: NsCache, attrs: seq<VAttr>, f: Revision, k: string) {
    var first := FirstOf(attrs, k);
    if HeldSince(before, k) >= f || first == None then SameEntry(before, after, k)
    else k in after && after[k] == CachedAttr(first.value, f)
  }

  lemma {:induction false} StoreAllAbsorbs(nc: NsCache, attrs: seq<VAttr>, f: Revision, k: string)
    ensures AbsorbedAt(nc, StoreAll(nc, attrs, f), attrs, f, k)
  {
    if |attrs| > 0 {
      StoreAllAbsorbs(nc, attrs[..|attrs| - 1], f, k);
    }
  }

  ghost predicate OthersKept(before: Cache, after: Cache, ns: string) {
    forall n | n != ns && (n in before.entries || n in after.entries) ::
      n in before.entries && n in after.entries && after.entries[n] == before.entries[n]
  }

  lemma SetNsSetsOne(c: Cache, ns: string, nc: NsCache)
    ensures NsIn(SetNs(c, ns, nc), ns) == nc
    ensures OthersKept(c, SetNs(c, ns, nc), ns)
  {
  }

  lemma FetchAbsorbs(c: Cache, rev: Revision, ns: string, solved: seq<Attr>, f: Fetched)
    ensures var next := FinishFetch(c, rev, ns, solved, Ok(f)).next;
            && Absorbed(NsIn(c, ns), NsIn(next, ns), f.attrs, f.rev)
            && OthersKept(c, next, ns)
  {
    var nc := StoreAll(NsIn(c, ns), f.attrs, f.rev);
    SetNsSetsOne(Observe(c, Ok(f.rev)), ns, nc);
    forall k ensures AbsorbedAt(NsIn(c, ns), nc, f.attrs, f.rev, k) {
      StoreAllAbsorbs(NsIn(c, ns), f.attrs, f.rev, k);
    }
  }

  lemma UpdateAbsorbs(c: Cache, ns: string, f: Fetched)
    ensures var next := FinishUpdate(c, ns, Ok(f)).next;
            && Absorbed(NsIn(c, ns), NsIn(next, ns), f.attrs, f.rev)
            && OthersKept(c, next, ns)
  {
    var nc := StoreAll(NsIn(c, ns), f.attrs, f.rev);
    SetNsSetsOne(Observe(c, Ok(f.rev)), ns, nc);
    forall k ensures AbsorbedAt(NsIn(c, ns), nc, f.attrs, f.rev, k) {
      StoreAllAbsorbs(NsIn(c, ns), f.attrs, f.rev, k);
    }
  }

  // A completed Clear at u empties what was fetched before u, keeping flag and stamps,
  // and leaves the rest.
  lemma ClearBlanksOlder(c: Cache, ns: string, u: Revision)
    ensures var before, after := NsIn(c, ns), NsIn(FinishClear(c, ns, Ok(u)).next, ns);
            && (forall k :: k in after <==> k in before)
            && (forall k | k in before ::
                  if before[k].fetchedAt >= u then after[k] == before[k]
                  else
                    && after[k].attr.attr == Attr(before[k].attr.attr.key, "", before[k].attr.attr.isFrozen)
                    && after[k].attr.createdAt == before[k].attr.createdAt
                    && after[k].attr.updatedAt == before[k].attr.updatedAt
                    && after[k].fetchedAt == u)
            && OthersKept(c, FinishClear(c, ns, Ok(u)).next, ns)
  {
    assert BlankEntries(map[], u) == map[];
  }

  // An error, and the reply to a Head or a Destroy, leave all entries alone.
  lemma OthersKeepEntries(c: Cache, rev: Revision, ns: string, solved: seq<Attr>, e: Error, head: Result<Revision, Error>,
                          destroyed: Result<(), Error>)
    ensures FinishFetch(c, rev, ns, solved, Err(e)).next.entries == c.entries
    ensures FinishUpdate(c, ns, Err(e)).next.entries == c.entries
    ensures FinishClear(c, ns, Err(e)).next.entries == c.entries
    ensures FinishHead(c, head).next.entries == c.entries
    ensures FinishDestroy(c, destroyed).next.entries == c.entries
    ensures SeeRevision(c, rev).entries == c.entries
  {
  }

  // ---- Entries never get older ----

  ghost predicate NeverOlder(before: Cache, after: Cache) {
    forall ns, k | k in NsIn(before, ns) ::
      && k in NsIn(after, ns)
      && NsIn(after, ns)[k].fetchedAt >= NsIn(before, ns)[k].fetchedAt
      && (NsIn(after, ns)[k].fetchedAt == NsIn(before, ns)[k].fetchedAt ==> NsIn(after, ns)[k] == NsIn(before, ns)[k])
  }

  lemma AbsorbedNeverOlder(before: Cache, after: Cache, ns: string, attrs: seq<VAttr>, f: Revision)
    requires Absorbed(NsIn(before, ns), NsIn(after, ns), attrs, f) && OthersKept(before, after, ns)
    ensures NeverOlder(before, after)
  {
    forall n, k | k in NsIn(before, n)
      ensures k in NsIn(after, n)
      ensures NsIn(after, n)[k].fetchedAt >= NsIn(before, n)[k].fetchedAt
      ensures NsIn(after, n)[k].fetchedAt == NsIn(before, n)[k].fetchedAt ==> NsIn(after, n)[k] == NsIn(before, n)[k]
    {
      if n == ns {
        assert AbsorbedAt(NsIn(before, ns), NsIn(after, ns), attrs, f, k);
      }
    }
  }

  lemma FinishNeverOlder(peer: Peer, call: Call)
    requires IsServed(call)
    ensures NeverOlder(peer.cache, FinishCall(peer, call).cache)
  {
    var c := peer.cache;
    match call
    case FetchServed(rev, ns, keys, l, reply) =>
      if reply.Ok? {
        FetchAbsorbs(c, rev, ns, l.solved, reply.value);
        AbsorbedNeverOlder(c, FinishCall(peer, call).cache, ns, reply.value.attrs, reply.value.rev);
      }
    case UpdateServed(rev, ns, attrs, reply) =>
      if reply.Ok? {
        UpdateAbsorbs(c, ns, reply.value);
        AbsorbedNeverOlder(c, FinishCall(peer, call).cache, ns, reply.value.attrs, reply.value.rev);
      }
    case ClearServed(rev, ns, reply) =>
      if reply.Ok? {
        ClearBlanksOlder(c, ns, reply.value);
      }
    case HeadServed(_) =>
    case DestroyServed(_) =>
  }

  lemma EventNeverOlder(s: System, ev: Event, p: nat)
    requires Enabled(s, ev) && p in s.peers
    ensures p in Do(s, ev).peers && NeverOlder(s.peers[p].cache, Do(s, ev).peers[p].cache)
  {
    match ev
    case Finish(q, id) => FinishNeverOlder(s.peers[q], s.peers[q].calls[id]);
    case _ =>
  }

  // On every run, whatever the order in which replies arrive, a cached key stays cached,
  // its FetchedAt never falls, and the entry changes only when FetchedAt rises.
  lemma {:induction false} CacheNeverOlder(events: seq<Event>, more: seq<Event>, p: nat)
    requires After(events + more).Some?
    ensures After(events).Some?
    ensures p in After(events).value.peers ==>
              p in After(events + more).value.peers
              && NeverOlder(After(events).value.peers[p].cache, After(events + more).value.peers[p].cache)
  {
    if |more| == 0 {
      assert events + more == events;
    } else {
      var m := |more| - 1;
      assert (events + more)[..|events + more| - 1] == events + more[..m];
      CacheNeverOlder(events, more[..m], p);
      if p in After(events).value.peers {
        EventNeverOlder(After(events + more[..m]).value, more[m], p);
      }
    }
  }
}

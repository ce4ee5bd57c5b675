/**
  The remote session, the server that answers it and the client in between, as
  objects. Each method is one region that the source runs under its lock; between
  the Begin and the Finish method of a call lies the network.
 */
module RemoteSession {
  import opened Attributes
  import opened AttrCache
  import opened LocalSession
  import SessionState

  class CachedSession {
    var highestRev: Attributes.Revision
    var isClosed: bool
    var cache: map<string, NsCache>

    ghost function Model(): Cache
      reads this
    {
      Cache(highestRev, isClosed, cache)
    }

    constructor ()
      ensures Model() == EmptyCache
    {
      highestRev, isClosed, cache := 0, false, map[];
    }

    method UpdateState(reply: Result<Attributes.Revision, Error>)
      modifies this
      ensures Model() == Observe(old(Model()), reply)
    {
      match reply {
        case Err(e) =>
          if e == NotFound {
            isClosed := true;
          }
        case Ok(rev) =>
          if rev > highestRev {
            highestRev := rev;
          }
      }
    }

    method BeginHead() returns (err: Option<Error>)
      ensures err == StartHead(Model())
    {
      return if isClosed then Some(NotFound) else None;
    }

    method FinishHead(reply: Result<Attributes.Revision, Error>) returns (r: Result<Attributes.Revision, Error>)
      modifies this
      ensures Model() == AttrCache.FinishHead(old(Model()), reply).next
      ensures r == AttrCache.FinishHead(old(Model()), reply).result
    {
      UpdateState(reply);
      if reply.Err? {
        return Err(reply.error);
      }
      return Ok(highestRev);
    }

    // The result is false if the session is closed.
    method At(rev: Attributes.Revision) returns (isOpen: bool)
      modifies this
      ensures Model() == SeeRevision(old(Model()), rev)
      ensures isOpen == !old(isClosed)
    {
      if isClosed {
        return false;
      }
      UpdateState(Ok(rev));
      return true;
    }

    method BeginFetch(rev: Attributes.Revision, ns: string, keys: seq<string>) returns (r: Result<Local, Error>)
      ensures r == FetchLocal(Model(), rev, ns, keys)
    {
      var solved: seq<Attr>, unsolved: seq<string> := [], [];
      var nsCache := NsIn(Cache(highestRev, isClosed, cache), ns);
      for i := 0 to |keys|
        invariant ConsultAll(nsCache, rev, keys[..i]) == Some(Local(solved, unsolved))
      {
        var key := keys[i];
        assert keys[..i + 1][..i] == keys[..i];
        if key in nsCache {
          var entry := nsCache[key];
          if entry.attr.createdAt > rev {
            continue;
          }
          if entry.attr.updatedAt > rev {
            ConsultAllStops(nsCache, rev, keys, i + 1);
            return Err(StaleFetch(rev));
          }
          if entry.attr.attr.isFrozen || rev <= entry.fetchedAt {
            solved := solved + [entry.attr.attr];
            continue;
          }
        }
        unsolved := unsolved + [key];
      }
      assert keys[..|keys|] == keys;
      if |unsolved| > 0 && isClosed {
        return Err(NotFound);
      }
      return Ok(Local(solved, unsolved));
    }

    method FinishFetch(rev: Attributes.Revision, ns: string, solved: seq<Attr>, reply: Result<Fetched, Error>)
      returns (r: Result<seq<Attr>, Error>)
      modifies this
      ensures Model() == AttrCache.FinishFetch(old(Model()), rev, ns, solved, reply).next
      ensures r == AttrCache.FinishFetch(old(Model()), rev, ns, solved, reply).result
    {
      if reply.Err? {
        UpdateState(Err(reply.error));
        return Err(reply.error);
      }
      var f := reply.value;
      UpdateState(Ok(f.rev));
      if |f.attrs| == 0 {
        return Ok(solved);
      }
      var isStaleFetch := false;
      var answers := solved;
      ghost var before := NsIn(Model(), ns);
      var isExistingNamespace := ns in cache;
      var nsCache := if isExistingNamespace then cache[ns] else map[];
      for i := 0 to |f.attrs|
        invariant nsCache == StoreAll(before, f.attrs[..i], f.rev)
        invariant Answers(solved, f.attrs[..i], rev) == if isStaleFetch then None else Some(answers)
      {
        var attr := f.attrs[i];
        assert f.attrs[..i + 1][..i] == f.attrs[..i];
        if f.rev > (if attr.attr.key in nsCache then nsCache[attr.attr.key].fetchedAt else 0) {
          nsCache := nsCache[attr.attr.key := CachedAttr(attr, f.rev)];
        }
        if isStaleFetch {
          continue;
        }
        if attr.createdAt > rev {
          continue;
        }
        if attr.updatedAt > rev {
          isStaleFetch := true;
          continue;
        }
        answers := answers + [attr.attr];
      }
      assert f.attrs[..|f.attrs|] == f.attrs;
      if isExistingNamespace || nsCache != map[] {
        cache := cache[ns := nsCache];
      }
      if isStaleFetch {
        return Err(StaleFetch(rev));
      }
      return Ok(answers);
    }

    method BeginUpdate(rev: Attributes.Revision, ns: string, attrs: seq<Attr>) returns (r: Result<seq<Attr>, Error>)
      ensures r == StartUpdate(Model(), rev, ns, attrs)
    {
      if isClosed {
        return Err(NotFound);
      }
      if highestRev > rev {
        return Err(StaleUpdate(rev));
      }
      var updateAttrs: seq<Attr> := [];
      var nsCache := NsIn(Cache(highestRev, isClosed, cache), ns);
      for i := 0 to |attrs|
        invariant Filter(nsCache, rev, attrs[..i]) == Some(updateAttrs)
      {
        var attr := attrs[i];
        assert attrs[..i + 1][..i] == attrs[..i];
        if attr.key in nsCache {
          var entry := nsCache[attr.key];
          if entry.attr.attr.isFrozen {
            if attr == entry.attr.attr {
              continue;
            }
            FilterStops(nsCache, rev, attrs, i + 1);
            return Err(FrozenAttributes(rev));
          }
          if entry.fetchedAt == rev && attr == entry.attr.attr {
            continue;
          }
        }
        updateAttrs := updateAttrs + [attr];
      }
      assert attrs[..|attrs|] == attrs;
      return Ok(updateAttrs);
    }

    method FinishUpdate(ns: string, reply: Result<Fetched, Error>) returns (r: Result<Attributes.Revision, Error>)
      modifies this
      ensures Model() == AttrCache.FinishUpdate(old(Model()), ns, reply).next
      ensures r == AttrCache.FinishUpdate(old(Model()), ns, reply).result
    {
      if reply.Err? {
        UpdateState(Err(reply.error));
        return Err(reply.error);
      }
      var f := reply.value;
      UpdateState(Ok(f.rev));
      ghost var before := NsIn(Model(), ns);
      var isExistingNamespace := ns in cache;
      var nsCache := if isExistingNamespace then cache[ns] else map[];
      for i := 0 to |f.attrs|
        invariant nsCache == StoreAll(before, f.attrs[..i], f.rev)
      {
        var attr := f.attrs[i];
        assert f.attrs[..i + 1][..i] == f.attrs[..i];
        if f.rev > (if attr.attr.key in nsCache then nsCache[attr.attr.key].fetchedAt else 0) {
          nsCache := nsCache[attr.attr.key := CachedAttr(attr, f.rev)];
        }
      }
      assert f.attrs[..|f.attrs|] == f.attrs;
      if isExistingNamespace || nsCache != map[] {
        cache := cache[ns := nsCache];
      }
      return Ok(highestRev);
    }

    method BeginClear(rev: Attributes.Revision, ns: string) returns (err: Option<Error>)
      ensures err == StartClear(Model(), rev, ns)
    {
      if isClosed {
        return Some(NotFound);
      }
      if highestRev > rev {
        return Some(StaleUpdate(rev));
      }
      var nsCache := NsIn(Cache(highestRev, isClosed, cache), ns);
      var remaining := nsCache.Keys;
      while remaining != {}
        invariant remaining <= nsCache.Keys
        invariant forall k | k in nsCache && k !in remaining :: nsCache[k].attr.attr.isFrozen ==> nsCache[k].attr.attr.value == ""
        decreases remaining
      {
        var key :| key in remaining;
        var entry := nsCache[key];
        if entry.attr.attr.isFrozen && entry.attr.attr.value != "" {
          return Some(FrozenAttributes(rev));
        }
        remaining := remaining - {key};
      }
      return None;
    }

    method FinishClear(ns: string, reply: Result<Attributes.Revision, Error>) returns (r: Result<Attributes.Revision, Error>)
      modifies this
      ensures Model() == AttrCache.FinishClear(old(Model()), ns, reply).next
      ensures r == AttrCache.FinishClear(old(Model()), ns, reply).result
    {
      UpdateState(reply);
      if reply.Err? {
        return Err(reply.error);
      }
      var updatedRev := reply.value;
      if ns in cache {
        ghost var before := cache[ns];
        var nsCache := cache[ns];
        var remaining := nsCache.Keys;
        while remaining != {}
          invariant remaining <= before.Keys
          invariant forall k :: k in nsCache <==> k in before
          invariant forall k | k in before :: nsCache[k] == if k in remaining then before[k] else BlankEntry(before[k], updatedRev)
          decreases remaining
        {
          var key :| key in remaining;
          var entry := nsCache[key];
          if updatedRev > entry.fetchedAt {
            nsCache := nsCache[key := CachedAttr(entry.attr.(attr := entry.attr.attr.(value := "")), updatedRev)];
          }
          remaining := remaining - {key};
        }
        assert nsCache == BlankEntries(before, updatedRev);
        cache := cache[ns := nsCache];
      } else {
        assert BlankEntries(map[], updatedRev) == map[];
      }
      return Ok(highestRev);
    }

    method BeginDestroy(rev: Attributes.Revision) returns (err: Option<Error>)
      ensures err == StartDestroy(Model(), rev)
    {
      if isClosed {
        return Some(NotFound);
      }
      if highestRev > rev {
        return Some(StaleUpdate(rev));
      }
      return None;
    }

    method FinishDestroy(reply: Result<(), Error>) returns (r: Result<(), Error>)
      modifies this
      ensures Model() == AttrCache.FinishDestroy(old(Model()), reply).next
      ensures r == AttrCache.FinishDestroy(old(Model()), reply).result
    {
      if reply.Err? {
        return Err(reply.error);
      }
      isClosed := true;
      return Ok(());
    }
  }

  lemma {:induction false} ConsultAllStops(nc: NsCache, rev: Attributes.Revision, keys: seq<string>, n: nat)
    requires n <= |keys|
    requires ConsultAll(nc, rev, keys[..n]) == None
    ensures ConsultAll(nc, rev, keys) == None
  {
    if n < |keys| {
      assert keys[..|keys| - 1][..n] == keys[..n];
      ConsultAllStops(nc, rev, keys[..|keys| - 1], n);
    } else {
      assert keys[..n] == keys;
    }
  }

  lemma {:induction false} FilterStops(nc: NsCache, rev: Attributes.Revision, attrs: seq<Attr>, n: nat)
    requires n <= |attrs|
    requires Filter(nc, rev, attrs[..n]) == None
    ensures Filter(nc, rev, attrs) == None
  {
    if n < |attrs| {
      assert attrs[..|attrs| - 1][..n] == attrs[..n];
      FilterStops(nc, rev, attrs[..|attrs| - 1], n);
    } else {
      assert attrs[..n] == attrs;
    }
  }

  // ---- revision.GetMany, around the Fetch call ----

  method PlaceAnswers(keys: seq<string>, attrs: seq<Attr>) returns (table: map<string, Attr>)
    ensures table == Overlay(EmptyTable(keys), attrs)
  {
    table := map[];
    for i := 0 to |keys|
      invariant table == EmptyTable(keys[..i])
    {
      table := table[keys[i] := EmptyAttr(keys[i])];
    }
    assert keys[..|keys|] == keys;
    for i := 0 to |attrs|
      invariant table == Overlay(EmptyTable(keys), attrs[..i])
    {
      assert attrs[..i + 1][..i] == attrs[..i];
      table := table[attrs[i].key := attrs[i]];
    }
    assert attrs[..|attrs|] == attrs;
  }

  // ---- The server's handlers, for a session found in the store ----

  method HandleFetch(sess: Session, ns: string, keys: seq<string>) returns (rsp: Fetched)
    ensures rsp == Fetched(sess.rev, Select(TableIn(sess.Model().attrs, ns), keys))
  {
    var rev, attrs := sess.AttrsIn(ns);
    var found: seq<VAttr> := [];
    for i := 0 to |keys|
      invariant found == Select(attrs, keys[..i])
    {
      var key := keys[i];
      assert keys[..i + 1][..i] == keys[..i];
      if key in attrs {
        found := found + [attrs[key]];
      }
    }
    assert keys[..|keys|] == keys;
    return Fetched(rev, found);
  }

  // The first half of the update handler commits the update...
  method CommitUpdate(sess: Session, rev: Attributes.Revision, ns: string, attrs: seq<Attr>)
    returns (r: Result<Attributes.Revision, Error>)
    requires sess.Valid()
    modifies sess
    ensures sess.Valid()
    ensures sess.Model() == SessionState.TryUpdate(old(sess.Model()), rev, ns, attrs).next
    ensures var result := SessionState.TryUpdate(old(sess.Model()), rev, ns, attrs).result;
            r == if result.Err? then Err(result.error) else Ok(result.value.rev)
  {
    var u := sess.TryUpdate(rev, ns, attrs);
    match u {
      case Err(e) => return Err(e);
      case Ok(p) => return Ok(p.1.rev);
    }
  }

  // ...and the second reads the CreatedAt stamps, from whatever the table is by then.
  method ReadCreated(sess: Session, ns: string, newRev: Attributes.Revision, attrs: seq<Attr>) returns (rsp: Updated)
    ensures rsp == Updated(newRev, CreatedRevs(TableIn(sess.Model().attrs, ns), attrs))
  {
    var _, table := sess.AttrsIn(ns);
    var createdRevs: seq<Attributes.Revision> := [];
    for i := 0 to |attrs|
      invariant createdRevs == CreatedRevs(table, attrs[..i])
    {
      var created := if attrs[i].key in table then table[attrs[i].key].createdAt else 0;
      createdRevs := createdRevs + [created];
      assert createdRevs == CreatedRevs(table, attrs[..i + 1]);
    }
    assert attrs[..|attrs|] == attrs;
    return Updated(newRev, createdRevs);
  }

  // ---- The client ----

  // The attributes that client.Update makes of the response.
  method StampAttrs(attrs: seq<Attr>, rsp: Updated) returns (stamped: seq<VAttr>)
    requires |rsp.createdRevs| == |attrs|
    ensures stamped == Stamped(attrs, rsp)
  {
    stamped := [];
    for i := 0 to |attrs|
      invariant |stamped| == i
      invariant forall j | 0 <= j < i :: stamped[j] == VAttr(attrs[j], rsp.createdRevs[j], rsp.rev)
    {
      stamped := stamped + [VAttr(attrs[i], rsp.createdRevs[i], rsp.rev)];
    }
  }

  class Client {
    var num: Attributes.Revision

    constructor ()
      ensures num == 0
    {
      num := 0;
    }

    // Client IDs belong to the zero-session at revision zero.
    method NextMessageID() returns (id: Attributes.Revision)
      modifies this
      ensures num == Inc32(old(num)) && id == num
    {
      num := Inc32(num);
      id := num;
    }
  }
}

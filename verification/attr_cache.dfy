/**
  A remote peer's cached view of a session as a value: what each lock-held region
  of the remote session's methods does to it. The network call in between is not
  part of any of these functions. RemoteSession implements them.
 */
module AttrCache {
  import opened Attributes

  datatype CachedAttr = CachedAttr(attr: VAttr, fetchedAt: Revision)

  type NsCache = map<string, CachedAttr>

  datatype Cache = Cache(highestRev: Revision, isClosed: bool, entries: map<string, NsCache>)

  const EmptyCache := Cache(0, false, map[])

  function NsIn(c: Cache, ns: string): NsCache {
    if ns in c.entries then c.entries[ns] else map[]
  }

  // A namespace that was not cached before is added only if something was stored.
  function SetNs(c: Cache, ns: string, nc: NsCache): Cache {
    if ns in c.entries || nc != map[] then c.(entries := c.entries[ns := nc]) else c
  }

  // updateState: only a NotFound error closes the session.
  function Observe(c: Cache, reply: Result<Revision, Error>): Cache {
    match reply
    case Err(e) => if e == NotFound then c.(isClosed := true) else c
    case Ok(rev) => if rev > c.highestRev then c.(highestRev := rev) else c
  }

  function SeeRevision(c: Cache, rev: Revision): Cache {
    if c.isClosed then c else Observe(c, Ok(rev))
  }

  // ---- Fetch ----

  datatype Answer = Empty | Stale | Solved(attr: Attr) | Unsolved

  // What the cache alone says about one key at one revision.
  function Consult(nc: NsCache, rev: Revision, key: string): Answer {
    if key !in nc then Unsolved
    else
      var e := nc[key];
      if e.attr.createdAt > rev then Empty
      else if e.attr.updatedAt > rev then Stale
      else if e.attr.attr.isFrozen || rev <= e.fetchedAt then Solved(e.attr.attr)
      else Unsolved
  }

  datatype Local = Local(solved: seq<Attr>, unsolved: seq<string>)

  // None means that a stale key was met.
  function ConsultAll(nc: NsCache, rev: Revision, keys: seq<string>): Option<Local> {
    if |keys| == 0 then Some(Local([], []))
    else
      var key := keys[|keys| - 1];
      match ConsultAll(nc, rev, keys[..|keys| - 1])
      case None => None
      case Some(l) =>
        match Consult(nc, rev, key)
        case Empty => Some(l)
        case Stale => None
        case Solved(a) => Some(l.(solved := l.solved + [a]))
        case Unsolved => Some(l.(unsolved := l.unsolved + [key]))
  }

  function FetchLocal(c: Cache, rev: Revision, ns: string, keys: seq<string>): Result<Local, Error> {
    match ConsultAll(NsIn(c, ns), rev, keys)
    case None => Err(StaleFetch(rev))
    case Some(l) => if |l.unsolved| > 0 && c.isClosed then Err(NotFound) else Ok(l)
  }

  // The response to a fetch request.
  datatype Fetched = Fetched(rev: Revision, attrs: seq<VAttr>)

  // An entry that is not there has FetchedAt zero.
  function Store(nc: NsCache, v: VAttr, fetchedAt: Revision): NsCache {
    var known := if v.attr.key in nc then nc[v.attr.key].fetchedAt else 0;
    if fetchedAt > known then nc[v.attr.key := CachedAttr(v, fetchedAt)] else nc
  }

  function StoreAll(nc: NsCache, attrs: seq<VAttr>, fetchedAt: Revision): NsCache {
    if |attrs| == 0 then nc
    else Store(StoreAll(nc, attrs[..|attrs| - 1], fetchedAt), attrs[|attrs| - 1], fetchedAt)
  }

  // The attributes of a response that answer a read at rev; None is stale.
  function Answers(solved: seq<Attr>, attrs: seq<VAttr>, rev: Revision): Option<seq<Attr>> {
    if |attrs| == 0 then Some(solved)
    else
      var v := attrs[|attrs| - 1];
      match Answers(solved, attrs[..|attrs| - 1], rev)
      case None => None
      case Some(s) =>
        if v.createdAt > rev then Some(s)
        else if v.updatedAt > rev then None
        else Some(s + [v.attr])
  }

  datatype CacheOutcome<+T> = CacheOutcome(next: Cache, result: Result<T, Error>)

  function FinishFetch(c: Cache, rev: Revision, ns: string, solved: seq<Attr>, reply: Result<Fetched, Error>): CacheOutcome<seq<Attr>> {
    match reply
    case Err(e) => CacheOutcome(Observe(c, Err(e)), Err(e))
    case Ok(f) =>
      var c' := Observe(c, Ok(f.rev));
      if |f.attrs| == 0 then CacheOutcome(c', Ok(solved))
      else
        CacheOutcome(SetNs(c', ns, StoreAll(NsIn(c, ns), f.attrs, f.rev)),
                     match Answers(solved, f.attrs, rev)
                     case None => Err(StaleFetch(rev))
                     case Some(s) => Ok(s))
  }

  // ---- Head ----

  function StartHead(c: Cache): Option<Error> {
    if c.isClosed then Some(NotFound) else None
  }

  function FinishHead(c: Cache, reply: Result<Revision, Error>): CacheOutcome<Revision> {
    var c' := Observe(c, reply);
    CacheOutcome(c', if reply.Err? then Err(reply.error) else Ok(c'.highestRev))
  }

  // ---- TryUpdate ----

  // The cached entry already says what attr asks for, at the revision to be
  // written against or for good.
  predicate Known(nc: NsCache, rev: Revision, attr: Attr) {
    && attr.key in nc
    && attr == nc[attr.key].attr.attr
    && (nc[attr.key].attr.attr.isFrozen || nc[attr.key].fetchedAt == rev)
  }

  predicate KnownFrozen(nc: NsCache, attr: Attr) {
    && attr.key in nc
    && nc[attr.key].attr.attr.isFrozen
    && attr != nc[attr.key].attr.attr
  }

  // The attributes that must be sent; None means that one of them is known to be
  // frozen with a different value.
  function Filter(nc: NsCache, rev: Revision, attrs: seq<Attr>): Option<seq<Attr>> {
    if |attrs| == 0 then Some([])
    else
      var attr := attrs[|attrs| - 1];
      match Filter(nc, rev, attrs[..|attrs| - 1])
      case None => None
      case Some(sent) =>
        if KnownFrozen(nc, attr) then None
        else if Known(nc, rev, attr) then Some(sent)
        else Some(sent + [attr])
  }

  function StartUpdate(c: Cache, rev: Revision, ns: string, attrs: seq<Attr>): Result<seq<Attr>, Error> {
    if c.isClosed then Err(NotFound)
    else if c.highestRev > rev then Err(StaleUpdate(rev))
    else
      match Filter(NsIn(c, ns), rev, attrs)
      case None => Err(FrozenAttributes(rev))
      case Some(sent) => Ok(sent)
  }

  // The response to an update request: one CreatedAt for each attribute sent.
  datatype Updated = Updated(rev: Revision, createdRevs: seq<Revision>)

  // client.Update: the attributes sent, stamped from the response.
  function Stamped(attrs: seq<Attr>, u: Updated): seq<VAttr>
    requires |u.createdRevs| == |attrs|
  {
    seq(|attrs|, i requires 0 <= i < |attrs| => VAttr(attrs[i], u.createdRevs[i], u.rev))
  }

  function FinishUpdate(c: Cache, ns: string, reply: Result<Fetched, Error>): CacheOutcome<Revision> {
    match reply
    case Err(e) => CacheOutcome(Observe(c, Err(e)), Err(e))
    case Ok(f) =>
      var c' := Observe(c, Ok(f.rev));
      CacheOutcome(SetNs(c', ns, StoreAll(NsIn(c, ns), f.attrs, f.rev)), Ok(c'.highestRev))
  }

  // ---- TryClear ----

  predicate KnownClearable(nc: NsCache) {
    forall k | k in nc :: nc[k].attr.attr.isFrozen ==> nc[k].attr.attr.value == ""
  }

  function StartClear(c: Cache, rev: Revision, ns: string): Option<Error> {
    if c.isClosed then Some(NotFound)
    else if c.highestRev > rev then Some(StaleUpdate(rev))
    else if !KnownClearable(NsIn(c, ns)) then Some(FrozenAttributes(rev))
    else None
  }

  // The UpdatedAt stamp is left as it was.
  function BlankEntry(e: CachedAttr, rev: Revision): CachedAttr {
    if rev > e.fetchedAt then
      CachedAttr(e.attr.(attr := e.attr.attr.(value := "")), rev)
    else e
  }

  function BlankEntries(nc: NsCache, rev: Revision): NsCache {
    map k | k in nc :: BlankEntry(nc[k], rev)
  }

  function FinishClear(c: Cache, ns: string, reply: Result<Revision, Error>): CacheOutcome<Revision> {
    var c' := Observe(c, reply);
    match reply
    case Err(e) => CacheOutcome(c', Err(e))
    case Ok(rev) =>
      CacheOutcome(SetNs(c', ns, BlankEntries(NsIn(c, ns), rev)), Ok(c'.highestRev))
  }

  // ---- TryDestroy ----

  function StartDestroy(c: Cache, rev: Revision): Option<Error> {
    if c.isClosed then Some(NotFound)
    else if c.highestRev > rev then Some(StaleUpdate(rev))
    else None
  }

  // An error, NotFound included, leaves the cache as it is.
  function FinishDestroy(c: Cache, reply: Result<(), Error>): CacheOutcome<()> {
    match reply
    case Err(e) => CacheOutcome(c, Err(e))
    case Ok(_) => CacheOutcome(c.(isClosed := true), Ok(()))
  }

  // ---- The owner's side ----

  // The attributes of t under the keys asked for; others are left out.
  function Select(t: Table, keys: seq<string>): seq<VAttr> {
    if |keys| == 0 then []
    else
      var key := keys[|keys| - 1];
      Select(t, keys[..|keys| - 1]) + (if key in t then [t[key]] else [])
  }

  // The CreatedAt of a missing attribute is zero.
  function CreatedAt(t: Table, key: string): Revision {
    if key in t then t[key].createdAt else 0
  }

  function CreatedRevs(t: Table, attrs: seq<Attr>): seq<Revision> {
    seq(|attrs|, i requires 0 <= i < |attrs| => CreatedAt(t, attrs[i].key))
  }

  // ---- The remote revision's reads ----

  // revision.Get, given what Fetch returned.
  function GetResult(key: string, attrs: seq<Attr>): Attr {
    if |attrs| == 0 then EmptyAttr(key) else attrs[0]
  }

  // revision.GetMany's two loops.
  function EmptyTable(keys: seq<string>): map<string, Attr> {
    map k | k in keys :: EmptyAttr(k)
  }

  function Overlay(table: map<string, Attr>, attrs: seq<Attr>): map<string, Attr> {
    if |attrs| == 0 then table
    else
      var attr := attrs[|attrs| - 1];
      Overlay(table, attrs[..|attrs| - 1])[attr.key := attr]
  }

  // Neither asks for anything at revision zero.
  function RevisionGet(rev: Revision, key: string, attrs: seq<Attr>): Attr {
    if rev == 0 then EmptyAttr(key) else GetResult(key, attrs)
  }

  function RevisionGetMany(rev: Revision, keys: seq<string>, attrs: seq<Attr>): map<string, Attr> {
    if rev == 0 then EmptyTable(keys) else Overlay(EmptyTable(keys), attrs)
  }

  // ---- Lists ----

  lemma {:induction false} SelectMembers(t: Table, keys: seq<string>)
    ensures forall v :: v in Select(t, keys) <==> exists k | k in keys :: k in t && v == t[k]
  {
    if |keys| > 0 {
      var m := |keys| - 1;
      SelectMembers(t, keys[..m]);
      assert forall k :: k in keys <==> k in keys[..m] || k == keys[m];
    }
  }

  // What a successful walk over the keys has sorted out.
  lemma {:induction false} ConsultAllMembers(nc: NsCache, rev: Revision, keys: seq<string>)
    requires ConsultAll(nc, rev, keys).Some?
    ensures var l := ConsultAll(nc, rev, keys).value;
            && (forall k :: k in l.unsolved <==> k in keys && Consult(nc, rev, k) == Unsolved)
            && (forall a :: a in l.solved <==> exists k | k in keys :: Consult(nc, rev, k) == Solved(a))
            && (forall k | k in keys :: Consult(nc, rev, k) != Stale)
  {
    if |keys| > 0 {
      var m := |keys| - 1;
      ConsultAllMembers(nc, rev, keys[..m]);
      assert forall k :: k in keys <==> k in keys[..m] || k == keys[m];
    }
  }

  // A response fails to answer exactly if one of its attributes existed at rev and
  // has been written since.
  lemma {:induction false} AnswersMembers(solved: seq<Attr>, attrs: seq<VAttr>, rev: Revision)
    ensures Answers(solved, attrs, rev) == None <==> exists v | v in attrs :: v.createdAt <= rev < v.updatedAt
    ensures Answers(solved, attrs, rev).Some? ==>
              forall a :: a in Answers(solved, attrs, rev).value <==>
                        a in solved || exists v | v in attrs :: v.createdAt <= rev && a == v.attr
  {
    if |attrs| > 0 {
      var m := |attrs| - 1;
      AnswersMembers(solved, attrs[..m], rev);
      assert forall v :: v in attrs <==> v in attrs[..m] || v == attrs[m];
    }
  }

  lemma {:induction false} OverlayMembers(table: map<string, Attr>, attrs: seq<Attr>)
    ensures forall k :: k in Overlay(table, attrs) <==> k in table || exists a | a in attrs :: a.key == k
    ensures forall k | k in Overlay(table, attrs) ::
              (exists a | a in attrs :: a.key == k && Overlay(table, attrs)[k] == a)
              || (k in table && Overlay(table, attrs)[k] == table[k] && forall a | a in attrs :: a.key != k)
  {
    if |attrs| > 0 {
      var m := |attrs| - 1;
      OverlayMembers(table, attrs[..m]);
      assert forall a :: a in attrs <==> a in attrs[..m] || a == attrs[m];
    }
  }
}

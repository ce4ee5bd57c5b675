/**
  When a cache, and what is read from it, is true to the owner's history h. The
  set `clears` holds the revisions that this cache's own Clear calls have
  produced in a namespace: only those can leave an entry less than exact.
 */
module CacheTruth {
  import opened Attributes
  import opened SessionState
  import opened History
  import opened AttrCache

  ghost function Clears(clears: map<string, set<Revision>>, ns: string): set<Revision> {
    if ns in clears then clears[ns] else {}
  }

  // A read at rev is exact after every completed Clear...
  ghost predicate ExactAt(clears: set<Revision>, rev: nat) {
    forall u | u in clears :: u < rev
  }

  // ...and right in its value at the revision of the last one, too.
  ghost predicate ValueAt(clears: set<Revision>, rev: nat) {
    forall u | u in clears :: u <= rev
  }

  // What is known of an attribute when only its value is vouched for.
  function View(exact: bool, a: Attr): Attr {
    if exact then a else Attr(a.key, a.value, false)
  }

  // Reading keys at rev may answer attrs: each answer is the owner's attribute at
  // rev, and a key without an answer had none, or an empty one.
  ghost predicate ReadTrue(h: Versions, exact: bool, rev: nat, ns: string, keys: set<string>, attrs: seq<Attr>)
    requires rev < |h|
  {
    && (forall a | a in attrs :: a.key in keys && View(exact, a) == View(exact, AttrAt(h[rev], ns, a.key)))
    && (forall k | k in keys :: View(exact, AttrAt(h[rev], ns, k)) == EmptyAttr(k) || exists a | a in attrs :: a.key == k)
  }

  // The same, as far as the completed Clears allow it.
  ghost predicate ReadSound(h: Versions, clears: set<Revision>, rev: nat, ns: string, keys: set<string>, attrs: seq<Attr>)
    requires rev < |h|
  {
    && (ExactAt(clears, rev) ==> ReadTrue(h, true, rev, ns, keys, attrs))
    && (ValueAt(clears, rev) ==> ReadTrue(h, false, rev, ns, keys, attrs))
  }

  ghost predicate NeverBefore(h: Versions, rev: nat, ns: string, k: string) {
    forall r | 0 <= r < |h| && r < rev :: AttrAt(h[r], ns, k) == EmptyAttr(k)
  }

  ghost predicate ConstantOn(h: Versions, from: nat, to: nat, ns: string, a: Attr)
    requires to < |h|
  {
    forall r | from <= r <= to :: AttrAt(h[r], ns, a.key) == a
  }

  // An entry is empty before CreatedAt and constant on [UpdatedAt, FetchedAt],
  // unless one of this cache's own Clears has blanked it; then only its value at
  // FetchedAt is sure.
  ghost predicate EntryTrue(h: Versions, clears: set<Revision>, ns: string, k: string, e: CachedAttr) {
    && e.attr.attr.key == k
    && e.attr.createdAt <= Head(h)
    && e.attr.updatedAt <= e.fetchedAt <= Head(h)
    && NeverBefore(h, e.attr.createdAt, ns, k)
    && (e.fetchedAt !in clears || e.attr.attr.isFrozen ==>
          ConstantOn(h, e.attr.updatedAt, e.fetchedAt, ns, e.attr.attr))
    && AttrAt(h[e.fetchedAt], ns, k).value == e.attr.attr.value
  }

  ghost predicate NsTrue(h: Versions, clears: set<Revision>, highestRev: Revision, ns: string, nc: NsCache) {
    forall k | k in nc :: EntryTrue(h, clears, ns, k, nc[k]) && nc[k].fetchedAt <= highestRev
  }

  ghost predicate CacheTrue(h: Versions, clears: map<string, set<Revision>>, c: Cache) {
    && c.highestRev <= Head(h)
    && forall ns | ns in c.entries :: NsTrue(h, Clears(clears, ns), c.highestRev, ns, c.entries[ns])
  }

  // An attribute as the owner returns it with revision f: it may be cached.
  ghost predicate VAttrTrue(h: Versions, f: nat, ns: string, v: VAttr) {
    && f <= Head(h)
    && v.createdAt <= Head(h)
    && v.updatedAt <= f
    && NeverBefore(h, v.createdAt, ns, v.attr.key)
    && ConstantOn(h, v.updatedAt, f, ns, v.attr)
  }

  ghost predicate FetchedTrue(h: Versions, ns: string, attrs: seq<VAttr>, f: nat) {
    f <= Head(h) && forall v | v in attrs :: VAttrTrue(h, f, ns, v)
  }

  // ---- The future does not change any of this ----

  lemma ExtendsAt(h: Versions, h': Versions, r: nat)
    requires Extends(h, h') && r < |h|
    ensures h'[r] == h[r]
  {
  }

  lemma EntryTrueLater(h: Versions, h': Versions, clears: set<Revision>, ns: string, k: string, e: CachedAttr)
    requires Extends(h, h') && EntryTrue(h, clears, ns, k, e)
    ensures EntryTrue(h', clears, ns, k, e)
  {
    forall r | 0 <= r < |h| ensures h'[r] == h[r] {
      ExtendsAt(h, h', r);
    }
  }

  lemma CacheTrueLater(h: Versions, h': Versions, clears: map<string, set<Revision>>, c: Cache)
    requires Extends(h, h') && CacheTrue(h, clears, c)
    ensures CacheTrue(h', clears, c)
  {
    forall ns, k | ns in c.entries && k in c.entries[ns]
      ensures EntryTrue(h', Clears(clears, ns), ns, k, c.entries[ns][k]) && c.entries[ns][k].fetchedAt <= c.highestRev
    {
      assert NsTrue(h, Clears(clears, ns), c.highestRev, ns, c.entries[ns]);
      EntryTrueLater(h, h', Clears(clears, ns), ns, k, c.entries[ns][k]);
    }
  }

  lemma FetchedTrueLater(h: Versions, h': Versions, ns: string, attrs: seq<VAttr>, f: nat)
    requires Extends(h, h') && FetchedTrue(h, ns, attrs, f)
    ensures FetchedTrue(h', ns, attrs, f)
  {
    forall r | 0 <= r < |h| ensures h'[r] == h[r] {
      ExtendsAt(h, h', r);
    }
    forall v | v in attrs ensures VAttrTrue(h', f, ns, v) {
      assert VAttrTrue(h, f, ns, v);
    }
  }

  lemma ReadSoundLater(h: Versions, h': Versions, clears: set<Revision>, clears': set<Revision>, rev: nat, ns: string,
                       keys: set<string>, attrs: seq<Attr>)
    requires Extends(h, h') && clears <= clears' && rev < |h|
    requires ReadSound(h, clears, rev, ns, keys, attrs)
    ensures ReadSound(h', clears', rev, ns, keys, attrs)
  {
    ExtendsAt(h, h', rev);
  }

  // ---- Reading ----

  // A cached attribute marked frozen agrees with the owner ever after.
  lemma CachedFrozenForever(h: Versions, clears: set<Revision>, ns: string, k: string, e: CachedAttr, r: nat)
    requires ValidHistory(h) && EntryTrue(h, clears, ns, k, e)
    requires e.attr.attr.isFrozen && e.attr.updatedAt <= r < |h|
    ensures AttrAt(h[r], ns, k) == e.attr.attr
  {
    if r > e.fetchedAt {
      assert AttrAt(h[e.fetchedAt], ns, k) == e.attr.attr;
      FrozenForever(h, e.fetchedAt, r, ns, k);
    }
  }

  // A single answer of the cache is right.
  ghost predicate AnswerTrue(h: Versions, exact: bool, rev: nat, ns: string, k: string, answer: Answer)
    requires rev < |h|
  {
    match answer
    case Empty => AttrAt(h[rev], ns, k) == EmptyAttr(k)
    case Solved(a) => a.key == k && View(exact, AttrAt(h[rev], ns, k)) == View(exact, a)
    case Stale => true
    case Unsolved => true
  }

  lemma ConsultTrue(h: Versions, clears: set<Revision>, exact: bool, ns: string, nc: NsCache, rev: Revision, k: string)
    requires ValidHistory(h) && rev < |h|
    requires k in nc && EntryTrue(h, clears, ns, k, nc[k])
    requires if exact then ExactAt(clears, rev) else ValueAt(clears, rev)
    ensures AnswerTrue(h, exact, rev, ns, k, Consult(nc, rev, k))
  {
    var e := nc[k];
    if e.attr.attr.isFrozen && e.attr.updatedAt <= rev {
      CachedFrozenForever(h, clears, ns, k, e, rev);
    }
    assert AttrAt(h[rev], ns, k).key == k by {
      CatalogsKeyed(h, rev, ns);
    }
  }

  lemma AnswersTrue(h: Versions, exact: bool, ns: string, nc: NsCache, rev: Revision, keys: seq<string>, l: Local)
    requires rev < |h|
    requires ConsultAll(nc, rev, keys) == Some(l)
    requires forall k | k in keys :: AnswerTrue(h, exact, rev, ns, k, Consult(nc, rev, k))
    ensures ReadTrue(h, exact, rev, ns, (set k | k in keys && k !in l.unsolved), l.solved)
  {
    ConsultAllMembers(nc, rev, keys);
    forall a | a in l.solved
      ensures a.key in keys && a.key !in l.unsolved && View(exact, a) == View(exact, AttrAt(h[rev], ns, a.key))
    {
      var k :| k in keys && Consult(nc, rev, k) == Solved(a);
      assert AnswerTrue(h, exact, rev, ns, k, Consult(nc, rev, k));
    }
    forall k | k in keys && k !in l.unsolved
      ensures View(exact, AttrAt(h[rev], ns, k)) == EmptyAttr(k) || exists a | a in l.solved :: a.key == k
    {
      assert AnswerTrue(h, exact, rev, ns, k, Consult(nc, rev, k));
      if Consult(nc, rev, k).Solved? {
        assert Consult(nc, rev, k).attr in l.solved;
      }
    }
  }

  // Whatever the cache answers on its own is true.
  lemma ConsultAllTrue(h: Versions, clears: set<Revision>, exact: bool, ns: string, nc: NsCache, rev: Revision, keys: seq<string>,
                       highestRev: Revision)
    requires ValidHistory(h) && rev < |h|
    requires NsTrue(h, clears, highestRev, ns, nc)
    requires ConsultAll(nc, rev, keys).Some?
    requires if exact then ExactAt(clears, rev) else ValueAt(clears, rev)
    ensures var l := ConsultAll(nc, rev, keys).value;
            ReadTrue(h, exact, rev, ns, (set k | k in keys && k !in l.unsolved), l.solved)
  {
    forall k | k in keys ensures AnswerTrue(h, exact, rev, ns, k, Consult(nc, rev, k)) {
      if k in nc {
        ConsultTrue(h, clears, exact, ns, nc, rev, k);
      }
    }
    AnswersTrue(h, exact, ns, nc, rev, keys, ConsultAll(nc, rev, keys).value);
  }

  lemma ConsultAllSound(h: Versions, clears: set<Revision>, ns: string, nc: NsCache, rev: Revision, keys: seq<string>, highestRev: Revision)
    requires ValidHistory(h) && rev < |h|
    requires NsTrue(h, clears, highestRev, ns, nc)
    requires ConsultAll(nc, rev, keys).Some?
    ensures var l := ConsultAll(nc, rev, keys).value;
            ReadSound(h, clears, rev, ns, (set k | k in keys && k !in l.unsolved), l.solved)
  {
    if ExactAt(clears, rev) {
      ConsultAllTrue(h, clears, true, ns, nc, rev, keys, highestRev);
    }
    if ValueAt(clears, rev) {
      ConsultAllTrue(h, clears, false, ns, nc, rev, keys, highestRev);
    }
  }

  // ---- Storing ----

  lemma VAttrIsEntry(h: Versions, clears: set<Revision>, ns: string, v: VAttr, f: Revision)
    requires VAttrTrue(h, f, ns, v)
    ensures EntryTrue(h, clears, ns, v.attr.key, CachedAttr(v, f))
  {
  }

  lemma {:induction false} StoreAllTrue(h: Versions, clears: set<Revision>, highestRev: Revision, ns: string, nc: NsCache,
                                        attrs: seq<VAttr>, f: Revision)
    requires NsTrue(h, clears, highestRev, ns, nc)
    requires FetchedTrue(h, ns, attrs, f) && f <= highestRev
    ensures NsTrue(h, clears, highestRev, ns, StoreAll(nc, attrs, f))
  {
    if |attrs| > 0 {
      var m := |attrs| - 1;
      StoreAllTrue(h, clears, highestRev, ns, nc, attrs[..m], f);
      assert attrs[m] in attrs;
      VAttrIsEntry(h, clears, ns, attrs[m], f);
    }
  }

  // A completed Clear at u blanks older entries; what is left to say of them is
  // still true once u is counted among the Clears.
  lemma BlankEntriesTrue(h: Versions, clears: set<Revision>, highestRev: Revision, ns: string, nc: NsCache, u: Revision)
    requires ValidHistory(h) && NsTrue(h, clears, highestRev, ns, nc)
    requires u <= Head(h) && u <= highestRev
    requires forall k :: AttrAt(h[u], ns, k).value == ""
    ensures NsTrue(h, clears + {u}, highestRev, ns, BlankEntries(nc, u))
  {
    var nc' := BlankEntries(nc, u);
    forall k | k in nc' ensures EntryTrue(h, clears + {u}, ns, k, nc'[k]) && nc'[k].fetchedAt <= highestRev {
      var e := nc[k];
      if u > e.fetchedAt && e.attr.attr.isFrozen {
        forall r | e.attr.updatedAt <= r <= u ensures AttrAt(h[r], ns, k) == e.attr.attr {
          CachedFrozenForever(h, clears, ns, k, e, r);
        }
        assert AttrAt(h[u], ns, k).value == "";
      }
    }
  }

  lemma SetNsTrue(h: Versions, clears: map<string, set<Revision>>, clears': map<string, set<Revision>>, c: Cache, ns: string, nc: NsCache)
    requires CacheTrue(h, clears, c)
    requires forall n | n != ns :: Clears(clears', n) == Clears(clears, n)
    requires NsTrue(h, Clears(clears', ns), c.highestRev, ns, nc)
    ensures CacheTrue(h, clears', SetNs(c, ns, nc))
  {
    var c' := SetNs(c, ns, nc);
    forall n | n in c'.entries ensures NsTrue(h, Clears(clears', n), c'.highestRev, n, c'.entries[n]) {
      if n != ns {
        assert NsTrue(h, Clears(clears, n), c.highestRev, n, c.entries[n]);
      }
    }
  }

  lemma ObserveTrue(h: Versions, clears: map<string, set<Revision>>, c: Cache, reply: Result<Revision, Error>)
    requires CacheTrue(h, clears, c)
    requires reply.Ok? ==> reply.value <= Head(h)
    ensures CacheTrue(h, clears, Observe(c, reply))
    ensures reply.Ok? ==> reply.value <= Observe(c, reply).highestRev
    ensures c.highestRev <= Observe(c, reply).highestRev
  {
    var c' := Observe(c, reply);
    forall n | n in c'.entries ensures NsTrue(h, Clears(clears, n), c'.highestRev, n, c'.entries[n]) {
      assert NsTrue(h, Clears(clears, n), c.highestRev, n, c.entries[n]);
    }
  }

  // ---- The owner's answers ----

  // The stamps of the owner's table, in terms of what is read.
  lemma OwnerVAttrTrue(h: Versions, f: nat, ns: string, k: string)
    requires ValidHistory(h) && f < |h|
    requires k in TableAt(h, f, ns)
    ensures VAttrTrue(h, f, ns, TableAt(h, f, ns)[k]) && TableAt(h, f, ns)[k].attr.key == k
  {
    StampsSummariseHistory(h, f, ns, k);
    var v := TableAt(h, f, ns)[k];
    forall r | 0 <= r < |h| && r < v.createdAt ensures AttrAt(h[r], ns, k) == EmptyAttr(k) {
      assert k !in TableAt(h, r, ns);
    }
    forall r | v.updatedAt <= r <= f ensures AttrAt(h[r], ns, k) == v.attr {
      assert TableAt(h, r, ns)[k] == v;
    }
  }

  // What a fetch finds in the table of revision f.
  lemma SelectTrue(h: Versions, f: nat, ns: string, keys: seq<string>)
    requires ValidHistory(h) && f < |h|
    ensures FetchedTrue(h, ns, Select(TableAt(h, f, ns), keys), f)
    ensures forall v | v in Select(TableAt(h, f, ns), keys) :: v.attr.key in keys
    ensures forall k | k in keys :: k in TableAt(h, f, ns) ==> TableAt(h, f, ns)[k] in Select(TableAt(h, f, ns), keys)
  {
    SelectMembers(TableAt(h, f, ns), keys);
    forall v | v in Select(TableAt(h, f, ns), keys) ensures VAttrTrue(h, f, ns, v) && v.attr.key in keys {
      var k :| k in keys && k in TableAt(h, f, ns) && v == TableAt(h, f, ns)[k];
      OwnerVAttrTrue(h, f, ns, k);
    }
  }

  // The response to an update at u, when CreatedAt is read later, from the table
  // of revision q: the stamps the client makes of it are true, although UpdatedAt
  // is u even for attributes the update left alone.
  lemma StampedTrue(h: Versions, u: Revision, q: nat, ns: string, attrs: seq<Attr>)
    requires ValidHistory(h) && u <= q < |h|
    requires forall i | 0 <= i < |attrs| :: AttrAt(h[u], ns, attrs[i].key) == attrs[i]
    ensures FetchedTrue(h, ns, Stamped(attrs, Updated(u, CreatedRevs(TableAt(h, q, ns), attrs))), u)
  {
    var response := Updated(u, CreatedRevs(TableAt(h, q, ns), attrs));
    forall i | 0 <= i < |attrs| ensures VAttrTrue(h, u, ns, Stamped(attrs, response)[i]) {
      var k := attrs[i].key;
      if k in TableAt(h, q, ns) {
        OwnerVAttrTrue(h, q, ns, k);
      }
    }
  }

  lemma JoinedTrue(h: Versions, exact: bool, rev: Revision, f: Revision, ns: string, keys: seq<string>, l: Local)
    requires ValidHistory(h) && rev <= f < |h|
    requires ReadTrue(h, exact, rev, ns, (set k | k in keys && k !in l.unsolved), l.solved)
    requires forall k | k in l.unsolved :: k in keys
    requires Answers(l.solved, Select(TableAt(h, f, ns), l.unsolved), rev).Some?
    ensures ReadTrue(h, exact, rev, ns, (set k | k in keys),
                     Answers(l.solved, Select(TableAt(h, f, ns), l.unsolved), rev).value)
  {
    var t := TableAt(h, f, ns);
    var fetched := Select(t, l.unsolved);
    var answers := Answers(l.solved, fetched, rev).value;
    SelectMembers(t, l.unsolved);
    AnswersMembers(l.solved, fetched, rev);
    forall k | k in l.unsolved
      ensures AttrAt(h[rev], ns, k) == if k in t && t[k].createdAt <= rev then t[k].attr else EmptyAttr(k)
      ensures k in t && t[k].createdAt <= rev ==> t[k].attr in answers && t[k].attr.key == k
    {
      OwnerAnswers(h, rev, f, ns, k);
      assert k in t ==> t[k] in fetched;
    }
  }

  // A successful fetch joins what the cache knew with what the owner returned.
  lemma AnswersSound(h: Versions, clears: set<Revision>, rev: Revision, f: Revision, ns: string,
                     keys: seq<string>, l: Local)
    requires ValidHistory(h) && rev <= f < |h|
    requires ReadSound(h, clears, rev, ns, (set k | k in keys && k !in l.unsolved), l.solved)
    requires forall k | k in l.unsolved :: k in keys
    requires Answers(l.solved, Select(TableAt(h, f, ns), l.unsolved), rev).Some?
    ensures ReadSound(h, clears, rev, ns, (set k | k in keys),
                      Answers(l.solved, Select(TableAt(h, f, ns), l.unsolved), rev).value)
  {
    if ExactAt(clears, rev) {
      JoinedTrue(h, true, rev, f, ns, keys, l);
    }
    if ValueAt(clears, rev) {
      JoinedTrue(h, false, rev, f, ns, keys, l);
    }
  }

  // What the table at a later revision f says about a key at rev, if it has not been
  // written in between.
  lemma OwnerAnswers(h: Versions, rev: nat, f: nat, ns: string, k: string)
    requires ValidHistory(h) && rev <= f < |h|
    ensures var t := TableAt(h, f, ns);
            && (k in t ==> t[k].attr.key == k)
            && (k in t && t[k].createdAt <= rev ==> t[k].updatedAt <= rev ==> AttrAt(h[rev], ns, k) == t[k].attr)
            && (!(k in t && t[k].createdAt <= rev) ==> AttrAt(h[rev], ns, k) == EmptyAttr(k))
  {
    var t := TableAt(h, f, ns);
    if k in t {
      StampsSummariseHistory(h, f, ns, k);
      assert k in TableAt(h, rev, ns) <==> t[k].createdAt <= rev;
      assert t[k].updatedAt <= rev ==> TableAt(h, rev, ns)[k] == t[k];
    } else if k in TableAt(h, rev, ns) {
      Persists(h, rev, f, ns, k);
    }
  }

  // ---- revision.Get and GetMany on a true answer ----

  lemma GetTrue(h: Versions, rev: nat, ns: string, key: string, attrs: seq<Attr>, exact: bool)
    requires rev < |h| && ReadTrue(h, exact, rev, ns, {key}, attrs)
    ensures View(exact, GetResult(key, attrs)) == View(exact, AttrAt(h[rev], ns, key))
  {
    if |attrs| > 0 {
      assert attrs[0] in attrs;
    }
  }

  lemma GetManyTrue(h: Versions, rev: nat, ns: string, keys: seq<string>, attrs: seq<Attr>, exact: bool)
    requires rev < |h| && ReadTrue(h, exact, rev, ns, (set k | k in keys), attrs)
    ensures var table := Overlay(EmptyTable(keys), attrs);
            && (forall k :: k in table <==> k in keys)
            && (forall k | k in keys :: View(exact, table[k]) == View(exact, AttrAt(h[rev], ns, k)))
  {
    OverlayMembers(EmptyTable(keys), attrs);
  }
}

/**
  The table at every revision a session has had, and what the CreatedAt and
  UpdatedAt stamps of one revision say about all the others.
 */
module History {
  import opened Attributes
  import opened SessionState

  // h[r] is the catalog at revision r.
  type Versions = h: seq<Catalog> | |h| > 0 witness [map[]]

  ghost predicate EvolvesAt(h: seq<Catalog>, r: nat)
    requires 0 < r < |h| <= MAX_UINT32 + 1
  {
    Evolves(h[r - 1], h[r], r)
  }

  // A history starts empty and each revision follows from the one before it.
  ghost predicate ValidHistory(h: Versions) {
    && |h| <= MAX_UINT32 + 1
    && h[0] == map[]
    && forall r | 0 < r < |h| :: EvolvesAt(h, r)
  }

  ghost function Head(h: Versions): nat {
    |h| - 1
  }

  ghost function TableAt(h: Versions, r: nat, ns: string): Table
    requires r < |h|
  {
    TableIn(h[r], ns)
  }

  ghost predicate SameElsewhere(c: Catalog, c': Catalog, ns: string) {
    forall n | n != ns :: TableIn(c', n) == TableIn(c, n)
  }

  // Revision u was made by a Clear of the namespace.
  ghost predicate ClearedAt(h: Versions, u: Revision, ns: string)
    requires 0 < u < |h|
  {
    && Clearable(TableAt(h, u - 1, ns))
    && TableAt(h, u, ns) == BlankAll(TableAt(h, u - 1, ns), u)
    && SameElsewhere(h[u - 1], h[u], ns)
  }

  // Revision rev + 1 was made by an update of the namespace against revision rev.
  ghost predicate CommittedAt(h: Versions, rev: Revision, ns: string, attrs: seq<Attr>)
    requires rev < MAX_UINT32 && rev + 1 < |h|
  {
    && WriteAll(TableAt(h, rev, ns), attrs, rev + 1).Some?
    && TableAt(h, rev + 1, ns) == WriteAll(TableAt(h, rev, ns), attrs, rev + 1).value.table
    && SameElsewhere(h[rev], h[rev + 1], ns)
  }

  ghost predicate Extends(h: Versions, h': Versions) {
    h <= h'
  }

  lemma AppendRevision(h: Versions, c: Catalog)
    requires ValidHistory(h) && |h| <= MAX_UINT32
    requires Evolves(h[Head(h)], c, |h|)
    ensures ValidHistory(h + [c])
  {
    var h' := h + [c];
    forall r | 0 < r < |h'| ensures EvolvesAt(h', r) {
      assert r < |h| ==> EvolvesAt(h, r);
    }
  }

  // Attributes are stored under their own key with 1 <= CreatedAt <= UpdatedAt <= r.
  lemma {:induction false} StampsInRange(h: Versions, r: nat, ns: string, k: string)
    requires ValidHistory(h) && r < |h|
    requires k in TableAt(h, r, ns)
    ensures TableAt(h, r, ns)[k].attr.key == k
    ensures 1 <= TableAt(h, r, ns)[k].createdAt <= TableAt(h, r, ns)[k].updatedAt <= r
  {
    if r > 0 {
      assert EvolvesAt(h, r);
      if k in TableAt(h, r - 1, ns) {
        StampsInRange(h, r - 1, ns, k);
      }
    }
  }

  lemma CatalogsKeyed(h: Versions, r: nat, ns: string)
    requires ValidHistory(h) && r < |h|
    ensures Keyed(TableAt(h, r, ns))
  {
    forall k | k in TableAt(h, r, ns) ensures TableAt(h, r, ns)[k].attr.key == k {
      StampsInRange(h, r, ns, k);
    }
  }

  // An attribute, once created, is never removed and keeps its CreatedAt. It is
  // the same at a later revision unless it was written in between.
  lemma {:induction false} Persists(h: Versions, r: nat, q: nat, ns: string, k: string)
    requires ValidHistory(h) && r <= q < |h|
    requires k in TableAt(h, r, ns)
    ensures k in TableAt(h, q, ns)
    ensures TableAt(h, q, ns)[k].createdAt == TableAt(h, r, ns)[k].createdAt
    ensures TableAt(h, q, ns)[k] == TableAt(h, r, ns)[k] <==> TableAt(h, q, ns)[k].updatedAt <= r
    ensures TableAt(h, r, ns)[k].attr.isFrozen ==> TableAt(h, q, ns)[k] == TableAt(h, r, ns)[k]
    decreases q - r
  {
    if r == q {
      StampsInRange(h, r, ns, k);
    } else {
      Persists(h, r, q - 1, ns, k);
      StampsInRange(h, r, ns, k);
      assert EvolvesAt(h, q);
    }
  }

  // The CreatedAt stamp of revision q says exactly since when the attribute exists.
  lemma {:induction false} ExistsSinceCreated(h: Versions, r: nat, q: nat, ns: string, k: string)
    requires ValidHistory(h) && r <= q < |h|
    requires k in TableAt(h, q, ns)
    ensures k in TableAt(h, r, ns) <==> TableAt(h, q, ns)[k].createdAt <= r
    decreases q - r
  {
    StampsInRange(h, q, ns, k);
    if r < q {
      assert EvolvesAt(h, q);
      if k in TableAt(h, q - 1, ns) {
        ExistsSinceCreated(h, r, q - 1, ns, k);
      } else if k in TableAt(h, r, ns) {
        Persists(h, r, q - 1, ns, k);
      }
    }
  }

  // What the stamps of the attribute in revision q say about every revision up
  // to q: when it did not exist, since when it has existed, and since exactly
  // when it has been as it is.
  ghost predicate StampsTrue(h: Versions, q: nat, ns: string, k: string)
    requires q < |h| && k in TableAt(h, q, ns)
  {
    var v := TableAt(h, q, ns)[k];
    && v.attr.key == k
    && 1 <= v.createdAt <= v.updatedAt <= q
    && (forall r | 0 <= r < v.createdAt :: k !in TableAt(h, r, ns))
    && (forall r | v.createdAt <= r <= q :: k in TableAt(h, r, ns) && TableAt(h, r, ns)[k].createdAt == v.createdAt)
    && (forall r | v.updatedAt <= r <= q :: k in TableAt(h, r, ns) && TableAt(h, r, ns)[k] == v)
    && (forall r | v.createdAt <= r < v.updatedAt :: k in TableAt(h, r, ns) && TableAt(h, r, ns)[k] != v)
  }

  lemma StampsSummariseHistory(h: Versions, q: nat, ns: string, k: string)
    requires ValidHistory(h) && q < |h|
    requires k in TableAt(h, q, ns)
    ensures StampsTrue(h, q, ns, k)
  {
    StampsInRange(h, q, ns, k);
    forall r | 0 <= r <= q
      ensures k in TableAt(h, r, ns) <==> TableAt(h, q, ns)[k].createdAt <= r
      ensures k in TableAt(h, r, ns) ==>
                && TableAt(h, r, ns)[k].createdAt == TableAt(h, q, ns)[k].createdAt
                && (TableAt(h, r, ns)[k] == TableAt(h, q, ns)[k] <==> TableAt(h, q, ns)[k].updatedAt <= r)
    {
      ExistsSinceCreated(h, r, q, ns, k);
      if k in TableAt(h, r, ns) {
        Persists(h, r, q, ns, k);
      }
    }
  }

  // An attribute that reads as frozen at one revision reads the same ever after.
  lemma FrozenForever(h: Versions, r: nat, q: nat, ns: string, k: string)
    requires ValidHistory(h) && r <= q < |h|
    requires AttrAt(h[r], ns, k).isFrozen
    ensures k in TableAt(h, r, ns) && k in TableAt(h, q, ns)
    ensures TableAt(h, q, ns)[k] == TableAt(h, r, ns)[k]
    ensures AttrAt(h[q], ns, k) == AttrAt(h[r], ns, k)
  {
    Persists(h, r, q, ns, k);
  }

  // ---- Reading revision r from the catalog of a later revision ----

  // revision.Get, on the catalog captured when the revision was taken.
  function Get(snapshot: Catalog, rev: Revision, ns: string, key: string): Result<Attr, Error> {
    var t := TableIn(snapshot, ns);
    if rev == 0 then Ok(EmptyAttr(key))
    else if key !in t || t[key].createdAt > rev then Ok(EmptyAttr(key))
    else if t[key].updatedAt > rev then Err(StaleFetch(rev))
    else Ok(t[key].attr)
  }

  // The attribute existed at r and was written again between r and q.
  ghost predicate Rewritten(h: Versions, r: nat, q: nat, ns: string, key: string)
    requires r <= q < |h|
  {
    && key in TableAt(h, r, ns)
    && exists i | r < i <= q :: key in TableAt(h, i, ns) && TableAt(h, i, ns)[key] != TableAt(h, r, ns)[key]
  }

  // Get answers with the attribute as it was at r, and declines exactly when the
  // snapshot can no longer tell.
  lemma GetIsExact(h: Versions, r: nat, q: nat, ns: string, key: string)
    requires ValidHistory(h) && r <= q < |h|
    ensures Rewritten(h, r, q, ns, key) ==> Get(h[q], r, ns, key) == Err(StaleFetch(r))
    ensures !Rewritten(h, r, q, ns, key) ==> Get(h[q], r, ns, key) == Ok(AttrAt(h[r], ns, key))
  {
    if key in TableAt(h, q, ns) {
      ExistsSinceCreated(h, r, q, ns, key);
      if key in TableAt(h, r, ns) {
        Persists(h, r, q, ns, key);
        forall i | r < i <= q && key in TableAt(h, i, ns) && TableAt(h, i, ns)[key] != TableAt(h, r, ns)[key]
          ensures TableAt(h, q, ns)[key].updatedAt > r
        {
          Persists(h, r, i, ns, key);
          Persists(h, i, q, ns, key);
        }
        if TableAt(h, q, ns)[key].updatedAt > r {
          assert q > r && TableAt(h, q, ns)[key] != TableAt(h, r, ns)[key];
        }
      }
    } else if key in TableAt(h, r, ns) {
      Persists(h, r, q, ns, key);
    }
  }

  // GetMany's loop: a missing entry of the result means that it stopped.
  function GetMany(snapshot: Catalog, rev: Revision, ns: string, keys: seq<string>): Result<map<string, Attr>, Error> {
    if |keys| == 0 then Ok(map[])
    else
      match GetMany(snapshot, rev, ns, keys[..|keys| - 1])
      case Err(e) => Err(e)
      case Ok(table) =>
        var key := keys[|keys| - 1];
        var t := TableIn(snapshot, ns);
        if key !in t || t[key].createdAt > rev then Ok(table[key := EmptyAttr(key)])
        else if t[key].updatedAt <= rev then Ok(table[key := t[key].attr])
        else Err(StaleFetch(rev))
  }

  // GetMany agrees with Get on every key, although only Get has a short cut for
  // revision zero.
  lemma {:induction false} GetManyAgrees(h: Versions, r: nat, q: nat, ns: string, keys: seq<string>)
    requires ValidHistory(h) && r <= q < |h|
    ensures GetMany(h[q], r, ns, keys).Ok? <==> forall k | k in keys :: Get(h[q], r, ns, k).Ok?
    ensures GetMany(h[q], r, ns, keys).Ok? ==>
              && (forall k :: k in GetMany(h[q], r, ns, keys).value <==> k in keys)
              && (forall k | k in keys :: Get(h[q], r, ns, k) == Ok(GetMany(h[q], r, ns, keys).value[k]))
    ensures GetMany(h[q], r, ns, keys).Err? ==> GetMany(h[q], r, ns, keys).error == StaleFetch(r)
  {
    if |keys| > 0 {
      var m := |keys| - 1;
      var key := keys[m];
      GetManyAgrees(h, r, q, ns, keys[..m]);
      assert forall k :: k in keys <==> k in keys[..m] || k == key;
      if key in TableAt(h, q, ns) {
        StampsInRange(h, q, ns, key);
      }
      var prefix := GetMany(h[q], r, ns, keys[..m]);
      assert prefix.Err? ==> exists k | k in keys[..m] :: k in keys && !Get(h[q], r, ns, k).Ok?;
      assert prefix.Ok? ==> (GetMany(h[q], r, ns, keys).Ok? <==> Get(h[q], r, ns, key).Ok?);
    }
  }
}

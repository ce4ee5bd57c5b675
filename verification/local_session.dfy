/**
  The owning peer's session as an object: tables are shared by reference between
  the session and the revisions taken of it, and are copied before any write.
 */
module LocalSession {
  import opened Attributes
  import SessionState
  import History

  class VTable {
    var entries: Table

    constructor ()
      ensures entries == map[]
    {
      entries := map[];
    }

    method Clone() returns (c: VTable)
      ensures fresh(c) && c.entries == entries
    {
      c := new VTable();
      var remaining := entries.Keys;
      while remaining != {}
        invariant remaining <= entries.Keys
        invariant c.entries == map k | k in entries && k !in remaining :: entries[k]
        invariant fresh(c)
        decreases remaining
      {
        var k :| k in remaining;
        c.entries := c.entries[k := entries[k]];
        remaining := remaining - {k};
      }
    }
  }

  // Catalog as the source has it: a map to tables that others may share.
  type Tables = map<string, VTable>

  ghost function CatalogOf(c: Tables): Catalog
    reads c.Values
  {
    map ns | ns in c :: c[ns].entries
  }

  // A copy of c with the ns namespace replaced by t; t itself is not copied.
  method WithNamespace(c: Tables, ns: string, t: VTable) returns (r: Tables)
    ensures r.Keys == c.Keys + {ns} && r[ns] == t
    ensures forall n | n in r && n != ns :: fresh(r[n])
    ensures CatalogOf(r) == CatalogOf(c)[ns := t.entries]
  {
    r := map[ns := t];
    var remaining := c.Keys - {ns};
    while remaining != {}
      invariant ns !in remaining && remaining <= c.Keys
      invariant ns in r && r[ns] == t
      invariant forall n :: n in r <==> n == ns || (n in c && n !in remaining)
      invariant forall n | n in r && n != ns :: fresh(r[n])
      invariant forall n | n in r && n != ns :: r[n].entries == c[n].entries
      modifies {}
      decreases remaining
    {
      var n :| n in remaining;
      var copy := c[n].Clone();
      r := r[n := copy];
      remaining := remaining - {n};
    }
    assert r.Keys == c.Keys + {ns};
  }

  // A revision keeps the tables that were current when it was taken.
  class Revision {
    const rev: Attributes.Revision
    const session: Session
    const attrs: Tables

    constructor (rev: Attributes.Revision, session: Session, attrs: Tables)
      ensures this.rev == rev && this.session == session && this.attrs == attrs
    {
      this.rev, this.session, this.attrs := rev, session, attrs;
    }

    method Get(ns: string, key: string) returns (r: Result<Attr, Error>)
      ensures r == History.Get(CatalogOf(attrs), rev, ns, key)
    {
      if rev == 0 {
        return Ok(EmptyAttr(key));
      }
      if ns !in attrs || key !in attrs[ns].entries {
        return Ok(EmptyAttr(key));
      }
      var attr := attrs[ns].entries[key];
      if attr.createdAt > rev {
        return Ok(EmptyAttr(key));
      }
      if attr.updatedAt > rev {
        return Err(StaleFetch(rev));
      }
      return Ok(attr.attr);
    }

    method GetMany(ns: string, keys: seq<string>) returns (r: Result<map<string, Attr>, Error>)
      ensures r == History.GetMany(CatalogOf(attrs), rev, ns, keys)
    {
      ghost var snapshot := CatalogOf(attrs);
      var t := if ns in attrs then attrs[ns].entries else map[];
      var table: map<string, Attr> := map[];
      for i := 0 to |keys|
        invariant History.GetMany(snapshot, rev, ns, keys[..i]) == Ok(table)
      {
        var key := keys[i];
        assert keys[..i + 1][..i] == keys[..i];
        if key !in t || t[key].createdAt > rev {
          table := table[key := EmptyAttr(key)];
        } else if t[key].updatedAt <= rev {
          table := table[key := t[key].attr];
        } else {
          GetManyStops(snapshot, rev, ns, keys, i + 1);
          return Err(StaleFetch(rev));
        }
      }
      assert keys[..|keys|] == keys;
      return Ok(table);
    }

    // An empty update is answered without asking the session.
    method Update(ns: string, attrs: seq<Attr>) returns (r: Result<Revision, Error>)
      requires session.Valid()
      modifies session
      ensures session.Valid()
      ensures attrs == [] ==> r == Ok(this) && session.Model() == old(session.Model())
      ensures attrs != [] ==>
                var o := SessionState.TryUpdate(old(session.Model()), rev, ns, attrs);
                && session.Model() == o.next
                && (o.result.Err? ==> r == Err(o.result.error))
                && (o.result.Ok? ==> r.Ok? && r.value.IsHeadOf(session))
    {
      if |attrs| == 0 {
        return Ok(this);
      }
      var u := session.TryUpdate(rev, ns, attrs);
      match u {
        case Ok(p) => r := Ok(p.0);
        case Err(e) => r := Err(e);
      }
    }

    // The revision stands for the present state of s.
    ghost predicate IsHeadOf(s: Session)
      reads s
    {
      session == s && rev == s.rev && attrs == s.attrs
    }
  }

  lemma {:induction false} GetManyStops(snapshot: Catalog, rev: Attributes.Revision, ns: string, keys: seq<string>, n: nat)
    requires n <= |keys|
    requires History.GetMany(snapshot, rev, ns, keys[..n]).Err?
    ensures History.GetMany(snapshot, rev, ns, keys) == History.GetMany(snapshot, rev, ns, keys[..n])
  {
    if n < |keys| {
      assert keys[..|keys| - 1][..n] == keys[..n];
      GetManyStops(snapshot, rev, ns, keys[..|keys| - 1], n);
    } else {
      assert keys[..n] == keys;
    }
  }

  // The loop of TryClear, which takes the entries in any order.
  method BlankTable(table: Table, nextRev: Attributes.Revision) returns (r: Option<SessionState.Written>)
    requires Keyed(table)
    ensures r == None <==> !SessionState.Clearable(table)
    ensures r.Some? ==>
              && r.value.table == SessionState.BlankAll(table, nextRev)
              && SessionState.IsClearDiff(table, nextRev, r.value.diff)
              && (r.value.diff == [] <==> SessionState.AllBlank(table))
  {
    var nextAttrs: Table := map[];
    var diff: seq<VAttr> := [];
    var remaining := table.Keys;
    ghost var done: Table := map[];
    while remaining != {}
      invariant forall k :: k in done <==> k in table && k !in remaining
      invariant forall k | k in done :: done[k] == table[k]
      invariant nextAttrs == SessionState.BlankAll(done, nextRev)
      invariant SessionState.Clearable(done)
      invariant SessionState.IsClearDiff(done, nextRev, diff)
      decreases remaining
    {
      var k :| k in remaining;
      var entry := table[k];
      if entry.attr.value != "" {
        if entry.attr.isFrozen {
          return None;
        }
        entry := VAttr(entry.attr.(value := ""), entry.createdAt, nextRev);
      }
      SessionState.BlankOne(done, table[k], nextRev, diff);
      if table[k].attr.value != "" {
        diff := diff + [entry];
      }
      nextAttrs := nextAttrs[entry.attr.key := entry];
      remaining := remaining - {k};
      done := done[k := table[k]];
    }
    assert done == table;
    if diff != [] {
      assert diff[0] in diff;
    }
    return Some(SessionState.Written(nextAttrs, diff));
  }

  class Session {
    var rev: Attributes.Revision
    var msgSeq: Attributes.Revision
    var isDestroyed: bool
    var attrs: Tables

    ghost function Model(): SessionState.State
      reads this, attrs.Values
    {
      SessionState.State(rev, msgSeq, isDestroyed, CatalogOf(attrs))
    }

    ghost predicate Valid()
      reads this, attrs.Values
    {
      CatalogKeyed(CatalogOf(attrs))
    }

    constructor ()
      ensures Valid() && Model() == SessionState.Initial
    {
      rev, msgSeq, isDestroyed, attrs := 0, 0, false, map[];
    }

    // A revision of this session at a revision number it has reached.
    method At(rev: Attributes.Revision) returns (r: Result<Revision, Error>)
      ensures this.rev < rev <==> r == Err(FromTheFuture)
      ensures r.Ok? <==> rev <= this.rev
      ensures r.Ok? ==> r.value.rev == rev && r.value.session == this && r.value.attrs == attrs
    {
      if this.rev < rev {
        return Err(FromTheFuture);
      }
      var v := new Revision(rev, this, attrs);
      return Ok(v);
    }

    method AttrsIn(ns: string) returns (rev: Attributes.Revision, t: Table)
      ensures rev == this.rev && t == TableIn(Model().attrs, ns)
    {
      rev := this.rev;
      t := if ns in attrs then attrs[ns].entries else map[];
    }

    // The last steps of both write methods. No table is written to.
    method Commit(ns: string, nextRev: Attributes.Revision, nextAttrs: VTable, changed: bool)
      modifies this
      ensures Model() == SessionState.Commit(old(Model()), ns, nextRev, nextAttrs.entries, changed)
    {
      ghost var before := CatalogOf(attrs);
      rev := nextRev;
      msgSeq := 0;
      assert CatalogOf(attrs) == before;
      if changed {
        var nextCatalog := WithNamespace(attrs, ns, nextAttrs);
        attrs := nextCatalog;
        assert CatalogOf(attrs) == before[ns := nextAttrs.entries];
      }
    }

    method CommitTable(ns: string, nextRev: Attributes.Revision, table: Table, changed: bool) returns (v: Revision)
      modifies this
      ensures Model() == SessionState.Commit(old(Model()), ns, nextRev, table, changed)
      ensures v.IsHeadOf(this)
      ensures forall t: VTable | old(allocated(t)) :: t.entries == old(t.entries)
    {
      var nextAttrs := new VTable();
      nextAttrs.entries := table;
      Commit(ns, nextRev, nextAttrs, changed);
      v := new Revision(this.rev, this, attrs);
    }

    // No table that existed before the call is written to, so whatever was read
    // from an earlier revision is read from it still.
    method TryUpdate(rev: Attributes.Revision, ns: string, attrs: seq<Attr>)
      returns (r: Result<(Revision, Diff), Error>)
      requires Valid()
      modifies this
      ensures Valid()
      ensures Model() == SessionState.TryUpdate(old(Model()), rev, ns, attrs).next
      ensures var result := SessionState.TryUpdate(old(Model()), rev, ns, attrs).result;
              && (result.Ok? ==> r.Ok? && r.value.1 == result.value && r.value.0.IsHeadOf(this))
              && (result.Err? ==> r == Err(result.error))
      ensures forall t: VTable | old(allocated(t)) :: t.entries == old(t.entries)
    {
      if isDestroyed {
        return Err(NotFound);
      }
      if rev != this.rev {
        return Err(StaleUpdate(rev));
      }

      var nextRev := Inc32(rev);
      var nextAttrs: VTable;
      if ns in this.attrs {
        nextAttrs := this.attrs[ns].Clone();
      } else {
        nextAttrs := new VTable();
      }
      var diff: seq<VAttr> := [];
      ghost var before := TableIn(CatalogOf(this.attrs), ns);

      assert Model() == old(Model());

      for i := 0 to |attrs|
        invariant Model() == old(Model())
        modifies nextAttrs
        invariant SessionState.WriteAll(before, attrs[..i], nextRev) == Some(SessionState.Written(nextAttrs.entries, diff))
      {
        var attr := attrs[i];
        assert attrs[..i + 1][..i] == attrs[..i];
        var exists_ := attr.key in nextAttrs.entries;
        var current := AttrIn(nextAttrs.entries, attr.key);

        if attr.value == current.value && attr.isFrozen == current.isFrozen {
          continue;
        }

        if current.isFrozen {
          SessionState.WriteAllPrefix(before, attrs, i + 1, nextRev);
          return Err(FrozenAttributes(rev));
        }

        var entry := VAttr(attr, if exists_ then nextAttrs.entries[attr.key].createdAt else nextRev, nextRev);
        nextAttrs.entries := nextAttrs.entries[attr.key := entry];
        diff := diff + [entry];
      }
      assert attrs[..|attrs|] == attrs;
      SessionState.TryUpdateKeyed(Model(), rev, ns, attrs);

      Commit(ns, nextRev, nextAttrs, diff != []);
      var v := new Revision(this.rev, this, this.attrs);
      return Ok((v, Diff(ns, nextRev, diff)));
    }

    method TryClear(rev: Attributes.Revision, ns: string) returns (r: Result<(Revision, Diff), Error>)
      requires Valid()
      modifies this
      ensures Valid()
      ensures Model() == SessionState.TryClear(old(Model()), rev, ns).next
      ensures var result := SessionState.TryClear(old(Model()), rev, ns).result;
              && (result.Ok? ==>
                    && r.Ok? && r.value.0.IsHeadOf(this)
                    && r.value.1.ns == ns && r.value.1.rev == result.value
                    && SessionState.IsClearDiff(TableIn(old(Model()).attrs, ns), result.value, r.value.1.attrs))
              && (result.Err? ==> r == Err(result.error))
      ensures forall t: VTable | old(allocated(t)) :: t.entries == old(t.entries)
    {
      if isDestroyed {
        return Err(NotFound);
      }
      if rev != this.rev {
        return Err(StaleUpdate(rev));
      }

      var table: Table := if ns in attrs then attrs[ns].entries else map[];
      assert Keyed(table) by {
        assert table == TableIn(CatalogOf(attrs), ns);
      }
      var nextRev := Inc32(rev);
      var blanked := BlankTable(table, nextRev);
      if blanked == None {
        return Err(FrozenAttributes(rev));
      }
      var diff := blanked.value.diff;
      SessionState.TryClearKeyed(Model(), rev, ns);
      var v := CommitTable(ns, nextRev, blanked.value.table, diff != []);
      return Ok((v, Diff(ns, nextRev, diff)));
    }

    method TryDestroy(rev: Attributes.Revision) returns (r: Result<bool, Error>)
      modifies this
      ensures Model() == SessionState.TryDestroy(old(Model()), rev).next
      ensures r == SessionState.TryDestroy(old(Model()), rev).result
      ensures attrs == old(attrs)
    {
      if rev != this.rev {
        return Err(StaleUpdate(rev));
      }
      if isDestroyed {
        return Ok(false);
      }
      isDestroyed := true;
      return Ok(true);
    }

    // The revision and sequence of a new message ID.
    method NextMessageID() returns (rev: Attributes.Revision, num: Attributes.Revision)
      modifies this
      ensures Model() == SessionState.NextMessage(old(Model()))
      ensures rev == this.rev && num == msgSeq
      ensures attrs == old(attrs)
    {
      msgSeq := Inc32(msgSeq);
      rev, num := this.rev, msgSeq;
    }
  }
}

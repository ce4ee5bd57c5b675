/**
  The owning peer's session as a value: what TryUpdate, TryClear, TryDestroy and
  nextMessageID do to it. LocalSession.Session implements these functions.
 */
module SessionState {
  import opened Attributes

  datatype State = State(rev: Revision, msgSeq: Revision, isDestroyed: bool, attrs: Catalog)

  const Initial := State(0, 0, false, map[])

  // The state after a call, and what the call returns.
  datatype Outcome<+T> = Outcome(next: State, result: Result<T, Error>)

  // The table and diff built so far by the loop of TryUpdate.
  datatype Written = Written(table: Table, diff: seq<VAttr>)

  function WriteOne(w: Written, attr: Attr, nextRev: Revision): Option<Written> {
    var current := AttrIn(w.table, attr.key);
    if attr.value == current.value && attr.isFrozen == current.isFrozen then
      Some(w)
    else if current.isFrozen then
      None
    else
      var createdAt := if attr.key in w.table then w.table[attr.key].createdAt else nextRev;
      var entry := VAttr(attr, createdAt, nextRev);
      Some(Written(w.table[attr.key := entry], w.diff + [entry]))
  }

  // None means that the list tried to change a frozen attribute.
  function WriteAll(t: Table, attrs: seq<Attr>, nextRev: Revision): Option<Written> {
    if |attrs| == 0 then Some(Written(t, []))
    else
      match WriteAll(t, attrs[..|attrs| - 1], nextRev)
      case None => None
      case Some(w) => WriteOne(w, attrs[|attrs| - 1], nextRev)
  }

  function Commit(s: State, ns: string, nextRev: Revision, table: Table, changed: bool): State {
    State(nextRev, 0, s.isDestroyed, if changed then s.attrs[ns := table] else s.attrs)
  }

  function TryUpdate(s: State, rev: Revision, ns: string, attrs: seq<Attr>): Outcome<Diff> {
    if s.isDestroyed then Outcome(s, Err(NotFound))
    else if rev != s.rev then Outcome(s, Err(StaleUpdate(rev)))
    else
      var nextRev := Inc32(rev);
      match WriteAll(TableIn(s.attrs, ns), attrs, nextRev)
      case None => Outcome(s, Err(FrozenAttributes(rev)))
      case Some(w) =>
        Outcome(Commit(s, ns, nextRev, w.table, w.diff != []), Ok(Diff(ns, nextRev, w.diff)))
  }

  // What TryClear makes of one attribute.
  function Blank(v: VAttr, nextRev: Revision): VAttr {
    if v.attr.value == "" then v
    else VAttr(v.attr.(value := ""), v.createdAt, nextRev)
  }

  function BlankAll(t: Table, nextRev: Revision): Table {
    map k | k in t :: Blank(t[k], nextRev)
  }

  predicate Clearable(t: Table) {
    forall k | k in t :: t[k].attr.isFrozen ==> t[k].attr.value == ""
  }

  predicate AllBlank(t: Table) {
    forall k | k in t :: t[k].attr.value == ""
  }

  // The diff of TryClear lists the blanked attributes in the order of Go's map
  // iteration, so only the set of its elements is determined.
  ghost predicate IsClearDiff(t: Table, nextRev: Revision, diff: seq<VAttr>) {
    && (forall k | k in t && t[k].attr.value != "" :: Blank(t[k], nextRev) in diff)
    && (forall v | v in diff :: v.attr.key in t && t[v.attr.key].attr.value != "" && v == Blank(t[v.attr.key], nextRev))
    && (forall i, j | 0 <= i < j < |diff| :: diff[i].attr.key != diff[j].attr.key)
  }

  function TryClear(s: State, rev: Revision, ns: string): Outcome<Revision> {
    if s.isDestroyed then Outcome(s, Err(NotFound))
    else if rev != s.rev then Outcome(s, Err(StaleUpdate(rev)))
    else
      var t := TableIn(s.attrs, ns);
      if !Clearable(t) then Outcome(s, Err(FrozenAttributes(rev)))
      else
        var nextRev := Inc32(rev);
        Outcome(Commit(s, ns, nextRev, BlankAll(t, nextRev), !AllBlank(t)), Ok(nextRev))
  }

  // The boolean result is true if this call destroyed the session.
  function TryDestroy(s: State, rev: Revision): Outcome<bool> {
    if rev != s.rev then Outcome(s, Err(StaleUpdate(rev)))
    else if s.isDestroyed then Outcome(s, Ok(false))
    else Outcome(s.(isDestroyed := true), Ok(true))
  }

  function NextMessage(s: State): State {
    s.(msgSeq := Inc32(s.msgSeq))
  }

  // ---- What one write loop makes of a table ----

  // The attribute a key holds once the first n elements of attrs are applied:
  // the last of them with that key, else the one in the table.
  function Current(t: Table, attrs: seq<Attr>, n: nat, key: string): Attr
    requires n <= |attrs|
  {
    if n == 0 then AttrIn(t, key)
    else if attrs[n - 1].key == key then attrs[n - 1]
    else Current(t, attrs, n - 1, key)
  }

  // Element n asks to change an attribute that is frozen by then.
  ghost predicate Conflicts(t: Table, attrs: seq<Attr>, n: nat)
    requires n < |attrs|
  {
    var current := Current(t, attrs, n, attrs[n].key);
    current.isFrozen && attrs[n] != current
  }

  // A written table follows from t at revision rev: nothing is removed, a frozen
  // attribute stays as it is, whatever changed carries rev as its UpdatedAt, and
  // whatever is new carries rev as its CreatedAt as well.
  ghost predicate TableEvolves(t: Table, t': Table, rev: Revision) {
    && (forall k | k in t ::
          && k in t'
          && (t'[k] == t[k] ||
              (&& !t[k].attr.isFrozen
               && t'[k].attr.key == t[k].attr.key
               && t'[k].createdAt == t[k].createdAt
               && t'[k].updatedAt == rev)))
    && (forall k | k in t' && k !in t ::
          t'[k].attr.key == k && t'[k].createdAt == t'[k].updatedAt == rev)
  }

  ghost predicate Evolves(c: Catalog, c': Catalog, rev: Revision) {
    forall ns {:trigger TableIn(c', ns)} :: TableEvolves(TableIn(c, ns), TableIn(c', ns), rev)
  }

  lemma {:induction false} CurrentPrefix(t: Table, attrs: seq<Attr>, m: nat, n: nat, key: string)
    requires n <= m <= |attrs|
    ensures Current(t, attrs[..m], n, key) == Current(t, attrs, n, key)
  {
    if n > 0 {
      CurrentPrefix(t, attrs, m, n - 1, key);
    }
  }

  // Once a prefix of the list has failed the whole list fails.
  lemma {:induction false} WriteAllPrefix(t: Table, attrs: seq<Attr>, n: nat, nextRev: Revision)
    requires n <= |attrs|
    requires WriteAll(t, attrs[..n], nextRev) == None
    ensures WriteAll(t, attrs, nextRev) == None
  {
    if n < |attrs| {
      assert attrs[..|attrs| - 1][..n] == attrs[..n];
      WriteAllPrefix(t, attrs[..|attrs| - 1], n, nextRev);
    } else {
      assert attrs[..n] == attrs;
    }
  }

  // TryUpdate's loop fails exactly when some element asks to change an attribute
  // that is frozen by then; otherwise each key holds the last value asked for.
  lemma {:induction false} WriteAllMeaning(t: Table, attrs: seq<Attr>, nextRev: Revision)
    requires Keyed(t)
    ensures WriteAll(t, attrs, nextRev) == None <==> exists n | 0 <= n < |attrs| :: Conflicts(t, attrs, n)
    ensures WriteAll(t, attrs, nextRev).Some? ==>
              forall k :: AttrIn(WriteAll(t, attrs, nextRev).value.table, k) == Current(t, attrs, |attrs|, k)
    ensures WriteAll(t, attrs, nextRev).Some? ==> Keyed(WriteAll(t, attrs, nextRev).value.table)
  {
    if |attrs| > 0 {
      var m := |attrs| - 1;
      var prefix := attrs[..m];
      WriteAllMeaning(t, prefix, nextRev);
      forall n, k | 0 <= n <= m ensures Current(t, prefix, n, k) == Current(t, attrs, n, k) {
        CurrentPrefix(t, attrs, m, n, k);
      }
      forall n | 0 <= n < m ensures Conflicts(t, prefix, n) <==> Conflicts(t, attrs, n) {
        assert Current(t, prefix, n, prefix[n].key) == Current(t, attrs, n, attrs[n].key);
      }
      match WriteAll(t, prefix, nextRev)
      case None =>
      case Some(w) =>
        var attr := attrs[m];
        assert AttrIn(w.table, attr.key) == Current(t, attrs, m, attr.key);
        assert AttrIn(w.table, attr.key).key == attr.key;
        assert WriteOne(w, attr, nextRev) == None <==> Conflicts(t, attrs, m);
        if WriteOne(w, attr, nextRev).Some? {
          forall k ensures AttrIn(WriteAll(t, attrs, nextRev).value.table, k) == Current(t, attrs, |attrs|, k) {
            assert AttrIn(w.table, k) == Current(t, attrs, m, k);
          }
        }
    }
  }

  // Both write loops only move a table forward.
  lemma {:induction false} WriteAllEvolves(t: Table, attrs: seq<Attr>, nextRev: Revision)
    requires Keyed(t)
    requires WriteAll(t, attrs, nextRev).Some?
    ensures TableEvolves(t, WriteAll(t, attrs, nextRev).value.table, nextRev)
    ensures WriteAll(t, attrs, nextRev).value.diff == [] ==> WriteAll(t, attrs, nextRev).value.table == t
    ensures forall v | v in WriteAll(t, attrs, nextRev).value.diff ::
              v.updatedAt == nextRev && v.attr in attrs
    ensures forall k | k in WriteAll(t, attrs, nextRev).value.table &&
                       (k !in t || t[k] != WriteAll(t, attrs, nextRev).value.table[k]) ::
              WriteAll(t, attrs, nextRev).value.table[k] in WriteAll(t, attrs, nextRev).value.diff
  {
    if |attrs| > 0 {
      WriteAllEvolves(t, attrs[..|attrs| - 1], nextRev);
    }
  }

  // The elements that ask for a change, in the order of the list.
  function Changes(t: Table, attrs: seq<Attr>): seq<Attr> {
    if |attrs| == 0 then []
    else
      var a := attrs[|attrs| - 1];
      Changes(t, attrs[..|attrs| - 1]) + if AttrIn(t, a.key) == a then [] else [a]
  }

  // With distinct keys the diff is in the order of the list.
  lemma {:induction false} DiffIsInOrder(t: Table, attrs: seq<Attr>, nextRev: Revision)
    requires Keyed(t) && DistinctKeys(attrs)
    requires WriteAll(t, attrs, nextRev).Some?
    ensures var diff := WriteAll(t, attrs, nextRev).value.diff;
            |diff| == |Changes(t, attrs)| && forall i | 0 <= i < |diff| :: diff[i].attr == Changes(t, attrs)[i]
  {
    if |attrs| > 0 {
      var m := |attrs| - 1;
      DiffIsInOrder(t, attrs[..m], nextRev);
      UntouchedKeeps(t, attrs[..m], nextRev, attrs[m].key);
    }
  }

  // v is in t' and was not in t.
  predicate IsNews(t: Table, t': Table, v: VAttr) {
    && v.attr.key in t' && t'[v.attr.key] == v
    && (v.attr.key in t ==> t[v.attr.key] != v)
  }

  lemma {:induction false} UntouchedKeeps(t: Table, attrs: seq<Attr>, nextRev: Revision, k: string)
    requires WriteAll(t, attrs, nextRev).Some?
    requires forall a | a in attrs :: a.key != k
    ensures var t' := WriteAll(t, attrs, nextRev).value.table;
            (k in t' <==> k in t) && (k in t ==> t'[k] == t[k])
  {
    if |attrs| > 0 {
      assert attrs[|attrs| - 1] in attrs;
      UntouchedKeeps(t, attrs[..|attrs| - 1], nextRev, k);
    }
  }

  // With distinct keys the diff lists exactly the attributes that the update changed
  // or created, as they are afterwards.
  lemma {:induction false} DiffIsExact(t: Table, attrs: seq<Attr>, nextRev: Revision)
    requires Keyed(t) && DistinctKeys(attrs)
    requires WriteAll(t, attrs, nextRev).Some?
    ensures var w := WriteAll(t, attrs, nextRev).value;
            forall v :: v in w.diff <==> IsNews(t, w.table, v)
  {
    if |attrs| > 0 {
      var m := |attrs| - 1;
      DiffIsExact(t, attrs[..m], nextRev);
      UntouchedKeeps(t, attrs[..m], nextRev, attrs[m].key);
      var w, w' := WriteAll(t, attrs[..m], nextRev).value, WriteAll(t, attrs, nextRev).value;
      if w' != w {
        var k := attrs[m].key;
        forall v ensures v in w'.diff <==> IsNews(t, w'.table, v) {
          assert v in w.diff <==> IsNews(t, w.table, v);
          assert v in w'.diff <==> v in w.diff || v == w'.table[k];
        }
      }
    }
  }

  lemma BlankAllEvolves(t: Table, nextRev: Revision)
    requires Keyed(t) && Clearable(t)
    ensures TableEvolves(t, BlankAll(t, nextRev), nextRev)
    ensures forall k :: AttrIn(BlankAll(t, nextRev), k).value == ""
    ensures forall k :: AttrIn(BlankAll(t, nextRev), k).isFrozen == AttrIn(t, k).isFrozen
    ensures AllBlank(t) ==> BlankAll(t, nextRev) == t
  {
  }

  lemma TryUpdateKeyed(s: State, rev: Revision, ns: string, attrs: seq<Attr>)
    requires CatalogKeyed(s.attrs)
    ensures CatalogKeyed(TryUpdate(s, rev, ns, attrs).next.attrs)
  {
    if TryUpdate(s, rev, ns, attrs).result.Ok? {
      WriteAllMeaning(TableIn(s.attrs, ns), attrs, Inc32(rev));
    }
  }

  lemma TryClearKeyed(s: State, rev: Revision, ns: string)
    requires CatalogKeyed(s.attrs)
    ensures CatalogKeyed(TryClear(s, rev, ns).next.attrs)
  {
  }

  // One turn of TryClear's loop, on an entry not seen before.
  lemma BlankOne(t: Table, v: VAttr, nextRev: Revision, diff: seq<VAttr>)
    requires v.attr.key !in t
    requires Clearable(t) && IsClearDiff(t, nextRev, diff)
    requires v.attr.isFrozen ==> v.attr.value == ""
    ensures var t' := t[v.attr.key := v];
            && Clearable(t')
            && BlankAll(t', nextRev) == BlankAll(t, nextRev)[v.attr.key := Blank(v, nextRev)]
            && IsClearDiff(t', nextRev, if v.attr.value == "" then diff else diff + [Blank(v, nextRev)])
  {
    BlankAllOne(t, v, nextRev);
    if v.attr.value != "" {
      BlankOneDiff(t, v, nextRev, diff);
    }
  }

  lemma BlankAllOne(t: Table, v: VAttr, nextRev: Revision)
    requires v.attr.key !in t
    ensures BlankAll(t[v.attr.key := v], nextRev) == BlankAll(t, nextRev)[v.attr.key := Blank(v, nextRev)]
  {
  }

  lemma BlankOneDiff(t: Table, v: VAttr, nextRev: Revision, diff: seq<VAttr>)
    requires v.attr.key !in t && v.attr.value != ""
    requires IsClearDiff(t, nextRev, diff)
    ensures IsClearDiff(t[v.attr.key := v], nextRev, diff + [Blank(v, nextRev)])
  {
    var t' := t[v.attr.key := v];
    var diff' := diff + [Blank(v, nextRev)];
    assert diff'[|diff|] == Blank(v, nextRev);
    forall k | k in t' && t'[k].attr.value != "" ensures Blank(t'[k], nextRev) in diff' {
      if k != v.attr.key {
        assert Blank(t[k], nextRev) in diff;
      }
    }
    forall i, j | 0 <= i < j < |diff'| ensures diff'[i].attr.key != diff'[j].attr.key {
      assert diff'[i] in diff;
    }
  }

  // ---- Verdicts ----

  // Which of the four verdicts an update gets. A failed one changes nothing; a successful
  // one makes the next revision, restarts the message sequence, and names the namespace
  // and that revision in its diff.
  lemma UpdateVerdict(s: State, rev: Revision, ns: string, attrs: seq<Attr>)
    requires Keyed(TableIn(s.attrs, ns))
    ensures var t := TableIn(s.attrs, ns);
            var o := TryUpdate(s, rev, ns, attrs);
            && (o.result == Err(NotFound) <==> s.isDestroyed)
            && (o.result == Err(StaleUpdate(rev)) <==> !s.isDestroyed && rev != s.rev)
            && (o.result == Err(FrozenAttributes(rev)) <==>
                !s.isDestroyed && rev == s.rev && exists n | 0 <= n < |attrs| :: Conflicts(t, attrs, n))
            && (o.result.Ok? <==> !s.isDestroyed && rev == s.rev && forall n | 0 <= n < |attrs| :: !Conflicts(t, attrs, n))
            && (o.result.Err? ==> o.next == s)
            && (o.result.Ok? ==>
                  && o.result.value.ns == ns && o.result.value.rev == Inc32(rev)
                  && o.next.rev == Inc32(rev) && o.next.msgSeq == 0 && !o.next.isDestroyed)
  {
    WriteAllMeaning(TableIn(s.attrs, ns), attrs, Inc32(rev));
  }

  // A clear is refused for frozen attributes exactly if one of them has a value.
  lemma ClearVerdict(s: State, rev: Revision, ns: string)
    ensures var t := TableIn(s.attrs, ns);
            var o := TryClear(s, rev, ns);
            && (o.result == Err(NotFound) <==> s.isDestroyed)
            && (o.result == Err(StaleUpdate(rev)) <==> !s.isDestroyed && rev != s.rev)
            && (o.result == Err(FrozenAttributes(rev)) <==>
                !s.isDestroyed && rev == s.rev && exists k | k in t :: t[k].attr.isFrozen && t[k].attr.value != "")
            && (o.result.Ok? <==>
                !s.isDestroyed && rev == s.rev && forall k | k in t :: t[k].attr.isFrozen ==> t[k].attr.value == "")
            && (o.result.Err? ==> o.next == s)
            && (o.result.Ok? ==>
                  && o.result.value == Inc32(rev)
                  && o.next.rev == Inc32(rev) && o.next.msgSeq == 0 && !o.next.isDestroyed)
  {
  }

  // A destroy at the head succeeds whether or not the session is destroyed already, and
  // says which; at any other revision it is stale.
  lemma DestroyVerdict(s: State, rev: Revision)
    ensures var o := TryDestroy(s, rev);
            && (o.result == Err(StaleUpdate(rev)) <==> rev != s.rev)
            && (o.result == Ok(false) <==> rev == s.rev && s.isDestroyed)
            && (o.result == Ok(true) <==> rev == s.rev && !s.isDestroyed)
            && (o.result != Ok(true) ==> o.next == s)
            && (o.result == Ok(true) ==>
                  o.next.isDestroyed && o.next.rev == s.rev && o.next.attrs == s.attrs && o.next.msgSeq == s.msgSeq)
  {
  }
}

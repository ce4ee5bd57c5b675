/** Whole runs of one owning session: any sequence of calls, successful or not. */
module SessionRuns {
  import opened Attributes
  import opened SessionState
  import opened History

  datatype Op =
    | Update(rev: Revision, ns: string, attrs: seq<Attr>)
    | Clear(rev: Revision, ns: string)
    | TryDestroyAt(rev: Revision)
    | DestroyNow
    | SendMessage

  // The (revision, sequence) part of a message ID.
  datatype Stamp = Stamp(rev: Revision, num: Revision)

  predicate Before(a: Stamp, b: Stamp) {
    a.rev < b.rev || (a.rev == b.rev && a.num < b.num)
  }

  // versions, accepted and issued record what happened: the catalog at every
  // revision, the revisions that writes succeeded against, and the message IDs.
  datatype Trace = Trace(state: State, versions: Versions, accepted: seq<Revision>, issued: seq<Stamp>)

  const Start := Trace(Initial, [map[]], [], [])

  function Record(t: Trace, rev: Revision, next: State): Trace {
    Trace(next, t.versions + [next.attrs], t.accepted + [rev], t.issued)
  }

  function Step(t: Trace, op: Op): Trace {
    match op
    case Update(rev, ns, attrs) =>
      var o := TryUpdate(t.state, rev, ns, attrs);
      if o.result.Ok? then Record(t, rev, o.next) else t.(state := o.next)
    case Clear(rev, ns) =>
      var o := TryClear(t.state, rev, ns);
      if o.result.Ok? then Record(t, rev, o.next) else t.(state := o.next)
    case TryDestroyAt(rev) => t.(state := TryDestroy(t.state, rev).next)
    case DestroyNow => t.(state := t.state.(isDestroyed := true))
    case SendMessage =>
      if t.state.isDestroyed then t
      else
        var next := NextMessage(t.state);
        t.(state := next, issued := t.issued + [Stamp(next.rev, next.msgSeq)])
  }

  // The counters are 32 bits wide; runs that exhaust one are not considered.
  predicate InRange(s: State) {
    s.rev < MAX_UINT32 && s.msgSeq < MAX_UINT32
  }

  function Run(ops: seq<Op>): Trace {
    if |ops| == 0 then Start else Step(Run(ops[..|ops| - 1]), ops[|ops| - 1])
  }

  ghost predicate RunInRange(ops: seq<Op>) {
    forall n | 0 <= n <= |ops| :: InRange(Run(ops[..n]).state)
  }

  ghost predicate TraceValid(t: Trace) {
    && ValidHistory(t.versions)
    && Head(t.versions) == t.state.rev
    && t.versions[t.state.rev] == t.state.attrs
    && |t.accepted| == t.state.rev
    && (forall i | 0 <= i < |t.accepted| :: t.accepted[i] == i)
    && (forall i, j | 0 <= i < j < |t.issued| :: Before(t.issued[i], t.issued[j]))
    && (forall i | 0 <= i < |t.issued| :: t.issued[i].num >= 1)
    && (forall i | 0 <= i < |t.issued| ::
          Before(t.issued[i], Stamp(t.state.rev, t.state.msgSeq)) || t.issued[i] == Stamp(t.state.rev, t.state.msgSeq))
  }

  // A successful write evolves the catalog by one revision.
  lemma WriteEvolves(s: State, ns: string, table: Table, changed: bool, nextRev: Revision)
    requires TableEvolves(TableIn(s.attrs, ns), table, nextRev)
    requires !changed ==> table == TableIn(s.attrs, ns)
    ensures Evolves(s.attrs, Commit(s, ns, nextRev, table, changed).attrs, nextRev)
    ensures TableIn(Commit(s, ns, nextRev, table, changed).attrs, ns) == table
  {
  }

  lemma {:induction false} TryUpdateEvolves(s: State, rev: Revision, ns: string, attrs: seq<Attr>)
    requires CatalogKeyed(s.attrs)
    requires TryUpdate(s, rev, ns, attrs).result.Ok?
    ensures Evolves(s.attrs, TryUpdate(s, rev, ns, attrs).next.attrs, Inc32(rev))
    ensures WriteAll(TableIn(s.attrs, ns), attrs, Inc32(rev)).Some?
    ensures TableIn(TryUpdate(s, rev, ns, attrs).next.attrs, ns) == WriteAll(TableIn(s.attrs, ns), attrs, Inc32(rev)).value.table
    ensures forall k :: AttrAt(TryUpdate(s, rev, ns, attrs).next.attrs, ns, k)
                        == Current(TableIn(s.attrs, ns), attrs, |attrs|, k)
    ensures SameElsewhere(s.attrs, TryUpdate(s, rev, ns, attrs).next.attrs, ns)
  {
    var t := TableIn(s.attrs, ns);
    var w := WriteAll(t, attrs, Inc32(rev)).value;
    WriteAllEvolves(t, attrs, Inc32(rev));
    WriteAllMeaning(t, attrs, Inc32(rev));
    WriteEvolves(s, ns, w.table, w.diff != [], Inc32(rev));
  }

  lemma TryClearEvolves(s: State, rev: Revision, ns: string)
    requires CatalogKeyed(s.attrs)
    requires TryClear(s, rev, ns).result.Ok?
    ensures Evolves(s.attrs, TryClear(s, rev, ns).next.attrs, Inc32(rev))
    ensures forall k :: AttrAt(TryClear(s, rev, ns).next.attrs, ns, k)
                        == AttrAt(s.attrs, ns, k).(value := "")
    ensures SameElsewhere(s.attrs, TryClear(s, rev, ns).next.attrs, ns)
  {
    var t := TableIn(s.attrs, ns);
    BlankAllEvolves(t, Inc32(rev));
    WriteEvolves(s, ns, BlankAll(t, Inc32(rev)), !AllBlank(t), Inc32(rev));
    forall k ensures AttrIn(BlankAll(t, Inc32(rev)), k) == AttrIn(t, k).(value := "") {
    }
  }

  lemma TraceKeyed(t: Trace)
    requires TraceValid(t)
    ensures CatalogKeyed(t.state.attrs)
  {
    forall ns | ns in t.state.attrs ensures Keyed(t.state.attrs[ns]) {
      CatalogsKeyed(t.versions, t.state.rev, ns);
    }
  }

  lemma StepKeepsTrace(t: Trace, op: Op)
    requires TraceValid(t) && InRange(t.state)
    ensures TraceValid(Step(t, op))
    ensures Extends(t.versions, Step(t, op).versions)
  {
    TraceKeyed(t);
    match op
    case Update(rev, ns, attrs) =>
      if TryUpdate(t.state, rev, ns, attrs).result.Ok? {
        TryUpdateEvolves(t.state, rev, ns, attrs);
        AppendRevision(t.versions, TryUpdate(t.state, rev, ns, attrs).next.attrs);
      }
    case Clear(rev, ns) =>
      if TryClear(t.state, rev, ns).result.Ok? {
        TryClearEvolves(t.state, rev, ns);
        AppendRevision(t.versions, TryClear(t.state, rev, ns).next.attrs);
      }
    case TryDestroyAt(rev) =>
    case DestroyNow =>
    case SendMessage =>
  }

  lemma {:induction false} RunValid(ops: seq<Op>)
    requires RunInRange(ops)
    ensures TraceValid(Run(ops))
  {
    if |ops| > 0 {
      var prefix := ops[..|ops| - 1];
      forall n | 0 <= n <= |prefix| ensures InRange(Run(prefix[..n]).state) {
        assert prefix[..n] == ops[..n];
      }
      RunValid(prefix);
      assert ops[..|prefix|] == prefix;
      StepKeepsTrace(Run(prefix), ops[|ops| - 1]);
    }
  }

  // On every run the head revision counts the successful writes, and no two of
  // them succeeded against the same revision.
  lemma {:induction false} NoLostUpdates(ops: seq<Op>)
    requires RunInRange(ops)
    ensures Run(ops).state.rev == |Run(ops).accepted|
    ensures forall i, j | 0 <= i < j < |Run(ops).accepted| :: Run(ops).accepted[i] < Run(ops).accepted[j]
  {
    RunValid(ops);
  }

  // On every run the stamps of each stored attribute tell its whole history.
  lemma {:induction false} RunStampsTrue(ops: seq<Op>, ns: string, k: string)
    requires RunInRange(ops)
    requires k in TableIn(Run(ops).state.attrs, ns)
    ensures Head(Run(ops).versions) == Run(ops).state.rev
    ensures TableAt(Run(ops).versions, Run(ops).state.rev, ns) == TableIn(Run(ops).state.attrs, ns)
    ensures StampsTrue(Run(ops).versions, Run(ops).state.rev, ns, k)
  {
    RunValid(ops);
    StampsSummariseHistory(Run(ops).versions, Run(ops).state.rev, ns, k);
  }

  // On every run an attribute that was frozen at some revision is the same at
  // every later one, stamps included.
  lemma {:induction false} RunFrozenForever(ops: seq<Op>, r: nat, q: nat, ns: string, k: string)
    requires RunInRange(ops)
    requires r <= q < |Run(ops).versions|
    requires AttrAt(Run(ops).versions[r], ns, k).isFrozen
    ensures k in TableAt(Run(ops).versions, r, ns) && k in TableAt(Run(ops).versions, q, ns)
    ensures TableAt(Run(ops).versions, q, ns)[k] == TableAt(Run(ops).versions, r, ns)[k]
  {
    RunValid(ops);
    FrozenForever(Run(ops).versions, r, q, ns, k);
  }

  // Once destroyed, no continuation of the run changes anything at all.
  lemma {:induction false} DestroyedForever(ops: seq<Op>, more: seq<Op>)
    requires Run(ops).state.isDestroyed
    ensures Run(ops + more) == Run(ops)
  {
    if |more| == 0 {
      assert ops + more == ops;
    } else {
      var m := |more| - 1;
      DestroyedForever(ops, more[..m]);
      assert (ops + more)[..|ops + more| - 1] == ops + more[..m];
    }
  }

  // The message IDs of a session are strictly increasing although the sequence
  // starts again with each write.
  lemma {:induction false} MessageIdsIncrease(ops: seq<Op>)
    requires RunInRange(ops)
    ensures forall i, j | 0 <= i < j < |Run(ops).issued| :: Before(Run(ops).issued[i], Run(ops).issued[j])
    ensures forall i | 0 <= i < |Run(ops).issued| :: Run(ops).issued[i].num >= 1
  {
    RunValid(ops);
  }

  // How many of the stamps carry the revision.
  function CountAt(issued: seq<Stamp>, rev: Revision): nat {
    if |issued| == 0 then 0
    else CountAt(issued[..|issued| - 1], rev) + if issued[|issued| - 1].rev == rev then 1 else 0
  }

  // Each stamp carries the number of stamps given out at its revision so far.
  predicate Numbered(issued: seq<Stamp>) {
    |issued| == 0 ||
    (Numbered(issued[..|issued| - 1]) && issued[|issued| - 1].num == CountAt(issued, issued[|issued| - 1].rev))
  }

  lemma StepKeepsNumbers(t: Trace, op: Op)
    requires TraceValid(t) && InRange(t.state)
    requires t.state.msgSeq == CountAt(t.issued, t.state.rev) && Numbered(t.issued)
    ensures Step(t, op).state.msgSeq == CountAt(Step(t, op).issued, Step(t, op).state.rev) && Numbered(Step(t, op).issued)
  {
    var t' := Step(t, op);
    if t'.issued != t.issued {
      assert t'.issued[..|t'.issued| - 1] == t.issued;
    } else if t'.state.rev != t.state.rev {
      NoneLater(t.issued, t'.state.rev);
    }
  }

  // On every run the message IDs of each revision are numbered from one, without gaps.
  lemma {:induction false} MessagesAreNumbered(ops: seq<Op>)
    requires RunInRange(ops)
    ensures Numbered(Run(ops).issued)
    ensures Run(ops).state.msgSeq == CountAt(Run(ops).issued, Run(ops).state.rev)
  {
    if |ops| > 0 {
      var before := ops[..|ops| - 1];
      forall n | 0 <= n <= |before| ensures InRange(Run(before[..n]).state) {
        assert before[..n] == ops[..n];
      }
      MessagesAreNumbered(before);
      RunValid(before);
      assert before[..|before|] == before;
      StepKeepsNumbers(Run(before), ops[|ops| - 1]);
    }
  }

  lemma {:induction false} NoneLater(issued: seq<Stamp>, rev: Revision)
    requires forall i | 0 <= i < |issued| :: issued[i].rev < rev
    ensures CountAt(issued, rev) == 0
  {
    if |issued| > 0 {
      NoneLater(issued[..|issued| - 1], rev);
    }
  }

  // Without the bound on the revision a successful write can lead back to
  // revision zero, where writes against old revisions succeed again.
  lemma RevisionWraps(s: State, ns: string)
    requires !s.isDestroyed && s.rev == MAX_UINT32
    ensures TryUpdate(s, MAX_UINT32, ns, []).result.Ok?
    ensures TryUpdate(s, MAX_UINT32, ns, []).next.rev == 0
  {
    assert WriteAll(TableIn(s.attrs, ns), [], 0).Some?;
  }
}

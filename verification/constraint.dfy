/**
  Constraints on session attributes: the tree, its evaluation against a catalog, what
  it means, and which attributes it can depend on.
 */
module Constraints {
  import opened Attributes
  import SessionState

  // A constraint as it travels: a node with an operation that is just a string. Which
  // of the other fields matter depends on the operation.
  datatype Constraint = Constraint(op: string, terms: seq<Constraint>, key: string, value: string)

  const NONE := "*"
  const WITHIN := "ns"
  const EQUAL := "="
  const NOT_EQUAL := "!="
  const NOT := "!"
  const AND := "&"
  const OR := "|"

  const None := Constraint(NONE, [], "", "")

  function Within(ns: string, cons: seq<Constraint>): Constraint {
    Constraint(WITHIN, cons, "", ns)
  }

  function Equal(k: string, v: string): Constraint {
    Constraint(EQUAL, [], k, v)
  }

  function NotEqual(k: string, v: string): Constraint {
    Constraint(NOT_EQUAL, [], k, v)
  }

  function Empty(k: string): Constraint {
    Constraint(EQUAL, [], k, "")
  }

  function NotEmpty(k: string): Constraint {
    Constraint(NOT_EQUAL, [], k, "")
  }

  function Not(con: Constraint): Constraint {
    Constraint(NOT, [con], "", "")
  }

  function And(cons: seq<Constraint>): Constraint {
    Constraint(AND, cons, "", "")
  }

  function Or(cons: seq<Constraint>): Constraint {
    Constraint(OR, cons, "", "")
  }

  // ---- The matcher ----

  // None is a panic: an unknown operation, or a negation of nothing.
  function Eval(cat: Catalog, ns: string, con: Constraint): Option<bool>
    decreases con
  {
    if con.op == NONE then Some(true)
    else if con.op == WITHIN then EvalAll(cat, con.value, con.terms)
    else if con.op == EQUAL then Some(AttrAt(cat, ns, con.key).value == con.value)
    else if con.op == NOT_EQUAL then Some(AttrAt(cat, ns, con.key).value != con.value)
    else if con.op == NOT then
      if con.terms == [] then Option.None
      else
        match Eval(cat, ns, con.terms[0])
        case None => Option.None
        case Some(isMatch) => Some(!isMatch)
    else if con.op == AND then EvalAll(cat, ns, con.terms)
    else if con.op == OR then EvalAny(cat, ns, con.terms)
    else Option.None
  }

  // The terms after the first mismatch are not looked at.
  function EvalAll(cat: Catalog, ns: string, terms: seq<Constraint>): Option<bool>
    decreases terms
  {
    if terms == [] then Some(true)
    else
      match Eval(cat, ns, terms[0])
      case None => Option.None
      case Some(isMatch) => if isMatch then EvalAll(cat, ns, terms[1..]) else Some(false)
  }

  // The terms after the first match are not looked at.
  function EvalAny(cat: Catalog, ns: string, terms: seq<Constraint>): Option<bool>
    decreases terms
  {
    if terms == [] then Some(false)
    else
      match Eval(cat, ns, terms[0])
      case None => Option.None
      case Some(isMatch) => if isMatch then Some(true) else EvalAny(cat, ns, terms[1..])
  }

  // ---- What a constraint means ----

  predicate IsLeaf(op: string) {
    op == NONE || op == EQUAL || op == NOT_EQUAL
  }

  predicate IsList(op: string) {
    op == WITHIN || op == AND || op == OR
  }

  // What the constructors make. A negation looks at its first term only.
  predicate WellFormed(con: Constraint)
    decreases con
  {
    || IsLeaf(con.op)
    || (con.op == NOT && con.terms != [] && WellFormed(con.terms[0]))
    || (IsList(con.op) && forall i | 0 <= i < |con.terms| :: WellFormed(con.terms[i]))
  }

  // Whatever is built with the constructors from well-formed parts is well-formed,
  // whether or not it has parts at all.
  lemma ConstructorsMakeWellFormed(ns: string, k: string, v: string, con: Constraint, cons: seq<Constraint>)
    requires WellFormed(con) && forall c | c in cons :: WellFormed(c)
    ensures WellFormed(None) && WellFormed(Equal(k, v)) && WellFormed(NotEqual(k, v))
    ensures WellFormed(Empty(k)) && WellFormed(NotEmpty(k)) && WellFormed(Not(con))
    ensures WellFormed(Within(ns, cons)) && WellFormed(And(cons)) && WellFormed(Or(cons))
  {
    assert Not(con).terms[0] == con;
  }

  ghost predicate Holds(cat: Catalog, ns: string, con: Constraint)
    decreases con
  {
    if con.op == WITHIN then forall i | 0 <= i < |con.terms| :: Holds(cat, con.value, con.terms[i])
    else if con.op == AND then forall i | 0 <= i < |con.terms| :: Holds(cat, ns, con.terms[i])
    else if con.op == OR then exists i | 0 <= i < |con.terms| :: Holds(cat, ns, con.terms[i])
    else if con.op == NOT then con.terms != [] && !Holds(cat, ns, con.terms[0])
    else if con.op == EQUAL then AttrAt(cat, ns, con.key).value == con.value
    else if con.op == NOT_EQUAL then AttrAt(cat, ns, con.key).value != con.value
    else true
  }

  // The matcher decides the meaning of every well-formed constraint, and panics on
  // none of them.
  lemma {:induction false} EvalIsMeaning(cat: Catalog, ns: string, con: Constraint)
    requires WellFormed(con)
    ensures Eval(cat, ns, con) == Some(Holds(cat, ns, con))
    decreases con
  {
    if con.op == NOT {
      EvalIsMeaning(cat, ns, con.terms[0]);
    } else if con.op == WITHIN {
      EvalAllIsMeaning(cat, con.value, con.terms);
    } else if con.op == AND {
      EvalAllIsMeaning(cat, ns, con.terms);
    } else if con.op == OR {
      EvalAnyIsMeaning(cat, ns, con.terms);
    }
  }

  lemma {:induction false} EvalAllIsMeaning(cat: Catalog, ns: string, terms: seq<Constraint>)
    requires forall i | 0 <= i < |terms| :: WellFormed(terms[i])
    ensures EvalAll(cat, ns, terms) == Some(forall i | 0 <= i < |terms| :: Holds(cat, ns, terms[i]))
    decreases terms
  {
    if terms != [] {
      EvalIsMeaning(cat, ns, terms[0]);
      EvalAllIsMeaning(cat, ns, terms[1..]);
      assert forall i | 0 < i < |terms| :: terms[i] == terms[1..][i - 1];
    }
  }

  lemma {:induction false} EvalAnyIsMeaning(cat: Catalog, ns: string, terms: seq<Constraint>)
    requires forall i | 0 <= i < |terms| :: WellFormed(terms[i])
    ensures EvalAny(cat, ns, terms) == Some(exists i | 0 <= i < |terms| :: Holds(cat, ns, terms[i]))
    decreases terms
  {
    if terms != [] {
      EvalIsMeaning(cat, ns, terms[0]);
      EvalAnyIsMeaning(cat, ns, terms[1..]);
      assert forall i | 0 < i < |terms| :: terms[i] == terms[1..][i - 1];
    }
  }

  // What the constructors promise, in terms of the parts' own verdicts. An attribute that
  // does not exist is empty.
  lemma LeavesMean(cat: Catalog, ns: string, k: string, v: string)
    ensures Eval(cat, ns, None) == Some(true)
    ensures Eval(cat, ns, Equal(k, v)) == Some(AttrAt(cat, ns, k).value == v)
    ensures Eval(cat, ns, NotEqual(k, v)) == Some(AttrAt(cat, ns, k).value != v)
    ensures Eval(cat, ns, Empty(k)) == Some(ns !in cat || k !in cat[ns] || cat[ns][k].attr.value == "")
    ensures Eval(cat, ns, NotEmpty(k)) == Some(ns in cat && k in cat[ns] && cat[ns][k].attr.value != "")
  {
  }

  lemma {:induction false} NotMeans(cat: Catalog, ns: string, con: Constraint)
    requires WellFormed(con)
    ensures Eval(cat, ns, Not(con)) == Some(Eval(cat, ns, con) == Some(false))
    ensures Eval(cat, ns, Not(Not(con))) == Eval(cat, ns, con)
  {
    EvalIsMeaning(cat, ns, con);
    assert Not(con).terms == [con] && Not(Not(con)).terms == [Not(con)];
  }

  lemma {:induction false} ListsMean(cat: Catalog, ns: string, n: string, cons: seq<Constraint>)
    requires forall c | c in cons :: WellFormed(c)
    ensures Eval(cat, ns, And(cons)) == Some(forall c | c in cons :: Eval(cat, ns, c) == Some(true))
    ensures Eval(cat, ns, Or(cons)) == Some(exists c | c in cons :: Eval(cat, ns, c) == Some(true))
    ensures Eval(cat, ns, Within(n, cons)) == Some(forall c | c in cons :: Eval(cat, n, c) == Some(true))
  {
    TermsMean(cat, ns, cons);
    TermsMean(cat, n, cons);
  }

  lemma {:induction false} TermsMean(cat: Catalog, ns: string, cons: seq<Constraint>)
    requires forall c | c in cons :: WellFormed(c)
    ensures EvalAll(cat, ns, cons) == Some(forall c | c in cons :: Eval(cat, ns, c) == Some(true))
    ensures EvalAny(cat, ns, cons) == Some(exists c | c in cons :: Eval(cat, ns, c) == Some(true))
  {
    EvalAllIsMeaning(cat, ns, cons);
    EvalAnyIsMeaning(cat, ns, cons);
    forall c | c in cons ensures Eval(cat, ns, c) == Some(Holds(cat, ns, c)) {
      EvalIsMeaning(cat, ns, c);
    }
  }

  // ---- Which attributes matter ----

  // The constraint looks at key k of namespace n when it is evaluated in ns.
  predicate Mentions(ns: string, con: Constraint, n: string, k: string)
    decreases con
  {
    if con.op == EQUAL || con.op == NOT_EQUAL then n == ns && k == con.key
    else if con.op == WITHIN then exists i | 0 <= i < |con.terms| :: Mentions(con.value, con.terms[i], n, k)
    else if con.op == AND || con.op == OR then exists i | 0 <= i < |con.terms| :: Mentions(ns, con.terms[i], n, k)
    else con.op == NOT && con.terms != [] && Mentions(ns, con.terms[0], n, k)
  }

  ghost predicate SomeMentions(ns: string, cons: seq<Constraint>, m: string, j: string) {
    exists c | c in cons :: Mentions(ns, c, m, j)
  }

  // What the constructors mention: keys belong to the nearest enclosing Within.
  lemma ConstructorsMention(ns: string, k: string, v: string, con: Constraint, n: string, cons: seq<Constraint>, m: string, j: string)
    ensures !Mentions(ns, None, m, j)
    ensures Mentions(ns, Equal(k, v), m, j) <==> m == ns && j == k
    ensures Mentions(ns, NotEqual(k, v), m, j) <==> m == ns && j == k
    ensures Mentions(ns, Not(con), m, j) <==> Mentions(ns, con, m, j)
    ensures Mentions(ns, And(cons), m, j) <==> SomeMentions(ns, cons, m, j)
    ensures Mentions(ns, Or(cons), m, j) <==> SomeMentions(ns, cons, m, j)
    ensures Mentions(ns, Within(n, cons), m, j) <==> SomeMentions(n, cons, m, j)
  {
    assert Not(con).terms[0] == con;
    SomeTermMentions(ns, cons, m, j);
    SomeTermMentions(n, cons, m, j);
  }

  lemma SomeTermMentions(ns: string, cons: seq<Constraint>, m: string, j: string)
    ensures SomeMentions(ns, cons, m, j) <==> exists i | 0 <= i < |cons| :: Mentions(ns, cons[i], m, j)
  {
    if c :| c in cons && Mentions(ns, c, m, j) {
      var i :| 0 <= i < |cons| && cons[i] == c;
      assert Mentions(ns, cons[i], m, j);
    }
    if i :| 0 <= i < |cons| && Mentions(ns, cons[i], m, j) {
      assert cons[i] in cons;
    }
  }

  // Absent and empty attributes have the same value.
  predicate SameValue(a: Catalog, b: Catalog, n: string, k: string) {
    AttrAt(a, n, k).value == AttrAt(b, n, k).value
  }

  // The verdict depends on the values of the mentioned attributes and on nothing else;
  // so does whether there is one.
  lemma {:induction false} OnlyMentionedMatter(a: Catalog, b: Catalog, ns: string, con: Constraint)
    requires forall n, k | Mentions(ns, con, n, k) :: SameValue(a, b, n, k)
    ensures Eval(a, ns, con) == Eval(b, ns, con)
    decreases con
  {
    if con.op == EQUAL || con.op == NOT_EQUAL {
      assert Mentions(ns, con, ns, con.key);
    } else if con.op == NOT && con.terms != [] {
      OnlyMentionedMatter(a, b, ns, con.terms[0]);
    } else if IsList(con.op) {
      var inner := if con.op == WITHIN then con.value else ns;
      forall i, n, k | 0 <= i < |con.terms| && Mentions(inner, con.terms[i], n, k) ensures SameValue(a, b, n, k) {
        assert Mentions(ns, con, n, k);
      }
      OnlyMentionedMatterAll(a, b, inner, con.terms);
    }
  }

  lemma {:induction false} OnlyMentionedMatterAll(a: Catalog, b: Catalog, ns: string, terms: seq<Constraint>)
    requires forall i, n, k | 0 <= i < |terms| && Mentions(ns, terms[i], n, k) :: SameValue(a, b, n, k)
    ensures EvalAll(a, ns, terms) == EvalAll(b, ns, terms)
    ensures EvalAny(a, ns, terms) == EvalAny(b, ns, terms)
    decreases terms
  {
    if terms != [] {
      OnlyMentionedMatter(a, b, ns, terms[0]);
      forall i, n, k | 0 <= i < |terms[1..]| && Mentions(ns, terms[1..][i], n, k) ensures SameValue(a, b, n, k) {
        assert terms[1..][i] == terms[i + 1];
      }
      OnlyMentionedMatterAll(a, b, ns, terms[1..]);
    }
  }

  // ---- Which writes matter ----

  lemma {:induction false} WriteAllInDiff(t: Table, attrs: seq<Attr>, nextRev: Revision, k: string)
    requires SessionState.WriteAll(t, attrs, nextRev).Some?
    ensures var w := SessionState.WriteAll(t, attrs, nextRev).value;
            AttrIn(w.table, k) == AttrIn(t, k) || exists v :: v in w.diff && v.attr.key == k
  {
    if |attrs| > 0 {
      WriteAllInDiff(t, attrs[..|attrs| - 1], nextRev, k);
      var w := SessionState.WriteAll(t, attrs[..|attrs| - 1], nextRev).value;
      var w' := SessionState.WriteAll(t, attrs, nextRev).value;
      if v :| v in w.diff && v.attr.key == k {
        assert v in w'.diff;
      } else if AttrIn(w'.table, k) != AttrIn(w.table, k) {
        assert w'.diff[|w'.diff| - 1].attr.key == k;
      }
    }
  }

  // A successful update changes the verdict only if its diff has an attribute that the
  // constraint mentions.
  lemma UpdateMatters(s: SessionState.State, rev: Revision, ns: string, attrs: seq<Attr>, default: string, con: Constraint)
    requires SessionState.TryUpdate(s, rev, ns, attrs).result.Ok?
    requires Eval(SessionState.TryUpdate(s, rev, ns, attrs).next.attrs, default, con) != Eval(s.attrs, default, con)
    ensures exists v :: v in SessionState.TryUpdate(s, rev, ns, attrs).result.value.attrs && Mentions(default, con, ns, v.attr.key)
  {
    var s' := SessionState.TryUpdate(s, rev, ns, attrs).next;
    if forall n, k | Mentions(default, con, n, k) :: SameValue(s'.attrs, s.attrs, n, k) {
      OnlyMentionedMatter(s'.attrs, s.attrs, default, con);
    } else {
      var n, k :| Mentions(default, con, n, k) && !SameValue(s'.attrs, s.attrs, n, k);
      WriteAllInDiff(TableIn(s.attrs, ns), attrs, Inc32(rev), k);
    }
  }

  // A clear changes the verdict only if it blanks an attribute that the constraint
  // mentions.
  lemma ClearMatters(s: SessionState.State, rev: Revision, ns: string, default: string, con: Constraint)
    requires Eval(SessionState.TryClear(s, rev, ns).next.attrs, default, con) != Eval(s.attrs, default, con)
    ensures exists k :: Mentions(default, con, ns, k) && AttrAt(s.attrs, ns, k).value != ""
                        && AttrAt(SessionState.TryClear(s, rev, ns).next.attrs, ns, k).value == ""
  {
    var s' := SessionState.TryClear(s, rev, ns).next;
    if forall n, k | Mentions(default, con, n, k) :: SameValue(s'.attrs, s.attrs, n, k) {
      OnlyMentionedMatter(s'.attrs, s.attrs, default, con);
    } else {
      var n, k :| Mentions(default, con, n, k) && !SameValue(s'.attrs, s.attrs, n, k);
      assert n == ns && AttrAt(s.attrs, ns, k).value != "";
    }
  }
}

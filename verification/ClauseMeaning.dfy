/** What the WHERE clauses of cleanup-demo-data.ts select, said of cells and candidates alone: a clause is a list of
    alternatives, each a condition on one cell of the row, or on one cell of a row of another table that it points to.
    */
module ClauseMeaning {
  import opened CleanupTables
  import opened DemoCleanup

  predicate Simple(w: Where) { w.Like? || w.InCandidates? }

  function Alternatives(w: Where): seq<Where> { if w.AnyOf? then w.conditions else [w] }

  predicate Flat(w: Where) { forall x :: x in Alternatives(w) ==> Simple(x) }

  /** Alternatives of simple conditions, with at most one level of sub-selects: all the script writes. */
  predicate Shallow(w: Where) {
    forall x :: x in Alternatives(w) ==> Simple(x) || (x.InTable? && Flat(x.sub))
  }

  /** LIKE with the pattern 'p%', '%p' or '%p%', or equality. */
  ghost predicate TextIs(test: TextTest, s: string) {
    match test
    case StartsWith(p) => exists rest :: s == p + rest
    case EndsWith(p) => exists rest :: s == rest + p
    case Includes(p) => exists before, after :: s == before + p + after
    case Is(p) => s == p
  }

  /** A simple condition: the cell holds a text that passes the test, or that is among the candidates. */
  ghost predicate MeetsSimple(w: Where, r: Row, c: Candidates) {
    match w
    case Like(column, test) => exists s :: CellAt(r, column) == Text(s) && TextIs(test, s)
    case InCandidates(column, name) => exists s :: CellAt(r, column) == Text(s) && name in c && s in c[name]
    case _ => false
  }

  /** A condition through another table: the cell holds the id of a row there that meets a simple condition. */
  ghost predicate MeetsThrough(w: Where, r: Row, db: Db, c: Candidates) {
    w.InTable?
    && exists s, t, x ::
         && t in db && t.table == w.table && CellAt(r, w.column) == Text(s) && CellAt(t, "id") == Text(s)
         && x in Alternatives(w.sub) && MeetsSimple(x, t, c)
  }

  /** Some statement about the row's table has an alternative the row meets. */
  ghost predicate Selected(sts: seq<Statement>, r: Row, db: Db, c: Candidates) {
    exists st, x ::
      && st in sts && st.table == r.table && x in Alternatives(st.where)
      && (MeetsSimple(x, r, c) || MeetsThrough(x, r, db, c))
  }

  lemma {:induction false} ContainsIff(s: string, p: string)
    ensures Contains(s, p) <==> TextIs(Includes(p), s)
  {
    if s != [] {
      ContainsIff(s[1..], p);
    }
    if p <= s {
      assert s == [] + p + s[|p|..];
    } else if s != [] && Contains(s[1..], p) {
      var before, after :| s[1..] == before + p + after;
      assert s == ([s[0]] + before) + p + after;
    }
    if before, after :| s == before + p + after {
      if before == [] {
        assert s[..|p|] == p;
      } else {
        assert s[1..] == before[1..] + p + after;
      }
    }
  }

  lemma PassesIff(test: TextTest, s: string)
    ensures Passes(test, s) <==> TextIs(test, s)
  {
    match test
    case StartsWith(p) =>
      if p <= s { assert s == p + s[|p|..]; }
    case EndsWith(p) =>
      if Passes(test, s) { assert s == s[..|s| - |p|] + p; }
    case Includes(p) => ContainsIff(s, p);
    case Is(_) =>
  }

  lemma SimpleHoldsIff(w: Where, r: Row, db: Db, c: Candidates)
    requires Simple(w)
    ensures Holds(w, r, db, c) <==> MeetsSimple(w, r, c)
  {
    hide Passes, TextIs;
    if w.Like? && CellAt(r, w.column).Text? {
      PassesIff(w.test, CellAt(r, w.column).text);
    }
  }

  lemma AlternativesHoldIff(w: Where, r: Row, db: Db, c: Candidates)
    ensures Holds(w, r, db, c) <==> exists x :: x in Alternatives(w) && Holds(x, r, db, c)
  {
    if !w.AnyOf? {
      assert w in Alternatives(w);
    }
  }

  lemma ThroughHoldsIff(w: Where, r: Row, db: Db, c: Candidates)
    requires w.InTable? && Flat(w.sub)
    ensures Holds(w, r, db, c) <==> MeetsThrough(w, r, db, c)
  {
    hide MeetsSimple;
    forall t
      ensures Holds(w.sub, t, db, c) <==> exists x :: x in Alternatives(w.sub) && MeetsSimple(x, t, c)
    {
      AlternativesHoldIff(w.sub, t, db, c);
      forall x | x in Alternatives(w.sub)
        ensures Holds(x, t, db, c) <==> MeetsSimple(x, t, c)
      {
        SimpleHoldsIff(x, t, db, c);
      }
    }
    if Holds(w, r, db, c) {
      var t :| t in db && t.table == w.table && CellAt(t, "id") == CellAt(r, w.column) && Holds(w.sub, t, db, c);
      var x :| x in Alternatives(w.sub) && MeetsSimple(x, t, c);
    }
  }

  lemma ShallowHoldsIff(w: Where, r: Row, db: Db, c: Candidates)
    requires Shallow(w)
    ensures Holds(w, r, db, c)
      <==> exists x :: x in Alternatives(w) && (MeetsSimple(x, r, c) || MeetsThrough(x, r, db, c))
  {
    hide Holds, MeetsSimple, MeetsThrough, Flat;
    AlternativesHoldIff(w, r, db, c);
    forall x | x in Alternatives(w)
      ensures Holds(x, r, db, c) <==> MeetsSimple(x, r, c) || MeetsThrough(x, r, db, c)
    {
      if Simple(x) {
        SimpleHoldsIff(x, r, db, c);
        SimpleIsNotThrough(x, r, db, c);
      } else {
        ThroughHoldsIff(x, r, db, c);
        ThroughIsNotSimple(x, r, c);
      }
    }
  }

  lemma SimpleIsNotThrough(x: Where, r: Row, db: Db, c: Candidates)
    requires Simple(x)
    ensures !MeetsThrough(x, r, db, c)
  {
  }

  lemma ThroughIsNotSimple(x: Where, r: Row, c: Candidates)
    requires x.InTable?
    ensures !MeetsSimple(x, r, c)
  {
  }

  /** The targets of shallow statements are the rows they select, cell by cell. */
  lemma TargetsAreSelected(sts: seq<Statement>, db: Db, c: Candidates)
    requires forall st :: st in sts ==> Shallow(st.where)
    ensures forall r :: r in Targets(sts, db, c) <==> r in db && Selected(sts, r, db, c)
  {
    hide Holds, MeetsSimple, MeetsThrough, Shallow;
    forall r | r in db
      ensures r in Targets(sts, db, c) <==> Selected(sts, r, db, c)
    {
      forall st | st in sts
        ensures Holds(st.where, r, db, c)
          <==> exists x :: x in Alternatives(st.where) && (MeetsSimple(x, r, c) || MeetsThrough(x, r, db, c))
      {
        ShallowHoldsIff(st.where, r, db, c);
      }
      if r in Targets(sts, db, c) {
        var st :| st in sts && Matches(st, r, db, c);
        var x :| x in Alternatives(st.where) && (MeetsSimple(x, r, c) || MeetsThrough(x, r, db, c));
      }
      if Selected(sts, r, db, c) {
        var st, x :| && st in sts && st.table == r.table && x in Alternatives(st.where)
                     && (MeetsSimple(x, r, c) || MeetsThrough(x, r, db, c));
        assert Matches(st, r, db, c);
      }
    }
  }
}

/** cleanup-demo-data.ts: one transaction that snapshots the keys every DELETE statement matches, runs the
    statements in order, and refuses to commit while a snapshotted key is still there. */
module DemoCleanup {
  import opened CleanupTables

  datatype Cell = Null | Text(text: string)
  datatype Row = Row(table: Table, columns: map<string, Cell>)
  type Db = set<Row>

  /** The temporary candidate tables, filled before anything is deleted and fixed from then on. */
  type Candidates = map<Candidate, set<string>>

  // ---- what a statement matches ----

  predicate Passes(test: TextTest, s: string) {
    match test
    case StartsWith(p) => p <= s
    case EndsWith(p) => |p| <= |s| && s[|s| - |p|..] == p
    case Includes(p) => Contains(s, p)
    case Is(p) => s == p
  }

  predicate Contains(s: string, p: string) {
    p <= s || (s != [] && Contains(s[1..], p))
  }

  function CellAt(r: Row, column: string): Cell {
    if column in r.columns then r.columns[column] else Null
  }

  /** A comparison with NULL is never true, so an absent value matches nothing. */
  predicate Holds(w: Where, r: Row, db: Db, c: Candidates) {
    match w
    case Like(column, test) => CellAt(r, column).Text? && Passes(test, CellAt(r, column).text)
    case InCandidates(column, name) =>
      CellAt(r, column).Text? && name in c && CellAt(r, column).text in c[name]
    case InTable(column, table, sub) =>
      CellAt(r, column).Text?
      && exists s :: s in db && s.table == table && CellAt(s, "id") == CellAt(r, column) && Holds(sub, s, db, c)
    case AnyOf(conditions) => exists w' :: w' in conditions && Holds(w', r, db, c)
  }

  predicate Matches(st: Statement, r: Row, db: Db, c: Candidates) {
    r.table == st.table && Holds(st.where, r, db, c)
  }

  function Matched(st: Statement, db: Db, c: Candidates): Db {
    set r | r in db && Matches(st, r, db, c)
  }

  /** Every row some statement matches in `db`. */
  function Targets(sts: seq<Statement>, db: Db, c: Candidates): Db {
    set st, r | st in sts && r in db && Matches(st, r, db, c) :: r
  }

  function RunAll(sts: seq<Statement>, db: Db, c: Candidates): Db {
    if sts == [] then db else RunAll(sts[1..], db - Matched(sts[0], db, c), c)
  }

  // ---- the transaction ----

  type Key = map<string, Cell>
  type PrimaryKeys = map<Table, seq<string>>

  /** The primary key columns of a table; none when the catalog has no primary key for it. */
  function Columns(keys: PrimaryKeys, t: Table): seq<string> { if t in keys then keys[t] else [] }

  function KeyOf(r: Row, keys: PrimaryKeys): Key {
    map column | column in Columns(keys, r.table) && column in r.columns :: r.columns[column]
  }

  /** No two rows of a table with a primary key share it. */
  ghost predicate KeysUnique(db: Db, keys: PrimaryKeys) {
    forall r, s | r in db && s in db && r.table == s.table && Columns(keys, r.table) != [] ::
      KeyOf(r, keys) == KeyOf(s, keys) ==> r == s
  }

  predicate AllKeyed(sts: seq<Statement>, keys: PrimaryKeys) {
    forall st :: st in sts ==> Columns(keys, st.table) != []
  }

  datatype Outcome = NotConfirmed | RefusedProtected | DryRun | RefusedNoPrimaryKey | RefusedResidual | Committed

  class Database {
    var rows: Db

    constructor (rows: Db)
      ensures this.rows == rows
    {
      this.rows := rows;
    }

    method Execute(st: Statement, c: Candidates)
      modifies this
      ensures rows == old(rows) - Matched(st, old(rows), c)
    {
      rows := set r | r in rows && !Matches(st, r, rows, c);
    }

    /** `snapshotTargetKeys`: per statement, the keys of the rows it matches now. */
    method SnapshotTargetKeys(sts: seq<Statement>, keys: PrimaryKeys, c: Candidates) returns (taken: seq<set<Key>>)
      ensures taken == Snapshot(sts, rows, keys, c)
    {
      taken := [];
      for i := 0 to |sts|
        invariant taken == Snapshot(sts[..i], rows, keys, c)
      {
        taken := taken + [KeysOf(Matched(sts[i], rows, c), keys)];
      }
    }

    /** `assertNoResidualTargetKeys`, as an answer. */
    method NoResidualTargetKeys(sts: seq<Statement>, keys: PrimaryKeys, taken: seq<set<Key>>) returns (clean: bool)
      requires |taken| == |sts|
      ensures clean <==> forall i :: 0 <= i < |sts| ==> !Residual(sts[i], rows, keys, taken[i])
    {
      var residual: seq<Table> := [];
      for i := 0 to |sts|
        invariant residual == [] <==> forall j :: 0 <= j < i ==> !Residual(sts[j], rows, keys, taken[j])
      {
        if Residual(sts[i], rows, keys, taken[i]) {
          residual := residual + [sts[i].table];
        }
      }
      clean := residual == [];
    }

    /** The whole script. A refusal rolls the transaction back. */
    method Cleanup(execute: bool, confirmed: bool, protectedCount: nat, standard: seq<Statement>,
                   deletion: seq<Statement>, keys: PrimaryKeys, c: Candidates)
      returns (outcome: Outcome)
      requires KeysUnique(rows, keys)
      modifies this
      ensures outcome == NotConfirmed <==> execute && !confirmed
      ensures outcome == RefusedProtected <==> execute && confirmed && protectedCount > 0
      ensures outcome == DryRun <==> !execute
      ensures outcome == RefusedNoPrimaryKey <==>
        execute && confirmed && protectedCount == 0 && !AllKeyed(standard + deletion, keys)
      ensures outcome == Committed <==>
        execute && confirmed && protectedCount == 0 && AllKeyed(standard + deletion, keys)
        && RunAll(standard + deletion, old(rows), c) !! Targets(standard + deletion, old(rows), c)
      ensures outcome == Committed ==> rows == old(rows) - Targets(standard + deletion, old(rows), c)
      ensures outcome != Committed ==> rows == old(rows)
    {
      if execute && !confirmed { return NotConfirmed; }
      if protectedCount > 0 { return if execute then RefusedProtected else DryRun; }
      if !execute { return DryRun; }
      var all := standard + deletion;
      if !AllKeyed(all, keys) { return RefusedNoPrimaryKey; }
      var before := rows;
      var taken := SnapshotTargetKeys(all, keys, c);
      RunStatements(all, c);
      var clean := NoResidualTargetKeys(all, keys, taken);
      ResidualIff(all, before, rows, keys, c);
      if !clean {
        rows := before;
        return RefusedResidual;
      }
      CommitIsExact(all, before, c);
      return Committed;
    }

    method RunStatements(sts: seq<Statement>, c: Candidates)
      modifies this
      ensures rows == RunAll(sts, old(rows), c) && rows <= old(rows)
    {
      for i := 0 to |sts|
        invariant RunAll(sts[i..], rows, c) == RunAll(sts, old(rows), c) && rows <= old(rows)
      {
        assert sts[i..][1..] == sts[i + 1..];
        Execute(sts[i], c);
      }
    }
  }

  function KeysOf(rows: Db, keys: PrimaryKeys): set<Key> {
    set r | r in rows :: KeyOf(r, keys)
  }

  function Snapshot(sts: seq<Statement>, db: Db, keys: PrimaryKeys, c: Candidates): seq<set<Key>> {
    seq(|sts|, i requires 0 <= i < |sts| => KeysOf(Matched(sts[i], db, c), keys))
  }

  /** A row of the statement's table still has a key taken for that statement. */
  predicate Residual(st: Statement, db: Db, keys: PrimaryKeys, taken: set<Key>) {
    exists t :: t in db && t.table == st.table && KeyOf(t, keys) in taken
  }

  /** Two rows of a table have one key exactly when they agree on every column of its primary key. */
  lemma SameKeyIff(r: Row, s: Row, keys: PrimaryKeys)
    requires r.table == s.table
    ensures KeyOf(r, keys) == KeyOf(s, keys) <==>
      forall column :: column in Columns(keys, r.table) ==>
        && (column in r.columns <==> column in s.columns)
        && (column in r.columns ==> r.columns[column] == s.columns[column])
  {
    if KeyOf(r, keys) == KeyOf(s, keys) {
      forall column | column in Columns(keys, r.table)
        ensures column in r.columns <==> column in s.columns
        ensures column in r.columns ==> r.columns[column] == s.columns[column]
      {
        assert column in KeyOf(r, keys) <==> column in KeyOf(s, keys);
        assert column in KeyOf(r, keys) ==> KeyOf(r, keys)[column] == KeyOf(s, keys)[column];
      }
    }
  }

  lemma ResidualOfStatement(st: Statement, before: Db, after: Db, keys: PrimaryKeys, c: Candidates)
    requires KeysUnique(before, keys) && after <= before && Columns(keys, st.table) != []
    ensures Residual(st, after, keys, KeysOf(Matched(st, before, c), keys)) <==> !(after !! Matched(st, before, c))
  {
    var matched := Matched(st, before, c);
    if Residual(st, after, keys, KeysOf(matched, keys)) {
      var t :| t in after && t.table == st.table && KeyOf(t, keys) in KeysOf(matched, keys);
      var r :| r in matched && KeyOf(r, keys) == KeyOf(t, keys);
      assert r == t;
    }
    if !(after !! matched) {
      var t :| t in after && t in matched;
      assert KeyOf(t, keys) in KeysOf(matched, keys);
    }
  }

  /** With unique keys, a residual key is a residual row. */
  lemma ResidualIff(sts: seq<Statement>, before: Db, after: Db, keys: PrimaryKeys, c: Candidates)
    requires KeysUnique(before, keys) && after <= before && AllKeyed(sts, keys)
    ensures (forall i :: 0 <= i < |sts| ==> !Residual(sts[i], after, keys, Snapshot(sts, before, keys, c)[i]))
      <==> after !! Targets(sts, before, c)
  {
    forall i | 0 <= i < |sts|
      ensures Residual(sts[i], after, keys, Snapshot(sts, before, keys, c)[i]) <==>
        !(after !! Matched(sts[i], before, c))
    {
      ResidualOfStatement(sts[i], before, after, keys, c);
    }
    if t :| t in after && t in Targets(sts, before, c) {
      var st :| st in sts && Matches(st, t, before, c);
      var i :| 0 <= i < |sts| && sts[i] == st;
      assert t in Matched(sts[i], before, c);
    }
    if i :| 0 <= i < |sts| && !(after !! Matched(sts[i], before, c)) {
      var t :| t in after && t in Matched(sts[i], before, c);
      assert sts[i] in sts && t in Targets(sts, before, c);
    }
  }

  // ---- predicates only ever lose rows ----

  /** No condition the statements can be written in becomes true by deleting rows. */
  lemma {:induction false} HoldsMonotone(w: Where, r: Row, small: Db, large: Db, c: Candidates)
    requires small <= large && Holds(w, r, small, c)
    ensures Holds(w, r, large, c)
  {
    match w
    case Like(_, _) =>
    case InCandidates(_, _) =>
    case InTable(column, table, sub) =>
      var s :| s in small && s.table == table && CellAt(s, "id") == CellAt(r, column) && Holds(sub, s, small, c);
      HoldsMonotone(sub, s, small, large, c);
    case AnyOf(conditions) =>
      var w' :| w' in conditions && Holds(w', r, small, c);
      HoldsMonotone(w', r, small, large, c);
  }

  /** Whatever the order, only rows matched before the first deletion are deleted. */
  lemma {:induction false} OnlyTargetsDeleted(sts: seq<Statement>, db: Db, original: Db, c: Candidates)
    requires db <= original
    ensures RunAll(sts, db, c) <= db
    ensures db - RunAll(sts, db, c) <= Targets(sts, original, c)
  {
    if sts != [] {
      var rest := db - Matched(sts[0], db, c);
      OnlyTargetsDeleted(sts[1..], rest, original, c);
      forall r | r in db && r !in RunAll(sts, db, c)
        ensures r in Targets(sts, original, c)
      {
        if r in Matched(sts[0], db, c) {
          HoldsMonotone(sts[0].where, r, db, original, c);
          assert sts[0] in sts;
        } else {
          assert r in Targets(sts[1..], original, c);
          var st :| st in sts[1..] && Matches(st, r, original, c);
          assert st in sts;
        }
      }
    }
  }

  /** Nothing matched at the start is left exactly when what was deleted is what was matched at the start. */
  lemma CommitIsExact(sts: seq<Statement>, db: Db, c: Candidates)
    ensures RunAll(sts, db, c) !! Targets(sts, db, c) <==> RunAll(sts, db, c) == db - Targets(sts, db, c)
  {
    OnlyTargetsDeleted(sts, db, db, c);
  }

  /** Two orders of the same statements that both commit leave the same rows. */
  lemma OrderDoesNotMatter(sts: seq<Statement>, others: seq<Statement>, db: Db, c: Candidates)
    requires multiset(sts) == multiset(others)
    requires RunAll(sts, db, c) !! Targets(sts, db, c) && RunAll(others, db, c) !! Targets(others, db, c)
    ensures RunAll(sts, db, c) == RunAll(others, db, c)
  {
    assert forall st :: st in sts <==> st in multiset(sts);
    assert forall st :: st in others <==> st in multiset(others);
    assert Targets(sts, db, c) == Targets(others, db, c);
    CommitIsExact(sts, db, c);
    CommitIsExact(others, db, c);
  }

  // ---- orders that always commit ----

  /** No statement reads, in a sub-select, a table an earlier statement deletes from. */
  ghost predicate ChildrenFirst(sts: seq<Statement>) {
    forall i, j :: 0 <= i < j < |sts| ==> sts[i].table !in Reads(sts[j].where)
  }

  ghost predicate SameIn(tables: set<Table>, a: Db, b: Db) {
    forall r: Row :: r.table in tables ==> (r in a <==> r in b)
  }

  lemma {:induction false} HoldsReadsOnly(w: Where, r: Row, a: Db, b: Db, c: Candidates)
    requires SameIn(Reads(w), a, b)
    ensures Holds(w, r, a, c) <==> Holds(w, r, b, c)
  {
    match w
    case Like(_, _) =>
    case InCandidates(_, _) =>
    case InTable(column, table, sub) =>
      forall s | s in a || s in b
        ensures Holds(sub, s, a, c) <==> Holds(sub, s, b, c)
      {
        HoldsReadsOnly(sub, s, a, b, c);
      }
    case AnyOf(conditions) =>
      forall w' | w' in conditions
        ensures Holds(w', r, a, c) <==> Holds(w', r, b, c)
      {
        assert Reads(w') <= Reads(w);
        HoldsReadsOnly(w', r, a, b, c);
      }
  }

  lemma {:induction false} ChildrenFirstDeletesAll(sts: seq<Statement>, db: Db, original: Db, c: Candidates)
    requires ChildrenFirst(sts) && db <= original
    requires forall i :: 0 <= i < |sts| ==> SameIn(Reads(sts[i].where), db, original)
    ensures RunAll(sts, db, c) !! Targets(sts, original, c)
  {
    if sts != [] {
      var rest := db - Matched(sts[0], db, c);
      forall i | 0 <= i < |sts| - 1
        ensures SameIn(Reads(sts[1..][i].where), rest, original)
      {
        assert sts[1..][i] == sts[i + 1] && sts[0].table !in Reads(sts[i + 1].where);
        assert SameIn(Reads(sts[i + 1].where), db, original);
      }
      ChildrenFirstDeletesAll(sts[1..], rest, original, c);
      OnlyTargetsDeleted(sts[1..], rest, rest, c);
      forall r | r in RunAll(sts, db, c)
        ensures r !in Targets(sts, original, c)
      {
        HoldsReadsOnly(sts[0].where, r, db, original, c);
        assert r in rest && !Matches(sts[0], r, original, c);
        assert r !in Targets(sts[1..], original, c);
      }
    }
  }

  /** Deleting children before the parents they are found through never trips the residual check. */
  lemma ChildrenFirstCommits(sts: seq<Statement>, db: Db, c: Candidates)
    requires ChildrenFirst(sts)
    ensures RunAll(sts, db, c) == db - Targets(sts, db, c)
  {
    ChildrenFirstDeletesAll(sts, db, db, c);
    CommitIsExact(sts, db, c);
  }

  /** The other way round it can: the child of a deleted parent is not found any more and stays. */
  lemma ParentsFirstLeavesResidue()
    ensures exists sts: seq<Statement>, db: Db, c: Candidates :: !(RunAll(sts, db, c) !! Targets(sts, db, c))
  {
    var seeded := InCandidates("id", SeedUsers);
    var parents := Statement(Inquiries, seeded);
    var children := Statement(InquiryReplies, InTable("inquiry_id", Inquiries, seeded));
    var parent := Row(Inquiries, map["id" := Text("i")]);
    var child := Row(InquiryReplies, map["id" := Text("r"), "inquiry_id" := Text("i")]);
    var c: Candidates := map[SeedUsers := {"i"}];
    var db, sts := {parent, child}, [parents, children];
    assert Holds(seeded, parent, db, c) && Matches(children, child, db, c);
    assert child in Targets(sts, db, c);
    var left := db - Matched(parents, db, c);
    assert left == {child};
    assert !Matches(children, child, left, c);
    assert sts[1..] == [children] && sts[1..][1..] == [];
    assert RunAll(sts, db, c) == RunAll([children], left, c) == RunAll([], left - Matched(children, left, c), c);
    assert child in RunAll(sts, db, c);
  }
}

/** `computeOfficialTopScorer` of seed-alpha-tournament-qa.ts: who scored most in a tournament's public official
    results. A table is a list in whatever order the database returns it; participants are numbered in the order of
    their ids. */
module TopScorer {
  import opened Prelude
  import opened Sorting

  datatype Mode = Live | StatusOnly | Hidden | OfficialOnly
  datatype Consent = Granted | Revoked

  datatype Game = Game(pointer: Option<nat>, mode: Option<Mode>)
  datatype Row = Row(revision: nat, participant: nat, side: nat, goals: int, officialAt: Option<int>)
  datatype Link = Link(participant: nat, link: nat, user: nat)
  datatype UserConsent = UserConsent(user: nat, state: Consent)
  datatype Snapshot = Snapshot(link: nat, version: int, state: Consent)

  datatype Tables = Tables(games: seq<Game>, rows: seq<Row>, links: seq<Link>, consents: seq<UserConsent>,
                           snapshots: seq<Snapshot>)

  datatype Entry = Entry(user: nat, goals: int)
  datatype Top = Top(user: nat, goals: int, side: nat)

  // ---- which rows score ----

  /** Only an allowed mode makes a game public; no policy, or any other mode, hides it. */
  predicate Public(game: Game) {
    game.pointer.Some? && (game.mode == Some(OfficialOnly) || game.mode == Some(Live))
  }

  function VisibleRevisions(games: seq<Game>): set<nat> {
    set game | game in games && Public(game) :: game.pointer.value
  }

  function Scoring(visible: set<nat>): Row -> bool {
    (row: Row) => row.revision in visible && row.goals > 0 && row.officialAt.Some?
  }

  function At(row: Row): int { if row.officialAt.Some? then row.officialAt.value else 0 }

  predicate RowLeq(a: Row, b: Row) { At(a) < At(b) || (At(a) == At(b) && a.participant <= b.participant) }

  function ScoringRows(t: Tables): seq<Row> {
    Sort(Filter(t.rows, Scoring(VisibleRevisions(t.games))), RowLeq)
  }

  // ---- whom a row is credited to ----

  function LinkMap(links: seq<Link>): map<nat, Link> {
    if links == [] then map[] else LinkMap(links[..|links| - 1])[links[|links| - 1].participant := links[|links| - 1]]
  }

  function ConsentMap(consents: seq<UserConsent>): map<nat, Consent> {
    if consents == [] then map[] else
      ConsentMap(consents[..|consents| - 1])[consents[|consents| - 1].user := consents[|consents| - 1].state]
  }

  predicate NewestFirst(a: Snapshot, b: Snapshot) { a.version >= b.version }

  /** The first snapshot of a link stays. */
  function LatestMap(snapshots: seq<Snapshot>): map<nat, Consent> {
    if snapshots == [] then map[] else
      var earlier, last := LatestMap(snapshots[..|snapshots| - 1]), snapshots[|snapshots| - 1];
      if last.link in earlier then earlier else earlier[last.link := last.state]
  }

  function CreditedBy(links: map<nat, Link>, consents: map<nat, Consent>, latest: map<nat, Consent>, row: Row)
    : Option<nat>
  {
    if row.participant !in links then None else
      var link := links[row.participant];
      if link.user !in consents || consents[link.user] != Granted then None
      else if link.link in latest && latest[link.link] == Revoked then None
      else Some(link.user)
  }

  /** The user a row's goals go to: linked, consenting, and not revoked by the link's newest snapshot. */
  function Credited(t: Tables): Row -> Option<nat> {
    (row: Row) => CreditedBy(LinkMap(t.links), ConsentMap(t.consents), LatestMap(Sort(t.snapshots, NewestFirst)), row)
  }

  function Eligible(t: Tables): Row -> Option<nat> {
    (row: Row) => if Scoring(VisibleRevisions(t.games))(row) then Credited(t)(row) else None
  }

  // ---- the tally ----

  /** A JavaScript map keeps its keys in the order they were first set: `order`. */
  datatype Board = Board(order: seq<nat>, totals: map<nat, int>, lastSide: map<nat, nat>)

  predicate Consistent(b: Board) {
    && (forall i :: 0 <= i < |b.order| ==> b.order[i] in b.totals && b.order[i] in b.lastSide)
    && (forall u :: u in b.totals ==> u in b.order)
  }

  function Credit(b: Board, user: nat, row: Row): Board {
    Board(if user in b.totals then b.order else b.order + [user],
          b.totals[user := (if user in b.totals then b.totals[user] else 0) + row.goals],
          b.lastSide[user := row.side])
  }

  function Tally(rows: seq<Row>, scorer: Row -> Option<nat>): (b: Board)
    ensures Consistent(b)
  {
    if rows == [] then Board([], map[], map[]) else
      var b, last := Tally(rows[..|rows| - 1], scorer), rows[|rows| - 1];
      match scorer(last)
      case None => b
      case Some(user) => Credit(b, user, last)
  }

  predicate MoreGoals(a: Entry, b: Entry) { a.goals >= b.goals }

  function Entries(b: Board): seq<Entry>
    requires Consistent(b)
  {
    seq(|b.order|, (i: nat) requires i < |b.order| => Entry(b.order[i], b.totals[b.order[i]]))
  }

  function Best(b: Board): Option<Top>
    requires Consistent(b)
  {
    if b.order == [] then None else
      var top := Sort(Entries(b), MoreGoals)[0];
      assert top in Entries(b);
      Some(Top(top.user, top.goals, b.lastSide[top.user]))
  }

  function Compute(t: Tables): Option<Top> {
    Best(Tally(ScoringRows(t), Credited(t)))
  }

  function FetchedLinks(t: Tables, rows: seq<Row>): seq<Link> {
    Filter(t.links, (link: Link) => exists row :: row in rows && row.participant == link.participant)
  }

  function FetchedConsents(t: Tables, links: seq<Link>): seq<UserConsent> {
    if links == [] then [] else
      Filter(t.consents, (consent: UserConsent) => exists link :: link in links && link.user == consent.user)
  }

  function FetchedSnapshots(t: Tables, links: seq<Link>): seq<Snapshot> {
    if links == [] then [] else
      Sort(Filter(t.snapshots, (snapshot: Snapshot) => exists link :: link in links && link.link == snapshot.link),
           NewestFirst)
  }

  method ComputeOfficialTopScorer(t: Tables) returns (top: Option<Top>)
    ensures top == Compute(t)
  {
    hide Sort, Filter, LinkMap, ConsentMap, Entries, Best, FetchedLinks, FetchedConsents, FetchedSnapshots, Scoring,
      Credited, Consistent;
    var revisionIds := VisibleRevisions(t.games);
    if revisionIds == {} {
      NothingVisible(t);
      return None;
    }
    var scoringRows := Sort(Filter(t.rows, Scoring(revisionIds)), RowLeq);
    if scoringRows == [] {
      NothingScored(t);
      return None;
    }
    var links := FetchedLinks(t, scoringRows);
    var linkByParticipant := LinkMap(links);
    var consentByUser := ConsentMap(FetchedConsents(t, links));
    var snapshots := FetchedSnapshots(t, links);
    var latestSnapshotByLink: map<nat, Consent> := map[];
    for i := 0 to |snapshots|
      invariant latestSnapshotByLink == LatestMap(snapshots[..i])
    {
      assert snapshots[..i + 1][..i] == snapshots[..i];
      if snapshots[i].link !in latestSnapshotByLink {
        latestSnapshotByLink := latestSnapshotByLink[snapshots[i].link := snapshots[i].state];
      }
    }
    assert snapshots[..|snapshots|] == snapshots;
    var order: seq<nat>, totals: map<nat, int>, lastSide: map<nat, nat> := [], map[], map[];
    for i := 0 to |scoringRows|
      invariant Board(order, totals, lastSide) == Tally(scoringRows[..i], Credited(t))
    {
      assert scoringRows[..i + 1][..i] == scoringRows[..i];
      var row := scoringRows[i];
      FetchedSuffices(t, scoringRows, row);
      if row.participant !in linkByParticipant { continue; }
      var link := linkByParticipant[row.participant];
      if link.user !in consentByUser || consentByUser[link.user] != Granted { continue; }
      if link.link in latestSnapshotByLink && latestSnapshotByLink[link.link] == Revoked { continue; }
      order := if link.user in totals then order else order + [link.user];
      totals := totals[link.user := (if link.user in totals then totals[link.user] else 0) + row.goals];
      lastSide := lastSide[link.user := row.side];
    }
    assert scoringRows[..|scoringRows|] == scoringRows;
    return Best(Board(order, totals, lastSide));
  }

  lemma NothingScored(t: Tables)
    requires ScoringRows(t) == []
    ensures Compute(t) == None
  {
  }

  lemma NothingVisible(t: Tables)
    requires VisibleRevisions(t.games) == {}
    ensures Compute(t) == None
  {
    FilterAll(t.rows, Scoring({}));
    NothingScored(t);
  }

  // ---- the queries fetch enough ----

  function OfParticipant(p: nat): Link -> bool { (link: Link) => link.participant == p }

  function OfUser(u: nat): UserConsent -> bool { (consent: UserConsent) => consent.user == u }

  function OfLink(l: nat): Snapshot -> bool { (snapshot: Snapshot) => snapshot.link == l }

  lemma {:induction false} LinkIsLast(links: seq<Link>, p: nat)
    ensures var of := Filter(links, OfParticipant(p));
      && (p in LinkMap(links) <==> of != []) && (of != [] ==> LinkMap(links)[p] == of[|of| - 1])
  {
    if links != [] {
      LinkIsLast(links[..|links| - 1], p);
      FilterSnoc(links, OfParticipant(p));
    }
  }

  lemma {:induction false} ConsentIsLast(consents: seq<UserConsent>, u: nat)
    ensures var of := Filter(consents, OfUser(u));
      && (u in ConsentMap(consents) <==> of != []) && (of != [] ==> ConsentMap(consents)[u] == of[|of| - 1].state)
  {
    if consents != [] {
      ConsentIsLast(consents[..|consents| - 1], u);
      FilterSnoc(consents, OfUser(u));
    }
  }

  lemma {:induction false} LatestIsFirst(snapshots: seq<Snapshot>, l: nat)
    ensures var of := Filter(snapshots, OfLink(l));
      && (l in LatestMap(snapshots) <==> of != []) && (of != [] ==> LatestMap(snapshots)[l] == of[0].state)
  {
    if snapshots != [] {
      LatestIsFirst(snapshots[..|snapshots| - 1], l);
      FilterSnoc(snapshots, OfLink(l));
    }
  }

  /** The rows fetched by the narrowed queries credit every scoring row as the whole tables would. */
  lemma FetchedSuffices(t: Tables, rows: seq<Row>, row: Row)
    requires row in rows
    ensures var links := FetchedLinks(t, rows);
      CreditedBy(LinkMap(links), ConsentMap(FetchedConsents(t, links)), LatestMap(FetchedSnapshots(t, links)), row)
        == Credited(t)(row)
  {
    var links := FetchedLinks(t, rows);
    var p := row.participant;
    FilterTwice(t.links, (link: Link) => exists row :: row in rows && row.participant == link.participant,
                OfParticipant(p));
    LinkIsLast(links, p);
    LinkIsLast(t.links, p);
    if p in LinkMap(links) {
      var link := LinkMap(links)[p];
      FilterMembers(links, OfParticipant(p));
      assert link in links;
      ConsentFetched(t, links, link);
      SnapshotFetched(t, links, link);
    }
  }

  lemma ConsentFetched(t: Tables, links: seq<Link>, link: Link)
    requires link in links
    ensures var fetched, all := ConsentMap(FetchedConsents(t, links)), ConsentMap(t.consents);
      && (link.user in fetched <==> link.user in all) && (link.user in all ==> fetched[link.user] == all[link.user])
  {
    FilterTwice(t.consents, (consent: UserConsent) => exists link :: link in links && link.user == consent.user,
                OfUser(link.user));
    ConsentIsLast(FetchedConsents(t, links), link.user);
    ConsentIsLast(t.consents, link.user);
  }

  lemma NewestFirstIsPreorder()
    ensures TotalPreorder(NewestFirst)
  {
  }

  lemma SnapshotFetched(t: Tables, links: seq<Link>, link: Link)
    requires link in links
    ensures var fetched, all := LatestMap(FetchedSnapshots(t, links)), LatestMap(Sort(t.snapshots, NewestFirst));
      && (link.link in fetched <==> link.link in all) && (link.link in all ==> fetched[link.link] == all[link.link])
  {
    var wanted := (snapshot: Snapshot) => exists link :: link in links && link.link == snapshot.link;
    NewestFirstIsPreorder();
    FilterTwice(t.snapshots, wanted, OfLink(link.link));
    SortFilter(Filter(t.snapshots, wanted), NewestFirst, OfLink(link.link));
    SortFilter(t.snapshots, NewestFirst, OfLink(link.link));
    LatestIsFirst(FetchedSnapshots(t, links), link.link);
    LatestIsFirst(Sort(t.snapshots, NewestFirst), link.link);
  }

  // ---- what the tally holds ----

  /** The goals of the rows credited to a user. */
  function Goals(rows: seq<Row>, user: nat, scorer: Row -> Option<nat>): int {
    if rows == [] then 0
    else (if scorer(rows[0]) == Some(user) then rows[0].goals else 0) + Goals(rows[1..], user, scorer)
  }

  ghost predicate CreditedAt(rows: seq<Row>, user: nat, scorer: Row -> Option<nat>, k: int) {
    0 <= k < |rows| && scorer(rows[k]) == Some(user)
  }

  ghost predicate FirstAt(rows: seq<Row>, user: nat, scorer: Row -> Option<nat>, k: int) {
    CreditedAt(rows, user, scorer, k) && forall j :: j < k ==> !CreditedAt(rows, user, scorer, j)
  }

  ghost predicate LastAt(rows: seq<Row>, user: nat, scorer: Row -> Option<nat>, k: int) {
    CreditedAt(rows, user, scorer, k) && forall j :: j > k ==> !CreditedAt(rows, user, scorer, j)
  }

  lemma {:induction false} GoalsConcat(a: seq<Row>, b: seq<Row>, user: nat, scorer: Row -> Option<nat>)
    ensures Goals(a + b, user, scorer) == Goals(a, user, scorer) + Goals(b, user, scorer)
  {
    if a == [] {
      assert a + b == b;
    } else {
      GoalsConcat(a[1..], b, user, scorer);
      assert (a + b)[1..] == a[1..] + b;
    }
  }

  lemma {:induction false} TallyTotals(rows: seq<Row>, user: nat, scorer: Row -> Option<nat>)
    ensures var b := Tally(rows, scorer);
      && (user in b.totals <==> exists k :: CreditedAt(rows, user, scorer, k))
      && Goals(rows, user, scorer) == if user in b.totals then b.totals[user] else 0
  {
    if rows != [] {
      var before, last := rows[..|rows| - 1], rows[|rows| - 1];
      TallyTotals(before, user, scorer);
      assert rows == before + [last];
      GoalsConcat(before, [last], user, scorer);
      assert forall k :: k != |rows| - 1 ==>
        (CreditedAt(rows, user, scorer, k) <==> CreditedAt(before, user, scorer, k));
      assert CreditedAt(rows, user, scorer, |rows| - 1) <==> scorer(last) == Some(user);
    }
  }

  lemma LastStays(before: seq<Row>, last: Row, user: nat, scorer: Row -> Option<nat>, k: int)
    requires LastAt(before, user, scorer, k) && scorer(last) != Some(user)
    ensures LastAt(before + [last], user, scorer, k)
  {
    assert forall j :: CreditedAt(before + [last], user, scorer, j) ==> CreditedAt(before, user, scorer, j);
  }

  lemma {:induction false} TallyLastSide(rows: seq<Row>, user: nat, scorer: Row -> Option<nat>)
    ensures var b := Tally(rows, scorer);
      user in b.totals ==>
        && user in b.lastSide
        && exists k :: LastAt(rows, user, scorer, k) && rows[k].side == b.lastSide[user]
  {
    if rows != [] && user in Tally(rows, scorer).totals {
      var before, last := rows[..|rows| - 1], rows[|rows| - 1];
      if scorer(last) == Some(user) {
        assert LastAt(rows, user, scorer, |rows| - 1);
      } else {
        TallyLastSide(before, user, scorer);
        var k :| LastAt(before, user, scorer, k) && before[k].side == Tally(before, scorer).lastSide[user];
        LastStays(before, last, user, scorer, k);
        assert rows == before + [last];
      }
    }
  }

  /** Users stand in the order of their first credited rows. */
  ghost predicate InOrderOfFirst(order: seq<nat>, rows: seq<Row>, scorer: Row -> Option<nat>) {
    forall i, j, k, l :: 0 <= i < j < |order| ==>
      FirstAt(rows, order[i], scorer, k) && FirstAt(rows, order[j], scorer, l) ==> k < l
  }

  lemma {:induction false} TallyOrder(rows: seq<Row>, scorer: Row -> Option<nat>)
    ensures InOrderOfFirst(Tally(rows, scorer).order, rows, scorer)
  {
    if rows != [] {
      var before, last := rows[..|rows| - 1], rows[|rows| - 1];
      TallyOrder(before, scorer);
      var earlier, order := Tally(before, scorer).order, Tally(rows, scorer).order;
      forall i, j, k, l |
        0 <= i < j < |order| && FirstAt(rows, order[i], scorer, k) && FirstAt(rows, order[j], scorer, l)
        ensures k < l
      {
        FirstStays(rows, order[i], scorer, k);
        if j < |earlier| {
          FirstStays(rows, order[j], scorer, l);
        } else {
          TallyTotals(before, order[j], scorer);
          assert !CreditedAt(before, order[j], scorer, l);
        }
      }
    }
  }

  lemma FirstStays(rows: seq<Row>, user: nat, scorer: Row -> Option<nat>, k: int)
    requires rows != [] && FirstAt(rows, user, scorer, k) && user in Tally(rows[..|rows| - 1], scorer).totals
    ensures FirstAt(rows[..|rows| - 1], user, scorer, k)
  {
    var before := rows[..|rows| - 1];
    TallyTotals(before, user, scorer);
    var q :| CreditedAt(before, user, scorer, q);
    assert CreditedAt(rows, user, scorer, q);
    assert forall j :: CreditedAt(before, user, scorer, j) ==> CreditedAt(rows, user, scorer, j);
  }

  // ---- the answer ----

  lemma {:induction false} GoalsInsert(row: Row, rows: seq<Row>, leq: (Row, Row) -> bool, user: nat,
                                       scorer: Row -> Option<nat>)
    ensures Goals(Insert(row, rows, leq), user, scorer) == Goals([row] + rows, user, scorer)
  {
    assert ([row] + rows)[1..] == rows;
    if rows != [] && !leq(row, rows[0]) {
      GoalsInsert(row, rows[1..], leq, user, scorer);
      assert ([row] + rows[1..])[1..] == rows[1..];
      assert Insert(row, rows, leq)[1..] == Insert(row, rows[1..], leq);
    }
  }

  lemma {:induction false} GoalsSort(rows: seq<Row>, leq: (Row, Row) -> bool, user: nat, scorer: Row -> Option<nat>)
    ensures Goals(Sort(rows, leq), user, scorer) == Goals(rows, user, scorer)
  {
    if rows != [] {
      GoalsSort(rows[1..], leq, user, scorer);
      GoalsInsert(rows[0], Sort(rows[1..], leq), leq, user, scorer);
      assert ([rows[0]] + Sort(rows[1..], leq))[1..] == Sort(rows[1..], leq);
    }
  }

  lemma {:induction false} GoalsOfScoring(t: Tables, rows: seq<Row>, user: nat)
    ensures Goals(Filter(rows, Scoring(VisibleRevisions(t.games))), user, Credited(t)) == Goals(rows, user, Eligible(t))
  {
    if rows != [] {
      GoalsOfScoring(t, rows[1..], user);
      var rest := Filter(rows[1..], Scoring(VisibleRevisions(t.games)));
      assert ([rows[0]] + rest)[1..] == rest;
    }
  }

  lemma ScoringMembers(t: Tables)
    ensures forall row :: row in ScoringRows(t) <==> row in t.rows && Scoring(VisibleRevisions(t.games))(row)
  {
    var kept := Filter(t.rows, Scoring(VisibleRevisions(t.games)));
    FilterMembers(t.rows, Scoring(VisibleRevisions(t.games)));
    forall row
      ensures row in ScoringRows(t) <==> row in kept
    {
      assert row in ScoringRows(t) <==> row in multiset(kept);
    }
  }

  /** Goals are taken in the order their results became official, ties by participant, each exactly as often as the
      table holds it. */
  lemma ScoringRowsInOrder(t: Tables)
    ensures var rows := ScoringRows(t);
      && (forall row :: multiset(rows)[row] ==
            if row.revision in VisibleRevisions(t.games) && row.goals > 0 && row.officialAt.Some?
            then multiset(t.rows)[row] else 0)
      && (forall i, j :: 0 <= i < j < |rows| ==>
            && rows[i].officialAt.Some? && rows[j].officialAt.Some?
            && (|| rows[i].officialAt.value < rows[j].officialAt.value
                || (rows[i].officialAt == rows[j].officialAt && rows[i].participant <= rows[j].participant)))
  {
    var scoring := Scoring(VisibleRevisions(t.games));
    FilterCount(t.rows, scoring);
    ScoringMembers(t);
    SortSorted(Filter(t.rows, scoring), RowLeq);
  }

  /** The total kept for a user is the sum over the table, in whatever order it was read. */
  lemma TotalIsGoals(t: Tables, user: nat)
    ensures var b := Tally(ScoringRows(t), Credited(t));
      && (user in b.totals <==> exists row :: row in t.rows && Eligible(t)(row) == Some(user))
      && Goals(t.rows, user, Eligible(t)) == if user in b.totals then b.totals[user] else 0
  {
    var rows := ScoringRows(t);
    TallyTotals(rows, user, Credited(t));
    GoalsSort(Filter(t.rows, Scoring(VisibleRevisions(t.games))), RowLeq, user, Credited(t));
    GoalsOfScoring(t, t.rows, user);
    ScoringMembers(t);
    assert forall row :: row in t.rows && Eligible(t)(row) == Some(user) <==>
      row in rows && Credited(t)(row) == Some(user);
    assert forall k :: CreditedAt(rows, user, Credited(t), k) ==> rows[k] in rows;
    if row :| row in rows && Credited(t)(row) == Some(user) {
      var k :| 0 <= k < |rows| && rows[k] == row;
      assert CreditedAt(rows, user, Credited(t), k);
    }
  }

  /** No top scorer exactly when no row is eligible. */
  lemma NoneIffNoEligibleGoal(t: Tables)
    ensures Compute(t) == None <==> forall row :: row in t.rows ==> Eligible(t)(row) == None
  {
    var b := Tally(ScoringRows(t), Credited(t));
    if b.order == [] {
      forall row | row in t.rows
        ensures Eligible(t)(row) == None
      {
        if Eligible(t)(row).Some? { TotalIsGoals(t, Eligible(t)(row).value); }
      }
    } else {
      TotalIsGoals(t, b.order[0]);
    }
  }

  lemma MoreGoalsIsPreorder()
    ensures TotalPreorder(MoreGoals)
  {
  }

  /** The winner's entry is the first of the greatest, and totals are what the table adds up to. */
  lemma WinnersEntry(t: Tables) returns (first: nat)
    requires Compute(t).Some?
    ensures var top, b := Compute(t).value, Tally(ScoringRows(t), Credited(t));
      && FirstLeast(Entries(b), MoreGoals, first) && b.order[first] == top.user
      && top.goals == b.totals[top.user] && top.side == b.lastSide[top.user]
  {
    hide Credited, ScoringRows, Tally, Sort, TotalPreorder;
    var b := Tally(ScoringRows(t), Credited(t));
    MoreGoalsIsPreorder();
    HeadIsFirstLeast(Entries(b), MoreGoals);
    first :| FirstLeast(Entries(b), MoreGoals, first) && Sort(Entries(b), MoreGoals)[0] == Entries(b)[first];
  }

  lemma NobodyScoredMore(t: Tables, user: nat)
    requires Compute(t).Some?
    ensures Goals(t.rows, user, Eligible(t)) <= Compute(t).value.goals
  {
    hide Compute, Credited, Eligible, ScoringRows, Tally, Goals;
    var b := Tally(ScoringRows(t), Credited(t));
    var first := WinnersEntry(t);
    TotalIsGoals(t, user);
    TotalIsGoals(t, b.order[first]);
    PositiveTotal(t, b.order[first]);
    if user in b.totals {
      var j :| 0 <= j < |b.order| && b.order[j] == user;
      assert MoreGoals(Entries(b)[first], Entries(b)[j]);
    }
  }

  lemma TieGoesToEarlier(t: Tables, user: nat, k: nat, l: nat)
    requires Compute(t).Some? && user != Compute(t).value.user
      && Goals(t.rows, user, Eligible(t)) == Compute(t).value.goals
    requires FirstAt(ScoringRows(t), Compute(t).value.user, Credited(t), k)
      && FirstAt(ScoringRows(t), user, Credited(t), l)
    ensures k < l
  {
    hide Compute, Credited, Eligible, ScoringRows, Tally, Goals, FirstAt;
    var b := Tally(ScoringRows(t), Credited(t));
    var first := WinnersEntry(t);
    TotalIsGoals(t, user);
    TotalIsGoals(t, b.order[first]);
    PositiveTotal(t, b.order[first]);
    var j :| 0 <= j < |b.order| && b.order[j] == user;
    assert MoreGoals(Entries(b)[j], Entries(b)[first]);
    TallyOrder(ScoringRows(t), Credited(t));
  }

  /** The winner's total is the sum of the winner's eligible goals, which is positive and which nobody exceeds; of those
      who reach it, the winner's first eligible goal comes first; the side is that of the winner's last. */
  lemma WinnerScoredMost(t: Tables)
    requires Compute(t).Some?
    ensures var top, rows := Compute(t).value, ScoringRows(t);
      && top.goals == Goals(t.rows, top.user, Eligible(t)) && top.goals > 0
      && (forall user: nat :: Goals(t.rows, user, Eligible(t)) <= top.goals)
      && (forall user: nat, k: nat, l: nat :: user != top.user && Goals(t.rows, user, Eligible(t)) == top.goals ==>
            FirstAt(rows, top.user, Credited(t), k) && FirstAt(rows, user, Credited(t), l) ==> k < l)
      && (exists k :: LastAt(rows, top.user, Credited(t), k) && rows[k].side == top.side)
  {
    hide Compute, Credited, Eligible, ScoringRows, Tally, Goals, FirstAt, LastAt;
    var top, rows := Compute(t).value, ScoringRows(t);
    var first := WinnersEntry(t);
    TotalIsGoals(t, top.user);
    PositiveTotal(t, top.user);
    TallyLastSide(rows, top.user, Credited(t));
    forall user: nat
      ensures Goals(t.rows, user, Eligible(t)) <= top.goals
    {
      NobodyScoredMore(t, user);
    }
    forall user: nat, k: nat, l: nat | user != top.user && Goals(t.rows, user, Eligible(t)) == top.goals
        && FirstAt(rows, top.user, Credited(t), k) && FirstAt(rows, user, Credited(t), l)
      ensures k < l
    {
      TieGoesToEarlier(t, user, k, l);
    }
  }

  lemma PositiveTotal(t: Tables, user: nat)
    requires user in Tally(ScoringRows(t), Credited(t)).totals
    ensures Goals(t.rows, user, Eligible(t)) > 0
  {
    TotalIsGoals(t, user);
    var row :| row in t.rows && Eligible(t)(row) == Some(user);
    EligibleGoalsArePositive(t, t.rows, user, row);
  }

  lemma {:induction false} EligibleGoalsArePositive(t: Tables, rows: seq<Row>, user: nat, row: Row)
    requires row in rows ==> Eligible(t)(row) == Some(user)
    ensures Goals(rows, user, Eligible(t)) >= if row in rows then 1 else 0
  {
    if rows != [] {
      EligibleGoalsArePositive(t, rows[1..], user, row);
      if Eligible(t)(rows[0]).Some? {
        assert Scoring(VisibleRevisions(t.games))(rows[0]);
      }
    }
  }

  ghost predicate Newest(snapshots: seq<Snapshot>, l: nat, s: Snapshot) {
    && s in snapshots && s.link == l
    && forall other :: other in snapshots && other.link == l ==> other.version <= s.version
  }

  /** The snapshot that decides is one of the link's with the greatest version. */
  lemma DecidingSnapshotIsNewest(t: Tables, l: nat)
    ensures var latest := LatestMap(Sort(t.snapshots, NewestFirst));
      && (l in latest <==> exists s :: s in t.snapshots && s.link == l)
      && (l in latest ==> exists s :: Newest(t.snapshots, l, s) && s.state == latest[l])
  {
    hide LatestMap, Sort, Filter, TotalPreorder;
    var of := Filter(t.snapshots, OfLink(l));
    var sorted := Sort(of, NewestFirst);
    NewestFirstIsPreorder();
    SortFilter(t.snapshots, NewestFirst, OfLink(l));
    LatestIsFirst(Sort(t.snapshots, NewestFirst), l);
    FilterMembers(t.snapshots, OfLink(l));
    SortSorted(of, NewestFirst);
    SameMembers(of, sorted);
    if of != [] {
      assert sorted[0] in of;
      forall other | other in of
        ensures other.version <= sorted[0].version
      {
        HeadIsLeast(sorted, other, NewestFirst);
      }
      assert Newest(t.snapshots, l, sorted[0]);
    }
  }

  // ---- which goals are eligible ----

  lemma LinkIsTheOne(t: Tables, link: Link)
    requires link in t.links && forall l :: l in t.links && l.participant == link.participant ==> l == link
    ensures link.participant in LinkMap(t.links) && LinkMap(t.links)[link.participant] == link
  {
    var of := Filter(t.links, OfParticipant(link.participant));
    LinkIsLast(t.links, link.participant);
    FilterMembers(t.links, OfParticipant(link.participant));
    assert link in of;
    assert of[|of| - 1] in of;
  }

  lemma ConsentIsTheOne(t: Tables, user: nat, state: Consent)
    requires forall a, b :: a in t.consents && b in t.consents && a.user == b.user ==> a == b
    ensures user in ConsentMap(t.consents) && ConsentMap(t.consents)[user] == state
      <==> UserConsent(user, state) in t.consents
  {
    var of := Filter(t.consents, OfUser(user));
    ConsentIsLast(t.consents, user);
    FilterMembers(t.consents, OfUser(user));
    if UserConsent(user, state) in t.consents {
      assert UserConsent(user, state) in of && of[|of| - 1] in of;
    }
    if of != [] {
      assert of[|of| - 1] in of;
      assert of[|of| - 1] == UserConsent(user, of[|of| - 1].state);
    }
  }

  /** The newest snapshot of the link, if it has any, is a revocation. */
  ghost predicate IsRevoked(snapshots: seq<Snapshot>, l: nat) {
    exists s :: s in snapshots && s.link == l && s.state == Revoked
      && forall other :: other in snapshots && other.link == l ==> other.version <= s.version
  }

  lemma RevokedIff(t: Tables, l: nat)
    requires forall a, b :: a in t.snapshots && b in t.snapshots && a.link == b.link && a.version == b.version ==>
      a == b
    ensures var latest := LatestMap(Sort(t.snapshots, NewestFirst));
      l in latest && latest[l] == Revoked <==> IsRevoked(t.snapshots, l)
  {
    hide LatestMap, Sort;
    DecidingSnapshotIsNewest(t, l);
    var latest := LatestMap(Sort(t.snapshots, NewestFirst));
    if l in latest {
      var s :| Newest(t.snapshots, l, s) && s.state == latest[l];
    }
  }

  /** A row counts for a user exactly when it has goals of an official revision that is the current one of a game shown
      live or officially, its participant is linked to the user, the user consents, and the newest snapshot of the link,
      if there is one, does not revoke that. */
  lemma EligibleIff(t: Tables, row: Row, user: nat)
    requires KeysAreUnique(t)
    ensures Eligible(t)(row) == Some(user) <==>
      && row.goals > 0 && row.officialAt.Some?
      && (exists game :: game in t.games && game.pointer == Some(row.revision)
            && (game.mode == Some(Live) || game.mode == Some(OfficialOnly)))
      && UserConsent(user, Granted) in t.consents
      && exists l: nat :: Link(row.participant, l, user) in t.links && !IsRevoked(t.snapshots, l)
  {
    hide ConsentMap, LinkMap, LatestMap, IsRevoked, Sort, ScoringRowsDiffer;
    assert row.revision in VisibleRevisions(t.games) <==>
      exists game :: game in t.games && game.pointer == Some(row.revision)
        && (game.mode == Some(Live) || game.mode == Some(OfficialOnly));
    LinkIsLast(t.links, row.participant);
    FilterMembers(t.links, OfParticipant(row.participant));
    var of := Filter(t.links, OfParticipant(row.participant));
    if of != [] {
      assert of[|of| - 1] in of;
      var link := of[|of| - 1];
      LinkIsTheOne(t, link);
      ConsentIsTheOne(t, link.user, Granted);
      RevokedIff(t, link.link);
      assert link == Link(row.participant, link.link, link.user);
      assert forall l: nat, u: nat :: Link(row.participant, l, u) in t.links ==> Link(row.participant, l, u) == link;
      assert Credited(t)(row) ==
        if UserConsent(link.user, Granted) in t.consents && !IsRevoked(t.snapshots, link.link) then Some(link.user)
        else None;
    } else {
      assert Credited(t)(row) == None;
    }
    assert Eligible(t)(row) == if Scoring(VisibleRevisions(t.games))(row) then Credited(t)(row) else None;
  }

  // ---- the order rows are read in ----

  /** No participant scores twice at one moment. Only rows that score matter: other revisions may repeat them. */
  ghost predicate ScoringRowsDiffer(t: Tables) {
    forall a, b :: a in ScoringRows(t) && b in ScoringRows(t) ==>
      a.participant == b.participant && a.officialAt == b.officialAt ==> a == b
  }

  /** A revision has one row per participant, and a participant belongs to one game, which shows one revision. */
  ghost predicate RowsAreKeyed(t: Tables) {
    && (forall a, b :: a in t.rows && b in t.rows ==>
          a.revision == b.revision && a.participant == b.participant ==> a == b)
    && (forall a, b :: a in t.rows && b in t.rows && a.participant == b.participant ==>
          a.revision in VisibleRevisions(t.games) && b.revision in VisibleRevisions(t.games) ==>
            a.revision == b.revision)
  }

  lemma StoredKeysSuffice(t: Tables)
    requires RowsAreKeyed(t)
    ensures ScoringRowsDiffer(t)
  {
    ScoringMembers(t);
  }

  ghost predicate KeysAreUnique(t: Tables) {
    && ScoringRowsDiffer(t)
    && (forall a, b :: a in t.links && b in t.links && a.participant == b.participant ==> a == b)
    && (forall a, b :: a in t.consents && b in t.consents && a.user == b.user ==> a == b)
    && (forall a, b :: a in t.snapshots && b in t.snapshots && a.link == b.link && a.version == b.version ==> a == b)
  }

  ghost predicate SameTables(t: Tables, u: Tables) {
    && multiset(t.games) == multiset(u.games) && multiset(t.rows) == multiset(u.rows)
    && multiset(t.links) == multiset(u.links)
    && multiset(t.consents) == multiset(u.consents) && multiset(t.snapshots) == multiset(u.snapshots)
  }

  lemma SameScoringRows(t: Tables, u: Tables)
    requires SameTables(t, u) && KeysAreUnique(t)
    ensures ScoringRows(t) == ScoringRows(u)
  {
    SameMembers(t.games, u.games);
    assert VisibleRevisions(t.games) == VisibleRevisions(u.games);
    var scoring := Scoring(VisibleRevisions(t.games));
    FilterPermuted(t.rows, u.rows, scoring);
    SortSorted(Filter(t.rows, scoring), RowLeq);
    SortSorted(Filter(u.rows, scoring), RowLeq);
    ScoringMembers(t);
    SortedUnique(ScoringRows(t), ScoringRows(u), RowLeq);
  }

  lemma SameLink(t: Tables, u: Tables, p: nat)
    requires SameTables(t, u) && KeysAreUnique(t)
    ensures p in LinkMap(t.links) <==> p in LinkMap(u.links)
    ensures p in LinkMap(t.links) ==> LinkMap(t.links)[p] == LinkMap(u.links)[p]
  {
    FilterPermuted(t.links, u.links, OfParticipant(p));
    SameMembers(Filter(t.links, OfParticipant(p)), Filter(u.links, OfParticipant(p)));
    FilterMembers(t.links, OfParticipant(p));
    LinkIsLast(t.links, p);
    LinkIsLast(u.links, p);
    var a, b := Filter(t.links, OfParticipant(p)), Filter(u.links, OfParticipant(p));
    if a != [] {
      assert a[|a| - 1] in a && b[|b| - 1] in b;
    }
  }

  lemma SameConsent(t: Tables, u: Tables, user: nat)
    requires SameTables(t, u) && KeysAreUnique(t)
    ensures user in ConsentMap(t.consents) <==> user in ConsentMap(u.consents)
    ensures user in ConsentMap(t.consents) ==> ConsentMap(t.consents)[user] == ConsentMap(u.consents)[user]
  {
    FilterPermuted(t.consents, u.consents, OfUser(user));
    SameMembers(Filter(t.consents, OfUser(user)), Filter(u.consents, OfUser(user)));
    FilterMembers(t.consents, OfUser(user));
    ConsentIsLast(t.consents, user);
    ConsentIsLast(u.consents, user);
    var a, b := Filter(t.consents, OfUser(user)), Filter(u.consents, OfUser(user));
    if a != [] {
      assert a[|a| - 1] in a && b[|b| - 1] in b;
    }
  }

  lemma SameSnapshot(t: Tables, u: Tables, l: nat)
    requires SameTables(t, u) && KeysAreUnique(t)
    ensures var a, b := LatestMap(Sort(t.snapshots, NewestFirst)), LatestMap(Sort(u.snapshots, NewestFirst));
      (l in a <==> l in b) && (l in a ==> a[l] == b[l])
  {
    var a, b := Filter(t.snapshots, OfLink(l)), Filter(u.snapshots, OfLink(l));
    NewestFirstIsPreorder();
    FilterPermuted(t.snapshots, u.snapshots, OfLink(l));
    FilterMembers(t.snapshots, OfLink(l));
    SortFilter(t.snapshots, NewestFirst, OfLink(l));
    SortFilter(u.snapshots, NewestFirst, OfLink(l));
    SortSorted(a, NewestFirst);
    SortSorted(b, NewestFirst);
    assert forall s :: s in a <==> s in multiset(a);
    assert forall s :: s in Sort(a, NewestFirst) <==> s in multiset(a);
    SortedUnique(Sort(a, NewestFirst), Sort(b, NewestFirst), NewestFirst);
    LatestIsFirst(Sort(t.snapshots, NewestFirst), l);
    LatestIsFirst(Sort(u.snapshots, NewestFirst), l);
  }

  lemma {:induction false} TallyOnlyAsksItsRows(rows: seq<Row>, one: Row -> Option<nat>, other: Row -> Option<nat>)
    requires forall row :: row in rows ==> one(row) == other(row)
    ensures Tally(rows, one) == Tally(rows, other)
  {
    if rows != [] {
      TallyOnlyAsksItsRows(rows[..|rows| - 1], one, other);
    }
  }

  /** The answer does not depend on the order in which any table is read. */
  lemma ReadingOrderDoesNotMatter(t: Tables, u: Tables)
    requires SameTables(t, u) && KeysAreUnique(t)
    ensures Compute(t) == Compute(u)
  {
    SameScoringRows(t, u);
    forall row: Row
      ensures Credited(t)(row) == Credited(u)(row)
    {
      SameLink(t, u, row.participant);
      if row.participant in LinkMap(t.links) {
        SameConsent(t, u, LinkMap(t.links)[row.participant].user);
        SameSnapshot(t, u, LinkMap(t.links)[row.participant].link);
      }
    }
    TallyOnlyAsksItsRows(ScoringRows(t), Credited(t), Credited(u));
  }
}

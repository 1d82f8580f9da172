/** The append-only lineage of official results: `ensureCanonicalOfficialResult` of canonical-tournament-seed.ts and
    `repairExistingShowcaseOfficialResult` of showcase-official-result-repair.ts. */
module OfficialResults {
  import opened Prelude
  import opened ParticipantPlan

  datatype Score = Score(home: int, away: int)
  datatype EventsHash = Given(text: string) | Roster(fixture: nat, revision: nat, score: Score)
  datatype Result = Won | Lost | Drawn

  datatype Game = Game(teamMatchSource: bool, teamMatch: Option<nat>, pointer: Option<nat>, version: nat, ended: bool)

  /** `carried` stands for the fields a repair copies unread: goal events, MVP, outcome reason and note. */
  datatype Revision = Revision(game: nat, number: nat, official: bool, score: Score, carried: string,
                               eventsHash: EventsHash, supersedes: Option<nat>, submittedAt: Option<nat>,
                               officialAt: Option<nat>, rows: seq<ResultRow>)

  datatype Fact = Fact(game: nat, number: nat, teamMatchSource: bool, tournament: nat, homeTeam: nat, awayTeam: nat,
                       homeScore: int, awayScore: int, score: Score, eventsHash: EventsHash, officialAt: nat)

  datatype TeamRecord = TeamRecord(revision: nat, game: nat, team: nat, opponent: nat, tournament: nat, result: Result,
                                   goalsFor: int, goalsAgainst: int, playedAt: nat, officialAt: nat)

  /** Revisions are only appended; their number in the list is their id. Facts are keyed by revision. */
  datatype Db = Db(games: map<nat, Game>, revisions: seq<Revision>, facts: map<nat, Fact>, records: seq<TeamRecord>,
                   links: map<nat, nat>)

  datatype SeedInput = SeedInput(game: nat, tournament: nat, homeTeam: nat, awayTeam: nat, score: Score,
                                 playedAt: nat, recordedAt: nat, sourceHash: string)

  datatype RepairInput = RepairInput(fixture: nat, tournament: nat, scheduledAt: nat, recordedAt: nat, score: Score,
                                     homeTeam: nat, awayTeam: nat, game: nat, current: nat, homeSide: nat,
                                     awaySide: nat, homeParticipant: nat, awayParticipant: nat, homeUser: nat,
                                     awayUser: nat)

  datatype Refusal = GameNotFound | IncompatibleSource | InvalidCurrentResult | DanglingRevision | LinkedToAnotherUser
                   | DuplicateRevision
  datatype Outcome = Refused(why: Refusal) | Kept(revision: nat) | Created(revision: nat) | Preserved
    | Repaired(revision: nat)

  function ResultFor(goalsFor: int, goalsAgainst: int): Result {
    if goalsFor > goalsAgainst then Won else if goalsFor < goalsAgainst then Lost else Drawn
  }

  // ---- checks ----

  /** The revision is official, and its own fact says the same about it and about the input. */
  predicate AgreesWithFact(db: Db, r: nat, game: nat, tournament: nat, homeTeam: nat, awayTeam: nat) {
    && r < |db.revisions|
    && db.revisions[r].game == game
    && db.revisions[r].official
    && db.revisions[r].officialAt.Some?
    && r in db.facts
    && var f := db.facts[r];
    && f.number == db.revisions[r].number && f.teamMatchSource && f.game == game && f.tournament == tournament
    && f.homeTeam == homeTeam && f.awayTeam == awayTeam && f.eventsHash == db.revisions[r].eventsHash
    && f.officialAt == db.revisions[r].officialAt.value
  }

  predicate HasRevision(db: Db, game: nat) {
    exists r :: 0 <= r < |db.revisions| && db.revisions[r].game == game
  }

  predicate NumberTaken(db: Db, game: nat, number: nat) {
    exists r :: 0 <= r < |db.revisions| && db.revisions[r].game == game && db.revisions[r].number == number
  }

  function SeedOutcome(db: Db, s: SeedInput): Outcome {
    if s.game !in db.games then Refused(GameNotFound)
    else if !db.games[s.game].teamMatchSource || db.games[s.game].teamMatch == None then Refused(IncompatibleSource)
    else match db.games[s.game].pointer
      case Some(r) =>
        if AgreesWithFact(db, r, s.game, s.tournament, s.homeTeam, s.awayTeam) then Kept(r)
        else Refused(InvalidCurrentResult)
      case None => if HasRevision(db, s.game) then Refused(DanglingRevision) else Created(|db.revisions|)
  }

  predicate LinkedElsewhere(links: map<nat, nat>, participant: nat, user: nat) {
    participant in links && links[participant] != user
  }

  function Linked(links: map<nat, nat>, participant: nat, user: nat): map<nat, nat> {
    if participant in links then links else links[participant := user]
  }

  function BothLinked(links: map<nat, nat>, i: RepairInput): map<nat, nat> {
    Linked(Linked(links, i.homeParticipant, i.homeUser), i.awayParticipant, i.awayUser)
  }

  function PlanOf(db: Db, i: RepairInput): Plan
    requires i.current < |db.revisions|
  {
    PlanFor(PlanInput(i.homeSide, i.awaySide, i.homeParticipant, i.awayParticipant, i.score.home, i.score.away,
                      db.revisions[i.current].rows))
  }

  predicate Repairable(db: Db, i: RepairInput) {
    && i.game in db.games
    && AgreesWithFact(db, i.current, i.game, i.tournament, i.homeTeam, i.awayTeam)
    && db.games[i.game].teamMatchSource && db.games[i.game].teamMatch == Some(i.fixture)
  }

  function RepairOutcome(db: Db, i: RepairInput): Outcome {
    if !Repairable(db, i) then Refused(InvalidCurrentResult)
    else if LinkedElsewhere(db.links, i.homeParticipant, i.homeUser)
      || LinkedElsewhere(Linked(db.links, i.homeParticipant, i.homeUser), i.awayParticipant, i.awayUser)
    then Refused(LinkedToAnotherUser)
    else if !PlanOf(db, i).requiresRevision then Preserved
    else if NumberTaken(db, i.game, db.revisions[i.current].number + 1) then Refused(DuplicateRevision)
    else Repaired(|db.revisions|)
  }

  // ---- writes ----

  /** The two team records of a revision; a team playing itself would break the (revision, team) index, so its second
      record is skipped. */
  function Records(revision: nat, game: nat, tournament: nat, home: nat, away: nat, score: Score, playedAt: nat,
                   officialAt: nat)
    : seq<TeamRecord>
  {
    [TeamRecord(revision, game, home, away, tournament, ResultFor(score.home, score.away), score.home, score.away,
                playedAt, officialAt)]
    + if home == away then [] else
      [TeamRecord(revision, game, away, home, tournament, ResultFor(score.away, score.home), score.away, score.home,
                  playedAt, officialAt)]
  }

  function AfterSeed(db: Db, s: SeedInput): Db {
    if !SeedOutcome(db, s).Created? then db else
      var r := |db.revisions|;
      Db(db.games[s.game := db.games[s.game].(pointer := Some(r), ended := true)],
         db.revisions + [Revision(s.game, 1, true, s.score, "[]", Given(s.sourceHash), None, Some(s.recordedAt),
                                  Some(s.recordedAt), [])],
         db.facts[r := Fact(s.game, 1, true, s.tournament, s.homeTeam, s.awayTeam, s.score.home, s.score.away, s.score,
                            Given(s.sourceHash), s.recordedAt)],
         db.records + Records(r, s.game, s.tournament, s.homeTeam, s.awayTeam, s.score, s.playedAt, s.recordedAt),
         db.links)
  }

  function RepairedRevision(db: Db, i: RepairInput): Revision
    requires i.current < |db.revisions|
  {
    var current := db.revisions[i.current];
    Revision(i.game, current.number + 1, true, current.score, current.carried,
             Roster(i.fixture, current.number + 1, i.score),
             Some(i.current), Some(i.recordedAt), Some(i.recordedAt), PlanOf(db, i).rows)
  }

  function AfterRepair(db: Db, i: RepairInput): Db {
    match RepairOutcome(db, i)
    case Preserved => db.(links := BothLinked(db.links, i))
    case Repaired(r) =>
      var revision := RepairedRevision(db, i);
      Db(db.games[i.game := db.games[i.game].(pointer := Some(r), version := db.games[i.game].version + 1)],
         db.revisions + [revision],
         db.facts[r := Fact(i.game, revision.number, true, i.tournament, i.homeTeam, i.awayTeam, i.score.home,
                            i.score.away, revision.score, revision.eventsHash, i.recordedAt)],
         db.records + Records(r, i.game, i.tournament, i.homeTeam, i.awayTeam, i.score, i.scheduledAt, i.recordedAt),
         BothLinked(db.links, i))
    case _ => db
  }

  /** The tables, written row by row as the two scripts do. */
  class ResultStore {
    var games: map<nat, Game>
    var revisions: seq<Revision>
    var facts: map<nat, Fact>
    var records: seq<TeamRecord>
    var links: map<nat, nat>

    function Contents(): Db
      reads this
    {
      Db(games, revisions, facts, records, links)
    }

    constructor (db: Db)
      ensures Contents() == db
    {
      games, revisions, facts, records, links := db.games, db.revisions, db.facts, db.records, db.links;
    }

    /** `createMany` with `skipDuplicates`, for a revision that has no records yet. */
    method CreateRecords(revision: nat, game: nat, tournament: nat, home: nat, away: nat, score: Score, playedAt: nat,
                         officialAt: nat)
      modifies this`records
      ensures records == old(records) + Records(revision, game, tournament, home, away, score, playedAt, officialAt)
    {
      records := records + [TeamRecord(revision, game, home, away, tournament, ResultFor(score.home, score.away),
                                       score.home, score.away, playedAt, officialAt)];
      if away != home {
        records := records + [TeamRecord(revision, game, away, home, tournament, ResultFor(score.away, score.home),
                                         score.away, score.home, playedAt, officialAt)];
      }
    }

    method Officialize(r: nat, at: nat)
      requires r < |revisions|
      modifies this`revisions
      ensures revisions == old(revisions)[r :=
        old(revisions)[r].(official := true, submittedAt := Some(at), officialAt := Some(at))]
    {
      revisions := revisions[r := revisions[r].(official := true, submittedAt := Some(at), officialAt := Some(at))];
    }

    method EnsureCanonicalOfficialResult(s: SeedInput) returns (outcome: Outcome)
      modifies this
      ensures outcome == SeedOutcome(old(Contents()), s)
      ensures Contents() == AfterSeed(old(Contents()), s)
    {
      if s.game !in games { return Refused(GameNotFound); }
      var game := games[s.game];
      if !game.teamMatchSource || game.teamMatch == None { return Refused(IncompatibleSource); }
      if game.pointer.Some? {
        if !AgreesWithFact(Contents(), game.pointer.value, s.game, s.tournament, s.homeTeam, s.awayTeam) {
          return Refused(InvalidCurrentResult);
        }
        return Kept(game.pointer.value);
      }
      if HasRevision(Contents(), s.game) { return Refused(DanglingRevision); }
      var r := |revisions|;
      revisions := revisions + [Revision(s.game, 1, false, s.score, "[]", Given(s.sourceHash), None, None, None, [])];
      Officialize(r, s.recordedAt);
      games := games[s.game := game.(pointer := Some(r), ended := true)];
      facts := facts[r := Fact(s.game, 1, true, s.tournament, s.homeTeam, s.awayTeam, s.score.home, s.score.away,
                               s.score,                                Given(s.sourceHash), s.recordedAt)];
      CreateRecords(r, s.game, s.tournament, s.homeTeam, s.awayTeam, s.score, s.playedAt, s.recordedAt);
      return Created(r);
    }

    /** A refusal rolls back the links made on the way to it. */
    method RepairExistingShowcaseOfficialResult(i: RepairInput) returns (outcome: Outcome)
      modifies this
      ensures outcome == RepairOutcome(old(Contents()), i)
      ensures Contents() == AfterRepair(old(Contents()), i)
    {
      hide PlanFor, Records, ResultFor, Linked, LinkedElsewhere;
      if !Repairable(Contents(), i) { return Refused(InvalidCurrentResult); }
      var current := revisions[i.current];
      var plan := BuildPlan(PlanInput(i.homeSide, i.awaySide, i.homeParticipant, i.awayParticipant,
                                      i.score.home, i.score.away, current.rows));
      var before := links;
      if LinkedElsewhere(links, i.homeParticipant, i.homeUser) { return Refused(LinkedToAnotherUser); }
      links := Linked(links, i.homeParticipant, i.homeUser);
      if LinkedElsewhere(links, i.awayParticipant, i.awayUser) {
        links := before;
        return Refused(LinkedToAnotherUser);
      }
      links := Linked(links, i.awayParticipant, i.awayUser);
      if !plan.requiresRevision { return Preserved; }
      var number := current.number + 1;
      if exists r :: 0 <= r < |revisions| && revisions[r].game == i.game && revisions[r].number == number {
        links := before;
        return Refused(DuplicateRevision);
      }
      var r := |revisions|;
      var hash := Roster(i.fixture, number, i.score);
      revisions := revisions + [Revision(i.game, number, false, current.score, current.carried, hash, Some(i.current),
                                         None, None, plan.rows)];
      Officialize(r, i.recordedAt);
      games := games[i.game := games[i.game].(pointer := Some(r), version := games[i.game].version + 1)];
      facts := facts[r := Fact(i.game, number, true, i.tournament, i.homeTeam, i.awayTeam, i.score.home, i.score.away,
                               current.score, hash, i.recordedAt)];
      CreateRecords(r, i.game, i.tournament, i.homeTeam, i.awayTeam, i.score, i.scheduledAt, i.recordedAt);
      return Repaired(r);
    }
  }

  // ---- one chain of official revisions per game ----

  /** A revision agrees with its own fact. */
  ghost predicate HasOwnFact(db: Db, r: nat)
    requires r < |db.revisions|
  {
    var v := db.revisions[r];
    && v.official && v.officialAt.Some? && r in db.facts
    && db.facts[r].number == v.number && db.facts[r].game == v.game && db.facts[r].eventsHash == v.eventsHash
    && db.facts[r].officialAt == v.officialAt.value && db.facts[r].score == v.score
  }

  ghost predicate Supersedes(db: Db, r: nat)
    requires r < |db.revisions|
  {
    var v := db.revisions[r];
    match v.supersedes
    case None => v.number == 1
    case Some(p) => p < r && db.revisions[p].game == v.game && v.number == db.revisions[p].number + 1
  }

  /** The game's pointer is at its last revision, and it has one exactly when it has a revision. */
  ghost predicate PointsAtLast(db: Db, game: nat)
    requires game in db.games
  {
    match db.games[game].pointer
    case None => forall r :: 0 <= r < |db.revisions| ==> db.revisions[r].game != game
    case Some(p) =>
      p < |db.revisions| && db.revisions[p].game == game
      && forall r :: 0 <= r < |db.revisions| && db.revisions[r].game == game ==>
           db.revisions[r].number <= db.revisions[p].number
  }

  ghost predicate EachRevisionFits(db: Db) {
    forall r :: 0 <= r < |db.revisions| ==> db.revisions[r].game in db.games && HasOwnFact(db, r) && Supersedes(db, r)
  }

  ghost predicate NumbersDiffer(db: Db) {
    forall r, q :: 0 <= r < q < |db.revisions| && db.revisions[r].game == db.revisions[q].game ==>
      db.revisions[r].number != db.revisions[q].number
  }

  ghost predicate PointersAtLast(db: Db) {
    forall game :: game in db.games ==> PointsAtLast(db, game)
  }

  ghost predicate Lineage(db: Db) {
    EachRevisionFits(db) && NumbersDiffer(db) && PointersAtLast(db)
  }

  /** Below any revision of a game, every number from 1 is taken by the same game. */
  lemma {:induction false} NumbersAreContiguous(db: Db, r: nat, k: nat)
    requires Lineage(db) && r < |db.revisions| && 1 <= k <= db.revisions[r].number
    ensures NumberTaken(db, db.revisions[r].game, k)
    decreases r
  {
    assert Supersedes(db, r);
    if k < db.revisions[r].number {
      NumbersAreContiguous(db, db.revisions[r].supersedes.value, k);
    }
  }

  /** A game's revisions are numbered from 1 to the number of the one its pointer is at, each number once. */
  lemma NumbersRunFromOne(db: Db, game: nat, k: nat)
    requires Lineage(db) && game in db.games && db.games[game].pointer.Some?
    ensures db.games[game].pointer.value < |db.revisions|
    ensures NumberTaken(db, game, k) <==> 1 <= k <= db.revisions[db.games[game].pointer.value].number
  {
    assert PointsAtLast(db, game);
    var p := db.games[game].pointer.value;
    if 1 <= k <= db.revisions[p].number {
      NumbersAreContiguous(db, p, k);
    }
    if NumberTaken(db, game, k) {
      var r: nat :| r < |db.revisions| && db.revisions[r].game == game && db.revisions[r].number == k;
      NumberedFromOne(db, r);
    }
  }

  lemma {:induction false} NumberedFromOne(db: Db, r: nat)
    requires Lineage(db) && r < |db.revisions|
    ensures db.revisions[r].number >= 1
  {
    assert Supersedes(db, r);
    if db.revisions[r].supersedes.Some? {
      NumberedFromOne(db, db.revisions[r].supersedes.value);
    }
  }

  /** So a repair that gets as far as writing started from the last revision. */
  lemma RepairStartsFromLast(db: Db, i: RepairInput)
    requires Lineage(db) && RepairOutcome(db, i).Repaired?
    ensures db.games[i.game].pointer == Some(i.current)
  {
    assert PointsAtLast(db, i.game);
    var p := db.games[i.game].pointer.value;
    if p != i.current {
      NumbersAreContiguous(db, p, db.revisions[i.current].number + 1);
    }
  }

  /** `after` is `db` with one revision of `game` appended, next after the one the pointer was at, and pointed at. */
  ghost predicate Appended(db: Db, after: Db, game: nat) {
    var n := |db.revisions|;
    && game in db.games && |after.revisions| == n + 1
    && (forall r :: 0 <= r < n ==> after.revisions[r] == db.revisions[r])
    && after.revisions[n].game == game && after.revisions[n].supersedes == db.games[game].pointer
    && HasOwnFact(after, n) && Supersedes(after, n)
    && after.games.Keys == db.games.Keys && after.games[game].pointer == Some(n)
    && (forall g :: g in db.games && g != game ==> after.games[g].pointer == db.games[g].pointer)
    && (forall r :: 0 <= r < n && r in db.facts ==> r in after.facts && after.facts[r] == db.facts[r])
  }

  lemma NewNumberIsHighest(db: Db, after: Db, game: nat, r: nat)
    requires PointersAtLast(db) && Appended(db, after, game) && r < |db.revisions| && db.revisions[r].game == game
    ensures db.revisions[r].number < after.revisions[|db.revisions|].number
  {
    hide HasOwnFact;
    assert PointsAtLast(db, game);
  }

  lemma AppendedRevisionsFit(db: Db, after: Db, game: nat)
    requires EachRevisionFits(db) && Appended(db, after, game)
    ensures EachRevisionFits(after)
  {
    forall r | 0 <= r < |after.revisions|
      ensures after.revisions[r].game in after.games && HasOwnFact(after, r) && Supersedes(after, r)
    {
      if r < |db.revisions| {
        assert HasOwnFact(db, r) && Supersedes(db, r);
      }
    }
  }

  lemma AppendedNumbersDiffer(db: Db, after: Db, game: nat)
    requires NumbersDiffer(db) && PointersAtLast(db) && Appended(db, after, game)
    ensures NumbersDiffer(after)
  {
    hide HasOwnFact, Supersedes, PointsAtLast;
    forall r, q | 0 <= r < q < |after.revisions| && after.revisions[r].game == after.revisions[q].game
      ensures after.revisions[r].number != after.revisions[q].number
    {
      if q == |db.revisions| {
        NewNumberIsHighest(db, after, game, r);
      }
    }
  }

  lemma AppendedPointersAtLast(db: Db, after: Db, game: nat)
    requires PointersAtLast(db) && Appended(db, after, game)
    ensures PointersAtLast(after)
  {
    hide HasOwnFact, Supersedes;
    forall g | g in after.games
      ensures PointsAtLast(after, g)
    {
      assert PointsAtLast(db, g);
      if g == game {
        forall r | 0 <= r < |after.revisions| && after.revisions[r].game == game
          ensures after.revisions[r].number <= after.revisions[|db.revisions|].number
        {
          if r < |db.revisions| { NewNumberIsHighest(db, after, game, r); }
        }
      }
    }
  }

  lemma AppendKeepsLineage(db: Db, after: Db, game: nat)
    requires Lineage(db) && Appended(db, after, game)
    ensures Lineage(after)
  {
    AppendedRevisionsFit(db, after, game);
    AppendedNumbersDiffer(db, after, game);
    AppendedPointersAtLast(db, after, game);
  }

  lemma SeedAppends(db: Db, s: SeedInput)
    requires SeedOutcome(db, s).Created? && s.game in db.games && db.games[s.game].pointer == None
    ensures Appended(db, AfterSeed(db, s), s.game)
  {
    hide Records, AgreesWithFact, HasRevision;
    var after := AfterSeed(db, s);
    var n := |db.revisions|;
    assert forall r :: 0 <= r < n ==> after.revisions[r] == db.revisions[r];
    assert HasOwnFact(after, n);
    assert Supersedes(after, n);
  }

  lemma SeedKeepsLineage(db: Db, s: SeedInput)
    requires Lineage(db)
    ensures Lineage(AfterSeed(db, s))
  {
    hide Lineage, Appended, AfterSeed, AgreesWithFact, HasRevision;
    if SeedOutcome(db, s).Created? {
      SeedAppends(db, s);
      AppendKeepsLineage(db, AfterSeed(db, s), s.game);
    } else {
      SeedElsewiseKeeps(db, s);
    }
  }

  lemma SeedElsewiseKeeps(db: Db, s: SeedInput)
    requires !SeedOutcome(db, s).Created?
    ensures AfterSeed(db, s) == db
  {
  }

  lemma RepairAppends(db: Db, i: RepairInput)
    requires RepairOutcome(db, i).Repaired? && db.games[i.game].pointer == Some(i.current)
    ensures Appended(db, AfterRepair(db, i), i.game)
  {
    hide PlanFor, Records, BothLinked, Linked, LinkedElsewhere, ResultFor;
    var after := AfterRepair(db, i);
    var n := |db.revisions|;
    assert forall r :: 0 <= r < n ==> after.revisions[r] == db.revisions[r];
    assert HasOwnFact(after, n);
    assert Supersedes(after, n);
  }

  lemma LinksDoNotMatter(db: Db, after: Db)
    requires Lineage(db) && after == db.(links := after.links)
    ensures Lineage(after)
  {
    assert forall r :: 0 <= r < |db.revisions| ==> HasOwnFact(db, r) && Supersedes(db, r);
    assert forall r :: 0 <= r < |db.revisions| ==> HasOwnFact(after, r) && Supersedes(after, r);
    assert forall g :: g in db.games ==> PointsAtLast(db, g);
    assert forall g :: g in db.games ==> PointsAtLast(after, g);
  }

  lemma RepairKeepsLineage(db: Db, i: RepairInput)
    requires Lineage(db)
    ensures Lineage(AfterRepair(db, i))
  {
    hide Lineage, RepairOutcome, Appended, BothLinked, Records, RepairedRevision;
    match RepairOutcome(db, i) {
      case Repaired(_) =>
        RepairStartsFromLast(db, i);
        RepairAppends(db, i);
        AppendKeepsLineage(db, AfterRepair(db, i), i.game);
      case Preserved =>
        LinksDoNotMatter(db, AfterRepair(db, i));
      case _ =>
    }
  }

  // ---- whole runs ----

  datatype Operation = Seed(seed: SeedInput) | Repair(repair: RepairInput)

  function Perform(db: Db, op: Operation): Db {
    match op
    case Seed(s) => AfterSeed(db, s)
    case Repair(i) => AfterRepair(db, i)
  }

  function Run(db: Db, ops: seq<Operation>): Db {
    if ops == [] then db else Perform(Run(db, ops[..|ops| - 1]), ops[|ops| - 1])
  }

  ghost predicate Pristine(db: Db) {
    db.revisions == [] && db.records == [] && forall g :: g in db.games ==> db.games[g].pointer == None
  }

  /** After any run of seeding and repair every game's revisions form one chain numbered from 1, all official and
      matching their own facts, with the pointer at the last. */
  lemma {:induction false} RunKeepsLineageFrom(db: Db, ops: seq<Operation>)
    requires Lineage(db)
    ensures Lineage(Run(db, ops))
  {
    if ops != [] {
      var before := ops[..|ops| - 1];
      RunKeepsLineageFrom(db, before);
      match ops[|ops| - 1]
      case Seed(s) => SeedKeepsLineage(Run(db, before), s);
      case Repair(i) => RepairKeepsLineage(Run(db, before), i);
    }
  }

  lemma RunFromPristine(db: Db, ops: seq<Operation>)
    requires Pristine(db)
    ensures Lineage(Run(db, ops))
  {
    RunKeepsLineageFrom(db, ops);
  }

  /** No revision, fact or team record is ever altered or removed by a later call. */
  lemma {:induction false} NothingOfficialChanges(db: Db, ops: seq<Operation>, n: nat)
    requires Lineage(db) && n <= |ops|
    ensures var earlier, later := Run(db, ops[..n]), Run(db, ops);
      && earlier.revisions <= later.revisions && earlier.records <= later.records
      && forall r :: r in earlier.facts && r < |earlier.revisions| ==>
           r in later.facts && later.facts[r] == earlier.facts[r]
  {
    if n == |ops| {
      assert ops[..n] == ops;
    } else {
      var before := ops[..|ops| - 1];
      NothingOfficialChanges(db, before, n);
      assert before[..n] == ops[..n];
      PerformOnlyAppends(Run(db, before), ops[|ops| - 1]);
    }
  }

  lemma PerformOnlyAppends(db: Db, op: Operation)
    ensures var after := Perform(db, op);
      && db.revisions <= after.revisions && db.records <= after.records
      && forall r :: r in db.facts && r < |db.revisions| ==> r in after.facts && after.facts[r] == db.facts[r]
  {
    hide Records, PlanFor;
  }

  // ---- repeating a call ----

  lemma SeedingAgainChangesNothing(db: Db, s: SeedInput)
    requires !SeedOutcome(db, s).Refused?
    ensures SeedOutcome(AfterSeed(db, s), s).Kept? && AfterSeed(AfterSeed(db, s), s) == AfterSeed(db, s)
  {
  }

  /** A repair repeated from the new pointer adds nothing; repeated from the stale one it is refused. */
  lemma RepairingAgainChangesNothing(db: Db, i: RepairInput)
    requires RepairOutcome(db, i).Repaired?
    ensures var after, again := AfterRepair(db, i), i.(current := |db.revisions|);
      && RepairOutcome(after, again) == Preserved && AfterRepair(after, again) == after
      && RepairOutcome(after, i) == Refused(DuplicateRevision) && AfterRepair(after, i) == after
  {
    hide PlanFor, Records;
    var after, again := AfterRepair(db, i), i.(current := |db.revisions|);
    PlanIsIdempotent(PlanInput(i.homeSide, i.awaySide, i.homeParticipant, i.awayParticipant, i.score.home, i.score.away,
                               db.revisions[i.current].rows));
    assert PlanOf(after, again) == Plan(false, PlanOf(db, i).rows);
    assert PlanOf(after, i) == PlanOf(db, i);
    assert after.revisions[|db.revisions|].number == db.revisions[i.current].number + 1;
    assert NumberTaken(after, i.game, db.revisions[i.current].number + 1);
  }

  lemma PreservingAgainChangesNothing(db: Db, i: RepairInput)
    requires RepairOutcome(db, i) == Preserved
    ensures RepairOutcome(AfterRepair(db, i), i) == Preserved
      && AfterRepair(AfterRepair(db, i), i) == AfterRepair(db, i)
  {
    hide PlanFor;
  }

  /** A repair that is not refused leaves both representatives linked to their users and every other link as it was; it
      is refused for a link only when one of them is linked to someone else, or both are one participant of two users.
      */
  lemma RepairLinksBoth(db: Db, i: RepairInput)
    ensures !RepairOutcome(db, i).Refused? ==>
      var links := AfterRepair(db, i).links;
      && links.Keys == db.links.Keys + {i.homeParticipant, i.awayParticipant}
      && links[i.homeParticipant] == i.homeUser && links[i.awayParticipant] == i.awayUser
      && forall p :: p in db.links ==> links[p] == db.links[p]
    ensures RepairOutcome(db, i) == Refused(LinkedToAnotherUser) <==>
      Repairable(db, i)
      && (|| (i.homeParticipant in db.links && db.links[i.homeParticipant] != i.homeUser)
          || (i.awayParticipant in db.links && db.links[i.awayParticipant] != i.awayUser)
          || (i.homeParticipant == i.awayParticipant && i.homeUser != i.awayUser))
  {
    hide PlanFor, Records, AgreesWithFact;
  }

  /** A repair copies the stored score but takes the fact's and the records' goals from its input: the new fact states
      one score exactly when the two were equal. */
  lemma RepairedFactIsConsistentIff(db: Db, i: RepairInput)
    requires RepairOutcome(db, i).Repaired?
    ensures var fact := AfterRepair(db, i).facts[|db.revisions|];
      fact.score == Score(fact.homeScore, fact.awayScore) <==> i.score == db.revisions[i.current].score
  {
  }

  /** Given any other score than the stored one, the same repair goes through and writes an inconsistent fact. */
  lemma OtherScoreIsInconsistent(db: Db, i: RepairInput, score: Score)
    requires RepairOutcome(db, i).Repaired? && score != db.revisions[i.current].score
    ensures RepairOutcome(db, i.(score := score)) == RepairOutcome(db, i)
    ensures var fact := AfterRepair(db, i.(score := score)).facts[|db.revisions|];
      fact.score != Score(fact.homeScore, fact.awayScore)
  {
    var other := i.(score := score);
    var rows := db.revisions[i.current].rows;
    PlanFlagged(PlanInput(i.homeSide, i.awaySide, i.homeParticipant, i.awayParticipant, i.score.home, i.score.away,
                          rows));
    PlanFlagged(PlanInput(i.homeSide, i.awaySide, i.homeParticipant, i.awayParticipant, score.home, score.away, rows));
    assert PlanOf(db, other).requiresRevision == PlanOf(db, i).requiresRevision;
    RepairedFactIsConsistentIff(db, other);
  }

  /** Such a repair exists: a seeded 2-1 repaired as 3-0. */
  lemma InconsistentRepair() returns (db: Db, i: RepairInput)
    ensures Lineage(db) && RepairOutcome(db, i).Repaired?
    ensures var fact := AfterRepair(db, i).facts[|db.revisions|];
      fact.score == Score(2, 1) && fact.homeScore == 3 && fact.awayScore == 0
  {
    hide Lineage, Records, PlanFor;
    var empty := Db(map[0 := Game(true, Some(7), None, 0, false)], [], map[], [], map[]);
    var seed := SeedInput(0, 1, 10, 20, Score(2, 1), 5, 6, "seed");
    db := AfterSeed(empty, seed);
    i := RepairInput(7, 1, 5, 6, Score(3, 0), 10, 20, 0, 0, 1, 2, 100, 200, 1000, 2000);
    RunFromPristine(empty, []);
    SeedKeepsLineage(empty, seed);
    PlanFlagged(PlanInput(1, 2, 100, 200, 3, 0, []));
    assert !Has([], 100);
  }

  // ---- what a call decides and writes, field by field ----

  /** The current revision and its fact, as both scripts check them against their input. */
  ghost predicate IsCurrentResult(db: Db, r: nat, game: nat, tournament: nat, homeTeam: nat, awayTeam: nat) {
    && r < |db.revisions| && r in db.facts
    && var revision, fact := db.revisions[r], db.facts[r];
    && revision.official && revision.officialAt == Some(fact.officialAt) && fact.teamMatchSource
    && revision.game == game && fact.game == game && fact.number == revision.number
    && fact.eventsHash == revision.eventsHash
    && fact.tournament == tournament && fact.homeTeam == homeTeam && fact.awayTeam == awayTeam
  }

  /** What seeding answers in every state. */
  lemma SeedAnswerIff(db: Db, s: SeedInput)
    ensures SeedOutcome(db, s) == Refused(GameNotFound) <==> s.game !in db.games
    ensures s.game in db.games ==>
      (SeedOutcome(db, s) == Refused(IncompatibleSource)
       <==> !db.games[s.game].teamMatchSource || db.games[s.game].teamMatch == None)
    ensures s.game in db.games && db.games[s.game].teamMatchSource && db.games[s.game].teamMatch.Some? ==>
      match db.games[s.game].pointer
      case Some(r) =>
        SeedOutcome(db, s) == (if IsCurrentResult(db, r, s.game, s.tournament, s.homeTeam, s.awayTeam) then Kept(r)
                               else Refused(InvalidCurrentResult))
      case None =>
        SeedOutcome(db, s) == (if forall r :: 0 <= r < |db.revisions| ==> db.revisions[r].game != s.game
                               then Created(|db.revisions|) else Refused(DanglingRevision))
  {
  }

  /** After any run of seeding and repair, a seeding of a game that has a result keeps it exactly when the tournament
      and the teams are the recorded ones. */
  lemma SeedKeepsRecordedIff(db: Db, s: SeedInput, r: nat)
    requires Lineage(db) && s.game in db.games && db.games[s.game].pointer == Some(r)
    requires db.games[s.game].teamMatchSource && db.games[s.game].teamMatch.Some?
    ensures r in db.facts
    ensures SeedOutcome(db, s) == Kept(r) <==>
      && db.facts[r].teamMatchSource && db.facts[r].tournament == s.tournament
      && db.facts[r].homeTeam == s.homeTeam && db.facts[r].awayTeam == s.awayTeam
  {
    assert PointsAtLast(db, s.game);
    assert HasOwnFact(db, r);
  }

  lemma RepairAnswerIff(db: Db, i: RepairInput)
    ensures RepairOutcome(db, i) == Refused(InvalidCurrentResult) <==>
      !(&& i.game in db.games && db.games[i.game].teamMatchSource && db.games[i.game].teamMatch == Some(i.fixture)
        && IsCurrentResult(db, i.current, i.game, i.tournament, i.homeTeam, i.awayTeam))
    ensures RepairOutcome(db, i) in {Preserved, Repaired(|db.revisions|), Refused(DuplicateRevision)} ==>
      && i.current < |db.revisions|
      && var current := db.revisions[i.current];
      && (RepairOutcome(db, i) == Preserved <==>
            && (exists row :: row in current.rows && row.participant == i.homeParticipant)
            && (exists row :: row in current.rows && row.participant == i.awayParticipant))
      && (RepairOutcome(db, i).Repaired? ==>
            forall r :: 0 <= r < |db.revisions| && db.revisions[r].game == i.game ==>
              db.revisions[r].number != current.number + 1)
      && (RepairOutcome(db, i) == Refused(DuplicateRevision) ==>
            exists r :: 0 <= r < |db.revisions| && db.revisions[r].game == i.game
              && db.revisions[r].number == current.number + 1)
  {
    hide PlanFor;
    if i.current < |db.revisions| {
      PlanFlagged(PlanInput(i.homeSide, i.awaySide, i.homeParticipant, i.awayParticipant, i.score.home, i.score.away,
                            db.revisions[i.current].rows));
    }
  }

  /** A team's record of one revision: its own goals first, and the result they make. */
  ghost predicate IsRecordOf(t: TeamRecord, revision: nat, game: nat, tournament: nat, team: nat, opponent: nat,
                             scored: int, conceded: int, playedAt: nat, officialAt: nat)
  {
    && t.revision == revision && t.game == game && t.tournament == tournament
    && t.team == team && t.opponent == opponent && t.goalsFor == scored && t.goalsAgainst == conceded
    && (t.result == Won <==> scored > conceded) && (t.result == Lost <==> scored < conceded)
    && t.playedAt == playedAt && t.officialAt == officialAt
  }

  ghost predicate AddsRecords(before: seq<TeamRecord>, after: seq<TeamRecord>, revision: nat, game: nat,
                              tournament: nat, home: nat, away: nat, score: Score, playedAt: nat, officialAt: nat)
  {
    && |after| == |before| + (if home == away then 1 else 2) && after[..|before|] == before
    && IsRecordOf(after[|before|], revision, game, tournament, home, away, score.home, score.away, playedAt, officialAt)
    && (home != away ==>
          IsRecordOf(after[|before| + 1], revision, game, tournament, away, home, score.away, score.home, playedAt,
                     officialAt))
  }

  lemma RecordsAreAdded(before: seq<TeamRecord>, revision: nat, game: nat, tournament: nat, home: nat, away: nat,
                        score: Score, playedAt: nat, officialAt: nat)
    ensures AddsRecords(before, before + Records(revision, game, tournament, home, away, score, playedAt, officialAt),
                        revision, game, tournament, home, away, score, playedAt, officialAt)
  {
  }

  /** A created result says of the home team what the input says of it, in the revision, its fact and both records. */
  lemma SeedWrites(db: Db, s: SeedInput)
    requires SeedOutcome(db, s).Created?
    ensures var after, r := AfterSeed(db, s), |db.revisions|;
      && |after.revisions| == r + 1 && after.revisions[..r] == db.revisions
      && var revision := after.revisions[r];
      && revision.game == s.game && revision.number == 1 && revision.supersedes == None && revision.score == s.score
      && revision.official && revision.submittedAt == Some(s.recordedAt) && revision.officialAt == Some(s.recordedAt)
      && revision.eventsHash == Given(s.sourceHash) && revision.rows == []
    ensures var after, r := AfterSeed(db, s), |db.revisions|;
      && r in after.facts
      && var fact := after.facts[r];
      && fact.tournament == s.tournament && fact.homeTeam == s.homeTeam && fact.awayTeam == s.awayTeam
      && fact.homeScore == s.score.home && fact.awayScore == s.score.away && fact.score == s.score
      && AddsRecords(db.records, after.records, r, s.game, s.tournament, s.homeTeam, s.awayTeam, s.score, s.playedAt,
                     s.recordedAt)
      && s.game in after.games && after.games[s.game].pointer == Some(r) && after.games[s.game].ended
      && (forall g :: g in db.games && g != s.game ==> g in after.games && after.games[g] == db.games[g])
      && after.links == db.links
  {
    hide Records, AddsRecords, AgreesWithFact;
    RecordsAreAdded(db.records, |db.revisions|, s.game, s.tournament, s.homeTeam, s.awayTeam, s.score, s.playedAt,
                    s.recordedAt);
  }

  /** A repair writes the next revision with the stored score and the planned rows, and a fact and records with the
      goals of its input. */
  lemma RepairWrites(db: Db, i: RepairInput)
    requires RepairOutcome(db, i).Repaired?
    ensures var after, r, current := AfterRepair(db, i), |db.revisions|, db.revisions[i.current];
      && |after.revisions| == r + 1 && after.revisions[..r] == db.revisions
      && var revision := after.revisions[r];
      && revision.game == i.game && revision.number == current.number + 1 && revision.supersedes == Some(i.current)
      && revision.score == current.score && revision.carried == current.carried && revision.official
      && revision.submittedAt == Some(i.recordedAt) && revision.officialAt == Some(i.recordedAt)
      && revision.eventsHash == Roster(i.fixture, current.number + 1, i.score) && current.rows <= revision.rows
    ensures var after, r := AfterRepair(db, i), |db.revisions|;
      && r in after.facts
      && var fact := after.facts[r];
      && fact.tournament == i.tournament && fact.homeTeam == i.homeTeam && fact.awayTeam == i.awayTeam
      && fact.homeScore == i.score.home && fact.awayScore == i.score.away
      && AddsRecords(db.records, after.records, r, i.game, i.tournament, i.homeTeam, i.awayTeam, i.score, i.scheduledAt,
                     i.recordedAt)
      && i.game in after.games && after.games[i.game].pointer == Some(r)
      && after.games[i.game].version == db.games[i.game].version + 1
      && (forall g :: g in db.games && g != i.game ==> g in after.games && after.games[g] == db.games[g])
  {
    hide Records, AddsRecords, AgreesWithFact, BothLinked, LinkedElsewhere, Linked, SideGoals, Has;
    RecordsAreAdded(db.records, |db.revisions|, i.game, i.tournament, i.homeTeam, i.awayTeam, i.score, i.scheduledAt,
                    i.recordedAt);
  }

  // ---- mirrored team records ----

  function Count(records: seq<TeamRecord>, result: Result): nat {
    if records == [] then 0 else (if records[0].result == result then 1 else 0) + Count(records[1..], result)
  }

  function GoalsFor(records: seq<TeamRecord>): int {
    if records == [] then 0 else records[0].goalsFor + GoalsFor(records[1..])
  }

  function GoalsAgainst(records: seq<TeamRecord>): int {
    if records == [] then 0 else records[0].goalsAgainst + GoalsAgainst(records[1..])
  }

  ghost predicate Balanced(records: seq<TeamRecord>) {
    Count(records, Won) == Count(records, Lost) && GoalsFor(records) == GoalsAgainst(records)
  }

  lemma {:induction false} TotalsConcat(a: seq<TeamRecord>, b: seq<TeamRecord>)
    ensures forall result :: Count(a + b, result) == Count(a, result) + Count(b, result)
    ensures GoalsFor(a + b) == GoalsFor(a) + GoalsFor(b) && GoalsAgainst(a + b) == GoalsAgainst(a) + GoalsAgainst(b)
  {
    if a == [] {
      assert a + b == b;
    } else {
      TotalsConcat(a[1..], b);
      assert (a + b)[1..] == a[1..] + b;
    }
  }

  function Opposite(result: Result): Result {
    match result
    case Won => Lost
    case Lost => Won
    case Drawn => Drawn
  }

  /** The two records of a revision are each other's mirror image. */
  lemma RecordsMirror(revision: nat, game: nat, tournament: nat, home: nat, away: nat, score: Score, playedAt: nat,
                      officialAt: nat)
    requires home != away
    ensures var records := Records(revision, game, tournament, home, away, score, playedAt, officialAt);
      && |records| == 2 && records[0].team == home && records[0].goalsFor == score.home
      && records[0].goalsAgainst == score.away
      && (records[0].result == Won <==> score.home > score.away)
      && (records[0].result == Drawn <==> score.home == score.away)
      && records[1] == records[0].(team := records[0].opponent, opponent := records[0].team,
                                   result := Opposite(records[0].result),
                                   goalsFor := records[0].goalsAgainst, goalsAgainst := records[0].goalsFor)
  {
  }

  /** The records of one revision balance exactly when two different teams met, or the score was level. */
  lemma RecordsBalancedIff(revision: nat, game: nat, tournament: nat, home: nat, away: nat, score: Score, playedAt: nat,
                           officialAt: nat)
    ensures Balanced(Records(revision, game, tournament, home, away, score, playedAt, officialAt))
      <==> home != away || score.home == score.away
  {
    var records := Records(revision, game, tournament, home, away, score, playedAt, officialAt);
    var first := records[..1];
    var rest := records[1..];
    assert records == first + rest;
    TotalsConcat(first, rest);
    assert first == [records[0]] && first[1..] == [];
    if home != away {
      assert rest == [records[1]] && rest[1..] == [];
      assert forall result :: Count(first, result) == if records[0].result == result then 1 else 0;
      assert forall result :: Count(rest, result) == if records[1].result == result then 1 else 0;
    } else {
      assert rest == [];
      assert forall result :: Count(records, result) == if records[0].result == result then 1 else 0;
    }
  }

  predicate TwoTeams(op: Operation) {
    match op
    case Seed(s) => s.homeTeam != s.awayTeam
    case Repair(i) => i.homeTeam != i.awayTeam
  }

  /** Over any run between different teams, total wins equal total losses and goals for equal goals against. */
  lemma {:induction false} RunStaysBalanced(db: Db, ops: seq<Operation>)
    requires Balanced(db.records) && forall k :: 0 <= k < |ops| ==> TwoTeams(ops[k])
    ensures Balanced(Run(db, ops).records)
  {
    if ops != [] {
      var before, op := ops[..|ops| - 1], ops[|ops| - 1];
      RunStaysBalanced(db, before);
      PerformStaysBalanced(Run(db, before), op);
    }
  }

  lemma PerformStaysBalanced(db: Db, op: Operation)
    requires Balanced(db.records) && TwoTeams(op)
    ensures Balanced(Perform(db, op).records)
  {
    hide PlanFor, Records, Balanced;
    match op
    case Seed(s) =>
      AppendBalanced(db.records, |db.revisions|, s.game, s.tournament, s.homeTeam, s.awayTeam, s.score, s.playedAt,
                     s.recordedAt);
    case Repair(i) =>
      AppendBalanced(db.records, |db.revisions|, i.game, i.tournament, i.homeTeam, i.awayTeam, i.score, i.scheduledAt,
                     i.recordedAt);
  }

  lemma AppendBalanced(records: seq<TeamRecord>, revision: nat, game: nat, tournament: nat, home: nat, away: nat,
                       score: Score, playedAt: nat, officialAt: nat)
    requires Balanced(records) && home != away
    ensures Balanced(records + Records(revision, game, tournament, home, away, score, playedAt, officialAt))
  {
    RecordsBalancedIff(revision, game, tournament, home, away, score, playedAt, officialAt);
    TotalsConcat(records, Records(revision, game, tournament, home, away, score, playedAt, officialAt));
  }
}

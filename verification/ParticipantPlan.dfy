/** showcase-result-participant-plan.ts: the result rows a game should have once both representatives are in. */
module ParticipantPlan {
  import opened Prelude

  datatype Cards = Counted(yellow: nat, red: nat) | Stored(json: string)
  datatype ResultRow = ResultRow(participant: nat, side: nat, started: bool, minutesPlayed: Option<nat>, goals: int,
                                 assists: int, fouls: int, cards: Cards, goalkeeper: bool)

  datatype PlanInput = PlanInput(homeSide: nat, awaySide: nat, homeParticipant: nat, awayParticipant: nat,
                                 homeScore: int, awayScore: int, currentRows: seq<ResultRow>)
  datatype Plan = Plan(requiresRevision: bool, rows: seq<ResultRow>)

  predicate Has(rows: seq<ResultRow>, participant: nat) {
    exists row :: row in rows && row.participant == participant
  }

  function Participants(rows: seq<ResultRow>): set<nat> {
    set row | row in rows :: row.participant
  }

  function SideGoals(rows: seq<ResultRow>, side: nat): int {
    if rows == [] then 0
    else SideGoals(rows[..|rows| - 1], side) + if rows[|rows| - 1].side == side then rows[|rows| - 1].goals else 0
  }

  function Max(a: int, b: int): int { if a > b then a else b }

  function Representative(rows: seq<ResultRow>, participant: nat, side: nat, score: int): ResultRow {
    ResultRow(participant, side, true, Some(40), Max(0, score - SideGoals(rows, side)), 0, 0, Counted(0, 0), false)
  }

  function WithRepresentative(rows: seq<ResultRow>, participant: nat, side: nat, score: int): seq<ResultRow> {
    if Has(rows, participant) then rows else rows + [Representative(rows, participant, side, score)]
  }

  function PlanFor(input: PlanInput): Plan {
    var home := WithRepresentative(input.currentRows, input.homeParticipant, input.homeSide, input.homeScore);
    var both := WithRepresentative(home, input.awayParticipant, input.awaySide, input.awayScore);
    Plan(|both| != |input.currentRows|, both)
  }

  /** The rows being planned and the participants already among them. */
  class PlanBuilder {
    var rows: seq<ResultRow>
    var currentIds: set<nat>

    ghost predicate Valid()
      reads this
    {
      currentIds == Participants(rows)
    }

    constructor (currentRows: seq<ResultRow>)
      ensures Valid() && rows == currentRows
    {
      rows := currentRows;
      currentIds := Participants(currentRows);
    }

    method AddPrimaryParticipant(participant: nat, side: nat, score: int)
      requires Valid()
      modifies this
      ensures Valid() && rows == WithRepresentative(old(rows), participant, side, score)
    {
      assert participant in currentIds <==> Has(rows, participant);
      if participant in currentIds { return; }
      var accounted := 0;
      for i := 0 to |rows|
        invariant accounted == SideGoals(rows[..i], side)
      {
        assert rows[..i + 1][..i] == rows[..i];
        if rows[i].side == side { accounted := accounted + rows[i].goals; }
      }
      assert rows[..|rows|] == rows;
      rows := rows
        + [ResultRow(participant, side, true, Some(40), Max(0, score - accounted), 0, 0, Counted(0, 0), false)];
      currentIds := currentIds + {participant};
      assert Participants(rows) == Participants(old(rows)) + {participant};
    }
  }

  method BuildPlan(input: PlanInput) returns (plan: Plan)
    ensures plan == PlanFor(input)
  {
    var builder := new PlanBuilder(input.currentRows);
    builder.AddPrimaryParticipant(input.homeParticipant, input.homeSide, input.homeScore);
    builder.AddPrimaryParticipant(input.awayParticipant, input.awaySide, input.awayScore);
    plan := Plan(|builder.rows| != |input.currentRows|, builder.rows);
  }

  /** A representative brings a side up to its score when it was below, and touches no other side. */
  lemma RepresentativeGoals(rows: seq<ResultRow>, participant: nat, side: nat, score: int, other: nat)
    ensures rows <= WithRepresentative(rows, participant, side, score)
    ensures Has(WithRepresentative(rows, participant, side, score), participant)
    ensures forall p :: Has(rows, p) ==> Has(WithRepresentative(rows, participant, side, score), p)
    ensures forall p :: p != participant && !Has(rows, p) ==>
      !Has(WithRepresentative(rows, participant, side, score), p)
    ensures SideGoals(WithRepresentative(rows, participant, side, score), other)
      == if Has(rows, participant) || other != side then SideGoals(rows, other) else Max(SideGoals(rows, side), score)
  {
    if !Has(rows, participant) {
      var row := Representative(rows, participant, side, score);
      var after := rows + [row];
      assert after[..|after| - 1] == rows;
      assert row in after;
      assert forall r :: r in rows ==> r in after;
    }
  }

  /** A side's goals are those of its rows added up. */
  lemma SideGoalsAddUp(rows: seq<ResultRow>, row: ResultRow, side: nat)
    ensures SideGoals([], side) == 0
    ensures SideGoals(rows + [row], side) == SideGoals(rows, side) + if row.side == side then row.goals else 0
  {
    assert (rows + [row])[..|rows|] == rows;
  }

  /** An added row is a starter of forty minutes with the goals its side is short of, and nothing else. */
  lemma RepresentativeRow(rows: seq<ResultRow>, participant: nat, side: nat, score: int)
    requires !exists row :: row in rows && row.participant == participant
    ensures var after := WithRepresentative(rows, participant, side, score);
      && |after| == |rows| + 1 && after[..|rows|] == rows
      && var row := after[|rows|];
      && row.participant == participant && row.side == side && row.started && row.minutesPlayed == Some(40)
      && row.goals >= 0 && (row.goals == 0 || row.goals == score - SideGoals(rows, side))
      && SideGoals(rows, side) + row.goals >= score
      && row.assists == 0 && row.fouls == 0 && row.cards == Counted(0, 0) && !row.goalkeeper
  {
  }

  /** Existing rows stay as a prefix, both representatives are in, a revision is asked for exactly when a row was
      added, and a side's goals change only when its representative was missing, and then only up to its score. */
  lemma PlanFacts(input: PlanInput)
    requires input.homeSide != input.awaySide
    ensures var before, plan := input.currentRows, PlanFor(input);
      && before <= plan.rows
      && Has(plan.rows, input.homeParticipant) && Has(plan.rows, input.awayParticipant)
      && (plan.requiresRevision <==> plan.rows != before)
      && (plan.requiresRevision <==> !Has(before, input.homeParticipant) || !Has(before, input.awayParticipant))
      && SideGoals(plan.rows, input.homeSide) == (
           if Has(before, input.homeParticipant) then SideGoals(before, input.homeSide)
           else Max(SideGoals(before, input.homeSide), input.homeScore))
      && SideGoals(plan.rows, input.awaySide) == (
           if Has(before, input.awayParticipant) || input.awayParticipant == input.homeParticipant
           then SideGoals(before, input.awaySide)
           else Max(SideGoals(before, input.awaySide), input.awayScore))
      && forall side :: side != input.homeSide && side != input.awaySide ==>
           SideGoals(plan.rows, side) == SideGoals(before, side)
  {
    hide SideGoals, Has, Representative;
    var before := input.currentRows;
    var home := WithRepresentative(before, input.homeParticipant, input.homeSide, input.homeScore);
    forall side: nat
      ensures SideGoals(home, side) == if Has(before, input.homeParticipant) || side != input.homeSide
        then SideGoals(before, side) else Max(SideGoals(before, input.homeSide), input.homeScore)
      ensures SideGoals(PlanFor(input).rows, side) == if Has(home, input.awayParticipant) || side != input.awaySide
        then SideGoals(home, side) else Max(SideGoals(home, input.awaySide), input.awayScore)
    {
      RepresentativeGoals(before, input.homeParticipant, input.homeSide, input.homeScore, side);
      RepresentativeGoals(home, input.awayParticipant, input.awaySide, input.awayScore, side);
    }
    RepresentativeGoals(before, input.homeParticipant, input.homeSide, input.homeScore, 0);
    RepresentativeGoals(home, input.awayParticipant, input.awaySide, input.awayScore, 0);
  }

  /** A revision is asked for exactly when a representative is missing, whatever the score. */
  lemma PlanFlagged(input: PlanInput)
    ensures PlanFor(input).requiresRevision
      <==> !Has(input.currentRows, input.homeParticipant) || !Has(input.currentRows, input.awayParticipant)
  {
    hide SideGoals, Has, Representative;
    RepresentativeGoals(input.currentRows, input.homeParticipant, input.homeSide, input.homeScore, 0);
    var home := WithRepresentative(input.currentRows, input.homeParticipant, input.homeSide, input.homeScore);
    RepresentativeGoals(home, input.awayParticipant, input.awaySide, input.awayScore, 0);
  }

  /** Planning on the planned rows adds nothing. */
  lemma PlanIsIdempotent(input: PlanInput)
    ensures PlanFor(input.(currentRows := PlanFor(input).rows)) == Plan(false, PlanFor(input).rows)
  {
    hide SideGoals, Has, Representative;
    var home := WithRepresentative(input.currentRows, input.homeParticipant, input.homeSide, input.homeScore);
    RepresentativeGoals(input.currentRows, input.homeParticipant, input.homeSide, input.homeScore, 0);
    RepresentativeGoals(home, input.awayParticipant, input.awaySide, input.awayScore, 0);
  }
}

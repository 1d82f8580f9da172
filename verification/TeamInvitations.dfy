/** `handOverTeamInvitations` of account-link.service.ts: pending invitations of a retired signup go to the caller. */
module TeamInvitations {
  import opened Prelude

  datatype Status = Pending | Accepted | Declined | Cancelled
  datatype Invitation = Invitation(id: nat, team: nat, invited: nat, invitedBy: nat, status: Status,
                                   respondedAt: Option<nat>)

  /** An active membership: (user, team). */
  type Memberships = set<(nat, nat)>

  predicate WaitsFor(row: Invitation, user: nat) { row.status == Pending && row.invited == user }

  predicate DistinctIds(rows: seq<Invitation>) {
    forall i, j :: 0 <= i < j < |rows| ==> rows[i].id != rows[j].id
  }

  /** The partial unique index: at most one pending invitation per team and person. */
  predicate OnePendingPerTeam(rows: seq<Invitation>, user: nat) {
    forall i, j :: 0 <= i < j < |rows| && WaitsFor(rows[i], user) && WaitsFor(rows[j], user) ==>
      rows[i].team != rows[j].team
  }

  function Waiting(rows: seq<Invitation>, user: nat): seq<Invitation> {
    if rows == [] then [] else (if WaitsFor(rows[0], user) then [rows[0]] else []) + Waiting(rows[1..], user)
  }

  /** Teams the caller is in or already has a pending invitation from. */
  function Covered(rows: seq<Invitation>, members: Memberships, caller: nat): set<nat> {
    (set m | m in members && m.0 == caller :: m.1) + (set row | row in rows && WaitsFor(row, caller) :: row.team)
  }

  /** What the loop has sorted the waiting invitations into so far. */
  datatype Split = Split(moved: set<nat>, redundant: set<nat>, covered: set<nat>)

  function Place(split: Split, row: Invitation, caller: nat): Split {
    if row.team in split.covered || row.invitedBy == caller
    then Split(split.moved, split.redundant + {row.id}, split.covered + {row.team})
    else Split(split.moved + {row.id}, split.redundant, split.covered + {row.team})
  }

  function PlaceAll(waiting: seq<Invitation>, covered: set<nat>, caller: nat): Split {
    if waiting == [] then Split({}, {}, covered)
    else Place(PlaceAll(waiting[..|waiting| - 1], covered, caller), waiting[|waiting| - 1], caller)
  }

  function Reassign(rows: seq<Invitation>, ids: set<nat>, caller: nat): seq<Invitation> {
    seq(|rows|, i requires 0 <= i < |rows| =>
      if rows[i].id in ids && rows[i].status == Pending then rows[i].(invited := caller) else rows[i])
  }

  function Cancel(rows: seq<Invitation>, ids: set<nat>, now: nat): seq<Invitation> {
    seq(|rows|, i requires 0 <= i < |rows| =>
      if rows[i].id in ids && rows[i].status == Pending
      then rows[i].(status := Cancelled, respondedAt := Some(now)) else rows[i])
  }

  function HandOver(rows: seq<Invitation>, members: Memberships, from: nat, caller: nat, now: nat)
    : (after: seq<Invitation>)
    ensures |after| == |rows|
  {
    var split := PlaceAll(Waiting(rows, from), Covered(rows, members, caller), caller);
    Cancel(Reassign(rows, split.moved, caller), split.redundant, now)
  }

  /** The table of invitations. */
  class InvitationTable {
    var rows: seq<Invitation>

    constructor (rows: seq<Invitation>)
      ensures this.rows == rows
    {
      this.rows := rows;
    }

    method HandOverTeamInvitations(members: Memberships, from: nat, caller: nat, now: nat)
      modifies this
      ensures rows == HandOver(old(rows), members, from, caller, now)
    {
      var waiting := Waiting(rows, from);
      UpdatingNothing(rows, caller, now);
      if |waiting| == 0 { return; }
      var covered := Covered(rows, members, caller);
      ghost var all := covered;
      var moved: set<nat>, redundant: set<nat> := {}, {};
      for i := 0 to |waiting|
        invariant PlaceAll(waiting[..i], all, caller) == Split(moved, redundant, covered)
      {
        var row := waiting[i];
        assert waiting[..i + 1][..i] == waiting[..i];
        if row.team in covered || row.invitedBy == caller {
          redundant := redundant + {row.id};
        } else {
          moved := moved + {row.id};
        }
        covered := covered + {row.team};
      }
      assert waiting[..|waiting|] == waiting;
      if |moved| > 0 { rows := Reassign(rows, moved, caller); }
      UpdatingNothing(rows, caller, now);
      if |redundant| > 0 { rows := Cancel(rows, redundant, now); }
    }
  }

  lemma UpdatingNothing(rows: seq<Invitation>, caller: nat, now: nat)
    ensures Reassign(rows, {}, caller) == rows && Cancel(rows, {}, now) == rows
  {
  }

  lemma {:induction false} WaitingMembers(rows: seq<Invitation>, user: nat)
    ensures forall row :: row in Waiting(rows, user) <==> row in rows && WaitsFor(row, user)
  {
    if rows != [] {
      WaitingMembers(rows[1..], user);
      assert rows == [rows[0]] + rows[1..];
    }
  }

  lemma {:induction false} WaitingDistinct(rows: seq<Invitation>, user: nat)
    ensures DistinctIds(rows) ==> DistinctIds(Waiting(rows, user))
    ensures OnePendingPerTeam(rows, user) ==> OnePendingPerTeam(Waiting(rows, user), user)
  {
    if rows != [] {
      var rest := Waiting(rows[1..], user);
      WaitingDistinct(rows[1..], user);
      WaitingMembers(rows[1..], user);
      if DistinctIds(rows) { IdIsNew(rows, rest); }
      if OnePendingPerTeam(rows, user) && WaitsFor(rows[0], user) { TeamIsNew(rows, rest, user); }
    }
  }

  lemma IdIsNew(rows: seq<Invitation>, some: seq<Invitation>)
    requires rows != [] && DistinctIds(rows) && forall row :: row in some ==> row in rows[1..]
    ensures forall i :: 0 <= i < |some| ==> some[i].id != rows[0].id
  {
    forall i | 0 <= i < |some|
      ensures some[i].id != rows[0].id
    {
      assert some[i] in some;
      var k :| 0 <= k < |rows[1..]| && rows[1..][k] == some[i];
      assert rows[k + 1] == some[i];
    }
  }

  lemma TeamIsNew(rows: seq<Invitation>, some: seq<Invitation>, user: nat)
    requires rows != [] && OnePendingPerTeam(rows, user) && WaitsFor(rows[0], user)
    requires forall row :: row in some ==> row in rows[1..] && WaitsFor(row, user)
    ensures forall i :: 0 <= i < |some| ==> some[i].team != rows[0].team
  {
    forall i | 0 <= i < |some|
      ensures some[i].team != rows[0].team
    {
      assert some[i] in some;
      var k :| 0 <= k < |rows[1..]| && rows[1..][k] == some[i];
      assert rows[k + 1] == some[i];
    }
  }

  // ---- what the loop decides ----

  function IdsOf(rows: seq<Invitation>): set<nat> { set row | row in rows :: row.id }

  function TeamsOf(rows: seq<Invitation>): set<nat> { set row | row in rows :: row.team }

  /** Each waiting invitation ends up in exactly one of the two lists. */
  lemma {:induction false} PlacedOnce(waiting: seq<Invitation>, covered: set<nat>, caller: nat)
    requires DistinctIds(waiting)
    ensures var split := PlaceAll(waiting, covered, caller);
      && split.moved !! split.redundant
      && split.moved + split.redundant == IdsOf(waiting)
      && split.covered == covered + TeamsOf(waiting)
  {
    if waiting != [] {
      var n := |waiting| - 1;
      var init, last := waiting[..n], waiting[n];
      PlacedOnce(init, covered, caller);
      assert waiting == init + [last];
      assert IdsOf(waiting) == IdsOf(init) + {last.id} && TeamsOf(waiting) == TeamsOf(init) + {last.team};
      assert last.id !in IdsOf(init);
    }
  }

  /** Number i is moved: nothing covered its team before it and the caller did not send it. */
  ghost predicate Moves(waiting: seq<Invitation>, covered: set<nat>, caller: nat, i: nat)
    requires i < |waiting|
  {
    waiting[i].team !in covered + TeamsOf(waiting[..i]) && waiting[i].invitedBy != caller
  }

  lemma {:induction false} MovedIff(waiting: seq<Invitation>, covered: set<nat>, caller: nat, i: nat)
    requires DistinctIds(waiting) && i < |waiting|
    ensures waiting[i].id in PlaceAll(waiting, covered, caller).moved <==> Moves(waiting, covered, caller, i)
  {
    var n := |waiting| - 1;
    var init := waiting[..n];
    PlacedOnce(init, covered, caller);
    if i < n {
      MovedIff(init, covered, caller, i);
      assert init[..i] == waiting[..i];
    } else {
      assert waiting[n].id !in IdsOf(init);
    }
  }

  // ---- what the hand-over leaves ----

  lemma HandOverRow(rows: seq<Invitation>, members: Memberships, from: nat, caller: nat, now: nat, i: nat)
    requires DistinctIds(rows) && i < |rows|
    ensures var row, after := rows[i], HandOver(rows, members, from, caller, now)[i];
      if !WaitsFor(row, from) then after == row
      else if row.id in PlaceAll(Waiting(rows, from), Covered(rows, members, caller), caller).moved
      then after == row.(invited := caller)
      else after == row.(status := Cancelled, respondedAt := Some(now))
  {
    var waiting := Waiting(rows, from);
    var split := PlaceAll(waiting, Covered(rows, members, caller), caller);
    WaitingMembers(rows, from);
    WaitingDistinct(rows, from);
    PlacedOnce(waiting, Covered(rows, members, caller), caller);
    if rows[i].id in IdsOf(waiting) {
      var w :| w in waiting && w.id == rows[i].id;
      var j :| 0 <= j < |rows| && rows[j] == w;
      assert i == j;
    }
  }

  /** Afterwards the retired account has no pending invitation; each one it had now waits for the caller or is
      cancelled, and no other invitation changed. */
  lemma NothingLeftWaiting(rows: seq<Invitation>, members: Memberships, from: nat, caller: nat, now: nat)
    requires DistinctIds(rows) && from != caller
    ensures var after := HandOver(rows, members, from, caller, now);
      && DistinctIds(after)
      && (forall i :: 0 <= i < |after| ==> !WaitsFor(after[i], from))
      && (forall i :: 0 <= i < |rows| ==>
            if WaitsFor(rows[i], from)
            then after[i] == rows[i].(invited := caller)
              || after[i] == rows[i].(status := Cancelled, respondedAt := Some(now))
            else after[i] == rows[i])
  {
    hide HandOver, PlaceAll, Waiting, Covered;
    var after := HandOver(rows, members, from, caller, now);
    forall i | 0 <= i < |rows|
      ensures !WaitsFor(after[i], from) && after[i].id == rows[i].id
      ensures if WaitsFor(rows[i], from)
        then after[i] == rows[i].(invited := caller)
          || after[i] == rows[i].(status := Cancelled, respondedAt := Some(now))
        else after[i] == rows[i]
    {
      HandOverRow(rows, members, from, caller, now, i);
    }
  }

  /** An invitation is moved only for a team the caller is not in and has no pending invitation from, and never one
      the caller sent; under the unique index those are exactly the ones moved. */
  lemma MovedExactly(rows: seq<Invitation>, members: Memberships, from: nat, caller: nat, now: nat, i: nat)
    requires DistinctIds(rows) && OnePendingPerTeam(rows, from) && i < |rows| && WaitsFor(rows[i], from)
      && from != caller
    ensures WaitsFor(HandOver(rows, members, from, caller, now)[i], caller)
      <==> (caller, rows[i].team) !in members && rows[i].invitedBy != caller
           && !exists j :: 0 <= j < |rows| && WaitsFor(rows[j], caller) && rows[j].team == rows[i].team
  {
    var waiting, covered := Waiting(rows, from), Covered(rows, members, caller);
    var k := PlaceOfRow(rows, members, from, caller, now, i);
    WaitingDistinct(rows, from);
    WaitingMembers(rows, from);
    assert rows[i].team !in TeamsOf(waiting[..k]);
    CoveredIff(rows, members, caller, rows[i].team);
  }

  /** Where a waiting row stands in the loop, and what the loop decides there. */
  lemma PlaceOfRow(rows: seq<Invitation>, members: Memberships, from: nat, caller: nat, now: nat, i: nat)
    returns (k: nat)
    requires DistinctIds(rows) && i < |rows| && WaitsFor(rows[i], from) && from != caller
    ensures k < |Waiting(rows, from)| && Waiting(rows, from)[k] == rows[i]
    ensures WaitsFor(HandOver(rows, members, from, caller, now)[i], caller)
      <==> Moves(Waiting(rows, from), Covered(rows, members, caller), caller, k)
  {
    hide PlaceAll, Covered, HandOver, Moves;
    WaitingMembers(rows, from);
    WaitingDistinct(rows, from);
    k :| 0 <= k < |Waiting(rows, from)| && Waiting(rows, from)[k] == rows[i];
    HandOverRow(rows, members, from, caller, now, i);
    MovedIff(Waiting(rows, from), Covered(rows, members, caller), caller, k);
  }

  lemma CoveredIff(rows: seq<Invitation>, members: Memberships, caller: nat, team: nat)
    ensures team in Covered(rows, members, caller)
      <==> (caller, team) in members || exists j :: 0 <= j < |rows| && WaitsFor(rows[j], caller) && rows[j].team == team
  {
    if (caller, team) in members {
      assert (caller, team).1 == team;
    }
  }

  /** The caller still has at most one pending invitation per team, even if the retired account had two for one. */
  lemma CallerKeepsOnePending(rows: seq<Invitation>, members: Memberships, from: nat, caller: nat, now: nat)
    requires DistinctIds(rows) && from != caller && OnePendingPerTeam(rows, caller)
    ensures OnePendingPerTeam(HandOver(rows, members, from, caller, now), caller)
  {
    hide HandOver, Waiting, Covered;
    var after := HandOver(rows, members, from, caller, now);
    NothingLeftWaiting(rows, members, from, caller, now);
    forall i, j | 0 <= i < j < |after| && WaitsFor(after[i], caller) && WaitsFor(after[j], caller)
      ensures after[i].team != after[j].team
    {
      if WaitsFor(rows[i], from) && WaitsFor(rows[j], from) {
        TwoMovedDiffer(rows, members, from, caller, now, i, j);
      } else if WaitsFor(rows[i], from) {
        MovedTeamIsNew(rows, members, from, caller, now, i, j);
      } else if WaitsFor(rows[j], from) {
        MovedTeamIsNew(rows, members, from, caller, now, j, i);
      }
    }
  }

  lemma TwoMovedDiffer(rows: seq<Invitation>, members: Memberships, from: nat, caller: nat, now: nat, i: nat, j: nat)
    requires DistinctIds(rows) && from != caller && i < |rows| && j < |rows| && i != j
    requires WaitsFor(rows[i], from) && WaitsFor(rows[j], from)
    requires WaitsFor(HandOver(rows, members, from, caller, now)[i], caller)
    requires WaitsFor(HandOver(rows, members, from, caller, now)[j], caller)
    ensures rows[i].team != rows[j].team
  {
    hide HandOver, Waiting, Covered;
    var waiting := Waiting(rows, from);
    var k := PlaceOfRow(rows, members, from, caller, now, i);
    var l := PlaceOfRow(rows, members, from, caller, now, j);
    assert k != l;
    if k < l {
      assert waiting[..l][k] == rows[i];
    } else {
      assert waiting[..k][l] == rows[j];
    }
  }

  lemma MovedTeamIsNew(rows: seq<Invitation>, members: Memberships, from: nat, caller: nat, now: nat, i: nat, j: nat)
    requires DistinctIds(rows) && from != caller && i < |rows| && j < |rows|
    requires WaitsFor(rows[i], from) && WaitsFor(HandOver(rows, members, from, caller, now)[i], caller)
    requires WaitsFor(rows[j], caller)
    ensures rows[i].team != rows[j].team
  {
    hide HandOver, Waiting, Covered;
    var k := PlaceOfRow(rows, members, from, caller, now, i);
    CoveredIff(rows, members, caller, rows[i].team);
  }
}

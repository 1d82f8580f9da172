/** The two lists of DELETE statements cleanup-demo-data.ts ships, and the proof that their order always commits. */
module ShippedDeletions {
  import opened CleanupTables
  import opened DemoCleanup
  import opened ClauseMeaning

  const SEED_ID := Like("id", StartsWith("00000000-"))

  const STANDARD_1: seq<Statement> := [
    Statement(MatchParticipants, AnyOf([SEED_ID, InCandidates("match_id", SeedMatches), InCandidates("user_id",
      SeedUsers)])),
    Statement(MatchApplications, AnyOf([SEED_ID, InCandidates("match_id", SeedMatches),
      InCandidates("applicant_user_id", SeedUsers), InCandidates("reviewed_by_user_id", SeedUsers)])),
    Statement(PickupMatches, InCandidates("id", SeedMatches)),
    Statement(AdminActionLogs, AnyOf([SEED_ID, InCandidates("admin_user_id", SeedAdminUsers), Like("target_id",
      StartsWith("00000000-")), Like("target_id", Is("seed-coverage"))])),
    Statement(StatusChangeLogs, AnyOf([SEED_ID, InCandidates("actor_user_id", SeedUsers),
      InCandidates("admin_user_id", SeedAdminUsers), Like("target_id", StartsWith("00000000-")), Like("target_id",
      Is("seed-coverage"))]))
  ]

  const STANDARD_2: seq<Statement> := [
    Statement(VerificationTokens, AnyOf([SEED_ID, InCandidates("user_id", SeedUsers)])),
    Statement(PushSubscriptions, InCandidates("user_id", SeedUsers)),
    Statement(PushDevices, InCandidates("user_id", SeedUsers)),
    Statement(UploadAssets, InCandidates("owner_user_id", SeedUsers)),
    Statement(TeamLineupPresetEntries, InTable("preset_id", TeamLineupPresets, InCandidates("team_id", SeedTeams)))
  ]

  const STANDARD_3: seq<Statement> := [
    Statement(TeamLineupPresets, InCandidates("team_id", SeedTeams)),
    Statement(TeamContactBlocks, AnyOf([InCandidates("team_id", SeedTeams), InCandidates("blocked_team_id",
      SeedTeams), InCandidates("created_by_user_id", SeedUsers)])),
    Statement(TeamContacts, AnyOf([InCandidates("from_team_id", SeedTeams), InCandidates("to_team_id", SeedTeams),
      InCandidates("requested_by_user_id", SeedUsers)])),
    Statement(InquiryReplies, InTable("inquiry_id", Inquiries, AnyOf([InCandidates("user_id", SeedUsers),
      InCandidates("reported_team_id", SeedTeams)])))
  ]

  const STANDARD_4: seq<Statement> := [
    Statement(Inquiries, AnyOf([InCandidates("user_id", SeedUsers), InCandidates("reported_team_id", SeedTeams)])),
    Statement(WebPushFailureLogs, AnyOf([InCandidates("user_id", SeedUsers), InCandidates("acknowledged_by",
      SeedUsers)])),
    Statement(Notices, AnyOf([SEED_ID, Like("body", Includes("seed data"))]))
  ]

  const DELETION_1: seq<Statement> := [
    Statement(OutboxEvents, AnyOf([InCandidates("aggregate_id", SeedGames), InCandidates("aggregate_id",
      SeedTeamMatches), InCandidates("aggregate_id", SeedTournaments)])),
    Statement(IdempotencyRecords, AnyOf([InCandidates("resource_id", SeedGames), InCandidates("resource_id",
      SeedTeamMatches), InCandidates("resource_id", SeedTournaments)])),
    Statement(ProjectionWatermarks, AnyOf([InCandidates("entity_id", SeedGames), InCandidates("entity_id",
      SeedTeamMatches), InCandidates("entity_id", SeedTournaments)])),
    Statement(GameEvents, InCandidates("game_id", SeedGames))
  ]

  const DELETION_2: seq<Statement> := [
    Statement(ParticipantIdentityLinkCurrent, InTable("participant_id", GameParticipants, InCandidates("game_id",
      SeedGames))),
    Statement(GameResultDecisions, InTable("revision_id", GameResultRevisions, InCandidates("game_id", SeedGames))),
    Statement(GameResultParticipants, InTable("result_revision_id", GameResultRevisions, InCandidates("game_id",
      SeedGames)))
  ]

  const DELETION_3: seq<Statement> := [
    Statement(ResultEscalations, InTable("result_revision_id", GameResultRevisions, InCandidates("game_id",
      SeedGames))),
    Statement(GameResultRevisions, InCandidates("game_id", SeedGames)),
    Statement(TeamTacticsBoardEntries, InTable("board_id", TeamTacticsBoards, InCandidates("game_id", SeedGames))),
    Statement(TeamTacticsBoards, InCandidates("game_id", SeedGames))
  ]

  const DELETION_4: seq<Statement> := [
    Statement(GameParticipants, InCandidates("game_id", SeedGames)),
    Statement(GameLineups, InCandidates("game_id", SeedGames)),
    Statement(GamePeriods, InCandidates("game_id", SeedGames)),
    Statement(GameSides, InCandidates("game_id", SeedGames)),
    Statement(GameVisibilityPolicies, InCandidates("game_id", SeedGames)),
    Statement(Games, InCandidates("id", SeedGames))
  ]

  const DELETION_5: seq<Statement> := [
    Statement(TournamentAwards, InCandidates("tournament_id", SeedTournaments)),
    Statement(TournamentReviews, InCandidates("tournament_id", SeedTournaments)),
    Statement(PostEventReviewTags, InTable("review_id", PostEventReviews, AnyOf([SEED_ID,
      InCandidates("reviewer_user_id", SeedUsers), InCandidates("target_user_id", SeedUsers),
      InCandidates("reviewer_team_id", SeedTeams), InCandidates("target_team_id", SeedTeams), Like("source_id",
      StartsWith("00000000-")), InCandidates("source_id", SeedTeamMatches)]))),
    Statement(PostEventReviewMetricScores, InTable("review_id", PostEventReviews, AnyOf([SEED_ID,
      InCandidates("reviewer_user_id", SeedUsers), InCandidates("target_user_id", SeedUsers),
      InCandidates("reviewer_team_id", SeedTeams), InCandidates("target_team_id", SeedTeams), Like("source_id",
      StartsWith("00000000-")), InCandidates("source_id", SeedTeamMatches)])))
  ]

  const DELETION_6: seq<Statement> := [
    Statement(PostEventReviewRiskFlags, InTable("review_id", PostEventReviews, AnyOf([SEED_ID,
      InCandidates("reviewer_user_id", SeedUsers), InCandidates("target_user_id", SeedUsers),
      InCandidates("reviewer_team_id", SeedTeams), InCandidates("target_team_id", SeedTeams), Like("source_id",
      StartsWith("00000000-")), InCandidates("source_id", SeedTeamMatches)]))),
    Statement(PostEventReviews, AnyOf([SEED_ID, InCandidates("reviewer_user_id", SeedUsers),
      InCandidates("target_user_id", SeedUsers), InCandidates("reviewer_team_id", SeedTeams),
      InCandidates("target_team_id", SeedTeams), Like("source_id", StartsWith("00000000-")),
      InCandidates("source_id", SeedTeamMatches)])),
    Statement(TournamentAnnouncements, InCandidates("tournament_id", SeedTournaments)),
    Statement(TournamentSponsors, InCandidates("tournament_id", SeedTournaments)),
    Statement(TournamentPopups, InCandidates("tournament_id", SeedTournaments))
  ]

  const DELETION_7: seq<Statement> := [
    Statement(TournamentCampaigns, InCandidates("tournament_id", SeedTournaments)),
    Statement(TournamentPayments, InCandidates("registration_id", SeedRegistrations)),
    Statement(TournamentPlayers, AnyOf([InCandidates("registration_id", SeedRegistrations), InCandidates("user_id",
      SeedUsers)]))
  ]

  const DELETION_8: seq<Statement> := [
    Statement(TournamentGroupTeams, AnyOf([InTable("group_id", TournamentGroups, InCandidates("tournament_id",
      SeedTournaments)), InCandidates("registration_id", SeedRegistrations)]))
  ]

  const DELETION_9: seq<Statement> := [
    Statement(TournamentStandings, AnyOf([InTable("group_id", TournamentGroups, InCandidates("tournament_id",
      SeedTournaments)), InCandidates("registration_id", SeedRegistrations)])),
    Statement(TournamentOverallStandings, InCandidates("registration_id", SeedRegistrations)),
    Statement(TournamentMatchAdvancementEdges, InCandidates("tournament_id", SeedTournaments))
  ]

  const DELETION_10: seq<Statement> := [
    Statement(TournamentMatchDetails, InCandidates("tournament_id", SeedTournaments)),
    Statement(TournamentStaffFixtureScopes, InTable("assignment_id", TournamentStaffAssignments,
      InCandidates("tournament_id", SeedTournaments))),
    Statement(TournamentStaffAssignments, InCandidates("tournament_id", SeedTournaments)),
    Statement(ChatRoomParticipants, AnyOf([InCandidates("chat_room_id", SeedChatRooms), InCandidates("user_id",
      SeedUsers)]))
  ]

  const DELETION_11: seq<Statement> := [
    Statement(ChatMessages, AnyOf([InCandidates("chat_room_id", SeedChatRooms), InCandidates("sender_user_id",
      SeedUsers)])),
    Statement(ChatRooms, InCandidates("id", SeedChatRooms)),
    Statement(Notifications, AnyOf([SEED_ID, InCandidates("recipient_user_id", SeedUsers), Like("target_id",
      StartsWith("00000000-")), InCandidates("target_id", SeedGames), InCandidates("target_id", SeedTeamMatches),
      InCandidates("target_id", SeedTournaments)])),
    Statement(NotificationPreferences, InCandidates("user_id", SeedUsers)),
    Statement(SearchHistories, InCandidates("user_id", SeedUsers))
  ]

  const DELETION_12: seq<Statement> := [
    Statement(UserReputationSummaries, AnyOf([InCandidates("user_id", SeedUsers), Like("source_label",
      StartsWith("seed"))])),
    Statement(UserRegions, InCandidates("user_id", SeedUsers)),
    Statement(UserSportPreferences, InCandidates("user_id", SeedUsers)),
    Statement(UserTermsConsents, InCandidates("user_id", SeedUsers)),
    Statement(UserOnboardingProgress, InCandidates("user_id", SeedUsers)),
    Statement(TournamentGroups, InCandidates("tournament_id", SeedTournaments))
  ]

  const DELETION_13: seq<Statement> := [
    Statement(TournamentRegistrations, InCandidates("id", SeedRegistrations)),
    Statement(TeamMatchVideos, InCandidates("team_match_id", SeedTeamMatches)),
    Statement(TeamMatchApplications, AnyOf([SEED_ID, InCandidates("team_match_id", SeedTeamMatches),
      InCandidates("applicant_team_id", SeedTeams), InCandidates("applied_by_user_id", SeedUsers),
      InCandidates("reviewed_by_user_id", SeedUsers)])),
    Statement(TournamentStaffFixtureScopes, InCandidates("team_match_id", SeedTeamMatches)),
    Statement(TeamMatches, InCandidates("id", SeedTeamMatches)),
    Statement(Tournaments, InCandidates("id", SeedTournaments))
  ]

  const DELETION_14: seq<Statement> := [
    Statement(TeamProfiles, InCandidates("team_id", SeedTeams)),
    Statement(TeamTrustScores, AnyOf([InCandidates("team_id", SeedTeams), Like("source_label", StartsWith("seed"))])),
    Statement(TeamMemberships, InCandidates("team_id", SeedTeams)),
    Statement(TeamJoinApplications, AnyOf([SEED_ID, InCandidates("team_id", SeedTeams),
      InCandidates("applicant_user_id", SeedUsers), InCandidates("reviewed_by_user_id", SeedUsers)])),
    Statement(TeamInvitations, AnyOf([SEED_ID, InCandidates("team_id", SeedTeams), InCandidates("invited_user_id",
      SeedUsers), InCandidates("invited_by_user_id", SeedUsers)]))
  ]

  const DELETION_15: seq<Statement> := [
    Statement(TeamInviteLinks, AnyOf([InCandidates("team_id", SeedTeams), InCandidates("created_by_user_id",
      SeedUsers)])),
    Statement(TeamMemberships, AnyOf([SEED_ID, InCandidates("team_id", SeedTeams), InCandidates("user_id",
      SeedUsers), InCandidates("removed_by_user_id", SeedUsers)])),
    Statement(Teams, InCandidates("id", SeedTeams)),
    Statement(AdminUsers, InCandidates("id", SeedAdminUsers)),
    Statement(UserProfiles, InCandidates("user_id", SeedUsers))
  ]

  const DELETION_16: seq<Statement> := [
    Statement(UserRecordConsents, InCandidates("user_id", SeedUsers)),
    Statement(AuthIdentities, AnyOf([SEED_ID, InCandidates("user_id", SeedUsers), Like("provider_user_key",
      EndsWith("@teameet.v1")), Like("email", EndsWith("@teameet.v1"))])),
    Statement(Users, InCandidates("id", SeedUsers))
  ]

  /** `standardDeletionSql`. */
  const STANDARD_DELETION: seq<Statement> := STANDARD_1 + STANDARD_2 + STANDARD_3 + STANDARD_4

  /** `deletionSql`. */
  const DELETION: seq<Statement> :=
    DELETION_1 + DELETION_2 + DELETION_3 + DELETION_4 + DELETION_5 + DELETION_6 + DELETION_7 + DELETION_8
    + DELETION_9 + DELETION_10 + DELETION_11 + DELETION_12 + DELETION_13 + DELETION_14 + DELETION_15 + DELETION_16

  /** The number of the last statement that looks for rows of this table in a sub-select. */
  function LastRead(t: Table): nat {
    match t
    case TeamLineupPresets => 9
    case Inquiries => 13
    case GameParticipants => 21
    case GameResultRevisions => 24
    case TeamTacticsBoards => 26
    case PostEventReviews => 38
    case TournamentGroups => 47
    case TournamentStaffAssignments => 51
    case _ => 0
  }

  /** Every table the clause reads is still read by a statement numbered `k` or later. */
  predicate ReadsInTime(w: Where, k: nat) {
    forall x :: x in Alternatives(w) ==> Simple(x) || (x.InTable? && Flat(x.sub) && k <= LastRead(x.table))
  }

  /** Statement number `k` comes after the last read of its own table and not after the last read of those it reads. */
  predicate InPlace(st: Statement, k: nat) {
    LastRead(st.table) <= k && ReadsInTime(st.where, k)
  }

  lemma ReadsInTimeCoversAll(w: Where, k: nat)
    requires ReadsInTime(w, k)
    ensures forall t :: t in Reads(w) ==> k <= LastRead(t)
  {
    forall x | x in Alternatives(w)
      ensures forall t :: t in Reads(x) ==> k <= LastRead(t)
    {
      if x.InTable? { FlatReadsNothing(x.sub); }
    }
    assert !w.AnyOf? ==> w in Alternatives(w);
  }

  lemma FlatReadsNothing(w: Where)
    requires Flat(w)
    ensures Reads(w) == {}
  {
    if w.AnyOf? {
      assert forall x :: x in w.conditions ==> Reads(x) == {};
    } else {
      assert w in Alternatives(w);
    }
  }

  ghost predicate Block(sts: seq<Statement>, first: nat) {
    forall i :: 0 <= i < |sts| ==> InPlace(sts[i], first + i)
  }

  lemma BlocksJoin(a: seq<Statement>, b: seq<Statement>, first: nat)
    requires Block(a, first) && Block(b, first + |a|)
    ensures Block(a + b, first)
  {
    assert forall i :: |a| <= i < |a + b| ==> (a + b)[i] == b[i - |a|] && first + i == first + |a| + (i - |a|);
  }

  lemma Standard1InPlace()
    ensures Block(STANDARD_1, 0) && |STANDARD_1| == 5
  {
    assert InPlace(STANDARD_1[0], 0);
    assert InPlace(STANDARD_1[1], 1);
    assert InPlace(STANDARD_1[3], 3);
    assert InPlace(STANDARD_1[4], 4);
  }

  lemma Standard2InPlace()
    ensures Block(STANDARD_2, 5) && |STANDARD_2| == 5
  {
    assert InPlace(STANDARD_2[0], 5);
    assert InPlace(STANDARD_2[4], 9);
  }

  lemma Standard3InPlace()
    ensures Block(STANDARD_3, 10) && |STANDARD_3| == 4
  {
    assert InPlace(STANDARD_3[1], 11);
    assert InPlace(STANDARD_3[2], 12);
    assert InPlace(STANDARD_3[3], 13);
  }

  lemma Standard4InPlace()
    ensures Block(STANDARD_4, 14) && |STANDARD_4| == 3
  {
    assert InPlace(STANDARD_4[0], 14);
    assert InPlace(STANDARD_4[1], 15);
    assert InPlace(STANDARD_4[2], 16);
  }

  lemma Deletion1InPlace()
    ensures Block(DELETION_1, 17) && |DELETION_1| == 4
  {
    assert InPlace(DELETION_1[0], 17);
    assert InPlace(DELETION_1[1], 18);
    assert InPlace(DELETION_1[2], 19);
  }

  lemma Deletion2InPlace()
    ensures Block(DELETION_2, 21) && |DELETION_2| == 3
  {
    assert InPlace(DELETION_2[0], 21);
    assert InPlace(DELETION_2[1], 22);
    assert InPlace(DELETION_2[2], 23);
  }

  lemma Deletion3InPlace()
    ensures Block(DELETION_3, 24) && |DELETION_3| == 4
  {
    assert InPlace(DELETION_3[0], 24);
    assert InPlace(DELETION_3[2], 26);
  }

  lemma Deletion4InPlace()
    ensures Block(DELETION_4, 28) && |DELETION_4| == 6
  {
  }

  lemma Deletion5InPlace()
    ensures Block(DELETION_5, 34) && |DELETION_5| == 4
  {
    assert InPlace(DELETION_5[2], 36);
    assert InPlace(DELETION_5[3], 37);
  }

  lemma Deletion6InPlace()
    ensures Block(DELETION_6, 38) && |DELETION_6| == 5
  {
    assert InPlace(DELETION_6[0], 38);
    assert InPlace(DELETION_6[1], 39);
  }

  lemma Deletion7InPlace()
    ensures Block(DELETION_7, 43) && |DELETION_7| == 3
  {
    assert InPlace(DELETION_7[2], 45);
  }

  lemma Deletion8InPlace()
    ensures Block(DELETION_8, 46) && |DELETION_8| == 1
  {
    assert InPlace(DELETION_8[0], 46);
  }

  lemma Deletion9InPlace()
    ensures Block(DELETION_9, 47) && |DELETION_9| == 3
  {
    assert InPlace(DELETION_9[0], 47);
  }

  lemma Deletion10InPlace()
    ensures Block(DELETION_10, 50) && |DELETION_10| == 4
  {
    assert InPlace(DELETION_10[1], 51);
    assert InPlace(DELETION_10[3], 53);
  }

  lemma Deletion11InPlace()
    ensures Block(DELETION_11, 54) && |DELETION_11| == 5
  {
    assert InPlace(DELETION_11[0], 54);
    assert InPlace(DELETION_11[2], 56);
  }

  lemma Deletion12InPlace()
    ensures Block(DELETION_12, 59) && |DELETION_12| == 6
  {
    assert InPlace(DELETION_12[0], 59);
  }

  lemma Deletion13InPlace()
    ensures Block(DELETION_13, 65) && |DELETION_13| == 6
  {
    assert InPlace(DELETION_13[2], 67);
  }

  lemma Deletion14InPlace()
    ensures Block(DELETION_14, 71) && |DELETION_14| == 5
  {
    assert InPlace(DELETION_14[1], 72);
    assert InPlace(DELETION_14[3], 74);
    assert InPlace(DELETION_14[4], 75);
  }

  lemma Deletion15InPlace()
    ensures Block(DELETION_15, 76) && |DELETION_15| == 5
  {
    assert InPlace(DELETION_15[0], 76);
    assert InPlace(DELETION_15[1], 77);
  }

  lemma Deletion16InPlace()
    ensures Block(DELETION_16, 81) && |DELETION_16| == 3
  {
    assert InPlace(DELETION_16[1], 82);
  }

  lemma StandardInPlace()
    ensures Block(STANDARD_DELETION, 0) && |STANDARD_DELETION| == 17
  {
    hide Block;
    Standard1InPlace();
    Standard2InPlace();
    Standard3InPlace();
    Standard4InPlace();
    var block := STANDARD_1;
    BlocksJoin(block, STANDARD_2, 0);
    block := block + STANDARD_2;
    BlocksJoin(block, STANDARD_3, 0);
    block := block + STANDARD_3;
    BlocksJoin(block, STANDARD_4, 0);
    block := block + STANDARD_4;
  }

  lemma DeletionInPlace()
    ensures Block(DELETION, 17) && |DELETION| == 67
  {
    hide Block;
    Deletion1InPlace();
    Deletion2InPlace();
    Deletion3InPlace();
    Deletion4InPlace();
    Deletion5InPlace();
    Deletion6InPlace();
    Deletion7InPlace();
    Deletion8InPlace();
    Deletion9InPlace();
    Deletion10InPlace();
    Deletion11InPlace();
    Deletion12InPlace();
    Deletion13InPlace();
    Deletion14InPlace();
    Deletion15InPlace();
    Deletion16InPlace();
    var block := DELETION_1;
    BlocksJoin(block, DELETION_2, 17);
    block := block + DELETION_2;
    BlocksJoin(block, DELETION_3, 17);
    block := block + DELETION_3;
    BlocksJoin(block, DELETION_4, 17);
    block := block + DELETION_4;
    BlocksJoin(block, DELETION_5, 17);
    block := block + DELETION_5;
    BlocksJoin(block, DELETION_6, 17);
    block := block + DELETION_6;
    BlocksJoin(block, DELETION_7, 17);
    block := block + DELETION_7;
    BlocksJoin(block, DELETION_8, 17);
    block := block + DELETION_8;
    BlocksJoin(block, DELETION_9, 17);
    block := block + DELETION_9;
    BlocksJoin(block, DELETION_10, 17);
    block := block + DELETION_10;
    BlocksJoin(block, DELETION_11, 17);
    block := block + DELETION_11;
    BlocksJoin(block, DELETION_12, 17);
    block := block + DELETION_12;
    BlocksJoin(block, DELETION_13, 17);
    block := block + DELETION_13;
    BlocksJoin(block, DELETION_14, 17);
    block := block + DELETION_14;
    BlocksJoin(block, DELETION_15, 17);
    block := block + DELETION_15;
    BlocksJoin(block, DELETION_16, 17);
    block := block + DELETION_16;
  }

  /** The shipped order deletes children before the rows their sub-selects look for. */
  lemma ShippedOrderIsChildrenFirst()
    ensures ChildrenFirst(STANDARD_DELETION + DELETION)
  {
    StandardInPlace();
    DeletionInPlace();
    BlocksJoin(STANDARD_DELETION, DELETION, 0);
    BlockIsChildrenFirst(STANDARD_DELETION + DELETION);
  }

  lemma BlockIsChildrenFirst(sts: seq<Statement>)
    requires Block(sts, 0)
    ensures ChildrenFirst(sts)
  {
    hide InPlace, LastRead, ReadsInTime;
    forall i, j | 0 <= i < j < |sts|
      ensures sts[i].table !in Reads(sts[j].where)
    {
      InPlaceUnread(sts[i], i, sts[j], j);
    }
  }

  lemma ShippedIsShallow()
    ensures forall st :: st in STANDARD_DELETION + DELETION ==> Shallow(st.where)
  {
    hide LastRead;
    StandardInPlace();
    DeletionInPlace();
    BlocksJoin(STANDARD_DELETION, DELETION, 0);
    BlockIsShallow(STANDARD_DELETION + DELETION);
  }

  lemma BlockIsShallow(sts: seq<Statement>)
    requires Block(sts, 0)
    ensures forall st :: st in sts ==> Shallow(st.where)
  {
    forall i | 0 <= i < |sts|
      ensures Shallow(sts[i].where)
    {
      assert InPlace(sts[i], i);
    }
  }

  lemma InPlaceUnread(earlier: Statement, i: nat, later: Statement, j: nat)
    requires i < j && InPlace(earlier, i) && InPlace(later, j)
    ensures earlier.table !in Reads(later.where)
  {
    ReadsInTimeCoversAll(later.where, j);
  }

  /** The shipped script on any database with unique keys: confirmed and unprotected it always commits, deleting
      exactly the rows its statements match, and otherwise it changes nothing. */
  method CleanupDemoData(database: Database, execute: bool, confirmed: bool, protectedCount: nat,
                         keys: PrimaryKeys, c: Candidates)
    returns (outcome: Outcome)
    requires KeysUnique(database.rows, keys)
    modifies database
    ensures outcome == Committed <==>
      execute && confirmed && protectedCount == 0 && AllKeyed(STANDARD_DELETION + DELETION, keys)
    ensures database.rows == if outcome == Committed
      then old(database.rows) - Targets(STANDARD_DELETION + DELETION, old(database.rows), c)
      else old(database.rows)
    ensures outcome == Committed ==> forall r :: r in database.rows <==>
      r in old(database.rows) && !Selected(STANDARD_DELETION + DELETION, r, old(database.rows), c)
  {
    hide Targets, RunAll, AllKeyed, ChildrenFirst, Selected, Shallow;
    ShippedIsShallow();
    TargetsAreSelected(STANDARD_DELETION + DELETION, database.rows, c);
    ShippedOrderIsChildrenFirst();
    ChildrenFirstCommits(STANDARD_DELETION + DELETION, database.rows, c);
    CommitIsExact(STANDARD_DELETION + DELETION, database.rows, c);
    outcome := database.Cleanup(execute, confirmed, protectedCount, STANDARD_DELETION, DELETION, keys, c);
  }
}

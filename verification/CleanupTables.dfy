/** Tables, candidate tables and DELETE statements of cleanup-demo-data.ts. */
module CleanupTables {
  datatype Table =
    | MatchParticipants | MatchApplications | PickupMatches | AdminActionLogs | StatusChangeLogs | VerificationTokens
      | PushSubscriptions | PushDevices | UploadAssets | TeamLineupPresetEntries | TeamLineupPresets
      | TeamContactBlocks | TeamContacts | InquiryReplies | Inquiries | WebPushFailureLogs | Notices | OutboxEvents
      | IdempotencyRecords | ProjectionWatermarks | GameEvents | ParticipantIdentityLinkCurrent | GameParticipants
      | GameResultDecisions | GameResultRevisions | GameResultParticipants | ResultEscalations
      | TeamTacticsBoardEntries | TeamTacticsBoards | GameLineups | GamePeriods | GameSides | GameVisibilityPolicies
      | Games | TournamentAwards | TournamentReviews | PostEventReviewTags | PostEventReviews
      | PostEventReviewMetricScores | PostEventReviewRiskFlags | TournamentAnnouncements | TournamentSponsors
      | TournamentPopups | TournamentCampaigns | TournamentPayments | TournamentPlayers | TournamentGroupTeams
      | TournamentGroups | TournamentStandings | TournamentOverallStandings | TournamentMatchAdvancementEdges
      | TournamentMatchDetails | TournamentStaffFixtureScopes | TournamentStaffAssignments | ChatRoomParticipants
      | ChatMessages | ChatRooms | Notifications | NotificationPreferences | SearchHistories | UserReputationSummaries
      | UserRegions | UserSportPreferences | UserTermsConsents | UserOnboardingProgress | TournamentRegistrations
      | TeamMatchVideos | TeamMatchApplications | TeamMatches | Tournaments | TeamProfiles | TeamTrustScores
      | TeamMemberships | TeamJoinApplications | TeamInvitations | TeamInviteLinks | Teams | AdminUsers | UserProfiles
      | UserRecordConsents | AuthIdentities | Users

  /** The temporary tables of seed rows. */
  datatype Candidate =
    | SeedMatches | SeedUsers | SeedAdminUsers | SeedTeams | SeedGames | SeedTeamMatches | SeedTournaments
      | SeedRegistrations | SeedChatRooms

  datatype TextTest = StartsWith(text: string) | EndsWith(text: string) | Includes(text: string) | Is(text: string)

  /** A WHERE clause: every condition is positive, and a sub-select reads the ids of another table. */
  datatype Where =
    | Like(column: string, test: TextTest)
    | InCandidates(column: string, name: Candidate)
    | InTable(column: string, table: Table, sub: Where)
    | AnyOf(conditions: seq<Where>)

  datatype Statement = Statement(table: Table, where: Where)

  /** The tables a clause reads in its sub-selects. */
  function Reads(w: Where): set<Table> {
    match w
    case Like(_, _) => {}
    case InCandidates(_, _) => {}
    case InTable(_, table, sub) => {table} + Reads(sub)
    case AnyOf(conditions) => set x, t | x in conditions && t in Reads(x) :: t
  }
}

/** `sendManualPush` of admin-ops.service.ts as a whole: claim, deliver, then finalize or release. */
module ManualPush {
  import opened Prelude
  import opened BroadcastClaims
  import opened BroadcastDelivery

  /** Every account, and the active ones in id order. */
  datatype Accounts = Accounts(all: set<nat>, active: seq<nat>)

  datatype Target = ToUser(user: nat) | ToAll

  /** What the outside world does during one call: the clock at each reading, the user query that throws, if any, and
      whether finalizing or releasing reach the database. */
  datatype World = World(checkedAt: nat, writtenAt: nat, finishedAt: nat, faultAt: Option<nat>, finalizes: bool,
                         releases: bool)

  datatype Answer = UserNotFound | InProgress | Threw | Answered(result: BroadcastResult)

  function AnswerTo(records: Records, scope: Scope, target: Target, users: Accounts, send: nat -> Outcome,
                    w: World): Answer
  {
    match target
    case ToUser(user) =>
      if w.faultAt == Some(0) then Threw
      else if user !in users.all then UserNotFound else Answered(ResultOf([send(user)]))
    case ToAll =>
      match Decide(records, scope, w.checkedAt)
      case Replay(body) => Answered(body)
      case Busy => Answer.InProgress
      case Claimed =>
        if Faults(users.active, w.faultAt) then Threw else Answered(ResultOf(Outcomes(users.active, send)))
  }

  /** The users a notification is made for. */
  function Notified(records: Records, scope: Scope, target: Target, users: Accounts, w: World): seq<nat> {
    match target
    case ToUser(user) => if w.faultAt == Some(0) || user !in users.all then [] else [user]
    case ToAll => if Decide(records, scope, w.checkedAt) == Claimed then VisitedBy(users.active, w.faultAt) else []
  }

  function RecordsAfter(records: Records, scope: Scope, target: Target, users: Accounts, send: nat -> Outcome,
                        w: World): Records
  {
    if target.ToUser? || Decide(records, scope, w.checkedAt) != Claimed then records else
      var claimed := AfterClaim(records, scope, w.checkedAt, w.writtenAt);
      if Faults(users.active, w.faultAt) then (if w.releases then AfterRelease(claimed, scope) else claimed)
      else if w.finalizes then AfterFinalize(claimed, scope, ResultOf(Outcomes(users.active, send)), w.finishedAt)
        else claimed
  }

  method SendManualPush(store: IdempotencyStore, scope: Scope, target: Target, users: Accounts, send: nat -> Outcome,
                        w: World)
    returns (answer: Answer, notified: seq<nat>)
    requires Ascending(users.active)
    modifies store
    ensures answer == AnswerTo(old(store.records), scope, target, users, send, w)
    ensures notified == Notified(old(store.records), scope, target, users, w)
    ensures store.records == RecordsAfter(old(store.records), scope, target, users, send, w)
  {
    hide ResultOf, Outcomes, Faults, VisitedBy;
    match target {
      case ToUser(user) =>
        if w.faultAt == Some(0) { return Threw, []; }
        if user !in users.all { return UserNotFound, []; }
        var result := SendToUser(user, send);
        return Answered(result), [user];
      case ToAll =>
        var claim := store.ClaimBroadcast(scope, w.checkedAt, w.writtenAt);
        if claim.Replay? { return Answered(claim.body), []; }
        if claim.Busy? { return Answer.InProgress, []; }
        var visited, result := DeliverToAll(users.active, send, w.faultAt);
        if result == None {
          if w.releases { store.ReleaseBroadcastClaim(scope); }
          return Threw, visited;
        }
        if w.finalizes { store.FinalizeBroadcastClaim(scope, result.value, w.finishedAt); }
        return Answered(result.value), visited;
    }
  }

  method SendToUser(user: nat, send: nat -> Outcome) returns (result: BroadcastResult)
    ensures result == ResultOf([send(user)]) && IsTotal(result, [user], send)
  {
    var outcome := send(user);
    var push := new PushTally();
    push.Add(outcome.push);
    assert [outcome][..0] == [];
    assert TallyOf([outcome]) == AddSummary(TallyOf([]), outcome.push);
    assert forall kind :: CountOf([outcome], kind) == CountOf([], kind) + if outcome.kind == kind then 1 else 0;
    var count := (kind: Kind) => if outcome.kind == kind then 1 else 0;
    assert Outcomes([user], send) == [outcome];
    ResultIsTotal([user], send);
    result := BroadcastResult(count(Sent), count(Skipped), count(BroadcastDelivery.Failed), push.Value());
  }

  // ---- what a call answers ----

  /** A send to one user notifies that user, touches no record and answers for that user alone. */
  lemma SingleSend(records: Records, scope: Scope, user: nat, users: Accounts, send: nat -> Outcome, w: World)
    ensures RecordsAfter(records, scope, ToUser(user), users, send, w) == records
    ensures w.faultAt != Some(0) && user in users.all ==>
      && Notified(records, scope, ToUser(user), users, w) == [user]
      && AnswerTo(records, scope, ToUser(user), users, send, w).Answered?
      && IsTotal(AnswerTo(records, scope, ToUser(user), users, send, w).result, [user], send)
    ensures w.faultAt != Some(0) && user !in users.all ==>
      AnswerTo(records, scope, ToUser(user), users, send, w) == UserNotFound
    ensures w.faultAt == Some(0) || user !in users.all ==> Notified(records, scope, ToUser(user), users, w) == []
  {
    hide IsTotal;
    assert Outcomes([user], send) == [send(user)];
    ResultIsTotal([user], send);
  }

  /** A broadcast of content with an unexpired record that is in progress is refused, and does nothing. */
  lemma BusyDoesNothing(records: Records, scope: Scope, users: Accounts, send: nat -> Outcome, w: World)
    requires scope in records && records[scope].status == Status.InProgress && w.checkedAt < records[scope].expiresAt
    ensures AnswerTo(records, scope, ToAll, users, send, w) == Answer.InProgress
    ensures Notified(records, scope, ToAll, users, w) == []
      && RecordsAfter(records, scope, ToAll, users, send, w) == records
  {
  }

  /** A broadcast of content without an unexpired record answers with the totals over all active users, and is on record
      for ten minutes from its end. */
  lemma BroadcastIsRecorded(records: Records, scope: Scope, users: Accounts, send: nat -> Outcome, w: World)
    requires scope in records ==> records[scope].expiresAt <= w.checkedAt
    requires w.faultAt == None && w.finalizes
    ensures Notified(records, scope, ToAll, users, w) == users.active
    ensures AnswerTo(records, scope, ToAll, users, send, w).Answered?
    ensures var result := AnswerTo(records, scope, ToAll, users, send, w).result;
      && IsTotal(result, users.active, send)
      && RecordsAfter(records, scope, ToAll, users, send, w)
         == records[scope := Record(Done(result), w.finishedAt + 600_000)]
  {
    hide IsTotal, ResultOf, Outcomes;
    ResultIsTotal(users.active, send);
  }

  /** Sent but not recorded, the content is refused until ten minutes after its claim, and can be sent again then. */
  lemma UnrecordedBlocksUntilExpiry(records: Records, scope: Scope, users: Accounts, send: nat -> Outcome, w: World,
                                    at: nat)
    requires Decide(records, scope, w.checkedAt) == Claimed && !Faults(users.active, w.faultAt) && !w.finalizes
    ensures Decide(RecordsAfter(records, scope, ToAll, users, send, w), scope, at)
      == if at < w.writtenAt + 600_000 then Busy else Claimed
  {
  }

  // ---- one call after another ----

  /** Sent and recorded once, the same content sent again inside the window, to whatever users there are by then, sends
      nothing: it answers with the first result and leaves every record as it was. */
  lemma RepeatIsReplayed(records: Records, scope: Scope, users: Accounts, send: nat -> Outcome, w: World,
                         laterUsers: Accounts, laterSend: nat -> Outcome, later: World)
    requires Decide(records, scope, w.checkedAt) == Claimed && !Faults(users.active, w.faultAt) && w.finalizes
    requires later.checkedAt < w.finishedAt + 600_000
    ensures var between := RecordsAfter(records, scope, ToAll, users, send, w);
      && AnswerTo(between, scope, ToAll, laterUsers, laterSend, later)
        == Answered(ResultOf(Outcomes(users.active, send)))
      && Notified(between, scope, ToAll, laterUsers, later) == []
      && RecordsAfter(between, scope, ToAll, laterUsers, laterSend, later) == between
  {
  }

  /** After a failure with its claim released, the same content can be sent at once; unreleased, exactly from the moment
      the claim expires. */
  lemma FailureCanRetryIff(records: Records, scope: Scope, users: Accounts, send: nat -> Outcome, w: World, at: nat)
    requires Decide(records, scope, w.checkedAt) == Claimed && Faults(users.active, w.faultAt) && at > 0
    ensures Decide(RecordsAfter(records, scope, ToAll, users, send, w), scope, at) == Claimed
      <==> w.releases || at >= w.writtenAt + 600_000
  {
  }

  lemma {:induction false} TimesIn(users: seq<nat>, m: nat, k: nat)
    requires Ascending(users) && m <= |users| && k < |users|
    ensures multiset(users[..m])[users[k]] == if k < m then 1 else 0
  {
    if m > 0 {
      TimesIn(users, m - 1, k);
      assert users[..m] == users[..m - 1] + [users[m - 1]];
    }
  }

  /** What a failure costs: the retry that gets through starts over, so it reaches every user, and a second time exactly
      those on the pages delivered before the query that threw. */
  lemma RetryNotifiesTwiceIff(records: Records, scope: Scope, users: Accounts, send: nat -> Outcome, w: World,
                              retry: World, k: nat)
    requires Ascending(users.active) && k < |users.active|
    requires Decide(records, scope, w.checkedAt) == Claimed && Faults(users.active, w.faultAt)
    requires var between := RecordsAfter(records, scope, ToAll, users, send, w);
      Decide(between, scope, retry.checkedAt) == Claimed && !Faults(users.active, retry.faultAt)
    ensures var between := RecordsAfter(records, scope, ToAll, users, send, w);
      var first, second := Notified(records, scope, ToAll, users, w), Notified(between, scope, ToAll, users, retry);
      multiset(first + second)[users.active[k]] == if k < 30 * w.faultAt.value then 2 else 1
  {
    var done := CHUNK_SIZE * w.faultAt.value;
    TimesIn(users.active, done, k);
    TimesIn(users.active, |users.active|, k);
    assert users.active[..|users.active|] == users.active;
  }

  /** No broadcast touches the record of another admin or of other content. */
  lemma OtherScopesUntouched(records: Records, scope: Scope, other: Scope, target: Target, users: Accounts,
                             send: nat -> Outcome, w: World)
    requires other != scope
    ensures var after := RecordsAfter(records, scope, target, users, send, w);
      (other in after <==> other in records) && (other in records ==> after[other] == records[other])
  {
  }
}

/** Retention-bounded purging of guest inquiries in guest-inquiry-purge.service.ts, among the answers, edits and status
    changes of admin.service.ts that it runs beside. Times are milliseconds. */
module GuestInquiryPurge {
  import opened Prelude

  const DAY_MS := 24 * 60 * 60 * 1000
  const PURGED_INQUIRY_TEXT := "[보관 기간이 지나 파기된 문의]"
  const PURGED_INQUIRY_REPLY_TEXT := "[보관 기간이 지나 파기된 답변]"

  datatype Status = Received | Reviewing | Answered | Closed
  datatype Personal = Personal(guestEmail: Option<string>, guestPhone: Option<string>, contact: Option<string>,
                               title: string, body: string)

  /** The admin and the moment of a purge, written together. */
  datatype Stamp = Stamp(admin: nat, at: int)

  datatype Inquiry = Inquiry(user: Option<nat>, personal: Personal, status: Status, closedAt: Option<int>,
                             updatedAt: int, guestRetentionDays: Option<int>, purged: Option<Stamp>)
  datatype Reply = Reply(inquiry: nat, body: string)
  datatype EditLog = EditLog(reply: nat, before: string, after: string)
  datatype PurgeLog = PurgeLog(inquiry: nat, stamp: Stamp, retentionDays: int)

  datatype Db = Db(inquiries: map<nat, Inquiry>, replies: map<nat, Reply>, editLogs: map<nat, EditLog>,
                   purgeLogs: multiset<PurgeLog>)

  // ---- who may be purged ----

  predicate Completed(status: Status) { status == Answered || status == Closed }

  function CompletedAt(row: Inquiry): int {
    if row.status == Closed && row.closedAt.Some? then row.closedAt.value else row.updatedAt
  }

  function EffectiveRetentionDays(row: Inquiry, currentDays: int): int {
    if row.guestRetentionDays.Some? && row.guestRetentionDays.value < currentDays
    then row.guestRetentionDays.value else currentDays
  }

  predicate CompletedGuest(row: Inquiry) { row.user == None && row.purged == None && Completed(row.status) }

  predicate Candidate(row: Inquiry, now: int, currentDays: int) {
    CompletedGuest(row) && CompletedAt(row) + EffectiveRetentionDays(row, currentDays) * DAY_MS < now
  }

  /** No ids stand for every inquiry. */
  function Candidates(db: Db, requested: Option<set<nat>>, now: int, currentDays: int): set<nat> {
    set id |
      && id in db.inquiries && (requested == None || id in requested.value)
      && Candidate(db.inquiries[id], now, currentDays)
  }

  /** What a purge keeps between reading its targets and writing: their effective retention. */
  datatype Purge = Purge(stamp: Stamp, daysById: map<nat, int>)

  function ReadPurge(db: Db, stamp: Stamp, requested: Option<set<nat>>, currentDays: int): Purge {
    Purge(stamp, map id | id in Candidates(db, requested, stamp.at, currentDays) ::
      EffectiveRetentionDays(db.inquiries[id], currentDays))
  }

  // ---- the write ----

  function Erased(row: Inquiry, stamp: Stamp, t: int): Inquiry {
    row.(personal := Personal(None, None, None, PURGED_INQUIRY_TEXT, PURGED_INQUIRY_TEXT), purged := Some(stamp),
         updatedAt := t)
  }

  predicate Writable(db: Db, p: Purge, id: nat) {
    id in p.daysById && id in db.inquiries && CompletedGuest(db.inquiries[id])
  }

  /** A target that already bears this purge's own stamp. */
  predicate BearsStamp(db: Db, p: Purge, id: nat) {
    id in p.daysById && id in db.inquiries && db.inquiries[id].purged == Some(p.stamp)
  }

  function ReportedIds(db: Db, p: Purge): set<nat> {
    set id | id in p.daysById && (Writable(db, p, id) || BearsStamp(db, p, id))
  }

  function ErasedRows(db: Db, p: Purge, t: int): map<nat, Inquiry> {
    map id | id in db.inquiries ::
      if Writable(db, p, id) then Erased(db.inquiries[id], p.stamp, t) else db.inquiries[id]
  }

  function ErasedReplies(replies: map<nat, Reply>, ids: set<nat>): map<nat, Reply> {
    map r | r in replies ::
      if replies[r].inquiry in ids then replies[r].(body := PURGED_INQUIRY_REPLY_TEXT) else replies[r]
  }

  predicate AboutReplyTo(replies: map<nat, Reply>, log: EditLog, ids: set<nat>) {
    log.reply in replies && replies[log.reply].inquiry in ids
  }

  function RedactedEdits(replies: map<nat, Reply>, editLogs: map<nat, EditLog>, ids: set<nat>): map<nat, EditLog> {
    map e | e in editLogs ::
      if AboutReplyTo(replies, editLogs[e], ids)
      then editLogs[e].(before := PURGED_INQUIRY_REPLY_TEXT, after := PURGED_INQUIRY_REPLY_TEXT) else editLogs[e]
  }

  function NewLogs(p: Purge, ids: set<nat>): set<PurgeLog> {
    set id | id in ids && id in p.daysById :: PurgeLog(id, p.stamp, p.daysById[id])
  }

  function AfterWrite(db: Db, p: Purge, t: int): Db {
    var ids := ReportedIds(db, p);
    Db(ErasedRows(db, p, t), ErasedReplies(db.replies, ids), RedactedEdits(db.replies, db.editLogs, ids),
       db.purgeLogs + multiset(NewLogs(p, ids)))
  }

  datatype Request = Request(all: bool, inquiryIds: Option<seq<nat>>)
  datatype Response = Rejected | Response(purgedCount: nat, skippedCount: int, inquiryIds: set<nat>)

  function Requested(request: Request): Option<set<nat>> {
    if request.all then None
    else Some(set id | request.inquiryIds.Some? && id in request.inquiryIds.value)
  }

  function Respond(request: Request, purgedIds: set<nat>): Response {
    Response(|purgedIds|, if request.all then 0 else |Requested(request).value| - |purgedIds|, purgedIds)
  }

  /** The tables as the service updates them. */
  class InquiryStore {
    var inquiries: map<nat, Inquiry>
    var replies: map<nat, Reply>
    var editLogs: map<nat, EditLog>
    var purgeLogs: multiset<PurgeLog>

    function Contents(): Db
      reads this
    {
      Db(inquiries, replies, editLogs, purgeLogs)
    }

    constructor (db: Db)
      ensures Contents() == db
    {
      inquiries, replies, editLogs, purgeLogs := db.inquiries, db.replies, db.editLogs, db.purgeLogs;
    }

    method RedactReplyEditPreviews(ids: set<nat>)
      modifies this`editLogs
      ensures editLogs == RedactedEdits(replies, old(editLogs), ids)
    {
      var replyIds := set r | r in replies && replies[r].inquiry in ids;
      var todo := set e | e in editLogs && editLogs[e].reply in replyIds;
      while todo != {}
        invariant todo <= editLogs.Keys == old(editLogs).Keys
        invariant forall e :: e in todo ==> editLogs[e] == old(editLogs)[e] && old(editLogs)[e].reply in replyIds
        invariant forall e :: e in old(editLogs) && e !in todo ==>
          editLogs[e] == RedactedEdits(replies, old(editLogs), ids)[e]
        decreases todo
      {
        var e :| e in todo;
        editLogs := editLogs[e := editLogs[e].(before := PURGED_INQUIRY_REPLY_TEXT,
                                               after := PURGED_INQUIRY_REPLY_TEXT)];
        todo := todo - {e};
      }
    }

    /** Everything after the targets are read; by then other purges may have reached some of them. */
    method WritePurge(p: Purge, t: int) returns (ids: set<nat>)
      modifies this
      ensures ids == ReportedIds(old(Contents()), p)
      ensures Contents() == AfterWrite(old(Contents()), p, t)
    {
      hide ReportedIds, BearsStamp, Erased, ErasedReplies, RedactedEdits, NewLogs;
      ghost var db := Contents();
      var targetIds := p.daysById.Keys;
      var matched := set id | id in targetIds && id in inquiries && CompletedGuest(inquiries[id]);
      inquiries := map id | id in inquiries ::
        if id in matched then Erased(inquiries[id], p.stamp, t) else inquiries[id];
      assert inquiries == ErasedRows(db, p, t);
      if |matched| == |targetIds| {
        ids := targetIds;
      } else {
        ids := set id | id in targetIds && id in inquiries && inquiries[id].purged == Some(p.stamp);
      }
      ReportedAfterwards(db, p, t, matched);
      if ids == {} {
        NothingToWrite(db, p, t);
        return;
      }
      RedactReplyEditPreviews(ids);
      replies := ErasedReplies(replies, ids);
      purgeLogs := purgeLogs + multiset(NewLogs(p, ids));
    }

    /** A whole purge with nothing between its read and its write. `retentionDays` is the setting at the time. */
    method PurgeGuestInquiries(admin: nat, request: Request, retentionDays: int, now: int) returns (response: Response)
      modifies this
      ensures request.all && request.inquiryIds.Some? ==> response == Rejected && Contents() == old(Contents())
      ensures !(request.all && request.inquiryIds.Some?) ==>
        var p := ReadPurge(old(Contents()), Stamp(admin, now), Requested(request), retentionDays);
        && response == Respond(request, Candidates(old(Contents()), Requested(request), now, retentionDays))
        && Contents() == AfterWrite(old(Contents()), p, now)
    {
      if request.all && request.inquiryIds.Some? { return Rejected; }
      var requested := Requested(request);
      var p := ReadPurge(Contents(), Stamp(admin, now), requested, retentionDays);
      EveryTargetIsWritten(Contents(), p.stamp, requested, retentionDays);
      var ids := WritePurge(p, now);
      response := Respond(request, ids);
    }
  }

  lemma SubsetOfSameSize(a: set<nat>, b: set<nat>)
    requires a <= b && |a| == |b|
    ensures a == b
  {
    assert |b - a| == 0;
  }

  /** Asking again for the rows with this stamp finds the rows just written and any other that bears it; when every
      target was written there is no such other. */
  lemma ReportedAfterwards(db: Db, p: Purge, t: int, matched: set<nat>)
    requires forall id :: id in matched <==> Writable(db, p, id)
    ensures |matched| == |p.daysById.Keys| ==> p.daysById.Keys == ReportedIds(db, p)
    ensures var rows := ErasedRows(db, p, t);
      (set id | id in p.daysById && id in rows && rows[id].purged == Some(p.stamp)) == ReportedIds(db, p)
  {
    if |matched| == |p.daysById.Keys| {
      SubsetOfSameSize(matched, p.daysById.Keys);
    }
  }

  lemma NothingToWrite(db: Db, p: Purge, t: int)
    requires ReportedIds(db, p) == {}
    ensures AfterWrite(db, p, t) == db
  {
    assert forall id :: Writable(db, p, id) ==> id in ReportedIds(db, p);
    assert NewLogs(p, {}) == {};
    assert ErasedRows(db, p, t) == db.inquiries;
    assert RedactedEdits(db.replies, db.editLogs, {}) == db.editLogs;
    assert ErasedReplies(db.replies, {}) == db.replies;
  }

  lemma EveryTargetIsWritten(db: Db, stamp: Stamp, requested: Option<set<nat>>, days: int)
    ensures ReportedIds(db, ReadPurge(db, stamp, requested, days)) == Candidates(db, requested, stamp.at, days)
  {
  }

  // ---- what a candidate is, field by field ----

  /** A guest's inquiry not purged yet, answered or closed, and since then longer ago than the days agreed to, if any,
      or than the days of the setting. A closed one counts from its closing, where that is known, any other from its
      last update. */
  lemma CandidateIff(row: Inquiry, now: int, days: int)
    ensures Candidate(row, now, days) <==>
      && row.user == None && row.purged == None && (row.status == Answered || row.status == Closed)
      && var since := if row.status == Closed && row.closedAt.Some? then row.closedAt.value else row.updatedAt;
      && (|| since + days * 86_400_000 < now
          || (row.guestRetentionDays.Some? && since + row.guestRetentionDays.value * 86_400_000 < now))
  {
    assert DAY_MS == 86_400_000;
  }

  /** The days that count, and that a log states, are the fewer of the two. */
  lemma FewerDaysCount(row: Inquiry, days: int)
    ensures EffectiveRetentionDays(row, days) <= days
    ensures row.guestRetentionDays.Some? ==> EffectiveRetentionDays(row, days) <= row.guestRetentionDays.value
    ensures EffectiveRetentionDays(row, days) == days
      || row.guestRetentionDays == Some(EffectiveRetentionDays(row, days))
  {
  }

  /** Without ids every inquiry is asked for, and none is skipped. */
  lemma AllOrSelected(db: Db, request: Request, purgedIds: set<nat>, now: int, days: int)
    ensures request.all ==>
      && (forall id :: id in Candidates(db, Requested(request), now, days) <==>
            id in db.inquiries && Candidate(db.inquiries[id], now, days))
      && Respond(request, purgedIds) == Response(|purgedIds|, 0, purgedIds)
    ensures !request.all ==> forall id :: id in Candidates(db, Requested(request), now, days) <==>
      && request.inquiryIds.Some? && id in request.inquiryIds.value
      && id in db.inquiries && Candidate(db.inquiries[id], now, days)
  {
  }

  // ---- a purge on its own ----

  predicate IsPurged(db: Db, id: nat) { id in db.inquiries && db.inquiries[id].purged.Some? }

  /** An uninterrupted purge erases exactly the requested candidates: never a member's, unfinished or unexpired
      inquiry. */
  lemma PurgedIffCandidate(db: Db, stamp: Stamp, requested: Option<set<nat>>, days: int, t: int, id: nat)
    ensures var after := AfterWrite(db, ReadPurge(db, stamp, requested, days), t);
      var found := Candidates(db, requested, stamp.at, days);
      && (!IsPurged(db, id) && IsPurged(after, id) <==> id in found)
      && (id in found ==> after.inquiries[id] == Erased(db.inquiries[id], stamp, t))
      && (id in db.inquiries && id !in found ==> after.inquiries[id] == db.inquiries[id])
  {
  }

  lemma FullPurgeLeavesNoCandidate(db: Db, stamp: Stamp, days: int, t: int)
    ensures Candidates(AfterWrite(db, ReadPurge(db, stamp, None, days), t), None, stamp.at, days) == {}
  {
    var after := AfterWrite(db, ReadPurge(db, stamp, None, days), t);
    forall id | id in after.inquiries
      ensures !Candidate(after.inquiries[id], stamp.at, days)
    {
      PurgedIffCandidate(db, stamp, None, days, t, id);
    }
  }

  /** Purged plus skipped is the number of distinct ids asked for, whatever happened between the read and the write. */
  lemma PurgedPlusSkipped(read: Db, written: Db, stamp: Stamp, request: Request, days: int)
    requires !request.all
    ensures Requested(request).value ==
      if request.inquiryIds.Some? then set id | id in request.inquiryIds.value else {}
    ensures var wanted := Requested(request).value;
      var response := Respond(request, ReportedIds(written, ReadPurge(read, stamp, Some(wanted), days)));
      && response.purgedCount + response.skippedCount == |wanted| && response.skippedCount >= 0
      && response.inquiryIds <= wanted
  {
    var wanted := Requested(request).value;
    var ids := ReportedIds(written, ReadPurge(read, stamp, Some(wanted), days));
    assert wanted == ids + (wanted - ids);
    assert |wanted| == |ids| + |wanted - ids|;
  }

  /** Shortening the retention only adds candidates. */
  lemma ShorterRetentionOnlyAdds(db: Db, requested: Option<set<nat>>, now: int, days: int, shorter: int)
    requires shorter <= days
    ensures Candidates(db, requested, now, days) <= Candidates(db, requested, now, shorter)
  {
    hide Candidate;
    forall id | id in Candidates(db, requested, now, days)
      ensures Candidate(db.inquiries[id], now, shorter)
    {
      ExpiresSooner(db.inquiries[id], now, days, shorter);
    }
  }

  lemma ExpiresSooner(row: Inquiry, now: int, days: int, shorter: int)
    requires Candidate(row, now, days) && shorter <= days
    ensures Candidate(row, now, shorter)
  {
    CandidateIff(row, now, days);
    CandidateIff(row, now, shorter);
  }

  /** Lengthening it never keeps an inquiry past the days agreed to. */
  lemma AgreedDaysBoundRetention(row: Inquiry, now: int, currentDays: int)
    requires CompletedGuest(row) && row.guestRetentionDays.Some?
      && CompletedAt(row) + row.guestRetentionDays.value * DAY_MS < now
    ensures Candidate(row, now, currentDays)
  {
  }

  // ---- purges interleaved with everything else ----

  /** A status change looks at the row first and writes it by id afterwards, without looking again. */
  datatype StatusChange = StatusChange(id: nat, to: Status)

  datatype State = State(db: Db, active: map<nat, Purge>, changes: map<nat, StatusChange>)

  datatype Step =
    | Submit(id: nat, row: Inquiry)
    | Answer(id: nat, reply: nat, body: string, t: int)
    | EditReply(id: nat, reply: nat, log: nat, body: string)
    | CheckStatus(process: nat, id: nat, to: Status)
    | WriteStatus(process: nat, t: int)
    | Begin(process: nat, stamp: Stamp, requested: Option<set<nat>>, days: int)
    | Finish(process: nat, t: int)

  function Preview(body: string): string { if |body| <= 60 then body else body[..60] }

  function WithStatus(row: Inquiry, to: Status, t: int): Inquiry {
    row.(status := to, closedAt := if to == Closed then Some(t) else None, updatedAt := t)
  }

  /** The tables after a step that is no purge. A new row, reply or log has an unused id. */
  function NextDb(s: State, step: Step): Db {
    var db := s.db;
    match step
    case Submit(id, row) =>
      if id in db.inquiries || row.purged.Some? then db else db.(inquiries := db.inquiries[id := row])
    case Answer(id, reply, body, t) =>
      if body == "" || id !in db.inquiries || db.inquiries[id].purged.Some? || reply in db.replies then db else
        db.(replies := db.replies[reply := Reply(id, body)],
            inquiries := db.inquiries[id := WithStatus(db.inquiries[id], Answered, t)])
    case EditReply(id, reply, log, body) =>
      if body == "" || reply !in db.replies || db.replies[reply].inquiry != id || IsPurged(db, id) || log in db.editLogs
      then db else
        db.(replies := db.replies[reply := Reply(id, body)],
            editLogs := db.editLogs[log := EditLog(reply, Preview(db.replies[reply].body), Preview(body))])
    case WriteStatus(process, t) =>
      if process !in s.changes || s.changes[process].id !in db.inquiries then db else
        var change := s.changes[process];
        db.(inquiries := db.inquiries[change.id := WithStatus(db.inquiries[change.id], change.to, t)])
    case _ => db
  }

  function Next(s: State, step: Step): State {
    match step
    case Begin(process, stamp, requested, days) =>
      if process in s.active then s else s.(active := s.active[process := ReadPurge(s.db, stamp, requested, days)])
    case Finish(process, t) =>
      if process !in s.active then s
      else s.(db := AfterWrite(s.db, s.active[process], t), active := s.active - {process})
    case CheckStatus(process, id, to) =>
      if process in s.changes || id !in s.db.inquiries || s.db.inquiries[id].purged.Some? then s
      else s.(changes := s.changes[process := StatusChange(id, to)])
    case WriteStatus(process, t) => s.(db := NextDb(s, step), changes := s.changes - {process})
    case _ => s.(db := NextDb(s, step))
  }

  function Run(s: State, steps: seq<Step>): State {
    if steps == [] then s else Next(Run(s, steps[..|steps| - 1]), steps[|steps| - 1])
  }

  predicate NothingPersonal(row: Inquiry) {
    row.personal == Personal(None, None, None, PURGED_INQUIRY_TEXT, PURGED_INQUIRY_TEXT)
  }

  ghost predicate RowsErased(db: Db) {
    forall id :: IsPurged(db, id) ==>
      db.inquiries[id].user == None && NothingPersonal(db.inquiries[id])
  }

  ghost predicate RepliesErased(db: Db) {
    forall r :: r in db.replies ==>
      && db.replies[r].inquiry in db.inquiries
      && (IsPurged(db, db.replies[r].inquiry) ==> db.replies[r].body == PURGED_INQUIRY_REPLY_TEXT)
  }

  ghost predicate EditsErased(db: Db) {
    forall e :: e in db.editLogs ==>
      && db.editLogs[e].reply in db.replies
      && (IsPurged(db, db.replies[db.editLogs[e].reply].inquiry) ==>
            db.editLogs[e].before == PURGED_INQUIRY_REPLY_TEXT && db.editLogs[e].after == PURGED_INQUIRY_REPLY_TEXT)
  }

  ghost predicate HasLog(db: Db, id: nat) {
    exists log :: log in db.purgeLogs && log.inquiry == id
  }

  ghost predicate LogsMatch(db: Db) {
    && (forall id :: IsPurged(db, id) ==> HasLog(db, id))
    && (forall log :: log in db.purgeLogs ==> IsPurged(db, log.inquiry))
  }

  // ---- what the steps beside a purge write ----

  /** Only this row changed. */
  ghost predicate OnlyRow(before: Db, after: Db, id: nat) {
    && id in before.inquiries && after.inquiries.Keys == before.inquiries.Keys
    && forall other :: other in before.inquiries && other != id ==> after.inquiries[other] == before.inquiries[other]
  }

  /** An answer to an unpurged inquiry adds a reply and sets it answered, not closed, updated at that time; one to a
      purged inquiry is refused. */
  lemma AnswerWrites(s: State, id: nat, reply: nat, body: string, t: int)
    requires id in s.db.inquiries && body != "" && reply !in s.db.replies
    ensures var after := NextDb(s, Answer(id, reply, body, t));
      if s.db.inquiries[id].purged.Some? then after == s.db else
        && OnlyRow(s.db, after, id)
        && after.inquiries[id] == s.db.inquiries[id].(status := Answered, closedAt := None, updatedAt := t)
        && after.replies == s.db.replies[reply := Reply(id, body)]
        && after.editLogs == s.db.editLogs && after.purgeLogs == s.db.purgeLogs
  {
  }

  /** An edit of a reply to an unpurged inquiry replaces its body and logs the first sixty characters of both; any
      other edit is refused. */
  lemma EditWrites(s: State, id: nat, reply: nat, log: nat, body: string)
    requires id in s.db.inquiries && body != "" && log !in s.db.editLogs
    ensures var after := NextDb(s, EditReply(id, reply, log, body));
      if reply !in s.db.replies || s.db.replies[reply].inquiry != id || s.db.inquiries[id].purged.Some?
      then after == s.db else
        && after.inquiries == s.db.inquiries && after.purgeLogs == s.db.purgeLogs
        && after.replies == s.db.replies[reply := Reply(id, body)]
        && after.editLogs.Keys == s.db.editLogs.Keys + {log}
        && (forall e :: e in s.db.editLogs ==> after.editLogs[e] == s.db.editLogs[e])
        && after.editLogs[log].reply == reply
        && IsPreview(after.editLogs[log].before, s.db.replies[reply].body)
        && IsPreview(after.editLogs[log].after, body)
  {
  }

  predicate IsPreview(preview: string, body: string) {
    preview <= body && |preview| <= 60 && (|preview| < 60 ==> preview == body)
  }

  /** The write of a status change sets the status, and the closing time exactly when it closes. */
  lemma StatusWrites(s: State, process: nat, t: int)
    requires process in s.changes && s.changes[process].id in s.db.inquiries
    ensures var after, id, to := Next(s, WriteStatus(process, t)), s.changes[process].id, s.changes[process].to;
      && OnlyRow(s.db, after.db, id) && SameButStatus(after.db.inquiries[id], s.db.inquiries[id])
      && after.db.inquiries[id].status == to && after.db.inquiries[id].updatedAt == t
      && (to == Closed ==> after.db.inquiries[id].closedAt == Some(t))
      && (to != Closed ==> after.db.inquiries[id].closedAt == None)
      && process !in after.changes
      && after.db.replies == s.db.replies && after.db.editLogs == s.db.editLogs && after.db.purgeLogs == s.db.purgeLogs
  {
  }

  /** A write overwrites the replies to what it reports, and both previews of their edits, and leaves the others. */
  lemma WriteTouchesOnlyReported(db: Db, p: Purge, t: int)
    ensures var after, ids := AfterWrite(db, p, t), ReportedIds(db, p);
      && after.replies.Keys == db.replies.Keys && after.editLogs.Keys == db.editLogs.Keys
      && (forall r :: r in db.replies ==>
            var inquiry := db.replies[r].inquiry;
            after.replies[r] == if inquiry in ids then Reply(inquiry, PURGED_INQUIRY_REPLY_TEXT) else db.replies[r])
      && (forall e :: e in db.editLogs ==>
            var reply := db.editLogs[e].reply;
            after.editLogs[e] == if reply in db.replies && db.replies[reply].inquiry in ids
                                 then EditLog(reply, PURGED_INQUIRY_REPLY_TEXT, PURGED_INQUIRY_REPLY_TEXT)
                                 else db.editLogs[e])
  {
    hide ReportedIds;
  }

  // ---- what every run keeps ----

  /** A purged inquiry is a guest's and nothing of it, its replies or their edit previews is left; it has a log. */
  ghost predicate Erasure(db: Db) {
    RowsErased(db) && RepliesErased(db) && EditsErased(db) && LogsMatch(db)
  }

  lemma WritePurgesIff(db: Db, p: Purge, t: int, id: nat)
    ensures var after := AfterWrite(db, p, t);
      && (IsPurged(after, id) <==> IsPurged(db, id) || Writable(db, p, id))
      && (IsPurged(after, id) && id in p.daysById && !IsPurged(db, id) ==> id in ReportedIds(db, p))
      && (id in ReportedIds(db, p) ==> IsPurged(after, id))
      && (id in db.inquiries <==> id in after.inquiries)
      && (id in db.inquiries ==>
            after.inquiries[id] ==
              if Writable(db, p, id) then Erased(db.inquiries[id], p.stamp, t) else db.inquiries[id])
  {
  }

  lemma LogsOfWrite(db: Db, p: Purge, t: int, log: PurgeLog)
    ensures AfterWrite(db, p, t).purgeLogs[log] == db.purgeLogs[log]
      + if log.inquiry in ReportedIds(db, p) && log == PurgeLog(log.inquiry, p.stamp, p.daysById[log.inquiry])
        then 1 else 0
  {
    hide ErasedRows, ErasedReplies, RedactedEdits;
    assert log in NewLogs(p, ReportedIds(db, p)) <==>
      log.inquiry in ReportedIds(db, p) && log == PurgeLog(log.inquiry, p.stamp, p.daysById[log.inquiry]);
  }

  lemma WriteErasesRows(db: Db, p: Purge, t: int)
    requires RowsErased(db)
    ensures RowsErased(AfterWrite(db, p, t))
  {
    hide AfterWrite, ReportedIds;
    forall id | IsPurged(AfterWrite(db, p, t), id)
      ensures var row := AfterWrite(db, p, t).inquiries[id]; row.user == None && NothingPersonal(row)
    {
      WritePurgesIff(db, p, t, id);
    }
  }

  lemma WriteErasesReplies(db: Db, p: Purge, t: int)
    requires RepliesErased(db)
    ensures RepliesErased(AfterWrite(db, p, t))
  {
    hide ReportedIds, ErasedRows, RedactedEdits, NewLogs, IsPurged, Writable;
    var after := AfterWrite(db, p, t);
    forall r | r in after.replies
      ensures after.replies[r].inquiry in after.inquiries
      ensures IsPurged(after, after.replies[r].inquiry) ==> after.replies[r].body == PURGED_INQUIRY_REPLY_TEXT
    {
      WritePurgesIff(db, p, t, db.replies[r].inquiry);
      WritableIsReported(db, p, db.replies[r].inquiry);
    }
  }

  lemma WriteErasesEdits(db: Db, p: Purge, t: int)
    requires EditsErased(db)
    ensures EditsErased(AfterWrite(db, p, t))
  {
    hide ReportedIds, ErasedRows, NewLogs, IsPurged, Writable;
    var after := AfterWrite(db, p, t);
    forall e | e in after.editLogs
      ensures after.editLogs[e].reply in after.replies
      ensures IsPurged(after, after.replies[after.editLogs[e].reply].inquiry) ==>
        after.editLogs[e].before == PURGED_INQUIRY_REPLY_TEXT && after.editLogs[e].after == PURGED_INQUIRY_REPLY_TEXT
    {
      WritePurgesIff(db, p, t, db.replies[db.editLogs[e].reply].inquiry);
      WritableIsReported(db, p, db.replies[db.editLogs[e].reply].inquiry);
    }
  }

  lemma WriteLogsWhatItPurges(db: Db, p: Purge, t: int)
    requires LogsMatch(db)
    ensures LogsMatch(AfterWrite(db, p, t))
  {
    hide AfterWrite, ReportedIds, IsPurged, Writable;
    var after := AfterWrite(db, p, t);
    forall id | IsPurged(after, id)
      ensures HasLog(after, id)
    {
      WritePurgesIff(db, p, t, id);
      WritableIsReported(db, p, id);
      if IsPurged(db, id) {
        var log :| log in db.purgeLogs && log.inquiry == id;
        LogsOfWrite(db, p, t, log);
        assert log in after.purgeLogs;
      } else {
        var log := PurgeLog(id, p.stamp, p.daysById[id]);
        LogsOfWrite(db, p, t, log);
        assert log in after.purgeLogs;
      }
    }
    forall log | log in after.purgeLogs
      ensures IsPurged(after, log.inquiry)
    {
      LogsOfWrite(db, p, t, log);
      WritePurgesIff(db, p, t, log.inquiry);
    }
  }

  lemma WriteKeepsErasure(db: Db, p: Purge, t: int)
    requires Erasure(db)
    ensures Erasure(AfterWrite(db, p, t))
  {
    hide RowsErased, RepliesErased, EditsErased, LogsMatch, AfterWrite;
    WriteErasesRows(db, p, t);
    WriteErasesReplies(db, p, t);
    WriteErasesEdits(db, p, t);
    WriteLogsWhatItPurges(db, p, t);
  }

  lemma WritableIsReported(db: Db, p: Purge, id: nat)
    ensures Writable(db, p, id) ==> id in ReportedIds(db, p) && id in p.daysById
  {
  }

  lemma StepKeepsErasure(s: State, step: Step)
    requires Erasure(s.db)
    ensures Erasure(NextDb(s, step))
  {
    StepKeepsLogs(s, step);
    StepKeepsReplies(s, step);
  }

  /** The two rows differ at most in what a status change writes. */
  predicate SameButStatus(a: Inquiry, b: Inquiry) {
    a == b.(status := a.status, closedAt := a.closedAt, updatedAt := a.updatedAt)
  }

  /** No step but a purge makes or unmakes a purged row, and only a status change already checked writes one. */
  lemma StepKeepsPurged(s: State, step: Step, id: nat)
    ensures IsPurged(NextDb(s, step), id) <==> IsPurged(s.db, id)
    ensures IsPurged(s.db, id) ==>
      NextDb(s, step).inquiries[id] ==
        if step.WriteStatus? && step.process in s.changes && s.changes[step.process].id == id
        then WithStatus(s.db.inquiries[id], s.changes[step.process].to, step.t) else s.db.inquiries[id]
  {
  }

  lemma StepKeepsLogs(s: State, step: Step)
    requires RowsErased(s.db) && LogsMatch(s.db)
    ensures RowsErased(NextDb(s, step)) && LogsMatch(NextDb(s, step))
  {
    hide NextDb;
    var after := NextDb(s, step);
    StepWritesNoLogs(s, step);
    forall id
      ensures IsPurged(after, id) <==> IsPurged(s.db, id)
      ensures IsPurged(after, id) ==> HasLog(after, id)
      ensures IsPurged(after, id) ==> after.inquiries[id].user == None && NothingPersonal(after.inquiries[id])
    {
      StepKeepsPurged(s, step, id);
      if IsPurged(s.db, id) {
        var log :| log in s.db.purgeLogs && log.inquiry == id;
        assert log in after.purgeLogs;
      }
    }
  }

  lemma StepWritesNoLogs(s: State, step: Step)
    ensures NextDb(s, step).purgeLogs == s.db.purgeLogs
  {
  }

  lemma StepKeepsReplies(s: State, step: Step)
    requires RepliesErased(s.db) && EditsErased(s.db)
    ensures RepliesErased(NextDb(s, step)) && EditsErased(NextDb(s, step))
  {
    hide IsPurged;
    forall id
      ensures IsPurged(NextDb(s, step), id) <==> IsPurged(s.db, id)
    {
      StepKeepsPurged(s, step, id);
    }
    StepOnlyAnswersUnpurged(s, step);
  }

  lemma StepOnlyAnswersUnpurged(s: State, step: Step)
    ensures s.db.inquiries.Keys <= NextDb(s, step).inquiries.Keys
    ensures step.Answer? && NextDb(s, step) != s.db ==> step.id in s.db.inquiries && !IsPurged(s.db, step.id)
    ensures step.EditReply? && NextDb(s, step) != s.db ==> !IsPurged(s.db, step.id)
  {
  }

  /** However purges, answers, edits and the two halves of status changes interleave, only guests' inquiries are ever
      purged, and nothing personal of a purged one remains or comes back. */
  lemma {:induction false} RunKeepsErasure(s: State, steps: seq<Step>)
    requires Erasure(s.db)
    ensures Erasure(Run(s, steps).db)
  {
    hide Erasure, AfterWrite;
    if steps != [] {
      var before, step := Run(s, steps[..|steps| - 1]), steps[|steps| - 1];
      RunKeepsErasure(s, steps[..|steps| - 1]);
      if step.Finish? && step.process in before.active {
        WriteKeepsErasure(before.db, before.active[step.process], step.t);
      } else {
        StepKeepsErasure(before, step);
      }
    }
  }

  // ---- whether a purged row is final ----

  ghost predicate Pending(s: State, process: nat, id: nat) {
    process in s.changes && s.changes[process].id == id
  }

  lemma PurgedStep(s: State, step: Step, id: nat)
    requires IsPurged(s.db, id)
    ensures IsPurged(Next(s, step).db, id)
    ensures Next(s, step).db.inquiries[id] ==
      if step.WriteStatus? && Pending(s, step.process, id)
      then WithStatus(s.db.inquiries[id], s.changes[step.process].to, step.t) else s.db.inquiries[id]
    ensures forall p: nat :: Pending(Next(s, step), p, id) ==>
      Pending(s, p, id) && Next(s, step).changes[p] == s.changes[p]
  {
    hide NextDb, AfterWrite;
    StepKeepsPurged(s, step, id);
    if step.Finish? && step.process in s.active {
      WritePurgesIff(s.db, s.active[step.process], step.t, id);
    }
  }

  /** Purged once, an inquiry stays purged by the same admin at the same time, with everything but its status as it was;
      a status change that is still to write to it had looked at it before it was purged. */
  lemma {:induction false} PurgedStaysPurged(s: State, steps: seq<Step>, id: nat)
    requires IsPurged(s.db, id)
    ensures IsPurged(Run(s, steps).db, id) && SameButStatus(Run(s, steps).db.inquiries[id], s.db.inquiries[id])
    ensures forall p: nat :: Pending(Run(s, steps), p, id) ==> Pending(s, p, id)
  {
    hide Next;
    if steps != [] {
      PurgedStaysPurged(s, steps[..|steps| - 1], id);
      PurgedStep(Run(s, steps[..|steps| - 1]), steps[|steps| - 1], id);
    }
  }

  lemma {:induction false} PurgedIsFinalUnlessPending(s: State, steps: seq<Step>, id: nat)
    requires IsPurged(s.db, id) && forall p: nat :: !Pending(s, p, id)
    ensures IsPurged(Run(s, steps).db, id) && Run(s, steps).db.inquiries[id] == s.db.inquiries[id]
  {
    hide Next;
    if steps != [] {
      var before := steps[..|steps| - 1];
      PurgedIsFinalUnlessPending(s, before, id);
      PurgedStaysPurged(s, before, id);
      PurgedStep(Run(s, before), steps[|steps| - 1], id);
    }
  }

  lemma PendingStatusWrites(s: State, p: nat, id: nat) returns (steps: seq<Step>)
    requires IsPurged(s.db, id) && Pending(s, p, id)
    ensures id in Run(s, steps).db.inquiries && Run(s, steps).db.inquiries[id] != s.db.inquiries[id]
  {
    hide Next, NextDb;
    var step := WriteStatus(p, s.db.inquiries[id].updatedAt + 1);
    PurgedStep(s, step, id);
    steps := [step];
    assert steps[..0] == [] && Run(s, steps) == Next(Run(s, steps[..0]), step);
  }

  /** A purged row never changes again, whatever runs, exactly when no status change that looked at it before the purge
      is still to write. */
  lemma PurgedIsFinalIff(s: State, id: nat)
    requires IsPurged(s.db, id)
    ensures (forall steps :: id in Run(s, steps).db.inquiries && Run(s, steps).db.inquiries[id] == s.db.inquiries[id])
      <==> forall p: nat :: !Pending(s, p, id)
  {
    hide Run;
    if p: nat :| Pending(s, p, id) {
      var steps := PendingStatusWrites(s, p, id);
    } else {
      forall steps
        ensures id in Run(s, steps).db.inquiries && Run(s, steps).db.inquiries[id] == s.db.inquiries[id]
      {
        PurgedIsFinalUnlessPending(s, steps, id);
      }
    }
  }

  /** A status change that looks before a purge and writes after it gives the purged inquiry any status, reopening it.
      */
  lemma ReopenedAfterPurge(s: State, p: nat, q: nat, stamp: Stamp, days: int, id: nat, to: Status, t: int, late: int)
    requires p !in s.active && q !in s.changes && id in Candidates(s.db, None, stamp.at, days)
    ensures var begun := Run(s, [CheckStatus(q, id, to), Begin(p, stamp, None, days)]);
      var after := Run(begun, [Finish(p, t), WriteStatus(q, late)]).db;
      && IsPurged(after, id) && after.inquiries[id] == WithStatus(Erased(s.db.inquiries[id], stamp, t), to, late)
  {
    hide AfterWrite, Run, ReportedIds;
    RunTwo(s, CheckStatus(q, id, to), Begin(p, stamp, None, days));
    var begun := Run(s, [CheckStatus(q, id, to), Begin(p, stamp, None, days)]);
    RunTwo(begun, Finish(p, t), WriteStatus(q, late));
    WritePurgesIff(s.db, ReadPurge(s.db, stamp, None, days), t, id);
  }

  // ---- each purge logged once ----

  ghost predicate LoggedOnce(db: Db) {
    forall l, m :: l in db.purgeLogs && m in db.purgeLogs && l.inquiry == m.inquiry ==> l == m && db.purgeLogs[l] == 1
  }

  /** A write logs an inquiry purged before exactly when that purge had the same admin and the same moment. */
  lemma LogsAgainIff(db: Db, p: Purge, id: nat)
    requires IsPurged(db, id) && id in p.daysById
    ensures id in ReportedIds(db, p) <==> db.inquiries[id].purged == Some(p.stamp)
  {
  }

  ghost predicate StampsApart(s: State, used: set<Stamp>) {
    && (forall p :: p in s.active ==> s.active[p].stamp in used)
    && (forall p, q :: p in s.active && q in s.active && s.active[p].stamp == s.active[q].stamp ==> p == q)
    && (forall id :: IsPurged(s.db, id) ==>
          s.db.inquiries[id].purged.value in used
          && forall p :: p in s.active ==> s.active[p].stamp != s.db.inquiries[id].purged.value)
  }

  function Stamps(steps: seq<Step>): set<Stamp> {
    set k | 0 <= k < |steps| && steps[k].Begin? :: steps[k].stamp
  }

  ghost predicate StampsDiffer(steps: seq<Step>) {
    forall j, k :: 0 <= j < k < |steps| && steps[j].Begin? && steps[k].Begin? ==> steps[j].stamp != steps[k].stamp
  }

  lemma WriteLogsOnce(db: Db, p: Purge, t: int)
    requires LogsMatch(db) && LoggedOnce(db)
    requires forall id :: IsPurged(db, id) ==> db.inquiries[id].purged.value != p.stamp
    ensures LoggedOnce(AfterWrite(db, p, t))
  {
    hide HasLog, AfterWrite;
    var after := AfterWrite(db, p, t);
    forall l, m | l in after.purgeLogs && m in after.purgeLogs && l.inquiry == m.inquiry
      ensures l == m && after.purgeLogs[l] == 1
    {
      LogsOfWrite(db, p, t, l);
      LogsOfWrite(db, p, t, m);
    }
  }

  /** A step purges an inquiry only by a write, which stamps it. */
  lemma StampAfterStep(s: State, step: Step, id: nat)
    requires IsPurged(Next(s, step).db, id)
    ensures
      if IsPurged(s.db, id) then Next(s, step).db.inquiries[id].purged == s.db.inquiries[id].purged
      else step.Finish? && step.process in s.active
           && Next(s, step).db.inquiries[id].purged == Some(s.active[step.process].stamp)
  {
    hide NextDb, AfterWrite, ReadPurge;
    StepKeepsPurged(s, step, id);
    if step.Finish? && step.process in s.active {
      WritePurgesIff(s.db, s.active[step.process], step.t, id);
    }
  }

  lemma StepKeepsStampsApart(s: State, step: Step, used: set<Stamp>)
    requires StampsApart(s, used) && (step.Begin? ==> step.stamp !in used)
    ensures StampsApart(Next(s, step), used + Stamps([step]))
  {
    hide NextDb, AfterWrite;
    assert step.Begin? ==> [step][0].stamp in Stamps([step]);
    forall id | IsPurged(Next(s, step).db, id)
      ensures var stamp := Next(s, step).db.inquiries[id].purged.value;
        stamp in used && forall p :: p in Next(s, step).active ==> Next(s, step).active[p].stamp != stamp
    {
      StampAfterStep(s, step, id);
    }
  }

  /** Over any interleaving, when no two purges run by one admin start at the same millisecond, each purged inquiry is
      logged exactly once. */
  lemma {:induction false} RunLogsOnce(s: State, steps: seq<Step>)
    requires Erasure(s.db) && LoggedOnce(s.db) && s.active == map[] && StampsDiffer(steps)
    requires PurgedStamps(s.db) !! Stamps(steps)
    ensures LoggedOnce(Run(s, steps).db)
    ensures StampsApart(Run(s, steps), Stamps(steps) + PurgedStamps(s.db))
  {
    hide Erasure, LoggedOnce, Next, StampsApart, PurgedStamps, Stamps;
    if steps == [] {
      FirstStampsApart(s);
      NoStamps();
      assert Stamps(steps) + PurgedStamps(s.db) == PurgedStamps(s.db);
    } else {
      var before, step := steps[..|steps| - 1], steps[|steps| - 1];
      assert steps == before + [step];
      StampsSnoc(before, step);
      RunLogsOnce(s, before);
      RunKeepsErasure(s, before);
      NewStamp(before, step);
      StepLogsOnce(Run(s, before), step, Stamps(before) + PurgedStamps(s.db));
      assert Stamps(before) + PurgedStamps(s.db) + Stamps([step]) == Stamps(steps) + PurgedStamps(s.db);
    }
  }

  lemma NoStamps()
    ensures Stamps([]) == {}
  {
  }

  lemma FirstStampsApart(s: State)
    requires s.active == map[]
    ensures StampsApart(s, PurgedStamps(s.db))
  {
  }

  lemma NewStamp(before: seq<Step>, step: Step)
    requires StampsDiffer(before + [step])
    ensures step.Begin? ==> step.stamp !in Stamps(before) && step.stamp in Stamps([step])
  {
    var all := before + [step];
    assert all[|before|] == step;
    assert forall k :: 0 <= k < |before| ==> all[k] == before[k];
    assert step.Begin? ==> [step][0].stamp in Stamps([step]);
  }

  lemma StepLogsOnce(s: State, step: Step, used: set<Stamp>)
    requires Erasure(s.db) && LoggedOnce(s.db) && StampsApart(s, used) && (step.Begin? ==> step.stamp !in used)
    ensures LoggedOnce(Next(s, step).db) && StampsApart(Next(s, step), used + Stamps([step]))
  {
    hide RowsErased, RepliesErased, EditsErased, LogsMatch, AfterWrite, NextDb, Stamps, ReadPurge;
    StepKeepsStampsApart(s, step, used);
    if step.Finish? && step.process in s.active {
      WriteLogsOnce(s.db, s.active[step.process], step.t);
    } else {
      StepWritesNoLogs(s, step);
    }
  }

  function PurgedStamps(db: Db): set<Stamp> {
    set id | id in db.inquiries && db.inquiries[id].purged.Some? :: db.inquiries[id].purged.value
  }

  lemma StampsSnoc(steps: seq<Step>, step: Step)
    ensures Stamps(steps + [step]) == Stamps(steps) + Stamps([step])
  {
    var all := steps + [step];
    forall stamp | stamp in Stamps(steps) + Stamps([step])
      ensures stamp in Stamps(all)
    {
      if stamp in Stamps(steps) {
        var k :| 0 <= k < |steps| && steps[k].Begin? && steps[k].stamp == stamp;
        assert all[k].Begin? && all[k].stamp == stamp;
      } else {
        assert all[|steps|].Begin? && all[|steps|].stamp == stamp;
      }
    }
  }

  lemma RunTwo(s: State, a: Step, b: Step)
    ensures Run(s, [a, b]) == Next(Next(s, a), b)
  {
    hide Next;
    assert [a, b][..1] == [a] && [a][..0] == [];
    assert Run(s, [a]) == Next(Run(s, [a][..0]), a);
  }

  /** Two purges by one admin at the same millisecond that both read a candidate log it twice. */
  lemma SameStampLogsTwice(s: State, p: nat, q: nat, stamp: Stamp, days: int, t: int, id: nat)
    requires p != q && p !in s.active && q !in s.active && id in Candidates(s.db, None, stamp.at, days)
    ensures var log := PurgeLog(id, stamp, EffectiveRetentionDays(s.db.inquiries[id], days));
      var begun := Run(s, [Begin(p, stamp, None, days), Begin(q, stamp, None, days)]);
      Run(begun, [Finish(p, t), Finish(q, t)]).db.purgeLogs[log] == s.db.purgeLogs[log] + 2
  {
    hide AfterWrite, Run;
    var log := PurgeLog(id, stamp, EffectiveRetentionDays(s.db.inquiries[id], days));
    var purge := ReadPurge(s.db, stamp, None, days);
    var db1 := AfterWrite(s.db, purge, t);
    RunTwo(s, Begin(p, stamp, None, days), Begin(q, stamp, None, days));
    var begun := Run(s, [Begin(p, stamp, None, days), Begin(q, stamp, None, days)]);
    RunTwo(begun, Finish(p, t), Finish(q, t));
    assert Next(begun, Finish(p, t)).db == db1;
    WritePurgesIff(s.db, purge, t, id);
    LogsOfWrite(s.db, purge, t, log);
    LogsOfWrite(db1, purge, t, log);
  }

  // ---- rows that change between the read and the write ----

  ghost predicate LeavesAlone(steps: seq<Step>, process: nat) {
    forall k :: 0 <= k < |steps| ==>
      && (steps[k].Begin? ==> steps[k].process != process)
      && (steps[k].Finish? ==> steps[k].process != process)
  }

  ghost predicate NoEarlierThan(steps: seq<Step>, now: int) {
    forall k :: 0 <= k < |steps| ==>
      && (steps[k].Answer? ==> steps[k].t >= now)
      && (steps[k].WriteStatus? ==> steps[k].t >= now)
  }

  lemma {:induction false} PurgeWaits(s: State, steps: seq<Step>, process: nat)
    requires process in s.active && LeavesAlone(steps, process)
    ensures process in Run(s, steps).active && Run(s, steps).active[process] == s.active[process]
  {
    if steps != [] {
      PurgeWaits(s, steps[..|steps| - 1], process);
    }
  }

  /** The row is as it was, or already purged, or was last touched no earlier than `now`. */
  predicate TouchedSince(was: Inquiry, row: Inquiry, now: int) {
    && row.guestRetentionDays == was.guestRetentionDays
    && (row == was || row.purged.Some? || (row.updatedAt >= now && (row.closedAt.Some? ==> row.closedAt.value >= now)))
  }

  lemma StepTouchesLate(s: State, step: Step, now: int, was: Inquiry, id: nat)
    requires id in s.db.inquiries && TouchedSince(was, s.db.inquiries[id], now) && NoEarlierThan([step], now)
    ensures id in Next(s, step).db.inquiries && TouchedSince(was, Next(s, step).db.inquiries[id], now)
  {
    hide AfterWrite, ReadPurge;
    assert [step][0] == step;
    if step.Finish? && step.process in s.active {
      WritePurgesIff(s.db, s.active[step.process], step.t, id);
    }
  }

  /** Since the read a row is untouched, or already purged, or was last touched after the purge began. */
  lemma {:induction false} TouchedLate(s: State, steps: seq<Step>, now: int, id: nat)
    requires id in s.db.inquiries && NoEarlierThan(steps, now)
    ensures id in Run(s, steps).db.inquiries
    ensures TouchedSince(s.db.inquiries[id], Run(s, steps).db.inquiries[id], now)
  {
    hide Next, TouchedSince;
    if steps != [] {
      TouchedLate(s, steps[..|steps| - 1], now, id);
      StepTouchesLate(Run(s, steps[..|steps| - 1]), steps[|steps| - 1], now, s.db.inquiries[id], id);
    } else {
      Untouched(s.db.inquiries[id], now);
    }
  }

  lemma Untouched(row: Inquiry, now: int)
    ensures TouchedSince(row, row, now)
  {
  }

  lemma LateIsNoCandidate(row: Inquiry, now: int, days: int)
    requires days >= 0 && (row.guestRetentionDays.Some? ==> row.guestRetentionDays.value >= 0)
    requires row.updatedAt >= now && (row.closedAt.Some? ==> row.closedAt.value >= now)
    ensures !Candidate(row, now, days)
  {
    assert EffectiveRetentionDays(row, days) * DAY_MS >= 0;
  }

  /** A purge checks expiry only when it reads. What it purges was expired then; it still is when written exactly when
      the row has not changed in between. */
  lemma StillExpiredIffUntouched(s: State, process: nat, stamp: Stamp, requested: Option<set<nat>>, days: int,
                                 steps: seq<Step>, t: int, id: nat)
    requires process !in s.active && LeavesAlone(steps, process) && NoEarlierThan(steps, stamp.at) && days >= 0
    requires id in s.db.inquiries
    requires s.db.inquiries[id].guestRetentionDays.Some? ==> s.db.inquiries[id].guestRetentionDays.value >= 0
    requires var written := Run(Next(s, Begin(process, stamp, requested, days)), steps);
      !IsPurged(written.db, id) && IsPurged(Next(written, Finish(process, t)).db, id)
    ensures id in Candidates(s.db, requested, stamp.at, days)
    ensures var written := Run(Next(s, Begin(process, stamp, requested, days)), steps);
      && id in written.db.inquiries
      && (Candidate(written.db.inquiries[id], stamp.at, days) <==> written.db.inquiries[id] == s.db.inquiries[id])
  {
    hide ReportedIds, AfterWrite, Run, Candidate, NextDb, Erased;
    var begun := Next(s, Begin(process, stamp, requested, days));
    var written := Run(begun, steps);
    PurgeWaits(begun, steps, process);
    TouchedLate(begun, steps, stamp.at, id);
    WritePurgesIff(written.db, written.active[process], t, id);
    if written.db.inquiries[id] != s.db.inquiries[id] {
      LateIsNoCandidate(written.db.inquiries[id], stamp.at, days);
    }
  }

  /** For instance: answered again after the read, an inquiry is purged although its answer is new. */
  lemma FreshAnswerIsPurged(s: State, process: nat, stamp: Stamp, days: int, id: nat, reply: nat, body: string, t: int)
    requires process !in s.active && id in Candidates(s.db, None, stamp.at, days) && days >= 0
    requires s.db.inquiries[id].guestRetentionDays.Some? ==> s.db.inquiries[id].guestRetentionDays.value >= 0
    requires body != "" && reply !in s.db.replies && t >= stamp.at
    ensures var answered := Run(s, [Begin(process, stamp, None, days), Answer(id, reply, body, t)]);
      var after := Next(answered, Finish(process, t)).db;
      && id in answered.db.inquiries && !Candidate(answered.db.inquiries[id], stamp.at, days)
      && IsPurged(after, id) && reply in after.replies && after.replies[reply].body == PURGED_INQUIRY_REPLY_TEXT
  {
    hide AfterWrite, Run, ReportedIds;
    RunTwo(s, Begin(process, stamp, None, days), Answer(id, reply, body, t));
    var answered := Run(s, [Begin(process, stamp, None, days), Answer(id, reply, body, t)]);
    var p := answered.active[process];
    assert Writable(answered.db, p, id);
    LateIsNoCandidate(answered.db.inquiries[id], stamp.at, days);
    WritePurgesIff(answered.db, p, t, id);
    WritableIsReported(answered.db, p, id);
    WriteErasesReply(answered.db, p, t, reply);
  }

  lemma WriteErasesReply(db: Db, p: Purge, t: int, reply: nat)
    requires reply in db.replies && db.replies[reply].inquiry in ReportedIds(db, p)
    ensures var after := AfterWrite(db, p, t);
      reply in after.replies && after.replies[reply].body == PURGED_INQUIRY_REPLY_TEXT
  {
  }
}

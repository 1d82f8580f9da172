/** The documents of one policy in admin-terms.service.ts: drafts, publication now or later, archiving. Times are
    milliseconds since the epoch. */
module ManagedTerms {
  import opened Prelude
  import opened Sorting

  datatype Status = Draft | Published | Archived
  datatype Text = Text(version: string, title: string, subtitle: Option<string>, content: string,
                       changeSummary: Option<string>, effectiveAt: Option<int>, requiresReconsent: bool,
                       enforcementAt: Option<int>)
  datatype Document = Document(id: nat, text: Text, supersedes: Option<nat>, status: Status, publishedAt: Option<int>,
                               archivedAt: Option<int>, createdAt: int)
  datatype Outcome = Done | Unchanged | NotFound | PublishedImmutable | ArchivedImmutable | DuplicateVersion

  predicate Future(d: Document, now: int) { d.text.effectiveAt.Some? && d.text.effectiveAt.value > now }

  predicate InForce(d: Document, now: int) { d.status == Published && !Future(d, now) }

  function Key(d: Document): int { if d.text.effectiveAt.Some? then d.text.effectiveAt.value else 0 }

  function Stamp(d: Document): int { if d.publishedAt.Some? then d.publishedAt.value else d.createdAt }

  predicate LatestFirst(a: Document, b: Document) { Key(a) > Key(b) || (Key(a) == Key(b) && Stamp(a) >= Stamp(b)) }

  /** `currentPublishedDocument`. */
  function Current(docs: seq<Document>, now: int): Option<Document> {
    var sorted := Sort(Filter(docs, (d: Document) => InForce(d, now)), LatestFirst);
    if sorted == [] then None else Some(sorted[0])
  }

  predicate VersionTaken(docs: seq<Document>, version: string, id: nat) {
    exists k :: 0 <= k < |docs| && k != id && docs[k].text.version == version
  }

  /** A document's id is its place in the list. */
  ghost predicate Numbered(docs: seq<Document>) {
    forall k :: 0 <= k < |docs| ==> docs[k].id == k
  }

  // ---- the operations ----

  datatype Call = Create(text: Text) | Update(id: nat, text: Text) | Change(id: nat, to: Status)

  function Decide(docs: seq<Document>, call: Call): Outcome {
    match call
    case Create(text) => if VersionTaken(docs, text.version, |docs|) then DuplicateVersion else Done
    case Update(id, text) =>
      if id >= |docs| then NotFound
      else if docs[id].status != Draft then PublishedImmutable
      else if VersionTaken(docs, text.version, id) then DuplicateVersion else Done
    case Change(id, to) =>
      if id >= |docs| then NotFound
      else if docs[id].status == to then Unchanged
      else if docs[id].status == Archived then ArchivedImmutable else Done
  }

  /** The other published documents that publishing this one archives: those on the same side of now. */
  predicate Displaces(d: Document, other: Document, now: int) {
    other.status == Published && other.id != d.id && Future(other, now) == Future(d, now)
  }

  function AsPublished(d: Document, now: int): Document {
    d.(status := Published, publishedAt := Some(now), archivedAt := None)
  }

  function AsArchived(d: Document, now: int): Document { d.(status := Archived, archivedAt := Some(now)) }

  function ArchiveAll(docs: seq<Document>, ids: set<nat>, now: int): seq<Document> {
    seq(|docs|, (k: nat) requires k < |docs| => if docs[k].id in ids then AsArchived(docs[k], now) else docs[k])
  }

  function SupersededId(docs: seq<Document>, now: int): Option<nat> {
    match Current(docs, now)
    case None => None
    case Some(d) => Some(d.id)
  }

  function After(docs: seq<Document>, call: Call, now: int): seq<Document> {
    if Decide(docs, call) != Done then docs else
      match call
      case Create(text) => docs + [Document(|docs|, text, SupersededId(docs, now), Draft, None, None, now)]
      case Update(id, text) => docs[id := docs[id].(text := text)]
      case Change(id, to) =>
        if to == Published then
          seq(|docs|, (k: nat) requires k < |docs| =>
            if k == id then AsPublished(docs[k], now)
            else if Displaces(docs[id], docs[k], now) then AsArchived(docs[k], now) else docs[k])
        else docs[id := AsArchived(docs[id], now)]
  }

  /** A policy's documents as the service updates them. */
  class Policy {
    var documents: seq<Document>

    constructor ()
      ensures documents == []
    {
      documents := [];
    }

    method CreateVersion(text: Text, now: int) returns (outcome: Outcome)
      modifies this
      ensures outcome == Decide(old(documents), Create(text))
      ensures documents == After(old(documents), Create(text), now)
    {
      var supersedes := SupersededId(documents, now);
      if VersionTaken(documents, text.version, |documents|) { return DuplicateVersion; }
      documents := documents + [Document(|documents|, text, supersedes, Draft, None, None, now)];
      return Done;
    }

    method UpdateDraft(id: nat, text: Text) returns (outcome: Outcome)
      modifies this
      ensures outcome == Decide(old(documents), Update(id, text))
      ensures forall now :: documents == After(old(documents), Update(id, text), now)
    {
      if id >= |documents| { return NotFound; }
      var document := documents[id];
      if document.status != Draft { return PublishedImmutable; }
      if VersionTaken(documents, text.version, id) { return DuplicateVersion; }
      documents := documents[id := document.(text := text)];
      return Done;
    }

    method ChangeStatus(id: nat, to: Status, now: int) returns (outcome: Outcome)
      requires Numbered(documents) && to != Draft
      modifies this
      ensures outcome == Decide(old(documents), Change(id, to))
      ensures documents == After(old(documents), Change(id, to), now)
    {
      if id >= |documents| { return NotFound; }
      var document := documents[id];
      if document.status == to { return Unchanged; }
      if document.status == Archived { return ArchivedImmutable; }
      if to == Published {
        var scheduled := document.text.effectiveAt.Some? && document.text.effectiveAt.value > now;
        var archivedIds: set<nat>;
        if scheduled {
          archivedIds := set d | d in documents && d.status == Published && d.id != id
                                 && d.text.effectiveAt.Some? && d.text.effectiveAt.value > now :: d.id;
        } else {
          archivedIds := set d | d in documents && d.status == Published && d.id != id
                                 && (d.text.effectiveAt.None? || d.text.effectiveAt.value <= now) :: d.id;
        }
        documents := ArchiveAll(documents, archivedIds, now);
        documents := documents[id := documents[id].(status := Published, publishedAt := Some(now), archivedAt := None)];
      } else {
        documents := documents[id := documents[id].(status := Archived, archivedAt := Some(now))];
      }
      return Done;
    }
  }

  // ---- what every run keeps ----

  ghost predicate KeysDiffer(docs: seq<Document>) {
    forall a, b :: a in docs && b in docs && a.status == Published && b.status == Published ==>
      Key(a) == Key(b) ==> a == b
  }

  ghost predicate OneScheduled(docs: seq<Document>, now: int) {
    forall a, b :: a in docs && b in docs && a.status == Published && b.status == Published ==>
      Future(a, now) && Future(b, now) ==> a == b
  }

  ghost predicate VersionsDiffer(docs: seq<Document>) {
    forall j, k :: 0 <= j < k < |docs| ==> docs[j].text.version != docs[k].text.version
  }

  ghost predicate Sound(docs: seq<Document>, now: int) {
    Numbered(docs) && KeysDiffer(docs) && OneScheduled(docs, now) && VersionsDiffer(docs)
  }

  /** What a call leaves of a published document: itself, or it is the one just published. */
  lemma PublishedAfter(docs: seq<Document>, call: Call, now: int, d: Document)
    requires Numbered(docs) && d in After(docs, call, now) && d.status == Published
    ensures d in docs
      || (Decide(docs, call) == Done && call.Change? && call.to == Published && d == AsPublished(docs[call.id], now))
    ensures Decide(docs, call) == Done && call.Change? && call.to == Published ==>
      d.id == call.id || !Displaces(docs[call.id], d, now)
    ensures call.Change? && call.to == Published && Decide(docs, call) == Done && d.id == call.id ==>
      d == AsPublished(docs[call.id], now)
  {
    var after := After(docs, call, now);
    var k :| 0 <= k < |after| && after[k] == d;
  }

  lemma StepKeepsKeysApart(docs: seq<Document>, call: Call, now: int)
    requires Numbered(docs) && KeysDiffer(docs) && OneScheduled(docs, now) && now >= 0
    requires call.Change? ==> call.to != Draft
    ensures KeysDiffer(After(docs, call, now)) && OneScheduled(After(docs, call, now), now)
  {
    hide After;
    var after := After(docs, call, now);
    forall a, b | a in after && b in after && a.status == Published && b.status == Published
      ensures Key(a) == Key(b) ==> a == b
      ensures Future(a, now) && Future(b, now) ==> a == b
    {
      PublishedAfter(docs, call, now, a);
      PublishedAfter(docs, call, now, b);
    }
  }

  lemma StepKeepsSound(docs: seq<Document>, call: Call, now: int)
    requires Sound(docs, now) && now >= 0
    requires call.Change? ==> call.to != Draft
    ensures Sound(After(docs, call, now), now)
  {
    hide KeysDiffer, OneScheduled, Displaces, SupersededId;
    StepKeepsKeysApart(docs, call, now);
    StepKeepsVersionsApart(docs, call, now);
  }

  lemma StepKeepsVersionsApart(docs: seq<Document>, call: Call, now: int)
    requires Numbered(docs) && VersionsDiffer(docs)
    ensures Numbered(After(docs, call, now)) && VersionsDiffer(After(docs, call, now))
  {
    hide Displaces, SupersededId;
  }

  /** What was scheduled alone stays alone as time passes. */
  lemma TimeKeepsSound(docs: seq<Document>, now: int, later: int)
    requires Sound(docs, now) && now <= later
    ensures Sound(docs, later)
  {
  }

  datatype Event = Event(call: Call, now: int)

  ghost predicate Timely(events: seq<Event>, start: int) {
    && (forall k :: 0 <= k < |events| ==>
          start <= events[k].now && (events[k].call.Change? ==> events[k].call.to != Draft))
    && (forall j, k :: 0 <= j < k < |events| ==> events[j].now <= events[k].now)
  }

  function Run(docs: seq<Document>, events: seq<Event>): seq<Document> {
    if events == [] then docs else
      After(Run(docs, events[..|events| - 1]), events[|events| - 1].call, events[|events| - 1].now)
  }

  /** Under an advancing clock, at every moment from the last call on: at most one published document is future-dated,
      and no two published documents take effect at the same time. */
  lemma {:induction false} RunKeepsSound(docs: seq<Document>, events: seq<Event>, start: int, now: int)
    requires Sound(docs, start) && 0 <= start <= now && Timely(events, start)
    requires events != [] ==> events[|events| - 1].now <= now
    ensures Sound(Run(docs, events), now)
  {
    if events == [] {
      TimeKeepsSound(docs, start, now);
    } else {
      var last := events[|events| - 1];
      RunKeepsSound(docs, events[..|events| - 1], start, last.now);
      StepKeepsSound(Run(docs, events[..|events| - 1]), last.call, last.now);
      TimeKeepsSound(Run(docs, events), last.now, now);
    }
  }

  // ---- which document is current ----

  lemma LatestFirstIsPreorder()
    ensures TotalPreorder(LatestFirst)
  {
  }

  /** The current document is a published one, not future-dated, that took effect last, and of those that took effect at
      one time was published last; one without a time counts from the epoch, one without a stamp from its creation. */
  lemma CurrentIsLatest(docs: seq<Document>, now: int)
    requires Current(docs, now).Some?
    ensures var d := Current(docs, now).value;
      && d in docs && d.status == Published && (d.text.effectiveAt.Some? ==> d.text.effectiveAt.value <= now)
      && forall e :: e in docs && e.status == Published ==>
           e.text.effectiveAt == None || e.text.effectiveAt.value <= now ==>
           var since, until := if d.text.effectiveAt.Some? then d.text.effectiveAt.value else 0,
                               if e.text.effectiveAt.Some? then e.text.effectiveAt.value else 0;
           until < since
           || (until == since
               && (if e.publishedAt.Some? then e.publishedAt.value else e.createdAt)
                  <= if d.publishedAt.Some? then d.publishedAt.value else d.createdAt)
  {
    hide Sort, Filter;
    var inForce := (d: Document) => InForce(d, now);
    var kept := Filter(docs, inForce);
    var sorted := Sort(kept, LatestFirst);
    LatestFirstIsPreorder();
    FilterMembers(docs, inForce);
    SortSorted(kept, LatestFirst);
    SameMembers(kept, sorted);
    assert sorted[0] in sorted;
    forall e | e in sorted
      ensures LatestFirst(sorted[0], e)
    {
      HeadIsLeast(sorted, e, LatestFirst);
    }
  }

  /** The current document is the one document in force that took effect last, whatever the order of the list. */
  lemma CurrentIff(docs: seq<Document>, now: int, d: Document)
    requires KeysDiffer(docs)
    ensures InForce(d, now) <==>
      d.status == Published && (d.text.effectiveAt.Some? ==> d.text.effectiveAt.value <= now)
    ensures Key(d) == if d.text.effectiveAt.Some? then d.text.effectiveAt.value else 0
    ensures Current(docs, now) == Some(d) <==>
      d in docs && InForce(d, now) && forall other :: other in docs && InForce(other, now) ==> Key(other) <= Key(d)
  {
    hide Sort, Filter;
    var inForce := (d: Document) => InForce(d, now);
    var kept := Filter(docs, inForce);
    var sorted := Sort(kept, LatestFirst);
    LatestFirstIsPreorder();
    FilterMembers(docs, inForce);
    SortSorted(kept, LatestFirst);
    SameMembers(kept, sorted);
    assert forall other :: other in sorted <==> other in docs && InForce(other, now);
    if sorted != [] {
      var top := sorted[0];
      assert top in sorted;
      forall other | other in sorted
        ensures Key(other) <= Key(top)
      {
        HeadIsLeast(sorted, other, LatestFirst);
      }
    }
  }

  lemma NoCurrentIff(docs: seq<Document>, now: int)
    ensures Current(docs, now) == None <==> forall d :: d in docs ==> !InForce(d, now)
  {
    hide Sort;
    var inForce := (d: Document) => InForce(d, now);
    FilterMembers(docs, inForce);
    var kept := Filter(docs, inForce);
    if kept != [] {
      assert kept[0] in kept;
    }
    FilterAll(docs, inForce);
  }

  lemma CurrentIgnoresOrder(docs: seq<Document>, other: seq<Document>, now: int)
    requires KeysDiffer(docs) && multiset(docs) == multiset(other)
    ensures Current(docs, now) == Current(other, now)
  {
    SameMembers(docs, other);
    SameInForceSameCurrent(docs, other, now);
  }

  /** What is in force decides which document is current. */
  lemma SameInForceSameCurrent(docs: seq<Document>, other: seq<Document>, now: int)
    requires KeysDiffer(docs) && KeysDiffer(other)
    requires forall d :: d in docs && InForce(d, now) <==> d in other && InForce(d, now)
    ensures Current(docs, now) == Current(other, now)
  {
    hide Current;
    match Current(docs, now)
    case None =>
      NoCurrentIff(docs, now);
      NoCurrentIff(other, now);
    case Some(d) =>
      CurrentIff(docs, now, d);
      CurrentIff(other, now, d);
  }

  /** Writing drafts never changes what is current; a new one supersedes exactly the document current at that moment. */
  lemma DraftingChangesNothingInForce(docs: seq<Document>, call: Call, now: int)
    requires Sound(docs, now) && now >= 0 && !call.Change? && Decide(docs, call) == Done
    ensures var after := After(docs, call, now);
      && Current(after, now) == Current(docs, now)
      && (call.Create? ==> |after| == |docs| + 1 && after[|docs|].status == Draft)
      && (call.Create? ==> forall id: nat :: after[|docs|].supersedes == Some(id) <==>
            && id < |docs| && InForce(docs[id], now)
            && forall d :: d in docs && InForce(d, now) ==> Key(d) <= Key(docs[id]))
      && (call.Update? ==> call.id < |after| && after[call.id].text == call.text && after[call.id].status == Draft)
  {
    hide Current;
    var after := After(docs, call, now);
    StepKeepsSound(docs, call, now);
    forall d
      ensures d in docs && InForce(d, now) <==> d in after && InForce(d, now)
    {
      if d in docs && InForce(d, now) { assert after[d.id] == d; }
    }
    SameInForceSameCurrent(docs, after, now);
    if call.Create? {
      forall id: nat
        ensures after[|docs|].supersedes == Some(id) <==>
          id < |docs| && InForce(docs[id], now) && forall d :: d in docs && InForce(d, now) ==> Key(d) <= Key(docs[id])
      {
        if id < |docs| { CurrentIff(docs, now, docs[id]); }
        CurrentIsListed(docs, now);
      }
    }
  }

  lemma CurrentIsListed(docs: seq<Document>, now: int)
    requires Numbered(docs) && KeysDiffer(docs)
    ensures Current(docs, now).Some? ==>
      Current(docs, now).value.id < |docs| && docs[Current(docs, now).value.id] == Current(docs, now).value
  {
    hide Current;
    if Current(docs, now).Some? { CurrentIff(docs, now, Current(docs, now).value); }
  }

  /** Published for now, a document is at once the only one in force, and so the current one. */
  lemma ImmediatePublishIsCurrent(docs: seq<Document>, id: nat, now: int)
    requires Sound(docs, now) && now >= 0 && Decide(docs, Change(id, Published)) == Done && !Future(docs[id], now)
    ensures var after := After(docs, Change(id, Published), now);
      && Current(after, now) == Some(after[id]) && after[id].publishedAt == Some(now) && after[id].text == docs[id].text
      && (forall d :: d in after && InForce(d, now) ==> d == after[id])
      && (forall k :: 0 <= k < |docs| && docs[k].status == Published && Future(docs[k], now) ==> after[k] == docs[k])
  {
    var after := After(docs, Change(id, Published), now);
    StepKeepsSound(docs, Change(id, Published), now);
    assert after[id] == AsPublished(docs[id], now) && after[id] in after;
    forall d | d in after && InForce(d, now)
      ensures d == after[id]
    {
      PublishedAfter(docs, Change(id, Published), now, d);
    }
    CurrentIff(after, now, after[id]);
  }

  /** Scheduled, it is the only future-dated one, and what is in force stays so. */
  lemma ScheduledPublishChangesNothingNow(docs: seq<Document>, id: nat, now: int)
    requires Sound(docs, now) && now >= 0 && Decide(docs, Change(id, Published)) == Done && Future(docs[id], now)
    ensures var after := After(docs, Change(id, Published), now);
      && Current(after, now) == Current(docs, now)
      && (forall d :: d in after && d.status == Published && Future(d, now) ==> d == after[id])
      && (forall d :: d in after && InForce(d, now) <==> d in docs && InForce(d, now))
  {
    var after := After(docs, Change(id, Published), now);
    StepKeepsSound(docs, Change(id, Published), now);
    forall d | d in after && d.status == Published
      ensures Future(d, now) ==> d == after[id]
      ensures !Future(d, now) ==> d in docs
    {
      PublishedAfter(docs, Change(id, Published), now, d);
    }
    forall d | d in docs && InForce(d, now)
      ensures d in after
    {
      assert after[d.id] == d;
    }
    SameInForceSameCurrent(docs, after, now);
  }

  /** Still published when its time comes, a scheduled document becomes current at that moment, after any run. */
  lemma ScheduledTakesOver(docs: seq<Document>, events: seq<Event>, start: int, d: Document)
    requires Sound(docs, start) && 0 <= start && Timely(events, start) && d.text.effectiveAt.Some?
    requires var at := d.text.effectiveAt.value; start <= at && (events != [] ==> events[|events| - 1].now <= at)
    requires d in Run(docs, events) && d.status == Published
    ensures Current(Run(docs, events), d.text.effectiveAt.value) == Some(d)
  {
    var at := d.text.effectiveAt.value;
    RunKeepsSound(docs, events, start, at);
    CurrentIff(Run(docs, events), at, d);
  }

  /** Archiving the current document does not leave the policy without one while an older document was never archived:
      the one that took effect last before it comes back into force. */
  lemma ArchivingCurrentBringsBack(docs: seq<Document>, id: nat, now: int, back: Document)
    requires Sound(docs, now) && id < |docs| && Current(docs, now) == Some(docs[id])
    ensures Current(After(docs, Change(id, Archived), now), now) == Some(back) <==>
      back in docs && back.id != id && InForce(back, now)
      && forall other :: other in docs && other.id != id && InForce(other, now) ==> Key(other) <= Key(back)
  {
    var after := After(docs, Change(id, Archived), now);
    CurrentIff(docs, now, docs[id]);
    assert forall d :: d in after && d.status == Published ==> d in docs && d.id != id;
    forall d | d in docs && d.id != id
      ensures d in after
    {
      assert after[d.id] == d;
    }
    assert KeysDiffer(after);
    CurrentIff(after, now, back);
  }

  /** Archiving takes exactly one document out: a draft or a scheduled one changes nothing in force. */
  lemma ArchivingChangesOnlyOne(docs: seq<Document>, id: nat, now: int)
    requires Sound(docs, now) && now >= 0 && Decide(docs, Change(id, Archived)) == Done
    ensures var after := After(docs, Change(id, Archived), now);
      && |after| == |docs| && (forall k :: 0 <= k < |docs| && k != id ==> after[k] == docs[k])
      && after[id].status == Archived && after[id].archivedAt == Some(now) && after[id].text == docs[id].text
      && (Current(docs, now) != Some(docs[id]) ==> Current(after, now) == Current(docs, now))
  {
    hide Current;
    var after := After(docs, Change(id, Archived), now);
    StepKeepsSound(docs, Change(id, Archived), now);
    assert forall k :: 0 <= k < |docs| ==> after[k].id == docs[k].id;
    assert forall d :: d in docs && d.id != id ==> after[d.id] == d;
    assert forall d :: d in after && d.id != id ==> docs[d.id] == d;
    if Current(docs, now) != Some(docs[id]) {
      match Current(docs, now)
      case None =>
        NoCurrentIff(docs, now);
        NoCurrentIff(after, now);
      case Some(d) =>
        CurrentIff(docs, now, d);
        CurrentIff(after, now, d);
    }
  }

  /** When a call is carried out. */
  lemma DoneIff(docs: seq<Document>, call: Call)
    ensures Decide(docs, call) == Done <==>
      match call
      case Create(text) => forall k :: 0 <= k < |docs| ==> docs[k].text.version != text.version
      case Update(id, text) =>
        && id < |docs| && docs[id].status == Draft
        && forall k :: 0 <= k < |docs| && k != id ==> docs[k].text.version != text.version
      case Change(id, to) => id < |docs| && docs[id].status != Archived && docs[id].status != to
  {
  }

  /** A status goes with its stamps. */
  ghost predicate Stamped(docs: seq<Document>) {
    forall d :: d in docs ==>
      && (d.status == Draft ==> d.publishedAt == None && d.archivedAt == None)
      && (d.status == Published ==> d.publishedAt.Some? && d.archivedAt == None)
      && (d.status == Archived ==> d.archivedAt.Some?)
  }

  /** A call stamps what it publishes or archives with its own time, and only that. */
  lemma StepStamps(docs: seq<Document>, call: Call, now: int, k: nat)
    requires Stamped(docs) && k < |docs| && (call.Change? ==> call.to != Draft)
    ensures Stamped(After(docs, call, now))
    ensures var before, after := docs[k], After(docs, call, now)[k];
      && (after.status == Published && before.status != Published ==> after.publishedAt == Some(now))
      && (after.status == Archived && before.status != Archived ==> after.archivedAt == Some(now))
      && (after.status == before.status ==>
            after.publishedAt == before.publishedAt && after.archivedAt == before.archivedAt)
      && (before.status == Published ==> after.publishedAt == before.publishedAt)
  {
    var after := After(docs, call, now);
    forall j | 0 <= j < |after|
      ensures j < |docs| ==> docs[j] in docs
      ensures (after[j].status == Draft ==> after[j].publishedAt == None && after[j].archivedAt == None)
      ensures (after[j].status == Published ==> after[j].publishedAt.Some? && after[j].archivedAt == None)
      ensures (after[j].status == Archived ==> after[j].archivedAt.Some?)
    {
    }
  }

  lemma {:induction false} RunStamps(docs: seq<Document>, events: seq<Event>, start: int)
    requires Stamped(docs) && Timely(events, start)
    ensures Stamped(Run(docs, events))
  {
    if events != [] {
      var before, last := Run(docs, events[..|events| - 1]), events[|events| - 1];
      RunStamps(docs, events[..|events| - 1], start);
      if before != [] {
        StepStamps(before, last.call, last.now, 0);
      }
    }
  }

  // ---- what no later call changes ----

  /** A step keeps every document's place and number, the text of all but drafts, and archived documents entirely. */
  ghost predicate Preserves(before: seq<Document>, after: seq<Document>) {
    && |before| <= |after|
    && forall k :: 0 <= k < |before| ==>
        && after[k].id == before[k].id && after[k].createdAt == before[k].createdAt
        && after[k].supersedes == before[k].supersedes
        && (before[k].status == Archived ==> after[k] == before[k])
        && (before[k].status == Published ==>
              || after[k] == before[k]
              || (after[k].status == Archived
                  && before[k] == after[k].(status := Published, archivedAt := before[k].archivedAt)))
        && (before[k].status != Draft ==> after[k].text == before[k].text)
  }

  /** Over any run archived is final, a published document can only be archived, and no text changes after its draft. */
  lemma {:induction false} RunPreserves(docs: seq<Document>, events: seq<Event>, n: nat, start: int)
    requires Timely(events, start) && n <= |events|
    ensures Preserves(Run(docs, events[..n]), Run(docs, events))
  {
    if n == |events| {
      assert events[..n] == events;
    } else {
      var before, last := events[..|events| - 1], events[|events| - 1];
      RunPreserves(docs, before, n, start);
      assert before[..n] == events[..n];
      StepPreserves(Run(docs, before), last.call, last.now);
      PreservesChains(Run(docs, events[..n]), Run(docs, before), Run(docs, events));
    }
  }

  lemma StepPreserves(docs: seq<Document>, call: Call, now: int)
    requires call.Change? ==> call.to != Draft
    ensures Preserves(docs, After(docs, call, now))
  {
  }

  lemma PreservesChains(a: seq<Document>, b: seq<Document>, c: seq<Document>)
    requires Preserves(a, b) && Preserves(b, c)
    ensures Preserves(a, c)
  {
    forall k | 0 <= k < |a|
      ensures a[k].status == Archived ==> c[k] == a[k]
    {
      assert b[k].status == Archived ==> c[k] == b[k];
    }
  }
}

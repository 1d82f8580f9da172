/** How admin-ops.service.ts delivers a claimed broadcast: pages of active users by an id cursor, and a tally. */
module BroadcastDelivery {
  import opened Prelude

  const CHUNK_SIZE: nat := 30

  datatype NativeSummary = NativeSummary(devices: nat, delivered: nat, failed: nat, disabled: bool)
  datatype Summary = Summary(subscriptions: nat, delivered: nat, failed: nat, disabled: bool, native: NativeSummary)

  /** The push part of an answer; `native` is absent until the first summary arrives. */
  datatype Tally = Tally(subscriptions: nat, delivered: nat, failed: nat, disabled: bool, native: Option<NativeSummary>)

  datatype Kind = Sent | Skipped | Failed
  datatype Outcome = Outcome(kind: Kind, push: Option<Summary>)

  const EMPTY_TALLY := Tally(0, 0, 0, false, None)
  const EMPTY_NATIVE := NativeSummary(0, 0, 0, false)

  function AddSummary(t: Tally, push: Option<Summary>): Tally {
    match push
    case None => t
    case Some(s) =>
      var n := if t.native == None then EMPTY_NATIVE else t.native.value;
      Tally(t.subscriptions + s.subscriptions, t.delivered + s.delivered, t.failed + s.failed, t.disabled || s.disabled,
        Some(NativeSummary(n.devices + s.native.devices, n.delivered + s.native.delivered, n.failed + s.native.failed,
                           n.disabled || s.native.disabled)))
  }

  /** All outcomes added up in one pass, without chunks. */
  function TallyOf(outcomes: seq<Outcome>): Tally {
    if outcomes == [] then EMPTY_TALLY
    else AddSummary(TallyOf(outcomes[..|outcomes| - 1]), outcomes[|outcomes| - 1].push)
  }

  function CountOf(outcomes: seq<Outcome>, kind: Kind): nat {
    if outcomes == [] then 0
    else CountOf(outcomes[..|outcomes| - 1], kind) + if outcomes[|outcomes| - 1].kind == kind then 1 else 0
  }

  /** The running tally that `addPushTally` updates in place. */
  class PushTally {
    var subscriptions: nat
    var delivered: nat
    var failed: nat
    var disabled: bool
    var native: Option<NativeSummary>

    function Value(): Tally
      reads this
    {
      Tally(subscriptions, delivered, failed, disabled, native)
    }

    constructor ()
      ensures Value() == EMPTY_TALLY
    {
      subscriptions, delivered, failed, disabled, native := 0, 0, 0, false, None;
    }

    method Add(push: Option<Summary>)
      modifies this
      ensures Value() == AddSummary(old(Value()), push)
    {
      if push == None { return; }
      var s := push.value;
      subscriptions := subscriptions + s.subscriptions;
      delivered := delivered + s.delivered;
      failed := failed + s.failed;
      if s.disabled { disabled := true; }
      if native == None { native := Some(EMPTY_NATIVE); }
      var n := native.value;
      n := n.(devices := n.devices + s.native.devices);
      n := n.(delivered := n.delivered + s.native.delivered);
      n := n.(failed := n.failed + s.native.failed);
      if s.native.disabled { n := n.(disabled := true); }
      native := Some(n);
    }
  }

  /** `findMany` over the active users in id order: the first page, or the page after the cursor row. */
  function Page(users: seq<nat>, cursor: Option<nat>): seq<nat> {
    if cursor == None then FirstPage(users)
    else if users == [] then []
    else if users[0] == cursor.value then FirstPage(users[1..])
    else Page(users[1..], cursor)
  }

  function FirstPage(users: seq<nat>): seq<nat> {
    if |users| > CHUNK_SIZE then users[..CHUNK_SIZE] else users
  }

  predicate Ascending(ids: seq<nat>) {
    forall i, j :: 0 <= i < j < |ids| ==> ids[i] < ids[j]
  }

  lemma {:induction false} PageAfterCursor(users: seq<nat>, k: nat)
    requires Ascending(users) && k < |users|
    ensures Page(users, Some(users[k])) == FirstPage(users[k + 1..])
  {
    if k > 0 {
      PageAfterCursor(users[1..], k - 1);
      assert users[1..][k - 1] == users[k];
      assert users[1..][k..] == users[k + 1..];
    }
  }

  function Outcomes(users: seq<nat>, send: nat -> Outcome): seq<Outcome> {
    seq(|users|, i requires 0 <= i < |users| => send(users[i]))
  }

  datatype BroadcastResult = BroadcastResult(sent: nat, skipped: nat, failed: nat, push: Tally)

  /** What visiting these users in this order adds up to. */
  function ResultOf(outcomes: seq<Outcome>): BroadcastResult {
    BroadcastResult(CountOf(outcomes, Sent), CountOf(outcomes, Skipped), CountOf(outcomes, Failed), TallyOf(outcomes))
  }

  /** How many of the recipients had an outcome of the kind. */
  function Recipients(users: seq<nat>, send: nat -> Outcome, kind: Kind): nat {
    |set k: nat | k < |users| && send(users[k]).kind == kind|
  }

  /** A field of the recipients' summaries added up; a recipient without one adds nothing. */
  function SumOver(users: seq<nat>, send: nat -> Outcome, field: Summary -> nat): nat {
    if users == [] then 0
    else (if send(users[0]).push.Some? then field(send(users[0]).push.value) else 0) + SumOver(users[1..], send, field)
  }

  predicate SomeSummary(users: seq<nat>, send: nat -> Outcome, has: Summary -> bool) {
    exists k :: 0 <= k < |users| && send(users[k]).push.Some? && has(send(users[k]).push.value)
  }

  /** Each number of a result is what it says: recipients counted by outcome, summaries added field by field. */
  ghost predicate IsTotal(r: BroadcastResult, users: seq<nat>, send: nat -> Outcome) {
    && r.sent == Recipients(users, send, Sent)
    && r.skipped == Recipients(users, send, Skipped)
    && r.failed == Recipients(users, send, Failed)
    && r.push.subscriptions == SumOver(users, send, (s: Summary) => s.subscriptions)
    && r.push.delivered == SumOver(users, send, (s: Summary) => s.delivered)
    && r.push.failed == SumOver(users, send, (s: Summary) => s.failed)
    && (r.push.disabled <==> SomeSummary(users, send, (s: Summary) => s.disabled))
    && (r.push.native.Some? <==> SomeSummary(users, send, (s: Summary) => true))
    && (r.push.native.Some? ==> var n := r.push.native.value;
          && n.devices == SumOver(users, send, (s: Summary) => s.native.devices)
          && n.delivered == SumOver(users, send, (s: Summary) => s.native.delivered)
          && n.failed == SumOver(users, send, (s: Summary) => s.native.failed)
          && (n.disabled <==> SomeSummary(users, send, (s: Summary) => s.native.disabled)))
  }

  /** The recipients of one page, on top of the users visited before it. */
  method DeliverPage(page: seq<nat>, send: nat -> Outcome, counts: (nat, nat, nat), push: PushTally,
                     ghost before: seq<nat>)
    returns (after: (nat, nat, nat))
    requires BroadcastResult(counts.0, counts.1, counts.2, push.Value()) == ResultOf(Outcomes(before, send))
    modifies push
    ensures BroadcastResult(after.0, after.1, after.2, push.Value()) == ResultOf(Outcomes(before + page, send))
  {
    var (sent, skipped, failed) := counts;
    assert before + page[..0] == before;
    for i := 0 to |page|
      invariant BroadcastResult(sent, skipped, failed, push.Value()) == ResultOf(Outcomes(before + page[..i], send))
    {
      var outcome := send(page[i]);
      OutcomesSnoc(before + page[..i], page[i], send);
      assert before + page[..i] + [page[i]] == before + page[..i + 1];
      match outcome.kind {
        case Sent => sent := sent + 1;
        case Skipped => skipped := skipped + 1;
        case Failed => failed := failed + 1;
      }
      push.Add(outcome.push);
    }
    assert page[..|page|] == page;
    after := (sent, skipped, failed);
  }

  /** The loop makes one query more than there are full pages; number `faultAt`, if it makes that many, throws. */
  predicate Faults(users: seq<nat>, faultAt: Option<nat>) {
    faultAt.Some? && faultAt.value <= |users| / CHUNK_SIZE
  }

  /** Whom the loop gets to: everyone, or those on the pages before the query that throws. */
  function VisitedBy(users: seq<nat>, faultAt: Option<nat>): seq<nat> {
    if Faults(users, faultAt) then users[..CHUNK_SIZE * faultAt.value] else users
  }

  /** The cursor loop. `send` is what `sendToOneRecipient` answers for each user; it never throws. No result stands for
      the error of a query. */
  method DeliverToAll(users: seq<nat>, send: nat -> Outcome, faultAt: Option<nat>)
    returns (visited: seq<nat>, result: Option<BroadcastResult>)
    requires Ascending(users)
    ensures visited == VisitedBy(users, faultAt)
    ensures result == if Faults(users, faultAt) then None else Some(ResultOf(Outcomes(users, send)))
    ensures result.Some? ==> IsTotal(result.value, users, send)
    ensures result.Some? ==> result.value.sent + result.value.skipped + result.value.failed == |users|
  {
    hide ResultOf, Page, Outcomes, VisitedTo, IsTotal;
    var push := new PushTally();
    var cursor: Option<nat> := None;
    var counts := (0, 0, 0);
    var query: nat := 0;
    visited := [];
    NothingVisited(users, send);
    while true
      invariant fresh(push)
      invariant VisitedTo(users, visited, cursor) && |visited| == CHUNK_SIZE * query <= |users|
      invariant faultAt.Some? ==> query <= faultAt.value
      invariant BroadcastResult(counts.0, counts.1, counts.2, push.Value()) == ResultOf(Outcomes(visited, send))
      decreases |users| - |visited|
    {
      if faultAt == Some(query) {
        VisitedIsPrefix(users, visited, cursor);
        return visited, None;
      }
      var page := Page(users, cursor);
      NextPage(users, visited, cursor);
      if |page| == 0 { break; }
      cursor := Some(page[|page| - 1]);
      counts := DeliverPage(page, send, counts, push, visited);
      visited := visited + page;
      if |page| < CHUNK_SIZE { break; }
      query := query + 1;
    }
    ResultIsTotal(users, send);
    ResultAccountsForAll(users, send);
    result := Some(BroadcastResult(counts.0, counts.1, counts.2, push.Value()));
  }

  /** Query number q is made exactly when q full pages come before it; those are the users visited when it throws. */
  lemma QueryIsMadeIff(users: seq<nat>, q: nat)
    ensures Faults(users, Some(q)) <==> 30 * q <= |users|
    ensures VisitedBy(users, Some(q)) == if 30 * q <= |users| then users[..30 * q] else users
    ensures !Faults(users, None) && VisitedBy(users, None) == users
  {
  }

  lemma VisitedIsPrefix(users: seq<nat>, visited: seq<nat>, cursor: Option<nat>)
    requires VisitedTo(users, visited, cursor)
    ensures |visited| <= |users| && visited == users[..|visited|]
  {
  }

  lemma NothingVisited(users: seq<nat>, send: nat -> Outcome)
    ensures VisitedTo(users, [], None)
    ensures BroadcastResult(0, 0, 0, EMPTY_TALLY) == ResultOf(Outcomes([], send))
  {
  }

  /** The users visited are a prefix and the cursor is the last of them. */
  ghost predicate VisitedTo(users: seq<nat>, visited: seq<nat>, cursor: Option<nat>) {
    visited <= users && cursor == if visited == [] then None else Some(visited[|visited| - 1])
  }

  /** The page after the users visited so far; it is short only when it reaches the end. */
  lemma NextPage(users: seq<nat>, visited: seq<nat>, cursor: Option<nat>)
    requires Ascending(users) && VisitedTo(users, visited, cursor)
    ensures var page := Page(users, cursor);
      |visited + page| <= |users| && |page| <= CHUNK_SIZE
      && (page != [] ==> VisitedTo(users, visited + page, Some(page[|page| - 1])))
      && (|page| < CHUNK_SIZE ==> visited + page == users)
  {
    hide Page, FirstPage, Ascending;
    assert visited == users[..|visited|];
    PageStartsAfter(users, visited, cursor);
    FirstPageSplits(users, |visited|);
    var page := Page(users, cursor);
    PrefixWithLast(users, visited, page);
  }

  lemma PrefixWithLast(users: seq<nat>, visited: seq<nat>, page: seq<nat>)
    requires |visited| + |page| <= |users| && visited + page == users[..|visited| + |page|]
    ensures page != [] ==> VisitedTo(users, visited + page, Some(page[|page| - 1]))
  {
  }

  lemma PageStartsAfter(users: seq<nat>, visited: seq<nat>, cursor: Option<nat>)
    requires Ascending(users) && VisitedTo(users, visited, cursor)
    ensures Page(users, cursor) == FirstPage(users[|visited|..])
  {
    hide FirstPage;
    var done := |visited|;
    if done > 0 {
      assert users[done - 1] == visited[done - 1];
      PageAfterCursor(users, done - 1);
    } else {
      assert users[done..] == users;
    }
  }

  lemma FirstPageSplits(users: seq<nat>, done: nat)
    requires done <= |users|
    ensures var page := FirstPage(users[done..]);
      done + |page| <= |users| && |page| <= CHUNK_SIZE && users[..done] + page == users[..done + |page|]
      && (|page| < CHUNK_SIZE ==> users[..done] + page == users)
  {
    var page := FirstPage(users[done..]);
    assert page == users[done..done + |page|];
  }

  lemma ResultAccountsForAll(users: seq<nat>, send: nat -> Outcome)
    ensures var r := ResultOf(Outcomes(users, send)); r.sent + r.skipped + r.failed == |users|
  {
    KindsPartition(Outcomes(users, send));
  }

  lemma OutcomesSnoc(users: seq<nat>, user: nat, send: nat -> Outcome)
    ensures Outcomes(users + [user], send) == Outcomes(users, send) + [send(user)]
    ensures TallyOf(Outcomes(users + [user], send)) == AddSummary(TallyOf(Outcomes(users, send)), send(user).push)
    ensures forall kind :: CountOf(Outcomes(users + [user], send), kind)
                           == CountOf(Outcomes(users, send), kind) + if send(user).kind == kind then 1 else 0
  {
    var all := Outcomes(users + [user], send);
    assert all == Outcomes(users, send) + [send(user)];
    assert all[..|all| - 1] == Outcomes(users, send);
  }

  lemma {:induction false} KindsPartition(outcomes: seq<Outcome>)
    ensures CountOf(outcomes, Sent) + CountOf(outcomes, Skipped) + CountOf(outcomes, Failed) == |outcomes|
  {
    if outcomes != [] { KindsPartition(outcomes[..|outcomes| - 1]); }
  }

  /** The native part is present exactly when some recipient had a summary; a flag is set exactly when one was. */
  lemma {:induction false} TallyFlags(outcomes: seq<Outcome>)
    ensures TallyOf(outcomes).native.Some? <==> exists i :: 0 <= i < |outcomes| && outcomes[i].push.Some?
    ensures TallyOf(outcomes).disabled <==>
      exists i :: 0 <= i < |outcomes| && outcomes[i].push.Some? && outcomes[i].push.value.disabled
    ensures TallyOf(outcomes).native.Some? ==> (TallyOf(outcomes).native.value.disabled <==>
      exists i :: 0 <= i < |outcomes| && outcomes[i].push.Some? && outcomes[i].push.value.native.disabled)
  {
    if outcomes != [] {
      var n := |outcomes| - 1;
      var init := outcomes[..n];
      TallyFlags(init);
      assert forall i :: 0 <= i < n ==> init[i] == outcomes[i];
      assert TallyOf(outcomes) == AddSummary(TallyOf(init), outcomes[n].push);
    }
  }

  // ---- what the numbers mean ----

  lemma RecipientsSnoc(users: seq<nat>, user: nat, send: nat -> Outcome, kind: Kind)
    ensures Recipients(users + [user], send, kind)
      == Recipients(users, send, kind) + if send(user).kind == kind then 1 else 0
  {
    var all := users + [user];
    var before := set k: nat | k < |users| && send(users[k]).kind == kind;
    var after := set k: nat | k < |all| && send(all[k]).kind == kind;
    assert |users| !in before;
    assert after == if send(user).kind == kind then before + {|users|} else before;
  }

  lemma {:induction false} SumSnoc(users: seq<nat>, user: nat, send: nat -> Outcome, field: Summary -> nat)
    ensures SumOver(users + [user], send, field)
      == SumOver(users, send, field) + if send(user).push.Some? then field(send(user).push.value) else 0
  {
    var all := users + [user];
    if users == [] {
      assert all[1..] == [] && all[0] == user;
    } else {
      SumSnoc(users[1..], user, send, field);
      assert all[1..] == users[1..] + [user];
    }
  }

  lemma SomeSnoc(users: seq<nat>, user: nat, send: nat -> Outcome, has: Summary -> bool)
    ensures SomeSummary(users + [user], send, has)
      <==> SomeSummary(users, send, has) || (send(user).push.Some? && has(send(user).push.value))
  {
    var all := users + [user];
    assert all[|users|] == user;
    assert forall k :: 0 <= k < |users| ==> all[k] == users[k];
  }

  lemma StepIsTotal(r: BroadcastResult, users: seq<nat>, user: nat, send: nat -> Outcome)
    requires IsTotal(r, users, send)
    ensures IsTotal(BroadcastResult(r.sent + if send(user).kind == Sent then 1 else 0,
                                    r.skipped + if send(user).kind == Skipped then 1 else 0,
                                    r.failed + if send(user).kind == Failed then 1 else 0,
                                    AddSummary(r.push, send(user).push)), users + [user], send)
  {
    hide Recipients, SumOver, SomeSummary;
    RecipientsSnoc(users, user, send, Sent);
    RecipientsSnoc(users, user, send, Skipped);
    RecipientsSnoc(users, user, send, Failed);
    SumSnoc(users, user, send, (s: Summary) => s.subscriptions);
    SumSnoc(users, user, send, (s: Summary) => s.delivered);
    SumSnoc(users, user, send, (s: Summary) => s.failed);
    SumSnoc(users, user, send, (s: Summary) => s.native.devices);
    SumSnoc(users, user, send, (s: Summary) => s.native.delivered);
    SumSnoc(users, user, send, (s: Summary) => s.native.failed);
    SomeSnoc(users, user, send, (s: Summary) => s.disabled);
    SomeSnoc(users, user, send, (s: Summary) => true);
    SomeSnoc(users, user, send, (s: Summary) => s.native.disabled);
    if r.push.native == None {
      NoSummary(users, send);
    }
  }

  lemma {:induction false} NoSummary(users: seq<nat>, send: nat -> Outcome)
    requires !SomeSummary(users, send, (s: Summary) => true)
    ensures forall field: Summary -> nat :: SumOver(users, send, field) == 0
    ensures forall has: Summary -> bool :: !SomeSummary(users, send, has)
  {
    assert forall k :: 0 <= k < |users| ==> send(users[k]).push == None;
    forall field: Summary -> nat
      ensures SumOver(users, send, field) == 0
    {
      NothingToSum(users, send, field);
    }
  }

  lemma {:induction false} NothingToSum(users: seq<nat>, send: nat -> Outcome, field: Summary -> nat)
    requires forall k :: 0 <= k < |users| ==> send(users[k]).push == None
    ensures SumOver(users, send, field) == 0
  {
    if users != [] {
      NothingToSum(users[1..], send, field);
    }
  }

  /** A result is a count of its recipients and a sum of their summaries, field by field. */
  lemma {:induction false} ResultIsTotal(users: seq<nat>, send: nat -> Outcome)
    ensures IsTotal(ResultOf(Outcomes(users, send)), users, send)
  {
    hide IsTotal, Outcomes;
    if users == [] {
      NobodyIsTotal(send);
    } else {
      var before, user := users[..|users| - 1], users[|users| - 1];
      ResultIsTotal(before, send);
      OutcomesSnoc(before, user, send);
      StepIsTotal(ResultOf(Outcomes(before, send)), before, user, send);
      assert users == before + [user];
    }
  }

  lemma NobodyIsTotal(send: nat -> Outcome)
    ensures IsTotal(ResultOf(Outcomes([], send)), [], send)
  {
    NoSummary([], send);
  }

  lemma AddSummaryCommutes(t: Tally, a: Option<Summary>, b: Option<Summary>)
    ensures AddSummary(AddSummary(t, a), b) == AddSummary(AddSummary(t, b), a)
  {
  }

  lemma {:induction false} TallyWithout(outcomes: seq<Outcome>, k: nat)
    requires k < |outcomes|
    ensures TallyOf(outcomes) == AddSummary(TallyOf(outcomes[..k] + outcomes[k + 1..]), outcomes[k].push)
    decreases |outcomes|
  {
    var n := |outcomes| - 1;
    var rest := outcomes[..k] + outcomes[k + 1..];
    if k == n {
      assert rest == outcomes[..n];
    } else {
      var init := outcomes[..n];
      TallyWithout(init, k);
      assert rest[..n - 1] == init[..k] + init[k + 1..];
      assert rest[n - 1] == outcomes[n];
      AddSummaryCommutes(TallyOf(rest[..n - 1]), outcomes[n].push, outcomes[k].push);
    }
  }

  /** Recipients inside a chunk may answer in any order: the tally depends only on the multiset of outcomes. */
  lemma {:induction false} TallyIgnoresOrder(a: seq<Outcome>, b: seq<Outcome>)
    requires multiset(a) == multiset(b)
    ensures TallyOf(a) == TallyOf(b)
    decreases |a|
  {
    assert |multiset(a)| == |a| && |multiset(b)| == |b|;
    if a != [] {
      var n := |a| - 1;
      assert a[n] in multiset(b);
      var k :| 0 <= k < |b| && b[k] == a[n];
      WithoutOne(a, n);
      WithoutOne(b, k);
      TallyIgnoresOrder(a[..n] + a[n + 1..], b[..k] + b[k + 1..]);
      TallyWithout(a, n);
      TallyWithout(b, k);
    }
  }

  lemma WithoutOne(s: seq<Outcome>, k: nat)
    requires k < |s|
    ensures multiset(s[..k] + s[k + 1..]) == multiset(s) - multiset{s[k]}
  {
    assert s == s[..k] + [s[k]] + s[k + 1..];
  }
}

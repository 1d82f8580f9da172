/** Claims of manual broadcasts in admin-ops.service.ts: an idempotency record per (admin, content) that requests
    claim, finalize or release, run by any number of concurrent requests under an advancing clock. */
module BroadcastClaims {
  import opened Prelude
  import BroadcastDelivery

  const DEDUPE_WINDOW_MS: nat := 10 * 60_000

  /** The content is the key: a missing body or url counts as null. */
  datatype Scope = Scope(admin: nat, title: string, body: Option<string>, url: Option<string>)

  /** The counts and the push tally a finished broadcast answers with. */
  type SendResult = BroadcastDelivery.BroadcastResult

  /** Status 202 (sending) or 200 with the stored answer. */
  datatype Status = InProgress | Done(body: SendResult)
  datatype Record = Record(status: Status, expiresAt: nat)
  type Records = map<Scope, Record>

  datatype Claim = Replay(body: SendResult) | Busy | Claimed

  function Decide(records: Records, scope: Scope, now: nat): Claim {
    if scope in records && records[scope].expiresAt > now then
      match records[scope].status
      case Done(body) => Replay(body)
      case InProgress => Busy
    else Claimed
  }

  function AfterClaim(records: Records, scope: Scope, checkedAt: nat, writtenAt: nat): Records {
    if Decide(records, scope, checkedAt) == Claimed
    then records[scope := Record(InProgress, writtenAt + DEDUPE_WINDOW_MS)]
    else records
  }

  /** Updating a record that does not exist throws, which the caller swallows. */
  function AfterFinalize(records: Records, scope: Scope, result: SendResult, now: nat): Records {
    if scope in records then records[scope := Record(Done(result), now + DEDUPE_WINDOW_MS)] else records
  }

  function AfterRelease(records: Records, scope: Scope): Records {
    if scope in records && records[scope].status == InProgress
    then records[scope := Record(InProgress, 0)]
    else records
  }

  /** The table of idempotency records. */
  class IdempotencyStore {
    var records: Records

    constructor ()
      ensures records == map[]
    {
      records := map[];
    }

    /** `claimBroadcast`: look up and claim in one locked transaction; the clock is read again for the write. */
    method ClaimBroadcast(scope: Scope, checkedAt: nat, writtenAt: nat) returns (claim: Claim)
      modifies this
      ensures claim == Decide(old(records), scope, checkedAt)
      ensures records == AfterClaim(old(records), scope, checkedAt, writtenAt)
    {
      if scope in records && records[scope].expiresAt > checkedAt {
        if records[scope].status.Done? {
          return Replay(records[scope].status.body);
        }
        return Busy;
      }
      records := records[scope := Record(InProgress, writtenAt + DEDUPE_WINDOW_MS)];
      return Claimed;
    }

    method FinalizeBroadcastClaim(scope: Scope, result: SendResult, now: nat)
      modifies this
      ensures records == AfterFinalize(old(records), scope, result, now)
    {
      if scope in records {
        records := records[scope := Record(Done(result), now + DEDUPE_WINDOW_MS)];
      }
    }

    method ReleaseBroadcastClaim(scope: Scope)
      modifies this
      ensures records == AfterRelease(old(records), scope)
    {
      if scope in records && records[scope].status == InProgress {
        records := records[scope := records[scope].(expiresAt := 0)];
      }
    }
  }

  // ---- requests running side by side ----

  /** Where a request is. `Sending` runs from its claim to its finalize or release; `expiresAt` is its own claim's end.
      */
  datatype Phase =
    | Waiting
    | Sending(expiresAt: nat)
    | Replayed(body: SendResult)
    | Conflict
    | Completed(result: SendResult)
    | Failed

  datatype Request = Request(scope: Scope, phase: Phase)

  datatype State = State(clock: nat, records: Records, requests: seq<Request>)

  datatype Step =
    | Tick(elapsed: nat)
    | Try(id: nat, delay: nat)
    | Finish(id: nat, result: SendResult, stored: bool)
    | Abort(id: nat, released: bool)

  ghost predicate Enabled(s: State, step: Step) {
    match step
    case Tick(_) => true
    case Try(id, _) => id < |s.requests| && s.requests[id].phase == Waiting
    case Finish(id, _, _) => id < |s.requests| && s.requests[id].phase.Sending?
    case Abort(id, _) => id < |s.requests| && s.requests[id].phase.Sending?
  }

  function WithPhase(requests: seq<Request>, id: nat, phase: Phase): seq<Request>
    requires id < |requests|
  {
    requests[id := Request(requests[id].scope, phase)]
  }

  ghost function Apply(s: State, step: Step): State
    requires Enabled(s, step)
  {
    match step
    case Tick(elapsed) => s.(clock := s.clock + elapsed)
    case Try(id, delay) =>
      var scope, writtenAt := s.requests[id].scope, s.clock + delay;
      var phase := match Decide(s.records, scope, s.clock)
        case Replay(body) => Replayed(body)
        case Busy => Conflict
        case Claimed => Sending(writtenAt + DEDUPE_WINDOW_MS);
      State(writtenAt, AfterClaim(s.records, scope, s.clock, writtenAt), WithPhase(s.requests, id, phase))
    case Finish(id, result, stored) =>
      var scope := s.requests[id].scope;
      var requests := WithPhase(s.requests, id, Completed(result));
      s.(records := if stored then AfterFinalize(s.records, scope, result, s.clock) else s.records,
         requests := requests)
    case Abort(id, released) =>
      var records := if released then AfterRelease(s.records, s.requests[id].scope) else s.records;
      s.(records := records, requests := WithPhase(s.requests, id, Failed))
  }

  ghost predicate Initial(s: State) {
    s.records == map[] && forall i :: 0 <= i < |s.requests| ==> s.requests[i].phase == Waiting
  }

  /** States s[0..n] and the steps between them. */
  ghost predicate IsRun(states: seq<State>, steps: seq<Step>) {
    && |states| == |steps| + 1
    && Initial(states[0])
    && forall i :: 0 <= i < |steps| ==> Enabled(states[i], steps[i]) && states[i + 1] == Apply(states[i], steps[i])
  }

  ghost predicate InFlight(s: State, id: nat, scope: Scope) {
    id < |s.requests| && s.requests[id].scope == scope && s.requests[id].phase.Sending?
  }

  /** No two broadcasts of this admin and content are in flight together. */
  ghost predicate Exclusive(s: State, scope: Scope) {
    forall i: nat, j: nat :: InFlight(s, i, scope) && InFlight(s, j, scope) ==> i == j
  }

  /** A request is about to claim the scope while its broadcast is still being sent, past the end of that one's claim.
      */
  ghost predicate LateClaim(s: State, step: Step, scope: Scope) {
    step.Try? && Enabled(s, step) && s.requests[step.id].scope == scope
    && exists i: nat :: InFlight(s, i, scope) && s.requests[i].phase.expiresAt <= s.clock
  }

  ghost predicate InTime(s: State, scope: Scope) {
    forall i: nat :: InFlight(s, i, scope) ==> s.clock < s.requests[i].phase.expiresAt
  }

  /** While nothing overlaps, a sending request owns its record. */
  ghost predicate Invariant(s: State, scope: Scope) {
    && Exclusive(s, scope)
    && forall i: nat :: InFlight(s, i, scope) ==>
         scope in s.records && s.records[scope] == Record(InProgress, s.requests[i].phase.expiresAt)
  }

  /** Where nothing overlaps, a claim of a scope in flight gets through exactly when it is late. */
  lemma ClaimOfBusyScope(s: State, scope: Scope, other: nat)
    requires Invariant(s, scope) && InFlight(s, other, scope)
    ensures Decide(s.records, scope, s.clock) == if s.requests[other].phase.expiresAt <= s.clock then Claimed else Busy
  {
  }

  lemma LateClaimOverlaps(s: State, step: Step, scope: Scope)
    requires Invariant(s, scope) && LateClaim(s, step, scope)
    ensures !Exclusive(Apply(s, step), scope)
  {
    var i: nat :| InFlight(s, i, scope) && s.requests[i].phase.expiresAt <= s.clock;
    ClaimOfBusyScope(s, scope, i);
    var s' := Apply(s, step);
    assert InFlight(s', i, scope) && InFlight(s', step.id, scope) && i != step.id;
  }

  lemma TimelyTryKeepsInvariant(s: State, step: Step, scope: Scope)
    requires Invariant(s, scope) && Enabled(s, step) && step.Try? && !LateClaim(s, step, scope)
    ensures Invariant(Apply(s, step), scope)
  {
    var s' := Apply(s, step);
    forall i: nat | InFlight(s, i, scope) && s.requests[step.id].scope == scope
      ensures Decide(s.records, scope, s.clock) == Busy
    {
      ClaimOfBusyScope(s, scope, i);
    }
    forall i: nat | InFlight(s', i, scope)
      ensures i == step.id || InFlight(s, i, scope)
    {
    }
  }

  lemma EndingKeepsInvariant(s: State, step: Step, scope: Scope)
    requires Invariant(s, scope) && Enabled(s, step) && !step.Try?
    ensures Invariant(Apply(s, step), scope)
  {
    var s' := Apply(s, step);
    forall i: nat | InFlight(s', i, scope)
      ensures InFlight(s, i, scope)
    {
    }
    if !step.Tick? {
      assert InFlight(s, step.id, s.requests[step.id].scope);
    }
  }

  /** One step overlaps two broadcasts exactly when it is a late claim; otherwise the invariant carries over. */
  lemma StepOverlapsIffLate(s: State, step: Step, scope: Scope)
    requires Invariant(s, scope) && Enabled(s, step)
    ensures Exclusive(Apply(s, step), scope) <==> !LateClaim(s, step, scope)
    ensures !LateClaim(s, step, scope) ==> Invariant(Apply(s, step), scope)
  {
    if LateClaim(s, step, scope) {
      LateClaimOverlaps(s, step, scope);
    } else if step.Try? {
      TimelyTryKeepsInvariant(s, step, scope);
    } else {
      EndingKeepsInvariant(s, step, scope);
    }
  }

  ghost predicate NoLateClaim(states: seq<State>, steps: seq<Step>, scope: Scope)
    requires |states| == |steps| + 1
  {
    forall i :: 0 <= i < |steps| ==> !LateClaim(states[i], steps[i], scope)
  }

  lemma {:induction false} TimelyRunKeepsInvariant(states: seq<State>, steps: seq<Step>, scope: Scope, n: nat)
    requires IsRun(states, steps) && n <= |steps|
    requires forall i :: 0 <= i < n ==> !LateClaim(states[i], steps[i], scope)
    ensures Invariant(states[n], scope)
  {
    if n > 0 {
      TimelyRunKeepsInvariant(states, steps, scope, n - 1);
      StepOverlapsIffLate(states[n - 1], steps[n - 1], scope);
    }
  }

  /** Over a whole run no two broadcasts of one admin and content are ever in flight together exactly when no claim of
      that scope is late, whatever happens to other scopes. */
  lemma {:induction false} RunExclusiveIff(states: seq<State>, steps: seq<Step>, scope: Scope)
    requires IsRun(states, steps)
    ensures (forall i :: 0 <= i < |states| ==> Exclusive(states[i], scope)) <==> NoLateClaim(states, steps, scope)
  {
    if NoLateClaim(states, steps, scope) {
      forall i | 0 <= i < |states|
        ensures Exclusive(states[i], scope)
      {
        TimelyRunKeepsInvariant(states, steps, scope, i);
      }
    } else {
      var first := FirstLateClaim(states, steps, scope);
      TimelyRunKeepsInvariant(states, steps, scope, first);
      StepOverlapsIffLate(states[first], steps[first], scope);
      assert !Exclusive(states[first + 1], scope);
    }
  }

  lemma {:induction false} FirstLateClaim(states: seq<State>, steps: seq<Step>, scope: Scope) returns (first: nat)
    requires IsRun(states, steps) && !NoLateClaim(states, steps, scope)
    ensures first < |steps| && LateClaim(states[first], steps[first], scope)
    ensures forall i :: 0 <= i < first ==> !LateClaim(states[i], steps[i], scope)
  {
    first := 0;
    while !LateClaim(states[first], steps[first], scope)
      invariant first < |steps|
      invariant exists i :: first <= i < |steps| && LateClaim(states[i], steps[i], scope)
      invariant forall i :: 0 <= i < first ==> !LateClaim(states[i], steps[i], scope)
      decreases |steps| - first
    {
      first := first + 1;
    }
  }

  /** If every claimed run of the scope ends before its claim expires, the invariant holds in every state. */
  lemma InTimeRunIsExclusive(states: seq<State>, steps: seq<Step>, scope: Scope)
    requires IsRun(states, steps)
    requires forall i :: 0 <= i < |states| ==> InTime(states[i], scope)
    ensures forall i :: 0 <= i < |states| ==> Exclusive(states[i], scope) && Invariant(states[i], scope)
  {
    forall i | 0 <= i < |steps|
      ensures !LateClaim(states[i], steps[i], scope)
    {
      assert InTime(states[i], scope);
    }
    forall i | 0 <= i < |states|
      ensures Invariant(states[i], scope)
    {
      TimelyRunKeepsInvariant(states, steps, scope, i);
    }
  }

  // ---- what a stored result does ----

  /** Step number k stores a result of the scope. */
  ghost predicate Stores(states: seq<State>, steps: seq<Step>, scope: Scope, k: nat) {
    && k < |steps| && k < |states| && steps[k].Finish? && steps[k].stored && InFlight(states[k], steps[k].id, scope)
  }

  lemma {:induction false} RecordsRemain(states: seq<State>, steps: seq<Step>, n: nat, id: nat)
    requires IsRun(states, steps) && n <= |steps|
    requires id < |states[n].requests| && states[n].requests[id].phase.Sending?
    ensures states[n].requests[id].scope in states[n].records
  {
    if n > 0 && states[n - 1].requests[id].phase.Sending? {
      RecordsRemain(states, steps, n - 1, id);
    }
  }

  /** A stored result is on record for its whole window, late runs or not, unless another broadcast of the same scope
      stores its own. */
  lemma {:induction false} StoredResultStays(states: seq<State>, steps: seq<Step>, scope: Scope, stored: nat,
                                             later: nat)
    requires IsRun(states, steps) && Stores(states, steps, scope, stored) && stored < later <= |steps|
    requires forall k :: stored < k < later ==> !Stores(states, steps, scope, k)
    requires states[later].clock < states[stored].clock + DEDUPE_WINDOW_MS
    ensures states[stored].clock <= states[later].clock && scope in states[later].records
    ensures states[later].records[scope]
      == Record(Done(steps[stored].result), states[stored].clock + DEDUPE_WINDOW_MS)
  {
    if later == stored + 1 {
      RecordsRemain(states, steps, stored, steps[stored].id);
    } else {
      assert states[later] == Apply(states[later - 1], steps[later - 1]);
      StoredResultStays(states, steps, scope, stored, later - 1);
      assert !Stores(states, steps, scope, later - 1);
    }
  }

  /** Stored by the only broadcast of its scope in flight, no other one of that scope flies within the window, so its
      result is the one on record throughout. */
  lemma {:induction false} StoredAloneStays(states: seq<State>, steps: seq<Step>, scope: Scope, stored: nat, later: nat)
    requires IsRun(states, steps) && Stores(states, steps, scope, stored) && stored < later <= |steps|
    requires Exclusive(states[stored], scope)
    requires states[later].clock < states[stored].clock + DEDUPE_WINDOW_MS
    ensures states[stored].clock <= states[later].clock && scope in states[later].records
    ensures states[later].records[scope]
      == Record(Done(steps[stored].result), states[stored].clock + DEDUPE_WINDOW_MS)
    ensures forall i: nat :: !InFlight(states[later], i, scope)
  {
    var before := states[later - 1];
    assert states[later] == Apply(before, steps[later - 1]);
    if later == stored + 1 {
      RecordsRemain(states, steps, stored, steps[stored].id);
      forall i: nat | InFlight(states[later], i, scope)
        ensures i == steps[stored].id
      {
        assert InFlight(before, i, scope);
      }
    } else {
      StoredAloneStays(states, steps, scope, stored, later - 1);
      forall i: nat
        ensures !InFlight(states[later], i, scope)
      {
        assert !InFlight(before, i, scope);
      }
      assert !Stores(states, steps, scope, later - 1);
    }
  }

  /** After a result stored by the only broadcast of its scope in flight, every same-content request in the window gets
      that result, sends nothing and changes no record, whatever other scopes do. */
  lemma StoredResultIsReplayed(states: seq<State>, steps: seq<Step>, scope: Scope, stored: nat, later: nat)
    requires IsRun(states, steps) && Stores(states, steps, scope, stored) && stored < later < |steps|
    requires Exclusive(states[stored], scope)
    requires steps[later].Try? && states[later].requests[steps[later].id].scope == scope
    requires states[later].clock < states[stored].clock + DEDUPE_WINDOW_MS
    ensures states[later + 1].requests[steps[later].id].phase == Replayed(steps[stored].result)
    ensures states[later + 1].records == states[later].records
  {
    StoredAloneStays(states, steps, scope, stored, later);
  }

  /** A failed broadcast whose claim was released leaves its scope free: the next same-content request claims it. */
  lemma ReleasedFailureCanRetry(s: State, step: Step, retry: nat, delay: nat)
    requires Enabled(s, step) && step.Abort? && step.released && Invariant(s, s.requests[step.id].scope)
    requires Enabled(s, Try(retry, delay)) && s.requests[retry].scope == s.requests[step.id].scope
    ensures Apply(Apply(s, step), Try(retry, delay)).requests[retry].phase.Sending?
  {
    assert InFlight(s, step.id, s.requests[step.id].scope);
  }

  /** An unreleased failure blocks the scope until its claim expires, and no longer. */
  lemma UnreleasedFailureBlocks(s: State, step: Step, wait: nat, retry: nat, delay: nat)
    requires Enabled(s, step) && step.Abort? && !step.released && Invariant(s, s.requests[step.id].scope)
    requires Enabled(s, Try(retry, delay)) && s.requests[retry].scope == s.requests[step.id].scope
    ensures Apply(Apply(Apply(s, step), Tick(wait)), Try(retry, delay)).requests[retry].phase.Sending?
      <==> s.requests[step.id].phase.expiresAt <= s.clock + wait
  {
    assert InFlight(s, step.id, s.requests[step.id].scope);
  }

  /** What one late run costs: its own failure frees the claim of the broadcast that overlapped it, and a third
      same-content broadcast starts while the second one is still well inside its claim. */
  lemma LateRunFreesAnotherClaim(scope: Scope) returns (states: seq<State>, steps: seq<Step>)
    ensures IsRun(states, steps) && |steps| == 5 && LateClaim(states[2], steps[2], scope)
    ensures InFlight(states[5], 1, scope) && InFlight(states[5], 2, scope)
    ensures states[5].clock < states[5].requests[1].phase.expiresAt
  {
    var request := Request(scope, Waiting);
    var s0 := State(0, map[], [request, request, request]);
    var s1 := Apply(s0, Try(0, 0));
    var s2 := Apply(s1, Tick(DEDUPE_WINDOW_MS));
    var s3 := Apply(s2, Try(1, 0));
    var s4 := Apply(s3, Abort(0, true));
    var s5 := Apply(s4, Try(2, 0));
    assert InFlight(s2, 0, scope);
    assert s3.requests[1].phase == Sending(2 * DEDUPE_WINDOW_MS);
    states := [s0, s1, s2, s3, s4, s5];
    steps := [Try(0, 0), Tick(DEDUPE_WINDOW_MS), Try(1, 0), Abort(0, true), Try(2, 0)];
  }
}

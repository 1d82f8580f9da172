/** The two advisory locks every account-link transaction takes, caller first, by any number of calls at once. */
module LinkLocks {
  datatype Provider = Kakao | Apple
  datatype Call = Call(caller: nat, provider: Provider, providerUserKey: string)
  datatype Lock = CallerLock(caller: nat, provider: Provider)
    | IdentityLock(provider: Provider, providerUserKey: string)

  /** `hashtextextended` maps a scope to the number PostgreSQL locks. */
  type Hash = Lock -> int

  datatype Phase = Idle | WantsCaller | WantsIdentity | Inside | Over
  datatype Process = Process(call: Call, phase: Phase)
  datatype State = State(processes: seq<Process>, held: map<int, nat>)

  function CallerScope(c: Call): Lock { CallerLock(c.caller, c.provider) }
  function IdentityScope(c: Call): Lock { IdentityLock(c.provider, c.providerUserKey) }

  datatype Step = Begin(id: nat) | TakeCaller(id: nat) | TakeIdentity(id: nat) | Commit(id: nat) | Rollback(id: nat)

  ghost predicate Enabled(s: State, step: Step, hash: Hash) {
    step.id < |s.processes|
    && var p := s.processes[step.id];
    match step
    case Begin(_) => p.phase == Idle
    case TakeCaller(_) => p.phase == WantsCaller && hash(CallerScope(p.call)) !in s.held
    case TakeIdentity(_) => p.phase == WantsIdentity && hash(IdentityScope(p.call)) !in s.held
    case Commit(_) => p.phase == Inside
    case Rollback(_) => p.phase == WantsCaller || p.phase == WantsIdentity || p.phase == Inside
  }

  function Enter(s: State, id: nat, phase: Phase): seq<Process>
    requires id < |s.processes|
  {
    s.processes[id := Process(s.processes[id].call, phase)]
  }

  /** Advisory transaction locks are released together when the transaction ends. */
  function Released(held: map<int, nat>, id: nat): map<int, nat> {
    map l | l in held && held[l] != id :: held[l]
  }

  ghost function Apply(s: State, step: Step, hash: Hash): State
    requires Enabled(s, step, hash)
  {
    var id := step.id;
    var call := s.processes[id].call;
    match step
    case Begin(_) => s.(processes := Enter(s, id, WantsCaller))
    case TakeCaller(_) => State(Enter(s, id, WantsIdentity), s.held[hash(CallerScope(call)) := id])
    case TakeIdentity(_) => State(Enter(s, id, Inside), s.held[hash(IdentityScope(call)) := id])
    case Commit(_) => State(Enter(s, id, Over), Released(s.held, id))
    case Rollback(_) => State(Enter(s, id, Over), Released(s.held, id))
  }

  ghost predicate Initial(s: State) {
    s.held == map[] && forall i :: 0 <= i < |s.processes| ==> s.processes[i].phase == Idle
  }

  ghost predicate IsRun(states: seq<State>, steps: seq<Step>, hash: Hash) {
    && |states| == |steps| + 1
    && Initial(states[0])
    && forall i :: 0 <= i < |steps| ==>
         Enabled(states[i], steps[i], hash) && states[i + 1] == Apply(states[i], steps[i], hash)
  }

  /** No caller scope shares its number with an identity scope. */
  ghost predicate ScopesApart(hash: Hash) {
    forall a: Lock, b: Lock :: a.CallerLock? && b.IdentityLock? ==> hash(a) != hash(b)
  }

  predicate HoldsCaller(p: Process) { p.phase == WantsIdentity || p.phase == Inside }

  /** Process `id` holds exactly the locks its phase says. */
  ghost predicate Owns(s: State, id: nat, lock: int, hash: Hash)
    requires id < |s.processes|
  {
    var p := s.processes[id];
    (HoldsCaller(p) && lock == hash(CallerScope(p.call))) || (p.phase == Inside && lock == hash(IdentityScope(p.call)))
  }

  ghost predicate Invariant(s: State, hash: Hash) {
    && (forall lock :: lock in s.held ==> s.held[lock] < |s.processes| && Owns(s, s.held[lock], lock, hash))
    && (forall id, lock :: 0 <= id < |s.processes| && Owns(s, id, lock, hash) ==> lock in s.held && s.held[lock] == id)
  }

  lemma StepKeepsInvariant(s: State, step: Step, hash: Hash)
    requires Invariant(s, hash) && Enabled(s, step, hash) && ScopesApart(hash)
    ensures Invariant(Apply(s, step, hash), hash)
  {
    var s' := Apply(s, step, hash);
    forall lock | lock in s'.held
      ensures s'.held[lock] < |s'.processes| && Owns(s', s'.held[lock], lock, hash)
    {
      if lock in s.held { assert Owns(s, s.held[lock], lock, hash); }
    }
    forall id, lock | 0 <= id < |s'.processes| && Owns(s', id, lock, hash)
      ensures lock in s'.held && s'.held[lock] == id
    {
      if id != step.id { assert Owns(s, id, lock, hash); }
      if id == step.id && step.TakeIdentity? && lock == hash(CallerScope(s.processes[id].call)) {
        assert Owns(s, id, lock, hash);
      }
    }
  }

  lemma {:induction false} RunKeepsInvariant(states: seq<State>, steps: seq<Step>, hash: Hash, n: nat)
    requires IsRun(states, steps, hash) && ScopesApart(hash) && n <= |steps|
    ensures Invariant(states[n], hash)
  {
    if n > 0 {
      RunKeepsInvariant(states, steps, hash, n - 1);
      StepKeepsInvariant(states[n - 1], steps[n - 1], hash);
    }
  }

  // ---- mutual exclusion ----

  /** Two calls of one caller and provider, or for one identity, are never both past their locks. */
  lemma InsideIsExclusive(states: seq<State>, steps: seq<Step>, hash: Hash, n: nat, i: nat, j: nat)
    requires IsRun(states, steps, hash) && ScopesApart(hash) && n <= |steps|
    requires i < j < |states[n].processes| && states[n].processes[i].phase == Inside == states[n].processes[j].phase
    ensures CallerScope(states[n].processes[i].call) != CallerScope(states[n].processes[j].call)
    ensures IdentityScope(states[n].processes[i].call) != IdentityScope(states[n].processes[j].call)
  {
    RunKeepsInvariant(states, steps, hash, n);
    var s := states[n];
    assert Owns(s, i, hash(CallerScope(s.processes[i].call)), hash);
    assert Owns(s, j, hash(CallerScope(s.processes[j].call)), hash);
    assert Owns(s, i, hash(IdentityScope(s.processes[i].call)), hash);
    assert Owns(s, j, hash(IdentityScope(s.processes[j].call)), hash);
  }

  // ---- no cyclic wait ----

  ghost predicate WaitsOn(s: State, i: nat, j: nat, hash: Hash) {
    && i < |s.processes|
    && var p := s.processes[i];
    var lock := hash(if p.phase == WantsCaller then CallerScope(p.call) else IdentityScope(p.call));
    (p.phase == WantsCaller || p.phase == WantsIdentity) && lock in s.held && s.held[lock] == j
  }

  /** Every process of the list waits on the next one, and the last one on the first. */
  ghost predicate WaitCycle(s: State, cycle: seq<nat>, hash: Hash) {
    cycle != []
    && (forall k :: 0 <= k < |cycle| - 1 ==> WaitsOn(s, cycle[k], cycle[k + 1], hash))
    && WaitsOn(s, cycle[|cycle| - 1], cycle[0], hash)
  }

  function Progress(p: Process): nat {
    match p.phase
    case Idle => 0
    case WantsCaller => 0
    case WantsIdentity => 1
    case Inside => 2
    case Over => 2
  }

  /** Whoever is waited on is further along. */
  lemma WaitsOnFurther(s: State, i: nat, j: nat, hash: Hash)
    requires Invariant(s, hash) && ScopesApart(hash) && WaitsOn(s, i, j, hash)
    ensures j < |s.processes| && Progress(s.processes[i]) < Progress(s.processes[j])
  {
    var p := s.processes[i];
    var lock := hash(if p.phase == WantsCaller then CallerScope(p.call) else IdentityScope(p.call));
    assert Owns(s, j, lock, hash);
  }

  lemma {:induction false} ChainGoesForward(s: State, cycle: seq<nat>, hash: Hash, k: nat)
    requires Invariant(s, hash) && ScopesApart(hash) && WaitCycle(s, cycle, hash) && k < |cycle|
    ensures cycle[0] < |s.processes| && cycle[k] < |s.processes|
    ensures Progress(s.processes[cycle[0]]) <= Progress(s.processes[cycle[k]])
  {
    if k > 0 {
      ChainGoesForward(s, cycle, hash, k - 1);
      WaitsOnFurther(s, cycle[k - 1], cycle[k], hash);
    } else {
      WaitsOnFurther(s, cycle[|cycle| - 1], cycle[0], hash);
    }
  }

  /** No reachable state has a cyclic wait, however many processes it would run through. */
  lemma NoCyclicWait(states: seq<State>, steps: seq<Step>, hash: Hash, n: nat, cycle: seq<nat>)
    requires IsRun(states, steps, hash) && ScopesApart(hash) && n <= |steps|
    ensures !WaitCycle(states[n], cycle, hash)
  {
    RunKeepsInvariant(states, steps, hash, n);
    if WaitCycle(states[n], cycle, hash) {
      ChainGoesForward(states[n], cycle, hash, |cycle| - 1);
      WaitsOnFurther(states[n], cycle[|cycle| - 1], cycle[0], hash);
    }
  }

  /** While any call is under way, some call can take its next lock or commit, without rolling anything back. */
  lemma SomeCallProceeds(states: seq<State>, steps: seq<Step>, hash: Hash, n: nat, busy: nat) returns (step: Step)
    requires IsRun(states, steps, hash) && ScopesApart(hash) && n <= |steps|
    requires busy < |states[n].processes|
    requires states[n].processes[busy].phase != Idle && states[n].processes[busy].phase != Over
    ensures Enabled(states[n], step, hash) && (step.TakeCaller? || step.TakeIdentity? || step.Commit?)
  {
    RunKeepsInvariant(states, steps, hash, n);
    var s := states[n];
    var id: nat := busy;
    while true
      invariant id < |s.processes| && s.processes[id].phase != Idle && s.processes[id].phase != Over
      decreases 2 - Progress(s.processes[id])
    {
      var p := s.processes[id];
      if p.phase == Inside { return Commit(id); }
      var lock := hash(if p.phase == WantsCaller then CallerScope(p.call) else IdentityScope(p.call));
      if lock !in s.held { return if p.phase == WantsCaller then TakeCaller(id) else TakeIdentity(id); }
      WaitsOnFurther(s, id, s.held[lock], hash);
      assert Owns(s, s.held[lock], lock, hash);
      id := s.held[lock];
    }
  }
}

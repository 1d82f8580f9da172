/** `linkInTransaction` and `retireEmptyAccount` of account-link.service.ts, as one atomic step on the account tables.
    */
module AccountLink {
  import opened Prelude
  import opened TeamInvitations
  import opened LinkLocks

  datatype Account = Active | Restricted | Deleted
  datatype Onboarding = NotStarted | TermsRequired | ProfileRequired | ProfileDeferred | Completed
  /** `ActiveAdmin` is any role that is not revoked, a suspended one included. */
  datatype AdminRole = ActiveAdmin | RevokedAdmin

  /** `activity` holds the relation counts that mean an account has been used. */
  datatype User = User(account: Account, deletedAt: Option<nat>, onboarding: Onboarding, admin: Option<AdminRole>,
                       email: Option<Contact>, phone: Option<Contact>, activity: seq<nat>)

  /** A deleted account keeps a placeholder made from its id, so the real value is free again; an empty one is dropped.
      */
  datatype Contact = Given(text: string) | Placeholder(user: nat)

  /** A login: email logins never take part in linking. */
  datatype Login = Social(provider: Provider) | Email
  datatype IdentityStatus = Linked | Unlinked
  datatype Identity = Identity(user: nat, login: Login, key: string, status: IdentityStatus, hasPassword: bool,
                               email: Option<string>, lastLoginAt: nat)

  /** Identities are only ever appended; their number in the list is their id. */
  datatype Db = Db(users: map<nat, User>, identities: seq<Identity>, invitations: seq<Invitation>, members: Memberships,
                   inquiries: map<nat, nat>, uploads: map<nat, nat>)

  /** A verified provider identity; `heldBy` names the unfinished signup a link token was issued for. */
  datatype LinkCall = LinkCall(caller: nat, provider: Provider, key: string, email: Option<string>, heldBy: Option<nat>,
                               now: nat)

  datatype Refusal = NotFound | PermissionDenied | AdminForbidden | SignupIncomplete | ProviderExists | TokenInvalid
    | ProviderInUse
  datatype Outcome = Refused(why: Refusal) | AlreadyLinked | NewlyLinked(identity: nat)
    | Merged(identity: nat, retired: nat)

  predicate UnfinishedSignup(o: Onboarding) { o == TermsRequired || o == ProfileRequired || o == ProfileDeferred }

  /** `linkCallerRestriction`. */
  function CallerRefusal(u: User): Option<Refusal> {
    if u.account != Active || u.deletedAt != None then Some(PermissionDenied)
    else if u.admin == Some(ActiveAdmin) then Some(AdminForbidden)
    else if UnfinishedSignup(u.onboarding) then Some(SignupIncomplete)
    else None
  }

  predicate ActiveOf(i: Identity, user: nat) { i.user == user && i.status == Linked }

  /** The first active identity of the user with this login, or the length of the list. */
  function FindLogin(ids: seq<Identity>, user: nat, login: Login): (k: nat)
    ensures k <= |ids|
    ensures k < |ids| ==> ActiveOf(ids[k], user) && ids[k].login == login
    ensures forall j :: 0 <= j < k ==> !(ActiveOf(ids[j], user) && ids[j].login == login)
  {
    if ids == [] || (ActiveOf(ids[0], user) && ids[0].login == login) then 0 else 1 + FindLogin(ids[1..], user, login)
  }

  function FindKey(ids: seq<Identity>, login: Login, key: string): (k: nat)
    ensures k <= |ids|
    ensures k < |ids| ==> ids[k].login == login && ids[k].key == key
    ensures forall j :: 0 <= j < k ==> !(ids[j].login == login && ids[j].key == key)
  {
    if ids == [] || (ids[0].login == login && ids[0].key == key) then 0 else 1 + FindKey(ids[1..], login, key)
  }

  /** `isEmptySignupAccount`: a signup nobody finished, whose only active login is this one. */
  predicate IsEmptySignup(db: Db, k: nat)
    requires k < |db.identities| && db.identities[k].user in db.users
  {
    var id := db.identities[k];
    var u := db.users[id.user];
    && id.status == Linked
    && !id.hasPassword
    && u.account == Active
    && UnfinishedSignup(u.onboarding)
    && u.admin == None
    && (forall j :: 0 <= j < |db.identities| && ActiveOf(db.identities[j], id.user) ==> j == k)
    && (forall c :: c in u.activity ==> c == 0)
  }

  /** Every identity belongs to a stored user. */
  predicate Rooted(db: Db) {
    forall k :: 0 <= k < |db.identities| ==> db.identities[k].user in db.users
  }

  function Freed(value: Option<Contact>, user: nat): Option<Contact> {
    if value == None || value == Some(Given("")) then None else Some(Placeholder(user))
  }

  function RetiredUser(u: User, id: nat, now: nat): User {
    u.(account := Deleted, onboarding := NotStarted, deletedAt := Some(now), email := Freed(u.email, id),
       phone := Freed(u.phone, id))
  }

  function Repointed(owners: map<nat, nat>, from: nat, to: nat): map<nat, nat> {
    map row | row in owners :: if owners[row] == from then to else owners[row]
  }

  /** `retireEmptyAccount`. */
  function Retire(db: Db, empty: nat, caller: nat, now: nat): Db
    requires empty in db.users
  {
    db.(users := db.users[empty := RetiredUser(db.users[empty], empty, now)],
        inquiries := Repointed(db.inquiries, empty, caller),
        uploads := Repointed(db.uploads, empty, caller),
        invitations := HandOver(db.invitations, db.members, empty, caller, now))
  }

  function Decide(db: Db, call: LinkCall): Outcome
    requires Rooted(db)
  {
    if call.caller !in db.users then Refused(NotFound)
    else if CallerRefusal(db.users[call.caller]) != None then Refused(CallerRefusal(db.users[call.caller]).value)
    else
      var own := FindLogin(db.identities, call.caller, Social(call.provider));
      if own < |db.identities| then
        if db.identities[own].key != call.key then Refused(ProviderExists) else AlreadyLinked
      else
        var k := FindKey(db.identities, Social(call.provider), call.key);
        if call.heldBy != None && k == |db.identities| then Refused(TokenInvalid)
        else if call.heldBy != None && db.identities[k].user != call.heldBy.value then Refused(ProviderInUse)
        else if k == |db.identities| then NewlyLinked(k)
        else if !IsEmptySignup(db, k) then Refused(ProviderInUse)
        else Merged(k, db.identities[k].user)
  }

  function After(db: Db, call: LinkCall): Db
    requires Rooted(db)
  {
    match Decide(db, call)
    case Refused(_) => db
    case AlreadyLinked => db
    case NewlyLinked(_) =>
      db.(identities := db.identities
        + [Identity(call.caller, Social(call.provider), call.key, Linked, false, call.email, call.now)])
    case Merged(k, empty) =>
      var id := db.identities[k];
      Retire(db, empty, call.caller, call.now)
        .(identities := db.identities[k := id.(user := call.caller, lastLoginAt := call.now)])
  }

  /** The tables a link transaction reads and writes. */
  class AccountStore {
    var users: map<nat, User>
    var identities: seq<Identity>
    var members: Memberships
    var inquiries: map<nat, nat>
    var uploads: map<nat, nat>
    const invitations: InvitationTable

    function Contents(): Db
      reads this, invitations
    {
      Db(users, identities, invitations.rows, members, inquiries, uploads)
    }

    constructor (db: Db)
      ensures Contents() == db && fresh(invitations)
    {
      users, identities, members, inquiries, uploads := db.users, db.identities, db.members, db.inquiries, db.uploads;
      invitations := new InvitationTable(db.invitations);
    }

    method LinkInTransaction(call: LinkCall) returns (outcome: Outcome)
      requires Rooted(Contents())
      modifies this, invitations
      ensures outcome == Decide(old(Contents()), call)
      ensures Contents() == After(old(Contents()), call)
    {
      if call.caller !in users { return Refused(NotFound); }
      var restriction := CallerRefusal(users[call.caller]);
      if restriction != None { return Refused(restriction.value); }
      var own := FindLogin(identities, call.caller, Social(call.provider));
      if own < |identities| {
        if identities[own].key != call.key { return Refused(ProviderExists); }
        return AlreadyLinked;
      }
      var k := FindKey(identities, Social(call.provider), call.key);
      if call.heldBy != None {
        if k == |identities| { return Refused(TokenInvalid); }
        if identities[k].user != call.heldBy.value { return Refused(ProviderInUse); }
      }
      if k == |identities| {
        identities := identities + [Identity(call.caller, Social(call.provider), call.key, Linked, false, call.email,
                                             call.now)];
        return NewlyLinked(k);
      }
      if !IsEmptySignup(Contents(), k) { return Refused(ProviderInUse); }
      var empty := identities[k].user;
      RetireEmptyAccount(empty, call.caller, call.now);
      identities := identities[k := identities[k].(user := call.caller, lastLoginAt := call.now)];
      return Merged(k, empty);
    }

    /** The guarded update: within one transaction the account still is what was just read. */
    method RetireEmptyAccount(empty: nat, caller: nat, now: nat)
      requires empty in users && users[empty].account == Active && UnfinishedSignup(users[empty].onboarding)
      modifies this, invitations
      ensures Contents() == Retire(old(Contents()), empty, caller, now)
    {
      users := users[empty := RetiredUser(users[empty], empty, now)];
      inquiries := Repointed(inquiries, empty, caller);
      uploads := Repointed(uploads, empty, caller);
      invitations.HandOverTeamInvitations(members, empty, caller, now);
    }
  }

  // ---- invariants of every run ----

  /** Each user has at most one active identity per social provider. */
  ghost predicate OnePerProvider(ids: seq<Identity>) {
    forall i, j | 0 <= i < j < |ids| && ids[i].status == Linked == ids[j].status ::
      ids[i].login.Social? && ids[i].login == ids[j].login ==> ids[i].user != ids[j].user
  }

  /** The unique index on (provider, providerUserKey). */
  ghost predicate KeysUnique(ids: seq<Identity>) {
    forall i, j :: 0 <= i < j < |ids| && ids[i].login == ids[j].login ==> ids[i].key != ids[j].key
  }

  ghost predicate Valid(db: Db) {
    Rooted(db) && OnePerProvider(db.identities) && KeysUnique(db.identities)
  }

  lemma LinkKeepsValid(db: Db, call: LinkCall)
    requires Valid(db)
    ensures Valid(After(db, call))
  {
    hide HandOver;
    var ids, after := db.identities, After(db, call).identities;
    if Decide(db, call).Merged? || Decide(db, call).NewlyLinked? {
      assert FindLogin(ids, call.caller, Social(call.provider)) == |ids|;
      assert forall j :: 0 <= j < |ids| ==> !(ActiveOf(ids[j], call.caller) && ids[j].login == Social(call.provider));
    }
  }

  // ---- what one link changes ----

  /** The identity kept everything but, possibly, its owner and last login. */
  predicate SameLogin(a: Identity, b: Identity) {
    a.login == b.login && a.key == b.key && a.status == b.status && a.hasPassword == b.hasPassword && a.email == b.email
  }

  /** No identity is lost, and one changes hands only away from an empty unfinished signup that is not the caller. */
  lemma LinkMovesOnlyFromEmptySignups(db: Db, call: LinkCall)
    requires Valid(db)
    ensures |After(db, call).identities| >= |db.identities|
    ensures forall k :: 0 <= k < |db.identities| ==>
      var before, after := db.identities[k], After(db, call).identities[k];
      SameLogin(before, after)
      && (after.user != before.user ==>
            Decide(db, call) == Merged(k, before.user) && after.user == call.caller
            && before.user != call.caller && IsEmptySignup(db, k))
  {
    hide HandOver;
    if Decide(db, call).Merged? { EmptySignupIsNotCaller(db, call); }
  }

  lemma EmptySignupIsNotCaller(db: Db, call: LinkCall)
    requires Valid(db) && Decide(db, call).Merged?
    ensures Decide(db, call).retired != call.caller
  {
  }

  /** A retired account is deleted, its contacts freed, and left with no active identity, pending invitation, inquiry or
      upload: inquiries and uploads are the caller's, and nobody else's changed. */
  lemma RetiredAccountIsEmptied(db: Db, call: LinkCall)
    requires Valid(db) && DistinctIds(db.invitations) && Decide(db, call).Merged?
    ensures var after, gone := After(db, call), Decide(db, call).retired;
      && gone in after.users && after.users[gone].account == Deleted && after.users[gone].deletedAt == Some(call.now)
      && after.users[gone].onboarding == NotStarted
      && IsFreed(db.users[gone].email, after.users[gone].email, gone)
      && IsFreed(db.users[gone].phone, after.users[gone].phone, gone)
      && (forall k :: 0 <= k < |after.identities| ==> !ActiveOf(after.identities[k], gone))
      && (forall i :: 0 <= i < |after.invitations| ==> !WaitsFor(after.invitations[i], gone))
      && IsHandedOver(db.inquiries, after.inquiries, gone, call.caller)
      && IsHandedOver(db.uploads, after.uploads, gone, call.caller)
  {
    hide HandOver;
    var gone := Decide(db, call).retired;
    EmptySignupIsNotCaller(db, call);
    NothingLeftWaiting(db.invitations, db.members, gone, call.caller, call.now);
  }

  /** A contact that was given and not empty is replaced by the account's placeholder, any other is gone. */
  ghost predicate IsFreed(before: Option<Contact>, after: Option<Contact>, user: nat) {
    match before
    case Some(Given(text)) => if |text| > 0 then after == Some(Placeholder(user)) else after == None
    case Some(Placeholder(_)) => after == Some(Placeholder(user))
    case None => after == None
  }

  /** Every row of one owner is the other's now, and no other row changed. */
  ghost predicate IsHandedOver(before: map<nat, nat>, after: map<nat, nat>, from: nat, to: nat) {
    && after.Keys == before.Keys
    && forall row :: row in before ==>
         (before[row] == from ==> after[row] == to) && (before[row] != from ==> after[row] == before[row])
  }

  /** Linking an identity nobody held adds it to the caller, active, without a password, and changes nothing else. */
  lemma NewIdentityIsCallers(db: Db, call: LinkCall)
    requires Valid(db) && Decide(db, call).NewlyLinked?
    ensures var after := After(db, call);
      && |after.identities| == |db.identities| + 1 && after.identities[..|db.identities|] == db.identities
      && var added := after.identities[|db.identities|];
      && added.user == call.caller && added.login == Social(call.provider) && added.key == call.key
      && added.status == Linked && !added.hasPassword && added.email == call.email && added.lastLoginAt == call.now
      && after.users == db.users && after.invitations == db.invitations
      && after.inquiries == db.inquiries && after.uploads == db.uploads
  {
  }

  // ---- who is refused, and who is retired ----

  /** The account, the login and the past of a signup that a link may retire. */
  ghost predicate IsUnusedSignup(db: Db, k: nat)
    requires Rooted(db) && k < |db.identities|
  {
    var user := db.identities[k].user;
    && db.identities[k].status == Linked && !db.identities[k].hasPassword
    && db.users[user].account == Active && db.users[user].admin == None
    && db.users[user].onboarding in {TermsRequired, ProfileRequired, ProfileDeferred}
    && (forall n :: 0 <= n < |db.users[user].activity| ==> db.users[user].activity[n] == 0)
    && (forall j :: 0 <= j < |db.identities| && j != k && db.identities[j].user == user ==>
          db.identities[j].status == Unlinked)
  }

  ghost predicate MayLink(u: User) {
    && u.account == Active && u.deletedAt == None && u.admin != Some(ActiveAdmin)
    && u.onboarding !in {TermsRequired, ProfileRequired, ProfileDeferred}
  }

  /** The caller has an active login of the provider, and this is its key. */
  ghost predicate HasLogin(db: Db, call: LinkCall, key: string) {
    exists j :: 0 <= j < |db.identities| && db.identities[j].user == call.caller && db.identities[j].status == Linked
      && db.identities[j].login == Social(call.provider) && db.identities[j].key == key
  }

  /** The identity with the call's provider and key. */
  ghost predicate Holds(db: Db, call: LinkCall, k: nat) {
    k < |db.identities| && db.identities[k].login == Social(call.provider) && db.identities[k].key == call.key
  }

  lemma NoActivityIff(activity: seq<nat>)
    ensures (forall c :: c in activity ==> c == 0) <==> forall n :: 0 <= n < |activity| ==> activity[n] == 0
  {
    if forall c :: c in activity ==> c == 0 {
      forall n | 0 <= n < |activity|
        ensures activity[n] == 0
      {
        assert activity[n] in activity;
      }
    }
  }

  lemma EmptyIsUnused(db: Db, k: nat)
    requires Rooted(db) && k < |db.identities|
    ensures IsEmptySignup(db, k) <==> IsUnusedSignup(db, k)
  {
    NoActivityIff(db.users[db.identities[k].user].activity);
  }

  lemma OwnLogin(db: Db, call: LinkCall)
    requires Valid(db)
    ensures var own := FindLogin(db.identities, call.caller, Social(call.provider));
      && (own == |db.identities| <==> forall key :: !HasLogin(db, call, key))
      && (own < |db.identities| ==> forall key :: HasLogin(db, call, key) <==> db.identities[own].key == key)
  {
    var own := FindLogin(db.identities, call.caller, Social(call.provider));
    if own < |db.identities| {
      assert HasLogin(db, call, db.identities[own].key);
    }
    forall key | HasLogin(db, call, key)
      ensures own < |db.identities| && db.identities[own].key == key
    {
      var j :| 0 <= j < |db.identities| && db.identities[j].user == call.caller && db.identities[j].status == Linked
        && db.identities[j].login == Social(call.provider) && db.identities[j].key == key;
      assert own <= j;
    }
  }

  lemma HolderIsFound(db: Db, call: LinkCall, k: nat)
    requires Valid(db)
    ensures Holds(db, call, k) <==>
      k == FindKey(db.identities, Social(call.provider), call.key) && k < |db.identities|
  {
    var found := FindKey(db.identities, Social(call.provider), call.key);
    if Holds(db, call, k) {
      assert found <= k;
    }
  }

  lemma CallerRefusedIff(u: User)
    ensures CallerRefusal(u) == None <==> MayLink(u)
    ensures CallerRefusal(u) == Some(PermissionDenied) <==> u.account != Active || u.deletedAt.Some?
    ensures CallerRefusal(u) == Some(AdminForbidden) <==>
      u.account == Active && u.deletedAt == None && u.admin == Some(ActiveAdmin)
    ensures CallerRefusal(u) == Some(SignupIncomplete) <==>
      && u.account == Active && u.deletedAt == None && u.admin != Some(ActiveAdmin)
      && u.onboarding in {TermsRequired, ProfileRequired, ProfileDeferred}
  {
  }

  /** Which callers are refused, and why, field by field. */
  lemma RefusedCallerIff(db: Db, call: LinkCall)
    requires Rooted(db)
    ensures Decide(db, call) == Refused(NotFound) <==> call.caller !in db.users
    ensures Decide(db, call) == Refused(PermissionDenied) <==>
      call.caller in db.users && (db.users[call.caller].account != Active || db.users[call.caller].deletedAt.Some?)
    ensures Decide(db, call) == Refused(AdminForbidden) <==>
      && call.caller in db.users && db.users[call.caller].account == Active && db.users[call.caller].deletedAt == None
      && db.users[call.caller].admin == Some(ActiveAdmin)
    ensures Decide(db, call) == Refused(SignupIncomplete) <==>
      && call.caller in db.users && db.users[call.caller].account == Active && db.users[call.caller].deletedAt == None
      && db.users[call.caller].admin != Some(ActiveAdmin)
      && db.users[call.caller].onboarding in {TermsRequired, ProfileRequired, ProfileDeferred}
    ensures call.caller in db.users && !MayLink(db.users[call.caller]) ==> Decide(db, call).Refused?
  {
  }

  /** A caller who may link and has a login of the provider is told so if it is this one, and refused otherwise. */
  lemma OwnLoginAnswer(db: Db, call: LinkCall, key: string)
    requires Valid(db) && call.caller in db.users && MayLink(db.users[call.caller]) && HasLogin(db, call, key)
    ensures Decide(db, call) == if key == call.key then AlreadyLinked else Refused(ProviderExists)
  {
    hide HasLogin;
    OwnLogin(db, call);
  }

  /** One without a login of the provider gets an identity nobody holds, unless a link token says somebody does. */
  lemma FreeIdentityAnswer(db: Db, call: LinkCall)
    requires Valid(db) && call.caller in db.users && MayLink(db.users[call.caller])
    requires (forall key :: !HasLogin(db, call, key)) && (forall k: nat :: !Holds(db, call, k))
    ensures Decide(db, call) == if call.heldBy == None then NewlyLinked(|db.identities|) else Refused(TokenInvalid)
  {
    hide HasLogin;
    OwnLogin(db, call);
    HolderIsFound(db, call, FindKey(db.identities, Social(call.provider), call.key));
  }

  /** One somebody holds is taken over exactly from an unused signup, the one the link token names if there is a token.
      */
  lemma HeldIdentityAnswer(db: Db, call: LinkCall, k: nat)
    requires Valid(db) && call.caller in db.users && MayLink(db.users[call.caller])
    requires (forall key :: !HasLogin(db, call, key)) && Holds(db, call, k)
    ensures Decide(db, call) ==
      if IsUnusedSignup(db, k) && (call.heldBy == None || call.heldBy == Some(db.identities[k].user))
      then Merged(k, db.identities[k].user) else Refused(ProviderInUse)
  {
    hide HasLogin, IsEmptySignup, IsUnusedSignup;
    OwnLogin(db, call);
    HolderIsFound(db, call, k);
    EmptyIsUnused(db, k);
  }

  /** The caller has no login of the provider, and the identity is held by nobody or by an unused signup, the one the
      link token names if there is a token. */
  ghost predicate FreeToLink(db: Db, call: LinkCall)
    requires Rooted(db)
  {
    && (forall key :: !HasLogin(db, call, key))
    && (forall k: nat :: Holds(db, call, k) ==> IsUnusedSignup(db, k))
    && (call.heldBy.Some? ==> exists k: nat :: Holds(db, call, k) && db.identities[k].user == call.heldBy.value)
  }

  /** A link succeeds exactly when the caller may link and has this very login already or is free to link it. */
  lemma LinkSucceedsIff(db: Db, call: LinkCall)
    requires Valid(db)
    ensures !Decide(db, call).Refused? <==>
      && call.caller in db.users && MayLink(db.users[call.caller])
      && (HasLogin(db, call, call.key) || FreeToLink(db, call))
  {
    hide HasLogin, Holds, MayLink, IsUnusedSignup, Decide;
    RefusedCallerIff(db, call);
    if call.caller in db.users && MayLink(db.users[call.caller]) {
      if key :| HasLogin(db, call, key) {
        OwnLoginAnswer(db, call, key);
        OneLogin(db, call, key);
      } else if k: nat :| Holds(db, call, k) {
        HeldIdentityAnswer(db, call, k);
        OneHolder(db, call, k);
      } else {
        FreeIdentityAnswer(db, call);
      }
    }
  }

  lemma OneLogin(db: Db, call: LinkCall, key: string)
    requires Valid(db) && HasLogin(db, call, key)
    ensures HasLogin(db, call, call.key) <==> key == call.key
  {
    OwnLogin(db, call);
  }

  lemma OneHolder(db: Db, call: LinkCall, k: nat)
    requires Valid(db) && Holds(db, call, k)
    ensures forall other: nat :: Holds(db, call, other) <==> other == k
  {
    forall other: nat | Holds(db, call, other)
      ensures other == k
    {
      HolderIsFound(db, call, k);
      HolderIsFound(db, call, other);
    }
  }

  /** A link retires an account only if it is unused: an active signup nobody finished, of no admin, without activity,
      whose only active login is the one that moves, and that one has no password. */
  lemma LinkRetiresOnlyUnused(db: Db, call: LinkCall, user: nat)
    requires Valid(db) && user in db.users && After(db, call).users[user] != db.users[user]
    ensures exists k: nat ::
      && k < |db.identities| && db.identities[k].user == user && IsUnusedSignup(db, k)
      && After(db, call).identities[k].user == call.caller && user != call.caller
  {
    hide HandOver, CallerRefusal;
    match Decide(db, call)
    case Merged(k, gone) =>
      EmptySignupIsNotCaller(db, call);
      EmptyIsUnused(db, k);
    case _ =>
  }

  /** Repeating a link that succeeded, with the same or a fresher token, changes nothing. */
  lemma RepeatedLinkChangesNothing(db: Db, call: LinkCall, again: LinkCall)
    requires Valid(db) && !Decide(db, call).Refused?
    requires again.caller == call.caller && again.provider == call.provider && again.key == call.key
    ensures Rooted(After(db, call))
    ensures Decide(After(db, call), again) == AlreadyLinked
    ensures After(After(db, call), again) == After(db, call)
  {
    hide HandOver;
    LinkKeepsValid(db, call);
    CallerNowHasLogin(db, call);
    var after := After(db, call);
    var own := FindLogin(after.identities, call.caller, Social(call.provider));
    var k :| 0 <= k < |after.identities| && IsLinkOf(after.identities[k], call);
    assert own <= k;
    assert own == k;
    assert after.users[call.caller] == db.users[call.caller];
  }

  predicate IsLinkOf(i: Identity, call: LinkCall) {
    ActiveOf(i, call.caller) && i.login == Social(call.provider) && i.key == call.key
  }

  lemma CallerNowHasLogin(db: Db, call: LinkCall)
    requires Valid(db) && !Decide(db, call).Refused?
    ensures call.caller in db.users && CallerRefusal(db.users[call.caller]) == None
    ensures call.caller in After(db, call).users && After(db, call).users[call.caller] == db.users[call.caller]
    ensures exists k :: 0 <= k < |After(db, call).identities| && IsLinkOf(After(db, call).identities[k], call)
  {
    hide HandOver;
    var after := After(db, call);
    var own := FindLogin(db.identities, call.caller, Social(call.provider));
    match Decide(db, call)
    case AlreadyLinked => assert IsLinkOf(after.identities[own], call);
    case NewlyLinked(k) => assert IsLinkOf(after.identities[|db.identities|], call);
    case Merged(k, gone) =>
      EmptySignupIsNotCaller(db, call);
      assert IsLinkOf(after.identities[k], call);
  }

  // ---- whole runs ----

  function Run(db: Db, calls: seq<LinkCall>): (after: Db)
    requires Rooted(db)
    ensures Rooted(after)
  {
    if calls == [] then db else
      RootedKept(db, calls[|calls| - 1], Run(db, calls[..|calls| - 1]));
      After(Run(db, calls[..|calls| - 1]), calls[|calls| - 1])
  }

  lemma RootedKept(start: Db, call: LinkCall, db: Db)
    requires Rooted(db)
    ensures Rooted(After(db, call))
  {
    hide HandOver;
  }

  /** Retired during the run: at its start an active, unfinished, unused signup of no admin, deleted now. */
  predicate RetiredSince(start: Db, db: Db, user: nat) {
    && user in start.users && user in db.users
    && start.users[user].account == Active && start.users[user].admin == None
    && start.users[user].onboarding in {TermsRequired, ProfileRequired, ProfileDeferred}
    && (forall n :: 0 <= n < |start.users[user].activity| ==> start.users[user].activity[n] == 0)
    && db.users[user].account == Deleted
  }

  /** Everything a run of link calls may do to users and identities. */
  ghost predicate Lineage(start: Db, db: Db) {
    && db.users.Keys == start.users.Keys
    && (forall u :: u in start.users ==> db.users[u] == start.users[u] || RetiredSince(start, db, u))
    && |db.identities| >= |start.identities|
    && (forall k :: 0 <= k < |start.identities| ==>
          SameLogin(start.identities[k], db.identities[k])
          && (db.identities[k].user != start.identities[k].user ==> !start.identities[k].hasPassword)
          && (db.identities[k].user == start.identities[k].user || RetiredSince(start, db, start.identities[k].user)))
    && (forall u, k :: RetiredSince(start, db, u) && 0 <= k < |db.identities| ==> !ActiveOf(db.identities[k], u))
  }

  lemma LinkKeepsLineage(start: Db, db: Db, call: LinkCall)
    requires Valid(db) && Lineage(start, db)
    ensures Lineage(start, After(db, call))
  {
    hide HandOver;
    match Decide(db, call)
    case Refused(_) =>
    case AlreadyLinked =>
    case NewlyLinked(_) => CallerNowHasLogin(db, call);
    case Merged(k, gone) => MergeKeepsLineage(start, db, call, k, gone);
  }

  lemma MergeKeepsLineage(start: Db, db: Db, call: LinkCall, k: nat, gone: nat)
    requires Valid(db) && Lineage(start, db) && Decide(db, call) == Merged(k, gone)
    ensures Lineage(start, After(db, call))
  {
    hide After, HandOver, Decide, CallerRefusal;
    MergedDb(db, call, k, gone);
    var after := After(db, call);
    assert RetiredSince(start, after, gone);
    forall u, j | RetiredSince(start, after, u) && 0 <= j < |after.identities|
      ensures !ActiveOf(after.identities[j], u)
    {
      if u != gone { assert RetiredSince(start, db, u); }
    }
    forall u | u in start.users
      ensures after.users[u] == start.users[u] || RetiredSince(start, after, u)
    {
      if u != gone && after.users[u] != start.users[u] { assert RetiredSince(start, db, u); }
    }
    forall j | 0 <= j < |start.identities|
      ensures SameLogin(start.identities[j], after.identities[j])
      ensures after.identities[j].user != start.identities[j].user ==> !start.identities[j].hasPassword
      ensures after.identities[j].user == start.identities[j].user
        || RetiredSince(start, after, start.identities[j].user)
    {
      if start.identities[j].user != gone && db.identities[j].user != start.identities[j].user {
        assert RetiredSince(start, db, start.identities[j].user);
      }
    }
  }

  /** The effect of a merge on users and identities. */
  lemma MergedDb(db: Db, call: LinkCall, k: nat, gone: nat)
    requires Valid(db) && Decide(db, call) == Merged(k, gone)
    ensures k < |db.identities| && db.identities[k].user == gone && gone in db.users && call.caller in db.users
    ensures gone != call.caller && IsUnusedSignup(db, k) && db.users[call.caller].account == Active
    ensures After(db, call).users == db.users[gone := RetiredUser(db.users[gone], gone, call.now)]
    ensures After(db, call).identities
      == db.identities[k := db.identities[k].(user := call.caller, lastLoginAt := call.now)]
  {
    hide HandOver;
    EmptySignupIsNotCaller(db, call);
    EmptyIsUnused(db, k);
  }

  /** Over every run: at most one active identity per user and provider, no identity lost, ownership taken only from
      unfinished signups that end up deleted, and no deleted one with an active identity. */
  lemma {:induction false} RunKeepsLineage(start: Db, calls: seq<LinkCall>)
    requires Valid(start)
    ensures Valid(Run(start, calls)) && Lineage(start, Run(start, calls))
  {
    if calls != [] {
      var before := calls[..|calls| - 1];
      RunKeepsLineage(start, before);
      LinkKeepsValid(Run(start, before), calls[|calls| - 1]);
      LinkKeepsLineage(start, Run(start, before), calls[|calls| - 1]);
    }
  }

  /** At every step of every run, an account that changes had not changed since the start, and is an unused signup whose
      only active login moves to the caller. */
  lemma RunRetiresOnlyUnused(start: Db, calls: seq<LinkCall>, n: nat, user: nat)
    requires Valid(start) && n < |calls| && user in Run(start, calls[..n]).users
    requires user in Run(start, calls[..n + 1]).users
    requires Run(start, calls[..n + 1]).users[user] != Run(start, calls[..n]).users[user]
    ensures user in start.users && start.users[user] == Run(start, calls[..n]).users[user]
    ensures exists k: nat :: var before, after := Run(start, calls[..n]), Run(start, calls[..n + 1]);
      && k < |before.identities| && before.identities[k].user == user && IsUnusedSignup(before, k)
      && k < |after.identities| && after.identities[k].user == calls[n].caller && user != calls[n].caller
  {
    hide After, IsUnusedSignup;
    var before := Run(start, calls[..n]);
    RunKeepsLineage(start, calls[..n]);
    assert calls[..n + 1][..n] == calls[..n] && calls[..n + 1][n] == calls[n];
    assert Run(start, calls[..n + 1]) == After(before, calls[n]);
    RetiredIsActive(before, calls[n], user);
    LinkMovesOnlyFromEmptySignups(before, calls[n]);
    LinkRetiresOnlyUnused(before, calls[n], user);
  }

  lemma RetiredIsActive(db: Db, call: LinkCall, user: nat)
    requires Valid(db) && user in db.users && user in After(db, call).users
    requires After(db, call).users[user] != db.users[user]
    ensures db.users[user].account == Active
  {
    LinkRetiresOnlyUnused(db, call, user);
  }
}

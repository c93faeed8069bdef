/** The account table and the database roles behind it, step by step, and what every run
    of these steps keeps. */
module AccountSteps {
  import opened Prelude
  import opened Roles

  type UserId = nat

  /** A role in the catalog: whether it may log in, the ranks it is a member of, the marker
      of a personal account, and whether it is one of the service roles. */
  datatype DbRole = DbRole(login: bool, ranks: set<Rank>, person: bool, isService: bool, password: Option<string>)

  type Catalog = map<string, DbRole>

  datatype Account = Account(roleName: string, rank: Rank, enabled: bool, awaiting: bool)

  datatype State = State(rows: map<UserId, Account>, roles: Catalog)

  // ----- the provisioning functions of the database -----

  datatype DbError = BadIdentifier | ServiceRole | NotAPerson | PasswordTooShort

  predicate IsLetter(c: char) {
    'a' <= c <= 'z' || 'A' <= c <= 'Z' || c == '_'
  }

  predicate IsDigit(c: char) {
    '0' <= c <= '9'
  }

  predicate ValidIdentifier(name: string) {
    0 < |name| <= 50 && (forall c | c in name :: IsLetter(c) || IsDigit(c)) && !IsDigit(name[0])
  }

  /** The checks the provisioning functions share. */
  function Refusal(roles: Catalog, name: string): Option<DbError> {
    if !ValidIdentifier(name) then Some(BadIdentifier)
    else if name in roles && roles[name].isService then Some(ServiceRole)
    else if name in roles && !roles[name].person then Some(NotAPerson)
    else None
  }

  /** Creates the role or re-enables it, with exactly one rank; without a password the
      credential is left alone. */
  function CreateDbUser(roles: Catalog, name: string, password: Option<string>, rank: Rank): Result<Catalog, DbError> {
    if Refusal(roles, name).Some? then Err(Refusal(roles, name).value)
    else if password.Some? && |password.value| < 12 then Err(PasswordTooShort)
    else
      var kept := if name in roles then roles[name].password else None;
      Ok(roles[name := DbRole(true, {rank}, true, false, if password.Some? then password else kept)])
  }

  /** Takes login and ranks, keeps the role and its marker. */
  function DeleteDbUser(roles: Catalog, name: string): Result<Catalog, DbError> {
    if Refusal(roles, name).Some? then Err(Refusal(roles, name).value)
    else if name !in roles then Ok(roles)
    else Ok(roles[name := roles[name].(login := false, ranks := {})])
  }

  function ClearDbUserPassword(roles: Catalog, name: string): Result<Catalog, DbError> {
    if Refusal(roles, name).Some? then Err(Refusal(roles, name).value)
    else if name !in roles then Ok(roles)
    else Ok(roles[name := roles[name].(password := None)])
  }

  function DropDbUser(roles: Catalog, name: string): Result<Catalog, DbError> {
    if Refusal(roles, name).Some? then Err(Refusal(roles, name).value) else Ok(roles - {name})
  }

  // ----- the steps -----

  /** `fault` marks an exception raised after the database function, before the commit.
      `OtherRole` stands for everything the rest of the system does to roles that are not
      personal accounts, `DeleteUser` for the removal of the Django account. */
  datatype Event =
    | Enroll(user: UserId, roleName: string, earned: Option<Rank>, fault: bool)
    | IssueCredential(user: UserId, issuesSecret: bool, secret: string, fault: bool)
    | Reset(user: UserId, fault: bool)
    | Disable(roleName: string, fault: bool)
    | Sync(user: UserId, active: bool, earned: Option<Rank>, fault: bool)
    | Remove(user: UserId, fault: bool)
    | DeleteUser(user: UserId, fault: bool)
    | OtherRole(roleName: string, role: Option<DbRole>)

  datatype Outcome =
    | Done
    | Issued(secret: string)
    | Nothing
    | NoRank
    | NoAccount
    | Refused(error: DbError)
    | NameTaken
    | Failed

  predicate NameHeldByOther(rows: map<UserId, Account>, user: UserId, name: string) {
    exists u | u in rows :: u != user && rows[u].roleName == name
  }

  /** The row a disabled role is recorded in, if any, is disabled with it. */
  function DisableRows(rows: map<UserId, Account>, name: string): map<UserId, Account> {
    map u | u in rows :: if rows[u].roleName == name then rows[u].(enabled := false) else rows[u]
  }

  function DisableStep(s: State, name: string, fault: bool): (State, Outcome) {
    var roles := DeleteDbUser(s.roles, name);
    if roles.Err? then (s, Refused(roles.error))
    else if fault then (s, Failed)
    else (State(DisableRows(s.rows, name), roles.value), Done)
  }

  function EnrollStep(s: State, user: UserId, name: string, earned: Option<Rank>, fault: bool): (State, Outcome) {
    if earned.None? then (s, NoRank)
    else
      var roles := CreateDbUser(s.roles, name, None, earned.value);
      if roles.Err? then (s, Refused(roles.error))
      else if NameHeldByOther(s.rows, user, name) then (s, NameTaken)
      else if fault then (s, Failed)
      else (State(s.rows[user := Account(name, earned.value, true, true)], roles.value), Done)
  }

  function IssueStep(s: State, user: UserId, issuesSecret: bool, secret: string, fault: bool): (State, Outcome) {
    if user !in s.rows || !s.rows[user].awaiting then (s, Nothing)
    else
      var row := s.rows[user];
      if !issuesSecret then
        if fault then (s, Failed) else (s.(rows := s.rows[user := row.(awaiting := false)]), Nothing)
      else
        var roles := CreateDbUser(s.roles, row.roleName, Some(secret), row.rank);
        if roles.Err? then (s, Refused(roles.error))
        else if fault then (s, Failed)
        else (State(s.rows[user := row.(awaiting := false, enabled := true)], roles.value), Issued(secret))
  }

  function ResetStep(s: State, user: UserId, fault: bool): (State, Outcome) {
    if user !in s.rows then (s, NoAccount)
    else
      var roles := ClearDbUserPassword(s.roles, s.rows[user].roleName);
      if roles.Err? then (s, Refused(roles.error))
      else if fault then (s, Failed)
      else (State(s.rows[user := s.rows[user].(awaiting := true)], roles.value), Done)
  }

  function SyncStep(s: State, user: UserId, active: bool, earned: Option<Rank>, fault: bool): (State, Outcome) {
    if user !in s.rows then (s, Nothing)
    else
      var row := s.rows[user];
      var rank := if active then earned else None;
      if rank.None? then
        if row.enabled then DisableStep(s, row.roleName, fault) else (s, Nothing)
      else if rank.value == row.rank && row.enabled then (s, Nothing)
      else
        var roles := CreateDbUser(s.roles, row.roleName, None, rank.value);
        if roles.Err? then (s, Refused(roles.error))
        else if fault then (s, Failed)
        else (State(s.rows[user := row.(rank := rank.value, enabled := true)], roles.value), Done)
  }

  function RemoveStep(s: State, user: UserId, fault: bool): (State, Outcome) {
    if user !in s.rows then (s, NoAccount)
    else
      var roles := DropDbUser(s.roles, s.rows[user].roleName);
      if roles.Err? then (s, Refused(roles.error))
      else if fault then (s, Failed)
      else (State(s.rows - {user}, roles.value), Done)
  }

  /** The receiver disables the role, swallowing a failure; the cascade takes the row. */
  function DeleteUserStep(s: State, user: UserId, fault: bool): (State, Outcome) {
    if user !in s.rows then (s, Nothing)
    else
      var disabled := DisableStep(s, s.rows[user].roleName, fault).0;
      (disabled.(rows := disabled.rows - {user}), Done)
  }

  /** Tenant onboarding refuses a personal account's name, and marks no role as one. */
  function OtherRoleStep(s: State, name: string, role: Option<DbRole>): (State, Outcome) {
    if name in s.roles && s.roles[name].person then (s, Refused(NotAPerson))
    else if role.None? then (s.(roles := s.roles - {name}), Done)
    else (s.(roles := s.roles[name := role.value.(person := false)]), Done)
  }

  function Step(s: State, e: Event): (State, Outcome) {
    match e
    case Enroll(user, name, earned, fault) => EnrollStep(s, user, name, earned, fault)
    case IssueCredential(user, issuesSecret, secret, fault) => IssueStep(s, user, issuesSecret, secret, fault)
    case Reset(user, fault) => ResetStep(s, user, fault)
    case Disable(name, fault) => DisableStep(s, name, fault)
    case Sync(user, active, earned, fault) => SyncStep(s, user, active, earned, fault)
    case Remove(user, fault) => RemoveStep(s, user, fault)
    case DeleteUser(user, fault) => DeleteUserStep(s, user, fault)
    case OtherRole(name, role) => OtherRoleStep(s, name, role)
  }

  // ----- the invariant -----

  /** A row and its role agree: the role exists, is a personal account, logs in exactly when
      the row is enabled, and then has the recorded rank as its only one. */
  ghost predicate Agrees(row: Account, roles: Catalog) {
    && row.roleName in roles && ValidIdentifier(row.roleName)
    && var role := roles[row.roleName];
       role.person && !role.isService && role.login == row.enabled
       && role.ranks == if row.enabled then {row.rank} else {}
  }

  ghost predicate NamesUnique(rows: map<UserId, Account>) {
    forall u, v | u in rows && v in rows && rows[u].roleName == rows[v].roleName :: u == v
  }

  ghost predicate Inv(s: State) {
    NamesUnique(s.rows) && forall u | u in s.rows :: Agrees(s.rows[u], s.roles)
  }

  lemma DisableKeepsInv(s: State, name: string, fault: bool)
    requires Inv(s)
    ensures Inv(DisableStep(s, name, fault).0)
  {
  }

  lemma EnrollKeepsInv(s: State, user: UserId, name: string, earned: Option<Rank>, fault: bool)
    requires Inv(s)
    ensures Inv(EnrollStep(s, user, name, earned, fault).0)
  {
  }

  lemma IssueKeepsInv(s: State, user: UserId, issuesSecret: bool, secret: string, fault: bool)
    requires Inv(s)
    ensures Inv(IssueStep(s, user, issuesSecret, secret, fault).0)
  {
    hide ValidIdentifier;
  }

  lemma SyncKeepsInv(s: State, user: UserId, active: bool, earned: Option<Rank>, fault: bool)
    requires Inv(s)
    ensures Inv(SyncStep(s, user, active, earned, fault).0)
  {
    if user in s.rows { DisableKeepsInv(s, s.rows[user].roleName, fault); }
  }

  lemma RemoveKeepsInv(s: State, user: UserId, fault: bool)
    requires Inv(s)
    ensures Inv(RemoveStep(s, user, fault).0)
  {
  }

  lemma DeleteUserKeepsInv(s: State, user: UserId, fault: bool)
    requires Inv(s)
    ensures Inv(DeleteUserStep(s, user, fault).0)
  {
    if user in s.rows { DisableKeepsInv(s, s.rows[user].roleName, fault); }
  }

  lemma OtherRoleKeepsInv(s: State, name: string, role: Option<DbRole>)
    requires Inv(s)
    ensures Inv(OtherRoleStep(s, name, role).0)
  {
  }

  lemma StepKeepsInv(s: State, e: Event)
    requires Inv(s)
    ensures Inv(Step(s, e).0)
  {
    match e
    case Enroll(user, name, earned, fault) => EnrollKeepsInv(s, user, name, earned, fault);
    case IssueCredential(user, issuesSecret, secret, fault) => IssueKeepsInv(s, user, issuesSecret, secret, fault);
    case Reset(user, fault) =>
    case Disable(name, fault) => DisableKeepsInv(s, name, fault);
    case Sync(user, active, earned, fault) => SyncKeepsInv(s, user, active, earned, fault);
    case Remove(user, fault) => RemoveKeepsInv(s, user, fault);
    case DeleteUser(user, fault) => DeleteUserKeepsInv(s, user, fault);
    case OtherRole(name, role) => OtherRoleKeepsInv(s, name, role);
  }

  // ----- runs -----

  type Log = seq<(Event, Outcome)>

  /** A run from an empty account table over any catalog. */
  function Run(roles: Catalog, events: seq<Event>): (State, Log) {
    if events == [] then (State(map[], roles), [])
    else
      var n := |events| - 1;
      var (s, log) := Run(roles, events[..n]);
      var (s', outcome) := Step(s, events[n]);
      (s', log + [(events[n], outcome)])
  }

  /** Over every run, failures included: no two rows share a role, every row's role exists,
      is enabled exactly as the row says, and an enabled one has the recorded rank only. */
  lemma {:induction false} EveryRunKeepsInv(roles: Catalog, events: seq<Event>)
    ensures Inv(Run(roles, events).0)
  {
    if events != [] {
      var n := |events| - 1;
      EveryRunKeepsInv(roles, events[..n]);
      StepKeepsInv(Run(roles, events[..n]).0, events[n]);
    }
  }

  /** An enrollment or a reset of this user went through. */
  predicate Rearms(entry: (Event, Outcome), user: UserId) {
    entry.1 == Done && ((entry.0.Enroll? && entry.0.user == user) || (entry.0.Reset? && entry.0.user == user))
  }

  predicate Issues(entry: (Event, Outcome), user: UserId) {
    entry.1.Issued? && entry.0.IssueCredential? && entry.0.user == user
  }

  /** Since the last secret of this user there was an enrollment or a reset. */
  predicate MayIssue(log: Log, user: UserId) {
    log != [] && (Rearms(log[|log| - 1], user) || (!Issues(log[|log| - 1], user) && MayIssue(log[..|log| - 1], user)))
  }

  ghost predicate AwaitsLawfully(s: State, log: Log, user: UserId) {
    user in s.rows && s.rows[user].awaiting ==> MayIssue(log, user)
  }

  lemma StepAwaitsLawfully(s: State, log: Log, e: Event, user: UserId)
    requires AwaitsLawfully(s, log, user)
    ensures AwaitsLawfully(Step(s, e).0, log + [(e, Step(s, e).1)], user)
    ensures Issues((e, Step(s, e).1), user) ==> MayIssue(log, user)
  {
    var longer := log + [(e, Step(s, e).1)];
    assert longer[..|longer| - 1] == log;
  }

  lemma {:induction false} RunAwaitsLawfully(roles: Catalog, events: seq<Event>, user: UserId)
    ensures var (s, log) := Run(roles, events);
      && |log| == |events| && AwaitsLawfully(s, log, user)
      && forall j | 0 <= j < |log| && Issues(log[j], user) :: MayIssue(log[..j], user)
  {
    if events != [] {
      var n := |events| - 1;
      RunAwaitsLawfully(roles, events[..n], user);
      var (s, log) := Run(roles, events[..n]);
      StepAwaitsLawfully(s, log, events[n], user);
      var longer := Run(roles, events).1;
      assert longer == log + [(events[n], Step(s, events[n]).1)];
      forall j | 0 <= j < |longer| && Issues(longer[j], user) ensures MayIssue(longer[..j], user) {
        assert longer[..j] == log[..j];
        if j == n { assert log[..j] == log; }
      }
    }
  }

  lemma {:induction false} RearmedBetween(log: Log, user: UserId, i: nat)
    requires i < |log| && Issues(log[i], user) && MayIssue(log, user)
    ensures exists k :: i < k < |log| && Rearms(log[k], user)
  {
    var n := |log| - 1;
    if Rearms(log[n], user) {
      assert i < n;
    } else {
      RearmedBetween(log[..n], user, i);
      var k :| i < k < n && Rearms(log[..n][k], user);
      assert Rearms(log[k], user);
    }
  }

  /** Between two secrets issued for one user there is always an enrollment or a reset. */
  lemma SecretsAreRearmed(roles: Catalog, events: seq<Event>, user: UserId, i: nat, j: nat)
    requires i < j < |Run(roles, events).1|
    requires Issues(Run(roles, events).1[i], user) && Issues(Run(roles, events).1[j], user)
    ensures exists k :: i < k < j && Rearms(Run(roles, events).1[k], user)
  {
    var log := Run(roles, events).1;
    RunAwaitsLawfully(roles, events, user);
    assert log[..j][i] == log[i];
    RearmedBetween(log[..j], user, i);
    var k :| i < k < j && Rearms(log[..j][k], user);
    assert log[..j][k] == log[k];
  }

  // ----- reconciliation -----

  /** On a table in order the database refuses no sync, and the row ends up enabled exactly
      when the user is active and earns a rank, which is then the recorded one. */
  lemma SyncReconciles(s: State, user: UserId, active: bool, earned: Option<Rank>)
    requires Inv(s) && user in s.rows
    ensures var (s', outcome) := SyncStep(s, user, active, earned, false);
      && outcome in {Done, Nothing}
      && user in s'.rows && s'.rows[user].enabled == (active && earned.Some?)
      && (s'.rows[user].enabled ==> s'.rows[user].rank == earned.value)
      && s'.rows[user].awaiting == s.rows[user].awaiting && s'.rows[user].roleName == s.rows[user].roleName
      && SyncStep(s', user, active, earned, false).0 == s'
  {
    assert Agrees(s.rows[user], s.roles);
    assert Refusal(s.roles, s.rows[user].roleName).None?;
  }

  /** Nobody else's row or role is touched by a sync. */
  lemma SyncTouchesOne(s: State, user: UserId, active: bool, earned: Option<Rank>, other: UserId)
    requires Inv(s) && user in s.rows && other in s.rows && other != user
    ensures var s' := SyncStep(s, user, active, earned, false).0;
      && other in s'.rows && s'.rows[other] == s.rows[other]
      && s'.roles[s.rows[other].roleName] == s.roles[s.rows[other].roleName]
  {
    assert Agrees(s.rows[other], s.roles);
  }

  /** A sign-in syncs and then issues: someone without a rank ends up enabled again if and
      only if a credential was still owed to them. */
  lemma SignInReenablesIff(s: State, user: UserId, secret: string)
    requires Inv(s) && user in s.rows && |secret| >= 12
    ensures var synced := SyncStep(s, user, true, None, false).0;
      var signedIn := IssueStep(synced, user, true, secret, false).0;
      user in signedIn.rows && (signedIn.rows[user].enabled <==> s.rows[user].awaiting)
  {
    SyncReconciles(s, user, true, None);
    SyncKeepsInv(s, user, true, None, false);
    var synced := SyncStep(s, user, true, None, false).0;
    assert Agrees(synced.rows[user], synced.roles);
  }

  /** A secret is handed out exactly when it becomes the password of the user's role, and the
      row is then claimed. */
  lemma IssuedIsPassword(s: State, user: UserId, secret: string, fault: bool)
    requires Inv(s)
    ensures var (s', outcome) := IssueStep(s, user, true, secret, fault);
      && (outcome.Issued? <==> user in s.rows && s.rows[user].awaiting && |secret| >= 12 && !fault)
      && if outcome.Issued? then
           && outcome == Issued(secret) && user in s'.rows && s'.rows[user].enabled && !s'.rows[user].awaiting
           && s'.roles[s'.rows[user].roleName].password == Some(secret)
         else s' == s
  {
    if user in s.rows { assert Agrees(s.rows[user], s.roles); }
  }

  /** The guards an enrollment has to pass. */
  predicate Enrolls(s: State, user: UserId, name: string, earned: Option<Rank>, fault: bool) {
    earned.Some? && Refusal(s.roles, name).None? && !NameHeldByOther(s.rows, user, name) && !fault
  }

  /** An enrollment goes through exactly past its guards, and leaves the role without a
      password if and only if it had none before. */
  lemma EnrolledWithoutPasswordIff(s: State, user: UserId, name: string, earned: Option<Rank>, fault: bool)
    ensures EnrollStep(s, user, name, earned, fault).1 == Done <==> Enrolls(s, user, name, earned, fault)
    ensures Enrolls(s, user, name, earned, fault) ==>
      var s' := EnrollStep(s, user, name, earned, fault).0;
      && name in s'.roles && user in s'.rows && s'.rows[user] == Account(name, earned.value, true, true)
      && (s'.roles[name].password.None? <==> name !in s.roles || s.roles[name].password.None?)
  {
  }

  // ----- what each operation does to a row and its role, and to nothing else -----

  /** Nobody but `user`, and no role but `name`, is touched. */
  ghost predicate OnlyTouches(s: State, s': State, user: UserId, name: string) {
    && (forall u | u != user :: (u in s'.rows <==> u in s.rows) && (u in s.rows ==> s'.rows[u] == s.rows[u]))
    && (forall n | n != name :: (n in s'.roles <==> n in s.roles) && (n in s.roles ==> s'.roles[n] == s.roles[n]))
  }

  lemma TouchesOnly(s: State, s': State, user: UserId, name: string)
    requires forall u | u != user :: (u in s'.rows <==> u in s.rows) && (u in s.rows ==> s'.rows[u] == s.rows[u])
    requires forall n | n != name :: (n in s'.roles <==> n in s.roles) && (n in s.roles ==> s'.roles[n] == s.roles[n])
    ensures OnlyTouches(s, s', user, name)
  {
  }

  /** A reset is never refused on a table in order. It revokes the password at once, puts the
      row back into waiting and leaves login, ranks and everyone else alone; the next secret
      long enough is then handed out and becomes the password. A failure changes nothing. */
  lemma ResetRevokes(s: State, user: UserId, secret: string)
    requires Inv(s) && user in s.rows
    ensures var name, (s', outcome) := s.rows[user].roleName, ResetStep(s, user, false);
      && outcome == Done && user in s'.rows && name in s.roles && name in s'.roles && OnlyTouches(s, s', user, name)
      && s'.rows[user] == Account(name, s.rows[user].rank, s.rows[user].enabled, true)
      && s'.roles[name] == DbRole(s.roles[name].login, s.roles[name].ranks, s.roles[name].person,
                                  s.roles[name].isService, None)
      && (|secret| >= 12 ==>
            var (s'', issued) := IssueStep(s', user, true, secret, false);
            issued == Issued(secret) && name in s''.roles && s''.roles[name].password == Some(secret))
    ensures ResetStep(s, user, true) == (s, Failed)
    ensures forall u | u !in s.rows :: ResetStep(s, u, false) == (s, NoAccount)
  {
    hide ValidIdentifier;
    assert Agrees(s.rows[user], s.roles);
  }

  /** Removing is never refused on a table in order. Row and role are gone and everyone else
      is left alone; whoever is enrolled under the name later starts without a password. A
      failure changes nothing. */
  lemma RemovedStartsAfresh(s: State, user: UserId, other: UserId, earned: Rank)
    requires Inv(s) && user in s.rows && (other == user || other !in s.rows)
    ensures var name, (s', outcome) := s.rows[user].roleName, RemoveStep(s, user, false);
      && outcome == Done && user !in s'.rows && name !in s'.roles && OnlyTouches(s, s', user, name)
      && (var (s'', enrolled) := EnrollStep(s', other, name, Some(earned), false);
          enrolled == Done && name in s''.roles && s''.roles[name] == DbRole(true, {earned}, true, false, None))
    ensures RemoveStep(s, user, true) == (s, Failed)
    ensures forall u | u !in s.rows :: RemoveStep(s, u, false) == (s, NoAccount)
  {
    hide ValidIdentifier;
    assert Agrees(s.rows[user], s.roles);
  }

  /** Disabling takes login and ranks from a personal account's role, and keeps the role, its
      marker and its password; the rows of that name are disabled and nothing else changes. */
  lemma DisabledKeepsRole(s: State, name: string)
    requires ValidIdentifier(name) && name in s.roles && s.roles[name].person && !s.roles[name].isService
    ensures var (s', outcome) := DisableStep(s, name, false);
      && outcome == Done && s'.roles.Keys == s.roles.Keys && s'.rows.Keys == s.rows.Keys
      && s'.roles[name] == DbRole(false, {}, true, false, s.roles[name].password)
      && (forall n | n in s.roles && n != name :: s'.roles[n] == s.roles[n])
      && (forall u | u in s.rows :: s'.rows[u] ==
            Account(s.rows[u].roleName, s.rows[u].rank, s.rows[u].enabled && s.rows[u].roleName != name,
                    s.rows[u].awaiting))
    ensures DisableStep(s, name, true) == (s, Failed)
  {
    hide ValidIdentifier;
  }

  /** An enrollment that passes its guards writes one row and one role: the role can log in
      with the earned rank alone, and only its password is what it was. */
  lemma EnrollTouchesOne(s: State, user: UserId, name: string, earned: Rank)
    requires Enrolls(s, user, name, Some(earned), false)
    ensures var (s', outcome) := EnrollStep(s, user, name, Some(earned), false);
      && outcome == Done && OnlyTouches(s, s', user, name) && user in s'.rows && name in s'.roles
      && s'.rows[user] == Account(name, earned, true, true)
      && s'.roles[name] == DbRole(true, {earned}, true, false, if name in s.roles then s.roles[name].password else None)
  {
    hide ValidIdentifier;
  }

  /** A sync that finds its user out of step sets the role to the new rank alone, or takes
      login and ranks; the password stays, and nobody else is touched. */
  lemma SyncKeepsPassword(s: State, user: UserId, active: bool, earned: Option<Rank>)
    requires Inv(s) && user in s.rows
    ensures var name, s' := s.rows[user].roleName, SyncStep(s, user, active, earned, false).0;
      && OnlyTouches(s, s', user, name) && name in s.roles && name in s'.roles && user in s'.rows
      && s'.roles[name] == (if active && earned.Some?
           then DbRole(true, {earned.value}, true, false, s.roles[name].password)
           else DbRole(false, {}, true, false, s.roles[name].password))
  {
    hide ValidIdentifier;
    assert Agrees(s.rows[user], s.roles);
  }

  lemma RoleOfRow(s: State, user: UserId)
    requires Inv(s) && user in s.rows
    ensures var name := s.rows[user].roleName;
      && ValidIdentifier(name) && name in s.roles && s.roles[name].person && !s.roles[name].isService
      && forall u | u in s.rows && u != user :: s.rows[u].roleName != name
  {
    hide ValidIdentifier;
    assert Agrees(s.rows[user], s.roles);
  }

  lemma DeletionOfRow(s: State, user: UserId, fault: bool)
    requires Inv(s) && user in s.rows
    ensures var s' := DeleteUserStep(s, user, fault).0;
      forall u :: (u in s'.rows <==> u in s.rows && u != user) && (u in s'.rows ==> s'.rows[u] == s.rows[u])
  {
    RoleOfRow(s, user);
    hide ValidIdentifier, Inv, DeleteDbUser;
  }

  lemma DeletionOfRole(s: State, user: UserId, fault: bool)
    requires Inv(s) && user in s.rows
    ensures var name, s' := s.rows[user].roleName, DeleteUserStep(s, user, fault).0;
      && name in s.roles && s'.roles == if fault then s.roles
           else s.roles[name := DbRole(false, {}, true, false, s.roles[name].password)]
  {
    RoleOfRow(s, user);
    hide ValidIdentifier, Inv, DisableRows;
  }

  /** A deleted Django account's row is gone, and its role is left disabled, unless the
      database failed, in which case it is left as it was. */
  lemma DeletionDisables(s: State, user: UserId, fault: bool)
    requires Inv(s) && user in s.rows
    ensures var name, s' := s.rows[user].roleName, DeleteUserStep(s, user, fault).0;
      && user !in s'.rows && OnlyTouches(s, s', user, name) && name in s.roles && name in s'.roles
      && s'.roles[name] == if fault then s.roles[name] else DbRole(false, {}, true, false, s.roles[name].password)
  {
    hide DeleteUserStep, Inv, OnlyTouches;
    DeletionOfRow(s, user, fault);
    DeletionOfRole(s, user, fault);
    TouchesOnly(s, DeleteUserStep(s, user, fault).0, user, s.rows[user].roleName);
  }

  /** Where the backend issues no secrets a sign-in only claims the row. */
  lemma ClaimedWithoutSecret(s: State, user: UserId, secret: string)
    requires user in s.rows
    ensures var (s', outcome) := IssueStep(s, user, false, secret, false);
      && outcome == Nothing && s'.roles == s.roles && s'.rows.Keys == s.rows.Keys
      && (forall u | u in s.rows && u != user :: s'.rows[u] == s.rows[u])
      && s'.rows[user] == Account(s.rows[user].roleName, s.rows[user].rank, s.rows[user].enabled, false)
  {
  }

  /** An operation that fails or is refused changes nothing. Deleting a Django account is the
      exception: it goes on whatever the database says. */
  lemma FailureChangesNothing(s: State, e: Event)
    requires !e.DeleteUser?
    ensures !e.OtherRole? && e.fault ==> Step(s, e).0 == s
    ensures Step(s, e).1 in {NoRank, NoAccount, NameTaken, Failed} || Step(s, e).1.Refused? ==> Step(s, e).0 == s
  {
    hide ValidIdentifier;
  }

  /** No operation on accounts ever touches a service role, or a role that is not a person's. */
  lemma OtherRolesUntouched(s: State, e: Event, name: string)
    requires name in s.roles && (s.roles[name].isService || !s.roles[name].person) && !e.OtherRole?
    ensures name in Step(s, e).0.roles && Step(s, e).0.roles[name] == s.roles[name]
  {
    hide ValidIdentifier;
  }

  /** The identifiers the database accepts, by example. */
  lemma IdentifierExamples()
    ensures ValidIdentifier("gf_Ann9") && ValidIdentifier("_")
    ensures !ValidIdentifier("") && !ValidIdentifier("9ann") && !ValidIdentifier("a-b") && !ValidIdentifier("a b")
    ensures forall name | |name| > 50 :: !ValidIdentifier(name)
  {
    assert "a-b"[1] == '-' && "a b"[1] == ' ';
    assert '-' in "a-b" && ' ' in "a b";
  }

  // ----- no role without its row -----

  ghost predicate Recorded(rows: map<UserId, Account>, name: string) {
    exists u :: u in rows && rows[u].roleName == name
  }

  /** Every personal account that can log in is some row's. */
  ghost predicate NoOrphanLogin(s: State) {
    forall name | name in s.roles && s.roles[name].person && s.roles[name].login :: Recorded(s.rows, name)
  }

  /** The two steps that leave an enabled role behind: enrolling a user with an enabled row
      under another role name, and deleting a Django account while the database fails. */
  predicate Abandons(s: State, e: Event) {
    match e
    case Enroll(user, name, earned, fault) =>
      Enrolls(s, user, name, earned, fault) && user in s.rows && s.rows[user].enabled && s.rows[user].roleName != name
    case DeleteUser(user, fault) => user in s.rows && s.rows[user].enabled && fault
    case _ => false
  }

  /** A state whose rows differ from another's only in the row of one user. */
  lemma StillRecorded(before: map<UserId, Account>, after: map<UserId, Account>, user: UserId, name: string)
    requires Recorded(before, name) && (user in before ==> before[user].roleName != name)
    requires forall u | u in before && u != user :: u in after && after[u].roleName == before[u].roleName
    ensures Recorded(after, name)
  {
    var u :| u in before && before[u].roleName == name;
    assert u in after;
  }

  lemma AbandonedIsOrphan(s: State, e: Event)
    requires Inv(s) && Abandons(s, e)
    ensures !NoOrphanLogin(Step(s, e).0)
  {
    var name, s' := s.rows[e.user].roleName, Step(s, e).0;
    assert Agrees(s.rows[e.user], s.roles);
    assert name in s'.roles && s'.roles[name].person && s'.roles[name].login;
    forall u | u in s'.rows ensures s'.rows[u].roleName != name {
      if u != e.user { assert u in s.rows && s'.rows[u].roleName == s.rows[u].roleName; }
    }
  }

  /** Steps on the row of one user that write its own role and no other. */
  lemma OwnRoleStepKeeps(s: State, s': State, user: UserId, name: string)
    requires NoOrphanLogin(s)
    requires forall n | n in s'.roles && n != name :: n in s.roles && s'.roles[n] == s.roles[n]
    requires forall u | u in s.rows && u != user :: u in s'.rows && s'.rows[u].roleName == s.rows[u].roleName
    requires user in s.rows ==>
      s.rows[user].roleName == name
      || (s.rows[user].roleName in s'.roles ==> !s'.roles[s.rows[user].roleName].login)
    requires name in s'.roles && s'.roles[name].person && s'.roles[name].login ==> Recorded(s'.rows, name)
    ensures NoOrphanLogin(s')
  {
    forall n | n in s'.roles && s'.roles[n].person && s'.roles[n].login ensures Recorded(s'.rows, n) {
      if n != name { StillRecorded(s.rows, s'.rows, user, n); }
    }
  }

  lemma EnrollAbandonsNothing(s: State, user: UserId, name: string, earned: Option<Rank>, fault: bool)
    requires Inv(s) && NoOrphanLogin(s) && !Abandons(s, Enroll(user, name, earned, fault))
    ensures NoOrphanLogin(EnrollStep(s, user, name, earned, fault).0)
  {
    var s' := EnrollStep(s, user, name, earned, fault).0;
    if s' != s {
      assert s'.rows[user].roleName == name;
      if user in s.rows { assert Agrees(s.rows[user], s.roles); }
      OwnRoleStepKeeps(s, s', user, name);
    }
  }

  /** Steps that work on the recorded role of a user. */
  lemma RecordedRoleStep(s: State, s': State, user: UserId)
    requires Inv(s) && NoOrphanLogin(s) && user in s.rows
    requires s'.rows.Keys == s.rows.Keys && forall u | u in s.rows :: s'.rows[u].roleName == s.rows[u].roleName
    requires forall n | n in s'.roles && n != s.rows[user].roleName :: n in s.roles && s'.roles[n] == s.roles[n]
    ensures NoOrphanLogin(s')
  {
    assert Recorded(s.rows, s.rows[user].roleName);
    SameNamesKeep(s, s', s.rows[user].roleName);
  }

  lemma DeletionAbandonsNothing(s: State, user: UserId, fault: bool)
    requires Inv(s) && NoOrphanLogin(s) && !Abandons(s, DeleteUser(user, fault)) && user in s.rows
    ensures NoOrphanLogin(DeleteUserStep(s, user, fault).0)
  {
    assert Agrees(s.rows[user], s.roles);
    OwnRoleStepKeeps(s, DeleteUserStep(s, user, fault).0, user, s.rows[user].roleName);
  }

  lemma OtherRoleAbandonsNothing(s: State, name: string, role: Option<DbRole>)
    requires NoOrphanLogin(s)
    ensures NoOrphanLogin(OtherRoleStep(s, name, role).0)
  {
    var s' := OtherRoleStep(s, name, role).0;
    forall n | n in s'.roles && s'.roles[n].person && s'.roles[n].login ensures Recorded(s'.rows, n) {
      assert n in s.roles && s.roles[n] == s'.roles[n];
    }
  }

  lemma NotAbandoned(s: State, e: Event)
    requires Inv(s) && NoOrphanLogin(s) && !Abandons(s, e)
    ensures NoOrphanLogin(Step(s, e).0)
  {
    hide Inv, NoOrphanLogin, CreateDbUser, DeleteDbUser, ClearDbUserPassword, DropDbUser;
    match e
    case Enroll(user, name, earned, fault) => EnrollAbandonsNothing(s, user, name, earned, fault);
    case IssueCredential(user, issuesSecret, secret, fault) =>
      IssueAbandonsNothing(s, user, issuesSecret, secret, fault);
    case Reset(user, fault) => ResetAbandonsNothing(s, user, fault);
    case Disable(name, fault) => DisableAbandonsNothing(s, name, fault);
    case Sync(user, active, earned, fault) => SyncAbandonsNothing(s, user, active, earned, fault);
    case Remove(user, fault) => RemoveAbandonsNothing(s, user, fault);
    case DeleteUser(user, fault) => if user in s.rows { DeletionAbandonsNothing(s, user, fault); }
    case OtherRole(name, role) => OtherRoleAbandonsNothing(s, name, role);
  }

  lemma IssueAbandonsNothing(s: State, user: UserId, issuesSecret: bool, secret: string, fault: bool)
    requires Inv(s) && NoOrphanLogin(s)
    ensures NoOrphanLogin(IssueStep(s, user, issuesSecret, secret, fault).0)
  {
    hide ValidIdentifier;
    if user in s.rows { RecordedRoleStep(s, IssueStep(s, user, issuesSecret, secret, fault).0, user); }
  }

  lemma ResetAbandonsNothing(s: State, user: UserId, fault: bool)
    requires Inv(s) && NoOrphanLogin(s)
    ensures NoOrphanLogin(ResetStep(s, user, fault).0)
  {
    if user in s.rows { RecordedRoleStep(s, ResetStep(s, user, fault).0, user); }
  }

  lemma DisableAbandonsNothing(s: State, name: string, fault: bool)
    requires Inv(s) && NoOrphanLogin(s)
    ensures NoOrphanLogin(DisableStep(s, name, fault).0)
  {
    SameNamesKeep(s, DisableStep(s, name, fault).0, name);
  }

  lemma SyncAbandonsNothing(s: State, user: UserId, active: bool, earned: Option<Rank>, fault: bool)
    requires Inv(s) && NoOrphanLogin(s)
    ensures NoOrphanLogin(SyncStep(s, user, active, earned, fault).0)
  {
    hide ValidIdentifier;
    if user in s.rows { RecordedRoleStep(s, SyncStep(s, user, active, earned, fault).0, user); }
  }

  lemma RemoveAbandonsNothing(s: State, user: UserId, fault: bool)
    requires Inv(s) && NoOrphanLogin(s)
    ensures NoOrphanLogin(RemoveStep(s, user, fault).0)
  {
    var s' := RemoveStep(s, user, fault).0;
    if s' != s { OwnRoleStepKeeps(s, s', user, s.rows[user].roleName); }
  }

  /** Steps that keep every row's role name and give no login to an unrecorded role. */
  lemma SameNamesKeep(s: State, s': State, name: string)
    requires NoOrphanLogin(s)
    requires s'.rows.Keys == s.rows.Keys && forall u | u in s.rows :: s'.rows[u].roleName == s.rows[u].roleName
    requires forall n | n in s'.roles && n != name :: n in s.roles && s'.roles[n] == s.roles[n]
    requires name in s'.roles && s'.roles[name].person && s'.roles[name].login ==>
      Recorded(s.rows, name) || (name in s.roles && s.roles[name].person && s.roles[name].login)
    ensures NoOrphanLogin(s')
  {
    forall n | n in s'.roles && s'.roles[n].person && s'.roles[n].login ensures Recorded(s'.rows, n) {
      assert Recorded(s.rows, n);
      var u :| u in s.rows && s.rows[u].roleName == n;
      assert s'.rows[u].roleName == n;
    }
  }

  /** No step leaves a usable role without its row, except exactly the two that abandon one. */
  lemma OrphanIff(s: State, e: Event)
    requires Inv(s) && NoOrphanLogin(s)
    ensures NoOrphanLogin(Step(s, e).0) <==> !Abandons(s, e)
  {
    if Abandons(s, e) { AbandonedIsOrphan(s, e); } else { NotAbandoned(s, e); }
  }

  /** An event happened only where `allowed` held of the state before it, all along a run. */
  ghost predicate Along(roles: Catalog, events: seq<Event>, allowed: (State, Event) -> bool) {
    forall k | 0 <= k < |events| :: allowed(Run(roles, events[..k]).0, events[k])
  }

  lemma AlongPrefix(roles: Catalog, events: seq<Event>, allowed: (State, Event) -> bool)
    requires events != [] && Along(roles, events, allowed)
    ensures Along(roles, events[..|events| - 1], allowed)
    ensures allowed(Run(roles, events[..|events| - 1]).0, events[|events| - 1])
  {
    var before := events[..|events| - 1];
    forall k | 0 <= k < |before| ensures allowed(Run(roles, before[..k]).0, before[k]) {
      assert before[..k] == events[..k] && before[k] == events[k];
    }
  }

  /** Over every run that abandons no role, each personal account that can log in is some
      row's, if that was so in the catalog the run started from. */
  lemma {:induction false} RunRecordsLogins(roles: Catalog, events: seq<Event>)
    requires NoOrphanLogin(State(map[], roles)) && Along(roles, events, (s, e) => !Abandons(s, e))
    ensures NoOrphanLogin(Run(roles, events).0)
  {
    if events != [] {
      var n := |events| - 1;
      AlongPrefix(roles, events, (s, e) => !Abandons(s, e));
      RunRecordsLogins(roles, events[..n]);
      EveryRunKeepsInv(roles, events[..n]);
      NotAbandoned(Run(roles, events[..n]).0, events[n]);
    }
  }

  /** What the administration offers: enrolling only someone who has no row. */
  predicate Offered(s: State, e: Event) {
    e.Enroll? ==> e.user !in s.rows
  }

  predicate DeletesDespiteFailure(e: Event) {
    e.DeleteUser? && e.fault
  }

  /** As the program is used, only a database failing under a deletion leaves a role that can
      log in without its row. */
  lemma ProgramRecordsLogins(roles: Catalog, events: seq<Event>)
    requires NoOrphanLogin(State(map[], roles))
    requires Along(roles, events, (s, e) => Offered(s, e) && !DeletesDespiteFailure(e))
    ensures NoOrphanLogin(Run(roles, events).0)
  {
    var used := (s: State, e: Event) => Offered(s, e) && !DeletesDespiteFailure(e);
    var safe := (s: State, e: Event) => !Abandons(s, e);
    forall k | 0 <= k < |events| ensures safe(Run(roles, events[..k]).0, events[k]) {
      assert used(Run(roles, events[..k]).0, events[k]);
    }
    RunRecordsLogins(roles, events);
  }

  lemma RunOfTwo(roles: Catalog, e1: Event, e2: Event)
    ensures Run(roles, [e1, e2]).0 == Step(Step(State(map[], roles), e1).0, e2).0
  {
    assert [e1, e2][..1] == [e1] && [e1][..0] == [];
    assert Run(roles, [e1]).0 == Step(State(map[], roles), e1).0;
  }

  lemma RunOfFour(roles: Catalog, e1: Event, e2: Event, e3: Event, e4: Event)
    ensures Run(roles, [e1, e2, e3, e4]).0 == Step(Step(Run(roles, [e1, e2]).0, e3).0, e4).0
  {
    assert [e1, e2, e3, e4][..3] == [e1, e2, e3] && [e1, e2, e3][..2] == [e1, e2];
    assert Run(roles, [e1, e2, e3]).0 == Step(Run(roles, [e1, e2]).0, e3).0;
  }

  /** Such a deletion, by example: the account of a deleted user can still log in. */
  lemma DeletionAbandonsRole()
    ensures var s := Run(map[], [Enroll(0, "gf_ann", Some(Viewer), false), DeleteUser(0, true)]).0;
      !NoOrphanLogin(s) && s.rows == map[] && "gf_ann" in s.roles && s.roles["gf_ann"].login
  {
    RunOfTwo(map[], Enroll(0, "gf_ann", Some(Viewer), false), DeleteUser(0, true));
    assert ValidIdentifier("gf_ann");
    var s := Run(map[], [Enroll(0, "gf_ann", Some(Viewer), false), DeleteUser(0, true)]).0;
    assert s.rows == map[];
    assert "gf_ann" in s.roles && s.roles["gf_ann"].person && s.roles["gf_ann"].login && !Recorded(s.rows, "gf_ann");
  }

  // ----- an absent password means not claimed -----

  ghost predicate ClaimedBy(rows: map<UserId, Account>, name: string) {
    exists u :: u in rows && rows[u].roleName == name && !rows[u].awaiting
  }

  /** Every password of a personal account was claimed by the user of its row. */
  ghost predicate PasswordsClaimed(s: State) {
    forall name | name in s.roles && s.roles[name].person && s.roles[name].password.Some? :: ClaimedBy(s.rows, name)
  }

  predicate HasPassword(s: State, user: UserId) {
    user in s.rows && s.rows[user].roleName in s.roles && s.roles[s.rows[user].roleName].password.Some?
  }

  /** The two steps that leave a password nobody claims: enrolling a user whose role has one
      already, and deleting the Django account of such a user. */
  predicate Forgets(s: State, e: Event) {
    match e
    case Enroll(user, name, earned, fault) => Enrolls(s, user, name, earned, fault) && HasPassword(s, user)
    case DeleteUser(user, _) => HasPassword(s, user)
    case _ => false
  }

  /** An account still awaiting its credential has no password. */
  lemma AwaitingHasNone(s: State, user: UserId)
    requires Inv(s) && PasswordsClaimed(s) && user in s.rows && s.rows[user].awaiting
    ensures !HasPassword(s, user)
  {
    assert Agrees(s.rows[user], s.roles);
  }

  lemma ForgottenIsUnclaimed(s: State, e: Event)
    requires Inv(s) && Forgets(s, e)
    ensures !PasswordsClaimed(Step(s, e).0)
  {
    var name, s' := s.rows[e.user].roleName, Step(s, e).0;
    assert Agrees(s.rows[e.user], s.roles);
    assert name in s'.roles && s'.roles[name].person && s'.roles[name].password.Some?;
    forall u | u in s'.rows ensures s'.rows[u].roleName != name || s'.rows[u].awaiting {
      if u != e.user { assert u in s.rows && s'.rows[u].roleName == s.rows[u].roleName; }
    }
  }

  /** Steps on the row of one user and the role of one name. */
  lemma OwnRoleClaims(s: State, s': State, user: UserId, name: string)
    requires PasswordsClaimed(s)
    requires forall n | n in s'.roles && n != name :: n in s.roles && s'.roles[n] == s.roles[n]
    requires forall u | u in s.rows && u != user ::
      u in s'.rows && s'.rows[u].roleName == s.rows[u].roleName && s'.rows[u].awaiting == s.rows[u].awaiting
    requires user in s.rows ==> s.rows[user].roleName == name || !HasPassword(s, user)
    requires name in s'.roles && s'.roles[name].person && s'.roles[name].password.Some? ==> ClaimedBy(s'.rows, name)
    ensures PasswordsClaimed(s')
  {
    forall n | n in s'.roles && s'.roles[n].person && s'.roles[n].password.Some? ensures ClaimedBy(s'.rows, n) {
      if n != name {
        var u :| u in s.rows && s.rows[u].roleName == n && !s.rows[u].awaiting;
        assert u != user;
        assert u in s'.rows;
      }
    }
  }

  /** Steps that set no password and change neither names nor waiting. */
  lemma SamePasswordsClaimed(s: State, s': State)
    requires PasswordsClaimed(s)
    requires forall n | n in s'.roles && s'.roles[n].person && s'.roles[n].password.Some? ::
      n in s.roles && s.roles[n].person && s.roles[n].password.Some?
    requires forall u | u in s.rows ::
      u in s'.rows && s'.rows[u].roleName == s.rows[u].roleName && s'.rows[u].awaiting == s.rows[u].awaiting
    ensures PasswordsClaimed(s')
  {
    forall n | n in s'.roles && s'.roles[n].person && s'.roles[n].password.Some? ensures ClaimedBy(s'.rows, n) {
      var u :| u in s.rows && s.rows[u].roleName == n && !s.rows[u].awaiting;
      assert u in s'.rows;
    }
  }

  lemma EnrollForgetsNothing(s: State, user: UserId, name: string, earned: Option<Rank>, fault: bool)
    requires Inv(s) && PasswordsClaimed(s) && !Forgets(s, Enroll(user, name, earned, fault))
    ensures PasswordsClaimed(EnrollStep(s, user, name, earned, fault).0)
  {
    var s' := EnrollStep(s, user, name, earned, fault).0;
    if s' != s {
      OwnRoleClaims(s, s', user, name);
    }
  }

  lemma IssueClaims(s: State, user: UserId, issuesSecret: bool, secret: string, fault: bool)
    requires Inv(s) && PasswordsClaimed(s)
    ensures PasswordsClaimed(IssueStep(s, user, issuesSecret, secret, fault).0)
  {
    var s' := IssueStep(s, user, issuesSecret, secret, fault).0;
    if s' != s {
      assert user in s'.rows && s'.rows[user].roleName == s.rows[user].roleName && !s'.rows[user].awaiting;
      assert ClaimedBy(s'.rows, s.rows[user].roleName);
      OwnRoleClaims(s, s', user, s.rows[user].roleName);
    }
  }

  lemma ResetClaims(s: State, user: UserId, fault: bool)
    requires Inv(s) && PasswordsClaimed(s)
    ensures PasswordsClaimed(ResetStep(s, user, fault).0)
  {
    var s' := ResetStep(s, user, fault).0;
    if s' != s { OwnRoleClaims(s, s', user, s.rows[user].roleName); }
  }

  lemma DisableForgetsNothing(s: State, name: string, fault: bool)
    requires PasswordsClaimed(s)
    ensures PasswordsClaimed(DisableStep(s, name, fault).0)
  {
    SamePasswordsClaimed(s, DisableStep(s, name, fault).0);
  }

  lemma SyncForgetsNothing(s: State, user: UserId, active: bool, earned: Option<Rank>, fault: bool)
    requires Inv(s) && PasswordsClaimed(s)
    ensures PasswordsClaimed(SyncStep(s, user, active, earned, fault).0)
  {
    hide ValidIdentifier;
    if user in s.rows {
      assert Agrees(s.rows[user], s.roles);
      SamePasswordsClaimed(s, SyncStep(s, user, active, earned, fault).0);
    }
  }

  lemma RemoveForgetsNothing(s: State, user: UserId, fault: bool)
    requires Inv(s) && PasswordsClaimed(s)
    ensures PasswordsClaimed(RemoveStep(s, user, fault).0)
  {
    var s' := RemoveStep(s, user, fault).0;
    if s' != s { OwnRoleClaims(s, s', user, s.rows[user].roleName); }
  }

  lemma DeletionForgetsNothing(s: State, user: UserId, fault: bool)
    requires Inv(s) && PasswordsClaimed(s) && !HasPassword(s, user) && user in s.rows
    ensures PasswordsClaimed(DeleteUserStep(s, user, fault).0)
  {
    assert Agrees(s.rows[user], s.roles);
    OwnRoleClaims(s, DeleteUserStep(s, user, fault).0, user, s.rows[user].roleName);
  }

  lemma OtherRoleForgetsNothing(s: State, name: string, role: Option<DbRole>)
    requires PasswordsClaimed(s)
    ensures PasswordsClaimed(OtherRoleStep(s, name, role).0)
  {
    SamePasswordsClaimed(s, OtherRoleStep(s, name, role).0);
  }

  lemma NotForgotten(s: State, e: Event)
    requires Inv(s) && PasswordsClaimed(s) && !Forgets(s, e)
    ensures PasswordsClaimed(Step(s, e).0)
  {
    hide Inv, PasswordsClaimed, CreateDbUser, DeleteDbUser, ClearDbUserPassword, DropDbUser;
    match e
    case Enroll(user, name, earned, fault) => EnrollForgetsNothing(s, user, name, earned, fault);
    case IssueCredential(user, issuesSecret, secret, fault) => IssueClaims(s, user, issuesSecret, secret, fault);
    case Reset(user, fault) => ResetClaims(s, user, fault);
    case Disable(name, fault) => DisableForgetsNothing(s, name, fault);
    case Sync(user, active, earned, fault) => SyncForgetsNothing(s, user, active, earned, fault);
    case Remove(user, fault) => RemoveForgetsNothing(s, user, fault);
    case DeleteUser(user, fault) => if user in s.rows { DeletionForgetsNothing(s, user, fault); }
    case OtherRole(name, role) => OtherRoleForgetsNothing(s, name, role);
  }

  /** No step leaves a password unclaimed, except exactly the two that forget one. */
  lemma UnclaimedIff(s: State, e: Event)
    requires Inv(s) && PasswordsClaimed(s)
    ensures PasswordsClaimed(Step(s, e).0) <==> !Forgets(s, e)
  {
    if Forgets(s, e) { ForgottenIsUnclaimed(s, e); } else { NotForgotten(s, e); }
  }

  lemma {:induction false} RunClaimsPasswords(roles: Catalog, events: seq<Event>)
    requires PasswordsClaimed(State(map[], roles)) && Along(roles, events, (s, e) => !Forgets(s, e))
    ensures PasswordsClaimed(Run(roles, events).0)
  {
    if events != [] {
      var n := |events| - 1;
      AlongPrefix(roles, events, (s, e) => !Forgets(s, e));
      RunClaimsPasswords(roles, events[..n]);
      EveryRunKeepsInv(roles, events[..n]);
      NotForgotten(Run(roles, events[..n]).0, events[n]);
    }
  }

  predicate DeletesClaimed(s: State, e: Event) {
    e.DeleteUser? && HasPassword(s, e.user)
  }

  /** As the program is used, an account that awaits its credential has no password, unless
      the Django account of a user with a password was deleted before. */
  lemma ProgramAwaitsWithoutPassword(roles: Catalog, events: seq<Event>, user: UserId)
    requires PasswordsClaimed(State(map[], roles))
    requires Along(roles, events, (s, e) => Offered(s, e) && !DeletesClaimed(s, e))
    requires user in Run(roles, events).0.rows && Run(roles, events).0.rows[user].awaiting
    ensures !HasPassword(Run(roles, events).0, user)
  {
    var used := (s: State, e: Event) => Offered(s, e) && !DeletesClaimed(s, e);
    var safe := (s: State, e: Event) => !Forgets(s, e);
    forall k | 0 <= k < |events| ensures safe(Run(roles, events[..k]).0, events[k]) {
      assert used(Run(roles, events[..k]).0, events[k]);
    }
    RunClaimsPasswords(roles, events);
    EveryRunKeepsInv(roles, events);
    AwaitingHasNone(Run(roles, events).0, user);
  }

  lemma ClaimedByFirst(secret: string)
    requires |secret| >= 12
    ensures Run(map[], [Enroll(0, "gf_ann", Some(Viewer), false), IssueCredential(0, true, secret, false)]).0
         == State(map[0 := Account("gf_ann", Viewer, true, false)],
                  map["gf_ann" := DbRole(true, {Viewer}, true, false, Some(secret))])
  {
    assert ValidIdentifier("gf_ann");
    RunOfTwo(map[], Enroll(0, "gf_ann", Some(Viewer), false), IssueCredential(0, true, secret, false));
  }

  lemma FirstIsDeleted(secret: string)
    ensures DeleteUserStep(State(map[0 := Account("gf_ann", Viewer, true, false)],
                                 map["gf_ann" := DbRole(true, {Viewer}, true, false, Some(secret))]), 0, false).0
         == State(map[], map["gf_ann" := DbRole(false, {}, true, false, Some(secret))])
  {
    assert ValidIdentifier("gf_ann");
  }

  /** Such a deletion, by example: a second account enrolled under the role name of a deleted
      one awaits its credential, while the role logs in with the first one's password. */
  lemma SuccessorInheritsPassword(secret: string)
    requires |secret| >= 12
    ensures var events := [Enroll(0, "gf_ann", Some(Viewer), false), IssueCredential(0, true, secret, false),
                           DeleteUser(0, false), Enroll(1, "gf_ann", Some(Viewer), false)];
      var s := Run(map[], events).0;
      && 0 !in s.rows && 1 in s.rows && s.rows[1].awaiting && s.rows[1].roleName == "gf_ann"
      && "gf_ann" in s.roles && s.roles["gf_ann"].login && s.roles["gf_ann"].password == Some(secret)
  {
    hide Run, DeleteUserStep, IssueStep;
    ClaimedByFirst(secret);
    FirstIsDeleted(secret);
    assert ValidIdentifier("gf_ann");
    RunOfFour(map[], Enroll(0, "gf_ann", Some(Viewer), false), IssueCredential(0, true, secret, false),
              DeleteUser(0, false), Enroll(1, "gf_ann", Some(Viewer), false));
  }
}

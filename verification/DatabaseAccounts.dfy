/** The operations on database accounts as crudman runs them: a call to a database function
    and a write of the row inside one transaction. Every operation performs exactly the
    step of its name. */
module DatabaseAccounts {
  import opened Prelude
  import opened Roles
  import A = AccountSteps

  class Accounts {
    var rows: map<A.UserId, A.Account>
    var roles: A.Catalog

    ghost function View(): A.State
      reads this
    {
      A.State(rows, roles)
    }

    /** Every row agrees with its role, and no two rows share one. */
    ghost predicate Valid()
      reads this
    {
      A.Inv(View())
    }

    constructor (roles: A.Catalog)
      ensures rows == map[] && this.roles == roles && Valid()
    {
      rows, this.roles := map[], roles;
    }

    /** `fault` is an exception raised before the commit; it rolls both tables back. */
    method Enroll(user: User, roleName: string, fault: bool) returns (outcome: A.Outcome)
      requires Valid()
      modifies this
      ensures Valid()
      ensures (View(), outcome)
           == A.EnrollStep(old(View()), user.id, roleName, EarnedRank(user.groups, user.isSuperuser), fault)
    {
      A.EnrollKeepsInv(View(), user.id, roleName, EarnedRank(user.groups, user.isSuperuser), fault);
      var earned := EarnedRank(user.groups, user.isSuperuser);
      if earned.None? { return A.NoRank; }
      var savedRows, savedRoles := rows, roles;
      var created := A.CreateDbUser(roles, roleName, None, earned.value);
      match created {
        case Err(error) => return A.Refused(error);
        case Ok(catalog) => roles := catalog;
      }
      if A.NameHeldByOther(rows, user.id, roleName) {
        rows, roles := savedRows, savedRoles;
        return A.NameTaken;
      }
      rows := rows[user.id := A.Account(roleName, earned.value, true, true)];
      outcome := A.Done;
      if fault {
        rows, roles := savedRows, savedRoles;
        outcome := A.Failed;
      }
    }

    method IssueCredential(user: A.UserId, issuesSecret: bool, secret: string, fault: bool) returns (outcome: A.Outcome)
      requires Valid()
      modifies this
      ensures Valid()
      ensures (View(), outcome) == A.IssueStep(old(View()), user, issuesSecret, secret, fault)
    {
      A.IssueKeepsInv(View(), user, issuesSecret, secret, fault);
      if user !in rows || !rows[user].awaiting { return A.Nothing; }
      var record := rows[user];
      var savedRows, savedRoles := rows, roles;
      if issuesSecret {
        var created := A.CreateDbUser(roles, record.roleName, Some(secret), record.rank);
        match created {
          case Err(error) => return A.Refused(error);
          case Ok(catalog) => roles := catalog;
        }
        rows := rows[user := record.(awaiting := false, enabled := true)];
        outcome := A.Issued(secret);
      } else {
        rows := rows[user := record.(awaiting := false)];
        outcome := A.Nothing;
      }
      if fault {
        rows, roles := savedRows, savedRoles;
        outcome := A.Failed;
      }
    }

    method Reset(user: A.UserId, fault: bool) returns (outcome: A.Outcome)
      requires Valid()
      modifies this
      ensures Valid()
      ensures (View(), outcome) == A.ResetStep(old(View()), user, fault)
    {
      A.StepKeepsInv(View(), A.Reset(user, fault));
      if user !in rows { return A.NoAccount; }
      var savedRows, savedRoles := rows, roles;
      var cleared := A.ClearDbUserPassword(roles, rows[user].roleName);
      match cleared {
        case Err(error) => return A.Refused(error);
        case Ok(catalog) => roles := catalog;
      }
      rows := rows[user := rows[user].(awaiting := true)];
      outcome := A.Done;
      if fault {
        rows, roles := savedRows, savedRoles;
        outcome := A.Failed;
      }
    }

    method Disable(roleName: string, fault: bool) returns (outcome: A.Outcome)
      requires Valid()
      modifies this
      ensures Valid()
      ensures (View(), outcome) == A.DisableStep(old(View()), roleName, fault)
    {
      A.DisableKeepsInv(View(), roleName, fault);
      var savedRows, savedRoles := rows, roles;
      var disabled := A.DeleteDbUser(roles, roleName);
      match disabled {
        case Err(error) => return A.Refused(error);
        case Ok(catalog) => roles := catalog;
      }
      rows := map u | u in rows :: if rows[u].roleName == roleName then rows[u].(enabled := false) else rows[u];
      outcome := A.Done;
      if fault {
        rows, roles := savedRows, savedRoles;
        outcome := A.Failed;
      }
    }

    /** Brings a person's role in line with the rank they now hold. */
    method Sync(user: User, fault: bool) returns (outcome: A.Outcome)
      requires Valid()
      modifies this
      ensures Valid()
      ensures (View(), outcome)
           == A.SyncStep(old(View()), user.id, user.isActive, EarnedRank(user.groups, user.isSuperuser), fault)
    {
      A.SyncKeepsInv(View(), user.id, user.isActive, EarnedRank(user.groups, user.isSuperuser), fault);
      if user.id !in rows { return A.Nothing; }
      var record := rows[user.id];
      var rank := if user.isActive then EarnedRank(user.groups, user.isSuperuser) else None;
      if rank.None? {
        outcome := A.Nothing;
        if record.enabled { outcome := Disable(record.roleName, fault); }
        return;
      }
      if rank.value == record.rank && record.enabled { return A.Nothing; }
      var savedRows, savedRoles := rows, roles;
      var created := A.CreateDbUser(roles, record.roleName, None, rank.value);
      match created {
        case Err(error) => return A.Refused(error);
        case Ok(catalog) => roles := catalog;
      }
      rows := rows[user.id := record.(rank := rank.value, enabled := true)];
      outcome := A.Done;
      if fault {
        rows, roles := savedRows, savedRoles;
        outcome := A.Failed;
      }
    }

    method Remove(user: A.UserId, fault: bool) returns (outcome: A.Outcome)
      requires Valid()
      modifies this
      ensures Valid()
      ensures (View(), outcome) == A.RemoveStep(old(View()), user, fault)
    {
      A.RemoveKeepsInv(View(), user, fault);
      if user !in rows { return A.NoAccount; }
      var savedRows, savedRoles := rows, roles;
      var dropped := A.DropDbUser(roles, rows[user].roleName);
      match dropped {
        case Err(error) => return A.Refused(error);
        case Ok(catalog) => roles := catalog;
      }
      rows := rows - {user};
      outcome := A.Done;
      if fault {
        rows, roles := savedRows, savedRoles;
        outcome := A.Failed;
      }
    }

    /** The provider's roles applied to a user, then the sync of the sign-in that follows:
        an existing account ends up enabled exactly when a known role was claimed, with the
        highest one as its rank, and everyone else's account is untouched. */
    method ApplyAndSync(user: User, claimed: seq<string>, existing: set<string>)
      returns (granted: Option<Rank>, outcome: A.Outcome)
      requires Valid() && user.id in rows && ManagedGroups() <= existing
      modifies this, user
      ensures Valid() && IsHighest(claimed, granted)
      ensures user.id in rows
      ensures rows[user.id].enabled <==> exists r :: Claims(claimed, r)
      ensures rows[user.id].enabled ==> granted == Some(rows[user.id].rank)
      ensures user.groups - ManagedGroups() == old(user.groups) - ManagedGroups()
      ensures forall u | u in old(rows) && u != user.id :: u in rows && rows[u] == old(rows)[u]
      ensures outcome in {A.Done, A.Nothing}
    {
      ghost var before := View();
      var applied := ApplyRoles(user, claimed, existing);
      if applied.Err? {
        assert false;
      }
      granted := applied.value;
      GrantedIsEarned(user.groups, granted);
      outcome := Sync(user, false);
      A.SyncReconciles(before, user.id, user.isActive, EarnedRank(user.groups, user.isSuperuser));
      forall u | u in before.rows && u != user.id ensures u in rows && rows[u] == before.rows[u] {
        A.SyncTouchesOne(before, user.id, user.isActive, EarnedRank(user.groups, user.isSuperuser), u);
      }
    }
  }

  /** Applying the same claims and syncing again changes nothing, neither the user's groups
      nor the accounts: the second grant is the first. */
  lemma ReconcilingAgainChangesNothing(s: A.State, user: A.UserId, groups: set<string>, claimed: seq<string>,
                                       granted: Option<Rank>, again: Option<Rank>)
    requires A.Inv(s) && user in s.rows && IsHighest(claimed, granted) && IsHighest(claimed, again)
    requires groups * ManagedGroups() == GrantedGroups(granted)
    ensures (groups - ManagedGroups()) + GrantedGroups(again) == groups
    ensures EarnedRank(groups, granted == Some(Admin)) == granted
    ensures var once := A.SyncStep(s, user, granted.Some?, granted, false).0;
      A.SyncStep(once, user, again.Some?, again, false).0 == once
  {
    HighestUnique(claimed, granted, again);
    GrantedIsEarned(groups, granted);
    A.SyncReconciles(s, user, granted.Some?, granted);
    assert groups == (groups - ManagedGroups()) + groups * ManagedGroups();
  }
}

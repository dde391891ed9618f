/** Accounts, identities and roles (auth/accounts.go): the validating loops against a declarative
    invariant, and effective capabilities. */
module Accounts {
  import opened Wrappers
  import opened Sequences
  import opened Sorting
  import Text

  datatype Identity = Identity(
    id: string, kind: string, username: string, email: string, providerSubject: string,
    passwordHash: string, totpEnabled: bool, recoveryCodes: seq<string>, enabled: bool)

  datatype Account = Account(
    id: string, displayName: string, enabled: bool, roles: seq<string>, identities: seq<Identity>, createdAt: int)

  datatype AccountsFile = AccountsFile(version: int, accounts: seq<Account>)

  datatype Role = Role(id: string, name: string, capabilities: seq<string>, builtIn: bool)

  datatype RolesFile = RolesFile(version: int, roles: seq<Role>)

  /** lower stands for strings.ToLower. */
  datatype Policy = Policy(schemaVersion: int, knownCapability: Option<string -> bool>, lower: string -> string)

  const ADMINISTRATOR := "administrator"

  datatype Invalid =
    | BadVersion | BadRoleId | WeakAdministrator | UnknownCapability | NoAdministratorRole
    | BadAccountId | NoDisplayName | UnknownRole | BadIdentityId | IncompleteIdentity
    | DuplicateUsername | DuplicateEmail | DuplicateSubject | UnknownIdentityType | NoPasswordAdministrator

  // ----- The invariant --------------------------------------------------------------------------

  function Canonical(policy: Policy, name: string): string { policy.lower(Text.TrimSpace(name)) }

  predicate RoleOk(r: Role, policy: Policy) {
    && r.id != ""
    && (r.id == ADMINISTRATOR ==> r.capabilities == ["*"])
    && (policy.knownCapability.Some? ==>
          forall c :: c in r.capabilities && c != "*" ==> policy.knownCapability.value(c))
  }

  function RoleIds(roles: seq<Role>): set<string> { set r | r in roles :: r.id }

  ghost predicate RolesOk(roles: seq<Role>, policy: Policy) {
    && (forall r :: r in roles ==> RoleOk(r, policy))
    && (forall i, j :: 0 <= i < j < |roles| ==> roles[i].id != roles[j].id)
    && ADMINISTRATOR in RoleIds(roles)
  }

  predicate Complete(x: Identity, policy: Policy) {
    && x.id != ""
    && match x.kind
       case "password" => Canonical(policy, x.username) != "" && x.passwordHash != ""
       case "email" => !Text.Blank(x.email)
       case "google" => x.providerSubject != ""
       case _ => false
  }

  /** Two identities that one document may not hold together. */
  predicate Clash(x: Identity, y: Identity, policy: Policy) {
    || x.id == y.id
    || (x.kind == y.kind == "password" && Canonical(policy, x.username) == Canonical(policy, y.username))
    || (x.kind == y.kind == "password" && Canonical(policy, x.email) != ""
        && Canonical(policy, x.email) == Canonical(policy, y.email))
    || (x.kind == y.kind == "google" && x.providerSubject == y.providerSubject)
  }

  ghost predicate IdentitiesOk(xs: seq<Identity>, policy: Policy) {
    && (forall i :: 0 <= i < |xs| ==> Complete(xs[i], policy))
    && (forall i, j :: 0 <= i < j < |xs| ==> !Clash(xs[i], xs[j], policy))
  }

  /** All identities of all accounts, in order. */
  function AllIdentities(accounts: seq<Account>): seq<Identity> {
    if accounts == [] then []
    else AllIdentities(accounts[..|accounts| - 1]) + accounts[|accounts| - 1].identities
  }

  predicate AccountOk(a: Account, roleIds: set<string>) {
    && a.id != ""
    && !Text.Blank(a.displayName)
    && forall id :: id in a.roles ==> id in roleIds
  }

  /** An enabled administrator who can log in with a password. */
  predicate PasswordAdministrator(a: Account) {
    && a.enabled && ADMINISTRATOR in a.roles && EnabledPassword(a.identities)
  }

  predicate EnabledPassword(xs: seq<Identity>) {
    exists x :: x in xs && x.kind == "password" && x.enabled
  }

  ghost predicate AccountsOk(accounts: seq<Account>, roleIds: set<string>, policy: Policy) {
    && (forall i :: 0 <= i < |accounts| ==> AccountOk(accounts[i], roleIds))
    && (forall i, j :: 0 <= i < j < |accounts| ==> accounts[i].id != accounts[j].id)
    && IdentitiesOk(AllIdentities(accounts), policy)
  }

  ghost predicate HasAdministrator(accounts: seq<Account>) {
    exists i :: 0 <= i < |accounts| && PasswordAdministrator(accounts[i])
  }

  ghost predicate ValidDocument(users: AccountsFile, roles: RolesFile, policy: Policy) {
    && users.version == policy.schemaVersion == roles.version
    && RolesOk(roles.roles, policy)
    && AccountsOk(users.accounts, RoleIds(roles.roles), policy)
    && (users.accounts != [] ==> HasAdministrator(users.accounts))
  }

  // ----- The loops ------------------------------------------------------------------------------

  /** ValidateAccounts accepts exactly the valid documents. */
  method ValidateAccounts(users: AccountsFile, roles: RolesFile, policy: Policy) returns (error: Option<Invalid>)
    ensures error.None? <==> ValidDocument(users, roles, policy)
  {
    if users.version != policy.schemaVersion || roles.version != policy.schemaVersion { return Some(BadVersion); }
    var roleIds;
    error, roleIds := ValidateRoles(roles.roles, policy);
    if error.Some? { return; }
    var admins;
    error, admins := ValidateUsers(users.accounts, roleIds, policy);
    if error.Some? { return; }
    if |users.accounts| > 0 && admins == 0 { return Some(NoPasswordAdministrator); }
    return None;
  }

  method ValidateRoles(roles: seq<Role>, policy: Policy) returns (error: Option<Invalid>, roleIds: set<string>)
    ensures error.None? <==> RolesOk(roles, policy)
    ensures error.None? ==> roleIds == RoleIds(roles)
  {
    roleIds := {};
    for i := 0 to |roles|
      invariant roleIds == RoleIds(roles[..i])
      invariant forall k :: 0 <= k < i ==> RoleOk(roles[k], policy)
      invariant forall k, l :: 0 <= k < l < i ==> roles[k].id != roles[l].id
    {
      var r := roles[i];
      assert r in roles;
      if r.id == "" { return Some(BadRoleId), roleIds; }
      if r.id in roleIds {
        var k :| 0 <= k < i && roles[k].id == r.id;
        return Some(BadRoleId), roleIds;
      }
      TakeSnoc(roles, i);
      roleIds := roleIds + {r.id};
      if r.id == ADMINISTRATOR && (|r.capabilities| != 1 || r.capabilities[0] != "*") {
        assert r.capabilities != ["*"];
        return Some(WeakAdministrator), roleIds;
      }
      for k := 0 to |r.capabilities|
        invariant policy.knownCapability.Some? ==>
          forall c :: c in r.capabilities[..k] && c != "*" ==> policy.knownCapability.value(c)
      {
        var c := r.capabilities[k];
        if c != "*" && policy.knownCapability.Some? && !policy.knownCapability.value(c) {
          return Some(UnknownCapability), roleIds;
        }
        TakeSnoc(r.capabilities, k);
      }
      assert r.capabilities[..|r.capabilities|] == r.capabilities;
    }
    assert roles[..|roles|] == roles;
    if ADMINISTRATOR !in roleIds { return Some(NoAdministratorRole), roleIds; }
    return None, roleIds;
  }

  /** What the loops have seen so far of the identities. */
  datatype Seen = Seen(ids: set<string>, usernames: set<string>, emails: set<string>, subjects: set<string>)

  ghost predicate SeenOf(seen: Seen, xs: seq<Identity>, policy: Policy) {
    && seen.ids == (set x | x in xs :: x.id)
    && seen.usernames == (set x | x in xs && x.kind == "password" :: Canonical(policy, x.username))
    && seen.emails == (set x | x in xs && x.kind == "password" && Canonical(policy, x.email) != "" :: Canonical(policy, x.email))
    && seen.subjects == (set x | x in xs && x.kind == "google" :: x.providerSubject)
  }

  /** The body of the identity loop. */
  method AdmitIdentity(before: Seen, ghost xs: seq<Identity>, x: Identity, policy: Policy)
    returns (error: Option<Invalid>, seen: Seen)
    requires SeenOf(before, xs, policy)
    ensures error.None? <==> Admissible(before, x, policy)
    ensures error.None? ==> SeenOf(seen, xs + [x], policy)
  {
    seen := before;
    if x.id == "" || x.id in seen.ids { return Some(BadIdentityId), seen; }
    seen := seen.(ids := seen.ids + {x.id});
    if x.kind == "password" {
      var username := Canonical(policy, x.username);
      if username == "" || x.passwordHash == "" { return Some(IncompleteIdentity), seen; }
      if username in seen.usernames { return Some(DuplicateUsername), seen; }
      seen := seen.(usernames := seen.usernames + {username});
      var email := Canonical(policy, x.email);
      if email != "" {
        if email in seen.emails { return Some(DuplicateEmail), seen; }
        seen := seen.(emails := seen.emails + {email});
      }
    } else if x.kind == "email" {
      if Text.Blank(x.email) { return Some(IncompleteIdentity), seen; }
    } else if x.kind == "google" {
      if x.providerSubject == "" { return Some(IncompleteIdentity), seen; }
      if x.providerSubject in seen.subjects { return Some(DuplicateSubject), seen; }
      seen := seen.(subjects := seen.subjects + {x.providerSubject});
    } else {
      return Some(UnknownIdentityType), seen;
    }
    SeenSnoc(before, xs, x, policy);
    return None, seen;
  }

  predicate Admissible(seen: Seen, x: Identity, policy: Policy) {
    && Complete(x, policy)
    && x.id !in seen.ids
    && (x.kind == "password" ==>
          && Canonical(policy, x.username) !in seen.usernames
          && (Canonical(policy, x.email) != "" ==> Canonical(policy, x.email) !in seen.emails))
    && (x.kind == "google" ==> x.providerSubject !in seen.subjects)
  }

  lemma SeenSnoc(seen: Seen, xs: seq<Identity>, x: Identity, policy: Policy)
    requires SeenOf(seen, xs, policy)
    ensures SeenOf(Seen(
      seen.ids + {x.id},
      if x.kind == "password" then seen.usernames + {Canonical(policy, x.username)} else seen.usernames,
      if x.kind == "password" && Canonical(policy, x.email) != "" then seen.emails + {Canonical(policy, x.email)} else seen.emails,
      if x.kind == "google" then seen.subjects + {x.providerSubject} else seen.subjects), xs + [x], policy)
  {
  }

  lemma IdentitiesSnoc(seen: Seen, xs: seq<Identity>, x: Identity, policy: Policy)
    requires SeenOf(seen, xs, policy)
    ensures IdentitiesOk(xs + [x], policy) <==> IdentitiesOk(xs, policy) && Admissible(seen, x, policy)
  {
    var all := xs + [x];
    if IdentitiesOk(all, policy) {
      forall i | 0 <= i < |xs| ensures Complete(xs[i], policy) && !Clash(xs[i], x, policy) {
        assert all[i] == xs[i] && all[|xs|] == x;
      }
      forall i, j | 0 <= i < j < |xs| ensures !Clash(xs[i], xs[j], policy) { assert all[i] == xs[i] && all[j] == xs[j]; }
      assert all[|xs|] == x;
    }
    if IdentitiesOk(xs, policy) && Admissible(seen, x, policy) {
      forall i | 0 <= i < |xs| ensures !Clash(xs[i], x, policy) { assert xs[i] in xs; }
    }
  }

  lemma IdentitiesPrefix(xs: seq<Identity>, more: seq<Identity>, policy: Policy)
    requires IdentitiesOk(xs + more, policy)
    ensures IdentitiesOk(xs, policy)
  {
    forall i | 0 <= i < |xs| ensures Complete(xs[i], policy) { assert (xs + more)[i] == xs[i]; }
    forall i, j | 0 <= i < j < |xs| ensures !Clash(xs[i], xs[j], policy) {
      assert (xs + more)[i] == xs[i] && (xs + more)[j] == xs[j];
    }
  }

  lemma EnabledPasswordSnoc(xs: seq<Identity>, x: Identity)
    ensures EnabledPassword(xs + [x]) <==> EnabledPassword(xs) || (x.kind == "password" && x.enabled)
  {
    assert forall y :: y in xs + [x] <==> y in xs || y == x;
  }

  lemma IdentitiesTake(xs: seq<Identity>, ys: seq<Identity>, n: nat, policy: Policy)
    requires n <= |ys|
    ensures IdentitiesOk(xs + ys, policy) ==> IdentitiesOk(xs + ys[..n], policy)
  {
    assert xs + ys == (xs + ys[..n]) + ys[n..];
    if IdentitiesOk(xs + ys, policy) { IdentitiesPrefix(xs + ys[..n], ys[n..], policy); }
  }

  /** The inner loop: the identities of one account, after those in xs. */
  method AdmitAll(before: Seen, ghost xs: seq<Identity>, a: Account, policy: Policy)
    returns (error: Option<Invalid>, seen: Seen, hasEnabledPassword: bool)
    requires SeenOf(before, xs, policy) && IdentitiesOk(xs, policy)
    ensures error.None? <==> IdentitiesOk(xs + a.identities, policy)
    ensures error.None? ==> SeenOf(seen, xs + a.identities, policy)
    ensures error.None? ==>
      (hasEnabledPassword <==> a.enabled && EnabledPassword(a.identities))
  {
    seen, hasEnabledPassword := before, false;
    assert xs + a.identities[..0] == xs;
    for k := 0 to |a.identities|
      invariant SeenOf(seen, xs + a.identities[..k], policy) && IdentitiesOk(xs + a.identities[..k], policy)
      invariant hasEnabledPassword <==> a.enabled && EnabledPassword(a.identities[..k])
    {
      var x := a.identities[k];
      var here := xs + a.identities[..k];
      TakeSnoc(a.identities, k);
      assert here + [x] == xs + a.identities[..k + 1];
      IdentitiesSnoc(seen, here, x, policy);
      EnabledPasswordSnoc(a.identities[..k], x);
      if x.kind == "password" && a.enabled && x.enabled { hasEnabledPassword := true; }
      error, seen := AdmitIdentity(seen, here, x, policy);
      if error.Some? {
        IdentitiesTake(xs, a.identities, k + 1, policy);
        return;
      }
    }
    assert a.identities[..|a.identities|] == a.identities;
    return None, seen, hasEnabledPassword;
  }

  /** The account loop. */
  method ValidateUsers(accounts: seq<Account>, roleIds: set<string>, policy: Policy)
    returns (error: Option<Invalid>, admins: nat)
    ensures error.None? <==> AccountsOk(accounts, roleIds, policy)
    ensures error.None? ==> (admins > 0 <==> HasAdministrator(accounts))
  {
    admins := 0;
    var accountIds: set<string>, seen := {}, Seen({}, {}, {}, {});
    for i := 0 to |accounts|
      invariant accountIds == set a | a in accounts[..i] :: a.id
      invariant SeenOf(seen, AllIdentities(accounts[..i]), policy)
      invariant AccountsOk(accounts[..i], roleIds, policy)
      invariant admins > 0 <==> HasAdministrator(accounts[..i])
    {
      var a := accounts[i];
      ghost var here := accounts[..i];
      TakeSnoc(accounts, i);
      AccountsSnoc(here, a, roleIds, policy);
      AccountsLonger(accounts, i + 1, roleIds, policy);
      if a.id == "" || a.id in accountIds { return Some(BadAccountId), admins; }
      accountIds := accountIds + {a.id};
      if Text.Blank(a.displayName) { return Some(NoDisplayName), admins; }
      var known, isAdmin := CheckRoles(a.roles, roleIds);
      if !known { return Some(UnknownRole), admins; }
      var hasEnabledPassword;
      error, seen, hasEnabledPassword := AdmitAll(seen, AllIdentities(here), a, policy);
      if error.Some? { return; }
      if a.enabled && isAdmin && hasEnabledPassword { admins := admins + 1; }
      AdministratorSnoc(here, a);
    }
    assert accounts[..|accounts|] == accounts;
    return None, admins;
  }

  method CheckRoles(roles: seq<string>, roleIds: set<string>) returns (known: bool, isAdmin: bool)
    ensures known <==> forall id :: id in roles ==> id in roleIds
    ensures known ==> (isAdmin <==> ADMINISTRATOR in roles)
  {
    isAdmin := false;
    for k := 0 to |roles|
      invariant forall l :: 0 <= l < k ==> roles[l] in roleIds
      invariant isAdmin <==> exists l :: 0 <= l < k && roles[l] == ADMINISTRATOR
    {
      if roles[k] !in roleIds { return false, isAdmin; }
      isAdmin := isAdmin || roles[k] == ADMINISTRATOR;
    }
    return true, isAdmin;
  }

  lemma AccountsSnoc(accounts: seq<Account>, a: Account, roleIds: set<string>, policy: Policy)
    ensures AllIdentities(accounts + [a]) == AllIdentities(accounts) + a.identities
    ensures AccountsOk(accounts, roleIds, policy) ==>
      (AccountsOk(accounts + [a], roleIds, policy) <==>
        && AccountOk(a, roleIds)
        && (forall b :: b in accounts ==> b.id != a.id)
        && IdentitiesOk(AllIdentities(accounts) + a.identities, policy))
  {
    var all := accounts + [a];
    assert all[..|all| - 1] == accounts;
    if AccountsOk(all, roleIds, policy) {
      forall b | b in accounts ensures b.id != a.id {
        var i :| 0 <= i < |accounts| && accounts[i] == b;
        assert all[i] == b && all[|accounts|] == a;
      }
      assert all[|accounts|] == a;
    }
  }

  lemma {:induction false} AccountsLonger(accounts: seq<Account>, n: nat, roleIds: set<string>, policy: Policy)
    requires n <= |accounts|
    ensures AccountsOk(accounts, roleIds, policy) ==> AccountsOk(accounts[..n], roleIds, policy)
    decreases |accounts| - n
  {
    if n == |accounts| {
      assert accounts[..n] == accounts;
    } else {
      AccountsLonger(accounts, n + 1, roleIds, policy);
      TakeSnoc(accounts, n);
      var init, last := accounts[..n], accounts[n];
      assert (init + [last])[..n] == init;
      if AccountsOk(accounts, roleIds, policy) {
        forall i | 0 <= i < n ensures AccountOk(init[i], roleIds) { assert (init + [last])[i] == init[i]; }
        IdentitiesPrefix(AllIdentities(init), last.identities, policy);
      }
    }
  }

  lemma AdministratorSnoc(accounts: seq<Account>, a: Account)
    ensures HasAdministrator(accounts + [a]) <==> HasAdministrator(accounts) || PasswordAdministrator(a)
  {
    var all := accounts + [a];
    if HasAdministrator(accounts) {
      var i :| 0 <= i < |accounts| && PasswordAdministrator(accounts[i]);
      assert all[i] == accounts[i];
    }
    assert all[|accounts|] == a;
  }
}

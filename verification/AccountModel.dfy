/** The account model (auth/model.go): every mutator edits a copy of the document, validates it, saves it
    and only then swaps it in. */
module AccountModel {
  import opened Wrappers
  import opened Sequences
  import opened Sorting
  import opened Accounts
  import opened Capabilities
  import opened AccountEdits
  import opened AccountEffects
  import Text

  datatype Failure =
    | SetupComplete | BadInput | NoRandomness | AccountMissing | IdentityMissing | NotAPassword
    | LastLogin | LastAccount | Rejected | NotSaved

  datatype LoadFailure = NotLoaded | NotValid(reason: Invalid)

  /** What is stored durably. A save either takes effect or fails and changes nothing; which of the two
      it will be is an argument. */
  class AccountPersistence {
    var users: AccountsFile
    var roles: RolesFile

    constructor (users: AccountsFile, roles: RolesFile)
      ensures this.users == users && this.roles == roles
    {
      this.users, this.roles := users, roles;
    }

    method SaveAccounts(document: AccountsFile, saves: bool)
      modifies this`users
      ensures users == if saves then document else old(users)
    {
      if saves { users := document; }
    }

    method SaveRoles(document: RolesFile, saves: bool)
      modifies this`roles
      ensures roles == if saves then document else old(roles)
    {
      if saves { roles := document; }
    }
  }

  /** How a mutation with this outcome of its own checks ends. */
  ghost function Verdict(own: Option<Failure>, users: AccountsFile, roles: RolesFile, policy: Policy, saves: bool): Option<Failure> {
    if own.Some? then own
    else if !ValidDocument(users, roles, policy) then Some(Rejected)
    else if !saves then Some(NotSaved)
    else None
  }

  function Unless(condition: bool, failure: Failure): Option<Failure> { if condition then None else Some(failure) }

  function WithAccounts(users: AccountsFile, accounts: seq<Account>): AccountsFile { users.(accounts := accounts) }

  // ----- The editing loops ----------------------------------------------------------------------

  ghost predicate DistinctAccounts(accounts: seq<Account>) {
    forall i, j :: 0 <= i < j < |accounts| ==> accounts[i].id != accounts[j].id
  }

  /** The loop that stops at the first account of that id. */
  method ReviseFirst(accounts: seq<Account>, id: string, e: AccountEdit) returns (next: seq<Account>, found: bool)
    requires DistinctAccounts(accounts)
    ensures next == Revise(accounts, id, e)
    ensures found <==> HasAccount(accounts, id)
  {
    next := accounts;
    for i := 0 to |accounts|
      invariant next == accounts && forall k :: 0 <= k < i ==> accounts[k].id != id
    {
      if next[i].id == id {
        assert next[i] in accounts;
        next := next[i := Revised(next[i], e)];
        return next, true;
      }
    }
    return next, false;
  }

  /** The nested loop that visits every identity of that id in every account of that id. */
  method ReviseIdentities(accounts: seq<Account>, accountId: string, identityId: string, e: IdentityEdit)
    returns (next: seq<Account>, seen: bool, found: bool)
    ensures next == Revise(accounts, accountId, Within(identityId, e))
    ensures seen <==> HasIdentity(accounts, accountId, identityId)
    ensures found <==> Takes(accounts, accountId, identityId, e)
  {
    next, seen, found := accounts, false, false;
    for i := 0 to |accounts|
      invariant |next| == |accounts|
      invariant forall k :: 0 <= k < i ==> next[k] == Revise(accounts, accountId, Within(identityId, e))[k]
      invariant forall k :: i <= k < |accounts| ==> next[k] == accounts[k]
      invariant seen <==> HasIdentity(accounts[..i], accountId, identityId)
      invariant found <==> Takes(accounts[..i], accountId, identityId, e)
    {
      TakeSnoc(accounts, i);
      HasIdentitySnoc(accounts[..i], accounts[i], accountId, identityId, e);
      if accounts[i].id != accountId { continue; }
      var identities, here, taken := ReviseWithin(accounts[i].identities, identityId, e);
      next := next[i := accounts[i].(identities := identities)];
      seen, found := seen || here, found || taken;
    }
    assert accounts[..|accounts|] == accounts;
  }

  method ReviseWithin(xs: seq<Identity>, id: string, e: IdentityEdit) returns (next: seq<Identity>, seen: bool, found: bool)
    ensures next == Edited(xs, id, e)
    ensures seen <==> exists x :: x in xs && x.id == id
    ensures found <==> TakesIn(xs, id, e)
  {
    next, seen, found := xs, false, false;
    for i := 0 to |xs|
      invariant |next| == |xs|
      invariant forall k :: 0 <= k < i ==> next[k] == Edited(xs, id, e)[k]
      invariant forall k :: i <= k < |xs| ==> next[k] == xs[k]
      invariant seen <==> exists k :: 0 <= k < i && xs[k].id == id
      invariant found <==> exists k :: 0 <= k < i && xs[k].id == id && Applies(e, xs[k])
    {
      if xs[i].id == id {
        seen := true;
        if Applies(e, xs[i]) {
          next, found := next[i := Change(e, xs[i])], true;
        }
      }
    }
  }

  lemma HasIdentitySnoc(accounts: seq<Account>, a: Account, accountId: string, identityId: string, e: IdentityEdit)
    ensures HasIdentity(accounts + [a], accountId, identityId) <==>
      HasIdentity(accounts, accountId, identityId) || (a.id == accountId && exists x :: x in a.identities && x.id == identityId)
    ensures Takes(accounts + [a], accountId, identityId, e) <==>
      Takes(accounts, accountId, identityId, e) || (a.id == accountId && TakesIn(a.identities, identityId, e))
  {
    assert forall b :: b in accounts + [a] <==> b in accounts || b == a;
  }

  /** The loop of SetRole. */
  method ReviseRole(roles: seq<Role>, id: string, name: string, capabilities: seq<string>, builtIn: bool) returns (next: seq<Role>)
    requires forall i, j :: 0 <= i < j < |roles| ==> roles[i].id != roles[j].id
    ensures next == PutRole(roles, id, name, capabilities, builtIn)
  {
    var deduped := DedupeStrings(capabilities);
    var i := 0;
    while i < |roles| && roles[i].id != id
      invariant i <= |roles| && forall k :: 0 <= k < i ==> roles[k].id != id
    {
      i := i + 1;
    }
    if i == |roles| {
      PutRoleAbsent(roles, id, name, capabilities, builtIn);
      return roles + [Role(id, name, deduped, builtIn)];
    }
    PutRoleAt(roles, i, name, capabilities, builtIn);
    return roles[i := roles[i].(name := name, capabilities := deduped)];
  }

  // ----- The model ------------------------------------------------------------------------------

  /** Memory holds the document that was saved last, that document is valid, and so, unless it is
      empty, somebody can log in and administer. */
  class Model {
    const store: AccountPersistence
    const policy: Policy
    var users: AccountsFile
    var roles: RolesFile

    ghost predicate Valid()
      reads this, store
    {
      ValidDocument(users, roles, policy) && store.users == users && store.roles == roles
    }

    constructor Adopt(store: AccountPersistence, policy: Policy)
      requires ValidDocument(store.users, store.roles, policy)
      ensures Valid() && this.store == store && this.policy == policy
    {
      this.store, this.policy, this.users, this.roles := store, policy, store.users, store.roles;
    }

    /** NewModel: it refuses a stored document that does not load or is not valid. */
    static method Load(store: AccountPersistence, policy: Policy, loads: bool) returns (r: Result<Model, LoadFailure>)
      ensures r.Ok? <==> loads && ValidDocument(store.users, store.roles, policy)
      ensures r == Err(NotLoaded) <==> !loads
      ensures r.Ok? ==> fresh(r.value) && r.value.Valid() && r.value.store == store && r.value.policy == policy
    {
      if !loads { return Err(NotLoaded); }
      var error := ValidateAccounts(store.users, store.roles, policy);
      if error.Some? { return Err(NotValid(error.value)); }
      var model := new Model.Adopt(store, policy);
      return Ok(model);
    }

    /** Reload after somebody else has written the same store: memory catches up with a valid store and
        stays as it was before one that is invalid or does not load. */
    method Reload(loads: bool) returns (error: Option<LoadFailure>)
      modifies this`users, this`roles
      ensures error.None? <==> loads && ValidDocument(store.users, store.roles, policy)
      ensures error == Some(NotLoaded) <==> !loads
      ensures error.None? ==> Valid()
      ensures error.Some? ==> users == old(users) && roles == old(roles)
    {
      if !loads { return Some(NotLoaded); }
      var invalid := ValidateAccounts(store.users, store.roles, policy);
      if invalid.Some? { return Some(NotValid(invalid.value)); }
      users, roles := store.users, store.roles;
      return None;
    }

    /** The common end of the mutators: validate, save, swap. */
    method Commit(next: AccountsFile, saves: bool) returns (error: Option<Failure>)
      requires Valid()
      modifies this`users, store`users
      ensures Valid()
      ensures error == Verdict(None, next, roles, policy, saves)
      ensures error == Some(Rejected) <==> !ValidDocument(next, roles, policy)
      ensures error == Some(NotSaved) <==> ValidDocument(next, roles, policy) && !saves
      ensures error.Some? ==> error.value in {Rejected, NotSaved}
      ensures users == if error.None? then next else old(users)
    {
      var invalid := ValidateAccounts(next, roles, policy);
      if invalid.Some? { return Some(Rejected); }
      store.SaveAccounts(next, saves);
      if !saves { return Some(NotSaved); }
      users := next;
      return None;
    }

    /** A new password-backed account; the ids, the clock and the salted hash come from outside. */
    method CreateAccount(displayName: string, username: string, email: string, password: string, roleNames: seq<string>,
                         accountId: string, identityId: string, now: int, hash: Option<string>, saves: bool)
      returns (error: Option<Failure>)
      requires Valid()
      modifies this`users, store`users
      ensures Valid() && (old(users.accounts) != [] ==> HasAdministrator(users.accounts))
      ensures error == Verdict(
        CreationRefused(displayName, username, password, hash),
        Created(old(users), displayName, username, email, roleNames, accountId, identityId, now, hash), roles, policy, saves)
      ensures users == if error.None?
        then Created(old(users), displayName, username, email, roleNames, accountId, identityId, now, hash) else old(users)
      ensures error == Some(BadInput) <==> Text.Blank(displayName) || Text.Blank(username) || |password| < 7
      ensures error == Some(NoRandomness) <==> !Text.Blank(displayName) && !Text.Blank(username) && |password| >= 7 && hash.None?
      ensures error.None? ==>
        && users.version == old(users.version)
        && AccountMade(old(users.accounts), users.accounts, accountId, identityId, Text.TrimSpace(displayName),
                       Text.TrimSpace(username), Text.TrimSpace(email), Dedupe(roleNames), hash.value, now)
    {
      var name, login, mail := Text.TrimSpace(displayName), Text.TrimSpace(username), Text.TrimSpace(email);
      Text.TrimSpaceEmpty(displayName);
      Text.TrimSpaceEmpty(username);
      if name == "" || login == "" || |password| < 7 { return Some(BadInput); }
      if hash.None? { return Some(NoRandomness); }
      var deduped := DedupeStrings(roleNames);
      var account := Account(accountId, name, true, deduped,
        [Identity(identityId, "password", login, mail, "", hash.value, false, [], true)], now);
      error := Commit(WithAccounts(users, users.accounts + [account]), saves);
    }

    /** Setup: only into an empty document, and what it creates can administer. */
    method CreateInitialAdministrator(displayName: string, username: string, email: string, password: string,
                                      accountId: string, identityId: string, now: int, hash: Option<string>, saves: bool)
      returns (error: Option<Failure>)
      requires Valid()
      modifies this`users, store`users
      ensures Valid() && (old(users.accounts) != [] ==> HasAdministrator(users.accounts))
      ensures
        var next := Created(old(users), displayName, username, email, [ADMINISTRATOR], accountId, identityId, now, hash);
        && error == (if old(users.accounts) != [] then Some(SetupComplete) else
             FirstVerdict(policy, displayName, username, password, accountId, identityId, hash, saves))
        && users == if error.None? then next else old(users)
      ensures error.None? ==>
        && |users.accounts| == 1 && PasswordAdministrator(users.accounts[0])
        && AccountMade([], users.accounts, accountId, identityId, Text.TrimSpace(displayName),
                       Text.TrimSpace(username), Text.TrimSpace(email), ["administrator"], hash.value, now)
    {
      AdministratorAlone();
      if |users.accounts| != 0 { return Some(SetupComplete); }
      FirstVerdictExactly(users, roles, policy, displayName, username, email, password, accountId, identityId, now, hash, saves);
      error := CreateAccount(displayName, username, email, password, [ADMINISTRATOR], accountId, identityId, now, hash, saves);
    }

    method UpdateAccount(id: string, displayName: string, enabled: bool, roleNames: seq<string>, saves: bool)
      returns (error: Option<Failure>)
      requires Valid()
      modifies this`users, store`users
      ensures Valid() && (old(users.accounts) != [] ==> HasAdministrator(users.accounts))
      ensures
        var next := WithAccounts(old(users), Revise(old(users.accounts), id, Profile(displayName, enabled, roleNames)));
        && error == Verdict(Unless(HasAccount(old(users.accounts), id), AccountMissing), next, roles, policy, saves)
        && users == if error.None? then next else old(users)
      ensures error == Some(AccountMissing) <==> forall i :: 0 <= i < |old(users.accounts)| ==> old(users.accounts)[i].id != id
      ensures error.None? ==>
        && users.version == old(users.version)
        && ProfileSet(old(users.accounts), users.accounts, id, Text.TrimSpace(displayName), enabled, Dedupe(roleNames))
    {
      HasAccountMeans(users.accounts, id);
      ProfileMeans(users.accounts, id, displayName, enabled, roleNames);
      var next, found := ReviseFirst(users.accounts, id, Profile(displayName, enabled, roleNames));
      if !found { return Some(AccountMissing); }
      error := Commit(WithAccounts(users, next), saves);
    }

    method SetPassword(accountId: string, identityId: string, password: string, hash: Option<string>, saves: bool)
      returns (error: Option<Failure>)
      requires Valid() && (hash.Some? ==> hash.value != "")
      modifies this`users, store`users
      ensures Valid() && (old(users.accounts) != [] ==> HasAdministrator(users.accounts))
      ensures error == if |password| < 7 then Some(BadInput) else if hash.None? then Some(NoRandomness)
        else if !Takes(old(users.accounts), accountId, identityId, SetHash(hash.value)) then Some(IdentityMissing)
        else if !saves then Some(NotSaved) else None
      ensures users == if error.Some? then old(users)
        else WithAccounts(old(users), Revise(old(users.accounts), accountId, Within(identityId, SetHash(hash.value))))
      ensures error == Some(IdentityMissing) <==>
        && |password| >= 7 && hash.Some?
        && !PasswordNamed(old(users.accounts), accountId, identityId)
      ensures error.None? ==>
        && users.version == old(users.version)
        && PasswordSet(old(users.accounts), users.accounts, accountId, identityId, hash.value)
    {
      if |password| < 7 { return Some(BadInput); }
      if hash.None? { return Some(NoRandomness); }
      SetHashMeans(users.accounts, accountId, identityId, hash.value);
      TakesPasswordMeans(users.accounts, accountId, identityId, SetHash(hash.value));
      var next, _, found := ReviseIdentities(users.accounts, accountId, identityId, SetHash(hash.value));
      if !found { return Some(IdentityMissing); }
      CredentialEditsValid(users, roles, policy, accountId, identityId, SetHash(hash.value));
      error := Commit(WithAccounts(users, next), saves);
    }

    /** newId is what NewID would draw for an identity that comes without an id. */
    method AddIdentity(accountId: string, identity: Identity, newId: string, saves: bool) returns (error: Option<Failure>)
      requires Valid()
      modifies this`users, store`users
      ensures Valid() && (old(users.accounts) != [] ==> HasAdministrator(users.accounts))
      ensures
        var next := WithAccounts(old(users), Revise(old(users.accounts), accountId, Add(Prepared(identity, newId))));
        && error == Verdict(Unless(HasAccount(old(users.accounts), accountId), AccountMissing), next, roles, policy, saves)
        && users == if error.None? then next else old(users)
      ensures error == Some(AccountMissing) <==> forall i :: 0 <= i < |old(users.accounts)| ==> old(users.accounts)[i].id != accountId
      ensures error.None? ==>
        && users.version == old(users.version)
        && IdentityAdded(old(users.accounts), users.accounts, accountId, Identity(
          if identity.id == "" then newId else identity.id, identity.kind,
          Text.TrimSpace(identity.username), Text.TrimSpace(identity.email), identity.providerSubject,
          identity.passwordHash, identity.totpEnabled, identity.recoveryCodes, identity.enabled))
    {
      HasAccountMeans(users.accounts, accountId);
      AddMeans(users.accounts, accountId, Prepared(identity, newId));
      var next, found := ReviseFirst(users.accounts, accountId, Add(Prepared(identity, newId)));
      if !found { return Some(AccountMissing); }
      error := Commit(WithAccounts(users, next), saves);
    }

    method SetIdentityTOTP(accountId: string, identityId: string, enabled: bool, codes: seq<string>, saves: bool)
      returns (error: Option<Failure>)
      requires Valid()
      modifies this`users, store`users
      ensures Valid() && (old(users.accounts) != [] ==> HasAdministrator(users.accounts))
      ensures error == if !HasIdentity(old(users.accounts), accountId, identityId) then Some(IdentityMissing)
        else if !Takes(old(users.accounts), accountId, identityId, SetTotp(enabled, codes)) then Some(NotAPassword)
        else if !saves then Some(NotSaved) else None
      ensures users == if error.Some? then old(users)
        else WithAccounts(old(users), Revise(old(users.accounts), accountId, Within(identityId, SetTotp(enabled, codes))))
      ensures error == Some(IdentityMissing) <==> !IdentityNamed(old(users.accounts), accountId, identityId)
      ensures error == Some(NotAPassword) <==>
        && IdentityNamed(old(users.accounts), accountId, identityId)
        && !PasswordNamed(old(users.accounts), accountId, identityId)
      ensures error.None? ==>
        && users.version == old(users.version)
        && TotpSet(old(users.accounts), users.accounts, accountId, identityId, enabled, codes)
    {
      HasIdentityMeans(users.accounts, accountId, identityId);
      SetTotpMeans(users.accounts, accountId, identityId, enabled, codes);
      TakesPasswordMeans(users.accounts, accountId, identityId, SetTotp(enabled, codes));
      var next, seen, found := ReviseIdentities(users.accounts, accountId, identityId, SetTotp(enabled, codes));
      if !seen { return Some(IdentityMissing); }
      if !found { return Some(NotAPassword); }
      CredentialEditsValid(users, roles, policy, accountId, identityId, SetTotp(enabled, codes));
      error := Commit(WithAccounts(users, next), saves);
    }

    method SetIdentityEnabled(accountId: string, identityId: string, enabled: bool, saves: bool) returns (error: Option<Failure>)
      requires Valid()
      modifies this`users, store`users
      ensures Valid() && (old(users.accounts) != [] ==> HasAdministrator(users.accounts))
      ensures
        var next := WithAccounts(old(users), Revise(old(users.accounts), accountId, Within(identityId, SetEnabled(enabled))));
        && error == Verdict(Unless(HasIdentity(old(users.accounts), accountId, identityId), IdentityMissing), next, roles, policy, saves)
        && users == if error.None? then next else old(users)
      ensures error == Some(IdentityMissing) <==> !IdentityNamed(old(users.accounts), accountId, identityId)
      ensures error.None? ==>
        && users.version == old(users.version)
        && EnabledSet(old(users.accounts), users.accounts, accountId, identityId, enabled)
    {
      HasIdentityMeans(users.accounts, accountId, identityId);
      SetEnabledMeans(users.accounts, accountId, identityId, enabled);
      var next, _, found := ReviseIdentities(users.accounts, accountId, identityId, SetEnabled(enabled));
      assert found <==> HasIdentity(users.accounts, accountId, identityId);
      if !found { return Some(IdentityMissing); }
      error := Commit(WithAccounts(users, next), saves);
    }

    /** The one mutator that does not validate; CredentialEditsValid says why the invariant holds all
        the same. Each success uses up one stored copy of the code. */
    method ConsumeRecoveryCode(accountId: string, identityId: string, code: string, saves: bool) returns (used: bool)
      requires Valid()
      modifies this`users, store`users
      ensures Valid() && (old(users.accounts) != [] ==> HasAdministrator(users.accounts))
      ensures used <==> saves && Takes(old(users.accounts), accountId, identityId, DropCode(code))
      ensures users == if !used then old(users)
        else WithAccounts(old(users), Revise(old(users.accounts), accountId, Within(identityId, DropCode(code))))
      ensures used <==> saves && CodeNamed(old(users.accounts), accountId, identityId, code)
      ensures used ==>
        && users.version == old(users.version)
        && CodeUsed(old(users.accounts), users.accounts, accountId, identityId, code)
    {
      DropCodeMeans(users.accounts, accountId, identityId, code);
      TakesCodeMeans(users.accounts, accountId, identityId, code);
      CredentialEditsValid(users, roles, policy, accountId, identityId, DropCode(code));
      var accounts, found := UseCode(users.accounts, accountId, identityId, code, policy);
      if !found { return false; }
      var next := WithAccounts(users, accounts);
      store.SaveAccounts(next, saves);
      if !saves { return false; }
      users := next;
      return true;
    }

    method RemoveIdentity(accountId: string, identityId: string, saves: bool) returns (error: Option<Failure>)
      requires Valid()
      modifies this`users, store`users
      ensures Valid() && (old(users.accounts) != [] ==> HasAdministrator(users.accounts))
      ensures
        var next := WithAccounts(old(users), Revise(old(users.accounts), accountId, Remove(identityId)));
        && error == Verdict(RemovalRefused(old(users.accounts), accountId, identityId), next, roles, policy, saves)
        && users == if error.None? then next else old(users)
      ensures error.None? ==>
        && users.version == old(users.version)
        && IdentityRemoved(old(users.accounts), users.accounts, accountId, identityId)
    {
      var own, next := Removal(users.accounts, accountId, identityId, RoleIds(roles.roles), policy);
      if own.Some? { return own; }
      RemoveMeans(users.accounts, RoleIds(roles.roles), policy, accountId, identityId);
      error := Commit(WithAccounts(users, next), saves);
    }

    method DeleteAccount(accountId: string, saves: bool) returns (error: Option<Failure>)
      requires Valid()
      modifies this`users, store`users
      ensures Valid() && (old(users.accounts) != [] ==> HasAdministrator(users.accounts))
      ensures
        var next := WithAccounts(old(users), Rest(old(users.accounts), accountId));
        && error == Verdict(
          if !HasAccount(old(users.accounts), accountId) then Some(AccountMissing) else Unless(next.accounts != [], LastAccount),
          next, roles, policy, saves)
        && users == if error.None? then next else old(users)
      ensures error == Some(AccountMissing) <==> forall i :: 0 <= i < |old(users.accounts)| ==> old(users.accounts)[i].id != accountId
      ensures error == Some(LastAccount) <==> |old(users.accounts)| == 1 && old(users.accounts)[0].id == accountId
      ensures error.None? ==> users.version == old(users.version) && AccountDeleted(old(users.accounts), users.accounts, accountId)
    {
      HasAccountMeans(users.accounts, accountId);
      var next, found := Deletion(users.accounts, accountId);
      if !found { return Some(AccountMissing); }
      if |next| == 0 { return Some(LastAccount); }
      error := Commit(WithAccounts(users, next), saves);
    }

    /** Roles are kept sorted by id. */
    method SetRole(id: string, name: string, capabilities: seq<string>, builtIn: bool, saves: bool) returns (error: Option<Failure>)
      requires Valid()
      modifies this`roles, store`roles
      ensures Valid()
      ensures error == if Text.TrimSpace(id) == "" || Text.TrimSpace(name) == "" then Some(BadInput)
        else if !RoleAllowed(policy, Text.TrimSpace(id), capabilities) then Some(Rejected)
        else if !saves then Some(NotSaved) else None
      ensures error.Some? ==> roles == old(roles)
      ensures error.None? ==>
        && roles.version == old(roles.version) && Sorted(ById, roles.roles)
        && multiset(roles.roles) ==
             multiset(PutRole(old(roles.roles), Text.TrimSpace(id), Text.TrimSpace(name), capabilities, builtIn))
        && RoleSet(old(roles.roles), roles.roles, Text.TrimSpace(id), Text.TrimSpace(name), Dedupe(capabilities), builtIn)
    {
      var key, title := Text.TrimSpace(id), Text.TrimSpace(name);
      if key == "" || title == "" { return Some(BadInput); }
      var next := ReviseRole(roles.roles, key, title, capabilities, builtIn);
      ByIdIsOrder();
      next := SortSlice(ById, next);
      SetRoleExactly(users, roles, policy, next, key, title, capabilities, builtIn);
      PutRoleMeans(roles.roles, next, key, title, capabilities, builtIn);
      var document := roles.(roles := next);
      var invalid := ValidateAccounts(users, document, policy);
      if invalid.Some? { return Some(Rejected); }
      store.SaveRoles(document, saves);
      if !saves { return Some(NotSaved); }
      roles := document;
      return None;
    }
  }

  lemma RefusedAt(accounts: seq<Account>, i: nat, j: nat)
    requires DistinctAccounts(accounts) && i < |accounts| && j < |accounts[i].identities|
    requires forall k, l :: 0 <= k < l < |accounts[i].identities| ==> accounts[i].identities[k].id != accounts[i].identities[l].id
    ensures
      var a, x := accounts[i], accounts[i].identities[j];
      RemovalRefused(accounts, a.id, x.id) == Unless(!(LoginCapable(x) && Logins(a.identities) <= 1), LastLogin)
  {
    TheAccount(accounts, i);
    TheIdentity(accounts[i].identities, j);
    assert HasAccount(accounts, accounts[i].id) && HasIdentity(accounts, accounts[i].id, accounts[i].identities[j].id);
  }

  lemma RemoveAtOnly(accounts: seq<Account>, i: nat, identityId: string)
    requires DistinctAccounts(accounts) && i < |accounts|
    ensures Revise(accounts, accounts[i].id, Remove(identityId)) ==
      accounts[i := accounts[i].(identities := Without(accounts[i].identities, identityId))]
  {
  }

  /** The loops of RemoveIdentity: its own checks, and the accounts without the identity. */
  method Removal(accounts: seq<Account>, accountId: string, identityId: string, ghost roleIds: set<string>, ghost policy: Policy)
    returns (own: Option<Failure>, next: seq<Account>)
    requires AccountsOk(accounts, roleIds, policy)
    ensures own == RemovalRefused(accounts, accountId, identityId)
    ensures own.None? ==> next == Revise(accounts, accountId, Remove(identityId))
  {
    next := accounts;
    var i := 0;
    while i < |accounts| && accounts[i].id != accountId
      invariant i <= |accounts| && forall k :: 0 <= k < i ==> accounts[k].id != accountId
    {
      i := i + 1;
    }
    if i == |accounts| { return Some(AccountMissing), next; }
    var a := accounts[i];
    TheAccount(accounts, i);
    OwnIdentities(accounts, i, policy);
    var j, loginCapable := FindIdentity(a.identities, identityId, policy);
    if j < 0 {
      assert !HasIdentity(accounts, accountId, identityId);
      return Some(IdentityMissing), next;
    }
    RefusedAt(accounts, i, j);
    if LoginCapable(a.identities[j]) && loginCapable <= 1 { return Some(LastLogin), next; }
    WithoutAt(a.identities, j);
    RemoveAtOnly(accounts, i, identityId);
    next := next[i := a.(identities := a.identities[..j] + a.identities[j + 1..])];
    return None, next;
  }

  /** The loop of DeleteAccount. */
  method Deletion(accounts: seq<Account>, id: string) returns (next: seq<Account>, found: bool)
    requires DistinctAccounts(accounts)
    ensures found <==> HasAccount(accounts, id)
    ensures next == Rest(accounts, id)
    ensures found ==> AccountDeleted(accounts, next, id) && |next| == |accounts| - 1
  {
    var i := 0;
    while i < |accounts| && accounts[i].id != id
      invariant i <= |accounts| && forall k :: 0 <= k < i ==> accounts[k].id != id
    {
      i := i + 1;
    }
    if i == |accounts| {
      RestAbsent(accounts, id);
      return accounts, false;
    }
    TheAccount(accounts, i);
    RestAt(accounts, i);
    return accounts[..i] + accounts[i + 1..], true;
  }

  function CreationRefused(displayName: string, username: string, password: string, hash: Option<string>): Option<Failure> {
    if Text.TrimSpace(displayName) == "" || Text.TrimSpace(username) == "" || |password| < 7 then Some(BadInput)
    else Unless(hash.Some?, NoRandomness)
  }

  function Created(users: AccountsFile, displayName: string, username: string, email: string, roleNames: seq<string>,
                   accountId: string, identityId: string, now: int, hash: Option<string>): AccountsFile
  {
    WithAccounts(users, users.accounts + [Account(
      accountId, Text.TrimSpace(displayName), true, Dedupe(roleNames),
      [Identity(identityId, "password", Text.TrimSpace(username), Text.TrimSpace(email), "",
                if hash.Some? then hash.value else "", false, [], true)], now)])
  }

  /** How setup on an empty document ends. Validation can only object to a blank identifier or hash, or
      to a user name that is blank once lower-cased. */
  function FirstVerdict(policy: Policy, displayName: string, username: string, password: string,
                        accountId: string, identityId: string, hash: Option<string>, saves: bool): Option<Failure>
  {
    if CreationRefused(displayName, username, password, hash).Some? then CreationRefused(displayName, username, password, hash)
    else if accountId == "" || identityId == "" || hash.value == "" || Canonical(policy, Text.TrimSpace(username)) == "" then Some(Rejected)
    else if !saves then Some(NotSaved)
    else None
  }

  lemma DedupeOne(value: string)
    requires value != "" && Text.TrimSpace(value) == value
    ensures Dedupe([value]) == [value]
  {
    assert [value][..0] == [];
    assert FirstOccurrences([value]) == Admit([], value);
  }

  lemma AdministratorAlone()
    ensures Dedupe([ADMINISTRATOR]) == [ADMINISTRATOR]
  {
    Text.TrimNothing(ADMINISTRATOR);
    DedupeOne(ADMINISTRATOR);
  }

  lemma FirstAdministratorExactly(users: AccountsFile, roles: RolesFile, policy: Policy, displayName: string, username: string,
                                  email: string, accountId: string, identityId: string, now: int, hash: string)
    requires ValidDocument(users, roles, policy) && users.accounts == [] && Text.TrimSpace(displayName) != ""
    ensures ValidDocument(
      Created(users, displayName, username, email, [ADMINISTRATOR], accountId, identityId, now, Some(hash)), roles, policy) <==>
      accountId != "" && identityId != "" && hash != "" && Canonical(policy, Text.TrimSpace(username)) != ""
  {
    var x := Identity(identityId, "password", Text.TrimSpace(username), Text.TrimSpace(email), "", hash, false, [], true);
    var a := Account(accountId, Text.TrimSpace(displayName), true, Dedupe([ADMINISTRATOR]), [x], now);
    AdministratorAlone();
    TrimmedNotBlank(displayName);
    assert users.accounts + [a] == [a];
    AloneValid(users, roles, policy, a, x);
  }

  lemma TrimmedNotBlank(s: string)
    requires Text.TrimSpace(s) != ""
    ensures !Text.Blank(Text.TrimSpace(s))
  {
    var t := Text.TrimSpace(s);
    Text.TrimRightEnds(Text.TrimLeft(s));
    assert t[|t| - 1] in t;
  }

  /** A document of one administrator with one enabled password. */
  lemma AloneValid(users: AccountsFile, roles: RolesFile, policy: Policy, a: Account, x: Identity)
    requires ValidDocument(users, roles, policy) && a.enabled && a.roles == [ADMINISTRATOR] && a.identities == [x]
    requires x.kind == "password" && x.enabled && !Text.Blank(a.displayName)
    ensures ValidDocument(users.(accounts := [a]), roles, policy) <==> a.id != "" && Complete(x, policy)
  {
    assert x in a.identities && PasswordAdministrator(a);
    assert HasAdministrator([a]) by { assert [a][0] == a; }
    IdentityAlone(x, policy);
    AccountAlone(a, RoleIds(roles.roles), policy);
  }

  lemma IdentityAlone(x: Identity, policy: Policy)
    ensures IdentitiesOk([x], policy) <==> Complete(x, policy)
  {
    assert [x][0] == x;
  }

  lemma AccountAlone(a: Account, roleIds: set<string>, policy: Policy)
    ensures AccountsOk([a], roleIds, policy) <==> AccountOk(a, roleIds) && IdentitiesOk(a.identities, policy)
  {
    assert [a][..0] == [] && [] + a.identities == a.identities;
    assert AllIdentities([a]) == a.identities;
    assert [a][0] == a;
  }

  /** The general verdict on a new account, in the case of setup. */
  lemma FirstVerdictExactly(users: AccountsFile, roles: RolesFile, policy: Policy, displayName: string, username: string,
                            email: string, password: string, accountId: string, identityId: string, now: int,
                            hash: Option<string>, saves: bool)
    requires ValidDocument(users, roles, policy) && users.accounts == []
    ensures
      var next := Created(users, displayName, username, email, [ADMINISTRATOR], accountId, identityId, now, hash);
      && Verdict(CreationRefused(displayName, username, password, hash), next, roles, policy, saves) ==
           FirstVerdict(policy, displayName, username, password, accountId, identityId, hash, saves)
      && |next.accounts| == 1 && PasswordAdministrator(next.accounts[0])
  {
    var next := Created(users, displayName, username, email, [ADMINISTRATOR], accountId, identityId, now, hash);
    AdministratorAlone();
    assert next.accounts[0].identities[0] in next.accounts[0].identities;
    if CreationRefused(displayName, username, password, hash).None? {
      FirstAdministratorExactly(users, roles, policy, displayName, username, email, accountId, identityId, now, hash.value);
    }
  }

  function Prepared(x: Identity, newId: string): Identity {
    x.(id := if x.id == "" then newId else x.id, username := Text.TrimSpace(x.username), email := Text.TrimSpace(x.email))
  }

  /** The accounts but the one of that id. */
  function Rest(accounts: seq<Account>, id: string): seq<Account> {
    if accounts == [] then []
    else if accounts[0].id == id then Rest(accounts[1..], id)
    else [accounts[0]] + Rest(accounts[1..], id)
  }

  lemma {:induction false} RestAbsent(accounts: seq<Account>, id: string)
    requires forall a :: a in accounts ==> a.id != id
    ensures Rest(accounts, id) == accounts
  {
    if accounts != [] {
      RestAbsent(accounts[1..], id);
      assert accounts == [accounts[0]] + accounts[1..];
    }
  }

  lemma {:induction false} RestAt(accounts: seq<Account>, i: nat)
    requires i < |accounts| && DistinctAccounts(accounts)
    ensures Rest(accounts, accounts[i].id) == accounts[..i] + accounts[i + 1..]
  {
    if i == 0 {
      RestAbsent(accounts[1..], accounts[0].id);
    } else {
      RestAt(accounts[1..], i - 1);
      RestOfTail(accounts, i);
    }
  }

  lemma RestOfTail(accounts: seq<Account>, i: nat)
    requires 0 < i < |accounts| && accounts[0].id != accounts[i].id
    requires Rest(accounts[1..], accounts[i].id) == accounts[1..][..i - 1] + accounts[1..][i..]
    ensures Rest(accounts, accounts[i].id) == accounts[..i] + accounts[i + 1..]
  {
    TailRemove(accounts, i);
  }

  /** The only password administrator of a document. */
  ghost predicate SoleAdministrator(accounts: seq<Account>, a: Account) {
    a in accounts && PasswordAdministrator(a) && forall b :: b in accounts && PasswordAdministrator(b) ==> b == a
  }

  lemma OnlyEditedCounts(accounts: seq<Account>, a: Account, e: AccountEdit)
    requires DistinctAccounts(accounts) && SoleAdministrator(accounts, a)
    ensures HasAdministrator(Revise(accounts, a.id, e)) <==> PasswordAdministrator(Revised(a, e))
  {
    var next := Revise(accounts, a.id, e);
    var i :| 0 <= i < |accounts| && accounts[i] == a;
    assert next[i] == Revised(a, e);
    forall k | 0 <= k < |accounts| && k != i ensures next[k] == accounts[k] && !PasswordAdministrator(next[k]) {
      assert accounts[k] in accounts && accounts[k].id != a.id;
    }
  }

  lemma NoneWithout(accounts: seq<Account>, a: Account)
    requires DistinctAccounts(accounts) && SoleAdministrator(accounts, a)
    ensures !HasAdministrator(Rest(accounts, a.id))
  {
    var i :| 0 <= i < |accounts| && accounts[i] == a;
    RestAt(accounts, i);
    var rest := accounts[..i] + accounts[i + 1..];
    forall k | 0 <= k < |rest| ensures !PasswordAdministrator(rest[k]) {
      var j := if k < i then k else k + 1;
      assert rest[k] == accounts[j] && accounts[j] in accounts && accounts[j].id != accounts[i].id;
    }
  }

  /** Every mutator that edits the only password administrator, whether it updates the account, adds,
      removes or switches an identity or changes a credential, leaves an administrator exactly when
      the edited account still is one, and is refused otherwise; so is deleting it. */
  lemma SoleAdministratorStays(users: AccountsFile, roles: RolesFile, policy: Policy, a: Account, e: AccountEdit, saves: bool)
    requires ValidDocument(users, roles, policy) && SoleAdministrator(users.accounts, a)
    ensures HasAdministrator(Revise(users.accounts, a.id, e)) <==> PasswordAdministrator(Revised(a, e))
    ensures !PasswordAdministrator(Revised(a, e)) ==>
      Verdict(None, WithAccounts(users, Revise(users.accounts, a.id, e)), roles, policy, saves) == Some(Rejected)
    ensures Rest(users.accounts, a.id) != [] ==>
      Verdict(None, WithAccounts(users, Rest(users.accounts, a.id)), roles, policy, saves) == Some(Rejected)
  {
    OnlyEditedCounts(users.accounts, a, e);
    NoneWithout(users.accounts, a);
  }

  ghost predicate RemovesLogin(a: Account, identityId: string) {
    && (exists x :: x in a.identities && x.id == identityId && LoginCapable(x))
    && Logins(a.identities) <= 1
  }

  ghost function RemovalRefused(accounts: seq<Account>, accountId: string, identityId: string): Option<Failure> {
    if !HasAccount(accounts, accountId) then Some(AccountMissing)
    else if !HasIdentity(accounts, accountId, identityId) then Some(IdentityMissing)
    else Unless(!exists a :: a in accounts && a.id == accountId && RemovesLogin(a, identityId), LastLogin)
  }

  /** An account that had a password or google identity, enabled or not, keeps one after an allowed removal. */
  lemma LoginRemains(accounts: seq<Account>, roles: set<string>, policy: Policy, a: Account, identityId: string)
    requires AccountsOk(accounts, roles, policy) && a in accounts
    requires RemovalRefused(accounts, a.id, identityId).None?
    requires Logins(a.identities) > 0
    ensures Logins(Revised(a, Remove(identityId)).identities) > 0
  {
    var i :| 0 <= i < |accounts| && accounts[i] == a;
    OwnIdentities(accounts, i, policy);
    TheAccount(accounts, i);
    var j := NamedIdentity(accounts, a, identityId);
    DistinctIdentities(a.identities, policy);
    RefusedAt(accounts, i, j);
    WithoutAt(a.identities, j);
  }

  /** The ids name an identity that is the only way to log in to its account. */
  ghost predicate NamesLastLogin(accounts: seq<Account>, accountId: string, identityId: string) {
    exists i: nat, j: nat :: Names(accounts, i, j, accountId, identityId) && OnlyLogin(accounts[i].identities, j)
  }

  ghost predicate OnlyLogin(xs: seq<Identity>, j: nat)
    requires j < |xs|
  {
    && xs[j].kind in {"password", "google"}
    && forall k :: 0 <= k < |xs| && k != j ==> xs[k].kind !in {"password", "google"}
  }

  lemma {:induction false} NoLogins(xs: seq<Identity>)
    ensures Logins(xs) == 0 <==> forall k :: 0 <= k < |xs| ==> xs[k].kind !in {"password", "google"}
  {
    if xs != [] { NoLogins(xs[..|xs| - 1]); }
  }

  lemma OnlyLoginCounts(xs: seq<Identity>, j: nat)
    requires j < |xs|
    ensures OnlyLogin(xs, j) <==> LoginCapable(xs[j]) && Logins(xs) <= 1
  {
    SplitAt(xs, j);
    LoginsMiddle(xs[..j], xs[j], xs[j + 1..]);
    NoLogins(xs[..j] + xs[j + 1..]);
    NoLoginsBut(xs, j);
  }

  lemma NoLoginsBut(xs: seq<Identity>, j: nat)
    requires j < |xs|
    ensures var others := xs[..j] + xs[j + 1..];
      (forall k :: 0 <= k < |others| ==> others[k].kind !in {"password", "google"}) <==>
      (forall k :: 0 <= k < |xs| && k != j ==> xs[k].kind !in {"password", "google"})
  {
    var others := xs[..j] + xs[j + 1..];
    forall k | 0 <= k < |xs| && k != j ensures xs[k] == others[if k < j then k else k - 1] {
    }
    forall k | 0 <= k < |others| ensures others[k] == xs[if k < j then k else k + 1] {
    }
  }

  /** A removal's own checks, position by position. */
  lemma RemovalRefusedExactly(accounts: seq<Account>, roleIds: set<string>, policy: Policy, accountId: string, identityId: string)
    requires AccountsOk(accounts, roleIds, policy)
    ensures var r := RemovalRefused(accounts, accountId, identityId);
      && (r == Some(AccountMissing) <==> forall i :: 0 <= i < |accounts| ==> accounts[i].id != accountId)
      && (r == Some(IdentityMissing) <==>
            && (exists i :: 0 <= i < |accounts| && accounts[i].id == accountId)
            && !IdentityNamed(accounts, accountId, identityId))
      && (r == Some(LastLogin) <==> NamesLastLogin(accounts, accountId, identityId))
      && (r.Some? ==> r.value in {AccountMissing, IdentityMissing, LastLogin})
  {
    HasAccountMeans(accounts, accountId);
    HasIdentityMeans(accounts, accountId, identityId);
    if i: nat, j: nat :| Names(accounts, i, j, accountId, identityId) {
      OwnIdentities(accounts, i, policy);
      DistinctIdentities(accounts[i].identities, policy);
      RefusedAt(accounts, i, j);
      OnlyLoginCounts(accounts[i].identities, j);
      OneName(accounts, roleIds, policy, i, j);
    }
  }

  /** Two ids of a valid document name one position. */
  lemma OneName(accounts: seq<Account>, roleIds: set<string>, policy: Policy, i: nat, j: nat)
    requires AccountsOk(accounts, roleIds, policy) && i < |accounts| && j < |accounts[i].identities|
    ensures forall k: nat, l: nat :: Names(accounts, k, l, accounts[i].id, accounts[i].identities[j].id) ==> k == i && l == j
  {
    OwnIdentities(accounts, i, policy);
    DistinctIdentities(accounts[i].identities, policy);
  }

  lemma NamedIdentity(accounts: seq<Account>, a: Account, identityId: string) returns (j: nat)
    requires DistinctAccounts(accounts) && a in accounts && RemovalRefused(accounts, a.id, identityId).None?
    ensures j < |a.identities| && a.identities[j].id == identityId
  {
    assert HasIdentity(accounts, a.id, identityId);
    var x :| x in a.identities && x.id == identityId;
    j :| 0 <= j < |a.identities| && a.identities[j] == x;
  }

  lemma TheAccount(accounts: seq<Account>, i: nat)
    requires i < |accounts| && DistinctAccounts(accounts)
    ensures forall a :: a in accounts && a.id == accounts[i].id ==> a == accounts[i]
    ensures accounts[i] in accounts
  {
  }

  lemma DistinctIdentities(xs: seq<Identity>, policy: Policy)
    requires IdentitiesOk(xs, policy)
    ensures forall k, l :: 0 <= k < l < |xs| ==> xs[k].id != xs[l].id
  {
    forall k, l | 0 <= k < l < |xs| ensures xs[k].id != xs[l].id { assert !Clash(xs[k], xs[l], policy); }
  }

  lemma TheIdentity(xs: seq<Identity>, j: nat)
    requires j < |xs| && forall k, l :: 0 <= k < l < |xs| ==> xs[k].id != xs[l].id
    ensures forall x :: x in xs && x.id == xs[j].id ==> x == xs[j]
    ensures xs[j] in xs
  {
  }

  lemma LoginsSnoc(xs: seq<Identity>, k: nat)
    requires k < |xs|
    ensures Logins(xs[..k + 1]) == Logins(xs[..k]) + if LoginCapable(xs[k]) then 1 else 0
  {
    assert xs[..k + 1][..k] == xs[..k];
  }

  /** The loop of RemoveIdentity over one account: the last identity of that id, and how many can log in. */
  method FindIdentity(xs: seq<Identity>, id: string, ghost policy: Policy) returns (j: int, loginCapable: nat)
    requires IdentitiesOk(xs, policy)
    ensures -1 <= j < |xs| && loginCapable == Logins(xs)
    ensures j < 0 ==> forall x :: x in xs ==> x.id != id
    ensures j >= 0 ==> xs[j].id == id
    ensures forall k, l :: 0 <= k < l < |xs| ==> xs[k].id != xs[l].id
  {
    j, loginCapable := -1, 0;
    for k := 0 to |xs|
      invariant -1 <= j < k && loginCapable == Logins(xs[..k])
      invariant j < 0 ==> forall l :: 0 <= l < k ==> xs[l].id != id
      invariant j >= 0 ==> xs[j].id == id
    {
      LoginsSnoc(xs, k);
      if LoginCapable(xs[k]) { loginCapable := loginCapable + 1; }
      if xs[k].id == id { j := k; }
    }
    assert xs[..|xs|] == xs;
    DistinctIdentities(xs, policy);
  }

  /** The three loops of ConsumeRecoveryCode: where the code first stands. */
  method FindCode(accounts: seq<Account>, accountId: string, identityId: string, code: string, ghost policy: Policy)
    returns (i: nat, j: nat, k: int)
    ensures k < 0 ==> !Takes(accounts, accountId, identityId, DropCode(code))
    ensures k >= 0 ==>
      && i < |accounts| && accounts[i].id == accountId
      && j < |accounts[i].identities| && accounts[i].identities[j].id == identityId
      && k < |accounts[i].identities[j].recoveryCodes|
      && accounts[i].identities[j].recoveryCodes[k] == code
      && code !in accounts[i].identities[j].recoveryCodes[..k]
  {
    i := 0;
    while i < |accounts|
      invariant i <= |accounts|
      invariant forall n :: 0 <= n < i && accounts[n].id == accountId ==> !TakesIn(accounts[n].identities, identityId, DropCode(code))
    {
      if accounts[i].id == accountId {
        j, k := FindCodeWithin(accounts[i].identities, identityId, code);
        if k >= 0 { return; }
      }
      i := i + 1;
    }
    return 0, 0, -1;
  }

  method FindCodeWithin(xs: seq<Identity>, id: string, code: string) returns (j: nat, k: int)
    ensures k < 0 ==> !TakesIn(xs, id, DropCode(code))
    ensures k >= 0 ==>
      && j < |xs| && xs[j].id == id && k < |xs[j].recoveryCodes|
      && xs[j].recoveryCodes[k] == code && code !in xs[j].recoveryCodes[..k]
  {
    j := 0;
    while j < |xs|
      invariant j <= |xs|
      invariant forall n :: 0 <= n < j && xs[n].id == id ==> code !in xs[n].recoveryCodes
    {
      if xs[j].id == id {
        k := 0;
        while k < |xs[j].recoveryCodes|
          invariant 0 <= k <= |xs[j].recoveryCodes|
          invariant code !in xs[j].recoveryCodes[..k]
        {
          if xs[j].recoveryCodes[k] == code { return; }
          k := k + 1;
        }
      }
      j := j + 1;
    }
    return 0, -1;
  }

  /** The loops of ConsumeRecoveryCode: the accounts without the first copy of the code. */
  method UseCode(accounts: seq<Account>, accountId: string, identityId: string, code: string, policy: Policy)
    returns (next: seq<Account>, found: bool)
    requires DistinctAccounts(accounts) && IdentitiesOk(AllIdentities(accounts), policy)
    ensures found <==> Takes(accounts, accountId, identityId, DropCode(code))
    ensures found ==> next == Revise(accounts, accountId, Within(identityId, DropCode(code)))
  {
    var i, j, k := FindCode(accounts, accountId, identityId, code, policy);
    if k < 0 { return accounts, false; }
    var a, x := accounts[i], accounts[i].identities[j];
    var y := x.(recoveryCodes := x.recoveryCodes[..k] + x.recoveryCodes[k + 1..]);
    WithoutFirstAt(x.recoveryCodes, k);
    DropOnly(accounts, i, j, code, policy);
    return accounts[i := a.(identities := a.identities[j := y])], true;
  }

  /** With distinct ids, dropping a code in one place is the edit of the whole document. */
  lemma DropOnly(accounts: seq<Account>, i: nat, j: nat, code: string, policy: Policy)
    requires DistinctAccounts(accounts) && IdentitiesOk(AllIdentities(accounts), policy)
    requires i < |accounts| && j < |accounts[i].identities| && code in accounts[i].identities[j].recoveryCodes
    ensures
      var xs := accounts[i].identities;
      && Takes(accounts, accounts[i].id, xs[j].id, DropCode(code))
      && Revise(accounts, accounts[i].id, Within(xs[j].id, DropCode(code))) ==
           accounts[i := accounts[i].(identities := xs[j := Change(DropCode(code), xs[j])])]
  {
    var xs := accounts[i].identities;
    OwnIdentities(accounts, i, policy);
    assert accounts[i] in accounts && xs[j] in xs;
    forall k | 0 <= k < |xs| && k != j ensures xs[k].id != xs[j].id {
      assert !Clash(xs[if k < j then k else j], xs[if k < j then j else k], policy);
    }
    assert Edited(xs, xs[j].id, DropCode(code)) == xs[j := Change(DropCode(code), xs[j])];
  }
}

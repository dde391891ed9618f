/** The rules of an accounts document, place by place and in plain fields: what the invariant of Accounts
    comes to, without its list of all identities. */
module DocumentRules {
  import opened Wrappers
  import opened Sequences
  import opened Accounts
  import Text

  /** Identity j of account i. */
  predicate Place(accounts: seq<Account>, i: nat, j: nat) {
    i < |accounts| && j < |accounts[i].identities|
  }

  /** What an identity needs by itself. */
  ghost predicate IdentityRule(x: Identity, lower: string -> string) {
    && x.id != "" && x.kind in {"password", "email", "google"}
    && (x.kind == "password" ==> lower(Text.TrimSpace(x.username)) != "" && x.passwordHash != "")
    && (x.kind == "email" ==> Text.TrimSpace(x.email) != "")
    && (x.kind == "google" ==> x.providerSubject != "")
  }

  /** What two identities at different places may not share: the id; among passwords the user name and the
      e-mail address, in lower case; among Google logins the subject. */
  ghost predicate ApartRule(x: Identity, y: Identity, lower: string -> string) {
    && x.id != y.id
    && (x.kind == "password" && y.kind == "password" ==>
          && lower(Text.TrimSpace(x.username)) != lower(Text.TrimSpace(y.username))
          && (lower(Text.TrimSpace(x.email)) == lower(Text.TrimSpace(y.email)) ==> lower(Text.TrimSpace(x.email)) == ""))
    && (x.kind == "google" && y.kind == "google" ==> x.providerSubject != y.providerSubject)
  }

  ghost predicate IdentityRules(accounts: seq<Account>, lower: string -> string) {
    && (forall i: nat, j: nat :: Place(accounts, i, j) ==> IdentityRule(accounts[i].identities[j], lower))
    && (forall i: nat, j: nat, k: nat, l: nat ::
          Place(accounts, i, j) && Place(accounts, k, l) && (i != k || j != l) ==>
            ApartRule(accounts[i].identities[j], accounts[k].identities[l], lower))
  }

  ghost predicate AccountRules(accounts: seq<Account>, roles: seq<Role>) {
    && (forall i :: 0 <= i < |accounts| ==> accounts[i].id != "" && Text.TrimSpace(accounts[i].displayName) != "")
    && (forall i, j :: 0 <= i < j < |accounts| ==> accounts[i].id != accounts[j].id)
    && (forall i, j :: 0 <= i < |accounts| && 0 <= j < |accounts[i].roles| ==> RoleKnown(roles, accounts[i].roles[j]))
  }

  ghost predicate RoleKnown(roles: seq<Role>, id: string) { exists k :: 0 <= k < |roles| && roles[k].id == id }

  ghost predicate RoleRules(roles: seq<Role>, known: Option<string -> bool>) {
    && (forall i :: 0 <= i < |roles| ==> roles[i].id != "")
    && (forall i, j :: 0 <= i < j < |roles| ==> roles[i].id != roles[j].id)
    && (forall i :: 0 <= i < |roles| && roles[i].id == "administrator" ==> roles[i].capabilities == ["*"])
    && (known.Some? ==> forall i, j :: 0 <= i < |roles| && 0 <= j < |roles[i].capabilities| ==>
          roles[i].capabilities[j] == "*" || known.value(roles[i].capabilities[j]))
    && RoleKnown(roles, "administrator")
  }

  /** Account i is enabled, an administrator, and has an enabled password at j. */
  ghost predicate Administers(accounts: seq<Account>, i: nat, j: nat) {
    && Place(accounts, i, j) && accounts[i].enabled && "administrator" in accounts[i].roles
    && accounts[i].identities[j].kind == "password" && accounts[i].identities[j].enabled
  }

  // ----- Identities -----------------------------------------------------------------------------

  lemma CompleteIs(x: Identity, policy: Policy)
    ensures Complete(x, policy) <==> IdentityRule(x, policy.lower)
  {
    Text.TrimSpaceEmpty(x.email);
  }

  lemma ClashIs(x: Identity, y: Identity, policy: Policy)
    ensures Clash(x, y, policy) <==> !ApartRule(x, y, policy.lower)
    ensures Clash(x, y, policy) <==> Clash(y, x, policy)
  {
  }

  /** x stands at some place. */
  ghost predicate Placed(accounts: seq<Account>, x: Identity) {
    exists i: nat, j: nat :: Place(accounts, i, j) && accounts[i].identities[j] == x
  }

  lemma {:induction false} AllPlaced(accounts: seq<Account>, x: Identity)
    ensures x in AllIdentities(accounts) <==> Placed(accounts, x)
  {
    if accounts != [] {
      var n := |accounts| - 1;
      var init, own := accounts[..n], accounts[n].identities;
      AllPlaced(init, x);
      if Placed(init, x) {
        var i: nat, j: nat :| Place(init, i, j) && init[i].identities[j] == x;
        assert Place(accounts, i, j) && accounts[i].identities[j] == x;
      }
      if x in own {
        var j :| 0 <= j < |own| && own[j] == x;
        assert Place(accounts, n, j) && accounts[n].identities[j] == x;
      }
      if Placed(accounts, x) {
        var i: nat, j: nat :| Place(accounts, i, j) && accounts[i].identities[j] == x;
        if i < n { assert Place(init, i, j) && init[i].identities[j] == x; }
      }
    }
  }

  /** No two of both lists clash. */
  ghost predicate NoneClash(xs: seq<Identity>, ys: seq<Identity>, policy: Policy) {
    forall x, y :: x in xs && y in ys ==> !Clash(x, y, policy)
  }

  lemma IdentitiesJoin(xs: seq<Identity>, ys: seq<Identity>, policy: Policy)
    ensures IdentitiesOk(xs + ys, policy) <==> IdentitiesOk(xs, policy) && IdentitiesOk(ys, policy) && NoneClash(xs, ys, policy)
  {
    var all := xs + ys;
    if IdentitiesOk(all, policy) {
      IdentitiesPrefix(xs, ys, policy);
      SuffixOk(xs, ys, policy);
      forall x, y | x in xs && y in ys ensures !Clash(x, y, policy) {
        var i :| 0 <= i < |xs| && xs[i] == x;
        var j :| 0 <= j < |ys| && ys[j] == y;
        assert all[i] == x && all[|xs| + j] == y;
      }
    }
  }

  lemma SuffixOk(xs: seq<Identity>, ys: seq<Identity>, policy: Policy)
    requires IdentitiesOk(xs + ys, policy)
    ensures IdentitiesOk(ys, policy)
  {
    var all := xs + ys;
    forall i | 0 <= i < |ys| ensures Complete(ys[i], policy) { assert all[|xs| + i] == ys[i]; }
    forall i, j | 0 <= i < j < |ys| ensures !Clash(ys[i], ys[j], policy) {
      assert all[|xs| + i] == ys[i] && all[|xs| + j] == ys[j];
    }
  }

  /** The rules for the identities of the last account, among themselves and against the earlier ones. */
  ghost predicate LastRules(accounts: seq<Account>, lower: string -> string)
    requires accounts != []
  {
    var n := |accounts| - 1;
    && (forall j :: 0 <= j < |accounts[n].identities| ==> IdentityRule(accounts[n].identities[j], lower))
    && (forall j, l :: 0 <= j < l < |accounts[n].identities| ==>
          ApartRule(accounts[n].identities[j], accounts[n].identities[l], lower))
    && (forall x, j :: Placed(accounts[..n], x) && 0 <= j < |accounts[n].identities| ==>
          ApartRule(x, accounts[n].identities[j], lower))
  }

  lemma ApartSymmetric(x: Identity, y: Identity, lower: string -> string)
    ensures ApartRule(x, y, lower) <==> ApartRule(y, x, lower)
  {
  }

  lemma RulesSplit(accounts: seq<Account>, lower: string -> string)
    requires accounts != []
    ensures IdentityRules(accounts, lower) ==> IdentityRules(accounts[..|accounts| - 1], lower) && LastRules(accounts, lower)
  {
    var n := |accounts| - 1;
    var init := accounts[..n];
    if IdentityRules(accounts, lower) {
      forall i: nat, j: nat | Place(init, i, j) ensures IdentityRule(init[i].identities[j], lower) {
        assert Place(accounts, i, j);
      }
      forall i: nat, j: nat, k: nat, l: nat | Place(init, i, j) && Place(init, k, l) && (i != k || j != l)
        ensures ApartRule(init[i].identities[j], init[k].identities[l], lower)
      {
        assert Place(accounts, i, j) && Place(accounts, k, l);
      }
      LastSplit(accounts, lower);
    }
  }

  lemma LastSplit(accounts: seq<Account>, lower: string -> string)
    requires accounts != [] && IdentityRules(accounts, lower)
    ensures LastRules(accounts, lower)
  {
    var n := |accounts| - 1;
    forall j: nat | j < |accounts[n].identities| ensures IdentityRule(accounts[n].identities[j], lower) {
      assert Place(accounts, n, j);
    }
    forall j: nat, l: nat | j < l < |accounts[n].identities|
      ensures ApartRule(accounts[n].identities[j], accounts[n].identities[l], lower)
    {
      assert Place(accounts, n, j) && Place(accounts, n, l);
    }
    forall x, j: nat | Placed(accounts[..n], x) && j < |accounts[n].identities|
      ensures ApartRule(x, accounts[n].identities[j], lower)
    {
      var i: nat, k: nat :| Place(accounts[..n], i, k) && accounts[..n][i].identities[k] == x;
      assert Place(accounts, i, k) && Place(accounts, n, j);
    }
  }

  lemma RulesJoin(accounts: seq<Account>, lower: string -> string)
    requires accounts != [] && IdentityRules(accounts[..|accounts| - 1], lower) && LastRules(accounts, lower)
    ensures IdentityRules(accounts, lower)
  {
    var n := |accounts| - 1;
    var init := accounts[..n];
    forall i: nat, j: nat | Place(accounts, i, j) ensures IdentityRule(accounts[i].identities[j], lower) {
      if i < n { assert Place(init, i, j) && init[i] == accounts[i]; }
    }
    forall i: nat, j: nat, k: nat, l: nat | Place(accounts, i, j) && Place(accounts, k, l) && (i != k || j != l)
      ensures ApartRule(accounts[i].identities[j], accounts[k].identities[l], lower)
    {
      if i <= k { JoinApart(accounts, lower, i, j, k, l); } else { JoinApart(accounts, lower, k, l, i, j); }
      ApartSymmetric(accounts[i].identities[j], accounts[k].identities[l], lower);
    }
  }

  lemma JoinApart(accounts: seq<Account>, lower: string -> string, i: nat, j: nat, k: nat, l: nat)
    requires accounts != [] && IdentityRules(accounts[..|accounts| - 1], lower) && LastRules(accounts, lower)
    requires Place(accounts, i, j) && Place(accounts, k, l) && (i < k || (i == k && j != l))
    ensures ApartRule(accounts[i].identities[j], accounts[k].identities[l], lower)
  {
    var n := |accounts| - 1;
    var init := accounts[..n];
    var x, y := accounts[i].identities[j], accounts[k].identities[l];
    if k < n {
      assert Place(init, i, j) && Place(init, k, l) && init[i] == accounts[i] && init[k] == accounts[k];
    } else if i < n {
      assert Place(init, i, j) && init[i].identities[j] == x;
      assert Placed(init, x);
    } else {
      ApartSymmetric(x, y, lower);
    }
  }

  lemma {:induction false} IdentityRulesExactly(accounts: seq<Account>, policy: Policy)
    ensures IdentitiesOk(AllIdentities(accounts), policy) <==> IdentityRules(accounts, policy.lower)
  {
    if accounts != [] {
      var n := |accounts| - 1;
      var init, own := accounts[..n], accounts[n].identities;
      IdentityRulesExactly(init, policy);
      IdentitiesJoin(AllIdentities(init), own, policy);
      LastExactly(accounts, policy);
      RulesSplit(accounts, policy.lower);
      if IdentityRules(init, policy.lower) && LastRules(accounts, policy.lower) { RulesJoin(accounts, policy.lower); }
    }
  }

  lemma LastExactly(accounts: seq<Account>, policy: Policy)
    requires accounts != []
    ensures var n := |accounts| - 1;
      LastRules(accounts, policy.lower) <==>
        IdentitiesOk(accounts[n].identities, policy) && NoneClash(AllIdentities(accounts[..n]), accounts[n].identities, policy)
  {
    var n := |accounts| - 1;
    var own := accounts[n].identities;
    forall x ensures Complete(x, policy) <==> IdentityRule(x, policy.lower) { CompleteIs(x, policy); }
    forall x, y ensures Clash(x, y, policy) <==> !ApartRule(x, y, policy.lower) { ClashIs(x, y, policy); }
    forall x ensures x in AllIdentities(accounts[..n]) <==> Placed(accounts[..n], x) { AllPlaced(accounts[..n], x); }
  }

  // ----- The document ---------------------------------------------------------------------------

  lemma RoleIdsKnown(roles: seq<Role>, id: string)
    ensures id in RoleIds(roles) <==> RoleKnown(roles, id)
  {
    if k :| 0 <= k < |roles| && roles[k].id == id { assert roles[k] in roles; }
  }

  lemma RoleRulesExactly(roles: seq<Role>, policy: Policy)
    ensures RolesOk(roles, policy) <==> RoleRules(roles, policy.knownCapability)
  {
    RoleIdsKnown(roles, ADMINISTRATOR);
    if RolesOk(roles, policy) {
      forall i | 0 <= i < |roles| ensures RoleOk(roles[i], policy) { assert roles[i] in roles; }
    }
    if RoleRules(roles, policy.knownCapability) {
      forall r | r in roles ensures RoleOk(r, policy) {
        var i :| 0 <= i < |roles| && roles[i] == r;
      }
    }
  }

  lemma AccountRulesExactly(accounts: seq<Account>, roles: seq<Role>)
    ensures AccountRules(accounts, roles) <==>
      && (forall i :: 0 <= i < |accounts| ==> AccountOk(accounts[i], RoleIds(roles)))
      && (forall i, j :: 0 <= i < j < |accounts| ==> accounts[i].id != accounts[j].id)
  {
    forall id ensures id in RoleIds(roles) <==> RoleKnown(roles, id) { RoleIdsKnown(roles, id); }
    forall i | 0 <= i < |accounts|
      ensures AccountOk(accounts[i], RoleIds(roles)) <==>
        && accounts[i].id != "" && Text.TrimSpace(accounts[i].displayName) != ""
        && forall j :: 0 <= j < |accounts[i].roles| ==> RoleKnown(roles, accounts[i].roles[j])
    {
      Text.TrimSpaceEmpty(accounts[i].displayName);
    }
  }

  lemma AdministratorExactly(accounts: seq<Account>)
    ensures HasAdministrator(accounts) <==> exists i: nat, j: nat :: Administers(accounts, i, j)
  {
    if HasAdministrator(accounts) {
      var i :| 0 <= i < |accounts| && PasswordAdministrator(accounts[i]);
      var x :| x in accounts[i].identities && x.kind == "password" && x.enabled;
      var j :| 0 <= j < |accounts[i].identities| && accounts[i].identities[j] == x;
      assert Administers(accounts, i, j);
    }
    if i: nat, j: nat :| Administers(accounts, i, j) {
      assert accounts[i].identities[j] in accounts[i].identities;
      assert PasswordAdministrator(accounts[i]);
    }
  }

  /** The invariant that validation decides and every mutator keeps, place by place. */
  lemma ValidDocumentExactly(users: AccountsFile, roles: RolesFile, policy: Policy)
    ensures ValidDocument(users, roles, policy) <==>
      && users.version == policy.schemaVersion && roles.version == policy.schemaVersion
      && RoleRules(roles.roles, policy.knownCapability)
      && AccountRules(users.accounts, roles.roles)
      && IdentityRules(users.accounts, policy.lower)
      && (users.accounts == [] || exists i: nat, j: nat :: Administers(users.accounts, i, j))
  {
    RoleRulesExactly(roles.roles, policy);
    AccountRulesExactly(users.accounts, roles.roles);
    IdentityRulesExactly(users.accounts, policy);
    AdministratorExactly(users.accounts);
  }
}

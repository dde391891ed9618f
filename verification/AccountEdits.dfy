/** What the account mutators do to a document (auth/model.go), as functions, and which of these edits
    can ever break the invariant of Accounts.ValidDocument. */
module AccountEdits {
  import opened Wrappers
  import opened Sequences
  import opened Sorting
  import opened Accounts
  import opened Capabilities
  import Text

  datatype IdentityEdit =
    | SetHash(hash: string)
    | SetTotp(totp: bool, codes: seq<string>)
    | SetEnabled(on: bool)
    | DropCode(code: string)

  datatype AccountEdit =
    | Profile(displayName: string, enabled: bool, roles: seq<string>)
    | Add(identity: Identity)
    | Remove(identityId: string)
    | Within(identityId: string, edit: IdentityEdit)

  /** xs without its first code. */
  function WithoutFirst(xs: seq<string>, code: string): seq<string> {
    if xs == [] then [] else if xs[0] == code then xs[1..] else [xs[0]] + WithoutFirst(xs[1..], code)
  }

  predicate Applies(e: IdentityEdit, x: Identity) {
    match e
    case SetHash(_) => x.kind == "password"
    case SetTotp(_, _) => x.kind == "password"
    case SetEnabled(_) => true
    case DropCode(code) => code in x.recoveryCodes
  }

  function Change(e: IdentityEdit, x: Identity): Identity {
    match e
    case SetHash(hash) => x.(passwordHash := hash)
    case SetTotp(totp, codes) => x.(totpEnabled := totp, recoveryCodes := codes)
    case SetEnabled(on) => x.(enabled := on)
    case DropCode(code) => x.(recoveryCodes := WithoutFirst(x.recoveryCodes, code))
  }

  function Edited(xs: seq<Identity>, id: string, e: IdentityEdit): (r: seq<Identity>)
    ensures |r| == |xs|
  {
    seq(|xs|, i requires 0 <= i < |xs| => if xs[i].id == id && Applies(e, xs[i]) then Change(e, xs[i]) else xs[i])
  }

  function Without(xs: seq<Identity>, id: string): seq<Identity> {
    if xs == [] then [] else if xs[0].id == id then Without(xs[1..], id) else [xs[0]] + Without(xs[1..], id)
  }

  function Revised(a: Account, e: AccountEdit): Account {
    match e
    case Profile(displayName, enabled, roles) =>
      a.(displayName := Text.TrimSpace(displayName), enabled := enabled, roles := Dedupe(roles))
    case Add(x) => a.(identities := a.identities + [x])
    case Remove(id) => a.(identities := Without(a.identities, id))
    case Within(id, edit) => a.(identities := Edited(a.identities, id, edit))
  }

  /** The edit made to the account of that id. */
  function Revise(accounts: seq<Account>, id: string, e: AccountEdit): (r: seq<Account>)
    ensures |r| == |accounts|
  {
    seq(|accounts|, i requires 0 <= i < |accounts| => if accounts[i].id == id then Revised(accounts[i], e) else accounts[i])
  }

  predicate HasAccount(accounts: seq<Account>, id: string) {
    exists a :: a in accounts && a.id == id
  }

  predicate HasIdentity(accounts: seq<Account>, accountId: string, identityId: string) {
    exists a :: a in accounts && a.id == accountId && exists x :: x in a.identities && x.id == identityId
  }

  /** Some identity that the ids name takes the edit. */
  predicate Takes(accounts: seq<Account>, accountId: string, identityId: string, e: IdentityEdit) {
    exists a :: a in accounts && a.id == accountId && TakesIn(a.identities, identityId, e)
  }

  predicate TakesIn(xs: seq<Identity>, identityId: string, e: IdentityEdit) {
    exists x :: x in xs && x.id == identityId && Applies(e, x)
  }

  // ----- Edits that validation can never refuse -------------------------------------------------

  /** Two identities that validation cannot tell apart. */
  predicate AlikeIdentities(x: Identity, y: Identity) {
    && x.id == y.id && x.kind == y.kind && x.username == y.username && x.email == y.email
    && x.providerSubject == y.providerSubject && x.enabled == y.enabled
    && (x.passwordHash == "" <==> y.passwordHash == "")
  }

  ghost predicate AlikeAll(xs: seq<Identity>, ys: seq<Identity>) {
    |xs| == |ys| && forall i :: 0 <= i < |xs| ==> AlikeIdentities(xs[i], ys[i])
  }

  predicate AlikeAccount(a: Account, b: Account) {
    a.(identities := b.identities) == b
  }

  ghost predicate Alike(xs: seq<Account>, ys: seq<Account>) {
    && |xs| == |ys|
    && forall i :: 0 <= i < |xs| ==> AlikeAccount(xs[i], ys[i]) && AlikeAll(xs[i].identities, ys[i].identities)
  }

  lemma AlikeConcat(xs: seq<Identity>, ys: seq<Identity>, us: seq<Identity>, vs: seq<Identity>)
    requires AlikeAll(xs, ys) && AlikeAll(us, vs)
    ensures AlikeAll(xs + us, ys + vs)
  {
  }

  lemma {:induction false} AlikeIdentityLists(xs: seq<Account>, ys: seq<Account>)
    requires Alike(xs, ys)
    ensures AlikeAll(AllIdentities(xs), AllIdentities(ys))
  {
    if xs != [] {
      var n := |xs| - 1;
      AlikeIdentityLists(xs[..n], ys[..n]);
      AlikeConcat(AllIdentities(xs[..n]), AllIdentities(ys[..n]), xs[n].identities, ys[n].identities);
    }
  }

  lemma AlikeIdentitiesOk(xs: seq<Identity>, ys: seq<Identity>, policy: Policy)
    requires AlikeAll(xs, ys) && IdentitiesOk(xs, policy)
    ensures IdentitiesOk(ys, policy)
  {
    forall i | 0 <= i < |ys| ensures Complete(ys[i], policy) { assert Complete(xs[i], policy); }
    forall i, j | 0 <= i < j < |ys| ensures !Clash(ys[i], ys[j], policy) { assert !Clash(xs[i], xs[j], policy); }
  }

  lemma AlikeAdministrator(xs: seq<Account>, ys: seq<Account>)
    requires Alike(xs, ys) && HasAdministrator(xs)
    ensures HasAdministrator(ys)
  {
    var i :| 0 <= i < |xs| && PasswordAdministrator(xs[i]);
    var x :| x in xs[i].identities && x.kind == "password" && x.enabled;
    var j :| 0 <= j < |xs[i].identities| && xs[i].identities[j] == x;
    assert AlikeIdentities(x, ys[i].identities[j]) && ys[i].identities[j] in ys[i].identities;
    assert PasswordAdministrator(ys[i]);
  }

  lemma AlikeValid(users: AccountsFile, accounts: seq<Account>, roles: RolesFile, policy: Policy)
    requires ValidDocument(users, roles, policy) && Alike(users.accounts, accounts)
    ensures ValidDocument(users.(accounts := accounts), roles, policy)
  {
    AlikeIdentityLists(users.accounts, accounts);
    AlikeIdentitiesOk(AllIdentities(users.accounts), AllIdentities(accounts), policy);
    forall i | 0 <= i < |accounts| ensures AccountOk(accounts[i], RoleIds(roles.roles)) {
      assert AccountOk(users.accounts[i], RoleIds(roles.roles)) && AlikeAccount(users.accounts[i], accounts[i]);
    }
    forall i, j | 0 <= i < j < |accounts| ensures accounts[i].id != accounts[j].id {
      assert AlikeAccount(users.accounts[i], accounts[i]) && AlikeAccount(users.accounts[j], accounts[j]);
    }
    if accounts != [] { AlikeAdministrator(users.accounts, accounts); }
  }

  /** A change of password, of the second factor or of the recovery codes keeps every valid document
      valid: checking it again can only succeed, and leaving the check out costs nothing. */
  lemma CredentialEditsValid(users: AccountsFile, roles: RolesFile, policy: Policy,
                             accountId: string, identityId: string, e: IdentityEdit)
    requires ValidDocument(users, roles, policy)
    requires !e.SetEnabled?
    requires e.SetHash? ==> e.hash != ""
    ensures ValidDocument(users.(accounts := Revise(users.accounts, accountId, Within(identityId, e))), roles, policy)
  {
    var accounts := users.accounts;
    var next := Revise(accounts, accountId, Within(identityId, e));
    forall i | 0 <= i < |accounts| ensures AlikeAll(accounts[i].identities, next[i].identities) {
      EditAlike(users, roles, policy, i, identityId, e);
    }
    AlikeValid(users, next, roles, policy);
  }

  lemma EditAlike(users: AccountsFile, roles: RolesFile, policy: Policy, i: nat, identityId: string, e: IdentityEdit)
    requires ValidDocument(users, roles, policy) && i < |users.accounts|
    requires !e.SetEnabled?
    requires e.SetHash? ==> e.hash != ""
    ensures AlikeAll(users.accounts[i].identities, Edited(users.accounts[i].identities, identityId, e))
  {
    var xs := users.accounts[i].identities;
    OwnIdentities(users.accounts, i, policy);
    forall k | 0 <= k < |xs| ensures AlikeIdentities(xs[k], Edited(xs, identityId, e)[k]) { assert Complete(xs[k], policy); }
  }

  /** The identities of one account of a valid document are valid by themselves. */
  lemma {:induction false} OwnIdentities(accounts: seq<Account>, i: nat, policy: Policy)
    requires i < |accounts| && IdentitiesOk(AllIdentities(accounts), policy)
    ensures IdentitiesOk(accounts[i].identities, policy)
  {
    var n := |accounts| - 1;
    var earlier, own := AllIdentities(accounts[..n]), accounts[n].identities;
    if i == n {
      forall k | 0 <= k < |own| ensures Complete(own[k], policy) { assert (earlier + own)[|earlier| + k] == own[k]; }
      forall k, l | 0 <= k < l < |own| ensures !Clash(own[k], own[l], policy) {
        assert (earlier + own)[|earlier| + k] == own[k] && (earlier + own)[|earlier| + l] == own[l];
      }
    } else {
      IdentitiesPrefix(earlier, own, policy);
      OwnIdentities(accounts[..n], i, policy);
    }
  }

  // ----- Roles ----------------------------------------------------------------------------------

  predicate ById(r: Role, s: Role) { Text.Less(r.id, s.id) }

  lemma ByIdIsOrder()
    ensures StrictWeakOrder(ById)
  {
    LessIsOrder();
  }

  /** The role list with one role set, before sorting. */
  function PutRole(roles: seq<Role>, id: string, name: string, capabilities: seq<string>, builtIn: bool): seq<Role> {
    if exists r :: r in roles && r.id == id
    then seq(|roles|, i requires 0 <= i < |roles| =>
      if roles[i].id == id then roles[i].(name := name, capabilities := Dedupe(capabilities)) else roles[i])
    else roles + [Role(id, name, Dedupe(capabilities), builtIn)]
  }

  lemma SortedRoles(roles: seq<Role>, sorted: seq<Role>)
    requires multiset(roles) == multiset(sorted)
    requires forall i, j :: 0 <= i < j < |roles| ==> roles[i].id != roles[j].id
    ensures forall i, j :: 0 <= i < j < |sorted| ==> sorted[i].id != sorted[j].id
    ensures forall r :: r in sorted <==> r in roles
    ensures RoleIds(sorted) == RoleIds(roles)
  {
    forall r ensures r in sorted <==> r in roles { assert r in multiset(sorted) <==> r in multiset(roles); }
    PermutedDistinct(roles, sorted);
    forall i, j | 0 <= i < j < |sorted| ensures sorted[i].id != sorted[j].id {
      assert sorted[i] in roles && sorted[j] in roles && sorted[i] != sorted[j];
    }
  }

  lemma PutRoleIds(roles: seq<Role>, id: string, name: string, capabilities: seq<string>, builtIn: bool)
    requires forall i, j :: 0 <= i < j < |roles| ==> roles[i].id != roles[j].id
    ensures var next := PutRole(roles, id, name, capabilities, builtIn);
      && (forall i, j :: 0 <= i < j < |next| ==> next[i].id != next[j].id)
      && RoleIds(next) == RoleIds(roles) + {id}
  {
    var next := PutRole(roles, id, name, capabilities, builtIn);
    if r :| r in roles && r.id == id {
      SameIds(roles, next);
      assert id in RoleIds(roles);
    } else {
      assert forall s :: s in next <==> s in roles || s == next[|roles|];
    }
  }

  lemma SameIds(roles: seq<Role>, next: seq<Role>)
    requires |roles| == |next| && forall k :: 0 <= k < |roles| ==> roles[k].id == next[k].id
    ensures RoleIds(next) == RoleIds(roles)
  {
    forall id ensures id in RoleIds(next) <==> id in RoleIds(roles) {
      if id in RoleIds(roles) {
        var i :| 0 <= i < |roles| && roles[i].id == id;
        assert next[i] in next;
      }
      if id in RoleIds(next) {
        var i :| 0 <= i < |next| && next[i].id == id;
        assert roles[i] in roles;
      }
    }
  }

  lemma PutRoleAbsent(roles: seq<Role>, id: string, name: string, capabilities: seq<string>, builtIn: bool)
    requires forall k :: 0 <= k < |roles| ==> roles[k].id != id
    ensures PutRole(roles, id, name, capabilities, builtIn) == roles + [Role(id, name, Dedupe(capabilities), builtIn)]
  {
  }

  lemma PutRoleAt(roles: seq<Role>, i: nat, name: string, capabilities: seq<string>, builtIn: bool)
    requires i < |roles| && forall j, k :: 0 <= j < k < |roles| ==> roles[j].id != roles[k].id
    ensures PutRole(roles, roles[i].id, name, capabilities, builtIn) ==
      roles[i := roles[i].(name := name, capabilities := Dedupe(capabilities))]
  {
    assert roles[i] in roles;
  }

  /** The product knows every capability, and the administrator role keeps all of its own. */
  predicate RoleAllowed(policy: Policy, id: string, capabilities: seq<string>) {
    && (id == ADMINISTRATOR ==> Dedupe(capabilities) == ["*"])
    && (policy.knownCapability.Some? ==>
          forall c :: c in Dedupe(capabilities) && c != "*" ==> policy.knownCapability.value(c))
  }

  /** Setting a role of a valid document is refused exactly when it names a capability that the
      product does not know, or would take anything away from the administrator role: no account can
      be in the way. */
  lemma SetRoleExactly(users: AccountsFile, roles: RolesFile, policy: Policy, sorted: seq<Role>,
                       id: string, name: string, capabilities: seq<string>, builtIn: bool)
    requires ValidDocument(users, roles, policy) && id != ""
    requires multiset(sorted) == multiset(PutRole(roles.roles, id, name, capabilities, builtIn))
    ensures ValidDocument(users, roles.(roles := sorted), policy) <==> RoleAllowed(policy, id, capabilities)
  {
    var next := PutRole(roles.roles, id, name, capabilities, builtIn);
    PutRoleIds(roles.roles, id, name, capabilities, builtIn);
    SortedRoles(next, sorted);
    var r := TheRole(roles.roles, id, name, capabilities, builtIn);
    assert forall a, b: set<string> :: a <= b ==> forall x: Account :: AccountOk(x, a) ==> AccountOk(x, b);
    assert AccountsOk(users.accounts, RoleIds(sorted), policy);
    assert r in sorted;
    if RoleOk(r, policy) {
      forall s | s in sorted ensures RoleOk(s, policy) {
        assert s in next;
        if s.id == id { SameId(next, r, s); }
      }
    }
  }

  lemma SameId(roles: seq<Role>, r: Role, s: Role)
    requires r in roles && s in roles && r.id == s.id
    requires forall i, j :: 0 <= i < j < |roles| ==> roles[i].id != roles[j].id
    ensures r == s
  {
    var i :| 0 <= i < |roles| && roles[i] == r;
    var j :| 0 <= j < |roles| && roles[j] == s;
  }

  /** The role that PutRole has set; all others were there. */
  lemma TheRole(roles: seq<Role>, id: string, name: string, capabilities: seq<string>, builtIn: bool) returns (r: Role)
    ensures var next := PutRole(roles, id, name, capabilities, builtIn);
      && r in next && r.id == id && r.name == name && r.capabilities == Dedupe(capabilities)
      && forall s :: s in next && s.id != id ==> s in roles
  {
    var next := PutRole(roles, id, name, capabilities, builtIn);
    if i :| 0 <= i < |roles| && roles[i].id == id {
      assert roles[i] in roles;
      r := next[i];
      forall s | s in next && s.id != id ensures s in roles {
        var k :| 0 <= k < |next| && next[k] == s;
        assert roles[k] == s;
      }
    } else {
      assert forall s :: s in roles ==> s.id != id;
      r := next[|roles|];
    }
  }

  // ----- The last login -------------------------------------------------------------------------

  predicate LoginCapable(x: Identity) { x.kind == "password" || x.kind == "google" }

  function Logins(xs: seq<Identity>): nat {
    if xs == [] then 0 else Logins(xs[..|xs| - 1]) + if LoginCapable(xs[|xs| - 1]) then 1 else 0
  }

  lemma {:induction false} LoginsConcat(xs: seq<Identity>, ys: seq<Identity>)
    ensures Logins(xs + ys) == Logins(xs) + Logins(ys)
  {
    if ys == [] {
      assert xs + ys == xs;
    } else {
      var n := |ys| - 1;
      LoginsConcat(xs, ys[..n]);
      assert (xs + ys)[..|xs + ys| - 1] == xs + ys[..n];
    }
  }

  lemma {:induction false} WithoutAbsent(xs: seq<Identity>, id: string)
    requires forall x :: x in xs ==> x.id != id
    ensures Without(xs, id) == xs
  {
    if xs != [] {
      WithoutAbsent(xs[1..], id);
      assert xs == [xs[0]] + xs[1..];
    }
  }

  lemma TailConcat<T>(xs: seq<T>, ys: seq<T>)
    requires xs != []
    ensures (xs + ys)[0] == xs[0] && (xs + ys)[1..] == xs[1..] + ys
  {
  }

  lemma Associate<T>(a: seq<T>, b: seq<T>, c: seq<T>)
    ensures a + (b + c) == a + b + c
  {
  }

  lemma {:induction false} WithoutConcat(xs: seq<Identity>, ys: seq<Identity>, id: string)
    ensures Without(xs + ys, id) == Without(xs, id) + Without(ys, id)
  {
    if xs == [] {
      assert xs + ys == ys;
    } else {
      WithoutConcat(xs[1..], ys, id);
      TailConcat(xs, ys);
      if xs[0].id != id { Associate([xs[0]], Without(xs[1..], id), Without(ys, id)); }
    }
  }

  lemma WithoutMiddle(front: seq<Identity>, x: Identity, back: seq<Identity>)
    requires forall y :: y in front || y in back ==> y.id != x.id
    ensures Without(front + [x] + back, x.id) == front + back
  {
    WithoutConcat(front + [x], back, x.id);
    WithoutConcat(front, [x], x.id);
    WithoutAbsent(front, x.id);
    WithoutAbsent(back, x.id);
  }

  lemma LoginsMiddle(front: seq<Identity>, x: Identity, back: seq<Identity>)
    ensures Logins(front + [x] + back) == Logins(front + back) + if LoginCapable(x) then 1 else 0
  {
    LoginsConcat(front + [x], back);
    LoginsConcat(front, [x]);
    LoginsConcat(front, back);
    assert [x][..0] == [];
  }

  /** With distinct ids, taking out the identity at j is taking out its id. */
  lemma WithoutAt(xs: seq<Identity>, j: nat)
    requires j < |xs| && forall k, l :: 0 <= k < l < |xs| ==> xs[k].id != xs[l].id
    ensures Without(xs, xs[j].id) == xs[..j] + xs[j + 1..]
    ensures Logins(xs) == Logins(Without(xs, xs[j].id)) + if LoginCapable(xs[j]) then 1 else 0
  {
    var front, x, back := xs[..j], xs[j], xs[j + 1..];
    SplitAt(xs, j);
    OthersDiffer(xs, j);
    WithoutMiddle(front, x, back);
    LoginsMiddle(front, x, back);
  }

  lemma OthersDiffer(xs: seq<Identity>, j: nat)
    requires j < |xs| && forall k, l :: 0 <= k < l < |xs| ==> xs[k].id != xs[l].id
    ensures forall y :: y in xs[..j] || y in xs[j + 1..] ==> y.id != xs[j].id
  {
  }

  lemma SplitAt<T>(xs: seq<T>, j: nat)
    requires j < |xs|
    ensures xs == xs[..j] + [xs[j]] + xs[j + 1..]
  {
  }

  // ----- Recovery codes -------------------------------------------------------------------------

  /** One use takes away one stored copy of the code and nothing else. */
  lemma {:induction false} OneCopyUsed(codes: seq<string>, code: string)
    requires code in codes
    ensures multiset(WithoutFirst(codes, code)) == multiset(codes) - multiset{code}
  {
    Front(codes);
    if codes[0] != code { OneCopyUsed(codes[1..], code); }
  }

  lemma {:induction false} WithoutFirstAt(codes: seq<string>, i: nat)
    requires i < |codes| && codes[i] !in codes[..i]
    ensures WithoutFirst(codes, codes[i]) == codes[..i] + codes[i + 1..]
  {
    if i > 0 {
      assert codes[..i][0] == codes[0];
      assert codes[1..][..i - 1] == codes[..i][1..];
      WithoutFirstAt(codes[1..], i - 1);
      assert codes[..i] == [codes[0]] + codes[1..][..i - 1];
    }
  }
}

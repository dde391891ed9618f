/** What every account mutator changes, field by field, and which ids it needs: the meaning of the edits
    of AccountEdits, without them. */
module AccountEffects {
  import opened Wrappers
  import opened Sequences
  import opened Sorting
  import opened Accounts
  import opened Capabilities
  import opened AccountEdits
  import Text

  /** Position j of account i carries the two ids. */
  predicate Names(accounts: seq<Account>, i: nat, j: nat, accountId: string, identityId: string) {
    && i < |accounts| && j < |accounts[i].identities|
    && accounts[i].id == accountId && accounts[i].identities[j].id == identityId
  }

  predicate NamesPassword(accounts: seq<Account>, i: nat, j: nat, accountId: string, identityId: string) {
    Names(accounts, i, j, accountId, identityId) && accounts[i].identities[j].kind == "password"
  }

  predicate NamesCode(accounts: seq<Account>, i: nat, j: nat, accountId: string, identityId: string, code: string) {
    Names(accounts, i, j, accountId, identityId) && code in accounts[i].identities[j].recoveryCodes
  }

  /** Some position carries the two ids; that of a password; one where the code is stored. */
  ghost predicate IdentityNamed(accounts: seq<Account>, accountId: string, identityId: string) {
    exists i: nat, j: nat :: Names(accounts, i, j, accountId, identityId)
  }

  ghost predicate PasswordNamed(accounts: seq<Account>, accountId: string, identityId: string) {
    exists i: nat, j: nat :: NamesPassword(accounts, i, j, accountId, identityId)
  }

  ghost predicate CodeNamed(accounts: seq<Account>, accountId: string, identityId: string, code: string) {
    exists i: nat, j: nat :: NamesCode(accounts, i, j, accountId, identityId, code)
  }

  /** Identity by identity, nothing else differs. */
  ghost predicate Aligned(before: seq<Account>, after: seq<Account>) {
    && |before| == |after|
    && forall i :: 0 <= i < |before| ==>
      && |before[i].identities| == |after[i].identities|
      && before[i].(identities := after[i].identities) == after[i]
  }

  ghost predicate PasswordSet(before: seq<Account>, after: seq<Account>, accountId: string, identityId: string, hash: string) {
    && Aligned(before, after)
    && forall i: nat, j: nat :: i < |before| && j < |before[i].identities| ==>
      after[i].identities[j] ==
        if NamesPassword(before, i, j, accountId, identityId) then before[i].identities[j].(passwordHash := hash)
        else before[i].identities[j]
  }

  ghost predicate TotpSet(before: seq<Account>, after: seq<Account>, accountId: string, identityId: string,
                          totp: bool, codes: seq<string>)
  {
    && Aligned(before, after)
    && forall i: nat, j: nat :: i < |before| && j < |before[i].identities| ==>
      after[i].identities[j] ==
        if NamesPassword(before, i, j, accountId, identityId)
        then before[i].identities[j].(totpEnabled := totp, recoveryCodes := codes)
        else before[i].identities[j]
  }

  ghost predicate EnabledSet(before: seq<Account>, after: seq<Account>, accountId: string, identityId: string, on: bool) {
    && Aligned(before, after)
    && forall i: nat, j: nat :: i < |before| && j < |before[i].identities| ==>
      after[i].identities[j] ==
        if Names(before, i, j, accountId, identityId) then before[i].identities[j].(enabled := on)
        else before[i].identities[j]
  }

  /** ys is xs without its first code. */
  ghost predicate FirstGone(xs: seq<string>, ys: seq<string>, code: string) {
    exists k :: 0 <= k < |xs| && xs[k] == code && code !in xs[..k] && ys == xs[..k] + xs[k + 1..]
  }

  ghost predicate CodeUsed(before: seq<Account>, after: seq<Account>, accountId: string, identityId: string, code: string) {
    && Aligned(before, after)
    && forall i: nat, j: nat :: i < |before| && j < |before[i].identities| ==>
      var x, y := before[i].identities[j], after[i].identities[j];
      if NamesCode(before, i, j, accountId, identityId, code)
      then x.(recoveryCodes := y.recoveryCodes) == y && FirstGone(x.recoveryCodes, y.recoveryCodes, code)
      else x == y
  }

  /** Account by account. */
  ghost predicate ProfileSet(before: seq<Account>, after: seq<Account>, id: string, name: string, on: bool, roles: seq<string>) {
    && |before| == |after|
    && forall i :: 0 <= i < |before| ==>
      after[i] ==
        if before[i].id == id then before[i].(displayName := name, enabled := on, roles := roles) else before[i]
  }

  ghost predicate IdentityAdded(before: seq<Account>, after: seq<Account>, id: string, x: Identity) {
    && |before| == |after|
    && forall i :: 0 <= i < |before| ==>
      after[i] == if before[i].id == id then before[i].(identities := before[i].identities + [x]) else before[i]
  }

  /** xs without the one identity of that id. */
  ghost predicate TakenOut(xs: seq<Identity>, ys: seq<Identity>, id: string) {
    exists j :: 0 <= j < |xs| && xs[j].id == id && ys == xs[..j] + xs[j + 1..]
  }

  ghost predicate IdentityRemoved(before: seq<Account>, after: seq<Account>, accountId: string, identityId: string) {
    && |before| == |after|
    && forall i :: 0 <= i < |before| ==>
      if before[i].id == accountId
      then before[i].(identities := after[i].identities) == after[i]
           && TakenOut(before[i].identities, after[i].identities, identityId)
      else after[i] == before[i]
  }

  ghost predicate AccountDeleted(before: seq<Account>, after: seq<Account>, id: string) {
    exists i :: 0 <= i < |before| && before[i].id == id && after == before[..i] + before[i + 1..]
  }

  /** One account more, with one password to log in with. */
  ghost predicate AccountMade(before: seq<Account>, after: seq<Account>, accountId: string, identityId: string,
                              name: string, login: string, mail: string, roles: seq<string>, hash: string, now: int)
  {
    && |after| == |before| + 1 && after[..|before|] == before
    && var a := after[|before|];
       && a.id == accountId && a.displayName == name && a.enabled && a.roles == roles && a.createdAt == now
       && |a.identities| == 1
       && var x := a.identities[0];
          && x.id == identityId && x.kind == "password" && x.username == login && x.email == mail
          && x.passwordHash == hash && x.providerSubject == "" && x.enabled && !x.totpEnabled && x.recoveryCodes == []
  }

  /** One role has the given name and capabilities; whether it is built in never changes, and no other role does. */
  ghost predicate RoleSet(before: seq<Role>, after: seq<Role>, id: string, name: string, capabilities: seq<string>, builtIn: bool) {
    && (forall r :: r in before + after && r.id != id ==> r in before && r in after)
    && (forall i, j :: 0 <= i < j < |after| ==> Text.Precedes(after[i].id, after[j].id))
    && exists r :: r in after && r == Role(id, name, capabilities, r.builtIn) && MarkFrom(before, r, builtIn)
  }

  ghost predicate MarkFrom(before: seq<Role>, r: Role, builtIn: bool) {
    || (exists s :: s in before && s.id == r.id && s.builtIn == r.builtIn)
    || (r.builtIn == builtIn && forall s :: s in before ==> s.id != r.id)
  }

  // ----- The edits have these effects -----------------------------------------------------------

  lemma SetHashMeans(accounts: seq<Account>, accountId: string, identityId: string, hash: string)
    ensures PasswordSet(accounts, Revise(accounts, accountId, Within(identityId, SetHash(hash))), accountId, identityId, hash)
  {
  }

  lemma TakesPasswordMeans(accounts: seq<Account>, accountId: string, identityId: string, e: IdentityEdit)
    requires e.SetHash? || e.SetTotp?
    ensures Takes(accounts, accountId, identityId, e) <==> PasswordNamed(accounts, accountId, identityId)
  {
    if Takes(accounts, accountId, identityId, e) {
      var i, j := Taker(accounts, accountId, identityId, e);
      assert NamesPassword(accounts, i, j, accountId, identityId);
    }
    if i: nat, j: nat :| NamesPassword(accounts, i, j, accountId, identityId) {
      assert accounts[i] in accounts && accounts[i].identities[j] in accounts[i].identities;
    }
  }

  lemma Taker(accounts: seq<Account>, accountId: string, identityId: string, e: IdentityEdit) returns (i: nat, j: nat)
    requires Takes(accounts, accountId, identityId, e)
    ensures Names(accounts, i, j, accountId, identityId) && Applies(e, accounts[i].identities[j])
  {
    var a :| a in accounts && a.id == accountId && TakesIn(a.identities, identityId, e);
    i :| 0 <= i < |accounts| && accounts[i] == a;
    var x :| x in a.identities && x.id == identityId && Applies(e, x);
    j :| 0 <= j < |a.identities| && a.identities[j] == x;
  }

  lemma SetTotpMeans(accounts: seq<Account>, accountId: string, identityId: string, totp: bool, codes: seq<string>)
    ensures TotpSet(accounts, Revise(accounts, accountId, Within(identityId, SetTotp(totp, codes))), accountId, identityId, totp, codes)
  {
  }

  lemma SetEnabledMeans(accounts: seq<Account>, accountId: string, identityId: string, on: bool)
    ensures EnabledSet(accounts, Revise(accounts, accountId, Within(identityId, SetEnabled(on))), accountId, identityId, on)
  {
  }

  lemma HasIdentityMeans(accounts: seq<Account>, accountId: string, identityId: string)
    ensures HasIdentity(accounts, accountId, identityId) <==> IdentityNamed(accounts, accountId, identityId)
  {
    if HasIdentity(accounts, accountId, identityId) {
      assert Takes(accounts, accountId, identityId, SetEnabled(true)) by {
        var a :| a in accounts && a.id == accountId && exists x :: x in a.identities && x.id == identityId;
        assert TakesIn(a.identities, identityId, SetEnabled(true));
      }
      var i, j := Taker(accounts, accountId, identityId, SetEnabled(true));
    }
    if i: nat, j: nat :| Names(accounts, i, j, accountId, identityId) {
      assert accounts[i] in accounts && accounts[i].identities[j] in accounts[i].identities;
    }
  }

  lemma {:induction false} FirstGoes(codes: seq<string>, code: string)
    requires code in codes
    ensures FirstGone(codes, WithoutFirst(codes, code), code)
  {
    var k := FirstOf(codes, code);
    WithoutFirstAt(codes, k);
  }

  lemma {:induction false} FirstOf(codes: seq<string>, code: string) returns (k: nat)
    requires code in codes
    ensures k < |codes| && codes[k] == code && code !in codes[..k]
  {
    if codes[0] == code {
      k := 0;
    } else {
      k := FirstOf(codes[1..], code);
      k := k + 1;
      assert codes[..k] == [codes[0]] + codes[1..][..k - 1];
    }
  }

  lemma DropCodeMeans(accounts: seq<Account>, accountId: string, identityId: string, code: string)
    ensures CodeUsed(accounts, Revise(accounts, accountId, Within(identityId, DropCode(code))), accountId, identityId, code)
  {
    forall i: nat, j: nat | i < |accounts| && j < |accounts[i].identities| && NamesCode(accounts, i, j, accountId, identityId, code)
      ensures FirstGone(accounts[i].identities[j].recoveryCodes, WithoutFirst(accounts[i].identities[j].recoveryCodes, code), code)
    {
      FirstGoes(accounts[i].identities[j].recoveryCodes, code);
    }
  }

  lemma TakesCodeMeans(accounts: seq<Account>, accountId: string, identityId: string, code: string)
    ensures Takes(accounts, accountId, identityId, DropCode(code)) <==> CodeNamed(accounts, accountId, identityId, code)
  {
    if Takes(accounts, accountId, identityId, DropCode(code)) {
      var i, j := Taker(accounts, accountId, identityId, DropCode(code));
      assert NamesCode(accounts, i, j, accountId, identityId, code);
    }
    if i: nat, j: nat :| NamesCode(accounts, i, j, accountId, identityId, code) {
      assert accounts[i] in accounts && accounts[i].identities[j] in accounts[i].identities;
    }
  }

  lemma ProfileMeans(accounts: seq<Account>, id: string, displayName: string, on: bool, roles: seq<string>)
    ensures ProfileSet(accounts, Revise(accounts, id, Profile(displayName, on, roles)), id, Text.TrimSpace(displayName), on, Dedupe(roles))
  {
  }

  lemma AddMeans(accounts: seq<Account>, id: string, x: Identity)
    ensures IdentityAdded(accounts, Revise(accounts, id, Add(x)), id, x)
  {
  }

  lemma HasAccountMeans(accounts: seq<Account>, id: string)
    ensures HasAccount(accounts, id) <==> exists i :: 0 <= i < |accounts| && accounts[i].id == id
  {
    if i :| 0 <= i < |accounts| && accounts[i].id == id { assert accounts[i] in accounts; }
  }

  /** With distinct ids. */
  lemma RemoveMeans(accounts: seq<Account>, roleIds: set<string>, policy: Policy, accountId: string, identityId: string)
    requires AccountsOk(accounts, roleIds, policy) && HasIdentity(accounts, accountId, identityId)
    ensures IdentityRemoved(accounts, Revise(accounts, accountId, Remove(identityId)), accountId, identityId)
  {
    HasIdentityMeans(accounts, accountId, identityId);
    var i: nat, j: nat :| Names(accounts, i, j, accountId, identityId);
    OwnIdentities(accounts, i, policy);
    var xs := accounts[i].identities;
    forall k, l | 0 <= k < l < |xs| ensures xs[k].id != xs[l].id { assert !Clash(xs[k], xs[l], policy); }
    WithoutAt(xs, j);
    assert TakenOut(xs, Without(xs, identityId), identityId);
    forall k | 0 <= k < |accounts| && accounts[k].id == accountId ensures k == i {
    }
  }

  lemma PutRoleMeans(before: seq<Role>, after: seq<Role>, id: string, name: string, capabilities: seq<string>, builtIn: bool)
    requires forall i, j :: 0 <= i < j < |before| ==> before[i].id != before[j].id
    requires multiset(after) == multiset(PutRole(before, id, name, capabilities, builtIn)) && Sorted(ById, after)
    ensures RoleSet(before, after, id, name, Dedupe(capabilities), builtIn)
  {
    var next := PutRole(before, id, name, capabilities, builtIn);
    PutRoleIds(before, id, name, capabilities, builtIn);
    SortedRoles(next, after);
    InIdOrder(after);
    var r := RoleNow(before, id, name, capabilities, builtIn);
    assert r in after;
    forall s | s in before && s.id != id ensures s in next {
      var k :| 0 <= k < |before| && before[k] == s;
      assert next[k] == s;
    }
    var _ := TheRole(before, id, name, capabilities, builtIn);
  }

  lemma InIdOrder(roles: seq<Role>)
    requires Sorted(ById, roles) && forall i, j :: 0 <= i < j < |roles| ==> roles[i].id != roles[j].id
    ensures forall i, j :: 0 <= i < j < |roles| ==> Text.Precedes(roles[i].id, roles[j].id)
  {
    forall i, j | 0 <= i < j < |roles| ensures Text.Precedes(roles[i].id, roles[j].id) {
      assert !ById(roles[j], roles[i]);
      Text.LessTotal(roles[i].id, roles[j].id);
      Text.LessExactly(roles[i].id, roles[j].id);
    }
  }

  /** The role that is set, and where it has its built-in mark from. */
  lemma RoleNow(before: seq<Role>, id: string, name: string, capabilities: seq<string>, builtIn: bool) returns (r: Role)
    ensures r in PutRole(before, id, name, capabilities, builtIn)
    ensures r == Role(id, name, Dedupe(capabilities), r.builtIn) && MarkFrom(before, r, builtIn)
  {
    var next := PutRole(before, id, name, capabilities, builtIn);
    if i :| 0 <= i < |before| && before[i].id == id {
      assert before[i] in before;
      r := next[i];
    } else {
      assert forall s :: s in before ==> s.id != id;
      r := next[|before|];
    }
  }
}

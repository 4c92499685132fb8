/** The role filter: a case-sensitive substring of the role ARN given on the command line. */
module RoleFilter {
  import opened Catalog
  import Strings

  /** `[x for x in roles if filter in x["arn"]]`. */
  function KeepRoles(roles: seq<Role>, filter: string): (kept: seq<Role>)
    ensures |kept| <= |roles|
    ensures forall k :: 0 <= k < |kept| ==> kept[k] in roles && Strings.Contains(kept[k].arn, filter)
  {
    if roles == [] then []
    else
      var last := roles[|roles| - 1];
      KeepRoles(roles[..|roles| - 1], filter) + if Strings.Contains(last.arn, filter) then [last] else []
  }

  /** The account reduced to its surviving roles. */
  function Reduced(account: Account, filter: string): Account {
    account.(roles := KeepRoles(account.roles, filter))
  }

  /** Some role of the account survives the filter. */
  predicate Survives(account: Account, filter: string) {
    KeepRoles(account.roles, filter) != []
  }

  /** An account with its surviving roles, dropped when none survives. */
  function KeepAccount(account: Account, filter: string): seq<Account> {
    if Survives(account, filter) then [Reduced(account, filter)] else []
  }

  /** The catalog after a non-empty filter. */
  function Filtered(accounts: seq<Account>, filter: string): seq<Account> {
    if accounts == [] then []
    else Filtered(accounts[..|accounts| - 1], filter) + KeepAccount(accounts[|accounts| - 1], filter)
  }

  lemma {:induction false} KeepRolesAppend(a: seq<Role>, b: seq<Role>, filter: string)
    ensures KeepRoles(a + b, filter) == KeepRoles(a, filter) + KeepRoles(b, filter)
    decreases |b|
  {
    if b == [] {
      assert a + b == a;
    } else {
      var n := |b| - 1;
      assert (a + b)[..|a + b| - 1] == a + b[..n];
      KeepRolesAppend(a, b[..n], filter);
    }
  }

  /** The kept roles are exactly the roles whose ARN contains the filter. */
  lemma {:induction false} KeepRolesExactly(roles: seq<Role>, filter: string)
    ensures forall r :: r in KeepRoles(roles, filter) <==> r in roles && Strings.Occurs(filter, r.arn)
    decreases |roles|
  {
    if roles != [] {
      var n := |roles| - 1;
      KeepRolesExactly(roles[..n], filter);
      Strings.ContainsOccurs(roles[n].arn, filter);
      assert roles == roles[..n] + [roles[n]];
      forall r ensures r in roles <==> r in roles[..n] || r == roles[n] {
      }
      forall r | r == roles[n] ensures Strings.Contains(r.arn, filter) <==> Strings.Occurs(filter, r.arn) {
      }
    }
  }

  /** Nothing but the filter decides: the menu after filtering is the old menu with the
      roles whose ARN does not contain the filter taken out, the rest in their order. */
  lemma {:induction false} FlattenFiltered(accounts: seq<Account>, filter: string)
    ensures Flatten(Filtered(accounts, filter)) == KeepRoles(Flatten(accounts), filter)
    decreases |accounts|
  {
    if accounts != [] {
      var n := |accounts| - 1;
      var front := accounts[..n];
      FlattenFiltered(front, filter);
      var tail := KeepAccount(accounts[n], filter);
      FlattenAppend(Filtered(front, filter), tail);
      KeepRolesAppend(Flatten(front), accounts[n].roles, filter);
      if Survives(accounts[n], filter) {
        assert tail[..0] == [];
      }
    }
  }

  /** Every kept account has a role, and every role kept contains the filter. */
  lemma {:induction false} FilteredNonEmpty(accounts: seq<Account>, filter: string)
    ensures forall a :: a in Filtered(accounts, filter) ==>
              a.roles != [] && forall r :: r in a.roles ==> Strings.Occurs(filter, r.arn)
    decreases |accounts|
  {
    if accounts != [] {
      var n := |accounts| - 1;
      FilteredNonEmpty(accounts[..n], filter);
      KeepRolesExactly(accounts[n].roles, filter);
    }
  }

  /** Every kept account is an input account reduced to its surviving roles. */
  lemma {:induction false} FilteredSound(accounts: seq<Account>, filter: string)
    ensures forall a :: a in Filtered(accounts, filter) ==>
              exists i :: 0 <= i < |accounts| && Survives(accounts[i], filter) &&
                          a == Reduced(accounts[i], filter)
    decreases |accounts|
  {
    if accounts != [] {
      var n := |accounts| - 1;
      var front := accounts[..n];
      FilteredSound(front, filter);
      var last := KeepAccount(accounts[n], filter);
      assert Filtered(accounts, filter) == Filtered(front, filter) + last;
      forall a | a in Filtered(accounts, filter)
        ensures exists i :: 0 <= i < |accounts| && Survives(accounts[i], filter) &&
                            a == Reduced(accounts[i], filter)
      {
        if a in Filtered(front, filter) {
          var i :| 0 <= i < |front| && Survives(front[i], filter) && a == Reduced(front[i], filter);
          assert front[i] == accounts[i];
          assert 0 <= i < |accounts| && Survives(accounts[i], filter) && a == Reduced(accounts[i], filter);
        } else {
          assert a in last;
          assert Survives(accounts[n], filter) && a == Reduced(accounts[n], filter);
        }
      }
    }
  }

  /** Every input account with a surviving role is kept, reduced to its surviving roles;
      the others are the ones removed. */
  lemma {:induction false} FilteredComplete(accounts: seq<Account>, filter: string)
    ensures forall i :: 0 <= i < |accounts| && Survives(accounts[i], filter) ==>
              Reduced(accounts[i], filter) in Filtered(accounts, filter)
    decreases |accounts|
  {
    if accounts != [] {
      var n := |accounts| - 1;
      var front := accounts[..n];
      FilteredComplete(front, filter);
      forall i | 0 <= i < n && Survives(accounts[i], filter)
        ensures Reduced(accounts[i], filter) in Filtered(accounts, filter)
      {
        assert front[i] == accounts[i];
        assert Reduced(front[i], filter) in Filtered(front, filter);
      }
    }
  }

  lemma FilteredStep(accounts: seq<Account>, k: nat, filter: string)
    requires k < |accounts|
    ensures Filtered(accounts[..k + 1], filter) == Filtered(accounts[..k], filter) + KeepAccount(accounts[k], filter)
  {
    assert accounts[..k + 1][..k] == accounts[..k];
  }

  lemma KeepRolesStep(roles: seq<Role>, k: nat, filter: string)
    requires k < |roles|
    ensures KeepRoles(roles[..k + 1], filter) ==
              KeepRoles(roles[..k], filter) + if Strings.Contains(roles[k].arn, filter) then [roles[k]] else []
  {
    assert roles[..k + 1][..k] == roles[..k];
  }

  /** The inner comprehension `[x for x in roles if filter in x["arn"]]` as a loop. */
  method KeepMatching(roles: seq<Role>, filter: string) returns (kept: seq<Role>)
    ensures kept == KeepRoles(roles, filter)
  {
    kept := [];
    var j := 0;
    while j < |roles|
      invariant 0 <= j <= |roles|
      invariant kept == KeepRoles(roles[..j], filter)
    {
      KeepRolesStep(roles, j, filter);
      if Strings.Contains(roles[j].arn, filter) {
        kept := kept + [roles[j]];
      }
      j := j + 1;
    }
    assert roles[..j] == roles;
  }

  /** The filter block: with an empty filter the catalog and `num_roles` stay as they are;
      otherwise each account keeps the roles whose ARN contains the filter, accounts left
      without a role are dropped, and `num_roles` is recounted over what is kept. */
  method FilterAccounts(accounts: seq<Account>, numRoles: nat, filter: string)
    returns (kept: seq<Account>, count: nat)
    ensures filter == "" ==> kept == accounts && count == numRoles
    ensures filter != "" ==> kept == Filtered(accounts, filter) && count == |Flatten(kept)|
  {
    if filter == "" {
      return accounts, numRoles;
    }
    kept, count := [], 0;
    var i := 0;
    while i < |accounts|
      invariant 0 <= i <= |accounts|
      invariant kept == Filtered(accounts[..i], filter)
      invariant count == |Flatten(kept)|
    {
      FilteredStep(accounts, i, filter);
      var account := accounts[i];
      var roles := KeepMatching(account.roles, filter);
      if |roles| > 0 {
        var reduced := account.(roles := roles);
        assert [reduced] == KeepAccount(account, filter);
        FlattenSnoc(kept, reduced);
        count := count + |roles|;
        kept := kept + [reduced];
      }
      i := i + 1;
    }
    assert accounts[..i] == accounts;
  }
}

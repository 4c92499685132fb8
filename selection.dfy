/** Choosing the role to assume: the three-way branch on `num_roles`. */
module RoleSelection {
  import opened Wrappers
  import opened Catalog

  /** Reading `role['arn']` and `role['principal']` of the chosen role: the principal is
      only there when the merge set it, otherwise the lookup raises. */
  function Take(role: Role): (o: Outcome)
    ensures o.Chosen? <==> role.principal.Some?
    ensures o.Chosen? ==> o.roleArn == role.arn && role.principal == Some(o.principalArn)
    ensures !o.Chosen? ==> o == Raised(MissingPrincipal)
  {
    match role.principal
    case Some(p) => Chosen(role.arn, p)
    case None => Raised(MissingPrincipal)
  }

  /** A line of the menu shown to the user: the number to type and the role it stands for. */
  datatype MenuLine = MenuLine(number: nat, role: Role)

  /** The menu loop: the roles of every account, in page order, numbered from 0 with one
      counter that runs on across accounts. */
  method NumberedMenu(accounts: seq<Account>) returns (menu: seq<MenuLine>)
    ensures |menu| == |Flatten(accounts)|
    ensures forall k :: 0 <= k < |menu| ==> menu[k] == MenuLine(k, Flatten(accounts)[k])
  {
    menu := [];
    var i := 0;
    var a := 0;
    while a < |accounts|
      invariant 0 <= a <= |accounts|
      invariant i == |menu| == |Flatten(accounts[..a])|
      invariant forall k :: 0 <= k < i ==> menu[k] == MenuLine(k, Flatten(accounts[..a])[k])
    {
      FlattenStep(accounts, a);
      var roles := accounts[a].roles;
      for j := 0 to |roles|
        invariant i == |menu| == |Flatten(accounts[..a])| + j
        invariant forall k :: 0 <= k < i ==> menu[k] == MenuLine(k, (Flatten(accounts[..a]) + roles)[k])
      {
        menu := menu + [MenuLine(i, roles[j])];
        i := i + 1;
      }
      a := a + 1;
    }
    assert accounts[..a] == accounts;
  }

  /** The selection: several roles are offered as the numbered menu and the typed number
      picks one (a number that is not on the menu exits, a text that is not a number
      raises as soon as it is compared); one role is taken from the first account without
      asking; none quits. `choice` is the typed text read as an integer, absent when it
      does not read as one. */
  method SelectRole(accounts: seq<Account>, numRoles: nat, choice: Option<int>)
    returns (outcome: Outcome)
    ensures numRoles == 0 ==> outcome == NoRolesReturned
    ensures numRoles == 1 ==>
              outcome == if accounts == [] || accounts[0].roles == [] then Raised(NoSuchRole)
                         else Take(accounts[0].roles[0])
    ensures numRoles > 1 && choice.Some? && 0 <= choice.value < |Flatten(accounts)| ==>
              outcome == Take(Flatten(accounts)[choice.value])
    ensures numRoles > 1 && choice.Some? && !(0 <= choice.value < |Flatten(accounts)|) ==>
              outcome == InvalidSelection
    ensures numRoles > 1 && choice.None? ==>
              outcome == if Flatten(accounts) == [] then InvalidSelection else Raised(NotAnInteger)
  {
    if numRoles > 1 {
      var selected: Option<Role> := None;
      var i := 0;
      var a := 0;
      while a < |accounts|
        invariant 0 <= a <= |accounts|
        invariant i == |Flatten(accounts[..a])| <= |Flatten(accounts)|
        invariant choice.None? ==> i == 0
        invariant selected == if choice.Some? && 0 <= choice.value < i
                              then Some(Flatten(accounts)[choice.value]) else None
      {
        var roles := accounts[a].roles;
        FlattenStep(accounts, a);
        FlattenPrefix(accounts, a + 1);
        var j := 0;
        while j < |roles|
          invariant 0 <= j <= |roles|
          invariant i == |Flatten(accounts[..a])| + j <= |Flatten(accounts)|
          invariant choice.None? ==> i == 0
          invariant selected == if choice.Some? && 0 <= choice.value < i
                                then Some(Flatten(accounts)[choice.value]) else None
        {
          FlattenIndex(accounts, a, j);
          if choice.None? {
            return Raised(NotAnInteger);
          }
          if choice.value == i {
            selected := Some(roles[j]);
          }
          i := i + 1;
          j := j + 1;
        }
        a := a + 1;
      }
      assert accounts[..a] == accounts;
      outcome := if selected.None? then InvalidSelection else Take(selected.value);
    } else if numRoles == 1 {
      if accounts == [] || accounts[0].roles == [] {
        outcome := Raised(NoSuchRole);
      } else {
        outcome := Take(accounts[0].roles[0]);
      }
    } else {
      outcome := NoRolesReturned;
    }
  }
}

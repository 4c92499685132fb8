/** The role resolution as the program runs it: scrape the role picker page, merge the
    assertion's principals, apply the filter, select; its outcome either names the role to
    assume or ends the program. */
module Pipeline {
  import opened Wrappers
  import opened Catalog
  import Strings
  import RoleDirectory
  import PrincipalMerge
  import RoleFilter
  import RoleSelection

  /** A role of the merged menu that has a principal was scraped with the same ARN, and its
      principal is the one the last pair naming that ARN gave. */
  lemma MergedRoleOrigin(blocks: seq<RoleDirectory.AccountBlock>, pairs: seq<PrincipalMerge.RolePair>,
                         role: Role)
    requires role in PrincipalMerge.OverrideAll(Flatten(RoleDirectory.Scraped(blocks)), pairs)
    requires role.principal.Some?
    ensures exists r :: r in Flatten(RoleDirectory.Scraped(blocks)) && r.arn == role.arn
    ensures PrincipalMerge.LastPrincipal(pairs, role.arn) == role.principal
  {
    var scraped := Flatten(RoleDirectory.Scraped(blocks));
    var all := PrincipalMerge.OverrideAll(scraped, pairs);
    var k :| 0 <= k < |all| && all[k] == role;
    RoleDirectory.ScrapedNoPrincipal(blocks);
    assert scraped[k] in scraped;
  }

  /** Some role of the menu has an ARN containing the filter. */
  ghost predicate AnyMatches(roles: seq<Role>, filter: string) {
    exists r :: r in roles && Strings.Occurs(filter, r.arn)
  }

  /** Merging changes no ARN, so a filter matches the merged menu exactly when it matches
      the scraped one. */
  lemma MergeKeepsMatches(roles: seq<Role>, pairs: seq<PrincipalMerge.RolePair>, filter: string)
    ensures AnyMatches(PrincipalMerge.OverrideAll(roles, pairs), filter) <==> AnyMatches(roles, filter)
  {
    var all := PrincipalMerge.OverrideAll(roles, pairs);
    if AnyMatches(all, filter) {
      var r :| r in all && Strings.Occurs(filter, r.arn);
      var k :| 0 <= k < |all| && all[k] == r;
      assert roles[k] in roles;
    }
    if AnyMatches(roles, filter) {
      var r :| r in roles && Strings.Occurs(filter, r.arn);
      var k :| 0 <= k < |roles| && roles[k] == r;
      assert all[k] in all;
    }
  }

  /** The role catalog pipeline from the parsed broker page and assertion to the outcome. */
  method ResolveRole(blocks: seq<RoleDirectory.AccountBlock>, attrs: seq<PrincipalMerge.Attribute>,
                     filter: string, choice: Option<int>)
    returns (outcome: Outcome)
    // a role value that does not split into two names ends the run before anything else
    ensures PrincipalMerge.ParsePairs(PrincipalMerge.RoleValues(attrs)).Failure? ==>
              outcome == Raised(MalformedRoleValue(PrincipalMerge.ParsePairs(PrincipalMerge.RoleValues(attrs)).error))
    // a chosen role was scraped, survived the filter, and carries the assertion's last principal for it
    ensures outcome.Chosen? ==>
              PrincipalMerge.ParsePairs(PrincipalMerge.RoleValues(attrs)).Success? &&
              (exists r :: r in Flatten(RoleDirectory.Scraped(blocks)) && r.arn == outcome.roleArn) &&
              (filter == "" || Strings.Occurs(filter, outcome.roleArn)) &&
              PrincipalMerge.LastPrincipal(PrincipalMerge.ParsePairs(PrincipalMerge.RoleValues(attrs)).value,
                                           outcome.roleArn) == Some(outcome.principalArn)
    // with a filter, the count is exact: the single-role branch always finds its role ...
    ensures filter != "" ==> outcome != Raised(NoSuchRole)
    // ... and "no roles" means that no scraped role matches the filter
    ensures filter != "" && PrincipalMerge.ParsePairs(PrincipalMerge.RoleValues(attrs)).Success? ==>
              (outcome == NoRolesReturned <==> !AnyMatches(Flatten(RoleDirectory.Scraped(blocks)), filter))
    // without a filter, "no roles" means the scrape counted no role at all
    ensures filter == "" && PrincipalMerge.ParsePairs(PrincipalMerge.RoleValues(attrs)).Success? ==>
              (outcome == NoRolesReturned <==> RoleDirectory.Counted(blocks) == 0)
  {
    var accounts, numRoles := RoleDirectory.Scrape(blocks);
    var merge := PrincipalMerge.MergeRoleAttributes(accounts, attrs);
    if merge.Failure? {
      return Raised(merge.error);
    }
    ghost var pairs := PrincipalMerge.ParsePairs(PrincipalMerge.RoleValues(attrs)).value;
    var merged := merge.value;
    var kept, count := RoleFilter.FilterAccounts(merged, numRoles, filter);
    outcome := RoleSelection.SelectRole(kept, count, choice);
    if filter != "" {
      FilteredCount(accounts, pairs, filter);
    }
    if outcome.Chosen? {
      ghost var role: Role;
      if count > 1 {
        role := Flatten(kept)[choice.value];
      } else {
        role := kept[0].roles[0];
        FlattenIndex(kept, 0, 0);
      }
      ChosenOrigin(blocks, pairs, filter, kept, role);
    }
  }

  /** With a filter, the recounted `num_roles` is 0 exactly when no scraped role matches,
      and when it is 1 the first kept account holds the role. */
  lemma FilteredCount(accounts: seq<Account>, pairs: seq<PrincipalMerge.RolePair>, filter: string)
    requires filter != ""
    ensures |Flatten(RoleFilter.Filtered(PrincipalMerge.MergeAll(accounts, pairs), filter))| == 0 <==>
              !AnyMatches(Flatten(accounts), filter)
    ensures |Flatten(RoleFilter.Filtered(PrincipalMerge.MergeAll(accounts, pairs), filter))| >= 1 ==>
              RoleFilter.Filtered(PrincipalMerge.MergeAll(accounts, pairs), filter) != [] &&
              RoleFilter.Filtered(PrincipalMerge.MergeAll(accounts, pairs), filter)[0].roles != []
  {
    var merged := PrincipalMerge.MergeAll(accounts, pairs);
    var kept := RoleFilter.Filtered(merged, filter);
    PrincipalMerge.FlattenMergeAll(accounts, pairs);
    RoleFilter.FlattenFiltered(merged, filter);
    RoleFilter.KeepRolesExactly(Flatten(merged), filter);
    RoleFilter.FilteredNonEmpty(merged, filter);
    MergeKeepsMatches(Flatten(accounts), pairs, filter);
    if |Flatten(kept)| == 0 {
      assert RoleFilter.KeepRoles(Flatten(merged), filter) == [];
    } else {
      assert Flatten(kept)[0] in RoleFilter.KeepRoles(Flatten(merged), filter);
      assert kept != [];
      assert kept[0] in kept;
    }
  }

  /** A role of the filtered, merged menu that has a principal comes from the scrape,
      matches a non-empty filter, and carries the last principal given for its ARN. */
  lemma ChosenOrigin(blocks: seq<RoleDirectory.AccountBlock>, pairs: seq<PrincipalMerge.RolePair>,
                     filter: string, kept: seq<Account>, role: Role)
    requires filter == "" ==> kept == PrincipalMerge.MergeAll(RoleDirectory.Scraped(blocks), pairs)
    requires filter != "" ==>
               kept == RoleFilter.Filtered(PrincipalMerge.MergeAll(RoleDirectory.Scraped(blocks), pairs), filter)
    requires role in Flatten(kept) && role.principal.Some?
    ensures exists r :: r in Flatten(RoleDirectory.Scraped(blocks)) && r.arn == role.arn
    ensures filter == "" || Strings.Occurs(filter, role.arn)
    ensures PrincipalMerge.LastPrincipal(pairs, role.arn) == role.principal
  {
    var accounts := RoleDirectory.Scraped(blocks);
    var merged := PrincipalMerge.MergeAll(accounts, pairs);
    PrincipalMerge.FlattenMergeAll(accounts, pairs);
    if filter != "" {
      RoleFilter.FlattenFiltered(merged, filter);
      RoleFilter.KeepRolesExactly(Flatten(merged), filter);
    }
    MergedRoleOrigin(blocks, pairs, role);
  }

  /** Without a filter `num_roles` is the scrape's count, which also counts roles read from
      blocks that failed later: here it is 1 while the only scraped account has no role,
      whatever the assertion merges into it. The single-role branch of `SelectRole` then
      looks up `accounts[0]["roles"][0]` and its contract gives `Raised(NoSuchRole)`. */
  lemma StaleCountExample(blocks: seq<RoleDirectory.AccountBlock>)
    requires blocks == [
               RoleDirectory.AccountBlock(Some("Account: a"), []),
               RoleDirectory.AccountBlock(Some("Account: b"),
                 [RoleDirectory.RoleBlock(Some("admin"), Some("arn:aws:iam::1:role/admin")),
                  RoleDirectory.RoleBlock(None, Some("arn:aws:iam::1:role/ops"))])]
    ensures RoleDirectory.Counted(blocks) == 1
    ensures RoleDirectory.Scraped(blocks) == [Account("a", [])]
    ensures forall pairs :: PrincipalMerge.MergeAll(RoleDirectory.Scraped(blocks), pairs) != [] &&
                            PrincipalMerge.MergeAll(RoleDirectory.Scraped(blocks), pairs)[0].roles == []
  {
    assert !Strings.Occurs(RoleDirectory.ACCOUNT_PREFIX, "a") by {
      forall i ensures !Strings.OccursAt(RoleDirectory.ACCOUNT_PREFIX, "a", i) {
      }
    }
    Strings.StripLeading(RoleDirectory.ACCOUNT_PREFIX, "a");
    assert RoleDirectory.ACCOUNT_PREFIX + "a" == "Account: a";
    assert !RoleDirectory.WellFormed(blocks[1]) by {
      assert !RoleDirectory.RoleReadable(blocks[1].roles[1]);
    }
    RoleDirectory.LeadingReadableAt(blocks[1].roles, 1);
    assert RoleDirectory.WellFormed(blocks[0]);
    assert RoleDirectory.AccountOf(blocks[0]) == Account("a", []);
    RoleDirectory.ScrapedStep(blocks, 0);
    RoleDirectory.ScrapedStep(blocks, 1);
    assert blocks[..2] == blocks;
    assert blocks[..0] == [];
    forall pairs
      ensures PrincipalMerge.MergeAll(RoleDirectory.Scraped(blocks), pairs) != [] &&
              PrincipalMerge.MergeAll(RoleDirectory.Scraped(blocks), pairs)[0].roles == []
    {
      PrincipalMerge.MergeAllMeaning(RoleDirectory.Scraped(blocks), pairs);
    }
  }
}

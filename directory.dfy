/** Scraping the federation broker's role picker page into the role catalog. The HTML
    parsing is not modelled: each account block arrives as the fields the scrape reads from
    it, each absent when the element (or attribute) the scrape looks for is missing. */
module RoleDirectory {
  import opened Wrappers
  import opened Catalog
  import Strings

  const ACCOUNT_PREFIX := "Account: "

  /** A `saml-role` block: the text of its `<label>` and the `value` of its `<input>`. */
  datatype RoleBlock = RoleBlock(labelText: Option<string>, arn: Option<string>)

  /** A `saml-account` block: the text of its `saml-account-name` element and its role
      blocks in page order. */
  datatype AccountBlock = AccountBlock(name: Option<string>, roles: seq<RoleBlock>)

  /** Reading a role block raises nothing. */
  predicate RoleReadable(b: RoleBlock) {
    b.labelText.Some? && b.arn.Some?
  }

  /** Reading the whole account block raises nothing. */
  predicate WellFormed(b: AccountBlock) {
    b.name.Some? && forall k :: 0 <= k < |b.roles| ==> RoleReadable(b.roles[k])
  }

  /** The account name with "Account: " removed (every occurrence, as `str.replace` does). */
  function AccountName(raw: string): string {
    Strings.RemoveAll(raw, ACCOUNT_PREFIX)
  }

  /** The role a readable role block yields; no principal yet. */
  function RoleOf(b: RoleBlock): (r: Role)
    requires RoleReadable(b)
    ensures r.arn == b.arn.value && r.name == b.labelText.value && r.principal == None
  {
    Role(b.arn.value, b.labelText.value, None)
  }

  /** The account a well-formed block yields: all of its roles, in order. */
  function AccountOf(b: AccountBlock): (a: Account)
    requires WellFormed(b)
    ensures a.name == AccountName(b.name.value) && |a.roles| == |b.roles|
    ensures forall k :: 0 <= k < |b.roles| ==> a.roles[k] == RoleOf(b.roles[k])
  {
    Account(AccountName(b.name.value), seq(|b.roles|, k requires 0 <= k < |b.roles| => RoleOf(b.roles[k])))
  }

  /** The accounts of the well-formed blocks, in page order; a block that raises part-way
      contributes nothing. */
  function Scraped(blocks: seq<AccountBlock>): seq<Account> {
    if blocks == [] then []
    else
      var last := blocks[|blocks| - 1];
      Scraped(blocks[..|blocks| - 1]) + if WellFormed(last) then [AccountOf(last)] else []
  }

  /** How many roles of a list are read before the first unreadable one. */
  function LeadingReadable(rs: seq<RoleBlock>): nat {
    if rs == [] || !RoleReadable(rs[0]) then 0 else 1 + LeadingReadable(rs[1..])
  }

  /** How much one block adds to `num_roles`: the roles read before a failure, none when
      the name already fails. */
  function CountedIn(b: AccountBlock): nat {
    if b.name.None? then 0 else LeadingReadable(b.roles)
  }

  /** The value of `num_roles` after the scrape loop. */
  function Counted(blocks: seq<AccountBlock>): nat {
    if blocks == [] then 0
    else Counted(blocks[..|blocks| - 1]) + CountedIn(blocks[|blocks| - 1])
  }

  lemma {:induction false} LeadingReadableAt(rs: seq<RoleBlock>, j: nat)
    requires j <= |rs|
    requires forall k :: 0 <= k < j ==> RoleReadable(rs[k])
    requires j == |rs| || !RoleReadable(rs[j])
    ensures LeadingReadable(rs) == j
    decreases j
  {
    if j > 0 {
      LeadingReadableAt(rs[1..], j - 1);
    }
  }

  lemma ScrapedStep(blocks: seq<AccountBlock>, i: nat)
    requires i < |blocks|
    ensures Scraped(blocks[..i + 1]) ==
              Scraped(blocks[..i]) + if WellFormed(blocks[i]) then [AccountOf(blocks[i])] else []
    ensures Counted(blocks[..i + 1]) == Counted(blocks[..i]) + CountedIn(blocks[i])
  {
    assert blocks[..i + 1][..i] == blocks[..i];
  }

  /** The inner loop over one block's roles: the roles read until the first that raises,
      and whether none raised. */
  method ReadRoles(block: AccountBlock) returns (roles: seq<Role>, read: nat, complete: bool)
    ensures read == LeadingReadable(block.roles) && read <= |block.roles|
    ensures forall k :: 0 <= k < read ==> RoleReadable(block.roles[k])
    ensures complete ==> read == |block.roles|
    ensures complete <==> forall k :: 0 <= k < |block.roles| ==> RoleReadable(block.roles[k])
    ensures |roles| == read && forall k :: 0 <= k < read ==> roles[k] == RoleOf(block.roles[k])
  {
    roles, read := [], 0;
    complete := true;
    while read < |block.roles| && complete
      invariant 0 <= read <= |block.roles|
      invariant forall k :: 0 <= k < read ==> RoleReadable(block.roles[k])
      invariant !complete ==> read < |block.roles| && !RoleReadable(block.roles[read])
      invariant |roles| == read && forall k :: 0 <= k < read ==> roles[k] == RoleOf(block.roles[k])
      decreases |block.roles| - read, complete
    {
      var roleBlock := block.roles[read];
      if roleBlock.labelText.Some? && roleBlock.arn.Some? {
        roles := roles + [Role(roleBlock.arn.value, roleBlock.labelText.value, None)];
        read := read + 1;
      } else {
        complete := false;
      }
    }
    LeadingReadableAt(block.roles, read);
  }

  /** The scrape loop of the page: reads every account block, keeps the ones that read
      without raising, and counts every role read, also in blocks that fail later. */
  method Scrape(blocks: seq<AccountBlock>) returns (accounts: seq<Account>, numRoles: nat)
    ensures accounts == Scraped(blocks)
    ensures numRoles == Counted(blocks)
  {
    accounts, numRoles := [], 0;
    var i := 0;
    while i < |blocks|
      invariant 0 <= i <= |blocks|
      invariant accounts == Scraped(blocks[..i])
      invariant numRoles == Counted(blocks[..i])
    {
      ScrapedStep(blocks, i);
      var block := blocks[i];
      if block.name.Some? {
        var name := AccountName(block.name.value);
        var roles, read, complete := ReadRoles(block);
        numRoles := numRoles + read;
        if complete {
          assert Account(name, roles) == AccountOf(block);
          accounts := accounts + [Account(name, roles)];
        }
      }
      i := i + 1;
    }
    assert blocks[..i] == blocks;
  }

  /** Every scraped role starts without a principal. */
  lemma {:induction false} ScrapedNoPrincipal(blocks: seq<AccountBlock>)
    ensures forall r :: r in Flatten(Scraped(blocks)) ==> r.principal == None
    decreases |blocks|
  {
    if blocks != [] {
      var n := |blocks| - 1;
      ScrapedNoPrincipal(blocks[..n]);
      var tail := if WellFormed(blocks[n]) then [AccountOf(blocks[n])] else [];
      FlattenAppend(Scraped(blocks[..n]), tail);
      if WellFormed(blocks[n]) {
        assert Flatten(tail) == AccountOf(blocks[n]).roles by { assert tail[..0] == []; }
      }
    }
  }

  /** No partial accounts: the scraped accounts are exactly the accounts of the well-formed
      blocks, each with all of its block's roles (their order is `Scraped`'s, and
      `ScrapeKeepsAll` states it when every block is well formed). */
  lemma {:induction false} ScrapedExactly(blocks: seq<AccountBlock>)
    ensures forall a :: a in Scraped(blocks) <==>
              exists i :: 0 <= i < |blocks| && WellFormed(blocks[i]) && a == AccountOf(blocks[i])
    decreases |blocks|
  {
    if blocks != [] {
      var n := |blocks| - 1;
      ScrapedExactly(blocks[..n]);
      forall a ensures a in Scraped(blocks) <==>
          exists i :: 0 <= i < |blocks| && WellFormed(blocks[i]) && a == AccountOf(blocks[i])
      {
        if a in Scraped(blocks[..n]) {
          var i :| 0 <= i < n && WellFormed(blocks[..n][i]) && a == AccountOf(blocks[..n][i]);
          assert blocks[..n][i] == blocks[i];
        }
        if exists i :: 0 <= i < |blocks| && WellFormed(blocks[i]) && a == AccountOf(blocks[i]) {
          var i :| 0 <= i < |blocks| && WellFormed(blocks[i]) && a == AccountOf(blocks[i]);
          if i < n {
            assert blocks[..n][i] == blocks[i];
          }
        }
      }
    }
  }

  /** Every account block reads without raising. */
  ghost predicate AllWellFormed(blocks: seq<AccountBlock>) {
    forall i :: 0 <= i < |blocks| ==> WellFormed(blocks[i])
  }

  /** When every block is well formed nothing is skipped: account i is block i's. */
  lemma {:induction false} ScrapeKeepsAll(blocks: seq<AccountBlock>)
    requires AllWellFormed(blocks)
    ensures |Scraped(blocks)| == |blocks|
    ensures forall i :: 0 <= i < |blocks| ==> Scraped(blocks)[i] == AccountOf(blocks[i])
    decreases |blocks|
  {
    if blocks != [] {
      var n := |blocks| - 1;
      var front := blocks[..n];
      assert AllWellFormed(front) by {
        forall i | 0 <= i < |front| ensures WellFormed(front[i]) {
          assert front[i] == blocks[i];
        }
      }
      ScrapeKeepsAll(front);
      var s := Scraped(blocks);
      assert s == Scraped(front) + [AccountOf(blocks[n])];
      forall i | 0 <= i < |blocks| ensures s[i] == AccountOf(blocks[i]) {
        if i < n {
          assert s[i] == Scraped(front)[i];
          assert front[i] == blocks[i];
        }
      }
    }
  }

  /** When every block is well formed, `num_roles` is the number of roles in the catalog. */
  lemma {:induction false} CountedAllWellFormed(blocks: seq<AccountBlock>)
    requires AllWellFormed(blocks)
    ensures Counted(blocks) == |Flatten(Scraped(blocks))|
    decreases |blocks|
  {
    if blocks != [] {
      var n := |blocks| - 1;
      var front := blocks[..n];
      var last := blocks[n];
      assert AllWellFormed(front) by {
        forall i | 0 <= i < |front| ensures WellFormed(front[i]) {
          assert front[i] == blocks[i];
        }
      }
      CountedAllWellFormed(front);
      assert WellFormed(last);
      LeadingReadableAt(last.roles, |last.roles|);
      var s := Scraped(blocks);
      assert s == Scraped(front) + [AccountOf(last)];
      assert s[..|s| - 1] == Scraped(front);
    }
  }

  /** In general `num_roles` is at least the number of roles in the catalog: it also counts
      the roles read from blocks that failed later. */
  lemma {:induction false} CountedCoversCatalog(blocks: seq<AccountBlock>)
    ensures Counted(blocks) >= |Flatten(Scraped(blocks))|
    decreases |blocks|
  {
    if blocks != [] {
      var n := |blocks| - 1;
      var last := blocks[n];
      CountedCoversCatalog(blocks[..n]);
      if WellFormed(last) {
        LeadingReadableAt(last.roles, |last.roles|);
        assert Scraped(blocks) == Scraped(blocks[..n]) + [AccountOf(last)];
        assert Scraped(blocks)[..|Scraped(blocks)| - 1] == Scraped(blocks[..n]);
      } else {
        assert Scraped(blocks) == Scraped(blocks[..n]);
      }
    }
  }
}

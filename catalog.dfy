/** The role catalog: the accounts scraped from the federation broker's role picker, each
    with its roles in page order, and what the pipeline can end in. */
module Catalog {
  import opened Wrappers

  /** One role of an account: its ARN, its label on the page, and the principal (identity
      provider ARN) merged in from the SAML assertion, absent until a merge sets it. */
  datatype Role = Role(arn: string, name: string, principal: Option<string>)

  /** One account block of the page: its name and its roles in page order. */
  datatype Account = Account(name: string, roles: seq<Role>)

  /** What the role resolution ends in. `Chosen` goes on to the role assumption call; the
      others end the program. */
  datatype Outcome =
    | Chosen(roleArn: string, principalArn: string)
    | InvalidSelection   // "You selected an invalid role index", sys.exit(0)
    | NoRolesReturned    // "No roles returned.", quit()
    | Raised(error: Crash)

  /** The uncaught Python exceptions the role resolution can end in. */
  datatype Crash =
    | MalformedRoleValue(text: Option<string>)  // unpacking `text.split(',')` into two names
    | NotAnInteger                              // `int(selectedroleindex)`
    | NoSuchRole                                // `accounts[0]["roles"][0]` out of range
    | MissingPrincipal                          // `role['principal']` never set by the merge

  /** The roles of all accounts in page order: the menu numbered 0, 1, 2, ... across
      account boundaries. */
  function Flatten(accounts: seq<Account>): seq<Role> {
    if accounts == [] then []
    else Flatten(accounts[..|accounts| - 1]) + accounts[|accounts| - 1].roles
  }

  lemma {:induction false} FlattenAppend(a: seq<Account>, b: seq<Account>)
    ensures Flatten(a + b) == Flatten(a) + Flatten(b)
    decreases |b|
  {
    if b == [] {
      assert a + b == a;
    } else {
      var n := |b| - 1;
      assert (a + b)[..|a + b| - 1] == a + b[..n];
      FlattenAppend(a, b[..n]);
    }
  }

  /** Taking one more account adds that account's roles to the end of the menu. */
  lemma FlattenSnoc(accounts: seq<Account>, account: Account)
    ensures Flatten(accounts + [account]) == Flatten(accounts) + account.roles
  {
    assert (accounts + [account])[..|accounts|] == accounts;
  }

  lemma FlattenStep(accounts: seq<Account>, k: nat)
    requires k < |accounts|
    ensures Flatten(accounts[..k + 1]) == Flatten(accounts[..k]) + accounts[k].roles
  {
    assert accounts[..k + 1][..k] == accounts[..k];
  }

  /** The menu of a prefix of the accounts is a prefix of the whole menu. */
  lemma FlattenPrefix(accounts: seq<Account>, k: nat)
    requires k <= |accounts|
    ensures Flatten(accounts) == Flatten(accounts[..k]) + Flatten(accounts[k..])
  {
    assert accounts == accounts[..k] + accounts[k..];
    FlattenAppend(accounts[..k], accounts[k..]);
  }

  /** Continuous numbering: role `j` of account `a` has menu number
      |Flatten(accounts[..a])| + j. */
  lemma FlattenIndex(accounts: seq<Account>, a: nat, j: nat)
    requires a < |accounts| && j < |accounts[a].roles|
    ensures |Flatten(accounts[..a])| + j < |Flatten(accounts)|
    ensures Flatten(accounts)[|Flatten(accounts[..a])| + j] == accounts[a].roles[j]
  {
    FlattenPrefix(accounts, a + 1);
    FlattenStep(accounts, a);
  }
}

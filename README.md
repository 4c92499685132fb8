# Role catalog of the SAML federation script, in Dafny

`samlapi.py` signs a user in to an ADFS identity provider, takes the SAML assertion from
the response page, scrapes the cloud provider's role picker page into a list of accounts
and roles, merges the principal (identity provider ARN) of each role authorization in the
assertion into that list, filters it by a substring of the role ARN, lets the user pick a
role (or picks the only one), assumes it, and writes the temporary credentials into a
profile of the credentials file.

This project models the part between the network calls, once the HTML and XML have been
parsed into plain sequences:

- `assertion.dfy`: picking the `SAMLResponse` value out of the page's `<input>` tags.
- `directory.dfy`: the account scrape, which skips an account block that raises part-way
  and keeps counting `num_roles` for the roles it read before the failure.
- `merge.dfy`: splitting each value of the role attribute on `,` and writing its principal
  into every role with that ARN; a later value for the same ARN overwrites an earlier one.
- `filter.dfy`: the case-sensitive substring filter on role ARNs and the recount.
- `selection.dfy`: the numbered menu and the three-way branch on `num_roles`.
- `pipeline.dfy`: the four steps above run in their order, with end-to-end properties.
- `settings.dfy`: the settings, `inputWithDefault` and `getUsername`.
- `credentials.dfy`: `AwsConfigFile.update`. The file is modelled as a map from section to
  a map from key to value.
- `strings.dfy`, `catalog.dfy`, `wrappers.dfy`: Python's `in`, `replace(pat, "")` and
  `split` on strings with their meaning proved (for `replace`: a string without the
  pattern is kept, and at the leftmost occurrence the text before it is kept and the
  occurrence removed), the catalog datatypes, and `Option`/`Result`.

The loops of the source are methods with `while` loops. A loop that changes the account
list in place returns the new list instead. The uncaught Python exceptions the code can
raise become outcomes (`Catalog.Crash`), not preconditions.

Modelling notes on behaviour of the code that is easy to misread:

- A role that the merge gives no principal stays on the menu. Selecting it raises
  `KeyError` at `role['principal']`, modelled as `Raised(MissingPrincipal)`.
- The account name goes through `.replace("Account: ", "")`, which removes every
  occurrence, not only a leading one. `Strings.RemoveAll` models that, and
  `Strings.StripLeading` shows it is plain prefix stripping when the rest of the name does
  not contain the prefix.
- A role value is split on every comma and unpacked into exactly two names. Any other
  shape raises and ends the run (`Raised(MalformedRoleValue(..))`); such a value is not
  skipped.
- With an empty filter, `num_roles` is the scrape's counter. That counter also counts roles
  of blocks that were skipped. So the single-role branch can look up
  `accounts[0]["roles"][0]` where no role exists and raise `IndexError`
  (`Pipeline.StaleCountExample`, `Raised(NoSuchRole)`). With a non-empty filter, the count
  is exact and this cannot happen (`Pipeline.ResolveRole`).
- A selection text that is not a number raises only when there is a role to compare it
  with. With no roles on the menu the outcome is the invalid-index exit.
- configparser never reports a `DEFAULT` section and refuses to add one. A profile named
  `DEFAULT` therefore makes `update` raise (`Failure(InvalidSectionName)`).
- configparser's `set` sends an empty section name to the defaults section. A profile
  named `""` therefore gets an empty section of its own, while its five keys land in
  `DEFAULT` and are inherited by every profile (`CredentialFile.TargetSection`).
- `update` reads a global `token` instead of its parameter. The model passes the
  credentials as the argument.

## Model

| member | source | states |
|---|---|---|
| AssertionExtractor.GetAssertionFromResponse | samlapi.py:123-133 | the result is the `value` of the last input tag named `SAMLResponse` (absent if that tag has no value), and `""` when no tag has that name |
| Strings.ContainsOccurs | samlapi.py:230 | the executable substring test is true exactly when the filter occurs at some position of the ARN (Python's `in`) |
| Strings.RemoveAll | samlapi.py:195 | `str.replace(pat, "")` never makes a string longer |
| Strings.RemoveAllAbsent | samlapi.py:195 | a name in which "Account: " does not occur is left as it is |
| Strings.RemoveAllSkip | samlapi.py:195 | at the leftmost occurrence of the pattern, the text before it is kept, the occurrence removed and the rest treated the same way; with `RemoveAllAbsent` this determines the result on every name |
| Strings.StripLeading | samlapi.py:195 | "Account: " followed by a name that does not contain it gives back exactly that name |
| Strings.Split | samlapi.py:216 | `split(',')` gives at least one piece and no piece contains the separator |
| Strings.JoinSplit | samlapi.py:216 | joining the pieces of `split` with the separator gives back the original string |
| Strings.SplitCount | samlapi.py:216 | `split` gives one more piece than the string has separators |
| Strings.SplitTwo | samlapi.py:216 | `split` gives exactly `[p, q]` if and only if the string is `p + "," + q` with no comma in `p` or `q` |
| Catalog.FlattenIndex | samlapi.py:247-252 | role `j` of account `a` gets menu number `|roles of the accounts before a| + j`; numbering is continuous across accounts |
| RoleDirectory.ReadRoles | samlapi.py:197-202 | the role loop reads roles up to the first one that raises, counts them, and completes exactly when every role is readable |
| RoleDirectory.Scrape | samlapi.py:190-205 | the scraped accounts are those of the well-formed blocks, and `num_roles` counts every role read, also in blocks that fail later |
| RoleDirectory.ScrapedNoPrincipal | samlapi.py:201 | no scraped role has a principal |
| RoleDirectory.ScrapedExactly | samlapi.py:193-205 | an account is in the catalog if and only if it is the whole account of some well-formed block; no partial accounts |
| RoleDirectory.ScrapeKeepsAll | samlapi.py:193-205 | when every block is well formed, account i is block i's account |
| RoleDirectory.CountedAllWellFormed | samlapi.py:192-205 | when every block is well formed, `num_roles` equals the number of roles over all accounts |
| RoleDirectory.CountedCoversCatalog | samlapi.py:202-205 | in general `num_roles` is at least the number of roles in the catalog |
| PrincipalMerge.SplitRoleValueExact | samlapi.py:216 | a role value gives the pair (principal, role ARN) if and only if it is those two names around a single comma |
| PrincipalMerge.SplitRoleValue | samlapi.py:216 | the unpack gives a pair exactly when the text is there and holds exactly one comma, and the pair is the two comma-free names around it; otherwise it raises |
| PrincipalMerge.Override | samlapi.py:218-222 | the reference merge of one role: ARN and name unchanged; principal is that of the last pair naming the ARN, or unchanged when no pair names it |
| PrincipalMerge.LastPrincipalFound | samlapi.py:213-222 | last writer wins: the merged principal is `p` exactly when some pair names the ARN with `p` and no later pair names that ARN |
| PrincipalMerge.LastPrincipalAbsent | samlapi.py:213-222 | the merged principal is absent exactly when no pair names the ARN |
| PrincipalMerge.MergeAllMeaning | samlapi.py:213-222 | writing the pairs one after another keeps the number, order and names of accounts and roles, and equals overriding every role at once |
| PrincipalMerge.FlattenMergeAll | samlapi.py:219-222 | the merged menu is the scraped menu with every role overridden |
| PrincipalMerge.ParsePairsStops | samlapi.py:213-216 | once a role value raises, the values after it play no part |
| PrincipalMerge.MergeOne | samlapi.py:219-222 | one pair sets the principal of every role, in every account, whose ARN is the pair's role ARN, and leaves every other role unchanged |
| PrincipalMerge.MergeValues | samlapi.py:215-222 | the loop over one role attribute's values merges each value's pair after those already merged, or raises at the first value that does not split into two names, as the parse of all values so far says |
| PrincipalMerge.MergeAttribute | samlapi.py:214-222 | an attribute other than the role attribute changes nothing; the role attribute's values are merged as `MergeValues` states |
| PrincipalMerge.MergeRoleAttributes | samlapi.py:213-222 | the merge loop gives the catalog with all pairs of the role attribute merged in order, or raises on the first value that does not split into two names |
| RoleFilter.KeepRoles | samlapi.py:230 | the kept roles are no more than the account's roles, each one of them and each with an ARN containing the filter |
| RoleFilter.KeepMatching | samlapi.py:230 | the loop form of the comprehension gives exactly `KeepRoles` of the account's roles |
| RoleFilter.KeepRolesExactly | samlapi.py:230 | a role is kept if and only if it is in the list and its ARN contains the filter |
| RoleFilter.FlattenFiltered | samlapi.py:228-236 | the filtered menu is the old menu without the roles whose ARN lacks the filter, and the rest stay in their order |
| RoleFilter.FilteredNonEmpty | samlapi.py:230-234 | every kept account has at least one role, and each of its roles contains the filter |
| RoleFilter.FilteredSound | samlapi.py:228-236 | every kept account is an input account reduced to its surviving roles |
| RoleFilter.FilteredComplete | samlapi.py:228-236 | every input account with a surviving role is kept, reduced to those roles |
| RoleFilter.FilterAccounts | samlapi.py:224-236 | an empty filter leaves the catalog and `num_roles` unchanged; otherwise the catalog is filtered and `num_roles` is the number of kept roles |
| RoleSelection.NumberedMenu | samlapi.py:241-252 | menu line k shows number k and the k-th role of the accounts' roles in page order |
| RoleSelection.SelectRole | samlapi.py:241-280 | more than one role: an index in range picks that menu role, any other integer exits as invalid, a non-number raises if there is a role to compare; exactly one: `accounts[0].roles[0]`, raising if it is missing; none: quit |
| Pipeline.MergedRoleOrigin | samlapi.py:213-222 | a merged role with a principal was scraped with the same ARN and carries the last principal given for that ARN |
| Pipeline.MergeKeepsMatches | samlapi.py:219-230 | merging changes no ARN, so the filter matches the merged menu exactly when it matches the scraped one |
| Pipeline.FilteredCount | samlapi.py:224-236 | with a filter, the recount is 0 exactly when no scraped role matches, and at least 1 means the first kept account has a role |
| Pipeline.ChosenOrigin | samlapi.py:224-277 | a role the selection can choose comes from the scrape, matches a non-empty filter, and has the last principal given for its ARN |
| Pipeline.ResolveRole | samlapi.py:186-280 | end to end: a malformed role value raises; a chosen role was scraped, passed the filter and has the assertion's last principal for it; with a filter the single-role branch never raises `IndexError` and "no roles" means no scraped role matches; without one "no roles" means the scrape counted none |
| Pipeline.StaleCountExample | samlapi.py:192-205 | an empty first account and a second account that fails after one role leave `num_roles` at 1 with no role in the catalog |
| Settings.ConfigSettings.constructor | samlapi.py:20-26 | settings come from the arguments, and domain, username and profile also from the prompts when asking is on |
| Settings.ConfigSettings.AskUser | samlapi.py:28-31 | each of domain, username and profile takes its typed answer or keeps its value for an empty answer; filter and duration are unchanged |
| Settings.ConfigSettings.InputWithDefault | samlapi.py:33-36 | an empty answer gives the default and any other answer is taken as typed, so the result is empty only when both are |
| Settings.ConfigSettings.GetUsername | samlapi.py:41-42 | the name is `user@domain.rootdom.dk`, and for a user without '@' the user and the domain can be read back from it |
| CredentialFile.HasSection | samlapi.py:107 | `has_section` holds only for a section that is there, and never for `DEFAULT` |
| CredentialFile.SetOption | samlapi.py:110-114 | `set` changes one key of the addressed section, which is `DEFAULT` for an empty name and is created on its first key; every other section is unchanged |
| CredentialFile.AwsConfigFile.constructor | samlapi.py:88-97 | the object holds the given profile, file name, region and output format, which default to `/.aws/credentials`, `eu-west-1` and `json` |
| CredentialFile.AwsConfigFile.Update | samlapi.py:99-118 | a profile named `DEFAULT` raises; otherwise the profile section exists afterwards, and the section `set` addresses (`DEFAULT` for the empty profile) holds `output`, `region` and the three credential keys with its other keys kept; every other section is unchanged |

## Left out

- The HTTP exchanges are network I/O and are not modelled. These are the NTLM sign-in GET,
  the forms-login fallback with its retry, and the POST to the cloud broker
  (samlapi.py:157-187).
- HTML parsing (BeautifulSoup), base64 decoding and XML parsing (ElementTree) are library
  calls. Their results arrive as sequences: input tags, account blocks, attributes with
  their value texts.
- The role assumption call (boto3 `assume_role_with_saml`, samlapi.py:283-284) is a remote
  API. Its credentials arrive as a `Credentials` value.
- Command-line parsing, `getpass`, the `input()` prompts and `getTokenDuration`'s `int()`
  are front-end I/O. `CommandLineArguments` is not modelled. Its values arrive as
  `Settings.Arguments`, the prompt answers as `Settings.Answers`, and the selection text as
  an `Option<int>`.
- Reading and writing the credentials file and `expanduser` are file I/O. Only the
  in-memory update of the parsed sections is modelled. Not modelled either: configparser's
  lower-casing of keys (`optionxform`); all five keys written are already lower-case.
- CredentialFile.SetOption: `set` on a named section that is not there raises
  `NoSectionError`; `update` adds the section first, so the model requires it to be there.
- Colour output and `print` are presentation (samlapi.py:240-254, 293-303). The menu's
  numbering is kept as `RoleSelection.NumberedMenu`.
- The module-level orchestration is not modelled, and neither is the overwriting and
  deleting of the credential variables (samlapi.py:208-212). They have no behaviour to
  state.
- The filter loop does `tmp_account = acc`, which aliases the old account object. The list
  is replaced right afterwards, so this aliasing cannot be observed. The model works on
  values.
- `saml2attribute.iter` also finds nested `AttributeValue` elements. The model takes each
  attribute's value texts as given, in document order.

/** Merging the principals of the SAML assertion's role attribute into the role catalog.
    The base64 and XML decoding are not modelled: each `Attribute` element of the SAML 2.0
    assertion namespace arrives with its `Name` and the texts of its `AttributeValue`
    elements, in document order. */
module PrincipalMerge {
  import opened Wrappers
  import opened Catalog
  import Strings

  const ROLE_ATTRIBUTE := "https://aws.amazon.com/SAML/Attributes/Role"

  /** An `Attribute` element: its `Name` attribute and the text of each `AttributeValue`
      element below it, absent for an element without text. */
  datatype Attribute = Attribute(name: Option<string>, values: seq<Option<string>>)

  /** One role authorization: "principal,role_arn". */
  datatype RolePair = RolePair(principal: string, roleArn: string)

  /** `principal, role_arn = text.split(',')`: a pair when the text splits into exactly two
      pieces; absent when the unpacking (or reading text that is not there) raises. */
  function SplitRoleValue(text: Option<string>): (pair: Option<RolePair>)
    ensures pair.Some? <==> text.Some? && Strings.CountChar(text.value, ',') == 1
    ensures pair.Some? ==>
              text.value == pair.value.principal + [','] + pair.value.roleArn &&
              ',' !in pair.value.principal && ',' !in pair.value.roleArn
  {
    match text
    case None => None
    case Some(s) =>
      var parts := Strings.Split(s, ',');
      Strings.SplitCount(s, ',');
      if |parts| == 2 then
        Strings.SplitTwo(s, ',', parts[0], parts[1]);
        Some(RolePair(parts[0], parts[1]))
      else None
  }

  /** A value yields a pair exactly when it is the two names around a single comma. */
  lemma SplitRoleValueExact(s: string, principal: string, roleArn: string)
    ensures SplitRoleValue(Some(s)) == Some(RolePair(principal, roleArn)) <==>
              (s == principal + [','] + roleArn && ',' !in principal && ',' !in roleArn)
  {
    Strings.SplitTwo(s, ',', principal, roleArn);
  }

  /** The values the merge loop visits for one attribute: all of them for the role
      attribute, none for any other. */
  function ValuesOf(attr: Attribute): seq<Option<string>> {
    if attr.name == Some(ROLE_ATTRIBUTE) then attr.values else []
  }

  function RoleValues(attrs: seq<Attribute>): seq<Option<string>> {
    if attrs == [] then []
    else RoleValues(attrs[..|attrs| - 1]) + ValuesOf(attrs[|attrs| - 1])
  }

  /** The pairs of the values in order, or the first value whose split raises. */
  function ParsePairs(texts: seq<Option<string>>): Result<seq<RolePair>, Option<string>> {
    if texts == [] then Success([])
    else
      var last := texts[|texts| - 1];
      match ParsePairs(texts[..|texts| - 1])
      case Failure(text) => Failure(text)
      case Success(pairs) =>
        match SplitRoleValue(last)
        case None => Failure(last)
        case Some(pair) => Success(pairs + [pair])
  }

  /** `role["principal"] = principal` for a role whose ARN matches. */
  function SetPrincipal(role: Role, pair: RolePair): Role {
    if role.arn == pair.roleArn then role.(principal := Some(pair.principal)) else role
  }

  /** One pair written into every matching role of every account. */
  function MergePair(accounts: seq<Account>, pair: RolePair): seq<Account> {
    seq(|accounts|, i requires 0 <= i < |accounts| =>
      accounts[i].(roles := seq(|accounts[i].roles|, j requires 0 <= j < |accounts[i].roles| =>
        SetPrincipal(accounts[i].roles[j], pair))))
  }

  /** The pairs written one after the other, in order. */
  function MergeAll(accounts: seq<Account>, pairs: seq<RolePair>): seq<Account> {
    if pairs == [] then accounts
    else MergePair(MergeAll(accounts, pairs[..|pairs| - 1]), pairs[|pairs| - 1])
  }

  /** The principal of the last pair naming `arn`, if any pair does. */
  function LastPrincipal(pairs: seq<RolePair>, arn: string): Option<string> {
    if pairs == [] then None
    else if pairs[|pairs| - 1].roleArn == arn then Some(pairs[|pairs| - 1].principal)
    else LastPrincipal(pairs[..|pairs| - 1], arn)
  }

  /** The all-at-once reference: a role takes the principal of the last pair naming it and
      keeps everything else; a role no pair names is left as it was. */
  function Override(role: Role, pairs: seq<RolePair>): (r: Role)
    ensures r.arn == role.arn && r.name == role.name
    ensures r.principal == if LastPrincipal(pairs, role.arn).Some? then LastPrincipal(pairs, role.arn)
                           else role.principal
  {
    match LastPrincipal(pairs, role.arn)
    case Some(p) => role.(principal := Some(p))
    case None => role
  }

  function OverrideAll(roles: seq<Role>, pairs: seq<RolePair>): (r: seq<Role>)
    ensures |r| == |roles| && forall k :: 0 <= k < |roles| ==> r[k] == Override(roles[k], pairs)
  {
    seq(|roles|, k requires 0 <= k < |roles| => Override(roles[k], pairs))
  }

  /** Last writer wins: `LastPrincipal` is the principal of a pair naming `arn` that no
      later pair overrides. */
  lemma LastPrincipalFound(pairs: seq<RolePair>, arn: string, p: string)
    ensures LastPrincipal(pairs, arn) == Some(p) <==>
              exists k :: 0 <= k < |pairs| && pairs[k] == RolePair(p, arn) &&
                          forall m :: k < m < |pairs| ==> pairs[m].roleArn != arn
  {
    if LastPrincipal(pairs, arn) == Some(p) {
      var k := LastNaming(pairs, arn, p);
    }
    if exists k :: 0 <= k < |pairs| && pairs[k] == RolePair(p, arn) &&
                   forall m :: k < m < |pairs| ==> pairs[m].roleArn != arn {
      var k :| 0 <= k < |pairs| && pairs[k] == RolePair(p, arn) &&
               forall m :: k < m < |pairs| ==> pairs[m].roleArn != arn;
      LastNamed(pairs, arn, p, k);
    }
  }

  /** The pair `LastPrincipal` comes from. */
  lemma {:induction false} LastNaming(pairs: seq<RolePair>, arn: string, p: string) returns (k: nat)
    requires LastPrincipal(pairs, arn) == Some(p)
    ensures k < |pairs| && pairs[k] == RolePair(p, arn)
    ensures forall m :: k < m < |pairs| ==> pairs[m].roleArn != arn
    decreases |pairs|
  {
    var n := |pairs| - 1;
    if pairs[n].roleArn == arn {
      k := n;
    } else {
      var front := pairs[..n];
      k := LastNaming(front, arn, p);
      assert pairs[k] == front[k];
      forall m | k < m < |pairs| ensures pairs[m].roleArn != arn {
        if m < n { assert pairs[m] == front[m]; }
      }
    }
  }

  /** A pair naming `arn` that no later pair overrides gives `LastPrincipal`. */
  lemma {:induction false} LastNamed(pairs: seq<RolePair>, arn: string, p: string, k: nat)
    requires k < |pairs| && pairs[k] == RolePair(p, arn)
    requires forall m :: k < m < |pairs| ==> pairs[m].roleArn != arn
    ensures LastPrincipal(pairs, arn) == Some(p)
    decreases |pairs|
  {
    var n := |pairs| - 1;
    if k < n {
      var front := pairs[..n];
      forall m | k < m < |front| ensures front[m].roleArn != arn {
        assert front[m] == pairs[m];
      }
      LastNamed(front, arn, p, k);
    }
  }

  /** `LastPrincipal` is absent exactly when no pair names `arn`. */
  lemma {:induction false} LastPrincipalAbsent(pairs: seq<RolePair>, arn: string)
    ensures LastPrincipal(pairs, arn) == None <==>
              forall k :: 0 <= k < |pairs| ==> pairs[k].roleArn != arn
    decreases |pairs|
  {
    if pairs != [] {
      var n := |pairs| - 1;
      var front := pairs[..n];
      if pairs[n].roleArn != arn {
        LastPrincipalAbsent(front, arn);
        if forall k :: 0 <= k < |front| ==> front[k].roleArn != arn {
          forall k | 0 <= k < |pairs| ensures pairs[k].roleArn != arn {
            if k < n { assert pairs[k] == front[k]; }
          }
        }
        if forall k :: 0 <= k < |pairs| ==> pairs[k].roleArn != arn {
          forall k | 0 <= k < |front| ensures front[k].roleArn != arn {
            assert front[k] == pairs[k];
          }
        }
      }
    }
  }

  /** Writing the pairs one after the other is the same as overriding every role at once:
      the number and order of accounts and roles, the names and the ARNs stay as they
      were, and only the principals of the roles some pair names change. */
  lemma {:induction false} MergeAllMeaning(accounts: seq<Account>, pairs: seq<RolePair>)
    ensures |MergeAll(accounts, pairs)| == |accounts|
    ensures forall i :: 0 <= i < |accounts| ==>
              MergeAll(accounts, pairs)[i].name == accounts[i].name &&
              MergeAll(accounts, pairs)[i].roles == OverrideAll(accounts[i].roles, pairs)
    decreases |pairs|
  {
    if pairs == [] {
      forall i | 0 <= i < |accounts|
        ensures accounts[i].roles == OverrideAll(accounts[i].roles, pairs)
      {
      }
    } else {
      var n := |pairs| - 1;
      var front := pairs[..n];
      MergeAllMeaning(accounts, front);
      var before := MergeAll(accounts, front);
      forall i | 0 <= i < |accounts|
        ensures MergeAll(accounts, pairs)[i].name == accounts[i].name
        ensures MergeAll(accounts, pairs)[i].roles == OverrideAll(accounts[i].roles, pairs)
      {
        var roles := accounts[i].roles;
        forall j | 0 <= j < |roles|
          ensures MergeAll(accounts, pairs)[i].roles[j] == Override(roles[j], pairs)
        {
          assert before[i].roles[j] == Override(roles[j], front);
        }
      }
    }
  }

  lemma OverrideAllAppend(a: seq<Role>, b: seq<Role>, pairs: seq<RolePair>)
    ensures OverrideAll(a + b, pairs) == OverrideAll(a, pairs) + OverrideAll(b, pairs)
  {
  }

  /** The menu of the merged catalog is the menu of the scraped one with every role
      overridden. */
  lemma {:induction false} FlattenMergeAll(accounts: seq<Account>, pairs: seq<RolePair>)
    ensures Flatten(MergeAll(accounts, pairs)) == OverrideAll(Flatten(accounts), pairs)
    decreases |accounts|
  {
    MergeAllMeaning(accounts, pairs);
    var merged := MergeAll(accounts, pairs);
    if accounts != [] {
      var n := |accounts| - 1;
      var front := accounts[..n];
      MergeAllMeaning(front, pairs);
      assert MergeAll(front, pairs) == merged[..n] by {
        forall i | 0 <= i < n ensures MergeAll(front, pairs)[i] == merged[i] {
          assert front[i] == accounts[i];
        }
      }
      FlattenMergeAll(front, pairs);
      OverrideAllAppend(Flatten(front), accounts[n].roles, pairs);
    }
  }

  lemma ParsePairsStep(texts: seq<Option<string>>, text: Option<string>)
    ensures ParsePairs(texts).Failure? ==> ParsePairs(texts + [text]) == ParsePairs(texts)
    ensures ParsePairs(texts).Success? && SplitRoleValue(text).None? ==>
              ParsePairs(texts + [text]) == Failure(text)
    ensures ParsePairs(texts).Success? && SplitRoleValue(text).Some? ==>
              ParsePairs(texts + [text]) == Success(ParsePairs(texts).value + [SplitRoleValue(text).value])
  {
    assert (texts + [text])[..|texts|] == texts;
  }

  /** Once a value raises, nothing after it is looked at. */
  lemma {:induction false} ParsePairsStops(texts: seq<Option<string>>, rest: seq<Option<string>>)
    requires ParsePairs(texts).Failure?
    ensures ParsePairs(texts + rest) == ParsePairs(texts)
    decreases |rest|
  {
    if rest == [] {
      assert texts + rest == texts;
    } else {
      var n := |rest| - 1;
      ParsePairsStops(texts, rest[..n]);
      assert texts + rest == (texts + rest[..n]) + [rest[n]];
      ParsePairsStep(texts + rest[..n], rest[n]);
    }
  }

  lemma RoleValuesStep(attrs: seq<Attribute>, i: nat)
    requires i < |attrs|
    ensures RoleValues(attrs[..i + 1]) == RoleValues(attrs[..i]) + ValuesOf(attrs[i])
  {
    assert attrs[..i + 1][..i] == attrs[..i];
  }

  /** The inner two loops: one pair written into every role, in every account, whose ARN
      is the pair's role ARN. */
  method MergeOne(accounts: seq<Account>, pair: RolePair) returns (merged: seq<Account>)
    ensures merged == MergePair(accounts, pair)
  {
    merged := accounts;
    var i := 0;
    while i < |merged|
      invariant 0 <= i <= |merged| == |accounts|
      invariant forall a :: 0 <= a < i ==> merged[a] == MergePair(accounts, pair)[a]
      invariant forall a :: i <= a < |merged| ==> merged[a] == accounts[a]
    {
      var roles := merged[i].roles;
      var j := 0;
      while j < |roles|
        invariant 0 <= j <= |roles| == |accounts[i].roles|
        invariant forall r :: 0 <= r < j ==> roles[r] == SetPrincipal(accounts[i].roles[r], pair)
        invariant forall r :: j <= r < |roles| ==> roles[r] == accounts[i].roles[r]
      {
        if roles[j].arn == pair.roleArn {
          roles := roles[j := roles[j].(principal := Some(pair.principal))];
        }
        j := j + 1;
      }
      assert roles == MergePair(accounts, pair)[i].roles;
      merged := merged[i := merged[i].(roles := roles)];
      i := i + 1;
    }
  }

  /** The merge loop over the assertion's attributes: every value of the role attribute is
      split and its principal written into the matching roles; the first value that does
      not split into two names raises, which ends the program. */
  method MergeRoleAttributes(accounts: seq<Account>, attrs: seq<Attribute>)
    returns (result: Result<seq<Account>, Crash>)
    ensures ParsePairs(RoleValues(attrs)).Success? ==>
              result == Success(MergeAll(accounts, ParsePairs(RoleValues(attrs)).value))
    ensures ParsePairs(RoleValues(attrs)).Failure? ==>
              result == Failure(MalformedRoleValue(ParsePairs(RoleValues(attrs)).error))
  {
    var merged := accounts;
    ghost var done: seq<Option<string>> := [];
    ghost var pairs: seq<RolePair> := [];
    var i := 0;
    while i < |attrs|
      invariant 0 <= i <= |attrs|
      invariant done == RoleValues(attrs[..i])
      invariant ParsePairs(done) == Success(pairs)
      invariant merged == MergeAll(accounts, pairs)
    {
      RoleValuesStep(attrs, i);
      var step := MergeAttribute(accounts, attrs[i], done, pairs, merged);
      if step.Failure? {
        RoleValuesRaiseAt(attrs, i);
        return step;
      }
      merged := step.value;
      pairs := ParsePairs(done + ValuesOf(attrs[i])).value;
      done := done + ValuesOf(attrs[i]);
      i := i + 1;
    }
    assert attrs[..i] == attrs;
    return Success(merged);
  }

  /** One attribute of the assertion: only the role attribute's values are merged. */
  method MergeAttribute(accounts: seq<Account>, attr: Attribute, ghost done: seq<Option<string>>,
                        ghost pairs: seq<RolePair>, merged: seq<Account>)
    returns (result: Result<seq<Account>, Crash>)
    requires ParsePairs(done) == Success(pairs) && merged == MergeAll(accounts, pairs)
    ensures ParsePairs(done + ValuesOf(attr)).Success? ==>
              result == Success(MergeAll(accounts, ParsePairs(done + ValuesOf(attr)).value))
    ensures ParsePairs(done + ValuesOf(attr)).Failure? ==>
              result == Failure(MalformedRoleValue(ParsePairs(done + ValuesOf(attr)).error))
  {
    if attr.name == Some(ROLE_ATTRIBUTE) {
      result := MergeValues(accounts, done, attr.values, pairs, merged);
    } else {
      assert done + [] == done;
      result := Success(merged);
    }
  }

  /** The loop over the values of one role attribute, after the values `done` have been
      merged as `pairs` into `merged`. */
  method MergeValues(accounts: seq<Account>, ghost done: seq<Option<string>>, values: seq<Option<string>>,
                     ghost pairs: seq<RolePair>, merged: seq<Account>)
    returns (result: Result<seq<Account>, Crash>)
    requires ParsePairs(done) == Success(pairs) && merged == MergeAll(accounts, pairs)
    ensures ParsePairs(done + values).Success? ==>
              result == Success(MergeAll(accounts, ParsePairs(done + values).value))
    ensures ParsePairs(done + values).Failure? ==>
              result == Failure(MalformedRoleValue(ParsePairs(done + values).error))
  {
    var current := merged;
    ghost var got := pairs;
    var j := 0;
    assert done + values[..0] == done;
    while j < |values|
      invariant 0 <= j <= |values|
      invariant ParsePairs(done + values[..j]) == Success(got)
      invariant current == MergeAll(accounts, got)
    {
      ParsePairsNext(done, values, j);
      var pair := SplitRoleValue(values[j]);
      if pair.None? {
        return Failure(MalformedRoleValue(values[j]));
      }
      current := MergeOne(current, pair.value);
      MergeAllStep(accounts, got, pair.value);
      got := got + [pair.value];
      j := j + 1;
    }
    assert values[..j] == values;
    return Success(current);
  }

  /** Value `j` after the values before it parsed: either it raises, and then so does the
      whole list, or it extends the pairs by its own. */
  lemma ParsePairsNext(done: seq<Option<string>>, values: seq<Option<string>>, j: nat)
    requires j < |values| && ParsePairs(done + values[..j]).Success?
    ensures SplitRoleValue(values[j]).None? ==> ParsePairs(done + values) == Failure(values[j])
    ensures SplitRoleValue(values[j]).Some? ==>
              ParsePairs(done + values[..j + 1]) ==
              Success(ParsePairs(done + values[..j]).value + [SplitRoleValue(values[j]).value])
  {
    CutAt(done, values, j);
    ParsePairsStep(done + values[..j], values[j]);
    if SplitRoleValue(values[j]).None? {
      ParsePairsStops(done + values[..j] + [values[j]], values[j + 1..]);
    }
  }

  /** A sequence cut before and after its element `j`, behind a prefix `a`. */
  lemma CutAt<T>(a: seq<T>, v: seq<T>, j: nat)
    requires j < |v|
    ensures a + v[..j + 1] == a + v[..j] + [v[j]]
    ensures a + v == a + v[..j] + [v[j]] + v[j + 1..]
  {
    assert v[..j + 1] == v[..j] + [v[j]];
    assert v == v[..j] + [v[j]] + v[j + 1..];
  }

  lemma MergeAllStep(accounts: seq<Account>, pairs: seq<RolePair>, pair: RolePair)
    ensures MergeAll(accounts, pairs + [pair]) == MergePair(MergeAll(accounts, pairs), pair)
  {
    assert (pairs + [pair])[..|pairs|] == pairs;
  }

  /** Attribute `i` raising makes the whole value list raise with the same value. */
  lemma RoleValuesRaiseAt(attrs: seq<Attribute>, i: nat)
    requires i < |attrs| && ParsePairs(RoleValues(attrs[..i + 1])).Failure?
    ensures ParsePairs(RoleValues(attrs)) == ParsePairs(RoleValues(attrs[..i + 1]))
  {
    var front, back := attrs[..i + 1], attrs[i + 1..];
    TakeDrop(attrs, i + 1);
    RoleValuesAppend(front, back);
    ParsePairsStops(RoleValues(front), RoleValues(back));
  }

  lemma TakeDrop<T>(s: seq<T>, k: nat)
    requires k <= |s|
    ensures s[..k] + s[k..] == s
  {
  }

  lemma {:induction false} RoleValuesAppend(a: seq<Attribute>, b: seq<Attribute>)
    ensures RoleValues(a + b) == RoleValues(a) + RoleValues(b)
    decreases |b|
  {
    if b == [] {
      assert a + b == a;
    } else {
      var n := |b| - 1;
      assert (a + b)[..|a + b| - 1] == a + b[..n];
      RoleValuesAppend(a, b[..n]);
    }
  }
}

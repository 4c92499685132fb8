/** The run's settings: the values given on the command line, optionally overridden by
    answers typed at the prompts. Parsing the command line and reading the prompts are not
    modelled; their results arrive as values. */
module Settings {
  import opened Wrappers

  const DOMAIN_SUFFIX := ".rootdom.dk"

  /** The command-line values, after argparse has applied its defaults. */
  datatype Arguments = Arguments(
    user: string, domain: string, filter: string, tokenDuration: string, profile: string,
    ask: bool)

  /** What the user typed at the three prompts, "" for just pressing enter. */
  datatype Answers = Answers(domain: string, username: string, profile: string)

  /** Index of the first `c` in `s`, or |s| when there is none. */
  function IndexOf(s: string, c: char): (i: nat)
    ensures i <= |s| && c !in s[..i] && (i < |s| ==> s[i] == c)
  {
    if s == [] then 0
    else if s[0] == c then 0
    else
      assert s[1..][..IndexOf(s[1..], c)] == s[1..1 + IndexOf(s[1..], c)];
      1 + IndexOf(s[1..], c)
  }

  /** Reads a qualified user name back: the part before the first '@' and the part between
      it and the domain suffix. */
  function ParseUsername(s: string): Option<(string, string)> {
    var at := IndexOf(s, '@');
    if at == |s| then None
    else
      var rest := s[at + 1..];
      if |rest| >= |DOMAIN_SUFFIX| && rest[|rest| - |DOMAIN_SUFFIX|..] == DOMAIN_SUFFIX
      then Some((s[..at], rest[..|rest| - |DOMAIN_SUFFIX|]))
      else None
  }

  lemma {:induction false} IndexOfAfter(user: string, rest: string)
    requires '@' !in user
    ensures IndexOf(user + ['@'] + rest, '@') == |user|
    decreases |user|
  {
    if user != [] {
      assert (user + ['@'] + rest)[1..] == user[1..] + ['@'] + rest;
      assert '@' !in user[1..];
      IndexOfAfter(user[1..], rest);
    }
  }

  class ConfigSettings {
    var username: string
    var domain: string
    var filter: string
    var tokenDuration: string
    var profile: string

    /** The settings from the command line, then the prompts when `--ask` was given. */
    constructor(args: Arguments, answers: Answers)
      ensures filter == args.filter && tokenDuration == args.tokenDuration
      ensures !args.ask ==> username == args.user && domain == args.domain && profile == args.profile
      ensures args.ask ==> domain == InputWithDefault(answers.domain, args.domain) &&
                           username == InputWithDefault(answers.username, args.user) &&
                           profile == InputWithDefault(answers.profile, args.profile)
    {
      username := args.user;
      domain := args.domain;
      filter := args.filter;
      tokenDuration := args.tokenDuration;
      profile := args.profile;
      new;
      if args.ask {
        AskUser(answers);
      }
    }

    /** askUser: each of domain, username and profile takes its typed answer, or keeps its
        value for an empty answer; the other settings stay as they are. */
    method AskUser(answers: Answers)
      modifies this
      ensures domain == InputWithDefault(answers.domain, old(domain))
      ensures username == InputWithDefault(answers.username, old(username))
      ensures profile == InputWithDefault(answers.profile, old(profile))
      ensures filter == old(filter) && tokenDuration == old(tokenDuration)
    {
      domain := InputWithDefault(answers.domain, domain);
      username := InputWithDefault(answers.username, username);
      profile := InputWithDefault(answers.profile, profile);
    }

    /** inputWithDefault: an empty answer keeps the default, any other answer replaces it;
        so the value is empty only when both are. */
    static function InputWithDefault(typed: string, default: string): (value: string)
      ensures |typed| > 0 ==> value == typed
      ensures |typed| == 0 ==> value == default
      ensures value == "" <==> typed == "" && default == ""
    {
      if |typed| == 0 then default else typed
    }

    /** getUsername: the user name qualified with the domain, "user@domain.rootdom.dk";
        for a user name without '@', user and domain can be read back from it. */
    function GetUsername(): (qualified: string)
      reads this
      ensures qualified == username + "@" + domain + DOMAIN_SUFFIX
      ensures '@' !in username ==> ParseUsername(qualified) == Some((username, domain))
    {
      var qualified := username + "@" + domain + DOMAIN_SUFFIX;
      assert qualified == username + ['@'] + (domain + DOMAIN_SUFFIX);
      if '@' !in username then
        IndexOfAfter(username, domain + DOMAIN_SUFFIX);
        assert qualified[|username| + 1..] == domain + DOMAIN_SUFFIX;
        assert qualified[..|username|] == username;
        qualified
      else qualified
    }
  }
}

/** The session object `Aldap`: its configuration, the credentials and the
    search filter it resolves, and its three operations. The directory itself
    is outside the model: a bind is a function from identity and password to
    its outcome, and a search result is a value. */
module Authenticator {
  import opened Outcomes
  import opened Text
  import opened GroupMatch
  import opened Policy
  import opened SearchResult

  /** How `simple_bind_s` followed by `unbind_s` ended. */
  datatype DirectoryOutcome = Bound | InvalidCredentials | DirectoryError

  /** The identity `authenticateUser` binds as: `username@serverDomain` when a
      domain is configured, the raw user name (backslash prefix kept) when not. */
  function BindIdentity(username: string, serverDomain: string): (identity: string)
    ensures |identity| >= |username| && identity[..|username|] == username
    ensures serverDomain != "" ==> identity[|username|..] == "@" + serverDomain
    ensures serverDomain == "" ==> identity == username
  {
    if serverDomain != "" then username + "@" + serverDomain else username
  }

  const Placeholder: string := "{username}"

  /** `(sAMAccountName={username})` resolved for `CORP\jdoe`. */
  lemma ResolvedFilterExample(template: string, user: string)
    requires template == "(sAMAccountName={username})" && user == "CORP\\jdoe"
    ensures ReplaceAll(template, Placeholder, StripDomain(user)) == "(sAMAccountName=jdoe)"
  {
    StripDomainExample(user);
    var name := StripDomain(user);
    var prefix, suffix := "(sAMAccountName=", ")";
    assert template == prefix + Placeholder + suffix;
    ReplaceSingleOccurrence(prefix, Placeholder, suffix, name);
    FilterText(prefix, name, suffix);
  }

  lemma FilterText(prefix: string, name: string, suffix: string)
    requires prefix == "(sAMAccountName=" && name == "jdoe" && suffix == ")"
    ensures prefix + name + suffix == "(sAMAccountName=jdoe)"
  {
  }

  class Aldap {
    const ldapEndpoint: string
    const searchBase: string
    const dnUsername: string
    const dnPassword: string
    const serverDomain: string
    const groupCaseSensitive: bool
    /** Stored lower-cased, so `AND` and `Or` select the rules. */
    const groupConditional: string
    var searchFilter: string
    var username: string
    var password: string

    constructor (ldapEndpoint: string, dnUsername: string, dnPassword: string, serverDomain: string,
                 searchBase: string, searchFilter: string, groupCaseSensitive: bool, groupConditional: string)
      ensures this.ldapEndpoint == ldapEndpoint && this.searchBase == searchBase
      ensures this.dnUsername == dnUsername && this.dnPassword == dnPassword
      ensures this.serverDomain == serverDomain && this.searchFilter == searchFilter
      ensures this.groupCaseSensitive == groupCaseSensitive
      ensures this.groupConditional == Lower(groupConditional)
      ensures username == "" && password == ""
    {
      this.ldapEndpoint := ldapEndpoint;
      this.searchBase := searchBase;
      this.dnUsername := dnUsername;
      this.dnPassword := dnPassword;
      this.serverDomain := serverDomain;
      this.searchFilter := searchFilter;
      this.username := "";
      this.password := "";
      this.groupCaseSensitive := groupCaseSensitive;
      this.groupConditional := Lower(groupConditional);
    }

    /** `setUser`: keep the credentials as given and substitute the user name,
        stripped of its `DOMAIN\` prefix, for every placeholder of the filter. */
    method SetUser(username: string, password: string)
      modifies this`username, this`password, this`searchFilter
      ensures this.username == username && this.password == password
      ensures searchFilter == ReplaceAll(old(searchFilter), Placeholder, StripDomain(username))
    {
      this.username := username;
      this.password := password;
      var finalUsername := StripDomain(this.username);
      searchFilter := ReplaceAll(searchFilter, Placeholder, finalUsername);
    }

    /** `authenticateUser`: true exactly when the bind as the composed identity
        with the stored password succeeds; a rejection or any directory error is false. */
    method AuthenticateUser(bind: (string, string) -> DirectoryOutcome) returns (ok: bool)
      ensures ok <==> bind(BindIdentity(username, serverDomain), password) == Bound
    {
      var finalUsername := username;
      if serverDomain != "" {
        finalUsername := username + "@" + serverDomain;
      }
      var outcome := bind(finalUsername, password);
      match outcome
      case Bound => ok := true;
      case InvalidCredentials => ok := false;
      case DirectoryError => ok := false;
    }

    /** Line 96: the findMatch results of one pattern over the user groups,
        falsy ones removed; the first malformed user group raises. */
    method MatchesOf(group: string, userGroups: seq<string>) returns (r: Result<seq<string>>)
      ensures r.Err? <==> !WellFormed(userGroups)
      ensures r.Err? ==> r.error == MalformedGroupDn
      ensures r.Ok? ==> r.value == MatchList(group, userGroups, groupCaseSensitive)
    {
      var matches: seq<string> := [];
      for j := 0 to |userGroups|
        invariant WellFormed(userGroups[..j])
        invariant matches == MatchList(group, userGroups[..j], groupCaseSensitive)
      {
        var found := FindMatch(group, userGroups[j], groupCaseSensitive);
        if found.Err? {
          assert !StartsWithCN(userGroups[j]);
          return Err(found.error);
        }
        MatchListStep(group, userGroups, j, groupCaseSensitive);
        WellFormedStep(userGroups, j);
        matches := matches + Kept(found);
      }
      assert userGroups[..|userGroups|] == userGroups;
      return Ok(matches);
    }

    /** The matching and decision of `validateGroups`, over decoded user groups. */
    method ValidateGroups(groups: seq<string>, userGroups: seq<string>) returns (r: Result<Decision>)
      ensures r == Validate(groupConditional, groupCaseSensitive, groups, userGroups)
    {
      var matchedGroups: seq<string> := [];
      var matchesByGroup: seq<(string, seq<string>)> := [];
      for i := 0 to |groups|
        invariant i > 0 ==> WellFormed(userGroups)
        invariant matchesByGroup == MatchesByGroup(groups[..i], userGroups, groupCaseSensitive)
        invariant matchedGroups == MatchedGroups(groups[..i], userGroups, groupCaseSensitive)
      {
        var group := groups[i];
        var found := MatchesOf(group, userGroups);
        if found.Err? {
          return Err(found.error);
        }
        var matches := found.value;
        ExtendByPattern(groups, userGroups, groupCaseSensitive, i);
        if matches != [] {
          matchesByGroup := matchesByGroup + [(group, matches)];
          matchedGroups := matchedGroups + matches;
        }
      }
      assert groups[..|groups|] == groups;
      if groupConditional == "or" {
        if matchedGroups != [] {
          return Ok(Decision(true, matchedGroups));
        }
      } else if groupConditional == "and" {
        if |groups| == |matchesByGroup| {
          return Ok(Decision(true, matchedGroups));
        }
      } else {
        return Ok(Decision(false, []));
      }
      return Ok(Decision(false, []));
    }

    /** `validateGroups` from the search result on: collect the user groups
        (a KeyError escapes first), then match and decide. */
    method ValidateSearchResult(groups: seq<string>, tree: seq<seq<Element>>) returns (r: Result<Decision>)
      ensures r == match Collected(tree)
        case Err(e) => Err(e)
        case Ok(userGroups) => Validate(groupConditional, groupCaseSensitive, groups, userGroups)
    {
      var collected := CollectUserGroups(tree);
      match collected
      case Err(e) => r := Err(e);
      case Ok(userGroups) => r := ValidateGroups(groups, userGroups);
    }
  }

  /** A session as a host would drive it, using only the contracts above:
      the conditional `AND` is accepted, `CORP\jdoe` resolves the filter, and
      an empty list of required groups authorizes without touching the user groups. */
  method SessionScenario(bind: (string, string) -> DirectoryOutcome)
  {
    var session := new Aldap("ldaps://dc.example.com", "", "", "", "DC=example,DC=com",
                             "(sAMAccountName={username})", false, "AND");
    ConditionalSpellings();
    assert session.groupConditional == "and";
    session.SetUser("CORP\\jdoe", "secret");
    ResolvedFilterExample("(sAMAccountName={username})", "CORP\\jdoe");
    assert session.searchFilter == "(sAMAccountName=jdoe)";
    assert session.username == "CORP\\jdoe";
    var ok := session.AuthenticateUser(bind);
    assert ok <==> bind("CORP\\jdoe", "secret") == Bound;
    var r := session.ValidateGroups([], ["not a distinguished name"]);
    AndRule(false, [], ["not a distinguished name"]);
    assert r == Ok(Decision(true, []));
  }
}

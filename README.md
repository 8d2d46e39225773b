# Directory group authorization: a Dafny model of the `Aldap` session

This project models the decision logic of the `Aldap` session class of
another-ldap-auth. That class authenticates a user against an LDAP or Active
Directory server. It then authorizes the user by matching the user's `memberOf`
groups against a list of required group patterns, combined with `and` or `or`.
The model covers four parts:

- **Credential setup** (`setUser`). The user name and password are stored as
  given. A `DOMAIN\` prefix is stripped from the name, and the result replaces
  every `{username}` placeholder in the search filter.
- **Group matching** (`findMatch`). The Common Name is read out of a
  `CN=...` distinguished name. Both sides are lower-cased unless groups are
  case-sensitive. The whole CN is returned when the pattern is a prefix of it.
- **Policy evaluation** (`validateGroups`). This covers the walk over the
  search result, one match list per pattern, `matchesByGroup`,
  `matchedGroups`, and the `or` / `and` / other decision.
- **Authentication** (`authenticateUser`). The bind identity is
  `username@serverDomain` when a domain is configured. The result is true
  only when the bind succeeds.

Files and modules:

- `outcomes.dfy`, module `Outcomes`: `Option`, and `Result` for the two
  exceptions that escape `validateGroups`.
- `text.dfy`, module `Text`: ASCII `lower()`, `str.replace`, and the
  `re.sub(r'^.+\\', '', ...)` domain strip.
- `group_match.dfy`, module `GroupMatch`: CN extraction and `findMatch`.
- `policy.dfy`, module `Policy`: match lists, `matchesByGroup`,
  `matchedGroups`, the decision, and its lemmas.
- `search_result.dfy`, module `SearchResult`: the loop that collects
  `memberOf` values from the search result.
- `authenticator.dfy`, module `Authenticator`: the class `Aldap`, with its
  fields and its methods `SetUser`, `AuthenticateUser`, `ValidateGroups` and
  `ValidateSearchResult`. It also has a short client scenario,
  `SessionScenario`.

The directory is not part of the model. A bind is a function parameter that
maps (identity, password) to a `DirectoryOutcome`. A search result is a value
of type `seq<seq<Element>>`.

Three behaviours of the code are worth knowing:

- A `memberOf` value that does not start with `CN=` raises. There,
  `re.match(...)` returns None, and `.group(1)` raises AttributeError at
  `files/aldap.py:60`. That line is outside the `try`, so the exception
  escapes `validateGroups`. The model returns `Err(MalformedGroupDn)`, but
  only when at least one pattern is required: with no patterns, `findMatch`
  is never called.
- The CN regex accepts only word characters, whitespace and `]`. So a hyphen
  ends the CN: `CN=Engineering-East,...` yields `Engineering`, not
  `Engineering-East`. When groups are case-insensitive, the returned CN is
  the lower-cased one (`engineering`).
- A search-result attribute mapping without a `memberOf` key raises a
  KeyError, which escapes `validateGroups`. Only the TypeError raised by
  non-mapping elements is caught (`files/aldap.py:80-83`).

## Model

| member | source | states |
|---|---|---|
| `Text.Lower` | files/aldap.py:18 | Same length; each `A`-`Z` becomes its lower-case letter and every other character is kept (`Text.LowerChar`); no upper-case letter remains. `Text.ConditionalSpellings` and `GroupMatch.ExtractCNLower` are its partners |
| `Text.LowerChar` | files/aldap.py:63-64 | An ASCII upper-case letter becomes its lower-case letter, 32 code points higher; any other character is kept; the result is never upper-case |
| `Text.ReplaceAll` | files/aldap.py:33 | `str.replace`, scanning left to right over non-overlapping occurrences. Characterised by `Text.ReplaceAbsent`, `Text.ReplaceBySelf` and `Text.ReplaceFirstOccurrence` |
| `GroupMatch.ParseCN` | files/aldap.py:60 | Raises (`MalformedGroupDn`) exactly when the DN does not start with `CN=`; otherwise it gives the CN that `GroupMatch.ExtractCN` characterises |
| `Policy.MatchList` | files/aldap.py:96 | `matches` for one pattern. Characterised by `Policy.MatchListMembers` (membership), `Policy.MatchListAppend` (order) and `Policy.MatchListCovers` |
| `Policy.Decide` | files/aldap.py:101-118 | The `or` / `and` / other decision on the finished match lists. Characterised by `Policy.OrRule`, `Policy.AndRule` and `Policy.OtherConditionalDenies` |
| `Policy.Validate` | files/aldap.py:92-118 | `validateGroups` on collected user groups: the AttributeError, or the decision. Characterised by the same three lemmas, and refined by `Authenticator.Aldap.ValidateGroups` |
| `SearchResult.Collected` | files/aldap.py:77-83 | The user groups collected from a search result, or the escaping KeyError. Characterised by `SearchResult.TreeGroupsMembers`, `SearchResult.TreeGroupsAppend` and `SearchResult.NoMappingsNoGroups`, and refined by `SearchResult.CollectUserGroups` |
| `GroupMatch.ExtractCN` | files/aldap.py:60 | The captured CN is a prefix of the text after `CN=`, made only of `[A-Za-z0-9_]`, ASCII whitespace and `]`, and the next character (if any) is not one of these |
| `GroupMatch.ExtractCNIsMaximalRun` | files/aldap.py:60 | The CN equals `s[..k]` if and only if `s[..k]` is all CN characters and `s[k]` is not one (or `k` is the end): it is the longest such run |
| `GroupMatch.ExtractCNLower` | files/aldap.py:60-64 | Extracting after lower-casing equals lower-casing after extracting, because the CN character class is closed under case |
| `GroupMatch.FindMatch` | files/aldap.py:58-70 | A DN not starting with `CN=` gives an error (never None). Otherwise the result is Some exactly when the folded pattern is a prefix of the folded CN and no line feed follows it (`.` does not match one), and Some always carries the whole folded CN |
| `GroupMatch.FindMatchLowersBothSides` | files/aldap.py:62-64 | Case-insensitive matching equals case-sensitive matching of the lower-cased pattern against the DN with a lower-cased CN part |
| `GroupMatch.FindMatchIgnoresCase` | files/aldap.py:62-68 | When case-insensitive, changing the case of the pattern or of the CN part of the DN does not change the result |
| `GroupMatch.FindMatchOfRun` | files/aldap.py:58-70 | For a DN whose CN is a run of CN characters ended by the end or by another character, the result is Some of the folded CN exactly when the folded pattern is a prefix of it with no line feed after, and None otherwise |
| `GroupMatch.FindMatchStopsAtHyphen` | files/aldap.py:60-68 | `Engineering` against `CN=Engineering-East...` gives `engineering` when case-insensitive and `Engineering` when case-sensitive |
| `Text.StripDomain` | files/aldap.py:32 | The stripped name is a suffix of the input. When something is removed, the removed part ends in a backslash at index 1 or later with no line feed before it. No later backslash qualifies, so the strip goes through the last one |
| `Text.StripDomainExample` | files/aldap.py:32 | `CORP\jdoe` becomes `jdoe` |
| `Text.StripDomainLeadingBackslash` | files/aldap.py:32 | `\name` is kept as it is for any name without another backslash: `.+` needs at least one character before the backslash |
| `Text.StripDomainQualified` | files/aldap.py:32 | `DOMAIN\name` becomes `name` for any non-empty domain without a line feed and any name without a backslash |
| `Text.StripDomainNoBackslash` | files/aldap.py:32 | A name with no backslash is used as it is |
| `Text.ReplaceAbsent` | files/aldap.py:33 | A filter with no occurrence of the placeholder is left unchanged |
| `Text.ReplaceBySelf` | files/aldap.py:33 | Replacing the placeholder by itself leaves the filter unchanged |
| `Text.ReplaceFirstOccurrence` | files/aldap.py:33 | For any text `a` in which no placeholder starts, `a + placeholder + b` becomes `a + name` followed by the replacement of `b`. The text before the first placeholder is kept, that placeholder becomes the user name, and the scan resumes after it |
| `Text.ReplaceSingleOccurrence` | files/aldap.py:33 | A filter holding the placeholder once, with no other copy of its first character, has exactly that occurrence replaced and the text around it kept |
| `Text.ConditionalSpellings` | files/aldap.py:18 | `AND`, `And`, `OR` and `Or` lower-case to the two recognised conditionals |
| `Authenticator.ResolvedFilterExample` | files/aldap.py:28-33 | `(sAMAccountName={username})` with the user `CORP\jdoe` resolves to `(sAMAccountName=jdoe)` |
| `Authenticator.Aldap.constructor` | files/aldap.py:8-18 | All configuration is stored as given, except the conditional, which is stored lower-cased. The user name and password start empty |
| `Authenticator.Aldap.SetUser` | files/aldap.py:28-33 | The user name and password are stored unstripped. The filter becomes the old filter with every `{username}` replaced by the stripped name. No other field changes |
| `Authenticator.BindIdentity` | files/aldap.py:121-124 | The identity starts with the raw user name. It continues with `@` and the domain when a domain is set, and is exactly the raw user name (backslash prefix kept) when not |
| `Authenticator.Aldap.AuthenticateUser` | files/aldap.py:120-141 | The result is true exactly when the bind as the composed identity, with the stored password, succeeds. Invalid credentials and directory errors give false |
| `Authenticator.Aldap.MatchesOf` | files/aldap.py:96 | A pattern's list is the model's match list over the user groups. It raises exactly when some user group lacks a leading `CN=` |
| `Authenticator.Aldap.ValidateGroups` | files/aldap.py:73-118 | The loops produce exactly the modelled result: the `matchesByGroup` count and `matchedGroups` decided by the configured conditional, or the AttributeError |
| `Authenticator.Aldap.ValidateSearchResult` | files/aldap.py:73-84 | The KeyError from collecting groups comes first. Otherwise the collected groups are validated |
| `SearchResult.CollectUserGroups` | files/aldap.py:77-83 | The nested loop yields the entries' `memberOf` lists concatenated in order. Non-mapping elements are skipped, and a mapping without `memberOf` raises |
| `SearchResult.CollectZone` | files/aldap.py:79-83 | The inner loop over one entry's elements yields their `memberOf` lists concatenated in order, or the KeyError exactly when some mapping lacks `memberOf` |
| `SearchResult.TreeGroupsMembers` | files/aldap.py:78-81 | A group is collected exactly when some element of some entry lists it under `memberOf` |
| `SearchResult.TreeGroupsAppend` | files/aldap.py:78-81 | Collection keeps entry order: the groups of `a + b` are the groups of `a` followed by those of `b` |
| `SearchResult.NoMappingsNoGroups` | files/aldap.py:39-51 | A result with no attribute mappings yields no groups. This covers the empty string returned when the search fails |
| `Policy.MatchListAppend` | files/aldap.py:96 | Match lists keep user-group order: the list for `a + b` is the list for `a` followed by the list for `b` |
| `Policy.MatchListMembers` | files/aldap.py:96 | A CN is in a pattern's list exactly when some user group matches with that CN and it is non-empty (`filter(None, ...)` drops None and "") |
| `Policy.MatchesByGroupCount` | files/aldap.py:94-99 | `len(matchesByGroup) <= len(groups)`, with equality exactly when every pattern's list is non-empty |
| `Policy.MatchesByGroupEntries` | files/aldap.py:94-99 | Every entry of `matchesByGroup` is a required pattern paired with its own non-empty list. `matchedGroups` is the concatenation of the lists held in `matchesByGroup` |
| `Policy.ExtendByPattern` | files/aldap.py:94-99 | The patterns are taken in order: one more pattern appends its entry (only when its list is non-empty) to the end of `matchesByGroup`, and its list to the end of `matchedGroups` |
| `Policy.MatchedGroupsEmpty` | files/aldap.py:94-99 | `matchedGroups` is empty exactly when no pattern has a match |
| `Policy.MatchedGroupsMembers` | files/aldap.py:92-99 | A CN is in `matchedGroups` exactly when some required pattern matches some user group with that CN |
| `Policy.OrRule` | files/aldap.py:103-107 | With `or`: an error if some user group is malformed and patterns were given. Otherwise `(True, matchedGroups)` exactly when some pattern matched, and `(False, [])` when none did |
| `Policy.AndRule` | files/aldap.py:109-112 | With `and`: an error if some user group is malformed and patterns were given. Otherwise `(True, matchedGroups)` exactly when every pattern matched, and `(False, [])` when one did not. No patterns gives `(True, [])` for any user groups |
| `Policy.OtherConditionalDenies` | files/aldap.py:113-115 | Any other conditional gives `(False, [])` whatever the patterns and user groups, unless the matching raised first |
| `Policy.MatchListCovers` | files/aldap.py:96 | A pattern that matches some user groups still matches any list holding all of those groups, whatever its order and whatever else it holds |
| `Policy.AuthorizationIsMonotonic` | files/aldap.py:103-112 | If the user is authorized, then any well-formed list holding all of the user's groups is authorized too, under either conditional. Groups may be added anywhere and the order may change |
| `Policy.OneGroupTwoPatterns` | files/aldap.py:94-118 | A user in `CN=Engineering,...` asked for `Admins` and `Engineering` is denied under `and`, and authorized with `["engineering"]` under `or` |

## Left out

- The LDAP client calls are not modelled: `ldap.set_option`,
  `ldap.initialize`, `simple_bind_s`, `search_s` and `unbind_s`
  (`files/aldap.py:20-24`, `35-51`, `130-131`). They are calls into the
  python-ldap library. A bind is a function parameter. The `search()` method,
  which binds with the user's own credentials and returns `""` on an
  LDAPError, is replaced by a search result passed in as a value.
- AuthenticateUser: an error raised by `unbind_s` after a successful bind is
  not modelled separately. It is inside the same `try`, so it is folded into
  the bind's `DirectoryOutcome`. Exceptions that are not LDAP errors are not
  modelled.
- The TLS setting that disables certificate checks (`files/aldap.py:20`) is
  transport configuration with no logic.
- Timing and logging (`time.time()`, `self.log.*`) have no effect on
  behaviour. Line 53 is dead code after the `return` at line 51.
- UTF-8 decoding (`decode`, `files/aldap.py:55-56` and the `map` at line 84)
  is not modelled. `memberOf` values are taken as already-decoded strings, so
  a UnicodeDecodeError is not modelled either.
- FindMatch: the caller's pattern is treated as literal text. The source
  compiles `pattern + '.*'` as a regular expression. So a pattern with regex
  metacharacters can match differently, and an invalid one gives None through
  the bare `except`. Neither case is covered.
- FindMatch: characters follow ASCII rules. `\w` is `[A-Za-z0-9_]`, `\s` is
  space, tab, line feed, carriage return, vertical tab and form feed, and
  `lower()` maps only `A`-`Z`. Python's Unicode classes and Unicode
  lower-casing are not modelled.
- The unused configuration fields `ldapEndpoint`, `searchBase`, `dnUsername`
  and `dnPassword` are stored by the constructor, but no modelled operation
  reads them.

/** The policy part of `Aldap.validateGroups`: one list of matching user groups
    per required pattern, the patterns whose list is non-empty, the flattened
    list of matched groups, and the `or` / `and` / anything-else decision. */
module Policy {
  import opened Outcomes
  import opened Text
  import opened GroupMatch

  /** `(bool, matchedGroups)`, the pair that `validateGroups` returns. */
  datatype Decision = Decision(authorized: bool, matchedGroups: seq<string>)

  /** Every user group starts with `CN=`, so that no findMatch call raises. */
  predicate WellFormed(userGroups: seq<string>)
  {
    forall j :: 0 <= j < |userGroups| ==> StartsWithCN(userGroups[j])
  }

  /** What one user group adds to a pattern's match list: `filter(None, ...)`
      drops None and "". A raising call adds nothing here; `Validate` reports it. */
  function Kept(found: Result<Option<string>>): seq<string>
  {
    match found
    case Ok(Some(cn)) => if cn == "" then [] else [cn]
    case _ => []
  }

  /** User group `dn` contributes `cn` to the match list of `pattern`. */
  predicate Hit(pattern: string, dn: string, caseSensitive: bool, cn: string)
  {
    FindMatch(pattern, dn, caseSensitive) == Ok(Some(cn)) && cn != ""
  }

  /** `matches` for one pattern: the findMatch results over the user groups,
      in their order, with falsy results removed. */
  function MatchList(pattern: string, userGroups: seq<string>, caseSensitive: bool): seq<string>
  {
    if userGroups == [] then []
    else
      var n := |userGroups| - 1;
      MatchList(pattern, userGroups[..n], caseSensitive) + Kept(FindMatch(pattern, userGroups[n], caseSensitive))
  }

  /** The match list of every required pattern, in pattern order. */
  function PatternLists(groups: seq<string>, userGroups: seq<string>, caseSensitive: bool): (lists: seq<seq<string>>)
    ensures |lists| == |groups|
    ensures forall i :: 0 <= i < |groups| ==> lists[i] == MatchList(groups[i], userGroups, caseSensitive)
  {
    seq(|groups|, i requires 0 <= i < |groups| => MatchList(groups[i], userGroups, caseSensitive))
  }

  /** The `(group, matches)` pairs appended to `matchesByGroup`: one per
      pattern whose list is non-empty, in pattern order. */
  function Recorded(groups: seq<string>, lists: seq<seq<string>>): seq<(string, seq<string>)>
    requires |lists| == |groups|
  {
    if groups == [] then []
    else
      var n := |groups| - 1;
      Recorded(groups[..n], lists[..n]) + (if lists[n] != [] then [(groups[n], lists[n])] else [])
  }

  /** The lists, concatenated in order (`matchedGroups.extend`). */
  function Flatten(lists: seq<seq<string>>): seq<string>
  {
    if lists == [] then [] else Flatten(lists[..|lists| - 1]) + lists[|lists| - 1]
  }

  /** `matchesByGroup` after the loop over the required patterns. */
  function MatchesByGroup(groups: seq<string>, userGroups: seq<string>, caseSensitive: bool): seq<(string, seq<string>)>
  {
    Recorded(groups, PatternLists(groups, userGroups, caseSensitive))
  }

  /** `matchedGroups` after the loop over the required patterns. */
  function MatchedGroups(groups: seq<string>, userGroups: seq<string>, caseSensitive: bool): seq<string>
  {
    Flatten(PatternLists(groups, userGroups, caseSensitive))
  }

  /** The concatenation of the lists recorded in a `matchesByGroup` value. */
  function Concat(entries: seq<(string, seq<string>)>): seq<string>
  {
    if entries == [] then [] else Concat(entries[..|entries| - 1]) + entries[|entries| - 1].1
  }

  function Decide(conditional: string, groups: seq<string>, userGroups: seq<string>, caseSensitive: bool): Decision
  {
    var matchedGroups := MatchedGroups(groups, userGroups, caseSensitive);
    if conditional == "or" then
      if matchedGroups != [] then Decision(true, matchedGroups) else Decision(false, [])
    else if conditional == "and" then
      if |groups| == |MatchesByGroup(groups, userGroups, caseSensitive)| then Decision(true, matchedGroups)
      else Decision(false, [])
    else Decision(false, [])
  }

  /** `validateGroups(groups)` on already-decoded user groups: a malformed user
      group raises as soon as some pattern is matched against it. */
  function Validate(conditional: string, caseSensitive: bool, groups: seq<string>, userGroups: seq<string>): Result<Decision>
  {
    if groups != [] && !WellFormed(userGroups) then Err(MalformedGroupDn)
    else Ok(Decide(conditional, groups, userGroups, caseSensitive))
  }

  // ---------------------------------------------------------------------------
  // Match lists

  /** Match lists are built in user-group order: the list for a concatenation
      is the concatenation of the lists. */
  lemma {:induction false} MatchListAppend(pattern: string, a: seq<string>, b: seq<string>, caseSensitive: bool)
    ensures MatchList(pattern, a + b, caseSensitive) == MatchList(pattern, a, caseSensitive) + MatchList(pattern, b, caseSensitive)
    decreases |b|
  {
    if b == [] {
      assert a + b == a;
    } else {
      var n := |b| - 1;
      assert (a + b)[..|a + b| - 1] == a + b[..n];
      assert (a + b)[|a + b| - 1] == b[n];
      MatchListAppend(pattern, a, b[..n], caseSensitive);
    }
  }

  /** One more user group extends a match list by what that group contributes. */
  lemma MatchListStep(pattern: string, userGroups: seq<string>, j: nat, caseSensitive: bool)
    requires j < |userGroups|
    ensures MatchList(pattern, userGroups[..j + 1], caseSensitive) ==
      MatchList(pattern, userGroups[..j], caseSensitive) + Kept(FindMatch(pattern, userGroups[j], caseSensitive))
  {
    assert userGroups[..j + 1][..j] == userGroups[..j];
    assert userGroups[..j + 1][j] == userGroups[j];
  }

  /** One more user group keeps the groups well formed exactly when it starts with `CN=`. */
  lemma WellFormedStep(userGroups: seq<string>, j: nat)
    requires j < |userGroups|
    ensures WellFormed(userGroups[..j + 1]) <==> WellFormed(userGroups[..j]) && StartsWithCN(userGroups[j])
  {
    assert userGroups[..j + 1][j] == userGroups[j];
    assert forall k :: 0 <= k < j ==> userGroups[..j + 1][k] == userGroups[..j][k];
  }

  /** The findMatch results of one pattern over the user groups, in order. */
  function Results(pattern: string, userGroups: seq<string>, caseSensitive: bool): (found: seq<Result<Option<string>>>)
    ensures |found| == |userGroups|
    ensures forall j :: 0 <= j < |userGroups| ==> found[j] == FindMatch(pattern, userGroups[j], caseSensitive)
  {
    seq(|userGroups|, j requires 0 <= j < |userGroups| => FindMatch(pattern, userGroups[j], caseSensitive))
  }

  /** `filter(None, found)` over any list of findMatch results. */
  function KeptAll(found: seq<Result<Option<string>>>): seq<string>
  {
    if found == [] then [] else KeptAll(found[..|found| - 1]) + Kept(found[|found| - 1])
  }

  /** A non-empty found CN is kept. */
  lemma {:induction false} KeptAllHas(found: seq<Result<Option<string>>>, cn: string, j: nat)
    requires j < |found| && found[j] == Ok(Some(cn)) && cn != ""
    ensures cn in KeptAll(found)
  {
    var n := |found| - 1;
    assert KeptAll(found) == KeptAll(found[..n]) + Kept(found[n]);
    if j < n {
      assert found[..n][j] == found[j];
      KeptAllHas(found[..n], cn, j);
    } else {
      assert Kept(found[n]) == [cn];
    }
  }

  /** The result a kept CN comes from. */
  lemma {:induction false} KeptAllSource(found: seq<Result<Option<string>>>, cn: string) returns (j: nat)
    requires cn in KeptAll(found)
    ensures j < |found| && found[j] == Ok(Some(cn)) && cn != ""
  {
    var n := |found| - 1;
    assert KeptAll(found) == KeptAll(found[..n]) + Kept(found[n]);
    if cn in Kept(found[n]) {
      j := n;
    } else {
      j := KeptAllSource(found[..n], cn);
      assert found[..n][j] == found[j];
    }
  }

  lemma KeptAllMembers(found: seq<Result<Option<string>>>, cn: string)
    ensures cn in KeptAll(found) <==> exists j :: 0 <= j < |found| && found[j] == Ok(Some(cn)) && cn != ""
  {
    if cn in KeptAll(found) {
      var j := KeptAllSource(found, cn);
    }
    if exists j :: 0 <= j < |found| && found[j] == Ok(Some(cn)) && cn != "" {
      var j :| 0 <= j < |found| && found[j] == Ok(Some(cn)) && cn != "";
      KeptAllHas(found, cn, j);
    }
  }

  /** A pattern's match list is `filter(None, ...)` of its findMatch results. */
  lemma {:induction false} MatchListIsKeptAll(pattern: string, userGroups: seq<string>, caseSensitive: bool)
    ensures MatchList(pattern, userGroups, caseSensitive) == KeptAll(Results(pattern, userGroups, caseSensitive))
  {
    if userGroups != [] {
      var n := |userGroups| - 1;
      MatchListIsKeptAll(pattern, userGroups[..n], caseSensitive);
      assert Results(pattern, userGroups, caseSensitive)[..n] == Results(pattern, userGroups[..n], caseSensitive);
    }
  }

  /** An element is in a pattern's match list exactly when some user group contributes it. */
  lemma MatchListMembers(pattern: string, userGroups: seq<string>, caseSensitive: bool, cn: string)
    ensures cn in MatchList(pattern, userGroups, caseSensitive) <==>
      exists j :: 0 <= j < |userGroups| && Hit(pattern, userGroups[j], caseSensitive, cn)
  {
    var found := Results(pattern, userGroups, caseSensitive);
    MatchListIsKeptAll(pattern, userGroups, caseSensitive);
    KeptAllMembers(found, cn);
    assert forall j :: 0 <= j < |userGroups| ==> (Hit(pattern, userGroups[j], caseSensitive, cn) <==> found[j] == Ok(Some(cn)) && cn != "");
  }

  // ---------------------------------------------------------------------------
  // matchesByGroup and matchedGroups, over any per-pattern lists

  lemma PatternListsExtend(groups: seq<string>, userGroups: seq<string>, caseSensitive: bool, i: nat)
    requires i < |groups|
    ensures PatternLists(groups[..i + 1], userGroups, caseSensitive) ==
      PatternLists(groups[..i], userGroups, caseSensitive) + [MatchList(groups[i], userGroups, caseSensitive)]
  {
  }

  /** One more pattern adds its pair when its list is non-empty, and its list to the flattening. */
  lemma RecordedExtend(groups: seq<string>, lists: seq<seq<string>>, group: string, matches: seq<string>)
    requires |lists| == |groups|
    ensures Recorded(groups + [group], lists + [matches]) ==
      Recorded(groups, lists) + (if matches != [] then [(group, matches)] else [])
    ensures Flatten(lists + [matches]) == Flatten(lists) + matches
  {
    assert (groups + [group])[..|groups|] == groups;
    assert (lists + [matches])[..|lists|] == lists;
  }

  /** Taking one more required pattern into account, as one iteration of the loop does. */
  lemma ExtendByPattern(groups: seq<string>, userGroups: seq<string>, caseSensitive: bool, i: nat)
    requires i < |groups|
    ensures var matches := MatchList(groups[i], userGroups, caseSensitive);
      && MatchesByGroup(groups[..i + 1], userGroups, caseSensitive) ==
         MatchesByGroup(groups[..i], userGroups, caseSensitive) + (if matches != [] then [(groups[i], matches)] else [])
      && MatchedGroups(groups[..i + 1], userGroups, caseSensitive) ==
         MatchedGroups(groups[..i], userGroups, caseSensitive) + matches
  {
    var lists := PatternLists(groups[..i], userGroups, caseSensitive);
    var matches := MatchList(groups[i], userGroups, caseSensitive);
    var longer := groups[..i + 1];
    assert longer == groups[..i] + [groups[i]];
    PatternListsExtend(groups, userGroups, caseSensitive, i);
    assert PatternLists(longer, userGroups, caseSensitive) == lists + [matches];
    RecordedExtend(groups[..i], lists, groups[i], matches);
    assert MatchesByGroup(longer, userGroups, caseSensitive) == Recorded(groups[..i] + [groups[i]], lists + [matches]);
    assert MatchedGroups(longer, userGroups, caseSensitive) == Flatten(lists + [matches]);
  }

  /** At most one pair per pattern, and one for every pattern exactly when no
      list is empty. */
  lemma {:induction false} RecordedCount(groups: seq<string>, lists: seq<seq<string>>)
    requires |lists| == |groups|
    ensures |Recorded(groups, lists)| <= |groups|
    ensures |Recorded(groups, lists)| == |groups| <==> forall i :: 0 <= i < |lists| ==> lists[i] != []
  {
    if groups != [] {
      var n := |groups| - 1;
      RecordedCount(groups[..n], lists[..n]);
      assert forall i :: 0 <= i < n ==> lists[..n][i] == lists[i];
    }
  }

  /** Every recorded pair is a required pattern with its own non-empty list. */
  lemma {:induction false} RecordedEntries(groups: seq<string>, lists: seq<seq<string>>)
    requires |lists| == |groups|
    ensures forall k :: 0 <= k < |Recorded(groups, lists)| ==>
      exists i :: 0 <= i < |groups| && Recorded(groups, lists)[k] == (groups[i], lists[i]) && lists[i] != []
  {
    if groups != [] {
      var n := |groups| - 1;
      var before := Recorded(groups[..n], lists[..n]);
      RecordedEntries(groups[..n], lists[..n]);
      forall k | 0 <= k < |Recorded(groups, lists)|
        ensures exists i :: 0 <= i < |groups| && Recorded(groups, lists)[k] == (groups[i], lists[i]) && lists[i] != []
      {
        if k < |before| {
          var i :| 0 <= i < n && before[k] == (groups[..n][i], lists[..n][i]) && lists[..n][i] != [];
          assert Recorded(groups, lists)[k] == (groups[i], lists[i]);
        } else {
          assert Recorded(groups, lists)[k] == (groups[n], lists[n]);
        }
      }
    } else {
      assert Recorded(groups, lists) == [];
    }
  }

  /** Flattening is the concatenation of the recorded lists: empty lists add nothing. */
  lemma {:induction false} FlattenIsConcatOfRecorded(groups: seq<string>, lists: seq<seq<string>>)
    requires |lists| == |groups|
    ensures Flatten(lists) == Concat(Recorded(groups, lists))
  {
    if groups != [] {
      var n := |groups| - 1;
      var before := Recorded(groups[..n], lists[..n]);
      FlattenIsConcatOfRecorded(groups[..n], lists[..n]);
      if lists[n] != [] {
        var extended := before + [(groups[n], lists[n])];
        assert extended[..|extended| - 1] == before;
      } else {
        assert before + [] == before;
      }
    }
  }

  /** An element is in the flattened lists exactly when it is in one of them. */
  lemma {:induction false} FlattenMembers(lists: seq<seq<string>>, cn: string)
    ensures cn in Flatten(lists) <==> exists i :: 0 <= i < |lists| && cn in lists[i]
  {
    if lists != [] {
      var n := |lists| - 1;
      FlattenMembers(lists[..n], cn);
      if exists i :: 0 <= i < |lists| && cn in lists[i] {
        var i :| 0 <= i < |lists| && cn in lists[i];
        if i < n {
          assert cn in lists[..n][i];
        }
      }
    }
  }

  lemma {:induction false} FlattenEmpty(lists: seq<seq<string>>)
    ensures Flatten(lists) == [] <==> forall i :: 0 <= i < |lists| ==> lists[i] == []
  {
    if lists != [] {
      var n := |lists| - 1;
      FlattenEmpty(lists[..n]);
      assert forall i :: 0 <= i < n ==> lists[..n][i] == lists[i];
    }
  }

  /** `len(matchesByGroup) <= len(groups)`, with equality exactly when every
      pattern has a non-empty match list. */
  lemma MatchesByGroupCount(groups: seq<string>, userGroups: seq<string>, caseSensitive: bool)
    ensures |MatchesByGroup(groups, userGroups, caseSensitive)| <= |groups|
    ensures |MatchesByGroup(groups, userGroups, caseSensitive)| == |groups| <==>
      forall i :: 0 <= i < |groups| ==> MatchList(groups[i], userGroups, caseSensitive) != []
  {
    RecordedCount(groups, PatternLists(groups, userGroups, caseSensitive));
  }

  /** Every entry of `matchesByGroup` is a required pattern paired with its own
      non-empty match list, and `matchedGroups` is their concatenation. */
  lemma MatchesByGroupEntries(groups: seq<string>, userGroups: seq<string>, caseSensitive: bool)
    ensures var entries := MatchesByGroup(groups, userGroups, caseSensitive);
      (forall k :: 0 <= k < |entries| ==>
        entries[k].0 in groups && entries[k].1 != [] && entries[k].1 == MatchList(entries[k].0, userGroups, caseSensitive))
      && MatchedGroups(groups, userGroups, caseSensitive) == Concat(entries)
  {
    var lists := PatternLists(groups, userGroups, caseSensitive);
    RecordedEntries(groups, lists);
    FlattenIsConcatOfRecorded(groups, lists);
  }

  /** `matchedGroups` is empty exactly when no pattern has a match. */
  lemma MatchedGroupsEmpty(groups: seq<string>, userGroups: seq<string>, caseSensitive: bool)
    ensures MatchedGroups(groups, userGroups, caseSensitive) == [] <==>
      forall i :: 0 <= i < |groups| ==> MatchList(groups[i], userGroups, caseSensitive) == []
  {
    FlattenEmpty(PatternLists(groups, userGroups, caseSensitive));
  }

  /** An element of `matchedGroups` is the (folded) CN of some user group that
      some required pattern matches, and every such CN is there. */
  lemma MatchedGroupsMembers(groups: seq<string>, userGroups: seq<string>, caseSensitive: bool, cn: string)
    ensures cn in MatchedGroups(groups, userGroups, caseSensitive) <==>
      exists i, j :: 0 <= i < |groups| && 0 <= j < |userGroups| && Hit(groups[i], userGroups[j], caseSensitive, cn)
  {
    var lists := PatternLists(groups, userGroups, caseSensitive);
    FlattenMembers(lists, cn);
    forall i | 0 <= i < |groups|
      ensures cn in lists[i] <==> exists j :: 0 <= j < |userGroups| && Hit(groups[i], userGroups[j], caseSensitive, cn)
    {
      MatchListMembers(groups[i], userGroups, caseSensitive, cn);
    }
  }

  // ---------------------------------------------------------------------------
  // The decision

  /** `or`: authorized exactly when some pattern matched, and then with all
      matched groups; otherwise `(False, [])`. A malformed user group raises. */
  lemma OrRule(caseSensitive: bool, groups: seq<string>, userGroups: seq<string>)
    ensures var r := Validate("or", caseSensitive, groups, userGroups);
      if groups != [] && !WellFormed(userGroups) then r == Err(MalformedGroupDn)
      else
        r.Ok?
        && (r.value.authorized <==> exists i :: 0 <= i < |groups| && MatchList(groups[i], userGroups, caseSensitive) != [])
        && r.value.matchedGroups == if r.value.authorized then MatchedGroups(groups, userGroups, caseSensitive) else []
  {
    if groups == [] || WellFormed(userGroups) {
      MatchedGroupsEmpty(groups, userGroups, caseSensitive);
    }
  }

  /** `and`: authorized exactly when every pattern matched, and then with all
      matched groups; otherwise `(False, [])`. No patterns at all authorizes,
      whatever the user groups are. */
  lemma AndRule(caseSensitive: bool, groups: seq<string>, userGroups: seq<string>)
    ensures var r := Validate("and", caseSensitive, groups, userGroups);
      if groups != [] && !WellFormed(userGroups) then r == Err(MalformedGroupDn)
      else
        r.Ok?
        && (r.value.authorized <==> forall i :: 0 <= i < |groups| ==> MatchList(groups[i], userGroups, caseSensitive) != [])
        && r.value.matchedGroups == if r.value.authorized then MatchedGroups(groups, userGroups, caseSensitive) else []
    ensures groups == [] ==> Validate("and", caseSensitive, groups, userGroups) == Ok(Decision(true, []))
  {
    if groups == [] || WellFormed(userGroups) {
      MatchesByGroupCount(groups, userGroups, caseSensitive);
    }
  }

  /** Any other conditional denies, whatever the patterns and user groups, once
      the matching has not raised. */
  lemma OtherConditionalDenies(conditional: string, caseSensitive: bool, groups: seq<string>, userGroups: seq<string>)
    requires conditional != "or" && conditional != "and"
    ensures Validate(conditional, caseSensitive, groups, userGroups) ==
      if groups != [] && !WellFormed(userGroups) then Err(MalformedGroupDn) else Ok(Decision(false, []))
  {
  }

  /** A pattern that matches some of the user's groups still matches any list
      of user groups that contains all of them, in whatever order and with
      whatever else the directory returns. */
  lemma MatchListCovers(pattern: string, userGroups: seq<string>, more: seq<string>, caseSensitive: bool)
    requires forall g :: g in userGroups ==> g in more
    ensures MatchList(pattern, userGroups, caseSensitive) != [] ==> MatchList(pattern, more, caseSensitive) != []
  {
    var list := MatchList(pattern, userGroups, caseSensitive);
    if list != [] {
      var cn := list[0];
      MatchListMembers(pattern, userGroups, caseSensitive, cn);
      var j :| 0 <= j < |userGroups| && Hit(pattern, userGroups[j], caseSensitive, cn);
      assert userGroups[j] in more;
      var k :| 0 <= k < |more| && more[k] == userGroups[j];
      MatchListMembers(pattern, more, caseSensitive, cn);
    }
  }

  /** Adding user groups never turns an authorization into a denial, under
      `or` and under `and`: any well-formed list holding all the user's groups
      is authorized too. */
  lemma AuthorizationIsMonotonic(conditional: string, caseSensitive: bool, groups: seq<string>,
                                 userGroups: seq<string>, more: seq<string>)
    requires WellFormed(more)
    requires forall g :: g in userGroups ==> g in more
    requires Validate(conditional, caseSensitive, groups, userGroups).Ok?
    requires Validate(conditional, caseSensitive, groups, userGroups).value.authorized
    ensures Validate(conditional, caseSensitive, groups, more).Ok?
    ensures Validate(conditional, caseSensitive, groups, more).value.authorized
  {
    forall pattern ensures MatchList(pattern, userGroups, caseSensitive) != [] ==> MatchList(pattern, more, caseSensitive) != [] {
      MatchListCovers(pattern, userGroups, more, caseSensitive);
    }
    if conditional == "or" {
      OrRule(caseSensitive, groups, userGroups);
      OrRule(caseSensitive, groups, more);
    } else if conditional == "and" {
      AndRule(caseSensitive, groups, userGroups);
      AndRule(caseSensitive, groups, more);
    }
  }

  /** findMatch of `Admins` and of `Engineering` against `CN=Engineering` followed
      by the rest of the DN, case-insensitively. */
  lemma EngineeringFindings(rest: string)
    requires rest == [] || !IsCnChar(rest[0])
    ensures FindMatch("Admins", "CN=Engineering" + rest, false) == Ok(None)
    ensures FindMatch("Engineering", "CN=Engineering" + rest, false) == Ok(Some("engineering"))
  {
    var name := "Engineering";
    assert "CN=Engineering" + rest == "CN=" + name + rest;
    FindMatchOfRun("Admins", name, rest, false);
    FindMatchOfRun(name, name, rest, false);
    LowerExamples();
    var cn := Lower(name);
    assert !("admins" <= cn) by { assert cn[0] != 'a'; }
    assert FullMatchesPrefix(cn, cn);
  }

  lemma EngineeringMatchLists(rest: string)
    requires rest == [] || !IsCnChar(rest[0])
    ensures WellFormed(["CN=Engineering" + rest])
    ensures MatchList("Admins", ["CN=Engineering" + rest], false) == []
    ensures MatchList("Engineering", ["CN=Engineering" + rest], false) == ["engineering"]
  {
    var dn := "CN=Engineering" + rest;
    assert dn[..3] == "CN=";
    EngineeringFindings(rest);
    assert [dn][..0] == [];
  }

  /** A user in one group, `CN=Engineering` followed by the rest of its DN,
      asked for `Admins` and `Engineering`: `and` denies, `or` authorizes with
      the lower-cased CN. */
  lemma OneGroupTwoPatterns(rest: string)
    requires rest == [] || !IsCnChar(rest[0])
    ensures Validate("and", false, ["Admins", "Engineering"], ["CN=Engineering" + rest]) == Ok(Decision(false, []))
    ensures Validate("or", false, ["Admins", "Engineering"], ["CN=Engineering" + rest]) == Ok(Decision(true, ["engineering"]))
  {
    var userGroups := ["CN=Engineering" + rest];
    EngineeringMatchLists(rest);
    var groups := ["Admins", "Engineering"];
    var lists := PatternLists(groups, userGroups, false);
    assert lists == [[], ["engineering"]];
    assert lists[..1] == [[]] && lists[..1][..0] == [];
    assert Flatten(lists[..1]) == [];
    assert Flatten(lists) == ["engineering"];
    assert groups[..1] == ["Admins"];
    assert |Recorded(groups[..1], lists[..1])| == 0;
    assert |Recorded(groups, lists)| == 1;
  }
}

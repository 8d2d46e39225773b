/** The walk over the raw search result in `Aldap.validateGroups`: every
    element of every returned entry is indexed with 'memberOf'. A non-mapping
    element raises a TypeError, which is caught and skipped; a mapping without
    the key raises a KeyError, which escapes. */
module SearchResult {
  import opened Outcomes

  datatype Element =
    | Mapping(attributes: map<string, seq<string>>)   // an attribute dictionary
    | NonMapping                                       // a DN string, None, a referral list

  predicate LacksMemberOf(element: Element)
  {
    element.Mapping? && "memberOf" !in element.attributes
  }

  /** What `userGroups.extend(element['memberOf'])` adds for one element. */
  function ElementGroups(element: Element): seq<string>
  {
    if element.Mapping? && "memberOf" in element.attributes then element.attributes["memberOf"] else []
  }

  function ZoneGroups(zone: seq<Element>): seq<string>
  {
    if zone == [] then [] else ZoneGroups(zone[..|zone| - 1]) + ElementGroups(zone[|zone| - 1])
  }

  function TreeGroups(tree: seq<seq<Element>>): seq<string>
  {
    if tree == [] then [] else TreeGroups(tree[..|tree| - 1]) + ZoneGroups(tree[|tree| - 1])
  }

  /** No element of one entry raises a KeyError. */
  predicate ZoneComplete(zone: seq<Element>)
  {
    forall k :: 0 <= k < |zone| ==> !LacksMemberOf(zone[k])
  }

  /** No element of the tree raises a KeyError. */
  predicate Complete(tree: seq<seq<Element>>)
  {
    forall i :: 0 <= i < |tree| ==> ZoneComplete(tree[i])
  }

  /** The user groups collected from the tree, or the escaping KeyError. */
  function Collected(tree: seq<seq<Element>>): Result<seq<string>>
  {
    if Complete(tree) then Ok(TreeGroups(tree)) else Err(MissingMemberOf)
  }

  /** The inner loop of lines 79-83, over the elements of one entry. The groups
      it extends are discarded when a KeyError escapes, so it collects them apart. */
  method CollectZone(zone: seq<Element>) returns (r: Result<seq<string>>)
    ensures r == if ZoneComplete(zone) then Ok(ZoneGroups(zone)) else Err(MissingMemberOf)
  {
    var groups: seq<string> := [];
    for j := 0 to |zone|
      invariant forall k :: 0 <= k < j ==> !LacksMemberOf(zone[k])
      invariant groups == ZoneGroups(zone[..j])
    {
      var element := zone[j];
      if element.Mapping? {
        if "memberOf" !in element.attributes {
          assert LacksMemberOf(zone[j]);
          return Err(MissingMemberOf);
        }
        groups := groups + element.attributes["memberOf"];
      }
      ZoneGroupsStep(zone, j);
    }
    assert zone[..|zone|] == zone;
    return Ok(groups);
  }

  /** The nested loop of lines 77-83. */
  method CollectUserGroups(tree: seq<seq<Element>>) returns (r: Result<seq<string>>)
    ensures r == Collected(tree)
  {
    var userGroups: seq<string> := [];
    for i := 0 to |tree|
      invariant Complete(tree[..i])
      invariant userGroups == TreeGroups(tree[..i])
    {
      var zoneGroups := CollectZone(tree[i]);
      if zoneGroups.Err? {
        assert !ZoneComplete(tree[i]);
        return Err(MissingMemberOf);
      }
      TreeStep(tree, i);
      userGroups := userGroups + zoneGroups.value;
    }
    assert tree[..|tree|] == tree;
    return Ok(userGroups);
  }

  /** One more element adds its `memberOf` values. */
  lemma ZoneGroupsStep(zone: seq<Element>, j: nat)
    requires j < |zone|
    ensures ZoneGroups(zone[..j + 1]) == ZoneGroups(zone[..j]) + ElementGroups(zone[j])
  {
    assert zone[..j + 1][..j] == zone[..j];
    assert zone[..j + 1][j] == zone[j];
  }

  /** One more entry adds its groups, and keeps the prefix complete exactly when
      none of its elements lacks `memberOf`. */
  lemma TreeStep(tree: seq<seq<Element>>, i: nat)
    requires i < |tree|
    ensures TreeGroups(tree[..i + 1]) == TreeGroups(tree[..i]) + ZoneGroups(tree[i])
    ensures Complete(tree[..i + 1]) <==> Complete(tree[..i]) && ZoneComplete(tree[i])
  {
    var done := tree[..i + 1];
    assert done[..i] == tree[..i];
    assert done[i] == tree[i];
    assert forall a :: 0 <= a < i ==> done[a] == tree[..i][a];
  }

  /** The groups of an element are among the groups of its entry. */
  lemma {:induction false} ZoneGroupsHas(zone: seq<Element>, g: string, j: nat)
    requires j < |zone| && g in ElementGroups(zone[j])
    ensures g in ZoneGroups(zone)
  {
    var n := |zone| - 1;
    assert ZoneGroups(zone) == ZoneGroups(zone[..n]) + ElementGroups(zone[n]);
    if j < n {
      assert zone[..n][j] == zone[j];
      ZoneGroupsHas(zone[..n], g, j);
    }
  }

  /** An element of the entry that contributes a given group. */
  lemma {:induction false} ZoneGroupsSource(zone: seq<Element>, g: string) returns (j: nat)
    requires g in ZoneGroups(zone)
    ensures j < |zone| && g in ElementGroups(zone[j])
  {
    var n := |zone| - 1;
    assert ZoneGroups(zone) == ZoneGroups(zone[..n]) + ElementGroups(zone[n]);
    if g in ElementGroups(zone[n]) {
      j := n;
    } else {
      j := ZoneGroupsSource(zone[..n], g);
      assert zone[..n][j] == zone[j];
    }
  }

  lemma ZoneGroupsMembers(zone: seq<Element>, g: string)
    ensures g in ZoneGroups(zone) <==> exists j :: 0 <= j < |zone| && g in ElementGroups(zone[j])
  {
    if g in ZoneGroups(zone) {
      var j := ZoneGroupsSource(zone, g);
    }
    if exists j :: 0 <= j < |zone| && g in ElementGroups(zone[j]) {
      var j :| 0 <= j < |zone| && g in ElementGroups(zone[j]);
      ZoneGroupsHas(zone, g, j);
    }
  }

  /** The groups of an entry are among the collected groups. */
  lemma {:induction false} TreeGroupsHas(tree: seq<seq<Element>>, g: string, i: nat)
    requires i < |tree| && g in ZoneGroups(tree[i])
    ensures g in TreeGroups(tree)
  {
    var n := |tree| - 1;
    assert TreeGroups(tree) == TreeGroups(tree[..n]) + ZoneGroups(tree[n]);
    if i < n {
      assert tree[..n][i] == tree[i];
      TreeGroupsHas(tree[..n], g, i);
    }
  }

  /** The entry that contributes a given collected group. */
  lemma {:induction false} TreeGroupsSource(tree: seq<seq<Element>>, g: string) returns (i: nat)
    requires g in TreeGroups(tree)
    ensures i < |tree| && g in ZoneGroups(tree[i])
  {
    var n := |tree| - 1;
    assert TreeGroups(tree) == TreeGroups(tree[..n]) + ZoneGroups(tree[n]);
    if g in ZoneGroups(tree[n]) {
      i := n;
    } else {
      i := TreeGroupsSource(tree[..n], g);
      assert tree[..n][i] == tree[i];
    }
  }

  /** A group is collected exactly when some element of some entry lists it under 'memberOf'. */
  lemma TreeGroupsMembers(tree: seq<seq<Element>>, g: string)
    ensures g in TreeGroups(tree) <==>
      exists i, j :: 0 <= i < |tree| && 0 <= j < |tree[i]| && g in ElementGroups(tree[i][j])
  {
    if g in TreeGroups(tree) {
      var i := TreeGroupsSource(tree, g);
      var j := ZoneGroupsSource(tree[i], g);
    }
    if exists i, j :: 0 <= i < |tree| && 0 <= j < |tree[i]| && g in ElementGroups(tree[i][j]) {
      var i, j :| 0 <= i < |tree| && 0 <= j < |tree[i]| && g in ElementGroups(tree[i][j]);
      ZoneGroupsHas(tree[i], g, j);
      TreeGroupsHas(tree, g, i);
    }
  }

  /** Entries are collected in order: the groups of a longer result extend those of its prefix. */
  lemma {:induction false} TreeGroupsAppend(a: seq<seq<Element>>, b: seq<seq<Element>>)
    ensures TreeGroups(a + b) == TreeGroups(a) + TreeGroups(b)
    decreases |b|
  {
    if b == [] {
      assert a + b == a;
    } else {
      var n := |b| - 1;
      var ab := a + b;
      assert ab[..|ab| - 1] == a + b[..n];
      assert ab[|ab| - 1] == b[n];
      assert TreeGroups(ab) == TreeGroups(a + b[..n]) + ZoneGroups(b[n]);
      TreeGroupsAppend(a, b[..n]);
      assert TreeGroups(b) == TreeGroups(b[..n]) + ZoneGroups(b[n]);
    }
  }

  /** A result whose elements are all non-mappings (a failed search returns
      an empty string, which has no elements at all) yields no groups. */
  lemma {:induction false} NoMappingsNoGroups(tree: seq<seq<Element>>)
    requires forall i, j :: 0 <= i < |tree| && 0 <= j < |tree[i]| ==> tree[i][j] == NonMapping
    ensures Collected(tree) == Ok([])
  {
    forall g ensures g !in TreeGroups(tree) {
      TreeGroupsMembers(tree, g);
    }
    assert TreeGroups(tree) == [] by {
      if TreeGroups(tree) != [] {
        assert TreeGroups(tree)[0] in TreeGroups(tree);
      }
    }
  }
}

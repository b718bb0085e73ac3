/**
 * The resolution loop of `applyPermissions`: classify the player once, walk the
 * catalog in insertion order, and for every matching group grant its nodes,
 * count them and record its name.
 */
module Resolution {
  import opened Catalog
  import opened Detection
  import opened Matching

  /** What one walk over the catalog yields: the granted nodes, the applied group names, the raw count. */
  datatype Grants = Grants(granted: set<string>, applied: seq<string>, total: nat)

  /** The outcome of resolving one player: the edition and the grants. */
  datatype Outcome = Outcome(edition: Edition, grants: Grants)

  /** The nodes of a permission list, duplicates collapsed. */
  function NodeSet(permissions: seq<string>): (r: set<string>)
    ensures forall p :: p in r <==> p in permissions
  {
    set p | p in permissions
  }

  /** The walk over a catalog for a player name and edition, group by group, in catalog order. */
  function Collect(catalog: seq<PermissionGroup>, name: string, e: Edition): Grants {
    if catalog == [] then Grants({}, [], 0)
    else
      var prev := Collect(catalog[..|catalog| - 1], name, e);
      var g := catalog[|catalog| - 1];
      if ShouldApplyGroup(name, g, e) then
        Grants(prev.granted + NodeSet(g.permissions), prev.applied + [g.name], prev.total + |g.permissions|)
      else prev
  }

  /**
   * The resolution of a player against the loaded settings: the player is
   * classified once, and a node is granted exactly when some group that applies
   * to that edition and name lists it.
   */
  function Resolve(settings: Settings, player: Player): (r: Outcome)
    ensures r.edition == Classify(settings, player)
    ensures forall p :: p in r.grants.granted <==>
      exists i :: 0 <= i < |settings.catalog|
        && ShouldApplyGroup(player.name, settings.catalog[i], r.edition)
        && p in settings.catalog[i].permissions
  {
    var e := Classify(settings, player);
    var r := Outcome(e, Collect(settings.catalog, player.name, e));
    assert forall p :: p in r.grants.granted <==>
      exists i :: 0 <= i < |settings.catalog|
        && ShouldApplyGroup(player.name, settings.catalog[i], e)
        && p in settings.catalog[i].permissions
    by {
      forall p {
        GrantedIsUnion(settings.catalog, player.name, e, p);
      }
    }
    r
  }

  /** Reference definition: the groups of the catalog that apply, in catalog order. */
  function MatchingGroups(catalog: seq<PermissionGroup>, name: string, e: Edition): (r: seq<PermissionGroup>)
    ensures |r| <= |catalog|
    ensures forall g :: g in r <==> g in catalog && ShouldApplyGroup(name, g, e)
  {
    if catalog == [] then []
    else
      var g := catalog[|catalog| - 1];
      MatchingGroups(catalog[..|catalog| - 1], name, e) + (if ShouldApplyGroup(name, g, e) then [g] else [])
  }

  /** The total length of the groups' permission lists, duplicates included. */
  function SumLengths(groups: seq<PermissionGroup>): nat {
    if groups == [] then 0 else SumLengths(groups[..|groups| - 1]) + |groups[|groups| - 1].permissions|
  }

  /** Filtering distributes over concatenation: it keeps the catalog's order. */
  lemma {:induction false} MatchingGroupsAppend(c1: seq<PermissionGroup>, c2: seq<PermissionGroup>, name: string, e: Edition)
    ensures MatchingGroups(c1 + c2, name, e) == MatchingGroups(c1, name, e) + MatchingGroups(c2, name, e)
    decreases |c2|
  {
    if c2 == [] {
      assert c1 + c2 == c1;
    } else {
      var c2' := c2[..|c2| - 1];
      var g := c2[|c2| - 1];
      var t := if ShouldApplyGroup(name, g, e) then [g] else [];
      var a, b := MatchingGroups(c1, name, e), MatchingGroups(c2', name, e);
      assert c2 == c2' + [g];
      ConcatAssociative(c1, c2', [g]);
      MatchingGroupsAppend(c1, c2', name, e);
      MatchingGroupsSnoc(c1 + c2', g, name, e);
      MatchingGroupsSnoc(c2', g, name, e);
      ConcatAssociative(a, b, t);
    }
  }

  /** Concatenation of sequences is associative. */
  lemma ConcatAssociative<T>(a: seq<T>, b: seq<T>, c: seq<T>)
    ensures (a + b) + c == a + (b + c)
  {
  }

  /** One group more at the end of the catalog is one more matching group if it applies. */
  lemma MatchingGroupsSnoc(catalog: seq<PermissionGroup>, g: PermissionGroup, name: string, e: Edition)
    ensures MatchingGroups(catalog + [g], name, e)
      == MatchingGroups(catalog, name, e) + if ShouldApplyGroup(name, g, e) then [g] else []
  {
    var c := catalog + [g];
    assert c[..|c| - 1] == catalog;
    assert c[|c| - 1] == g;
  }

  /** `appliedGroups` holds the names of exactly the matching groups, in catalog order. */
  lemma {:induction false} AppliedAreMatchingNames(catalog: seq<PermissionGroup>, name: string, e: Edition)
    ensures Collect(catalog, name, e).applied == Names(MatchingGroups(catalog, name, e))
  {
    if catalog != [] {
      var init := catalog[..|catalog| - 1];
      AppliedAreMatchingNames(init, name, e);
      var m := MatchingGroups(init, name, e);
      var g := catalog[|catalog| - 1];
      if ShouldApplyGroup(name, g, e) {
        assert Names(m + [g]) == Names(m) + [g.name];
      }
    }
  }

  /** `totalPermissions` is the summed length of the matching groups' lists, duplicates included. */
  lemma {:induction false} TotalCountsDuplicates(catalog: seq<PermissionGroup>, name: string, e: Edition)
    ensures Collect(catalog, name, e).total == SumLengths(MatchingGroups(catalog, name, e))
  {
    if catalog != [] {
      var init := catalog[..|catalog| - 1];
      TotalCountsDuplicates(init, name, e);
      var m := MatchingGroups(init, name, e);
      var g := catalog[|catalog| - 1];
      if ShouldApplyGroup(name, g, e) {
        assert MatchingGroups(catalog, name, e) == m + [g];
        assert (m + [g])[..|m + [g]| - 1] == m;
        assert SumLengths(m + [g]) == SumLengths(m) + |g.permissions|;
        assert Collect(catalog, name, e).total == Collect(init, name, e).total + |g.permissions|;
      } else {
        assert MatchingGroups(catalog, name, e) == m + [];
        assert m + [] == m;
      }
    }
  }

  /** A node is granted exactly when some matching group lists it. */
  lemma {:induction false} GrantedIsUnion(catalog: seq<PermissionGroup>, name: string, e: Edition, p: string)
    ensures p in Collect(catalog, name, e).granted
      <==> exists i :: 0 <= i < |catalog| && ShouldApplyGroup(name, catalog[i], e) && p in catalog[i].permissions
  {
    if catalog != [] {
      var init := catalog[..|catalog| - 1];
      var last := catalog[|catalog| - 1];
      assert catalog == init + [last];
      GrantedIsUnion(init, name, e, p);
      SupplierSnoc(init, last, name, e, p);
      assert p in Collect(catalog, name, e).granted <==>
        p in Collect(init, name, e).granted || (ShouldApplyGroup(name, last, e) && p in last.permissions);
    }
  }

  /** Some group of `init + [last]` supplies `p` iff one of `init` does or `last` does. */
  lemma SupplierSnoc(init: seq<PermissionGroup>, last: PermissionGroup, name: string, e: Edition, p: string)
    ensures (exists i :: 0 <= i < |init + [last]| && ShouldApplyGroup(name, (init + [last])[i], e)
               && p in (init + [last])[i].permissions)
      <==> ((exists i :: 0 <= i < |init| && ShouldApplyGroup(name, init[i], e) && p in init[i].permissions)
        || (ShouldApplyGroup(name, last, e) && p in last.permissions))
  {
    var catalog := init + [last];
    if exists i :: 0 <= i < |init| && ShouldApplyGroup(name, init[i], e) && p in init[i].permissions {
      var i :| 0 <= i < |init| && ShouldApplyGroup(name, init[i], e) && p in init[i].permissions;
      assert catalog[i] == init[i];
    }
    if ShouldApplyGroup(name, last, e) && p in last.permissions {
      assert catalog[|init|] == last;
    }
    if exists i :: 0 <= i < |catalog| && ShouldApplyGroup(name, catalog[i], e) && p in catalog[i].permissions {
      var i :| 0 <= i < |catalog| && ShouldApplyGroup(name, catalog[i], e) && p in catalog[i].permissions;
      if i < |init| {
        assert init[i] == catalog[i];
      }
    }
  }

  /** The granted set depends only on which groups the catalog holds, not on their order or repetition. */
  lemma GrantedDependsOnlyOnMembers(c1: seq<PermissionGroup>, c2: seq<PermissionGroup>, name: string, e: Edition)
    requires forall g :: g in c1 ==> g in c2
    ensures Collect(c1, name, e).granted <= Collect(c2, name, e).granted
  {
    forall p | p in Collect(c1, name, e).granted
      ensures p in Collect(c2, name, e).granted
    {
      GrantedIsUnion(c1, name, e, p);
      var i :| 0 <= i < |c1| && ShouldApplyGroup(name, c1[i], e) && p in c1[i].permissions;
      assert c1[i] in c2;
      var j :| 0 <= j < |c2| && c2[j] == c1[i];
      GrantedIsUnion(c2, name, e, p);
    }
  }

  /** Adding groups to the catalog, anywhere, can only add granted nodes. */
  lemma GrantedMonotone(c1: seq<PermissionGroup>, c2: seq<PermissionGroup>, name: string, e: Edition)
    requires multiset(c1) <= multiset(c2)
    ensures Collect(c1, name, e).granted <= Collect(c2, name, e).granted
  {
    forall g | g in c1
      ensures g in c2
    {
      assert g in multiset(c1);
    }
    GrantedDependsOnlyOnMembers(c1, c2, name, e);
  }

  /** Reordering the catalog does not change the granted set. */
  lemma GrantedOrderIndependent(c1: seq<PermissionGroup>, c2: seq<PermissionGroup>, name: string, e: Edition)
    requires multiset(c1) == multiset(c2)
    ensures Collect(c1, name, e).granted == Collect(c2, name, e).granted
  {
    assert |c1| == |multiset(c1)| == |c2|;
    GrantedMonotone(c1, c2, name, e);
    GrantedMonotone(c2, c1, name, e);
  }

  /** Duplicates collapse: the granted set is never larger than the raw count. */
  lemma {:induction false} GrantedAtMostTotal(catalog: seq<PermissionGroup>, name: string, e: Edition)
    ensures |Collect(catalog, name, e).granted| <= Collect(catalog, name, e).total
  {
    if catalog != [] {
      var init := catalog[..|catalog| - 1];
      GrantedAtMostTotal(init, name, e);
      var g := catalog[|catalog| - 1];
      var prev := Collect(init, name, e);
      if ShouldApplyGroup(name, g, e) {
        NodeSetAtMostLength(g.permissions);
        assert |prev.granted + NodeSet(g.permissions)| <= |prev.granted| + |NodeSet(g.permissions)|;
      }
    }
  }

  /** A list has at least as many entries as distinct entries. */
  lemma {:induction false} NodeSetAtMostLength(permissions: seq<string>)
    ensures |NodeSet(permissions)| <= |permissions|
  {
    if permissions != [] {
      var init := permissions[..|permissions| - 1];
      NodeSetAtMostLength(init);
      assert NodeSet(permissions) == NodeSet(init) + {permissions[|permissions| - 1]};
    }
  }

  /** No group applies exactly when the walk records no group; then nothing is granted and the count is 0. */
  lemma {:induction false} NoMatchMeansNothing(catalog: seq<PermissionGroup>, name: string, e: Edition)
    ensures (forall i :: 0 <= i < |catalog| ==> !ShouldApplyGroup(name, catalog[i], e))
      <==> Collect(catalog, name, e).applied == []
    ensures Collect(catalog, name, e).applied == [] ==> Collect(catalog, name, e) == Grants({}, [], 0)
  {
    if catalog != [] {
      var init := catalog[..|catalog| - 1];
      NoMatchMeansNothing(init, name, e);
      if forall i :: 0 <= i < |catalog| ==> !ShouldApplyGroup(name, catalog[i], e) {
        assert forall i :: 0 <= i < |init| ==> init[i] == catalog[i];
      }
      if Collect(catalog, name, e).applied == [] {
        forall i | 0 <= i < |catalog|
          ensures !ShouldApplyGroup(name, catalog[i], e)
        {
          if i < |init| {
            assert init[i] == catalog[i];
          }
        }
      }
    }
  }

  /** The plugin logs a grant line when the raw count is positive. */
  predicate ShouldLog(g: Grants) {
    g.total > 0
  }

  /** The log guard fires exactly when some matching group has a non-empty permission list. */
  lemma {:induction false} LogIffNonEmptyMatch(catalog: seq<PermissionGroup>, name: string, e: Edition)
    ensures ShouldLog(Collect(catalog, name, e))
      <==> exists i :: 0 <= i < |catalog| && ShouldApplyGroup(name, catalog[i], e) && catalog[i].permissions != []
  {
    if catalog != [] {
      var init := catalog[..|catalog| - 1];
      LogIffNonEmptyMatch(init, name, e);
      if exists i :: 0 <= i < |init| && ShouldApplyGroup(name, init[i], e) && init[i].permissions != [] {
        var i :| 0 <= i < |init| && ShouldApplyGroup(name, init[i], e) && init[i].permissions != [];
        assert catalog[i] == init[i];
      }
      if exists i :: 0 <= i < |catalog| && ShouldApplyGroup(name, catalog[i], e) && catalog[i].permissions != [] {
        var i :| 0 <= i < |catalog| && ShouldApplyGroup(name, catalog[i], e) && catalog[i].permissions != [];
        if i < |init| {
          assert init[i] == catalog[i];
        }
      }
    }
  }

  /** One group more of the catalog is one step of `Collect`. */
  lemma CollectStep(catalog: seq<PermissionGroup>, i: nat, name: string, e: Edition)
    requires i < |catalog|
    ensures Collect(catalog[..i + 1], name, e) ==
      var prev := Collect(catalog[..i], name, e);
      var g := catalog[i];
      if ShouldApplyGroup(name, g, e) then
        Grants(prev.granted + NodeSet(g.permissions), prev.applied + [g.name], prev.total + |g.permissions|)
      else prev
  {
    assert catalog[..i + 1][..i] == catalog[..i];
  }

  /** One node more of a list adds that node to its node set. */
  lemma NodeSetSnoc(permissions: seq<string>, j: nat)
    requires j < |permissions|
    ensures NodeSet(permissions[..j + 1]) == NodeSet(permissions[..j]) + {permissions[j]}
  {
    assert permissions[..j + 1] == permissions[..j] + [permissions[j]];
  }

  /**
   * The inner loop of `applyPermissions`: each node of the list is set on the
   * attachment and counted, duplicates included.
   */
  method AddNodes(granted: set<string>, total: nat, permissions: seq<string>) returns (granted': set<string>, total': nat)
    ensures granted' == granted + NodeSet(permissions)
    ensures total' == total + |permissions|
  {
    granted', total' := granted, total;
    var j := 0;
    while j < |permissions|
      invariant 0 <= j <= |permissions|
      invariant granted' == granted + NodeSet(permissions[..j])
      invariant total' == total + j
    {
      NodeSetSnoc(permissions, j);
      granted' := granted' + {permissions[j]};
      total' := total' + 1;
      j := j + 1;
    }
    assert permissions[..j] == permissions;
  }

  /**
   * The loop of `applyPermissions` as written: for each matching group, each node
   * is set on the attachment and counted, then the group's name is recorded.
   */
  method ApplyGroups(settings: Settings, player: Player) returns (r: Outcome)
    ensures r == Resolve(settings, player)
  {
    var e := Classify(settings, player);
    var catalog := settings.catalog;
    var granted: set<string> := {};
    var applied: seq<string> := [];
    var total: nat := 0;
    var i := 0;
    while i < |catalog|
      invariant 0 <= i <= |catalog|
      invariant Grants(granted, applied, total) == Collect(catalog[..i], player.name, e)
    {
      var g := catalog[i];
      CollectStep(catalog, i, player.name, e);
      if ShouldApplyGroup(player.name, g, e) {
        granted, total := AddNodes(granted, total, g.permissions);
        applied := applied + [g.name];
      }
      i := i + 1;
    }
    assert catalog[..i] == catalog;
    r := Outcome(e, Grants(granted, applied, total));
  }
}

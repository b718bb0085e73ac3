/**
 * The group catalog and the detection settings, as `loadConfigValues` builds them
 * from the already-parsed configuration document.
 */
module Catalog {
  import opened Wrappers

  /** One permission group: name, name-prefix filter, type filter and permission nodes. */
  datatype PermissionGroup = PermissionGroup(
    name: string,
    prefix: string,
    groupType: string,
    permissions: seq<string>)

  /** The keys of one `groups.<name>` section; `prefix` and `type` may be missing. */
  datatype GroupSection = GroupSection(
    prefix: Option<string>,
    groupType: Option<string>,
    permissions: seq<string>)

  /** A key under `groups`, with its section, or `None` when the value is not a section. */
  datatype GroupEntry = GroupEntry(name: string, section: Option<GroupSection>)

  /** The configuration document: the two detection keys and the `groups` section, each possibly missing. */
  datatype PluginConfig = PluginConfig(
    bedrockPrefix: Option<string>,
    uuidCheck: Option<bool>,
    groups: Option<seq<GroupEntry>>)

  /** The plugin's loaded configuration: detection settings and the insertion-ordered catalog. */
  datatype Settings = Settings(
    bedrockPrefix: string,
    useUuidCheck: bool,
    catalog: seq<PermissionGroup>)

  const DefaultBedrockPrefix: string := "."
  const DefaultUuidCheck: bool := true
  const DefaultGroupPrefix: string := ""
  const DefaultGroupType: string := "java"

  /** The group built from a section, with the `getString` defaults for missing keys. */
  function GroupFromSection(name: string, section: GroupSection): PermissionGroup {
    PermissionGroup(
      name,
      section.prefix.GetOr(DefaultGroupPrefix),
      section.groupType.GetOr(DefaultGroupType),
      section.permissions)
  }

  /** The group names of a catalog, in catalog order. */
  function Names(catalog: seq<PermissionGroup>): (r: seq<string>)
    ensures |r| == |catalog|
    ensures forall i :: 0 <= i < |catalog| ==> r[i] == catalog[i].name
  {
    if catalog == [] then [] else [catalog[0].name] + Names(catalog[1..])
  }

  /** Some group of the catalog is called `name`. */
  predicate HasName(catalog: seq<PermissionGroup>, name: string) {
    exists i :: 0 <= i < |catalog| && catalog[i].name == name
  }

  /** No two groups share a name: the catalog is a map keyed by name. */
  predicate DistinctNames(catalog: seq<PermissionGroup>) {
    forall i, j :: 0 <= i < j < |catalog| ==> catalog[i].name != catalog[j].name
  }

  /** Dropping the first group keeps the names distinct. */
  lemma DistinctNamesTail(catalog: seq<PermissionGroup>)
    requires DistinctNames(catalog) && catalog != []
    ensures DistinctNames(catalog[1..])
  {
    var tail := catalog[1..];
    forall i, j | 0 <= i < j < |tail|
      ensures tail[i].name != tail[j].name
    {
      assert tail[i] == catalog[i + 1] && tail[j] == catalog[j + 1];
    }
  }

  /**
   * `LinkedHashMap.put(g.name, g)`: a group of the same name is replaced where it
   * stands; otherwise `g` is appended at the end.
   */
  function Put(catalog: seq<PermissionGroup>, g: PermissionGroup): (r: seq<PermissionGroup>)
    requires DistinctNames(catalog)
    ensures DistinctNames(r)
    ensures g in r
    ensures forall h :: h in r ==> h == g || (h in catalog && h.name != g.name)
    ensures forall h :: h in catalog && h.name != g.name ==> h in r
  {
    if catalog == [] then [g]
    else if catalog[0].name == g.name then [g] + catalog[1..]
    else [catalog[0]] + Put(catalog[1..], g)
  }

  /** When the name is new, `put` appends the group at the end. */
  lemma {:induction false} PutNewNameAppends(catalog: seq<PermissionGroup>, g: PermissionGroup)
    requires DistinctNames(catalog)
    requires !HasName(catalog, g.name)
    ensures Put(catalog, g) == catalog + [g]
  {
    if catalog != [] {
      var rest := catalog[1..];
      assert !HasName(rest, g.name) by {
        forall i | 0 <= i < |rest|
          ensures rest[i].name != g.name
        {
          assert rest[i] == catalog[i + 1];
        }
      }
      PutNewNameAppends(rest, g);
      assert catalog + [g] == [catalog[0]] + (rest + [g]);
    }
  }

  /**
   * When the name is already present, `put` replaces that group where it stands
   * and every other group keeps its position.
   */
  lemma {:induction false} PutReplacesInPlace(catalog: seq<PermissionGroup>, g: PermissionGroup)
    requires DistinctNames(catalog)
    requires HasName(catalog, g.name)
    ensures |Put(catalog, g)| == |catalog|
    ensures forall i :: 0 <= i < |catalog| ==>
      Put(catalog, g)[i] == (if catalog[i].name == g.name then g else catalog[i])
  {
    if catalog[0].name != g.name {
      var rest := catalog[1..];
      assert HasName(rest, g.name) by {
        var k :| 0 <= k < |catalog| && catalog[k].name == g.name;
        assert rest[k - 1] == catalog[k];
      }
      PutReplacesInPlace(rest, g);
      PutPastHead(catalog, g);
    } else {
      PutAtHead(catalog, g);
    }
  }

  /**
   * One step of `PutReplacesInPlace`: past a head of another name, positions in
   * the tail shift by one.
   */
  lemma PutPastHead(catalog: seq<PermissionGroup>, g: PermissionGroup)
    requires DistinctNames(catalog)
    requires catalog != [] && catalog[0].name != g.name
    requires |Put(catalog[1..], g)| == |catalog| - 1
    requires forall i :: 0 <= i < |catalog| - 1 ==>
      Put(catalog[1..], g)[i] == (if catalog[1..][i].name == g.name then g else catalog[1..][i])
    ensures |Put(catalog, g)| == |catalog|
    ensures forall i :: 0 <= i < |catalog| ==>
      Put(catalog, g)[i] == (if catalog[i].name == g.name then g else catalog[i])
  {
    var tail := catalog[1..];
    DistinctNamesTail(catalog);
    var r' := Put(tail, g);
    var r := [catalog[0]] + r';
    assert Put(catalog, g) == r;
    forall i | 0 <= i < |catalog|
      ensures r[i] == (if catalog[i].name == g.name then g else catalog[i])
    {
      if i > 0 {
        assert r[i] == r'[i - 1];
        assert tail[i - 1] == catalog[i];
      }
    }
  }

  /** `put` of the first group's name replaces just that group. */
  lemma PutAtHead(catalog: seq<PermissionGroup>, g: PermissionGroup)
    requires DistinctNames(catalog)
    requires catalog != [] && catalog[0].name == g.name
    ensures Put(catalog, g) == [g] + catalog[1..]
    ensures forall i :: 0 < i < |catalog| ==> catalog[i].name != g.name
  {
  }

  /**
   * The catalog after reading `groups` entry by entry: entries without a section
   * are skipped, the others are `put` into an initially empty map.
   */
  function LoadGroups(entries: seq<GroupEntry>): (catalog: seq<PermissionGroup>)
    ensures DistinctNames(catalog)
    ensures forall g :: g in catalog ==>
      exists i :: 0 <= i < |entries| && entries[i].section.Some?
        && g == GroupFromSection(entries[i].name, entries[i].section.value)
    ensures forall i :: 0 <= i < |entries| && entries[i].section.Some? ==>
      HasName(catalog, entries[i].name)
  {
    if entries == [] then []
    else
      var init := entries[..|entries| - 1];
      var e := entries[|entries| - 1];
      var prev := LoadGroups(init);
      assert forall i :: 0 <= i < |init| ==> init[i] == entries[i];
      if e.section.None? then prev
      else
        var g := GroupFromSection(e.name, e.section.value);
        var r := Put(prev, g);
        assert forall i :: 0 <= i < |init| && init[i].section.Some? ==> HasName(r, init[i].name) by {
          forall i | 0 <= i < |init| && init[i].section.Some?
            ensures HasName(r, init[i].name)
          {
            var k :| 0 <= k < |prev| && prev[k].name == init[i].name;
            if prev[k].name == g.name {
              var j :| 0 <= j < |r| && r[j] == g;
            } else {
              assert prev[k] in r;
              var j :| 0 <= j < |r| && r[j] == prev[k];
            }
          }
        }
        assert HasName(r, e.name) by {
          var j :| 0 <= j < |r| && r[j] == g;
        }
        r
  }

  /** Reference definition: the groups of the entries that have a section, in entry order. */
  function SectionGroups(entries: seq<GroupEntry>): seq<PermissionGroup> {
    if entries == [] then []
    else
      var e := entries[|entries| - 1];
      SectionGroups(entries[..|entries| - 1])
        + (if e.section.Some? then [GroupFromSection(e.name, e.section.value)] else [])
  }

  /** Configuration keys are distinct, as the keys of a YAML section are. */
  predicate DistinctEntryNames(entries: seq<GroupEntry>) {
    forall i, j :: 0 <= i < j < |entries| ==> entries[i].name != entries[j].name
  }

  /**
   * With distinct keys, loading keeps every sectioned entry, in configuration
   * order, with its defaults applied, and drops the others.
   */
  lemma {:induction false} LoadGroupsKeepsOrder(entries: seq<GroupEntry>)
    requires DistinctEntryNames(entries)
    ensures LoadGroups(entries) == SectionGroups(entries)
  {
    if entries != [] {
      var init := entries[..|entries| - 1];
      var e := entries[|entries| - 1];
      assert DistinctEntryNames(init);
      LoadGroupsKeepsOrder(init);
      if e.section.Some? {
        var prev := LoadGroups(init);
        forall k | 0 <= k < |prev|
          ensures prev[k].name != e.name
        {
          assert prev[k] in prev;
          var i :| 0 <= i < |init| && init[i].section.Some?
            && prev[k] == GroupFromSection(init[i].name, init[i].section.value);
          assert entries[i].name != e.name;
        }
        PutNewNameAppends(prev, GroupFromSection(e.name, e.section.value));
      }
    }
  }

  /** `loadConfigValues`: every value comes from the document or from its default. */
  function LoadConfigValues(config: PluginConfig): (s: Settings)
    ensures config.bedrockPrefix.None? ==> s.bedrockPrefix == DefaultBedrockPrefix
    ensures config.bedrockPrefix.Some? ==> s.bedrockPrefix == config.bedrockPrefix.value
    ensures config.uuidCheck.None? ==> s.useUuidCheck == DefaultUuidCheck
    ensures config.uuidCheck.Some? ==> s.useUuidCheck == config.uuidCheck.value
    ensures config.groups.None? ==> s.catalog == []
    ensures config.groups.Some? ==> s.catalog == LoadGroups(config.groups.value)
  {
    Settings(
      config.bedrockPrefix.GetOr(DefaultBedrockPrefix),
      config.uuidCheck.GetOr(DefaultUuidCheck),
      match config.groups
      case None => []
      case Some(entries) => LoadGroups(entries))
  }

  /** A group whose section omits `prefix` and `type` gets the empty prefix and type "java". */
  lemma LoadDefaults(name: string, permissions: seq<string>)
    ensures LoadGroups([GroupEntry(name, Some(GroupSection(None, None, permissions)))])
      == [PermissionGroup(name, "", "java", permissions)]
  {
  }

  /** An entry without a section adds nothing to the catalog. */
  lemma LoadSkipsEntryWithoutSection(entries: seq<GroupEntry>, name: string)
    ensures LoadGroups(entries + [GroupEntry(name, None)]) == LoadGroups(entries)
  {
  }
}

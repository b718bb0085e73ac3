# EditionPerms permission resolution, in Dafny

EditionPerms is a Paper/Folia server plugin that grants permission nodes to
players according to their *edition*: a player is a Bedrock player when their
name starts with the configured Bedrock prefix (default `.`) or, with the UUID
check on, when their UUID's text starts with `00000000-0000-0000`; otherwise a
Java player. Groups from the configuration carry a type filter (`java`,
`bedrock` or `all`, compared ignoring case), an optional case-sensitive name
prefix and a list of nodes. On join the plugin replaces the player's permission
attachment with a fresh one holding the union of the nodes of every matching
group; on quit, disable and reload it removes attachments.

This project models that core as pure functions over immutable data and proves
the properties the plugin relies on.

| file | module | models |
|---|---|---|
| `wrappers.dfy` | `Wrappers` | `Option`, for configuration keys that may be missing |
| `text.dfy` | `Text` | `String.startsWith` and `String.equalsIgnoreCase` |
| `catalog.dfy` | `Catalog` | `PermissionGroup`, the `LinkedHashMap` catalog, `loadConfigValues` |
| `detection.dfy` | `Detection` | players, editions, `isBedrockPlayer` |
| `matching.dfy` | `Matching` | `shouldApplyGroup` |
| `resolution.dfy` | `Resolution` | the group loop of `applyPermissions` |
| `lifecycle.dfy` | `Lifecycle` | the attachment map: join, quit, enable, disable, reload command |
| `scenarios.dfy` | `Scenarios` | worked examples on a two-group catalog |

Modelling choices:

- A UUID is its canonical text (`UUID.toString`), a string.
- The configuration arrives already parsed (`PluginConfig`): each key is
  present (`Some`) or missing (`None`). A `groups` entry whose value is not a
  section has section `None`.
- The catalog is a sequence of groups with distinct names. `Put` models
  `LinkedHashMap.put`: an existing name is replaced where it stands, and a new
  name is appended at the end.
- `equalsIgnoreCase` follows Java's per-character rule. Two characters match if
  they are equal, or equal after `toUpperCase`, or equal after `toUpperCase`
  then `toLowerCase`. The case tables cover the ASCII letters and the four
  other characters Java maps onto ASCII letters: U+0130, U+0131, U+017F and
  the Kelvin sign U+212A. So `"bedrocK"` counts as `"bedrock"`, as it does
  in Java.
- A permission attachment is an opaque `Handle`. The state records, for every
  handle created so far, its owner and the nodes set on it. It also records
  which handles are still live, i.e. not yet `remove()`d. The nodes a player
  holds (`Effective`) are the nodes of their live attachments.
- Join is a direct call to `applyPermissions` (`Apply`). The sender's
  `hasPermission("editionperms.reload")` and `isOp()` are boolean inputs of
  `OnCommand`.

Two facts about the code that the model keeps exactly:

- The type filter recognises only `"all"` as matching both editions. A group
  typed `any` (in any case) never applies (`Matching.AnyTypeNeverMatches`,
  `Scenarios.AnyTypedGroupIsIgnored`).
- The UUID test is the 18-character text prefix `00000000-0000-0000` of the
  UUID's string form, nothing more.

## Model

| member | source | states |
|---|---|---|
| Text.StartsWith | EditionPerms/src/main/java/com/example/editionperms/EditionPerms.java:174 | Java's `startsWith`, case-sensitive: the prefix is an initial segment of the string; an empty prefix starts every string (used at this line and at lines 182 and 198; no contract of its own) |
| Text.EqualsIgnoreCaseIffFoldsEqual | EditionPerms/src/main/java/com/example/editionperms/EditionPerms.java:192 | two strings are equal ignoring case exactly when their character-by-character case folds are equal |
| Catalog.GroupFromSection | EditionPerms/src/main/java/com/example/editionperms/EditionPerms.java:64-69 | a group is built from its key and section: `prefix` defaults to `""`, `type` to `"java"`, and the permission list is taken as given (no contract of its own; `Catalog.LoadDefaults` states the defaults) |
| Catalog.Put | EditionPerms/src/main/java/com/example/editionperms/EditionPerms.java:70 | map `put` keeps names distinct and contains the new group; every group of another name stays, and nothing else enters the map |
| Catalog.PutNewNameAppends | EditionPerms/src/main/java/com/example/editionperms/EditionPerms.java:70 | `put` of a name not yet in the map appends the group at the end, after every earlier group |
| Catalog.PutReplacesInPlace | EditionPerms/src/main/java/com/example/editionperms/EditionPerms.java:70 | `put` of a name already in the map leaves the length unchanged, replaces the group of that name at its own index, and every other group keeps its index |
| Catalog.LoadGroups | EditionPerms/src/main/java/com/example/editionperms/EditionPerms.java:59-74 | the loaded catalog has distinct names; every group in it comes from an entry that has a section, with defaults applied; every entry with a section is loaded |
| Catalog.LoadGroupsKeepsOrder | EditionPerms/src/main/java/com/example/editionperms/EditionPerms.java:61-72 | with distinct keys, the catalog is exactly the entries that have sections, in configuration order |
| Catalog.LoadDefaults | EditionPerms/src/main/java/com/example/editionperms/EditionPerms.java:64-69 | a section without `prefix` and `type` gives prefix `""` and type `"java"` |
| Catalog.LoadSkipsEntryWithoutSection | EditionPerms/src/main/java/com/example/editionperms/EditionPerms.java:62-63 | an entry that is not a section adds nothing to the catalog |
| Catalog.LoadConfigValues | EditionPerms/src/main/java/com/example/editionperms/EditionPerms.java:50-77 | Bedrock prefix defaults to `.` and the UUID check to `true`; a missing `groups` section gives an empty catalog; the result depends only on the configuration, never on the previous catalog |
| Detection.Classify | EditionPerms/src/main/java/com/example/editionperms/EditionPerms.java:170-188 | a name with the Bedrock prefix is Bedrock whatever the UUID; with the UUID check on, a zero-prefixed UUID is Bedrock; with it off, Bedrock iff the name has the prefix; otherwise Java |
| Matching.PlayerType | EditionPerms/src/main/java/com/example/editionperms/EditionPerms.java:145 | the player type is `"bedrock"` for a Bedrock player and `"java"` otherwise (no contract of its own) |
| Matching.ShouldApplyGroup | EditionPerms/src/main/java/com/example/editionperms/EditionPerms.java:190-203 | a group applies only if its type passes; with an empty prefix, exactly when the type passes; with a non-empty prefix, exactly when the type passes and the name starts with the prefix |
| Matching.TypeAccepts | EditionPerms/src/main/java/com/example/editionperms/EditionPerms.java:192 | the type filter: `equalsIgnoreCase` against the player's type or against `all` (no contract of its own; its meaning is `Matching.TypeAcceptsByFold`) |
| Matching.TypeAcceptsByFold | EditionPerms/src/main/java/com/example/editionperms/EditionPerms.java:192 | the type filter passes exactly when the type's case fold is the player's type or `all` |
| Matching.UnrecognisedTypeNeverMatches | EditionPerms/src/main/java/com/example/editionperms/EditionPerms.java:192-194 | a type that does not fold to `bedrock`, `java` or `all` never applies to any player |
| Matching.EditionTypesAreExclusive | EditionPerms/src/main/java/com/example/editionperms/EditionPerms.java:144-145 | a `java` group never applies to Bedrock players and a `bedrock` group never to Java players |
| Matching.UpperCaseBedrockMatches | EditionPerms/src/main/java/com/example/editionperms/EditionPerms.java:192 | type `BEDROCK` applies to Bedrock players |
| Matching.MixedCaseAllMatches | EditionPerms/src/main/java/com/example/editionperms/EditionPerms.java:192 | type `All` applies to both editions |
| Matching.AnyTypeNeverMatches | EditionPerms/src/main/java/com/example/editionperms/EditionPerms.java:192-194 | type `any` applies to no edition |
| Matching.EmptyPrefixMatchesEveryName | EditionPerms/src/main/java/com/example/editionperms/EditionPerms.java:196-202 | with an empty prefix and a passing type, every name matches |
| Resolution.Collect | EditionPerms/src/main/java/com/example/editionperms/EditionPerms.java:151-159 | the walk over the catalog in order: for each matching group, add its nodes to the set, its name to the list and its length to the count (no contract of its own; its properties are the lemmas below) |
| Resolution.Resolve | EditionPerms/src/main/java/com/example/editionperms/EditionPerms.java:144-159 | the player is classified once, and a node is granted exactly when some group applying to that edition and name lists it |
| Resolution.AddNodes | EditionPerms/src/main/java/com/example/editionperms/EditionPerms.java:153-156 | setting and counting each node of one group's list adds exactly that list's nodes to the granted set and its full length, duplicates included, to the count |
| Resolution.ApplyGroups | EditionPerms/src/main/java/com/example/editionperms/EditionPerms.java:143-159 | the nested loop (set each node, count it, record the group name) computes the same result as the group-by-group resolution |
| Resolution.GrantedIsUnion | EditionPerms/src/main/java/com/example/editionperms/EditionPerms.java:151-158 | a node is granted exactly when some matching group lists it |
| Resolution.AppliedAreMatchingNames | EditionPerms/src/main/java/com/example/editionperms/EditionPerms.java:148-159 | `appliedGroups` is the names of the matching groups, in catalog order |
| Resolution.MatchingGroupsAppend | EditionPerms/src/main/java/com/example/editionperms/EditionPerms.java:151 | the matching groups of two catalogs joined are those of the first followed by those of the second, so catalog order is kept |
| Resolution.TotalCountsDuplicates | EditionPerms/src/main/java/com/example/editionperms/EditionPerms.java:149-156 | `totalPermissions` is the summed length of the matching groups' lists, duplicates included |
| Resolution.GrantedAtMostTotal | EditionPerms/src/main/java/com/example/editionperms/EditionPerms.java:153-156 | duplicates collapse: the number of granted nodes never exceeds the count |
| Resolution.NoMatchMeansNothing | EditionPerms/src/main/java/com/example/editionperms/EditionPerms.java:148-159 | no group matches iff no group is recorded, and then the result is an empty set, an empty list and count 0 |
| Resolution.GrantedDependsOnlyOnMembers | EditionPerms/src/main/java/com/example/editionperms/EditionPerms.java:151-158 | if every group of one catalog is in another, its granted set is included in the other's |
| Resolution.GrantedMonotone | EditionPerms/src/main/java/com/example/editionperms/EditionPerms.java:151-158 | adding groups anywhere in the catalog can only add granted nodes |
| Resolution.GrantedOrderIndependent | EditionPerms/src/main/java/com/example/editionperms/EditionPerms.java:151-158 | reordering the catalog leaves the granted set unchanged |
| Resolution.LogIffNonEmptyMatch | EditionPerms/src/main/java/com/example/editionperms/EditionPerms.java:163 | the grant line is logged exactly when some matching group has a non-empty permission list |
| Lifecycle.ValidEffective | EditionPerms/src/main/java/com/example/editionperms/EditionPerms.java:21 | under the attachment invariant, a player holds exactly the nodes of the attachment the map holds for them, and nothing without a map entry |
| Lifecycle.AtMostOneLiveAttachment | EditionPerms/src/main/java/com/example/editionperms/EditionPerms.java:135-141 | under the attachment invariant, a player has at most one live attachment |
| Lifecycle.Initial | EditionPerms/src/main/java/com/example/editionperms/EditionPerms.java:21 | the empty map satisfies the invariant and grants nothing |
| Lifecycle.Apply | EditionPerms/src/main/java/com/example/editionperms/EditionPerms.java:131-161 | the map sends the player to a fresh live attachment holding the resolved nodes; the old attachment is removed; other players' entries are unchanged; nothing else is removed |
| Lifecycle.ApplyPreservesValid | EditionPerms/src/main/java/com/example/editionperms/EditionPerms.java:135-161 | applying keeps the attachment invariant |
| Lifecycle.ApplyGrantsResolution | EditionPerms/src/main/java/com/example/editionperms/EditionPerms.java:141-161 | after applying, the player holds exactly the resolved nodes and every other player holds what they held |
| Lifecycle.ApplyTwiceIsApplyOnce | EditionPerms/src/main/java/com/example/editionperms/EditionPerms.java:135-141 | applying twice grants what applying once does, with the same map keys and the same number of live attachments |
| Lifecycle.Quit | EditionPerms/src/main/java/com/example/editionperms/EditionPerms.java:119-129 | quitting removes that player's entry and attachment only; without an entry it changes nothing |
| Lifecycle.QuitRevokesOnlyThatPlayer | EditionPerms/src/main/java/com/example/editionperms/EditionPerms.java:124-128 | quitting keeps the invariant, leaves the player holding nothing and others unchanged |
| Lifecycle.QuitTwiceIsQuitOnce | EditionPerms/src/main/java/com/example/editionperms/EditionPerms.java:125 | a second quit is a no-op |
| Lifecycle.RemoveAllAttachments | EditionPerms/src/main/java/com/example/editionperms/EditionPerms.java:41-46 | every attachment in the map is removed and the map is cleared; under the invariant no attachment stays live |
| Lifecycle.DisableRevokesEverything | EditionPerms/src/main/java/com/example/editionperms/EditionPerms.java:41-46 | after disabling, no player holds any node |
| Lifecycle.ApplyAll | EditionPerms/src/main/java/com/example/editionperms/EditionPerms.java:97-100 | applying to a list of players adds exactly their UUIDs to the map and keeps the settings |
| Lifecycle.ApplyAllPreservesValid | EditionPerms/src/main/java/com/example/editionperms/EditionPerms.java:97-100 | applying to a list of players keeps the invariant |
| Lifecycle.ApplyAllKeepsOthers | EditionPerms/src/main/java/com/example/editionperms/EditionPerms.java:97-100 | players not in the list keep what they held |
| Lifecycle.ApplyAllGrants | EditionPerms/src/main/java/com/example/editionperms/EditionPerms.java:97-100 | each listed player holds the nodes resolved for the last entry with their UUID |
| Lifecycle.ApplyAllLiveAreNew | EditionPerms/src/main/java/com/example/editionperms/EditionPerms.java:141 | applying never revives a removed attachment |
| Lifecycle.OnEnable | EditionPerms/src/main/java/com/example/editionperms/EditionPerms.java:27-37 | enabling loads the configuration and gives every online player a map entry |
| Lifecycle.EnableGrants | EditionPerms/src/main/java/com/example/editionperms/EditionPerms.java:34-37 | after enabling, each online player holds their resolved nodes and nobody else holds any |
| Lifecycle.MayReload | EditionPerms/src/main/java/com/example/editionperms/EditionPerms.java:82 | a sender may reload when they hold `editionperms.reload` or are an operator; only a sender with neither is refused (no contract of its own) |
| Lifecycle.OnCommand | EditionPerms/src/main/java/com/example/editionperms/EditionPerms.java:80-107 | only `editionpermsreload` (any case) is handled; an unauthorised sender changes nothing; an authorised reload loads the new configuration, maps exactly the online players, and removes every earlier attachment |
| Lifecycle.ReloadGrants | EditionPerms/src/main/java/com/example/editionperms/EditionPerms.java:87-100 | after an authorised reload, the invariant holds, each online player holds what the new configuration resolves for them, and nobody else holds anything |
| Lifecycle.EnableConsistent | EditionPerms/src/main/java/com/example/editionperms/EditionPerms.java:34-37 | after enabling, the state is consistent with the online players: invariant kept, each holds the resolution of their last entry, nobody else holds anything |
| Lifecycle.ReloadConsistent | EditionPerms/src/main/java/com/example/editionperms/EditionPerms.java:87-100 | an authorised reload from any valid state leaves the state consistent with the online players under the new configuration |
| Lifecycle.JoinKeepsConsistent | EditionPerms/src/main/java/com/example/editionperms/EditionPerms.java:110-117 | a join keeps the state consistent, with the joining player appended to the online list |
| Lifecycle.QuitKeepsConsistent | EditionPerms/src/main/java/com/example/editionperms/EditionPerms.java:119-129 | a quit keeps the state consistent, with that UUID dropped from the online list |
| Lifecycle.LastWithWithout | EditionPerms/src/main/java/com/example/editionperms/EditionPerms.java:125-128 | dropping one UUID from the online list leaves the last entry of every other UUID unchanged |
| Lifecycle.ReloadRoundTrip | EditionPerms/src/main/java/com/example/editionperms/EditionPerms.java:87-100 | from any state consistent with the online players under a configuration (reached by enabling, joins, quits or earlier reloads), reloading that configuration leaves every player holding the same nodes |
| Scenarios.GuestBobGetsBothGroups | EditionPerms/src/main/java/com/example/editionperms/EditionPerms.java:143-159 | `GuestBob` with a Java UUID matches a Java group and a `Guest`-prefixed `all` group: nodes `a.b`, `a.c`, groups `g1`, `g2`, count 2 |
| Scenarios.AnyTypedGroupIsIgnored | EditionPerms/src/main/java/com/example/editionperms/EditionPerms.java:192-194 | with that second group typed `any`, only `g1` applies |
| Scenarios.DotZedGetsNothing | EditionPerms/src/main/java/com/example/editionperms/EditionPerms.java:170-176 | `.Zed` is a Bedrock player and matches neither group |
| Scenarios.ZeroUuidSteveIsBedrock | EditionPerms/src/main/java/com/example/editionperms/EditionPerms.java:178-187 | `Steve` with a zero-prefixed UUID is Bedrock with the UUID check on and Java with it off |

## Left out

- Folia's entity scheduler in `onPlayerJoin`: join is a direct `Apply`. Per-player ordering and concurrency are not modelled.
- Bukkit plumbing is not modelled: `saveDefaultConfig`, `reloadConfig`, event registration and YAML parsing. The configuration arrives as parsed values. Bukkit's conversion of non-string values by `getString`/`getStringList` is not modelled.
- Log and chat messages are not modelled, including the upper-cased player type. Only the `totalPermissions > 0` guard is kept (`Resolution.LogIffNonEmptyMatch`).
- The internals of `addAttachment`, `setPermission` and `remove` are not modelled; attachments are opaque handles.
- `sender.hasPermission` and `isOp` are boolean inputs.
- Resolution.ApplyGroups: `totalPermissions` is a Java `int` but is modelled as an unbounded count. It counts `setPermission` calls, duplicates included, so wrap-around would need more than 2^31 - 1 list entries across the matching groups.
- Resolution.AddNodes: its count is unbounded for the same reason.
- Text.StartsWith: a Dafny `char` is a Unicode scalar value, not a UTF-16 code unit, so a character outside the Basic Multilingual Plane is one `char` here and two in Java. The results are unchanged: on well-formed names `startsWith` agrees unit by unit and scalar by scalar, and such a character never matches a letter of the ASCII words the type filter compares with.
- Text.EqualsIgnoreCaseIffFoldsEqual: the case tables cover only the characters that Java folds onto ASCII letters. This is exact for every comparison the plugin makes, because one side is always a lower-case ASCII literal (`bedrock`, `java`, `all`, `editionpermsreload`). Two arbitrary non-ASCII strings are not compared as Java would.
- Lifecycle.ApplyAllGrants: the guarantee is stated for the last entry with each UUID. The server never lists a player twice, and for distinct UUIDs this covers every online player.

/**
 * The attachment map of the plugin and the events that change it: a player
 * joining (`applyPermissions`), quitting, the plugin being enabled or disabled,
 * and the reload command. Permission attachments are opaque handles; the model
 * records, for every handle ever created, its owner and the nodes set on it, and
 * which handles are still live (not yet `remove()`d).
 */
module Lifecycle {
  import opened Text
  import opened Catalog
  import opened Detection
  import opened Resolution

  /** An opaque permission attachment, told apart by a creation number. */
  datatype Handle = Handle(id: nat)

  /** What an attachment holds: the player it was added to and the nodes set to true on it. */
  datatype Attachment = Attachment(owner: Uuid, nodes: set<string>)

  /**
   * The plugin's mutable state: the loaded settings, the `attachments` map from
   * player UUID to handle, every attachment created so far, the live ones, and
   * the number the next attachment will get.
   */
  datatype PluginState = PluginState(
    settings: Settings,
    attachments: map<Uuid, Handle>,
    created: map<Handle, Attachment>,
    live: set<Handle>,
    nextId: nat)

  /**
   * The attachment invariant: the map sends each player to a live attachment of
   * that player, and every live attachment is the one the map holds for its owner.
   * So each player has at most one live attachment, and none without a map entry.
   */
  predicate Valid(s: PluginState) {
    && (forall h :: h in s.live ==> h in s.created)
    && (forall h :: h in s.created ==> h.id < s.nextId)
    && (forall u :: u in s.attachments ==>
          s.attachments[u] in s.live && s.created[s.attachments[u]].owner == u)
    && (forall h :: h in s.live ==>
          s.created[h].owner in s.attachments && s.attachments[s.created[h].owner] == h)
  }

  /** The nodes a player currently holds: those set on any live attachment of theirs. */
  function Effective(s: PluginState, u: Uuid): set<string> {
    set h, p | h in s.live && h in s.created && s.created[h].owner == u && p in s.created[h].nodes :: p
  }

  /** Under the invariant, a player holds exactly the nodes of the attachment the map holds for them. */
  lemma ValidEffective(s: PluginState, u: Uuid)
    requires Valid(s)
    ensures Effective(s, u) == (if u in s.attachments then s.created[s.attachments[u]].nodes else {})
  {
  }

  /** Under the invariant, two live attachments of one player are the same attachment. */
  lemma AtMostOneLiveAttachment(s: PluginState, u: Uuid, h1: Handle, h2: Handle)
    requires Valid(s)
    requires h1 in s.live && h2 in s.live
    requires s.created[h1].owner == u && s.created[h2].owner == u
    ensures h1 == h2
  {
  }

  /** The state right after the configuration is loaded: no attachment yet. */
  function Initial(settings: Settings): (s: PluginState)
    ensures Valid(s)
    ensures forall u :: Effective(s, u) == {}
  {
    PluginState(settings, map[], map[], {}, 0)
  }

  /**
   * `applyPermissions`: remove the player's old attachment if there is one, add a
   * fresh attachment holding the resolved nodes, and point the map at it.
   */
  function Apply(s: PluginState, player: Player): (s': PluginState)
    ensures player.uuid in s'.attachments
    ensures s'.attachments[player.uuid] in s'.live && s'.attachments[player.uuid] in s'.created
    ensures s'.created[s'.attachments[player.uuid]]
      == Attachment(player.uuid, Resolve(s.settings, player).grants.granted)
    ensures Valid(s) ==> s'.attachments[player.uuid] !in s.created
    ensures Valid(s) && player.uuid in s.attachments ==> s.attachments[player.uuid] !in s'.live
    ensures forall u :: u != player.uuid ==> (u in s'.attachments <==> u in s.attachments)
    ensures forall u :: u != player.uuid && u in s.attachments ==> s'.attachments[u] == s.attachments[u]
    ensures s.live - s'.live <= (if player.uuid in s.attachments then {s.attachments[player.uuid]} else {})
    ensures s'.settings == s.settings
  {
    var live := if player.uuid in s.attachments then s.live - {s.attachments[player.uuid]} else s.live;
    var h := Handle(s.nextId);
    var r := Resolve(s.settings, player);
    PluginState(
      s.settings,
      s.attachments[player.uuid := h],
      s.created[h := Attachment(player.uuid, r.grants.granted)],
      live + {h},
      s.nextId + 1)
  }

  /** `applyPermissions` keeps the attachment invariant. */
  lemma ApplyPreservesValid(s: PluginState, player: Player)
    requires Valid(s)
    ensures Valid(Apply(s, player))
  {
  }

  /**
   * After `applyPermissions` the player holds exactly the resolved nodes, and
   * every other player holds what they held before.
   */
  lemma ApplyGrantsResolution(s: PluginState, player: Player)
    requires Valid(s)
    ensures Effective(Apply(s, player), player.uuid) == Resolve(s.settings, player).grants.granted
    ensures forall u :: u != player.uuid ==> Effective(Apply(s, player), u) == Effective(s, u)
  {
    var s' := Apply(s, player);
    ApplyPreservesValid(s, player);
    ValidEffective(s', player.uuid);
    forall u | u != player.uuid
      ensures Effective(s', u) == Effective(s, u)
    {
      ValidEffective(s', u);
      ValidEffective(s, u);
      if u in s.attachments {
        assert s'.attachments[u] == s.attachments[u];
        assert s.attachments[u] != s'.attachments[player.uuid];
      }
    }
  }

  /**
   * Applying twice in a row grants what applying once does, and leaves no more
   * live attachments: the first attachment is removed by the second apply.
   */
  lemma ApplyTwiceIsApplyOnce(s: PluginState, player: Player)
    requires Valid(s)
    ensures Effective(Apply(Apply(s, player), player), player.uuid) == Effective(Apply(s, player), player.uuid)
    ensures Apply(Apply(s, player), player).attachments.Keys == Apply(s, player).attachments.Keys
    ensures |Apply(Apply(s, player), player).live| == |Apply(s, player).live|
  {
    var s1 := Apply(s, player);
    var s2 := Apply(s1, player);
    ApplyPreservesValid(s, player);
    ApplyGrantsResolution(s, player);
    ApplyGrantsResolution(s1, player);
    var old1 := s1.attachments[player.uuid];
    var h2 := s2.attachments[player.uuid];
    assert s2.live == s1.live - {old1} + {h2};
    assert old1 in s1.live && h2 !in s1.live;
    SwapKeepsSize(s1.live, old1, h2);
  }

  /** Swapping one member of a set for a non-member keeps its size. */
  lemma SwapKeepsSize<T>(a: set<T>, x: T, y: T)
    requires x in a && y !in a
    ensures |a - {x} + {y}| == |a|
  {
  }

  /** `onPlayerQuit`: remove the player's attachment and map entry, if there is one. */
  function Quit(s: PluginState, u: Uuid): (s': PluginState)
    ensures u !in s'.attachments
    ensures forall v :: v != u ==> (v in s'.attachments <==> v in s.attachments)
    ensures forall v :: v != u && v in s.attachments ==> s'.attachments[v] == s.attachments[v]
    ensures u in s.attachments ==> s'.live == s.live - {s.attachments[u]}
    ensures u !in s.attachments ==> s' == s
    ensures s'.settings == s.settings && s'.created == s.created
  {
    if u in s.attachments then
      s.(attachments := s.attachments - {u}, live := s.live - {s.attachments[u]})
    else s
  }

  /** Quitting keeps the invariant, revokes the player's nodes and nobody else's. */
  lemma QuitRevokesOnlyThatPlayer(s: PluginState, u: Uuid)
    requires Valid(s)
    ensures Valid(Quit(s, u))
    ensures Effective(Quit(s, u), u) == {}
    ensures forall v :: v != u ==> Effective(Quit(s, u), v) == Effective(s, v)
  {
  }

  /** A second quit of the same player changes nothing. */
  lemma QuitTwiceIsQuitOnce(s: PluginState, u: Uuid)
    ensures Quit(Quit(s, u), u) == Quit(s, u)
  {
  }

  /**
   * `onDisable`, and the first step of a reload: remove every attachment the map
   * holds, then clear the map.
   */
  function RemoveAllAttachments(s: PluginState): (s': PluginState)
    ensures s'.attachments == map[]
    ensures s'.live == s.live - s.attachments.Values
    ensures s'.settings == s.settings && s'.created == s.created && s'.nextId == s.nextId
    ensures Valid(s) ==> s'.live == {}
    ensures Valid(s) ==> Valid(s')
  {
    var s' := s.(attachments := map[], live := s.live - s.attachments.Values);
    assert Valid(s) ==> s'.live == {} by {
      if Valid(s) {
        forall h | h in s.live
          ensures h in s.attachments.Values
        {
          assert s.attachments[s.created[h].owner] == h;
        }
      }
    }
    s'
  }

  /** After disabling, no player holds any node. */
  lemma DisableRevokesEverything(s: PluginState, u: Uuid)
    requires Valid(s)
    ensures Effective(RemoveAllAttachments(s), u) == {}
  {
  }

  /** The UUIDs of a list of players. */
  function UuidsOf(players: seq<Player>): (r: set<Uuid>)
    ensures forall u :: u in r <==> exists i :: 0 <= i < |players| && players[i].uuid == u
  {
    set i | 0 <= i < |players| :: players[i].uuid
  }

  /** `players[i]` is the last player in the list with its UUID. */
  predicate LastWithUuid(players: seq<Player>, i: int)
    requires 0 <= i < |players|
  {
    forall j :: i < j < |players| ==> players[j].uuid != players[i].uuid
  }

  /** `applyPermissions` for each player in turn, as `onEnable` and a reload do for the online players. */
  function ApplyAll(s: PluginState, players: seq<Player>): (s': PluginState)
    ensures s'.settings == s.settings
    ensures s'.attachments.Keys == s.attachments.Keys + UuidsOf(players)
    decreases |players|
  {
    if players == [] then s
    else
      var r := ApplyAll(Apply(s, players[0]), players[1..]);
      assert UuidsOf(players) == {players[0].uuid} + UuidsOf(players[1..]) by {
        forall u | u in UuidsOf(players)
          ensures u in {players[0].uuid} + UuidsOf(players[1..])
        {
          var i :| 0 <= i < |players| && players[i].uuid == u;
          if i > 0 {
            assert players[1..][i - 1] == players[i];
          }
        }
      }
      r
  }

  /** Applying to a list of players keeps the attachment invariant. */
  lemma {:induction false} ApplyAllPreservesValid(s: PluginState, players: seq<Player>)
    requires Valid(s)
    ensures Valid(ApplyAll(s, players))
    decreases |players|
  {
    if players != [] {
      ApplyPreservesValid(s, players[0]);
      ApplyAllPreservesValid(Apply(s, players[0]), players[1..]);
    }
  }

  /** Applying to a list of players leaves every player not in the list holding what they held. */
  lemma {:induction false} ApplyAllKeepsOthers(s: PluginState, players: seq<Player>, u: Uuid)
    requires Valid(s)
    requires u !in UuidsOf(players)
    ensures Effective(ApplyAll(s, players), u) == Effective(s, u)
    decreases |players|
  {
    if players != [] {
      var s1 := Apply(s, players[0]);
      var rest := players[1..];
      ApplyPreservesValid(s, players[0]);
      ApplyGrantsResolution(s, players[0]);
      assert u !in UuidsOf(rest) by {
        forall k | 0 <= k < |rest|
          ensures rest[k].uuid != u
        {
          assert rest[k] == players[k + 1];
        }
      }
      ApplyAllKeepsOthers(s1, rest, u);
    }
  }

  /**
   * Applying to a list of players leaves each of them holding the nodes resolved
   * for the last entry with their UUID.
   */
  lemma {:induction false} ApplyAllGrants(s: PluginState, players: seq<Player>, i: nat)
    requires Valid(s)
    requires i < |players| && LastWithUuid(players, i)
    ensures Effective(ApplyAll(s, players), players[i].uuid) == Resolve(s.settings, players[i]).grants.granted
    decreases |players|
  {
    var s1 := Apply(s, players[0]);
    var rest := players[1..];
    ApplyPreservesValid(s, players[0]);
    if i == 0 {
      assert players[0].uuid !in UuidsOf(rest) by {
        forall k | 0 <= k < |rest|
          ensures rest[k].uuid != players[0].uuid
        {
          assert rest[k] == players[k + 1];
        }
      }
      ApplyGrantsResolution(s, players[0]);
      ApplyAllKeepsOthers(s1, rest, players[0].uuid);
    } else {
      assert rest[i - 1] == players[i];
      assert LastWithUuid(rest, i - 1) by {
        forall j | i - 1 < j < |rest|
          ensures rest[j].uuid != rest[i - 1].uuid
        {
          assert rest[j] == players[j + 1];
        }
      }
      ApplyAllGrants(s1, rest, i - 1);
    }
  }

  /** `onEnable`: load the configuration, then apply to every player already online. */
  function OnEnable(config: PluginConfig, online: seq<Player>): (s: PluginState)
    ensures s.settings == LoadConfigValues(config)
    ensures s.attachments.Keys == UuidsOf(online)
  {
    ApplyAll(Initial(LoadConfigValues(config)), online)
  }

  /** The outcome of a command: whether it was handled, and the state afterwards. */
  datatype CommandResult = CommandResult(handled: bool, state: PluginState)

  /** The name of the reload command, compared ignoring case. */
  const ReloadCommand: string := "editionpermsreload"

  /** The sender may reload when they hold `editionperms.reload` or are an operator. */
  predicate MayReload(hasReloadPermission: bool, isOp: bool) {
    hasReloadPermission || isOp
  }

  /**
   * `onCommand`: only the reload command is handled. An unauthorised sender is
   * refused with nothing changed; otherwise every attachment is removed and the
   * map cleared, the configuration reloaded, and every online player re-applied.
   */
  function OnCommand(s: PluginState, command: string, hasReloadPermission: bool, isOp: bool,
                     config: PluginConfig, online: seq<Player>): (r: CommandResult)
    ensures r.handled <==> EqualsIgnoreCase(command, ReloadCommand)
    ensures !r.handled || !MayReload(hasReloadPermission, isOp) ==> r.state == s
    ensures r.handled && MayReload(hasReloadPermission, isOp) ==>
      && r.state.settings == LoadConfigValues(config)
      && r.state.attachments.Keys == UuidsOf(online)
      && (Valid(s) ==> s.live !! r.state.live)
  {
    if !EqualsIgnoreCase(command, ReloadCommand) then CommandResult(false, s)
    else if !MayReload(hasReloadPermission, isOp) then CommandResult(true, s)
    else
      var cleared := RemoveAllAttachments(s);
      var reloaded := ApplyAll(cleared.(settings := LoadConfigValues(config)), online);
      assert Valid(s) ==> s.live !! reloaded.live by {
        if Valid(s) {
          ApplyAllLiveAreNew(cleared.(settings := LoadConfigValues(config)), online);
        }
      }
      CommandResult(true, reloaded)
  }

  /** Applying never revives an attachment: live handles afterwards are live before or newly created. */
  lemma {:induction false} ApplyAllLiveAreNew(s: PluginState, players: seq<Player>)
    requires Valid(s)
    ensures forall h :: h in ApplyAll(s, players).live ==> h in s.live || h !in s.created
    decreases |players|
  {
    if players != [] {
      var s1 := Apply(s, players[0]);
      ApplyPreservesValid(s, players[0]);
      ApplyAllLiveAreNew(s1, players[1..]);
      assert ApplyAll(s, players) == ApplyAll(s1, players[1..]);
      forall h | h in s1.live
        ensures h in s.live || h !in s.created
      {
      }
    }
  }

  /**
   * An authorised reload keeps the invariant; each online player then holds what
   * the reloaded configuration resolves for them, and everyone else holds nothing.
   */
  lemma ReloadGrants(s: PluginState, command: string, hasReloadPermission: bool, isOp: bool,
                     config: PluginConfig, online: seq<Player>)
    requires Valid(s)
    requires EqualsIgnoreCase(command, ReloadCommand) && MayReload(hasReloadPermission, isOp)
    ensures Valid(OnCommand(s, command, hasReloadPermission, isOp, config, online).state)
    ensures forall i :: 0 <= i < |online| && LastWithUuid(online, i) ==>
      Effective(OnCommand(s, command, hasReloadPermission, isOp, config, online).state, online[i].uuid)
        == Resolve(LoadConfigValues(config), online[i]).grants.granted
    ensures forall u :: u !in UuidsOf(online) ==>
      Effective(OnCommand(s, command, hasReloadPermission, isOp, config, online).state, u) == {}
  {
    var cleared := RemoveAllAttachments(s).(settings := LoadConfigValues(config));
    assert Valid(cleared);
    ApplyAllPreservesValid(cleared, online);
    forall i | 0 <= i < |online| && LastWithUuid(online, i)
      ensures Effective(ApplyAll(cleared, online), online[i].uuid)
        == Resolve(LoadConfigValues(config), online[i]).grants.granted
    {
      ApplyAllGrants(cleared, online, i);
    }
    forall u | u !in UuidsOf(online)
      ensures Effective(ApplyAll(cleared, online), u) == {}
    {
      ApplyAllKeepsOthers(cleared, online, u);
      ValidEffective(cleared, u);
    }
  }

  /** `onEnable` leaves each online player holding what the configuration resolves for them. */
  lemma EnableGrants(config: PluginConfig, online: seq<Player>)
    ensures Valid(OnEnable(config, online))
    ensures forall i :: 0 <= i < |online| && LastWithUuid(online, i) ==>
      Effective(OnEnable(config, online), online[i].uuid) == Resolve(LoadConfigValues(config), online[i]).grants.granted
    ensures forall u :: u !in UuidsOf(online) ==> Effective(OnEnable(config, online), u) == {}
  {
    var init := Initial(LoadConfigValues(config));
    ApplyAllPreservesValid(init, online);
    forall i | 0 <= i < |online| && LastWithUuid(online, i)
      ensures Effective(OnEnable(config, online), online[i].uuid)
        == Resolve(LoadConfigValues(config), online[i]).grants.granted
    {
      ApplyAllGrants(init, online, i);
    }
    forall u | u !in UuidsOf(online)
      ensures Effective(OnEnable(config, online), u) == {}
    {
      ApplyAllKeepsOthers(init, online, u);
    }
  }

  /** The last player in the list with UUID `v`: the one whose join the map reflects. */
  function LastWith(players: seq<Player>, v: Uuid): (p: Player)
    requires v in UuidsOf(players)
    ensures p in players && p.uuid == v
  {
    var q := players[|players| - 1];
    if q.uuid == v then q
    else
      var init := players[..|players| - 1];
      assert v in UuidsOf(init) by {
        var k :| 0 <= k < |players| && players[k].uuid == v;
        assert init[k] == players[k];
      }
      LastWith(init, v)
  }

  /** `LastWith` picks the entry at the last index carrying the UUID. */
  lemma {:induction false} LastWithIsLastIndex(players: seq<Player>, v: Uuid) returns (i: nat)
    requires v in UuidsOf(players)
    ensures i < |players| && LastWithUuid(players, i) && players[i] == LastWith(players, v)
  {
    var n := |players| - 1;
    if players[n].uuid == v {
      i := n;
    } else {
      var init := players[..n];
      assert v in UuidsOf(init) by {
        var k :| 0 <= k < |players| && players[k].uuid == v;
        assert init[k] == players[k];
      }
      i := LastWithIsLastIndex(init, v);
      assert players[i] == init[i];
      forall j | i < j < |players|
        ensures players[j].uuid != players[i].uuid
      {
        if j < n {
          assert init[j] == players[j];
        }
      }
    }
  }

  /**
   * The state agrees with the online players: the invariant holds, each online
   * player holds what the loaded settings resolve for the last entry with their
   * UUID, and nobody else holds anything.
   */
  ghost predicate Consistent(s: PluginState, online: seq<Player>) {
    && Valid(s)
    && (forall v :: v in UuidsOf(online) ==>
          Effective(s, v) == Resolve(s.settings, LastWith(online, v)).grants.granted)
    && (forall v :: v !in UuidsOf(online) ==> Effective(s, v) == {})
  }

  /** Enabling leaves the state consistent with the players online at that time. */
  lemma EnableConsistent(config: PluginConfig, online: seq<Player>)
    ensures Consistent(OnEnable(config, online), online)
  {
    EnableGrants(config, online);
    forall v | v in UuidsOf(online)
      ensures Effective(OnEnable(config, online), v)
        == Resolve(LoadConfigValues(config), LastWith(online, v)).grants.granted
    {
      var i := LastWithIsLastIndex(online, v);
    }
  }

  /** An authorised reload leaves the state consistent with the players online, whatever it was before. */
  lemma ReloadConsistent(s: PluginState, command: string, hasReloadPermission: bool, isOp: bool,
                         config: PluginConfig, online: seq<Player>)
    requires Valid(s)
    requires EqualsIgnoreCase(command, ReloadCommand) && MayReload(hasReloadPermission, isOp)
    ensures Consistent(OnCommand(s, command, hasReloadPermission, isOp, config, online).state, online)
  {
    var s' := OnCommand(s, command, hasReloadPermission, isOp, config, online).state;
    ReloadGrants(s, command, hasReloadPermission, isOp, config, online);
    forall v | v in UuidsOf(online)
      ensures Effective(s', v) == Resolve(s'.settings, LastWith(online, v)).grants.granted
    {
      var i := LastWithIsLastIndex(online, v);
    }
  }

  /** A join keeps the state consistent, with the joining player appended to the online list. */
  lemma JoinKeepsConsistent(s: PluginState, online: seq<Player>, player: Player)
    requires Consistent(s, online)
    ensures Consistent(Apply(s, player), online + [player])
  {
    var s' := Apply(s, player);
    var online' := online + [player];
    ApplyPreservesValid(s, player);
    ApplyGrantsResolution(s, player);
    assert online'[..|online'| - 1] == online;
    forall v | v in UuidsOf(online')
      ensures Effective(s', v) == Resolve(s'.settings, LastWith(online', v)).grants.granted
    {
      if v != player.uuid {
        var k :| 0 <= k < |online'| && online'[k].uuid == v;
        assert online[k] == online'[k];
      }
    }
    assert online'[|online|] == player;
    forall v | v !in UuidsOf(online')
      ensures Effective(s', v) == {}
    {
      assert v != player.uuid;
      assert v !in UuidsOf(online) by {
        forall k | 0 <= k < |online|
          ensures online[k].uuid != v
        {
          assert online'[k] == online[k];
        }
      }
    }
  }

  /** The online list without the players carrying UUID `u`, in order. */
  function Without(players: seq<Player>, u: Uuid): (r: seq<Player>)
    ensures forall p :: p in r <==> p in players && p.uuid != u
  {
    if players == [] then []
    else
      var q := players[|players| - 1];
      Without(players[..|players| - 1], u) + (if q.uuid == u then [] else [q])
  }

  /** Removing one UUID from the list does not change the last entry of any other UUID. */
  lemma {:induction false} LastWithWithout(players: seq<Player>, u: Uuid, v: Uuid)
    requires v in UuidsOf(players) && v != u
    ensures v in UuidsOf(Without(players, u))
    ensures LastWith(Without(players, u), v) == LastWith(players, v)
  {
    var n := |players| - 1;
    var q := players[n];
    var init := players[..n];
    assert players == init + [q];
    var wi := Without(init, u);
    if q.uuid == v {
      LastWithAppend(init, q, v);
      LastWithAppend(wi, q, v);
      assert Without(players, u) == wi + [q];
      assert LastWith(Without(players, u), v) == q;
    } else {
      assert v in UuidsOf(init) by {
        var k :| 0 <= k < |players| && players[k].uuid == v;
        assert init[k] == players[k];
      }
      LastWithAppend(init, q, v);
      LastWithWithout(init, u, v);
      if q.uuid != u {
        LastWithAppend(wi, q, v);
        assert Without(players, u) == wi + [q];
        assert LastWith(Without(players, u), v) == LastWith(wi, v);
      } else {
        assert Without(players, u) == wi;
      }
    }
  }

  /** Appending one player changes the last entry for `v` only if the player has uuid `v`. */
  lemma LastWithAppend(players: seq<Player>, q: Player, v: Uuid)
    requires v in UuidsOf(players) || q.uuid == v
    ensures v in UuidsOf(players + [q])
    ensures LastWith(players + [q], v) == (if q.uuid == v then q else LastWith(players, v))
  {
    var xs := players + [q];
    assert xs[|xs| - 1] == q;
    assert xs[..|xs| - 1] == players;
    if q.uuid != v {
      var k :| 0 <= k < |players| && players[k].uuid == v;
      assert xs[k] == players[k];
    }
  }

  /** A quit keeps the state consistent, with the player's UUID dropped from the online list. */
  lemma QuitKeepsConsistent(s: PluginState, online: seq<Player>, u: Uuid)
    requires Consistent(s, online)
    ensures Consistent(Quit(s, u), Without(online, u))
  {
    var s' := Quit(s, u);
    var online' := Without(online, u);
    QuitRevokesOnlyThatPlayer(s, u);
    forall v | v in UuidsOf(online')
      ensures Effective(s', v) == Resolve(s'.settings, LastWith(online', v)).grants.granted
    {
      var k :| 0 <= k < |online'| && online'[k].uuid == v;
      assert online'[k] in online;
      LastWithWithout(online, u, v);
    }
    forall v | v !in UuidsOf(online')
      ensures Effective(s', v) == {}
    {
      if v != u && v in UuidsOf(online) {
        LastWithWithout(online, u, v);
      }
    }
  }

  /**
   * Reload round trip: from any state consistent with the online players under
   * configuration `config` (reached by enabling, joins, quits or earlier
   * reloads), reloading `config` leaves every player holding the same nodes.
   */
  lemma ReloadRoundTrip(s: PluginState, config: PluginConfig, online: seq<Player>, command: string,
                        hasReloadPermission: bool, isOp: bool)
    requires Consistent(s, online)
    requires s.settings == LoadConfigValues(config)
    requires EqualsIgnoreCase(command, ReloadCommand) && MayReload(hasReloadPermission, isOp)
    ensures forall v ::
      Effective(OnCommand(s, command, hasReloadPermission, isOp, config, online).state, v) == Effective(s, v)
  {
    ReloadConsistent(s, command, hasReloadPermission, isOp, config, online);
  }
}

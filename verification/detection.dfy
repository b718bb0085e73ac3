/** `isBedrockPlayer`: the edition of a player, from the name prefix and the UUID's text form. */
module Detection {
  import opened Text
  import opened Catalog

  /** A player's UUID in its canonical textual form (`UUID.toString`). */
  type Uuid = string

  /** The two attributes of a connected player the plugin reads. */
  datatype Player = Player(name: string, uuid: Uuid)

  /** Bedrock players come in through a proxy; everyone else is a Java player. */
  datatype Edition = Bedrock | Java

  /** Proxy-assigned Bedrock UUIDs have their first three groups all zero. */
  const BedrockUuidPrefix: string := "00000000-0000-0000"

  /**
   * The name prefix wins; otherwise, if the UUID check is on, a zero-prefixed UUID
   * means Bedrock; otherwise the player is a Java player.
   */
  function Classify(settings: Settings, player: Player): (e: Edition)
    ensures StartsWith(player.name, settings.bedrockPrefix) ==> e == Bedrock
    ensures settings.useUuidCheck && StartsWith(player.uuid, BedrockUuidPrefix) ==> e == Bedrock
    ensures !settings.useUuidCheck ==> (e == Bedrock <==> StartsWith(player.name, settings.bedrockPrefix))
    ensures e == Bedrock ==>
      StartsWith(player.name, settings.bedrockPrefix)
      || (settings.useUuidCheck && StartsWith(player.uuid, BedrockUuidPrefix))
  {
    if StartsWith(player.name, settings.bedrockPrefix) then Bedrock
    else if settings.useUuidCheck && StartsWith(player.uuid, BedrockUuidPrefix) then Bedrock
    else Java
  }
}

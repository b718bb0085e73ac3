/** `shouldApplyGroup`: whether a group applies to a player of a given edition. */
module Matching {
  import opened Text
  import opened Catalog
  import opened Detection

  /** The type string the plugin derives from the edition. */
  function PlayerType(e: Edition): string {
    match e
    case Bedrock => "bedrock"
    case Java => "java"
  }

  /** The group type that applies to both editions. */
  const AllType: string := "all"

  /** The type filter: the group's type names the player's type or "all", ignoring case. */
  predicate TypeAccepts(groupType: string, e: Edition) {
    EqualsIgnoreCase(groupType, PlayerType(e)) || EqualsIgnoreCase(groupType, AllType)
  }

  /**
   * The type filter first; then a non-empty prefix must begin the player's name
   * (case-sensitively); an empty prefix accepts every name.
   */
  function ShouldApplyGroup(name: string, g: PermissionGroup, e: Edition): (b: bool)
    ensures b ==> TypeAccepts(g.groupType, e)
    ensures g.prefix == "" ==> (b <==> TypeAccepts(g.groupType, e))
    ensures g.prefix != "" ==> (b <==> TypeAccepts(g.groupType, e) && StartsWith(name, g.prefix))
  {
    if !TypeAccepts(g.groupType, e) then false
    else if g.prefix != "" then StartsWith(name, g.prefix)
    else true
  }

  /** The type filter compares case folds: the type folds to the player's type or to "all". */
  lemma TypeAcceptsByFold(groupType: string, e: Edition)
    ensures TypeAccepts(groupType, e)
      <==> FoldString(groupType) == PlayerType(e) || FoldString(groupType) == AllType
  {
    EqualsIgnoreCaseLowerWord(groupType, PlayerType(e));
    EqualsIgnoreCaseLowerWord(groupType, AllType);
  }

  /** A type that is none of "bedrock", "java", "all" in any case never matches anyone. */
  lemma UnrecognisedTypeNeverMatches(name: string, g: PermissionGroup, e: Edition)
    requires FoldString(g.groupType) != "bedrock"
    requires FoldString(g.groupType) != "java"
    requires FoldString(g.groupType) != AllType
    ensures !ShouldApplyGroup(name, g, e)
  {
    TypeAcceptsByFold(g.groupType, e);
  }

  /** A "java" group (in any case) never applies to a Bedrock player, and a "bedrock" group never to a Java player. */
  lemma EditionTypesAreExclusive(groupType: string)
    ensures FoldString(groupType) == "java" ==> !TypeAccepts(groupType, Bedrock)
    ensures FoldString(groupType) == "bedrock" ==> !TypeAccepts(groupType, Java)
  {
  }

  /** An upper-case "BEDROCK" type applies to Bedrock players. */
  lemma UpperCaseBedrockMatches()
    ensures TypeAccepts("BEDROCK", Bedrock)
  {
  }

  /** A mixed-case "All" type applies to both editions. */
  lemma MixedCaseAllMatches(e: Edition)
    ensures TypeAccepts("All", e)
  {
  }

  /** The type "any" is not a recognised type and applies to no edition. */
  lemma AnyTypeNeverMatches(e: Edition)
    ensures !TypeAccepts("any", e)
  {
    FoldLowerAsciiWord("any");
    TypeAcceptsByFold("any", e);
  }

  /** An empty group prefix accepts every name the type filter lets through. */
  lemma EmptyPrefixMatchesEveryName(name: string, g: PermissionGroup, e: Edition)
    requires g.prefix == ""
    requires TypeAccepts(g.groupType, e)
    ensures ShouldApplyGroup(name, g, e)
  {
  }
}

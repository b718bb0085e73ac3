/** Worked examples of classification and resolution on a small catalog. */
module Scenarios {
  import opened Text
  import opened Catalog
  import opened Detection
  import opened Matching
  import opened Resolution

  /** A catalog with a Java-wide group and a "Guest"-prefixed group for both editions. */
  function GuestCatalog(guestType: string): seq<PermissionGroup> {
    [PermissionGroup("g1", "", "java", ["a.b"]), PermissionGroup("g2", "Guest", guestType, ["a.c"])]
  }

  /** The default detection settings over a catalog. */
  function DefaultSettings(catalog: seq<PermissionGroup>): Settings {
    Settings(DefaultBedrockPrefix, DefaultUuidCheck, catalog)
  }

  const JavaUuid: Uuid := "123e4567-e89b-12d3-a456-426614174000"

  /** A Java player named "GuestBob" matches both groups and gets both nodes, in catalog order. */
  lemma GuestBobGetsBothGroups()
    ensures Resolve(DefaultSettings(GuestCatalog("all")), Player("GuestBob", JavaUuid))
      == Outcome(Java, Grants({"a.b", "a.c"}, ["g1", "g2"], 2))
  {
    var c := GuestCatalog("all");
    assert !StartsWith(JavaUuid, BedrockUuidPrefix) by {
      assert JavaUuid[0] != BedrockUuidPrefix[0];
    }
    assert !StartsWith("GuestBob", ".") by {
      assert "GuestBob"[0] == 'G';
    }
    var e := Classify(DefaultSettings(c), Player("GuestBob", JavaUuid));
    assert e == Java;
    assert EqualsIgnoreCase("java", "java");
    assert EqualsIgnoreCase("all", "all");
    assert StartsWith("GuestBob", "Guest") by {
      assert "GuestBob"[..5] == "Guest";
    }
    assert ShouldApplyGroup("GuestBob", c[0], Java);
    assert ShouldApplyGroup("GuestBob", c[1], Java);
    assert c[..1][..0] == [];
    assert c[..|c| - 1] == c[..1];
    assert NodeSet(["a.b"]) == {"a.b"};
    assert NodeSet(["a.c"]) == {"a.c"};
    assert Collect(c[..1], "GuestBob", Java) == Grants({"a.b"}, ["g1"], 1);
  }

  /** With the group typed "any" instead of "all", the same player gets only the Java group. */
  lemma AnyTypedGroupIsIgnored()
    ensures Resolve(DefaultSettings(GuestCatalog("any")), Player("GuestBob", JavaUuid))
      == Outcome(Java, Grants({"a.b"}, ["g1"], 1))
  {
    var c := GuestCatalog("any");
    assert !StartsWith(JavaUuid, BedrockUuidPrefix) by {
      assert JavaUuid[0] != BedrockUuidPrefix[0];
    }
    assert !StartsWith("GuestBob", ".") by {
      assert "GuestBob"[0] == 'G';
    }
    var e := Classify(DefaultSettings(c), Player("GuestBob", JavaUuid));
    assert e == Java;
    assert EqualsIgnoreCase("java", "java");
    AnyTypeNeverMatches(Java);
    assert ShouldApplyGroup("GuestBob", c[0], Java);
    assert !ShouldApplyGroup("GuestBob", c[1], Java);
    assert c[..1][..0] == [];
    assert c[..|c| - 1] == c[..1];
    assert NodeSet(["a.b"]) == {"a.b"};
    assert Collect(c[..1], "GuestBob", Java) == Grants({"a.b"}, ["g1"], 1);
  }

  /** A player named ".Zed" is a Bedrock player and matches neither group. */
  lemma DotZedGetsNothing(uuid: Uuid)
    ensures Resolve(DefaultSettings(GuestCatalog("all")), Player(".Zed", uuid))
      == Outcome(Bedrock, Grants({}, [], 0))
  {
    var c := GuestCatalog("all");
    assert StartsWith(".Zed", ".") by {
      assert ".Zed"[..1] == ".";
    }
    var e := Classify(DefaultSettings(c), Player(".Zed", uuid));
    assert e == Bedrock;
    assert !EqualsIgnoreCase("java", "bedrock");
    assert !EqualsIgnoreCase("java", "all");
    assert !StartsWith(".Zed", "Guest") by {
      assert ".Zed"[0] != "Guest"[0];
    }
    assert !ShouldApplyGroup(".Zed", c[0], Bedrock);
    assert !ShouldApplyGroup(".Zed", c[1], Bedrock);
    assert c[..1][..0] == [];
    assert c[..|c| - 1] == c[..1];
    assert Collect(c[..1], ".Zed", Bedrock) == Grants({}, [], 0);
  }

  /** A zero-prefixed UUID makes "Steve" a Bedrock player while the UUID check is on, and not when it is off. */
  lemma ZeroUuidSteveIsBedrock(catalog: seq<PermissionGroup>)
    ensures Classify(Settings(".", true, catalog), Player("Steve", "00000000-0000-0000-0000-000000000001")) == Bedrock
    ensures Classify(Settings(".", false, catalog), Player("Steve", "00000000-0000-0000-0000-000000000001")) == Java
  {
    assert StartsWith("00000000-0000-0000-0000-000000000001", BedrockUuidPrefix);
    assert !StartsWith("Steve", ".") by {
      assert "Steve"[0] == 'S';
    }
  }
}

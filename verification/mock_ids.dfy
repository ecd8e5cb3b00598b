/** Locally generated placeholder identifiers (`frontend/utils/functions.js`). */
module MockIds {
  import opened Constants

  predicate StartsWith(s: string, prefix: string) {
    |prefix| <= |s| && s[..|prefix|] == prefix
  }

  /** `isMockId`: an identifier is a placeholder exactly when it begins with "mock id". */
  predicate IsMockId(id: string) {
    StartsWith(id, MockId)
  }

  /**
   * `generateMockId`: "mock id", an underscore, then a random UUID.  The UUID is
   * randomness, so it is a parameter here; every property below holds for any suffix.
   */
  function GenerateMockId(suffix: string): (id: string)
    ensures IsMockId(id)
    ensures |id| == |MockId| + 1 + |suffix|
    ensures id[|MockId|] == '_' && id[|MockId| + 1..] == suffix
  {
    MockId + "_" + suffix
  }

  /**
   * Only a leading "mock id" makes a placeholder: the bare placeholder and
   * anything it begins are mock ids, and "mock id" after a first character
   * other than 'm' is not.
   */
  lemma MockIdOnlyAtStart(before: string, after: string)
    ensures IsMockId(MockId + after)
    ensures |before| > 0 && before[0] != 'm' ==> !IsMockId(before + MockId + after)
  {
    assert (MockId + after)[..|MockId|] == MockId;
    if |before| > 0 {
      assert (before + MockId + after)[0] == before[0];
    }
  }

  /** Two generated identifiers are equal only when their random suffixes are. */
  lemma GenerateMockIdInjective(a: string, b: string)
    ensures GenerateMockId(a) == GenerateMockId(b) <==> a == b
  {
    if GenerateMockId(a) == GenerateMockId(b) {
      assert a == GenerateMockId(a)[|MockId| + 1..];
    }
  }
}

/** Concrete keys from the payload placeholder and how they are classified. */
module PayloadExamples {
  import opened JsString
  import opened PrintUrl

  /** The real-time flag mentions "time" but is excluded by name. */
  lemma RealTimeIsNotTimeKey()
    ensures !IsTimeKey("isRealTime")
  {
    var low := ToLower("isRealTime");
    assert low == "isrealtime";
    assert OccursAt(low, "isrealtime", 0);
    ContainsSpec(low, "isrealtime");
  }

  /** The start timestamp is a time key, so its value keeps its colons. */
  lemma StartTimeIsTimeKey()
    ensures IsTimeKey("startTime")
  {
    var low := ToLower("startTime");
    assert low == "starttime";
    assert OccursAt(low, "time", 5);
    assert forall j :: !OccursAt(low, "isrealtime", j);
    ContainsSpec(low, "time");
    ContainsSpec(low, "isrealtime");
  }
}

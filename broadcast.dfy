/**
 * What the `/ws/speed` broadcast loop sends and when
 * (python-container/src/speed_detector/api/routes/websocket.py): the
 * change test between two state dictionaries and the fixed-shape record
 * sent to clients.
 */
module Broadcast {
  import opened Wrappers
  import opened State
  import StateManagement

  /** `d.get(key)`: a missing key reads as null. */
  function Get(d: Dict, key: string): Json {
    if key in d then d[key] else JNull
  }

  /** The fields whose change is worth a broadcast; `last_updated` and `last_seen_at` are not among them. */
  const SignificantKeys: seq<string> :=
    ["status", "speed_limit", "effective_speed_limit", "time_condition", "confirmed_at"]

  /** Nothing sent yet, or some significant field reads differently. */
  predicate SignificantlyDiffers(oldState: Option<Dict>, newState: Dict) {
    oldState.None? ||
    exists i :: 0 <= i < |SignificantKeys| && Get(oldState.value, SignificantKeys[i]) != Get(newState, SignificantKeys[i])
  }

  /** Two dictionaries that read alike on every significant field. */
  predicate AgreeOnSignificantKeys(a: Dict, b: Dict) {
    && Get(a, "status") == Get(b, "status")
    && Get(a, "speed_limit") == Get(b, "speed_limit")
    && Get(a, "effective_speed_limit") == Get(b, "effective_speed_limit")
    && Get(a, "time_condition") == Get(b, "time_condition")
    && Get(a, "confirmed_at") == Get(b, "confirmed_at")
  }

  /** A change is significant exactly when one of the five fields differs. */
  lemma SignificantIffSomeKeyDiffers(a: Dict, b: Dict)
    ensures SignificantlyDiffers(Some(a), b) <==> !AgreeOnSignificantKeys(a, b)
  {
    if !AgreeOnSignificantKeys(a, b) {
      if Get(a, "status") != Get(b, "status") {
        assert SignificantKeys[0] == "status";
      } else if Get(a, "speed_limit") != Get(b, "speed_limit") {
        assert SignificantKeys[1] == "speed_limit";
      } else if Get(a, "effective_speed_limit") != Get(b, "effective_speed_limit") {
        assert SignificantKeys[2] == "effective_speed_limit";
      } else if Get(a, "time_condition") != Get(b, "time_condition") {
        assert SignificantKeys[3] == "time_condition";
      } else {
        assert SignificantKeys[4] == "confirmed_at";
      }
    }
  }

  /** `_has_significant_change(old_state, new_state)`: the early-return search over the five keys. */
  method HasSignificantChange(oldState: Option<Dict>, newState: Dict) returns (r: bool)
    ensures r == SignificantlyDiffers(oldState, newState)
  {
    if oldState.None? {
      return true;
    }
    var keys := SignificantKeys;
    for i := 0 to |keys|
      invariant forall j :: 0 <= j < i ==> Get(oldState.value, keys[j]) == Get(newState, keys[j])
    {
      if Get(oldState.value, keys[i]) != Get(newState, keys[i]) {
        return true;
      }
    }
    return false;
  }

  /** A state compared with itself is never a significant change. */
  lemma NoChangeFromItself(d: Dict)
    ensures !SignificantlyDiffers(Some(d), d)
  {
    SignificantIffSomeKeyDiffers(d, d);
  }

  /** New update and last-seen times alone are not a significant change. */
  lemma TimestampsAreIgnored(d: Dict, updated: Json, seen: Json)
    ensures !SignificantlyDiffers(Some(d), d["last_updated" := updated]["last_seen_at" := seen])
  {
    SignificantIffSomeKeyDiffers(d, d["last_updated" := updated]["last_seen_at" := seen]);
  }

  /** A missing key and an explicit null compare equal. */
  lemma MissingKeyIsNull(d: Dict, key: string)
    requires key !in d
    ensures !SignificantlyDiffers(Some(d), d[key := JNull])
  {
    SignificantIffSomeKeyDiffers(d, d[key := JNull]);
  }

  /** The keys of every broadcast record. */
  const FormattedKeys: set<string> :=
    {"status", "speed_limit", "effective_speed_limit", "time_condition", "confirmed_at", "last_seen_at", "last_updated"}

  /** The entry `time_condition` must have when present, as `to_dict` writes it. */
  predicate WellFormedCondition(d: Dict) {
    "time_condition" in d ==>
      d["time_condition"].JObject? && "range" in d["time_condition"].fields
      && "is_active" in d["time_condition"].fields
  }

  /**
   * `_format_state(state_dict)`: exactly the seven keys; status and update
   * time copied, the optional fields copied or null, and the time window
   * reduced to its range and activity, or null.
   */
  function FormatState(d: Dict): (r: Dict)
    requires "status" in d && "last_updated" in d && WellFormedCondition(d)
    ensures r.Keys == FormattedKeys
    ensures r["status"] == d["status"] && r["last_updated"] == d["last_updated"]
    ensures r["speed_limit"] == Get(d, "speed_limit")
    ensures r["effective_speed_limit"] == Get(d, "effective_speed_limit")
    ensures r["confirmed_at"] == Get(d, "confirmed_at")
    ensures r["last_seen_at"] == Get(d, "last_seen_at")
    ensures r["time_condition"] != JNull <==> "time_condition" in d
    ensures "time_condition" in d ==>
      && r["time_condition"].JObject?
      && r["time_condition"].fields.Keys == {"range", "is_active"}
      && r["time_condition"].fields["range"] == d["time_condition"].fields["range"]
      && r["time_condition"].fields["is_active"] == d["time_condition"].fields["is_active"]
  {
    var timeCondition :=
      if "time_condition" in d then
        var tc := d["time_condition"].fields;
        JObject(map["range" := tc["range"], "is_active" := tc["is_active"]])
      else JNull;
    map[
      "status" := d["status"],
      "speed_limit" := Get(d, "speed_limit"),
      "effective_speed_limit" := Get(d, "effective_speed_limit"),
      "time_condition" := timeCondition,
      "confirmed_at" := Get(d, "confirmed_at"),
      "last_seen_at" := Get(d, "last_seen_at"),
      "last_updated" := d["last_updated"]]
  }

  /**
   * What a client receives for a stored state: the confirmed limit, its
   * effective value, its window and both times when one is confirmed, and
   * nulls otherwise.
   */
  lemma FormattedState(s: CurrentState, now: Timestamp)
    ensures WellFormedCondition(s.ToDict(now))
    ensures var r := FormatState(s.ToDict(now));
      && r["status"] == JStr(s.status.Value()) && r["last_updated"] == JTime(s.lastUpdated)
      && r["speed_limit"] == (if s.confirmed.Some? then JInt(s.confirmed.value.speedLimit) else JNull)
      && r["effective_speed_limit"] == IntOrNull(s.GetEffectiveSpeedLimit(now))
      && r["confirmed_at"] == (if s.confirmed.Some? then JTime(s.confirmed.value.confirmedAt) else JNull)
      && r["last_seen_at"] == (if s.confirmed.Some? then JTime(s.confirmed.value.lastSeenAt) else JNull)
      && r["time_condition"] == (if s.confirmed.Some? && s.confirmed.value.timeCondition.Some?
                                 then ConditionJson(s.confirmed.value.timeCondition.value, now) else JNull)
  {
    var d := s.ToDict(now);
    var r := FormatState(d);
    if s.confirmed.Some? && s.confirmed.value.timeCondition.Some? {
      var tc := s.confirmed.value.timeCondition.value;
      assert r["time_condition"].fields == ConditionJson(tc, now).fields;
    }
  }

  /**
   * Read at the same instant, the state after a frame without a detection
   * is not a significant change from the state before it.
   */
  lemma EmptyFrameIsQuiet(m: StateManagement.Machine, threshold: int, at: Timestamp, clock: Timestamp)
    ensures !SignificantlyDiffers(Some(m.state.ToDict(clock)),
                                  StateManagement.Step(m, threshold, None, at).state.ToDict(clock))
  {
    SignificantIffSomeKeyDiffers(m.state.ToDict(clock), StateManagement.Step(m, threshold, None, at).state.ToDict(clock));
  }

  /**
   * Read at the same instant, seeing the confirmed limit again is not a
   * significant change: only the last-seen time and the update time move.
   */
  lemma ReinforcementIsQuiet(m: StateManagement.Machine, threshold: int, d: SpeedLimitDetection, at: Timestamp, clock: Timestamp)
    requires m.state.confirmed.Some? && m.state.confirmed.value.speedLimit == d.speedLimit
    ensures !SignificantlyDiffers(Some(m.state.ToDict(clock)),
                                  StateManagement.Step(m, threshold, Some(d), at).state.ToDict(clock))
  {
    SignificantIffSomeKeyDiffers(m.state.ToDict(clock), StateManagement.Step(m, threshold, Some(d), at).state.ToDict(clock));
  }

  /** A newly confirmed limit that differs from the old one is always broadcast. */
  lemma NewConfirmedLimitIsSignificant(m: StateManagement.Machine, threshold: int, detection: Option<SpeedLimitDetection>,
                                       at: Timestamp, clock: Timestamp)
    requires var m' := StateManagement.Step(m, threshold, detection, at);
      m'.state.confirmed.Some? &&
      (m.state.confirmed.None? || m.state.confirmed.value.speedLimit != m'.state.confirmed.value.speedLimit)
    ensures SignificantlyDiffers(Some(m.state.ToDict(clock)),
                                 StateManagement.Step(m, threshold, detection, at).state.ToDict(clock))
  {
    var a, b := m.state.ToDict(clock), StateManagement.Step(m, threshold, detection, at).state.ToDict(clock);
    assert Get(a, "speed_limit") != Get(b, "speed_limit");
    SignificantIffSomeKeyDiffers(a, b);
  }
}

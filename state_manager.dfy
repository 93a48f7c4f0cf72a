/**
 * The consecutive-frame confirmation of speed limits
 * (old/python-container/src/speed_detector/pipeline/state_manager.py).
 *
 * `Step` says what one `StateManager.update` call does to the manager's
 * private pending fields and to the stored state together (a `Machine`);
 * the class below is proved to do exactly that, and the lemmas say what
 * follows from it over runs of frames.
 */
module StateManagement {
  import opened Wrappers
  import opened State
  import opened Memory

  /** `StateConfig.confirmation_frames` when nothing is configured. */
  const DefaultConfirmationFrames: int := 3

  /** The manager's pending fields and the stored state. */
  datatype Machine = Machine(
    pendingSpeed: Option<int>,
    pendingTimeCondition: Option<TimeCondition>,
    pendingCount: int,
    state: CurrentState)

  /** One processed frame: the detection, if any, and the instant of processing. */
  datatype Frame = Frame(detection: Option<SpeedLimitDetection>, at: Timestamp)

  /** A new manager over a fresh store. */
  function InitialMachine(now: Timestamp): Machine {
    Machine(None, None, 0, DefaultState(now))
  }

  /** `_handle_no_detection`: pending cleared; confirmed limit and status left as they are. */
  function NoDetectionStep(m: Machine, now: Timestamp): Machine {
    Machine(None, None, 0, m.state.(pending := None, pendingCount := 0, lastUpdated := now))
  }

  /**
   * `_handle_detection`, in the source's order: the confirmed limit seen again
   * (reinforced, pending cleared); the pending limit seen again (counted, and
   * confirmed on reaching the threshold); anything else (a new pending limit
   * with count 1). The reinforcing branch clears the pending limit but not the
   * pending time condition, and does not touch the status.
   */
  function DetectionStep(m: Machine, threshold: int, d: SpeedLimitDetection, now: Timestamp): Machine {
    var s := m.state;
    if s.confirmed.Some? && s.confirmed.value.speedLimit == d.speedLimit then
      Machine(None, m.pendingTimeCondition, 0,
              s.(confirmed := Some(s.confirmed.value.UpdateLastSeen(now)),
                 pending := None, pendingCount := 0, lastUpdated := now))
    else if m.pendingSpeed == Some(d.speedLimit) then
      var count := m.pendingCount + 1;
      if count >= threshold then
        Machine(None, None, 0,
                s.(confirmed := Some(ConfirmedSpeedLimit(d.speedLimit, d.timeCondition, now, now, count)),
                   status := Confirmed, pending := None, pendingCount := 0, lastUpdated := now))
      else
        Machine(m.pendingSpeed, m.pendingTimeCondition, count,
                s.(status := Detecting, pending := Some(d), pendingCount := count, lastUpdated := now))
    else
      Machine(Some(d.speedLimit), d.timeCondition, 1,
              s.(status := Detecting, pending := Some(d), pendingCount := 1, lastUpdated := now))
  }

  /** `update(detection)`. */
  function Step(m: Machine, threshold: int, detection: Option<SpeedLimitDetection>, now: Timestamp): Machine {
    match detection
    case None => NoDetectionStep(m, now)
    case Some(d) => DetectionStep(m, threshold, d, now)
  }

  /** `update` called once per frame, in order. */
  function Run(m: Machine, threshold: int, frames: seq<Frame>): Machine
    decreases |frames|
  {
    if frames == [] then m
    else Run(Step(m, threshold, frames[0].detection, frames[0].at), threshold, frames[1..])
  }

  /** The largest pending count plus one: a first sighting counts 1 even when the threshold is lower. */
  function CountBound(threshold: int): int {
    if threshold >= 2 then threshold else 2
  }

  /**
   * What holds between calls: the manager's pending fields and the stored
   * pending detection agree; the count stays below the threshold; CONFIRMED
   * comes only with a confirmed limit and nothing pending; NO_DETECTION only
   * before anything was confirmed; a pending limit is never the confirmed one.
   */
  predicate Coherent(m: Machine, threshold: int) {
    && m.state.pendingCount == m.pendingCount
    && (m.pendingSpeed.Some? <==> m.state.pending.Some?)
    && (m.state.pending.Some? ==> m.pendingSpeed == Some(m.state.pending.value.speedLimit))
    && (m.pendingSpeed.None? <==> m.pendingCount == 0)
    && 0 <= m.pendingCount < CountBound(threshold)
    && (m.state.status == Confirmed ==> m.state.confirmed.Some? && m.state.pending.None?)
    && (m.state.status == NoDetection ==> m.state.confirmed.None? && m.state.pending.None?)
    && (m.pendingSpeed.Some? && m.state.confirmed.Some? ==>
          m.pendingSpeed.value != m.state.confirmed.value.speedLimit)
  }

  lemma InitialIsCoherent(now: Timestamp, threshold: int)
    ensures Coherent(InitialMachine(now), threshold)
  {
  }

  lemma StepKeepsCoherent(m: Machine, threshold: int, detection: Option<SpeedLimitDetection>, now: Timestamp)
    requires Coherent(m, threshold)
    ensures Coherent(Step(m, threshold, detection, now), threshold)
  {
  }

  /** Every run of frames keeps the invariant, whatever the frames are. */
  lemma {:induction false} RunKeepsCoherent(m: Machine, threshold: int, frames: seq<Frame>)
    requires Coherent(m, threshold)
    ensures Coherent(Run(m, threshold, frames), threshold)
    decreases |frames|
  {
    if frames != [] {
      StepKeepsCoherent(m, threshold, frames[0].detection, frames[0].at);
      RunKeepsCoherent(Step(m, threshold, frames[0].detection, frames[0].at), threshold, frames[1..]);
    }
  }

  /** Frames processed in two batches give the same result as in one. */
  lemma {:induction false} RunAppend(m: Machine, threshold: int, a: seq<Frame>, b: seq<Frame>)
    ensures Run(m, threshold, a + b) == Run(Run(m, threshold, a), threshold, b)
    decreases |a|
  {
    if a == [] {
      assert a + b == b;
    } else {
      assert (a + b)[0] == a[0] && (a + b)[1..] == a[1..] + b;
      RunAppend(Step(m, threshold, a[0].detection, a[0].at), threshold, a[1..], b);
    }
  }

  /**
   * A confirmed limit is replaced only by promoting a pending limit that
   * reaches the threshold, or refreshed by seeing it again; it is never
   * cleared by an update.
   */
  lemma ConfirmedChangesOnlyByPromotionOrSighting(
    m: Machine, threshold: int, detection: Option<SpeedLimitDetection>, now: Timestamp)
    ensures var m' := Step(m, threshold, detection, now);
      && (m.state.confirmed.Some? ==> m'.state.confirmed.Some?)
      && (m'.state.confirmed != m.state.confirmed ==>
            detection.Some? &&
            ((m.state.confirmed.Some? && m.state.confirmed.value.speedLimit == detection.value.speedLimit
              && m'.state.confirmed == Some(m.state.confirmed.value.UpdateLastSeen(now)))
             || (m.pendingSpeed == Some(detection.value.speedLimit)
                 && m.pendingCount + 1 >= threshold
                 && m'.state.confirmed.value.speedLimit == detection.value.speedLimit
                 && m'.state.status == Confirmed)))
  {
  }

  /** No run of frames clears a confirmed limit. */
  lemma {:induction false} RunKeepsAConfirmedLimit(m: Machine, threshold: int, frames: seq<Frame>)
    requires m.state.confirmed.Some?
    ensures Run(m, threshold, frames).state.confirmed.Some?
    decreases |frames|
  {
    if frames != [] {
      ConfirmedChangesOnlyByPromotionOrSighting(m, threshold, frames[0].detection, frames[0].at);
      RunKeepsAConfirmedLimit(Step(m, threshold, frames[0].detection, frames[0].at), threshold, frames[1..]);
    }
  }

  /** From a fresh manager, one sighting is DETECTING with count 1 and nothing confirmed. */
  lemma FirstSighting(now: Timestamp, threshold: int, d: SpeedLimitDetection, at: Timestamp)
    ensures var m := Step(InitialMachine(now), threshold, Some(d), at);
      && m.state.status == Detecting && m.state.pendingCount == 1
      && m.state.pending == Some(d) && m.state.confirmed.None?
  {
  }

  /** One frame is one step. */
  lemma RunSingle(m: Machine, threshold: int, f: Frame)
    ensures Run(m, threshold, [f]) == Step(m, threshold, f.detection, f.at)
  {
    assert [f][1..] == [];
  }

  /** Two frames are two steps. */
  lemma RunPair(m: Machine, threshold: int, f: Frame, g: Frame)
    ensures Run(m, threshold, [f, g]) == Step(Step(m, threshold, f.detection, f.at), threshold, g.detection, g.at)
  {
    assert [f, g][1..] == [g];
    RunSingle(Step(m, threshold, f.detection, f.at), threshold, g);
  }

  /**
   * A sighting of neither the confirmed nor the pending limit starts a new
   * pending limit at count 1 (not 0), status DETECTING, and keeps the
   * confirmed limit.
   */
  lemma NewLimitRestartsCount(m: Machine, threshold: int, d: SpeedLimitDetection, now: Timestamp)
    requires m.pendingSpeed != Some(d.speedLimit)
    requires m.state.confirmed.None? || m.state.confirmed.value.speedLimit != d.speedLimit
    ensures var m' := Step(m, threshold, Some(d), now);
      && m'.pendingSpeed == Some(d.speedLimit) && m'.pendingCount == 1
      && m'.state.pendingCount == 1 && m'.state.pending == Some(d)
      && m'.state.status == Detecting && m'.state.confirmed == m.state.confirmed
  {
  }

  /**
   * Seeing the confirmed limit again counts one more sighting, keeps the
   * limit, its window and its confirmation time, clears anything pending and
   * leaves the status alone; this wins over a pending limit of the same value.
   */
  lemma SightingReinforces(m: Machine, threshold: int, d: SpeedLimitDetection, now: Timestamp)
    requires m.state.confirmed.Some? && m.state.confirmed.value.speedLimit == d.speedLimit
    ensures var c, m' := m.state.confirmed.value, Step(m, threshold, Some(d), now);
      && m'.state.confirmed.Some?
      && m'.state.confirmed.value.detectionCount == c.detectionCount + 1
      && m'.state.confirmed.value.speedLimit == c.speedLimit
      && m'.state.confirmed.value.timeCondition == c.timeCondition
      && m'.state.confirmed.value.confirmedAt == c.confirmedAt
      && m'.state.confirmed.value.lastSeenAt == now
      && m'.pendingSpeed.None? && m'.pendingCount == 0
      && m'.state.pending.None? && m'.state.pendingCount == 0
      && m'.state.status == m.state.status
  {
  }

  /** Frames without a detection, however many, clear what is pending and change nothing else. */
  lemma {:induction false} EmptyFramesKeepConfirmed(m: Machine, threshold: int, frames: seq<Frame>)
    requires frames != []
    requires forall i :: 0 <= i < |frames| ==> frames[i].detection.None?
    ensures var m' := Run(m, threshold, frames);
      && m'.pendingSpeed.None? && m'.pendingCount == 0
      && m'.state.pending.None? && m'.state.pendingCount == 0
      && m'.state.confirmed == m.state.confirmed && m'.state.status == m.state.status
    decreases |frames|
  {
    var m1 := Step(m, threshold, None, frames[0].at);
    if |frames| > 1 {
      EmptyFramesKeepConfirmed(m1, threshold, frames[1..]);
    }
  }

  /** Every frame detects the speed limit `v`. */
  predicate AllSightingsOf(frames: seq<Frame>, v: int) {
    forall i :: 0 <= i < |frames| ==> frames[i].detection.Some? && frames[i].detection.value.speedLimit == v
  }

  /** Further sightings of the pending limit below the threshold only raise the count. */
  lemma {:induction false} SightingsAccumulate(m: Machine, threshold: int, v: int, frames: seq<Frame>)
    requires m.pendingSpeed == Some(v) && m.pendingCount >= 1
    requires m.state.confirmed.None? || m.state.confirmed.value.speedLimit != v
    requires AllSightingsOf(frames, v)
    requires m.pendingCount + |frames| < threshold
    ensures var m' := Run(m, threshold, frames);
      && m'.pendingSpeed == Some(v) && m'.pendingCount == m.pendingCount + |frames|
      && m'.state.confirmed == m.state.confirmed
      && (frames != [] ==> m'.state.status == Detecting && m'.state.pendingCount == m'.pendingCount
                           && m'.state.pending == frames[|frames| - 1].detection)
    decreases |frames|
  {
    if frames != [] {
      var m1 := Step(m, threshold, frames[0].detection, frames[0].at);
      assert AllSightingsOf(frames[1..], v);
      SightingsAccumulate(m1, threshold, v, frames[1..]);
      if |frames| > 1 {
        assert frames[1..][|frames[1..]| - 1] == frames[|frames| - 1];
      }
    }
  }

  /**
   * With a threshold k of at least 2, k - 1 sightings of a limit that is
   * neither pending nor confirmed leave it DETECTING at count k - 1, with the
   * old confirmed limit kept.
   */
  lemma OneShortOfThreshold(m: Machine, threshold: int, v: int, frames: seq<Frame>)
    requires threshold >= 2 && |frames| == threshold - 1
    requires m.pendingSpeed != Some(v)
    requires m.state.confirmed.None? || m.state.confirmed.value.speedLimit != v
    requires AllSightingsOf(frames, v)
    ensures var m' := Run(m, threshold, frames);
      && m'.state.status == Detecting && m'.state.pendingCount == threshold - 1
      && m'.pendingSpeed == Some(v) && m'.pendingCount == threshold - 1 && m'.state.confirmed == m.state.confirmed
  {
    var m1 := Step(m, threshold, frames[0].detection, frames[0].at);
    assert AllSightingsOf(frames[1..], v);
    SightingsAccumulate(m1, threshold, v, frames[1..]);
  }

  /**
   * With a threshold k of at least 2, k consecutive sightings of a limit that
   * is neither pending nor confirmed make it the confirmed limit, CONFIRMED,
   * with k sightings counted, the last sighting's time window, and confirmed
   * at the last frame; whatever was confirmed before is replaced.
   */
  lemma ThresholdSightingsConfirm(m: Machine, threshold: int, v: int, frames: seq<Frame>)
    requires threshold >= 2 && |frames| == threshold
    requires m.pendingSpeed != Some(v)
    requires m.state.confirmed.None? || m.state.confirmed.value.speedLimit != v
    requires AllSightingsOf(frames, v)
    ensures var m', last := Run(m, threshold, frames), frames[threshold - 1];
      && m'.state.status == Confirmed
      && m'.state.confirmed == Some(ConfirmedSpeedLimit(v, last.detection.value.timeCondition,
                                                        last.at, last.at, threshold))
      && m'.state.pending.None? && m'.state.pendingCount == 0
      && m'.pendingSpeed.None? && m'.pendingCount == 0
  {
    var init, last := frames[..threshold - 1], frames[threshold - 1];
    assert frames == init + [last];
    assert AllSightingsOf(init, v);
    OneShortOfThreshold(m, threshold, v, init);
    RunAppend(m, threshold, init, [last]);
    RunSingle(Run(m, threshold, init), threshold, last);
  }

  /**
   * The status does not always say whether a limit is confirmed: after a
   * confirmed 40, a 60 and then a 40 again, the stored state is DETECTING with
   * 40 confirmed and nothing pending.
   */
  lemma DetectingWithConfirmedLimit(d40: SpeedLimitDetection, d60: SpeedLimitDetection)
    requires d40.speedLimit == 40 && d60.speedLimit == 60
    ensures var frames := [Frame(Some(d40), 1), Frame(Some(d40), 2), Frame(Some(d40), 3),
                           Frame(Some(d60), 4), Frame(Some(d40), 5)];
      var m := Run(InitialMachine(0), DefaultConfirmationFrames, frames);
      && m.state.status == Detecting && m.state.confirmed.Some?
      && m.state.confirmed.value.speedLimit == 40 && m.state.pending.None?
  {
    var k := DefaultConfirmationFrames;
    var first := [Frame(Some(d40), 1), Frame(Some(d40), 2), Frame(Some(d40), 3)];
    var rest := [Frame(Some(d60), 4), Frame(Some(d40), 5)];
    assert first + rest == [Frame(Some(d40), 1), Frame(Some(d40), 2), Frame(Some(d40), 3),
                            Frame(Some(d60), 4), Frame(Some(d40), 5)];
    ThresholdSightingsConfirm(InitialMachine(0), k, 40, first);
    RunAppend(InitialMachine(0), k, first, rest);
    RunPair(Run(InitialMachine(0), k, first), k, rest[0], rest[1]);
  }

  /**
   * A confirmed 40, a frame with nothing, then 60 three times: still 40 after
   * the empty frame, DETECTING 60 at count 1 with 40 kept, and 60 confirmed
   * after its third sighting.
   */
  lemma SignChangeScenario(d40: SpeedLimitDetection, d60: SpeedLimitDetection)
    requires d40.speedLimit == 40 && d60.speedLimit == 60
    ensures var k := DefaultConfirmationFrames;
      var m3 := Run(InitialMachine(0), k, [Frame(Some(d40), 1), Frame(Some(d40), 2), Frame(Some(d40), 3)]);
      var m4 := Step(m3, k, None, 4);
      var m5 := Step(m4, k, Some(d60), 5);
      var m7 := Run(m5, k, [Frame(Some(d60), 6), Frame(Some(d60), 7)]);
      && m3.state.status == Confirmed
      && m3.state.confirmed.Some? && m3.state.confirmed.value.speedLimit == 40
      && m3.state.confirmed.value.detectionCount == 3
      && m4.state.status == Confirmed && m4.state.confirmed == m3.state.confirmed
      && m5.state.status == Detecting && m5.state.pending == Some(d60) && m5.state.pendingCount == 1
      && m5.state.confirmed == m3.state.confirmed
      && m7.state.status == Confirmed
      && m7.state.confirmed.Some? && m7.state.confirmed.value.speedLimit == 60
  {
    var k := DefaultConfirmationFrames;
    ThresholdSightingsConfirm(InitialMachine(0), k, 40, [Frame(Some(d40), 1), Frame(Some(d40), 2), Frame(Some(d40), 3)]);
    var m3 := Run(InitialMachine(0), k, [Frame(Some(d40), 1), Frame(Some(d40), 2), Frame(Some(d40), 3)]);
    var m5 := Step(Step(m3, k, None, 4), k, Some(d60), 5);
    RunPair(m5, k, Frame(Some(d60), 6), Frame(Some(d60), 7));
  }

  /** The `reset` result: a fresh manager, so NO_DETECTION, nothing confirmed or pending, no effective limit. */
  lemma ResetReportsNothing(now: Timestamp, clock: Timestamp)
    ensures var m := InitialMachine(now);
      && m.state.status == NoDetection && m.state.confirmed.None? && m.state.pendingCount == 0
      && m.pendingSpeed.None? && m.pendingCount == 0
      && m.state.GetEffectiveSpeedLimit(clock).None?
  {
  }

  /** The dummy box `create_detection` uses when given none. */
  const DefaultBox: BoundingBox := BoundingBox(0.0, 0.0, 100.0, 100.0)

  /** `create_detection(...)`: a detection stamped `now`, confidence 0.9 and the dummy box by default. */
  function CreateDetection(
    speedLimit: int, now: Timestamp, confidence: real := 0.9,
    bbox: Option<BoundingBox> := None, timeCondition: Option<TimeCondition> := None): (d: SpeedLimitDetection)
    ensures d.speedLimit == speedLimit && d.confidence == confidence
    ensures d.bbox == bbox.GetOr(DefaultBox) && d.timeCondition == timeCondition && d.timestamp == now
  {
    SpeedLimitDetection(speedLimit, confidence, if bbox.None? then DefaultBox else bbox.value, timeCondition, now)
  }

  class StateManager {
    /** `config.confirmation_frames`. */
    const confirmationFrames: int
    /** The store this manager writes (`_memory`). */
    const memory: SharedMemory
    var pendingSpeedLimit: Option<int>
    var pendingTimeCondition: Option<TimeCondition>
    var pendingCount: int

    /** The pending fields together with the stored state. */
    ghost function Model(): Machine
      reads this, memory
    {
      Machine(pendingSpeedLimit, pendingTimeCondition, pendingCount, memory.state)
    }

    constructor (confirmationFrames: int, memory: SharedMemory)
      ensures this.confirmationFrames == confirmationFrames && this.memory == memory
      ensures pendingSpeedLimit.None? && pendingTimeCondition.None? && pendingCount == 0
    {
      this.confirmationFrames := confirmationFrames;
      this.memory := memory;
      pendingSpeedLimit := None;
      pendingTimeCondition := None;
      pendingCount := 0;
    }

    /** `update(detection)`: one frame folded in; returns the stored state. */
    method Update(detection: Option<SpeedLimitDetection>, now: Timestamp) returns (state: CurrentState)
      modifies this, memory
      ensures Model() == Step(old(Model()), confirmationFrames, detection, now)
      ensures memory.initialized == old(memory.initialized)
      ensures state == memory.state
    {
      var current := memory.GetState();
      if detection.None? {
        state := HandleNoDetection(current, now);
      } else {
        state := HandleDetection(current, detection.value, now);
      }
    }

    /** `_handle_no_detection(state)`. */
    method HandleNoDetection(state: CurrentState, now: Timestamp) returns (r: CurrentState)
      requires state == memory.state
      modifies this, memory
      ensures Model() == NoDetectionStep(old(Model()), now)
      ensures memory.initialized == old(memory.initialized)
      ensures r == memory.state
    {
      pendingSpeedLimit := None;
      pendingTimeCondition := None;
      pendingCount := 0;
      var s := state.(pending := None, pendingCount := 0);
      r := memory.UpdateState(s, now);
    }

    /** `_handle_detection(state, detection)`. */
    method HandleDetection(state: CurrentState, detection: SpeedLimitDetection, now: Timestamp)
      returns (r: CurrentState)
      requires state == memory.state
      modifies this, memory
      ensures Model() == DetectionStep(old(Model()), confirmationFrames, detection, now)
      ensures memory.initialized == old(memory.initialized)
      ensures r == memory.state
    {
      var s := state;
      var detectedLimit := detection.speedLimit;
      var detectedTimeCond := detection.timeCondition;
      if s.confirmed.Some? && s.confirmed.value.speedLimit == detectedLimit {
        s := s.(confirmed := Some(s.confirmed.value.UpdateLastSeen(now)));
        pendingSpeedLimit := None;
        pendingCount := 0;
        s := s.(pending := None, pendingCount := 0);
        r := memory.UpdateState(s, now);
        return;
      }
      if pendingSpeedLimit == Some(detectedLimit) {
        pendingCount := pendingCount + 1;
        if pendingCount >= confirmationFrames {
          s := s.(confirmed := Some(ConfirmedSpeedLimit(detectedLimit, detectedTimeCond, now, now, pendingCount)),
                  status := Confirmed, pending := None, pendingCount := 0);
          pendingSpeedLimit := None;
          pendingTimeCondition := None;
          pendingCount := 0;
        } else {
          s := s.(status := Detecting, pending := Some(detection), pendingCount := pendingCount);
        }
      } else {
        pendingSpeedLimit := Some(detectedLimit);
        pendingTimeCondition := detectedTimeCond;
        pendingCount := 1;
        s := s.(status := Detecting, pending := Some(detection), pendingCount := 1);
      }
      r := memory.UpdateState(s, now);
    }

    /** `get_current_state()`. */
    method GetCurrentState() returns (s: CurrentState)
      ensures s == memory.state
    {
      s := memory.GetState();
    }

    /** `get_effective_speed_limit()`: the store's effective limit at `now`. */
    method GetEffectiveSpeedLimit(now: Timestamp) returns (limit: Option<int>)
      ensures limit == memory.state.GetEffectiveSpeedLimit(now)
    {
      limit := memory.GetSpeedLimit(now);
    }

    /** `reset()`: pending cleared and the store reset, as a fresh manager. */
    method Reset(now: Timestamp)
      modifies this, memory
      ensures Model() == InitialMachine(now)
      ensures memory.initialized == old(memory.initialized)
    {
      pendingSpeedLimit := None;
      pendingTimeCondition := None;
      pendingCount := 0;
      memory.Reset(now);
    }
  }
}

/**
 * The per-connection confirmation machine of the frame WebSocket
 * (python-container/src/speed_detector/api/routes/frames.py, class
 * `FrameStateManager`): plain integer speeds in, one result record out per
 * frame.
 */
module Frames {
  import opened Wrappers
  import opened State
  import StateManagement

  /** The threshold the `/ws/frames` endpoint builds its manager with. */
  const LiveConfirmationFrames: int := 2

  /** The `"status"` values of a frame result. */
  datatype FrameStatus = FrameConfirmed | FrameDetecting | FrameNoDetection {
    function Value(): (r: string)
      ensures FrameStatusOfValue(r) == Some(this)
    {
      match this
      case FrameConfirmed => "confirmed"
      case FrameDetecting => "detecting"
      case FrameNoDetection => "no_detection"
    }
  }

  function FrameStatusOfValue(s: string): Option<FrameStatus> {
    if s == "confirmed" then Some(FrameConfirmed)
    else if s == "detecting" then Some(FrameDetecting)
    else if s == "no_detection" then Some(FrameNoDetection)
    else None
  }

  /**
   * The dictionary `update` returns. `pendingCount` is `None` when the key is
   * absent: only "detecting" results carry it.
   */
  datatype FrameResult = FrameResult(
    status: FrameStatus,
    speedLimit: Option<int>,
    pendingCount: Option<int>,
    timestamp: Option<Timestamp>)

  /** The manager's four fields. */
  datatype FrameState = FrameState(
    pendingSpeed: Option<int>,
    pendingCount: int,
    confirmedSpeed: Option<int>,
    confirmedAt: Option<Timestamp>)

  datatype FrameOutcome = FrameOutcome(next: FrameState, result: FrameResult)

  /** A new manager, and the state `reset` returns to. */
  const InitialFrameState: FrameState := FrameState(None, 0, None, None)

  /** The "confirmed" record for the current confirmed speed. */
  function ConfirmedResult(s: FrameState): FrameResult {
    FrameResult(FrameConfirmed, s.confirmedSpeed, None, s.confirmedAt)
  }

  /**
   * `update(detected_speed)` at instant `now`: the new fields and the
   * returned record.
   */
  function FrameStep(s: FrameState, threshold: int, detected: Option<int>, now: Timestamp): (r: FrameOutcome)
    // "confirmed" reports the confirmed speed, which is then present
    ensures r.result.status == FrameConfirmed ==>
              r.next.confirmedSpeed.Some? && r.result.speedLimit == r.next.confirmedSpeed
              && r.result.timestamp == r.next.confirmedAt
    // "no_detection" exactly when nothing was seen and nothing is confirmed
    ensures r.result.status == FrameNoDetection <==> detected.None? && s.confirmedSpeed.None?
    ensures r.result.status == FrameNoDetection ==> r.result.speedLimit.None? && r.result.timestamp.None?
    // "detecting" reports the value just seen and the new count, which the manager keeps pending
    ensures r.result.status == FrameDetecting ==>
              detected.Some? && r.result.speedLimit == detected && r.next.pendingSpeed == detected
              && r.result.pendingCount == Some(r.next.pendingCount) && r.result.timestamp.None?
    ensures r.result.pendingCount.Some? <==> r.result.status == FrameDetecting
    // nothing seen: pending cleared, confirmed kept
    ensures detected.None? ==>
              r.next == s.(pendingSpeed := None, pendingCount := 0)
    // the confirmed speed seen again: nothing changes
    ensures detected.Some? && detected == s.confirmedSpeed ==> r.next == s && r.result == ConfirmedResult(s)
    // the pending speed seen again: one more sighting; on reaching the threshold it is confirmed now
    // and nothing stays pending
    ensures detected.Some? && detected != s.confirmedSpeed && detected == s.pendingSpeed ==>
              if s.pendingCount + 1 >= threshold then
                r.next == FrameState(None, 0, detected, Some(now)) && r.result.status == FrameConfirmed
              else
                r.next == s.(pendingCount := s.pendingCount + 1) && r.result.status == FrameDetecting
    // a speed neither confirmed nor pending: it becomes pending with count 1
    ensures detected.Some? && detected != s.confirmedSpeed && detected != s.pendingSpeed ==>
              r.next == s.(pendingSpeed := detected, pendingCount := 1) && r.result.status == FrameDetecting
  {
    match detected
    case None =>
      var next := s.(pendingSpeed := None, pendingCount := 0);
      if s.confirmedSpeed.Some? then FrameOutcome(next, ConfirmedResult(s))
      else FrameOutcome(next, FrameResult(FrameNoDetection, None, None, None))
    case Some(v) =>
      if s.confirmedSpeed == Some(v) then FrameOutcome(s, ConfirmedResult(s))
      else if s.pendingSpeed == Some(v) then
        var count := s.pendingCount + 1;
        if count >= threshold then
          FrameOutcome(FrameState(None, 0, Some(v), Some(now)), FrameResult(FrameConfirmed, Some(v), None, Some(now)))
        else
          FrameOutcome(s.(pendingCount := count), FrameResult(FrameDetecting, Some(v), Some(count), None))
      else
        FrameOutcome(s.(pendingSpeed := Some(v), pendingCount := 1), FrameResult(FrameDetecting, Some(v), Some(1), None))
  }

  /** A frame's OCR outcome and the instant it was processed. */
  datatype SpeedFrame = SpeedFrame(detected: Option<int>, at: Timestamp)

  /** The state after `update` is called once per frame, in order. */
  function FrameRun(s: FrameState, threshold: int, frames: seq<SpeedFrame>): FrameState
    decreases |frames|
  {
    if frames == [] then s
    else FrameRun(FrameStep(s, threshold, frames[0].detected, frames[0].at).next, threshold, frames[1..])
  }

  /**
   * What holds between calls: a pending speed exactly when the count is
   * positive, the count below the threshold (a first sighting counts 1 even
   * when the threshold is lower), a confirmation time exactly when a speed is
   * confirmed, and a pending speed never the confirmed one.
   */
  predicate FrameInvariant(s: FrameState, threshold: int) {
    && (s.pendingSpeed.None? <==> s.pendingCount == 0)
    && 0 <= s.pendingCount < StateManagement.CountBound(threshold)
    && (s.confirmedSpeed.Some? <==> s.confirmedAt.Some?)
    && (s.pendingSpeed.Some? && s.confirmedSpeed.Some? ==> s.pendingSpeed != s.confirmedSpeed)
  }

  lemma FrameStepKeepsInvariant(s: FrameState, threshold: int, detected: Option<int>, now: Timestamp)
    requires FrameInvariant(s, threshold)
    ensures FrameInvariant(FrameStep(s, threshold, detected, now).next, threshold)
  {
  }

  /** With a threshold k of at least 2 the pending count stays within 0..k-1 whatever the frames. */
  lemma {:induction false} FrameRunKeepsInvariant(s: FrameState, threshold: int, frames: seq<SpeedFrame>)
    requires FrameInvariant(s, threshold)
    ensures FrameInvariant(FrameRun(s, threshold, frames), threshold)
    ensures threshold >= 2 ==> 0 <= FrameRun(s, threshold, frames).pendingCount <= threshold - 1
    decreases |frames|
  {
    if frames != [] {
      FrameStepKeepsInvariant(s, threshold, frames[0].detected, frames[0].at);
      FrameRunKeepsInvariant(FrameStep(s, threshold, frames[0].detected, frames[0].at).next, threshold, frames[1..]);
    }
  }

  /**
   * The confirmed speed changes only when the pending speed is seen with the
   * count reaching the threshold, and then becomes that speed, confirmed now;
   * no update clears it.
   */
  lemma ConfirmedChangesOnlyAtThreshold(s: FrameState, threshold: int, detected: Option<int>, now: Timestamp)
    ensures var n := FrameStep(s, threshold, detected, now).next;
      && (s.confirmedSpeed.Some? ==> n.confirmedSpeed.Some?)
      && (n.confirmedSpeed != s.confirmedSpeed ==>
            detected.Some? && s.pendingSpeed == detected && s.pendingCount + 1 >= threshold
            && n.confirmedSpeed == detected && n.confirmedAt == Some(now))
  {
  }

  /** No run of frames clears a confirmed speed. */
  lemma {:induction false} FrameRunKeepsConfirmed(s: FrameState, threshold: int, frames: seq<SpeedFrame>)
    requires s.confirmedSpeed.Some?
    ensures FrameRun(s, threshold, frames).confirmedSpeed.Some?
    decreases |frames|
  {
    if frames != [] {
      ConfirmedChangesOnlyAtThreshold(s, threshold, frames[0].detected, frames[0].at);
      FrameRunKeepsConfirmed(FrameStep(s, threshold, frames[0].detected, frames[0].at).next, threshold, frames[1..]);
    }
  }

  /** Every frame sees the speed `v`. */
  predicate AllSightingsOf(frames: seq<SpeedFrame>, v: int) {
    forall i :: 0 <= i < |frames| ==> frames[i].detected == Some(v)
  }

  /** Further sightings of the pending speed below the threshold only raise the count. */
  lemma {:induction false} FrameSightingsAccumulate(s: FrameState, threshold: int, v: int, frames: seq<SpeedFrame>)
    requires s.pendingSpeed == Some(v) && s.confirmedSpeed != Some(v)
    requires AllSightingsOf(frames, v)
    requires s.pendingCount + |frames| < threshold
    ensures FrameRun(s, threshold, frames) == s.(pendingCount := s.pendingCount + |frames|)
    decreases |frames|
  {
    if frames != [] {
      var s1 := FrameStep(s, threshold, frames[0].detected, frames[0].at).next;
      assert AllSightingsOf(frames[1..], v);
      FrameSightingsAccumulate(s1, threshold, v, frames[1..]);
    }
  }

  /**
   * Sightings of the pending speed that bring its count to the threshold
   * confirm it at the last of them, with nothing left pending.
   */
  lemma {:induction false} FrameSightingsConfirm(s: FrameState, threshold: int, v: int, frames: seq<SpeedFrame>)
    requires s.pendingSpeed == Some(v) && s.confirmedSpeed != Some(v)
    requires AllSightingsOf(frames, v) && frames != []
    requires s.pendingCount + |frames| == threshold
    ensures FrameRun(s, threshold, frames) == FrameState(None, 0, Some(v), Some(frames[|frames| - 1].at))
    decreases |frames|
  {
    var s1 := FrameStep(s, threshold, frames[0].detected, frames[0].at).next;
    if |frames| == 1 {
      assert frames[1..] == [];
    } else {
      assert AllSightingsOf(frames[1..], v);
      FrameSightingsConfirm(s1, threshold, v, frames[1..]);
      assert frames[1..][|frames| - 2] == frames[|frames| - 1];
    }
  }

  /**
   * With a threshold k of at least 2, k - 1 sightings of a speed that is
   * neither pending nor confirmed leave it pending at count k - 1, with the
   * confirmed speed kept.
   */
  lemma FrameOneShortOfThreshold(s: FrameState, threshold: int, v: int, frames: seq<SpeedFrame>)
    requires threshold >= 2 && |frames| == threshold - 1
    requires s.pendingSpeed != Some(v) && s.confirmedSpeed != Some(v)
    requires AllSightingsOf(frames, v)
    ensures FrameRun(s, threshold, frames) == s.(pendingSpeed := Some(v), pendingCount := threshold - 1)
  {
    var s1 := FrameStep(s, threshold, frames[0].detected, frames[0].at).next;
    assert AllSightingsOf(frames[1..], v);
    FrameSightingsAccumulate(s1, threshold, v, frames[1..]);
  }

  /**
   * With a threshold k of at least 2, k consecutive sightings of a speed that
   * is neither pending nor confirmed confirm it at the last frame, replacing
   * whatever was confirmed, with nothing left pending.
   */
  lemma FrameThresholdSightingsConfirm(s: FrameState, threshold: int, v: int, frames: seq<SpeedFrame>)
    requires threshold >= 2 && |frames| == threshold
    requires s.pendingSpeed != Some(v) && s.confirmedSpeed != Some(v)
    requires AllSightingsOf(frames, v)
    ensures FrameRun(s, threshold, frames) == FrameState(None, 0, Some(v), Some(frames[threshold - 1].at))
  {
    var s1 := FrameStep(s, threshold, frames[0].detected, frames[0].at).next;
    assert AllSightingsOf(frames[1..], v);
    FrameSightingsConfirm(s1, threshold, v, frames[1..]);
    assert frames[1..][threshold - 2] == frames[threshold - 1];
  }

  /**
   * On the live path (threshold 2), two consecutive sightings of a speed
   * leave it confirmed and the second result reports it as "confirmed".
   */
  lemma TwoSightingsConfirmLive(s: FrameState, v: int, t1: Timestamp, t2: Timestamp)
    requires FrameInvariant(s, LiveConfirmationFrames)
    ensures var o1 := FrameStep(s, LiveConfirmationFrames, Some(v), t1);
      var o2 := FrameStep(o1.next, LiveConfirmationFrames, Some(v), t2);
      && o2.next.confirmedSpeed == Some(v)
      && o2.result.status == FrameConfirmed && o2.result.speedLimit == Some(v)
  {
  }

  /** The frame sequence 40, 40, 40, 60, 40, 60, 60, as this manager sees it. */
  function ReinforcedFrames(): seq<SpeedFrame>
  {
    [SpeedFrame(Some(40), 1), SpeedFrame(Some(40), 2), SpeedFrame(Some(40), 3),
     SpeedFrame(Some(60), 4), SpeedFrame(Some(40), 5),
     SpeedFrame(Some(60), 6), SpeedFrame(Some(60), 7)]
  }

  /** The same sequence, as the pipeline's `StateManager` sees it. */
  function ReinforcedDetections(d40: SpeedLimitDetection, d60: SpeedLimitDetection): seq<StateManagement.Frame>
  {
    [StateManagement.Frame(Some(d40), 1), StateManagement.Frame(Some(d40), 2),
     StateManagement.Frame(Some(d40), 3), StateManagement.Frame(Some(d60), 4),
     StateManagement.Frame(Some(d40), 5), StateManagement.Frame(Some(d60), 6),
     StateManagement.Frame(Some(d60), 7)]
  }

  /** With threshold 3, this manager ends with 60 confirmed: its pending 60 survives the 40 in between. */
  lemma FrameManagerConfirmsAfterReinforcement()
    ensures FrameRun(InitialFrameState, StateManagement.DefaultConfirmationFrames, ReinforcedFrames()).confirmedSpeed == Some(60)
  {
  }

  /** With threshold 3, the pipeline's `StateManager` still has 40 confirmed and is DETECTING 60 twice seen. */
  lemma PipelineKeepsFirstAfterReinforcement(d40: SpeedLimitDetection, d60: SpeedLimitDetection)
    requires d40.speedLimit == 40 && d60.speedLimit == 60
    ensures var m := StateManagement.Run(StateManagement.InitialMachine(0), StateManagement.DefaultConfirmationFrames,
                                         ReinforcedDetections(d40, d60));
      && m.state.status == Detecting && m.state.confirmed.Some? && m.state.confirmed.value.speedLimit == 40
      && m.state.pendingCount == 2
  {
    var k := StateManagement.DefaultConfirmationFrames;
    var m0 := StateManagement.InitialMachine(0);
    var first := [StateManagement.Frame(Some(d40), 1), StateManagement.Frame(Some(d40), 2),
                  StateManagement.Frame(Some(d40), 3)];
    var mid := [StateManagement.Frame(Some(d60), 4), StateManagement.Frame(Some(d40), 5)];
    var last := [StateManagement.Frame(Some(d60), 6), StateManagement.Frame(Some(d60), 7)];
    assert ReinforcedDetections(d40, d60) == first + (mid + last);
    StateManagement.ThresholdSightingsConfirm(m0, k, 40, first);
    StateManagement.RunAppend(m0, k, first, mid + last);
    var m3 := StateManagement.Run(m0, k, first);
    StateManagement.RunAppend(m3, k, mid, last);
    StateManagement.RunPair(m3, k, mid[0], mid[1]);
    StateManagement.RunPair(StateManagement.Run(m3, k, mid), k, last[0], last[1]);
  }

  /**
   * The two confirmation machines part ways: with threshold 3, after 40 is
   * confirmed, the sequence 60, 40, 60, 60 makes this manager confirm 60,
   * because seeing the confirmed 40 leaves its pending 60 untouched, while the
   * pipeline's `StateManager` clears its pending limit on that sighting and is
   * still DETECTING 60 with 40 confirmed.
   */
  lemma MachinesDisagreeAfterReinforcement(d40: SpeedLimitDetection, d60: SpeedLimitDetection)
    requires d40.speedLimit == 40 && d60.speedLimit == 60
    ensures var k := StateManagement.DefaultConfirmationFrames;
      var f := FrameRun(InitialFrameState, k, ReinforcedFrames());
      var m := StateManagement.Run(StateManagement.InitialMachine(0), k, ReinforcedDetections(d40, d60));
      && m.state.confirmed.Some? && f.confirmedSpeed.Some?
      && f.confirmedSpeed.value != m.state.confirmed.value.speedLimit
  {
    FrameManagerConfirmsAfterReinforcement();
    PipelineKeepsFirstAfterReinforcement(d40, d60);
  }

  class FrameStateManager {
    /** `confirmation_frames`. */
    const confirmationFrames: int
    var pendingSpeed: Option<int>
    var pendingCount: int
    var confirmedSpeed: Option<int>
    var confirmedAt: Option<Timestamp>

    ghost function Model(): FrameState
      reads this
    {
      FrameState(pendingSpeed, pendingCount, confirmedSpeed, confirmedAt)
    }

    /** `FrameStateManager(confirmation_frames=3)`. */
    constructor (confirmationFrames: int := 3)
      ensures this.confirmationFrames == confirmationFrames && Model() == InitialFrameState
    {
      this.confirmationFrames := confirmationFrames;
      pendingSpeed := None;
      pendingCount := 0;
      confirmedSpeed := None;
      confirmedAt := None;
    }

    /** `update(detected_speed)`. */
    method Update(detectedSpeed: Option<int>, now: Timestamp) returns (result: FrameResult)
      modifies this
      ensures FrameOutcome(Model(), result) == FrameStep(old(Model()), confirmationFrames, detectedSpeed, now)
    {
      if detectedSpeed.None? {
        pendingSpeed := None;
        pendingCount := 0;
        if confirmedSpeed.Some? {
          return FrameResult(FrameConfirmed, confirmedSpeed, None, confirmedAt);
        } else {
          return FrameResult(FrameNoDetection, None, None, None);
        }
      }
      if confirmedSpeed == detectedSpeed {
        return FrameResult(FrameConfirmed, confirmedSpeed, None, confirmedAt);
      }
      if pendingSpeed == detectedSpeed {
        pendingCount := pendingCount + 1;
        if pendingCount >= confirmationFrames {
          confirmedSpeed := detectedSpeed;
          confirmedAt := Some(now);
          pendingSpeed := None;
          pendingCount := 0;
          return FrameResult(FrameConfirmed, confirmedSpeed, None, confirmedAt);
        } else {
          return FrameResult(FrameDetecting, detectedSpeed, Some(pendingCount), None);
        }
      } else {
        pendingSpeed := detectedSpeed;
        pendingCount := 1;
        return FrameResult(FrameDetecting, detectedSpeed, Some(1), None);
      }
    }

    /** `reset()`. */
    method Reset()
      modifies this
      ensures Model() == InitialFrameState
    {
      pendingSpeed := None;
      pendingCount := 0;
      confirmedSpeed := None;
      confirmedAt := None;
    }
  }
}

# Speed-limit detection core, modelled in Dafny

This project models the core of a Japanese speed-sign detector. The detector
reads the numbers on a sign with OCR and reads an optional time window such as
`7-19` or `07:30-19:00`. It believes a speed limit only after the limit has
been seen on several consecutive frames. It keeps the believed limit in one
shared store and pushes changes to WebSocket clients.

The model covers these parts:

- **Value types** (`state.dfy`, module `State`). This covers the detection
  status, daily time windows (`TimeCondition`) and one frame's detection. It
  also covers the confirmed limit and the current state with its API
  dictionary. For the time window the model covers `is_active` (windows that
  wrap past midnight included), the parser `from_string` and the printer
  `__str__`. The parser follows the backtracking semantics of its regular
  expression.
- **The shared store** (`memory.dfy`, class `Memory.SharedMemory`). The model
  covers re-initialisation on the singleton, copies handed out, stamping on
  update, `reset` and `reset_instance`.
- **The pipeline's confirmation machine** (`state_manager.dfy`). `Step` is
  one `StateManager.update` call: the manager's private pending fields and
  the stored state change together. The class `StateManagement.StateManager`
  is proved to do exactly `Step`. Lemmas over runs of frames give:
  - the invariant the machine keeps;
  - that a confirmed limit is never lost;
  - the threshold behaviour;
  - the sign-change scenarios.
- **The frame WebSocket's own confirmation machine** (`frames.dfy`,
  `FrameStateManager`). It takes plain integer speeds and returns one result
  record per frame. A lemma shows that it and the pipeline's machine disagree
  on one concrete frame sequence.
- **The broadcast loop's decisions** (`broadcast.dfy`). This is the change
  test `_has_significant_change` and the record `_format_state` sends. It
  also covers which state transitions are broadcast.
- **The OCR text parser** (`ocr.dfy`). This is `_parse_speed_limit`:
  1. strip the text;
  2. find the leftmost time range, parse it, and blank out every occurrence
     of its text;
  3. scan the digit runs and pick the valid limit that the most confident
     fragment supports;
  4. otherwise fall back to "4" read as 40.

  `ParsedSpeedLimit` specifies the result. The imperative
  `ParseSpeedLimit`, with the source's loops, `break`s and for-else, is
  proved to compute it.
- **Python built-ins** (`text.dfy`, module `Text`). These are the string,
  `re` and `int` behaviours the code relies on, restricted to ASCII digits:
  `str(n)`, `f"{n:02d}"`, `int(...)`, `strip()`, `in`, `replace` and
  `re.findall(r"\d+")`.

Clocks are parameters. A `Timestamp` counts seconds from a local midnight,
and the time of day at `now` is `ClockOf(now)`. `StateManager` and
`FrameStateManager` are classes with a ghost `Model()`, and their methods are
proved against pure step functions. `SharedMemory` is a class whose methods'
contracts name its fields directly. The time window, the detections, the
confirmed limit and the current state are datatypes, and their updates build
new values.

Where the code and its documentation differ, the model follows the code:

- A frame without a detection never changes the status. `DETECTING` stays
  `DETECTING` even though a limit may be confirmed.
- Seeing the confirmed limit again does not set `CONFIRMED`. So the stored
  state can be `DETECTING` with a confirmed limit and nothing pending
  (`StateManagement.DetectingWithConfirmedLimit`). `CONFIRMED` implies a
  confirmed limit, but the converse does not hold.
- When `FrameStateManager` sees its confirmed speed again, it keeps its
  pending speed and count. The pipeline's `StateManager` clears them
  (`Frames.MachinesDisagreeAfterReinforcement`). `FrameStateManager` also
  does not update any last-seen time, although its comment says it does.
- `from_string` ignores text after the match (`re.match`, not
  `re.fullmatch`). `_parse_speed_limit` blanks out the time range's text
  even when `from_string` rejects it, for example `25-30`.

## Model

| member | source | states |
|---|---|---|
| Text.NatToString | python-container/src/speed_detector/shared/state.py:101 | `str(n)` is a non-empty string of decimal digits |
| Text.DecimalValue | python-container/src/speed_detector/shared/state.py:81-84 | `int()` of a digit string, most significant digit first; its properties are stated by `Text.DecimalOfNatToString`, `Text.DecimalOfPad2` and `State.SliceValueIsDecimal` |
| Text.Pad2 | python-container/src/speed_detector/shared/state.py:102 | `f"{n:02d}"` is at least two decimal digits |
| Text.DecimalOfNatToString | python-container/src/speed_detector/shared/state.py:81-84 | `int(str(n)) == n` for every natural `n` |
| Text.NatToStringLength | python-container/src/speed_detector/shared/state.py:101 | an hour prints as one digit below 10 and as two digits otherwise |
| Text.DecimalOfPad2 | python-container/src/speed_detector/shared/state.py:102 | below 100, `f"{n:02d}"` is exactly two digits and `int` of it is `n` |
| Text.SkipSpaceSkipsSpace | python-container/src/speed_detector/pipeline/ocr.py:131 | the leading-whitespace scan passes only whitespace and stops at the first non-whitespace character |
| Text.SkipSpaceBackSkipsSpace | python-container/src/speed_detector/pipeline/ocr.py:131 | the trailing-whitespace scan passes only whitespace and stops after the last non-whitespace character |
| Text.Strip | python-container/src/speed_detector/pipeline/ocr.py:131 | `strip()` is never longer than its input; what it drops and keeps is stated by `Text.StripDropsOuterSpace` |
| Text.StripDropsOuterSpace | python-container/src/speed_detector/pipeline/ocr.py:131 | `strip()` is the slice between the leading and the trailing whitespace: everything dropped is whitespace, and the kept part neither starts nor ends with whitespace |
| Text.StripKeepsNoDigit | python-container/src/speed_detector/pipeline/ocr.py:131 | stripping a text without digits leaves no digit |
| Text.DigitIsNotSpace | python-container/src/speed_detector/shared/state.py:76 | a digit is never removed by `strip()` |
| Text.StripNoop | python-container/src/speed_detector/shared/state.py:76 | a string with no whitespace at either end is its own `strip()` |
| Text.Contains | python-container/src/speed_detector/pipeline/ocr.py:162 | `needle in s`: the needle starts at some position of `s`; see `Text.ContainsIsLonger` |
| Text.ContainsIsLonger | python-container/src/speed_detector/pipeline/ocr.py:162 | `needle in s` implies the needle is no longer than `s` |
| Text.ReplacePrefixKept | python-container/src/speed_detector/pipeline/ocr.py:142 | a space-free prefix of `s.replace(pat, " ")` was copied unchanged from `s` |
| Text.ReplaceAll | python-container/src/speed_detector/pipeline/ocr.py:142 | `s.replace(pat, rep)`, left to right without overlaps; see `Text.ReplacePrefixKept` and `Text.ReplaceAllRemoves` |
| Text.ReplaceAllRemoves | python-container/src/speed_detector/pipeline/ocr.py:142 | after replacing a space-free pattern by `" "`, the pattern no longer occurs |
| Text.LeadingDigits | python-container/src/speed_detector/pipeline/ocr.py:145 | the leading run of digits is all digits and is maximal |
| Text.DigitRuns | python-container/src/speed_detector/pipeline/ocr.py:145 | `re.findall(r"\d+")` yields non-empty digit strings, and yields none exactly when the text has no digit; its runs are the maximal ones, in order (`Text.DigitRunsSplit`, `Text.DigitRunsOfDigits`) |
| Text.LeadingDigitsUnique | python-container/src/speed_detector/pipeline/ocr.py:145 | a run of n digits followed by a non-digit or the end is exactly the leading run |
| Text.DigitRunsOfDigits | python-container/src/speed_detector/pipeline/ocr.py:145 | a non-empty all-digit text is one run, the whole text |
| Text.DigitRunsSplit | python-container/src/speed_detector/pipeline/ocr.py:145 | a non-digit splits the runs: the runs of `s + c + t` are the runs of `s` followed by the runs of `t`, so runs are maximal and in order |
| Text.DigitRunsJoin | python-container/src/speed_detector/pipeline/ocr.py:145 | the runs of `s + r`, where `r` starts with a non-digit, are the runs of `s` followed by the runs of the rest of `r` |
| Text.LeadingDigitsOfJoin | python-container/src/speed_detector/pipeline/ocr.py:145 | text appended after a non-digit boundary does not change the leading run |
| State.NotAfterBySeconds | python-container/src/speed_detector/shared/state.py:57-62 | comparing two `time` values is comparing their seconds since midnight |
| State.ClockOf | python-container/src/speed_detector/shared/state.py:52 | the time of day at `now` is `now` modulo one day, in seconds |
| State.DetectionStatus.Value | python-container/src/speed_detector/shared/state.py:32-37 | each status has its own string value, and that value maps back to the status |
| State.TimeCondition.IsActive | python-container/src/speed_detector/shared/state.py:49-62 | `is_active`: inside [start, end], or outside (end, start) when the window wraps past midnight; stated in seconds by `State.IsActiveInSeconds` and `State.IsActiveByElapsed` |
| State.TimeCondition.ToString | python-container/src/speed_detector/shared/state.py:99-102 | `str(tc)`: `H-H` on the hour, `HH:MM-HH:MM` otherwise; `State.FromStringOfToString` proves `from_string` inverts it |
| State.IsActiveInSeconds | python-container/src/speed_detector/shared/state.py:49-62 | a window that does not wrap holds exactly on [start, end]; a wrapping window holds from start to midnight and from midnight to end |
| State.IsActiveByElapsed | python-container/src/speed_detector/shared/state.py:49-62 | both window shapes follow one rule: the window holds when the time since it opened, taken round the clock, is at most its length |
| State.ActiveAtBothEnds | python-container/src/speed_detector/shared/state.py:57-62 | the window holds at its start and at its end (both ends inclusive) |
| State.HourDigitsAt | python-container/src/speed_detector/shared/state.py:75 | `\d{1,2}` takes 0, 1 or 2 digits greedily; it takes 0 exactly when no digit is there |
| State.SliceValueIsDecimal | python-container/src/speed_detector/shared/state.py:81-84 | the number read from a digit run is `int()` of that run |
| State.MatchRangeAt | python-container/src/speed_detector/shared/state.py:75-76 | a match of the time-range pattern covers at least three characters, all inside the text |
| State.MatchOfShape | python-container/src/speed_detector/shared/state.py:75 | given hour digits, optional `:MM`, a dash, hour digits and optional `:MM`, the pattern matches exactly them, and the groups are their numbers |
| State.MatchIffShape | python-container/src/speed_detector/shared/state.py:75-79 | the pattern matches at a position exactly when the text there has the shape hour digits, optional `:MM`, dash, hour digits, optional `:MM` |
| State.ConditionOf | python-container/src/speed_detector/shared/state.py:81-97 | a match gives a condition exactly when both hours are at most 23 and both minutes at most 59; the hours are the groups and a missing minute is 0 |
| State.FromString | python-container/src/speed_detector/shared/state.py:64-97 | `from_string` gives nothing when the pattern does not match at the start of the stripped text; otherwise it gives a condition exactly when the groups are in range, with the groups as fields and missing minutes 0 |
| State.FromStringStripsAndDefaults | python-container/src/speed_detector/shared/state.py:76-97 | `" 7-19 "` parses to 7:00-19:00 |
| State.FromStringIgnoresTrailingText | python-container/src/speed_detector/shared/state.py:75-97 | `"07:30-19:00 x"` parses to 07:30-19:00: text after the match is ignored |
| State.FromStringNeedsRangeAtStart | python-container/src/speed_detector/shared/state.py:75-79 | `"x7-19"` does not parse: the match must start the text |
| State.FromStringRejectsHour | python-container/src/speed_detector/shared/state.py:86-90 | `"25-30"` does not parse: hour out of range |
| State.FromStringRejectsMinute | python-container/src/speed_detector/shared/state.py:86-90 | `"7:60-19"` does not parse: minute out of range |
| State.MatchOfHoursOnly | python-container/src/speed_detector/shared/state.py:75 | on `H-H` the pattern matches the whole text, with both hours and no minutes |
| State.MatchOfFullForm | python-container/src/speed_detector/shared/state.py:75 | on `HH:MM-HH:MM` the pattern matches the whole text, with all four groups |
| State.FullFormLayout | python-container/src/speed_detector/shared/state.py:102 | the printed `HH:MM-HH:MM` has its separators at 2, 5 and 8 and its fields between them |
| State.FullFormParses | python-container/src/speed_detector/shared/state.py:65-97 | an `HH:MM-HH:MM` text whose fields read as a valid condition parses to that condition |
| State.RoundTripOnTheHour | python-container/src/speed_detector/shared/state.py:99-101 | `from_string(str(tc)) == tc` for windows on the hour |
| State.RoundTripWithMinutes | python-container/src/speed_detector/shared/state.py:102 | `from_string(str(tc)) == tc` for windows with minutes |
| State.FromStringOfToString | python-container/src/speed_detector/shared/state.py:64-102 | printing any valid time condition and parsing it back gives the same condition |
| State.ConfirmedSpeedLimit.UpdateLastSeen | python-container/src/speed_detector/shared/state.py:160-163 | `update_last_seen` sets the last-seen time to now, adds one to the count, and changes nothing else |
| State.CurrentState.GetEffectiveSpeedLimit | python-container/src/speed_detector/shared/state.py:176-186 | there is an effective limit exactly when a limit is confirmed and its window holds (or it has none), and it is the confirmed value |
| State.CurrentState.ToDict | python-container/src/speed_detector/shared/state.py:188-208 | status and update time are always present; limit, effective limit and both times are present exactly when a limit is confirmed; the window is present exactly when the confirmed limit has one; no other keys |
| State.DefaultState | python-container/src/speed_detector/shared/state.py:166-174 | a new state has no detection, nothing confirmed or pending, and count 0 |
| State.DefaultStateReportsNothing | python-container/src/speed_detector/shared/state.py:176-208 | a new state has no effective limit, and its dictionary holds only `status` (`"no_detection"`) and `last_updated` |
| State.EffectiveFollowsWindow | python-container/src/speed_detector/shared/state.py:176-186 | a confirmed limit with a window is effective exactly while the window holds |
| State.ConditionHolds | python-container/src/speed_detector/shared/state.py:137-141 | a limit without a window always applies; one with a window applies while the window holds at the time of day of `now` |
| State.SpeedLimitDetection.IsCurrentlyActive | python-container/src/speed_detector/shared/state.py:137-141 | `is_currently_active` of a detection: its window holds now, or it has none |
| State.ConfirmedSpeedLimit.IsCurrentlyActive | python-container/src/speed_detector/shared/state.py:154-158 | `is_currently_active` of a confirmed limit: its window holds now, or it has none; `State.EffectiveFollowsWindow` states its effect on the effective limit |
| Memory.SharedMemory.constructor | old/python-container/src/speed_detector/shared/memory.py:56-71 | the first instance holds a fresh default state and is initialised |
| Memory.SharedMemory.Reinitialize | old/python-container/src/speed_detector/shared/memory.py:65-71 | `__init__` on the existing instance keeps the state, unless `reset_instance` cleared the flag |
| Memory.SharedMemory.GetState | old/python-container/src/speed_detector/shared/memory.py:73-81 | the copy handed out equals the stored state |
| Memory.SharedMemory.UpdateState | old/python-container/src/speed_detector/shared/memory.py:83-91 | the given state is stamped with now and becomes the stored state |
| Memory.SharedMemory.GetStatus | old/python-container/src/speed_detector/shared/memory.py:93-96 | returns the stored status |
| Memory.SharedMemory.GetSpeedLimit | old/python-container/src/speed_detector/shared/memory.py:98-105 | returns the stored state's effective limit, which is the confirmed value when present |
| Memory.SharedMemory.GetStateDict | old/python-container/src/speed_detector/shared/memory.py:107-114 | returns the stored state's dictionary |
| Memory.SharedMemory.Reset | old/python-container/src/speed_detector/shared/memory.py:116-119 | the stored state becomes a fresh default one |
| Memory.SharedMemory.ResetInstance | old/python-container/src/speed_detector/shared/memory.py:121-128 | a fresh default state, and the next `SharedMemory()` initialises again |
| Memory.UpdateThenRead | old/python-container/src/speed_detector/shared/memory.py:73-105 | storing a state and reading it back gives that state with only its update time replaced; status and effective limit read back unchanged |
| Memory.ResetInstanceThenReinitialize | old/python-container/src/speed_detector/shared/memory.py:56-71 | after `reset_instance()` and a new `SharedMemory()` the state is a fresh default one |
| StateManagement.InitialIsCoherent | old/python-container/src/speed_detector/pipeline/state_manager.py:81-96 | a new manager over a fresh store satisfies the machine invariant |
| StateManagement.NoDetectionStep | old/python-container/src/speed_detector/pipeline/state_manager.py:116-133 | the no-detection update: pending fields cleared, confirmed limit and status kept; see `StateManagement.EmptyFramesKeepConfirmed` |
| StateManagement.DetectionStep | old/python-container/src/speed_detector/pipeline/state_manager.py:135-211 | the detection update with its three branches in order; see `StateManagement.SightingReinforces`, `StateManagement.SightingsAccumulate`, `StateManagement.ThresholdSightingsConfirm` and `StateManagement.NewLimitRestartsCount` |
| StateManagement.Step | old/python-container/src/speed_detector/pipeline/state_manager.py:98-114 | `update`: no detection or a detection; its invariant is `StateManagement.StepKeepsCoherent` |
| StateManagement.Run | old/python-container/src/speed_detector/pipeline/state_manager.py:98-114 | `update` once per frame, in order; see `StateManagement.RunAppend` and `StateManagement.RunKeepsCoherent` |
| StateManagement.Coherent | old/python-container/src/speed_detector/pipeline/state_manager.py:66-96 | the invariant between calls, kept by every update (`StateManagement.StepKeepsCoherent`) |
| StateManagement.StepKeepsCoherent | old/python-container/src/speed_detector/pipeline/state_manager.py:98-211 | every update preserves the invariant: pending fields and stored pending detection agree, count below threshold, CONFIRMED only with a confirmed limit and nothing pending, the pending limit never the confirmed one |
| StateManagement.RunKeepsCoherent | old/python-container/src/speed_detector/pipeline/state_manager.py:98-114 | any run of frames preserves the invariant |
| StateManagement.RunAppend | old/python-container/src/speed_detector/pipeline/state_manager.py:98-114 | processing frames in two batches equals processing them in one |
| StateManagement.ConfirmedChangesOnlyByPromotionOrSighting | old/python-container/src/speed_detector/pipeline/state_manager.py:135-211 | an update never clears a confirmed limit; it changes it only by seeing it again (last seen and count updated) or by promoting the pending limit on reaching the threshold, with status CONFIRMED |
| StateManagement.RunKeepsAConfirmedLimit | old/python-container/src/speed_detector/pipeline/state_manager.py:116-133 | no run of frames clears a confirmed limit |
| StateManagement.FirstSighting | old/python-container/src/speed_detector/pipeline/state_manager.py:196-211 | the first sighting on a fresh manager gives DETECTING at count 1, with the detection pending and nothing confirmed |
| StateManagement.RunSingle | old/python-container/src/speed_detector/pipeline/state_manager.py:98-114 | one frame is one update |
| StateManagement.RunPair | old/python-container/src/speed_detector/pipeline/state_manager.py:98-114 | two frames are two updates in order |
| StateManagement.NewLimitRestartsCount | old/python-container/src/speed_detector/pipeline/state_manager.py:196-211 | a limit that is neither confirmed nor pending becomes pending at count 1 with DETECTING; the confirmed limit is kept |
| StateManagement.SightingReinforces | old/python-container/src/speed_detector/pipeline/state_manager.py:148-159 | seeing the confirmed limit again updates its last-seen time and count and keeps its value, window and confirmation time; it clears anything pending and leaves the status alone |
| StateManagement.EmptyFramesKeepConfirmed | old/python-container/src/speed_detector/pipeline/state_manager.py:116-133 | frames without a detection clear the pending fields and keep the confirmed limit and status |
| StateManagement.SightingsAccumulate | old/python-container/src/speed_detector/pipeline/state_manager.py:161-195 | below the threshold, further sightings of the pending limit only raise the count, with status DETECTING |
| StateManagement.OneShortOfThreshold | old/python-container/src/speed_detector/pipeline/state_manager.py:161-211 | k-1 sightings of a new limit leave it DETECTING at count k-1, with the old confirmed limit kept |
| StateManagement.ThresholdSightingsConfirm | old/python-container/src/speed_detector/pipeline/state_manager.py:161-211 | k sightings of a new limit confirm it: CONFIRMED, with k sightings, the last window, confirmed at the last frame, nothing pending |
| StateManagement.DetectingWithConfirmedLimit | old/python-container/src/speed_detector/pipeline/state_manager.py:148-211 | after a confirmed 40, then 60, then 40 again, the stored state is DETECTING with 40 confirmed and nothing pending |
| StateManagement.SignChangeScenario | old/python-container/src/speed_detector/pipeline/state_manager.py:35-39 | the documented sequence: 40 confirmed after three frames, kept through an empty frame; 60 DETECTING at 1/3 with 40 kept; 60 confirmed after its third sighting |
| StateManagement.ResetReportsNothing | old/python-container/src/speed_detector/pipeline/state_manager.py:221-226 | after `reset`, nothing is confirmed or pending, the status is NO_DETECTION, and there is no effective limit |
| StateManagement.CreateDetection | old/python-container/src/speed_detector/pipeline/state_manager.py:229-255 | a detection with the given fields, stamped now, with the dummy box when none is given |
| StateManagement.StateManager.constructor | old/python-container/src/speed_detector/pipeline/state_manager.py:81-96 | the manager starts with no pending limit, window or count, over the given store |
| StateManagement.StateManager.Update | old/python-container/src/speed_detector/pipeline/state_manager.py:98-114 | pending fields and store change exactly as one `Step`; the stored state is returned |
| StateManagement.StateManager.HandleNoDetection | old/python-container/src/speed_detector/pipeline/state_manager.py:116-133 | exactly the no-detection step |
| StateManagement.StateManager.HandleDetection | old/python-container/src/speed_detector/pipeline/state_manager.py:135-211 | exactly the detection step, with its three branches in the source's order |
| StateManagement.StateManager.GetCurrentState | old/python-container/src/speed_detector/pipeline/state_manager.py:213-215 | returns the stored state |
| StateManagement.StateManager.GetEffectiveSpeedLimit | old/python-container/src/speed_detector/pipeline/state_manager.py:217-219 | returns the stored state's effective limit |
| StateManagement.StateManager.Reset | old/python-container/src/speed_detector/pipeline/state_manager.py:221-226 | the manager and its store are as a fresh manager's |
| Frames.FrameStatus.Value | python-container/src/speed_detector/api/routes/frames.py:169-231 | each result status has its own string, which maps back to it |
| Frames.FrameStep | python-container/src/speed_detector/api/routes/frames.py:164-231 | "confirmed" reports the confirmed speed and time. "no_detection" comes exactly when nothing is seen and nothing is confirmed. "detecting" reports the speed seen and the new pending count, and only it carries a count. Nothing seen clears the pending fields. The confirmed speed seen again changes nothing. The pending speed seen again raises the count by one and, on reaching the threshold, becomes confirmed now with nothing pending. Any other speed becomes pending at count 1 |
| Frames.FrameRun | python-container/src/speed_detector/api/routes/frames.py:164-231 | `update` once per frame, in order; see the run lemmas below |
| Frames.FrameInvariant | python-container/src/speed_detector/api/routes/frames.py:157-231 | the invariant between calls, kept by every update (`Frames.FrameStepKeepsInvariant`) |
| Frames.FrameStepKeepsInvariant | python-container/src/speed_detector/api/routes/frames.py:164-231 | each update keeps: pending exactly when the count is positive, count below the threshold, a confirmation time exactly with a confirmed speed, the pending speed never the confirmed one |
| Frames.FrameRunKeepsInvariant | python-container/src/speed_detector/api/routes/frames.py:164-231 | any run keeps the invariant; with threshold k ≥ 2 the count stays within 0..k-1 |
| Frames.ConfirmedChangesOnlyAtThreshold | python-container/src/speed_detector/api/routes/frames.py:197-212 | the confirmed speed is never cleared; it changes only when the pending speed reaches the threshold, and then becomes that speed, confirmed now |
| Frames.FrameRunKeepsConfirmed | python-container/src/speed_detector/api/routes/frames.py:169-186 | no run of frames clears a confirmed speed |
| Frames.FrameSightingsAccumulate | python-container/src/speed_detector/api/routes/frames.py:197-221 | below the threshold, further sightings of the pending speed only raise the count by one each |
| Frames.FrameSightingsConfirm | python-container/src/speed_detector/api/routes/frames.py:197-213 | sightings of the pending speed that reach the threshold confirm it at the last frame and clear the pending fields |
| Frames.FrameOneShortOfThreshold | python-container/src/speed_detector/api/routes/frames.py:197-231 | k-1 sightings of a new speed leave it pending at count k-1 |
| Frames.FrameThresholdSightingsConfirm | python-container/src/speed_detector/api/routes/frames.py:197-231 | k sightings of a new speed confirm it at the k-th frame with nothing pending |
| Frames.TwoSightingsConfirmLive | python-container/src/speed_detector/api/routes/frames.py:260 | with the live threshold 2, two sightings confirm a speed, and the second result says "confirmed" |
| Frames.FrameManagerConfirmsAfterReinforcement | python-container/src/speed_detector/api/routes/frames.py:188-231 | 40, 40, 40, 60, 40, 60, 60 with threshold 3 ends with 60 confirmed |
| Frames.PipelineKeepsFirstAfterReinforcement | old/python-container/src/speed_detector/pipeline/state_manager.py:148-211 | the same frames in the pipeline's manager end DETECTING with 40 confirmed and count 2 |
| Frames.MachinesDisagreeAfterReinforcement | python-container/src/speed_detector/api/routes/frames.py:188-194 | on that sequence the two managers confirm different speeds |
| Frames.FrameStateManager.constructor | python-container/src/speed_detector/api/routes/frames.py:157-162 | starts with nothing pending or confirmed |
| Frames.FrameStateManager.Update | python-container/src/speed_detector/api/routes/frames.py:164-231 | the new fields and the returned record are exactly `FrameStep`'s |
| Frames.FrameStateManager.Reset | python-container/src/speed_detector/api/routes/frames.py:233-238 | back to the initial fields |
| Broadcast.SignificantIffSomeKeyDiffers | python-container/src/speed_detector/api/routes/websocket.py:136-151 | a change is significant exactly when one of the five keys reads differently, with missing keys reading as null |
| Broadcast.SignificantlyDiffers | python-container/src/speed_detector/api/routes/websocket.py:136-151 | the change test: nothing sent before, or one of the five keys reads differently |
| Broadcast.HasSignificantChange | python-container/src/speed_detector/api/routes/websocket.py:136-151 | the early-return loop computes exactly the significant-change predicate, and is true when nothing was sent before |
| Broadcast.NoChangeFromItself | python-container/src/speed_detector/api/routes/websocket.py:136-151 | a state is never a significant change from itself |
| Broadcast.TimestampsAreIgnored | python-container/src/speed_detector/api/routes/websocket.py:145 | new `last_updated` and `last_seen_at` values alone are not a significant change |
| Broadcast.MissingKeyIsNull | python-container/src/speed_detector/api/routes/websocket.py:148 | a missing key and an explicit null compare equal |
| Broadcast.FormatState | python-container/src/speed_detector/api/routes/websocket.py:115-133 | the record has exactly the seven keys: status and update time copied, optional fields copied or null, the window reduced to its range and activity or null |
| Broadcast.FormattedState | python-container/src/speed_detector/api/routes/websocket.py:115-133 | for a stored state, clients receive the confirmed limit, its effective value, its window and both times when one is confirmed, and nulls otherwise |
| Broadcast.EmptyFrameIsQuiet | python-container/src/speed_detector/api/routes/websocket.py:94-98 | read at the same instant, a frame without a detection is not broadcast |
| Broadcast.ReinforcementIsQuiet | python-container/src/speed_detector/api/routes/websocket.py:94-98 | read at the same instant, seeing the confirmed limit again is not broadcast |
| Broadcast.NewConfirmedLimitIsSignificant | python-container/src/speed_detector/api/routes/websocket.py:94-98 | a newly confirmed limit that differs from the old one is always broadcast |
| Ocr.SearchRange | python-container/src/speed_detector/pipeline/ocr.py:134-135 | `re.search` finds the leftmost position where the time-range pattern matches, and finds nothing only when it matches nowhere |
| Ocr.MatchedRangeChars | python-container/src/speed_detector/pipeline/ocr.py:134-139 | the matched text is digits, colons and a dash, and begins and ends with a digit |
| Ocr.MatchedRangeAlone | python-container/src/speed_detector/pipeline/ocr.py:139-140 | the pattern applied to the matched text alone finds the same groups |
| Ocr.ConditionOfMatchedText | python-container/src/speed_detector/pipeline/ocr.py:139-140 | `from_string` of the matched text gives the condition of the match's own groups |
| Ocr.NoSpaceInMatchedText | python-container/src/speed_detector/pipeline/ocr.py:139-142 | the matched text holds no space |
| Ocr.SplitTime | python-container/src/speed_detector/pipeline/ocr.py:133-142 | a range is taken exactly when the pattern occurs; without one the text and the condition are untouched; with one, every occurrence of its text is replaced by a space |
| Ocr.TimeRangeRemoved | python-container/src/speed_detector/pipeline/ocr.py:133-142 | the condition is the one the matched groups give (none when out of range), and no occurrence of the range's text is left for the number scan |
| Ocr.FirstFragmentWith | python-container/src/speed_detector/pipeline/ocr.py:161-166 | the inner loop's `break` stops at the first fragment containing the number; none means no fragment contains it |
| Ocr.PickStep | python-container/src/speed_detector/pipeline/ocr.py:154-174 | a number changes the pick only if it is a valid limit. It then becomes the pick, credited with its first fragment's confidence, which must beat the best so far, or with 0.5 when no fragment has it and nothing was picked |
| Ocr.PickAll | python-container/src/speed_detector/pipeline/ocr.py:150-174 | the number loop as a fold of `Ocr.PickStep`; its outcome is stated by `Ocr.PickAllChoosesMostConfident` |
| Ocr.PickAllChoosesMostConfident | python-container/src/speed_detector/pipeline/ocr.py:150-174 | the number loop picks a valid number. No valid number found in a fragment has higher confidence. A valid number found in no fragment always leads to a pick. Without a pick the confidence stays 0.0 |
| Ocr.InferFrom | python-container/src/speed_detector/pipeline/ocr.py:176-189 | the fallback only ever yields a valid limit |
| Ocr.InferFromFindsFirst | python-container/src/speed_detector/pipeline/ocr.py:176-189 | the fallback succeeds exactly when some single digit's tenfold is valid, and yields ten times the first such digit |
| Ocr.ParseCleaned | python-container/src/speed_detector/pipeline/ocr.py:133-199 | a result carries a valid limit and a non-negative confidence; its condition is the split-off range's and its raw text the text after removal |
| Ocr.ParsedSpeedLimit | python-container/src/speed_detector/pipeline/ocr.py:118-199 | `_parse_speed_limit` returns only valid limits with non-negative confidence |
| Ocr.PickNumbers | python-container/src/speed_detector/pipeline/ocr.py:150-174 | the number loop with its inner search, `break` and for-else computes the pick that `PickAll` specifies |
| Ocr.InferSpeed | python-container/src/speed_detector/pipeline/ocr.py:176-189 | the fallback loop with its `break` computes `InferFrom` |
| Ocr.TakeTimeRange | python-container/src/speed_detector/pipeline/ocr.py:133-142 | the time-range step computes `SplitTime`'s condition and remaining text |
| Ocr.ParseSpeedLimit | python-container/src/speed_detector/pipeline/ocr.py:118-199 | the imperative parser returns exactly `ParsedSpeedLimit` |
| Ocr.NoDigitNoParse | python-container/src/speed_detector/pipeline/ocr.py:144-148 | cleaned text without a digit gives no result |
| Ocr.NoDigitNoResult | python-container/src/speed_detector/pipeline/ocr.py:118-148 | text without a digit gives no result |
| Ocr.ResultSpeedPart | python-container/src/speed_detector/pipeline/ocr.py:150-199 | a result is either the most confident valid number, credited with its fragment's confidence or 0.5, or, when none was picked, ten times the first inferable digit at 0.3 |

## Left out

- Locks, the singleton's `__new__` race and thread interleavings are not modelled. The store is one sequential object that is handed to its users.
- Aliasing is not modelled. `get_state` returns a shallow copy, so the caller and the store share the confirmed-limit object. `update_state` mutates the caller's object. The model treats states as values and returns the stamped state instead.
- `datetime.now()` is one injected `now` per call. `isoformat()` strings are `JTime` values, not text.
- Digits are ASCII only. Python's `\d`, `int()` and `isdigit` also accept other Unicode decimal digits.
- Confidences are `real`s, not floating point.
- Bounding boxes are carried along but never computed with. `BoundingBox.width`, `height` and `center` are not modelled.
- OpenCV preprocessing, EasyOCR and `SpeedOCR.read`/`read_with_preprocessing` are not modelled. In `frames.py`, `read_speed_from_sign`, `detect_circular_red_signs` and the WebSocket endpoint's I/O are not modelled either. These are foreign image and network code. The OCR fragments are a parameter of the parser.
- The broadcast loop's sleeping, sending and connection management are not modelled. Only its send decision and its record are.
- `simple.py`, the detector, the grabber, the process wiring, `main.py` and `config.py` are not part of this model. Only the default confirmation threshold (3) and the live one (2) are taken over.
- State.TimeCondition: hours outside 0..23 and minutes outside 0..59 are excluded by the field types. The dataclass would accept them, but `is_active` would raise on them.
- State.SliceValue reads a non-digit as 0. It is only ever applied to runs of digits, where it equals `int()` (`State.SliceValueIsDecimal`).
- Ocr.ParsedSpeedLimit: its own contract states only validity. The full shape of the result is stated by `Ocr.ParseCleaned`, `Ocr.ResultSpeedPart` and `Ocr.TimeRangeRemoved`.
- State.ConfirmedSpeedLimit.UpdateLastSeen: modelled by value, not in place. The source mutates the confirmed-limit object, which the store's state shares; the model returns an updated copy.
- StateManagement.StateManager.HandleDetection and StateManagement.StateManager.HandleNoDetection: the source mutates the `CurrentState` copy field by field before storing it (`state_manager.py` lines 128-129, 152-156, 171-180 and 193-204). The model builds the new state as a value and stores it, so the intermediate states are not modelled.

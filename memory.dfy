/**
 * The store that holds the one authoritative `CurrentState`
 * (old/python-container/src/speed_detector/shared/memory.py), written by the
 * state manager and read by the API. It is modelled as one sequential object
 * handed to its users; states are values, so every state handed out is
 * already a copy.
 */
module Memory {
  import opened Wrappers
  import opened State

  class SharedMemory {
    /** The stored state (`_state`). */
    var state: CurrentState
    /** Whether `__init__` has run since the instance was made or last reset (`_initialized`). */
    var initialized: bool

    /** The first `SharedMemory()`: a fresh default state. */
    constructor (now: Timestamp)
      ensures state == DefaultState(now) && initialized
    {
      state := DefaultState(now);
      initialized := true;
    }

    /**
     * `SharedMemory()` on the existing instance: `__init__` runs again, and
     * replaces the state only when `reset_instance` has cleared the flag.
     */
    method Reinitialize(now: Timestamp)
      modifies this
      ensures initialized
      ensures state == if old(initialized) then old(state) else DefaultState(now)
    {
      if !initialized {
        state := DefaultState(now);
        initialized := true;
      }
    }

    /** `get_state()`: a copy of the stored state, every field equal. */
    method GetState() returns (s: CurrentState)
      ensures s == state
    {
      s := state.(lastUpdated := state.lastUpdated);
    }

    /**
     * `update_state(s)`: stamps `s` with the current time, in place, and
     * stores it. The stamped state is returned, standing for the caller's
     * object after the call.
     */
    method UpdateState(s: CurrentState, now: Timestamp) returns (stamped: CurrentState)
      modifies this
      ensures stamped == s.(lastUpdated := now)
      ensures state == stamped && initialized == old(initialized)
    {
      stamped := s.(lastUpdated := now);
      state := stamped;
    }

    /** `get_status()`. */
    method GetStatus() returns (status: DetectionStatus)
      ensures status == state.status
    {
      status := state.status;
    }

    /** `get_speed_limit()`: the stored state's effective limit at `now`. */
    method GetSpeedLimit(now: Timestamp) returns (limit: Option<int>)
      ensures limit == state.GetEffectiveSpeedLimit(now)
      ensures limit.Some? ==> state.confirmed.Some? && limit.value == state.confirmed.value.speedLimit
    {
      limit := state.GetEffectiveSpeedLimit(now);
    }

    /** `get_state_dict()`: the stored state's dictionary at `now`. */
    method GetStateDict(now: Timestamp) returns (d: Dict)
      ensures d == state.ToDict(now)
      ensures d["status"] == JStr(state.status.Value())
    {
      d := state.ToDict(now);
    }

    /** `reset()`: back to a fresh default state. */
    method Reset(now: Timestamp)
      modifies this
      ensures state == DefaultState(now) && initialized == old(initialized)
    {
      state := DefaultState(now);
    }

    /**
     * `reset_instance()`: a fresh default state, and the flag cleared so that
     * the next `SharedMemory()` initialises again.
     */
    method ResetInstance(now: Timestamp)
      modifies this
      ensures state == DefaultState(now) && !initialized
    {
      initialized := false;
      state := DefaultState(now);
    }
  }

  /**
   * Storing a state and reading it back gives that state with only its
   * update time replaced; the status and the effective limit read back are
   * the stored state's own.
   */
  method UpdateThenRead(m: SharedMemory, s: CurrentState, now: Timestamp, clock: Timestamp)
    returns (read: CurrentState, status: DetectionStatus, limit: Option<int>)
    modifies m
    ensures read == s.(lastUpdated := now)
    ensures status == s.status && limit == s.GetEffectiveSpeedLimit(clock)
  {
    var _ := m.UpdateState(s, now);
    read := m.GetState();
    status := m.GetStatus();
    limit := m.GetSpeedLimit(clock);
  }

  /** After `reset_instance()` and a new `SharedMemory()`, the state is a fresh default one. */
  method ResetInstanceThenReinitialize(m: SharedMemory, now: Timestamp, later: Timestamp)
    returns (read: CurrentState)
    modifies m
    ensures read == DefaultState(later) && m.initialized
  {
    m.ResetInstance(now);
    m.Reinitialize(later);
    read := m.GetState();
  }
}

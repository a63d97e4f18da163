/**
 * BaseSshServerStatus: the SSH server's current state, the state before
 * it, and when the last change happened (the clock is a parameter).
 */
module SshStatus {
  import opened Lang

  datatype State = Init | Configured | Started | Stopped | Fault | ConfigurationError

  class BaseSshServerStatus {
    var state: Option<State>
    var lastState: Option<State>
    var lastStateChangeAt: Option<int>

    /** A fresh status records nothing yet. */
    constructor ()
      ensures state.None? && lastState.None? && lastStateChangeAt.None?
    {
      state := None;
      lastState := None;
      lastStateChangeAt := None;
    }

    function GetState(): (s: Option<State>)
      reads this
      ensures s == state
    {
      state
    }

    function GetLastState(): (s: Option<State>)
      reads this
      ensures s == lastState
    {
      lastState
    }

    /** setState: the old state becomes the last state, stamped with now. */
    method SetState(newState: Option<State>, now: int)
      modifies this
      ensures state == newState && lastState == old(state) && lastStateChangeAt == Some(now)
    {
      lastState := state;
      lastStateChangeAt := Some(now);
      state := newState;
    }
  }

  /** Two changes in a row: the first becomes the last state, the second the state. */
  method TwoChanges(a: State, b: State, t1: int, t2: int) returns (s: BaseSshServerStatus)
    ensures s.GetState() == Some(b) && s.GetLastState() == Some(a)
  {
    s := new BaseSshServerStatus();
    s.SetState(Some(a), t1);
    s.SetState(Some(b), t2);
  }
}

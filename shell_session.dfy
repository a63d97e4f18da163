/**
 * ShellSession's thread priority: a requested priority is clamped into
 * [minThreadPriority, maxThreadPriority] before it reaches the session's
 * watchdog thread.
 */
module Shell {

  const MIN_PRIORITY: int := 1
  const MAX_PRIORITY: int := 10

  /** setThreadPriority's choice: the max above it, the min below it, else p. */
  function Clamp(p: int, min: int, max: int): (r: int)
    ensures p > max ==> r == max
    ensures p <= max && p < min ==> r == min
    ensures min <= p <= max ==> r == p
    ensures min <= max ==> min <= r <= max
  {
    if p > max then max else if p < min then min else p
  }

  /** Clamping twice changes nothing more. */
  lemma ClampIdempotent(p: int, min: int, max: int)
    requires min <= max
    ensures Clamp(Clamp(p, min, max), min, max) == Clamp(p, min, max)
  {
  }

  class ShellSession {
    var minThreadPriority: int
    var maxThreadPriority: int
    /** The watchdog thread's priority (Thread.setPriority's own checks are not modelled). */
    var watchdogPriority: int

    /** Defaults Thread.MIN_PRIORITY + 1 and Thread.MAX_PRIORITY - 2; the watchdog starts at the creating thread's priority. */
    constructor (initialPriority: int)
      ensures minThreadPriority == 2 && maxThreadPriority == 8 && watchdogPriority == initialPriority
    {
      minThreadPriority := MIN_PRIORITY + 1;
      maxThreadPriority := MAX_PRIORITY - 2;
      watchdogPriority := initialPriority;
    }

    method SetMinThreadPriority(p: int)
      modifies this
      ensures minThreadPriority == p && maxThreadPriority == old(maxThreadPriority) && watchdogPriority == old(watchdogPriority)
    {
      minThreadPriority := p;
    }

    method SetMaxThreadPriority(p: int)
      modifies this
      ensures maxThreadPriority == p && minThreadPriority == old(minThreadPriority) && watchdogPriority == old(watchdogPriority)
    {
      maxThreadPriority := p;
    }

    method SetThreadPriority(priority: int)
      modifies this
      ensures watchdogPriority == Clamp(priority, minThreadPriority, maxThreadPriority)
      ensures minThreadPriority == old(minThreadPriority) && maxThreadPriority == old(maxThreadPriority)
    {
      if priority > maxThreadPriority {
        watchdogPriority := maxThreadPriority;
      } else if priority < minThreadPriority {
        watchdogPriority := minThreadPriority;
      } else {
        watchdogPriority := priority;
      }
    }

    /** getThreadPriority: reads the watchdog's priority back. */
    function GetThreadPriority(): (p: int)
      reads this
      ensures p == watchdogPriority
    {
      watchdogPriority
    }
  }

  /** With the default bounds, any request ends up in [2, 8]. */
  method DefaultBounds(initialPriority: int, request: int) returns (p: int)
    ensures 2 <= p <= 8
    ensures 2 <= request <= 8 ==> p == request
  {
    var session := new ShellSession(initialPriority);
    session.SetThreadPriority(request);
    p := session.GetThreadPriority();
  }
}

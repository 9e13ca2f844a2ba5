/** The software watchdog and how it relates to the hardware one (watchdog.c, timeouts.h). */
module Watchdog {

  const TIMEOUT_HW_WATCHDOG_SECONDS := 8
  const TIMEOUT_SW_WATCHDOG_SECONDS := 3
  const SW_TIMEOUT: nat := TIMEOUT_SW_WATCHDOG_SECONDS * 1000
  const HW_TIMEOUT: nat := TIMEOUT_HW_WATCHDOG_SECONDS * 1000

  /** What happens, with the clock reading of it in milliseconds. */
  datatype Event = Reload(at: nat) | Callback(at: nat)

  /** `last_refresh` after an event; a callback that finds the clock behind it starts over. */
  function Refreshed(last: nat, e: Event): nat {
    match e
    case Reload(at) => at
    case Callback(at) => if at < last then at else last
  }

  predicate Resets(last: nat, e: Event) {
    e.Callback? && last <= e.at && e.at - last > SW_TIMEOUT
  }

  class SoftwareWatchdog {
    var lastRefresh: nat

    constructor ()
      ensures lastRefresh == 0
    {
      lastRefresh := 0;
    }

    /** `now` and `again` are the two clock readings; the second is only taken if the clock went back. */
    method PeriodElapsed(now: nat, again: nat) returns (reset: bool)
      modifies this
      ensures reset == Resets(old(lastRefresh), Callback(now))
      ensures lastRefresh == if now < old(lastRefresh) then again else old(lastRefresh)
    {
      if now < lastRefresh {
        lastRefresh := again;
        return false;
      }
      var delta := now - lastRefresh;
      return delta > TIMEOUT_SW_WATCHDOG_SECONDS * 1000;
    }

    method Reload(now: nat)
      modifies this
      ensures lastRefresh == Refreshed(old(lastRefresh), Event.Reload(now))
    {
      lastRefresh := now;
    }

    method ServeOne(e: Event) returns (reset: bool)
      modifies this
      ensures reset == Resets(old(lastRefresh), e)
      ensures lastRefresh == Refreshed(old(lastRefresh), e)
    {
      match e {
        case Reload(at) =>
          Reload(at);
          reset := false;
        case Callback(at) =>
          reset := PeriodElapsed(at, at);
      }
    }

    /** Serves events in order until one resets the device; `n` counts those served before. */
    method Serve(trace: seq<Event>) returns (n: nat)
      modifies this
      ensures n <= |trace|
      ensures forall i :: 0 <= i < n ==> !Resets(RefreshAt(old(lastRefresh), trace, i), trace[i])
      ensures n < |trace| ==> Resets(RefreshAt(old(lastRefresh), trace, n), trace[n])
    {
      hide Resets, Refreshed;
      ghost var start := lastRefresh;
      n := 0;
      while n < |trace|
        invariant n <= |trace| && lastRefresh == RefreshAt(start, trace, n)
        invariant forall i :: 0 <= i < n ==> !Resets(RefreshAt(start, trace, i), trace[i])
      {
        RefreshNext(start, trace, n);
        var reset := ServeOne(trace[n]);
        if reset {
          return;
        }
        n := n + 1;
      }
    }
  }

  lemma RefreshNext(start: nat, trace: seq<Event>, i: nat)
    requires i < |trace|
    ensures RefreshAt(start, trace, i + 1) == Refreshed(RefreshAt(start, trace, i), trace[i])
  {
  }

  /** `last_refresh` before event `i`. */
  function RefreshAt(start: nat, trace: seq<Event>, i: nat): nat
    requires i <= |trace|
  {
    if i == 0 then start else Refreshed(RefreshAt(start, trace, i - 1), trace[i - 1])
  }

  /** The time of the last reload before event `i`, or `start`. */
  function LastReload(start: nat, trace: seq<Event>, i: nat): nat
    requires i <= |trace|
  {
    if i == 0 then start
    else match trace[i - 1]
         case Reload(at) => at
         case Callback(_) => LastReload(start, trace, i - 1)
  }

  /** The clock never goes back. */
  predicate Monotone(start: nat, trace: seq<Event>) {
    && (forall i :: 0 <= i < |trace| ==> start <= trace[i].at)
    && (forall i, j :: 0 <= i <= j < |trace| ==> trace[i].at <= trace[j].at)
  }

  lemma {:induction false} RefreshIsLastReload(start: nat, trace: seq<Event>, i: nat)
    requires Monotone(start, trace) && i <= |trace|
    ensures RefreshAt(start, trace, i) == LastReload(start, trace, i)
    ensures i < |trace| ==> LastReload(start, trace, i) <= trace[i].at
  {
    if i > 0 {
      RefreshIsLastReload(start, trace, i - 1);
    }
  }

  /** A callback resets the device exactly when the last reload is more than 3000 ms ago. */
  lemma ResetsIffStale(start: nat, trace: seq<Event>, i: nat)
    requires Monotone(start, trace) && i < |trace|
    ensures Resets(RefreshAt(start, trace, i), trace[i])
            <==> trace[i].Callback? && trace[i].at - LastReload(start, trace, i) > SW_TIMEOUT
  {
    RefreshIsLastReload(start, trace, i);
  }

  /** Reloads at most 3000 ms apart: no callback before a reload resets the device. */
  lemma NoResetWhileServed(start: nat, trace: seq<Event>, i: nat, k: nat)
    requires Monotone(start, trace) && i <= k < |trace| && trace[k].Reload?
    requires forall j :: 0 <= j <= k && trace[j].Reload? ==> trace[j].at - LastReload(start, trace, j) <= SW_TIMEOUT
    ensures !Resets(RefreshAt(start, trace, i), trace[i])
  {
    ResetsIffStale(start, trace, i);
    if trace[i].Callback? {
      var j := NextReload(start, trace, i, k);
      assert trace[i].at <= trace[j].at;
    }
  }

  /** The first reload from event `i` on. */
  lemma {:induction false} NextReload(start: nat, trace: seq<Event>, i: nat, k: nat) returns (j: nat)
    requires i <= k < |trace| && trace[k].Reload?
    ensures i <= j <= k && trace[j].Reload?
    ensures LastReload(start, trace, j) == LastReload(start, trace, i)
    decreases k - i
  {
    if trace[i].Reload? {
      j := i;
    } else {
      j := NextReload(start, trace, i + 1, k);
    }
  }

  lemma {:induction false} NoReloadSince(start: nat, trace: seq<Event>, r: nat, i: nat)
    requires r < i <= |trace| && trace[r].Reload?
    requires forall j :: r < j < |trace| ==> trace[j].Callback?
    ensures LastReload(start, trace, i) == trace[r].at
  {
    if i > r + 1 {
      NoReloadSince(start, trace, r, i - 1);
    }
  }

  /**
   * Once reloads stop at event `r`, with callbacks every `period` ms and long enough, the device is
   * reset by the first callback more than 3000 ms later, before the hardware watchdog would.
   */
  lemma ResetsBeforeHardware(start: nat, trace: seq<Event>, r: nat, period: nat) returns (i: nat)
    requires Monotone(start, trace) && r + 1 < |trace| && trace[r].Reload?
    requires forall j :: r < j < |trace| ==> trace[j].Callback?
    requires forall j :: r <= j < |trace| - 1 ==> trace[j + 1].at - trace[j].at <= period
    requires trace[|trace| - 1].at > trace[r].at + SW_TIMEOUT
    requires SW_TIMEOUT + period < HW_TIMEOUT
    ensures r < i < |trace| && Resets(RefreshAt(start, trace, i), trace[i])
    ensures forall j :: r <= j < i ==> !Resets(RefreshAt(start, trace, j), trace[j])
    ensures SW_TIMEOUT < trace[i].at - trace[r].at < HW_TIMEOUT
  {
    i := r + 1;
    while trace[i].at <= trace[r].at + SW_TIMEOUT
      invariant r < i < |trace|
      invariant forall j :: r <= j < i ==> trace[j].at <= trace[r].at + SW_TIMEOUT
      decreases |trace| - i
    {
      i := i + 1;
    }
    assert trace[i - 1].at <= trace[r].at + SW_TIMEOUT;
    assert trace[i - 1 + 1].at - trace[i - 1].at <= period;
    forall j | r <= j <= i
      ensures Resets(RefreshAt(start, trace, j), trace[j]) <==> j == i
    {
      ResetsIffStale(start, trace, j);
      if j > r {
        NoReloadSince(start, trace, r, j);
      }
    }
  }
}

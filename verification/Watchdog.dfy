/**
 The run watchdog (src/run_supervision.py): it kills a run whose log has not grown for
 too long, or that has run for too long.

 What the clock and the log show is a list of samples: the first is taken when the loop
 starts, each next at one tick; the stop event ends the list.
 */
module Watchdog {
  import opened Options

  /** One look at the run: the time, the log's size (None when it cannot be read), and whether the child has exited. */
  datatype Sample = Sample(at: real, size: Option<nat>, exited: bool)

  datatype Reason = NoOutput | MaxRuntime

  ghost predicate Monotone(samples: seq<Sample>) {
    forall i, j :: 0 <= i <= j < |samples| ==> samples[i].at <= samples[j].at
  }

  /** A ceiling that is missing or not positive enforces nothing. */
  function PositiveOrNone(seconds: Option<real>): Option<real> {
    if seconds.None? || seconds.value <= 0.0 then None else seconds
  }

  // ---------------------------------------------------------------- what the watchdog is for

  /** From sample `g` to sample `k`, both readable, every readable sample shows the same size. */
  ghost predicate Still(samples: seq<Sample>, g: nat, k: nat) {
    && g < k < |samples| && samples[g].size.Some? && samples[k].size.Some?
    && forall i :: g <= i <= k && samples[i].size.Some? ==> samples[i].size == samples[k].size
  }

  /** Tick `k` ends a stillness longer than the limit. */
  ghost predicate Quiet(samples: seq<Sample>, limit: Option<real>, k: nat)
    requires k < |samples|
  {
    limit.Some? && exists g: nat :: Still(samples, g, k) && samples[k].at - samples[g].at > limit.value
  }

  predicate Overdue(samples: seq<Sample>, limit: Option<real>, k: nat)
    requires k < |samples|
  {
    limit.Some? && samples[k].at - samples[0].at > limit.value
  }

  // ---------------------------------------------------------------- the run of last sizes

  /** `last` is the size of the newest readable sample before `n`, and `g` where its run of equal sizes began. */
  ghost predicate Tracks(samples: seq<Sample>, n: nat, last: Option<nat>, growth: real, g: nat)
    requires 0 < n <= |samples|
  {
    if last.None? then forall i :: 0 <= i < n ==> samples[i].size.None?
    else
      && g < n && samples[g].size == last && samples[g].at == growth
      && (forall i :: g <= i < n && samples[i].size.Some? ==> samples[i].size == last)
      && ((forall i :: 0 <= i < g ==> samples[i].size.None?) || Changed(samples, g, last))
  }

  /** The newest readable sample before `g` shows another size. */
  ghost predicate Changed(samples: seq<Sample>, g: nat, last: Option<nat>)
    requires g <= |samples|
  {
    exists h :: 0 <= h < g && samples[h].size.Some? && samples[h].size != last &&
      forall i :: h < i < g ==> samples[i].size.None?
  }

  /** The time since the last growth is exactly what decides stillness. */
  lemma QuietIs(samples: seq<Sample>, k: nat, last: Option<nat>, growth: real, g: nat, limit: real)
    requires Monotone(samples) && 0 < k < |samples| && Tracks(samples, k, last, growth, g)
    requires samples[k].size.Some? && samples[k].size == last
    ensures Quiet(samples, Some(limit), k) <==> samples[k].at - growth > limit
  {
    assert Still(samples, g, k);
    assert forall e: nat :: Still(samples, e, k) ==> e >= g;
  }

  lemma GrowthIsNotQuiet(samples: seq<Sample>, k: nat, last: Option<nat>, growth: real, g: nat, limit: Option<real>)
    requires 0 < k < |samples| && Tracks(samples, k, last, growth, g)
    requires samples[k].size != last || samples[k].size.None?
    ensures !Quiet(samples, limit, k)
  {
    assert forall e: nat :: !Still(samples, e, k);
  }

  lemma TracksGrowth(samples: seq<Sample>, n: nat, last: Option<nat>, growth: real, g: nat)
    requires 0 < n < |samples| && Tracks(samples, n, last, growth, g)
    requires samples[n].size.Some? && samples[n].size != last
    ensures Tracks(samples, n + 1, samples[n].size, samples[n].at, n)
  {
    if last.Some? {
      var h := NewestReadable(samples, n, g);
      assert samples[h].size == last;
      assert Changed(samples, n, samples[n].size);
    }
  }

  lemma {:induction false} NewestReadable(samples: seq<Sample>, n: nat, g: nat) returns (h: nat)
    requires g < n <= |samples| && samples[g].size.Some?
    ensures g <= h < n && samples[h].size.Some? && forall i :: h < i < n ==> samples[i].size.None?
  {
    if samples[n - 1].size.Some? { h := n - 1; } else { h := NewestReadable(samples, n - 1, g); }
  }

  // ---------------------------------------------------------------- the watchdog

  class RunWatchdog {
    const maxRuntime: Option<real>
    const noOutput: Option<real>
    var reason: Option<Reason>

    constructor (maxRuntimeSeconds: Option<real>, noOutputSeconds: Option<real>)
      ensures forall x :: maxRuntime == Some(x) <==> maxRuntimeSeconds == Some(x) && x > 0.0
      ensures forall x :: noOutput == Some(x) <==> noOutputSeconds == Some(x) && x > 0.0
      ensures reason == None
    {
      maxRuntime, noOutput, reason := PositiveOrNone(maxRuntimeSeconds), PositiveOrNone(noOutputSeconds), None;
    }

    /**
     The loop over everything it sees until it is stopped: the tick it triggers at and why, or None.
     It triggers at the first tick that is overdue or quiet, and at no other.
     */
    method Loop(samples: seq<Sample>) returns (trigger: Option<(nat, Reason)>)
      requires samples != [] && Monotone(samples) && reason == None
      modifies this
      ensures trigger.None? ==>
                forall k :: 1 <= k < |samples| ==> !Overdue(samples, maxRuntime, k) && !Quiet(samples, noOutput, k)
      ensures trigger.Some? ==>
                var (k, why) := trigger.value;
                && 1 <= k < |samples|
                && (forall j :: 1 <= j < k ==> !Overdue(samples, maxRuntime, j) && !Quiet(samples, noOutput, j))
                && (why == MaxRuntime <==> Overdue(samples, maxRuntime, k))
                && (why == NoOutput ==> Quiet(samples, noOutput, k))
      ensures reason == if trigger.Some? && !samples[trigger.value.0].exited then Some(trigger.value.1) else None
    {
      var lastSize, lastGrowth := samples[0].size, samples[0].at;
      ghost var g := 0;
      for k := 1 to |samples|
        invariant reason == None
        invariant noOutput.Some? ==> Tracks(samples, k, lastSize, lastGrowth, g)
        invariant forall j :: 1 <= j < k ==> !Overdue(samples, maxRuntime, j) && !Quiet(samples, noOutput, j)
      {
        hide Tracks, Quiet;
        var now := samples[k].at;
        if maxRuntime.Some? && now - samples[0].at > maxRuntime.value {
          Fire(MaxRuntime, samples[k].exited);
          return Some((k, MaxRuntime));
        }
        if noOutput.None? {
          continue;
        }
        var size := samples[k].size;
        if size != lastSize || size.None? { GrowthIsNotQuiet(samples, k, lastSize, lastGrowth, g, noOutput); }
        if size.None? {
          continue;
        }
        if size != lastSize {
          TracksGrowth(samples, k, lastSize, lastGrowth, g);
          lastSize, lastGrowth, g := size, now, k;
          continue;
        }
        QuietIs(samples, k, lastSize, lastGrowth, g, noOutput.value);
        var quietFor := now - lastGrowth;
        if quietFor > noOutput.value {
          Fire(NoOutput, samples[k].exited);
          return Some((k, NoOutput));
        }
      }
      trigger := None;
    }

    /** A run that has already finished on its own is not reported as killed. */
    method Fire(why: Reason, exited: bool)
      modifies this
      ensures reason == if exited then old(reason) else Some(why)
    {
      if exited { return; }
      reason := Some(why);
    }
  }

}

/**
 * The `slow(interval)` decorator: a wrapped callback fires at most once per
 * `interval` ticks; calls that come too early are dropped, never queued.
 *
 * Time is an integer tick. The decorator keeps one mutable timestamp,
 * `last_update`, set to the decoration time and overwritten with `now` by
 * every accepted call before the callback runs.
 */
module RateLimiter {
  import opened Wrappers

  /** The accept/drop decision both wrappers make: fire unless fewer than
      `interval` ticks have passed since the last accepted call. */
  predicate Fires(lastUpdate: int, now: int, interval: int): (fires: bool)
    ensures fires <==> lastUpdate + interval <= now
  {
    !(now - lastUpdate < interval)
  }

  /** The timestamp after one call at `now`. */
  function Next(lastUpdate: int, now: int, interval: int): int
  {
    if Fires(lastUpdate, now, interval) then now else lastUpdate
  }

  /** The timestamp after calls at `times`, starting from `last`. */
  function LastAfter(last: int, interval: int, times: seq<int>): int
    decreases |times|
  {
    if times == [] then last
    else LastAfter(Next(last, times[0], interval), interval, times[1..])
  }

  /** For each call at `times`, whether it fired. */
  function Decisions(last: int, interval: int, times: seq<int>): (d: seq<bool>)
    ensures |d| == |times|
    decreases |times|
  {
    if times == [] then []
    else [Fires(last, times[0], interval)]
         + Decisions(Next(last, times[0], interval), interval, times[1..])
  }

  /** The timestamps of the calls that fired, in call order. */
  function Accepted(last: int, interval: int, times: seq<int>): seq<int>
    decreases |times|
  {
    if times == [] then []
    else if Fires(last, times[0], interval) then [times[0]] + Accepted(times[0], interval, times[1..])
    else Accepted(last, interval, times[1..])
  }

  /** The elements of `s` whose flag in `keep` is set, in order. */
  function Select(s: seq<int>, keep: seq<bool>): (r: seq<int>)
    requires |keep| == |s|
    ensures |r| <= |s|
  {
    if s == [] then []
    else (if keep[0] then [s[0]] else []) + Select(s[1..], keep[1..])
  }

  /** Every accepted timestamp lies at least `interval` after the previous
      one, the first at least `interval` after `last`. */
  ghost predicate Spaced(last: int, interval: int, fired: seq<int>)
  {
    (|fired| > 0 ==> last + interval <= fired[0]) &&
    forall i :: 0 < i < |fired| ==> fired[i - 1] + interval <= fired[i]
  }

  /** Throttling guarantee: accepted calls are at least `interval` apart,
      whatever order the timestamps come in. */
  lemma {:induction false} AcceptedSpaced(last: int, interval: int, times: seq<int>)
    ensures Spaced(last, interval, Accepted(last, interval, times))
    decreases |times|
  {
    if times != [] {
      if Fires(last, times[0], interval) {
        AcceptedSpaced(times[0], interval, times[1..]);
      } else {
        AcceptedSpaced(last, interval, times[1..]);
      }
    }
  }

  /** No deferral, no replay: the accepted timestamps are exactly the call
      timestamps whose call fired, in call order. */
  lemma {:induction false} AcceptedSelectsFired(last: int, interval: int, times: seq<int>)
    ensures Accepted(last, interval, times) == Select(times, Decisions(last, interval, times))
    decreases |times|
  {
    if times != [] {
      var next := Next(last, times[0], interval);
      AcceptedSelectsFired(next, interval, times[1..]);
      assert Decisions(last, interval, times)[1..] == Decisions(next, interval, times[1..]);
    }
  }

  /** Appending one call: it fires iff it is `interval` after the timestamp
      left by the earlier calls, and only then is it accepted. */
  lemma {:induction false} AcceptedSnoc(last: int, interval: int, times: seq<int>, now: int)
    ensures LastAfter(last, interval, times + [now]) == Next(LastAfter(last, interval, times), now, interval)
    ensures Accepted(last, interval, times + [now])
         == Accepted(last, interval, times)
            + (if Fires(LastAfter(last, interval, times), now, interval) then [now] else [])
    decreases |times|
  {
    if times != [] {
      assert (times + [now])[1..] == times[1..] + [now];
      AcceptedSnoc(Next(last, times[0], interval), interval, times[1..], now);
    }
  }

  /** Call `i` of a trace fires iff it comes at least `interval` after the
      timestamp the earlier calls left; a dropped call leaves it unchanged. */
  lemma {:induction false} DecisionAt(last: int, interval: int, times: seq<int>, i: nat)
    requires i < |times|
    ensures Decisions(last, interval, times)[i] == Fires(LastAfter(last, interval, times[..i]), times[i], interval)
    ensures LastAfter(last, interval, times[..i + 1])
         == if Decisions(last, interval, times)[i] then times[i] else LastAfter(last, interval, times[..i])
    decreases i
  {
    var next := Next(last, times[0], interval);
    if i > 0 {
      DecisionAt(next, interval, times[1..], i - 1);
      assert times[1..][..i - 1] == times[..i][1..];
      assert times[1..][..i] == times[..i + 1][1..];
    }
  }

  /** The state left behind is the last accepted timestamp, or the starting
      one when nothing fired. */
  lemma {:induction false} LastAfterIsLastAccepted(last: int, interval: int, times: seq<int>)
    ensures var acc := Accepted(last, interval, times);
            LastAfter(last, interval, times) == if acc == [] then last else acc[|acc| - 1]
    decreases |times|
  {
    if times != [] {
      var next := Next(last, times[0], interval);
      LastAfterIsLastAccepted(next, interval, times[1..]);
    }
  }

  /** Calls made less than `interval` after the starting timestamp are all
      dropped; in particular right after decoration nothing fires. */
  lemma {:induction false} EarlyCallsDropped(last: int, interval: int, times: seq<int>)
    requires forall i :: 0 <= i < |times| ==> times[i] < last + interval
    ensures Accepted(last, interval, times) == []
    ensures LastAfter(last, interval, times) == last
  {
    if times != [] {
      EarlyCallsDropped(last, interval, times[1..]);
    }
  }

  /** Rate bound: with a positive interval, the callback fires at most
      (end - last) / interval times for calls made up to `end`. */
  lemma AcceptedCountBound(last: int, interval: int, times: seq<int>, end: int)
    requires interval > 0 && last <= end
    requires forall i :: 0 <= i < |times| ==> times[i] <= end
    ensures |Accepted(last, interval, times)| * interval <= end - last
  {
    var acc := Accepted(last, interval, times);
    AcceptedSpaced(last, interval, times);
    AcceptedWithinCalls(last, interval, times);
    if acc != [] {
      SpacedGrowth(last, interval, acc, |acc| - 1);
      assert acc[|acc| - 1] in times;
    }
  }

  /** Every accepted timestamp is the timestamp of some call. */
  lemma {:induction false} AcceptedWithinCalls(last: int, interval: int, times: seq<int>)
    ensures forall t :: t in Accepted(last, interval, times) ==> t in times
    decreases |times|
  {
    if times != [] {
      AcceptedWithinCalls(Next(last, times[0], interval), interval, times[1..]);
    }
  }

  lemma {:induction false} SpacedGrowth(last: int, interval: int, fired: seq<int>, k: nat)
    requires Spaced(last, interval, fired) && k < |fired|
    ensures last + (k + 1) * interval <= fired[k]
  {
    if k > 0 {
      SpacedGrowth(last, interval, fired, k - 1);
      assert fired[k - 1] + interval <= fired[k];
    }
  }

  /**
   * The function returned by `dec(func)`: `func` together with the shared
   * timestamp. The ghost `calls` records every call timestamp so far, which
   * ties the mutable state to the trace functions above.
   */
  class Throttled<A, R> {
    const interval: int
    const func: A -> R
    ghost const decoratedAt: int
    var lastUpdate: int
    ghost var calls: seq<int>
    ghost var fired: seq<int>

    ghost predicate Valid()
      reads this
    {
      && lastUpdate == LastAfter(decoratedAt, interval, calls)
      && fired == Accepted(decoratedAt, interval, calls)
      && Spaced(decoratedAt, interval, fired)
    }

    /** Decorating `func` at time `now` (the state starts at decoration time). */
    constructor (interval: int, func: A -> R, now: int)
      ensures Valid()
      ensures this.interval == interval && this.func == func && decoratedAt == now
      ensures lastUpdate == now && calls == [] && fired == []
    {
      this.interval := interval;
      this.func := func;
      decoratedAt := now;
      lastUpdate := now;
      calls := [];
      fired := [];
    }

    /** One call of the wrapper at time `now`: `Some` result of `func` when
        it fired, `None` when the call was dropped. */
    method Call(now: int, arg: A) returns (r: Option<R>)
      requires Valid()
      modifies this
      ensures Valid()
      ensures calls == old(calls) + [now]
      ensures r.Some? <==> old(lastUpdate) + interval <= now
      ensures r.Some? ==> r.value == func(arg) && lastUpdate == now && fired == old(fired) + [now]
      ensures r.None? ==> lastUpdate == old(lastUpdate) && fired == old(fired)
    {
      AcceptedSnoc(decoratedAt, interval, calls, now);
      AcceptedSpaced(decoratedAt, interval, calls + [now]);
      calls := calls + [now];
      if now - lastUpdate < interval {
        return None;
      }
      lastUpdate := now;
      fired := fired + [now];
      r := Some(func(arg));
    }
  }
}

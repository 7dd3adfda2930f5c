/**
 * `debounceSubmit` and its module-level `debounceTimeout`: each call
 * cancels the pending timer and schedules a new one a quiet period later.
 * Time is an explicit clock in milliseconds. A firing is an abstract event,
 * counted; the callback it would run is not part of this model.
 */
module Debounce {
  import opened Wrappers

  /** The delay passed to `setTimeout`. */
  const QuietPeriod: int := 1000

  /** The debouncer's state: the deadline of the pending timer, if any, and
      how many times a timer has fired so far. */
  datatype Timer = Timer(pending: Option<int>, fires: nat)

  /** What can happen to the debouncer: a call of `debounceSubmit` at time
      `at`, or the clock reaching time `at`. */
  datatype Event = Call(at: int) | Clock(at: int)

  /** The effect of one event. A call replaces any pending deadline; a tick
      fires the pending timer once its deadline has passed. */
  function Step(t: Timer, e: Event): (u: Timer)
    ensures e.Call? ==> u.pending == Some(e.at + QuietPeriod) && u.fires == t.fires
    ensures u.fires == t.fires + 1 <==> e.Clock? && t.pending.Some? && e.at >= t.pending.value
    ensures u.fires != t.fires + 1 ==> u.fires == t.fires
    ensures u.fires == t.fires + 1 ==> u.pending.None?
  {
    match e
    case Call(now) => Timer(Some(now + QuietPeriod), t.fires)
    case Clock(now) =>
      if t.pending.Some? && now >= t.pending.value then Timer(None, t.fires + 1) else t
  }

  /** The effect of a sequence of events, in order. */
  function Run(t: Timer, es: seq<Event>): Timer
    decreases es
  {
    if es == [] then t else Run(Step(t, es[0]), es[1..])
  }

  /** The number of calls among the events. */
  function CallCount(es: seq<Event>): nat
  {
    if es == [] then 0 else (if es[0].Call? then 1 else 0) + CallCount(es[1..])
  }

  /** A call at each of the times `ts`, each preceded by the clock reaching
      that time. */
  function Burst(ts: seq<int>): (es: seq<Event>)
    ensures |es| == 2 * |ts|
    ensures CallCount(es) == |ts|
  {
    if ts == [] then [] else [Clock(ts[0]), Call(ts[0])] + Burst(ts[1..])
  }

  /** The clock reaching each of the times `us`. */
  function Ticks(us: seq<int>): (es: seq<Event>)
    ensures |es| == |us|
    ensures CallCount(es) == 0
  {
    if us == [] then [] else [Clock(us[0])] + Ticks(us[1..])
  }

  lemma {:induction false} RunAppend(t: Timer, a: seq<Event>, b: seq<Event>)
    ensures Run(t, a + b) == Run(Run(t, a), b)
    decreases a
  {
    if a != [] {
      assert (a + b)[0] == a[0];
      assert (a + b)[1..] == a[1..] + b;
      RunAppend(Step(t, a[0]), a[1..], b);
    } else {
      assert a + b == b;
    }
  }

  /** At most one timer is ever pending, so no burst of calls can stack up
      firings: every firing is paid for by a call, or by the timer that was
      pending at the start. */
  lemma {:induction false} FiresAtMostCalls(t: Timer, es: seq<Event>)
    ensures Run(t, es).fires <= t.fires + CallCount(es) + (if t.pending.Some? then 1 else 0)
    decreases es
  {
    if es != [] {
      FiresAtMostCalls(Step(t, es[0]), es[1..]);
    }
  }

  /** Calls spaced less than the quiet period apart never fire: after the
      burst exactly one timer is pending, due a quiet period after the last
      call, and nothing has fired. */
  lemma {:induction false} BurstCoalesces(t: Timer, ts: seq<int>)
    requires |ts| > 0
    requires t.pending.None? || ts[0] < t.pending.value
    requires forall i :: 0 < i < |ts| ==> ts[i - 1] <= ts[i] < ts[i - 1] + QuietPeriod
    ensures Run(t, Burst(ts)) == Timer(Some(ts[|ts| - 1] + QuietPeriod), t.fires)
    decreases ts
  {
    var u := Timer(Some(ts[0] + QuietPeriod), t.fires);
    var pair := [Clock(ts[0]), Call(ts[0])];
    assert pair[1..][1..] == [];
    assert Run(t, pair) == Run(Step(t, Clock(ts[0])), [Call(ts[0])]);
    assert Burst(ts) == pair + Burst(ts[1..]);
    RunAppend(t, pair, Burst(ts[1..]));
    assert Step(t, Clock(ts[0])) == t;
    assert Run(t, [Call(ts[0])]) == Run(u, []) == u;
    assert Run(t, pair) == u;
    if |ts| > 1 {
      BurstCoalesces(u, ts[1..]);
    } else {
      assert Burst(ts[1..]) == [];
    }
  }

  /** From a pending deadline `d`, a run of clock ticks fires exactly once if
      some tick reaches `d` and not at all otherwise. */
  lemma {:induction false} TicksFireOnce(d: int, f: nat, us: seq<int>)
    ensures var r := Run(Timer(Some(d), f), Ticks(us));
      r == if exists k :: 0 <= k < |us| && us[k] >= d then Timer(None, f + 1) else Timer(Some(d), f)
  {
    if us != [] {
      RunAppend(Timer(Some(d), f), [Clock(us[0])], Ticks(us[1..]));
      if us[0] >= d {
        IdleTicks(Timer(None, f + 1), us[1..]);
      } else {
        TicksFireOnce(d, f, us[1..]);
        assert forall k :: 0 < k < |us| ==> us[k] == us[1..][k - 1];
      }
    }
  }

  /** With no timer pending, the clock alone fires nothing. */
  lemma {:induction false} IdleTicks(t: Timer, us: seq<int>)
    requires t.pending.None?
    ensures Run(t, Ticks(us)) == t
  {
    if us != [] {
      RunAppend(t, [Clock(us[0])], Ticks(us[1..]));
      IdleTicks(t, us[1..]);
    }
  }

  /** A burst of calls under a quiet period apart, then the clock running on:
      one firing if some tick reaches a quiet period after the last call, and
      none otherwise. */
  lemma BurstFiresOnce(f: nat, ts: seq<int>, us: seq<int>)
    requires |ts| > 0
    requires forall i :: 0 < i < |ts| ==> ts[i - 1] <= ts[i] < ts[i - 1] + QuietPeriod
    ensures var due := ts[|ts| - 1] + QuietPeriod;
      Run(Timer(None, f), Burst(ts) + Ticks(us)).fires
        == f + (if exists k :: 0 <= k < |us| && us[k] >= due then 1 else 0)
  {
    RunAppend(Timer(None, f), Burst(ts), Ticks(us));
    BurstCoalesces(Timer(None, f), ts);
    TicksFireOnce(ts[|ts| - 1] + QuietPeriod, f, us);
  }

  /** Calls at 0, 100, 200 and 300 ms: nothing fires at 1299 ms, one firing
      at 1300 ms. */
  lemma FourClicksExample()
    ensures Run(Timer(None, 0), Burst([0, 100, 200, 300]) + Ticks([1299])).fires == 0
    ensures Run(Timer(None, 0), Burst([0, 100, 200, 300]) + Ticks([1299, 1300])).fires == 1
  {
    BurstFiresOnce(0, [0, 100, 200, 300], [1299]);
    BurstFiresOnce(0, [0, 100, 200, 300], [1299, 1300]);
    assert [1299, 1300][1] >= 1300;
  }

  /** The module-level timer handle of `debounceSubmit`. */
  class Debouncer {
    /** The deadline of the pending `setTimeout`, if any. */
    var pending: Option<int>
    /** How many times the timer has fired. */
    var fires: nat

    function State(): Timer
      reads this
    {
      Timer(pending, fires)
    }

    /** `let debounceTimeout;`: no timer pending. */
    constructor ()
      ensures State() == Timer(None, 0)
    {
      pending := None;
      fires := 0;
    }

    /** `debounceSubmit()` at time `now`: cancel the pending timer and
        schedule one a quiet period later. */
    method Notify(now: int)
      modifies this`pending
      ensures State() == Step(old(State()), Call(now))
      ensures pending == Some(now + QuietPeriod) && fires == old(fires)
    {
      pending := Some(now + QuietPeriod);
    }

    /** The clock reaches `now`: the pending timer fires, once, if it is due. */
    method Tick(now: int) returns (fired: bool)
      modifies this
      ensures State() == Step(old(State()), Clock(now))
      ensures fired <==> old(pending).Some? && now >= old(pending).value
      ensures fired ==> pending.None? && fires == old(fires) + 1
    {
      fired := pending.Some? && now >= pending.value;
      if fired {
        pending := None;
        fires := fires + 1;
      }
    }
  }
}

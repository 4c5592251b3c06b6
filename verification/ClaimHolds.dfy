/** How long the claim-status cache keeps probes off after a result, over every
    continuation of a run; and runs that show what it does not promise. */
module ClaimHolds {
  import opened Text
  import opened ClaimStatus
  import opened ClaimRuns

  // ----- the hold-off -----

  /** Every probe of n's epoch that m has and n has not was launched at limit or later. */
  predicate LaunchedFrom(n: System, m: System, limit: int) {
    forall p | |n.probes| <= p < |m.probes| && m.probes[p].epoch == n.epoch :: m.probes[p].launched >= limit
  }

  ghost predicate Continues(floor: int, start: seq<Step>, run: seq<Step>) { start <= run && Legal(floor, run) }

  /** However the run goes on, it launches no probe in this epoch before limit. */
  ghost predicate HoldsUntil(floor: int, start: seq<Step>, limit: int)
    requires Legal(floor, start)
  {
    forall run | Continues(floor, start, run) :: LaunchedFrom(After(floor, start), After(floor, run), limit)
  }

  /** Some probe of the slot's identity is still running. */
  predicate OtherRunning(n: System) { exists q :: 0 <= q < |n.probes| && Running(n.probes, q, n.slot.key) }

  /** The slot keeps a verdict so fresh that no call in time could probe: it was found
      at the very time at, and d is one step over the floor; or no age is too old. */
  predicate FreshThroughout(floor: int, n: System, at: int, d: int) {
    n.slot.good.Some? && (floor == INT64_MAX || (n.slot.goodAt >= at && d == floor + 1))
  }

  /** n is just after a result stored at time at with hold-off delay. */
  predicate Secure(floor: int, n: System, at: int, delay: int, d: int) {
    d <= floor || (d <= delay && !OtherRunning(n)) || FreshThroughout(floor, n, at, d)
  }

  /** What keeps the next launch of n's epoch away until at + d. */
  predicate Bar(floor: int, n: System, m: System, at: int, d: int)
    requires |n.probes| <= |m.probes|
  {
    || FreshThroughout(floor, m, at, d)
    || (d <= floor && m.slot.nextProbeAt.Some? && m.slot.nextProbeAt.value >= at + floor)
    || (m.slot.nextProbeAt.Some? && m.slot.nextProbeAt.value >= at + d
        && forall q | 0 <= q < |n.probes| :: !Running(m.probes, q, m.slot.key))
  }

  predicate Barred(floor: int, n: System, m: System, at: int, d: int) {
    && at <= m.clock && n.epoch <= m.epoch && |n.probes| <= |m.probes|
    && LaunchedFrom(n, m, at + d)
    && (forall p | |n.probes| <= p < |m.probes| :: n.epoch <= m.probes[p].epoch)
    && (m.epoch == n.epoch ==> Bar(floor, n, m, at, d))
  }

  /** Behind the bar, a call of the slot's identity launches only at at + d or later. */
  lemma BarHolds(floor: int, n: System, m: System, a: Step, at: int, d: int)
    requires GoodFloor(floor) && a.Arrive? && Enabled(m, a) && m.slot.key == a.key
    requires |n.probes| <= |m.probes| && Bar(floor, n, m, at, d)
    requires Enter(m.slot, floor, a.key, a.maxAge, a.t1, a.t2, a.t3, |m.probes|).1.Launch?
    ensures a.t2 >= at + d
  {}

  lemma BarredArrive(floor: int, n: System, m: System, a: Step, at: int, d: int)
    requires GoodFloor(floor) && Flight(m) && a.Arrive? && Enabled(m, a) && Barred(floor, n, m, at, d)
    ensures Barred(floor, n, AfterArrive(floor, m, a), at, d)
  {
    var m' := AfterArrive(floor, m, a);
    if m.slot.key != a.key {
      MoveLaunches(floor, m, a);
      assert m'.epoch == m.epoch + 1 && m'.probes == m.probes + [Probe(a.key, m.epoch + 1, a.t2, None)];
    } else {
      var e := Enter(m.slot, floor, a.key, a.maxAge, a.t1, a.t2, a.t3, |m.probes|).1;
      if e.Launch? {
        if m.epoch == n.epoch { BarHolds(floor, n, m, a, at, d); }
        assert m'.epoch == m.epoch && m'.probes == m.probes + [Probe(a.key, m.epoch, a.t2, None)];
        BarLaunched(floor, n, m, m', at, d);
      } else {
        assert m'.epoch == m.epoch && m'.probes == m.probes && m'.slot == m.slot;
      }
    }
  }

  lemma BarLaunched(floor: int, n: System, m: System, m': System, at: int, d: int)
    requires |n.probes| <= |m.probes| && |m'.probes| == |m.probes| + 1 && m'.probes[..|m.probes|] == m.probes
    requires m'.slot == m.slot.(inflight := m'.slot.inflight, inflightKey := m'.slot.inflightKey)
    requires m.epoch == n.epoch ==> Bar(floor, n, m, at, d)
    ensures m.epoch == n.epoch ==> Bar(floor, n, m', at, d)
  {
    forall q | 0 <= q < |n.probes| ensures m'.probes[q] == m.probes[q] {
      assert m'.probes[q] == m'.probes[..|m.probes|][q];
    }
    assert forall q | 0 <= q < |n.probes| && Running(m'.probes, q, m'.slot.key) :: Running(m.probes, q, m.slot.key);
  }

  /** A result stored behind the bar does not lower it: it comes from a probe launched
      at at + d or later, or cannot shorten what holds. */
  lemma BarLanded(floor: int, n: System, m: System, a: Step, at: int, d: int)
    requires GoodFloor(floor) && History(m) && a.Land? && Enabled(m, a) && Barred(floor, n, m, at, d)
    requires m.epoch == n.epoch && m.probes[a.channel].key == m.slot.key
    ensures Bar(floor, n, AfterLand(floor, m, a), at, d)
  {
    var m' := AfterLand(floor, m, a);
    DelayAtLeastFloor(floor, a.got.out);
    assert m'.slot.nextProbeAt == Some(a.now + Delay(floor, a.got.out));
    if FreshThroughout(floor, m, at, d) || d <= floor {
    } else {
      assert a.channel < |n.probes| ==> Running(m.probes, a.channel, m.slot.key);
      assert at + d <= m.probes[a.channel].launched <= a.now;
      assert forall q | 0 <= q < |n.probes| && Running(m'.probes, q, m'.slot.key) :: Running(m.probes, q, m.slot.key);
    }
  }

  lemma BarredLand(floor: int, n: System, m: System, a: Step, at: int, d: int)
    requires GoodFloor(floor) && History(m) && a.Land? && Enabled(m, a) && Barred(floor, n, m, at, d)
    ensures Barred(floor, n, AfterLand(floor, m, a), at, d)
  {
    var m' := AfterLand(floor, m, a);
    assert m'.epoch == m.epoch && m'.slot.key == m.slot.key && |m'.probes| == |m.probes|;
    assert forall p | 0 <= p < |m.probes| :: m'.probes[p] == m.probes[p].(done := m'.probes[p].done);
    if m.epoch == n.epoch {
      if m.probes[a.channel].key == m.slot.key {
        BarLanded(floor, n, m, a, at, d);
      } else {
        assert m'.slot == m.slot.(inflight := m'.slot.inflight);
        assert forall q | 0 <= q < |n.probes| && Running(m'.probes, q, m.slot.key) :: Running(m.probes, q, m.slot.key);
      }
    }
  }

  lemma BarredStep(floor: int, n: System, m: System, a: Step, at: int, d: int)
    requires GoodFloor(floor) && History(m) && Flight(m) && Enabled(m, a) && Barred(floor, n, m, at, d)
    ensures Barred(floor, n, Next(floor, m, a), at, d)
  {
    match a
    case Arrive(_, _, _, _, _, _) => BarredArrive(floor, n, m, a, at, d);
    case Land(_, _, _) => BarredLand(floor, n, m, a, at, d);
    case Wake(_, _, _) =>
  }

  lemma {:induction false} BarredStays(floor: int, start: seq<Step>, run: seq<Step>, at: int, d: int)
    requires GoodFloor(floor) && Continues(floor, start, run) && Legal(floor, start)
    requires Barred(floor, After(floor, start), After(floor, start), at, d)
    ensures Barred(floor, After(floor, start), After(floor, run), at, d)
    decreases |run|
  {
    if |run| == |start| {
      assert run == start;
    } else {
      var init := run[..|run| - 1];
      assert start <= init;
      BarredStays(floor, start, init, at, d);
      Always(floor, init);
      BarredStep(floor, After(floor, start), After(floor, init), run[|run| - 1], at, d);
    }
  }

  lemma OneMore(floor: int, run: seq<Step>, s: System, a: Step) returns (more: seq<Step>, n: System)
    requires Legal(floor, run) && s == After(floor, run) && Enabled(s, a)
    ensures more == run + [a] && Legal(floor, more) && n == After(floor, more) == Next(floor, s, a)
  {
    more, n := run + [a], Next(floor, s, a);
    assert more[..|run|] == run;
  }

  /** Some number names no waiting caller. */
  lemma {:induction false} FreeCaller(names: set<nat>) returns (c: nat)
    ensures forall x | x in names :: x < c
  {
    c := 0;
    if names != {} {
      var x :| x in names;
      var b := FreeCaller(names - {x});
      c := if x < b then b else x + 1;
      assert forall y | y in names :: y == x || y in names - {x};
    }
  }

  /** Once nothing of the epoch is running, the slot can be probed as soon as its
      hold-off is over and its verdict, if any, is older than the floor. */
  lemma EarlyLaunch(floor: int, start: seq<Step>, run: seq<Step>, m: System, t: int)
    requires GoodFloor(floor) && Legal(floor, start) && Continues(floor, start, run) && m == After(floor, run)
    requires m.epoch == After(floor, start).epoch && m.slot.inflight.None? && m.clock <= t
    requires m.slot.nextProbeAt.Some? && m.slot.nextProbeAt.value <= t
    requires m.slot.good.Some? ==> floor < Since(t, m.slot.goodAt)
    ensures !HoldsUntil(floor, start, t + 1)
  {
    var c := FreeCaller(m.waiting.Keys);
    var more, n := OneMore(floor, run, m, Arrive(c, m.slot.key, 0, t, t, t));
    PrefixGrows(floor, start, run);
    assert n.probes[|m.probes|] == Probe(m.slot.key, m.epoch, t, None);
    assert Continues(floor, start, more) && !LaunchedFrom(After(floor, start), After(floor, more), t + 1);
  }

  lemma {:induction false} PrefixGrows(floor: int, start: seq<Step>, run: seq<Step>)
    requires Legal(floor, start) && Continues(floor, start, run)
    ensures |After(floor, start).probes| <= |After(floor, run).probes|
    decreases |run|
  {
    if |run| == |start| {
      assert run == start;
    } else {
      assert start <= run[..|run| - 1];
      PrefixGrows(floor, start, run[..|run| - 1]);
      ProbesStay(floor, After(floor, run[..|run| - 1]), run[|run| - 1]);
    }
  }

  lemma ProbesStay(floor: int, s: System, a: Step)
    requires Enabled(s, a)
    ensures |s.probes| <= |Next(floor, s, a).probes|
  {}

  const FAILED := Probed(Output("unreachable", NO_DETAILS, None), false)

  /** The first time at which a probe could be launched, if the hold-off is delay. */
  function Soonest(n: System, floor: int, at: int, delay: int): int {
    if n.slot.good.Some? && n.slot.goodAt == at && delay == floor then at + floor + 1 else at + delay
  }

  lemma SoonestIsFree(n: System, floor: int, at: int, delay: int, d: int)
    requires GoodFloor(floor) && (n.slot.good.Some? ==> n.slot.goodAt <= at) && floor <= delay < d && !FreshThroughout(floor, n, at, d)
    ensures at + delay <= Soonest(n, floor, at, delay) < at + d
    ensures n.slot.good.Some? ==> floor < Since(Soonest(n, floor, at, delay), n.slot.goodAt)
  {}

  /** A hold-off is broken by a probe of the same identity that still runs, whose own
      result replaces it. */
  lemma OtherBreaks(floor: int, start: seq<Step>, n: System, at: int, delay: int, d: int)
    requires GoodFloor(floor) && Legal(floor, start) && n == After(floor, start)
    requires JustStored(n, at, delay) && OtherRunning(n) && d > floor && !FreshThroughout(floor, n, at, d)
    ensures !HoldsUntil(floor, start, at + d)
  {
    var q :| 0 <= q < |n.probes| && Running(n.probes, q, n.slot.key);
    if n.slot.inflight.Some? { q := n.slot.inflight.value; }
    var run, m := LandFailed(floor, start, n, q);
    var t := Soonest(n, floor, at, floor);
    SoonestIsFree(n, floor, at, floor, d);
    EarlyLaunch(floor, start, run, m, t);
    HoldsLess(floor, start, t + 1, at + d);
  }

  /** A hold-off shorter than d is broken by itself. */
  lemma TooShortBreaks(floor: int, start: seq<Step>, n: System, at: int, delay: int, d: int)
    requires GoodFloor(floor) && Legal(floor, start) && n == After(floor, start)
    requires JustStored(n, at, delay) && !OtherRunning(n) && floor <= delay < d && !FreshThroughout(floor, n, at, d)
    ensures !HoldsUntil(floor, start, at + d)
  {
    var t := Soonest(n, floor, at, delay);
    SoonestIsFree(n, floor, at, delay, d);
    EarlyLaunch(floor, start, start, n, t);
    HoldsLess(floor, start, t + 1, at + d);
  }

  /** Probe q, of the slot's identity, lands and fails. */
  lemma LandFailed(floor: int, start: seq<Step>, n: System, q: nat) returns (run: seq<Step>, m: System)
    requires Legal(floor, start) && n == After(floor, start) && |n.closes| == |n.probes|
    requires Running(n.probes, q, n.slot.key) && (n.slot.inflight.Some? ==> n.slot.inflight.value == q)
    ensures Continues(floor, start, run) && m == After(floor, run) && m.epoch == n.epoch && m.clock == n.clock
    ensures m.slot == n.slot.(last := m.slot.last, nextProbeAt := Some(n.clock + floor), inflight := None)
  {
    run, m := OneMore(floor, start, n, Land(q, FAILED, n.clock));
  }

  lemma HoldsLess(floor: int, start: seq<Step>, limit: int, limit': int)
    requires Legal(floor, start) && limit <= limit'
    ensures HoldsUntil(floor, start, limit') ==> HoldsUntil(floor, start, limit)
  {
    if HoldsUntil(floor, start, limit') {
      forall run | Continues(floor, start, run) ensures LaunchedFrom(After(floor, start), After(floor, run), limit) {
        assert LaunchedFrom(After(floor, start), After(floor, run), limit');
      }
    }
  }

  /** What holds just after a result was stored at time at with this hold-off. */
  predicate JustStored(n: System, at: int, delay: int) {
    && (n.slot.inflight.Some? ==> Running(n.probes, n.slot.inflight.value, n.slot.key))
    && |n.closes| == |n.probes| && n.clock == at && n.slot.nextProbeAt == Some(at + delay)
    && (n.slot.good.Some? ==> n.slot.goodAt <= at)
  }

  lemma AfterStored(floor: int, before: seq<Step>, a: Step, start: seq<Step>, n: System)
    requires Legal(floor, before) && a.Land? && Enabled(After(floor, before), a)
    requires After(floor, before).probes[a.channel].key == After(floor, before).slot.key
    requires start == before + [a] && Legal(floor, start) && n == After(floor, start)
    ensures JustStored(n, a.now, Delay(floor, a.got.out))
  {
    var _, m := OneMore(floor, before, After(floor, before), a);
    Always(floor, start);
    if n.slot.good.Some? { assert n.slot.goodAt == n.probes[n.shown.value.verdict].done.value.at; }
  }

  /** The hold-off, exactly.  After a result is stored, every continuation of the run
      keeps launches of this epoch d away from it if and only if d is at most the
      floor; or at most the result's own hold-off, with no other probe of the
      identity still running; or the slot's verdict alone answers every call until then. */
  lemma HoldExactly(floor: int, before: seq<Step>, a: Step, start: seq<Step>, d: int)
    requires GoodFloor(floor) && Legal(floor, before) && a.Land? && Enabled(After(floor, before), a)
    requires After(floor, before).probes[a.channel].key == After(floor, before).slot.key
    requires start == before + [a] && Legal(floor, start)
    ensures HoldsUntil(floor, start, a.now + d)
       <==> Secure(floor, After(floor, start), a.now, Delay(floor, a.got.out), d)
  {
    AfterStored(floor, before, a, start, After(floor, start));
    DelayAtLeastFloor(floor, a.got.out);
    HoldOf(floor, start, After(floor, start), a.now, Delay(floor, a.got.out), d);
  }

  lemma HoldOf(floor: int, start: seq<Step>, n: System, at: int, delay: int, d: int)
    requires GoodFloor(floor) && Legal(floor, start) && n == After(floor, start)
    requires JustStored(n, at, delay) && delay >= floor
    ensures HoldsUntil(floor, start, at + d) <==> Secure(floor, n, at, delay, d)
  {
    if Secure(floor, n, at, delay, d) {
      SecureHolds(floor, start, n, at, d);
    } else if OtherRunning(n) {
      OtherBreaks(floor, start, n, at, delay, d);
    } else {
      TooShortBreaks(floor, start, n, at, delay, d);
    }
  }

  lemma SecureHolds(floor: int, start: seq<Step>, n: System, at: int, d: int)
    requires GoodFloor(floor) && Legal(floor, start) && n == After(floor, start)
    requires n.clock == at && n.slot.nextProbeAt.Some? && n.slot.nextProbeAt.value >= at + floor
    requires Secure(floor, n, at, n.slot.nextProbeAt.value - at, d)
    ensures HoldsUntil(floor, start, at + d)
  {
    assert forall q | 0 <= q < |n.probes| && Running(n.probes, q, n.slot.key) :: OtherRunning(n);
    assert Barred(floor, n, n, at, d);
    forall run | Continues(floor, start, run) ensures LaunchedFrom(n, After(floor, run), at + d) {
      BarredStays(floor, start, run, at, d);
    }
  }

  lemma WholeSeconds(floor: int, seconds: int)
    requires floor % SECOND == 0
    ensures floor != INT64_MAX && seconds * SECOND != floor + 1
  {}

  /** A 429 hint is honoured in every continuation exactly when it is at most the
      floor, or its nanoseconds fit 64 bits and no other probe of the identity is
      still running, or the slot's verdict alone answers every call until then; the
      last cannot be when the floor is whole seconds, as hints are. */
  lemma HintKeptExactly(floor: int, before: seq<Step>, a: Step, start: seq<Step>)
    requires GoodFloor(floor) && Legal(floor, before) && a.Land? && Enabled(After(floor, before), a)
    requires After(floor, before).probes[a.channel].key == After(floor, before).slot.key
    requires start == before + [a] && Legal(floor, start)
    requires a.got.out.result == "rate_limited" && a.got.out.retryAfterSeconds.Some?
    ensures var hint := a.got.out.retryAfterSeconds.value * SECOND;
            var n := After(floor, start);
            HoldsUntil(floor, start, a.now + hint)
            <==> (hint <= floor || (hint <= INT64_MAX && !OtherRunning(n)) || FreshThroughout(floor, n, a.now, hint))
    ensures floor % SECOND == 0 ==>
              !FreshThroughout(floor, After(floor, start), a.now, a.got.out.retryAfterSeconds.value * SECOND)
  {
    HoldExactly(floor, before, a, start, a.got.out.retryAfterSeconds.value * SECOND);
    HintHonoured(floor, a.got.out);
    if floor % SECOND == 0 { WholeSeconds(floor, a.got.out.retryAfterSeconds.value); }
  }

  // ----- what the source does not promise -----

  function Got(result: string, retryAfter: Option<int>): Probed { Probed(Output(result, NO_DETAILS, retryAfter), false) }

  /** An older probe of the same identity cuts a hint short.  Going from A to B and back
      to A, the second probe of A is told to wait a minute; then the first one lands,
      and seven seconds later A is probed again, in the same epoch. */
  lemma OlderProbeCutsHintShort() returns (run: seq<Step>)
    ensures Legal(FLOOR, run)
    ensures var s := After(FLOOR, run);
            && |s.probes| == 4 && s.probes[2].key == s.probes[3].key == "A" && s.probes[2].epoch == s.probes[3].epoch
            && s.probes[2].done == Some(Done(0, Got("rate_limited", Some(60)))) && s.probes[3].launched == 7 * SECOND
  {
    var hinted, t := Got("rate_limited", Some(60)), 7 * SECOND;
    var s: System;
    run, s := [], START;
    run, s := OneMore(FLOOR, run, s, Arrive(1, "A", 0, 0, 0, 0));
    run, s := OneMore(FLOOR, run, s, Arrive(2, "B", 0, 0, 0, 0));
    run, s := OneMore(FLOOR, run, s, Arrive(3, "A", 0, 0, 0, 0));
    assert s.probes == [Probe("A", 1, 0, None), Probe("B", 2, 0, None), Probe("A", 3, 0, None)];
    run, s := OneMore(FLOOR, run, s, Land(2, hinted, 0));
    assert s.slot.nextProbeAt == Some(60 * SECOND) && s.slot.key == "A" && s.slot.good.None?;
    run, s := OneMore(FLOOR, run, s, Land(0, FAILED, 0));
    assert s.slot == Slot("A", None, 0, s.slot.last, Some(t), None, "A");
    run, s := OneMore(FLOOR, run, s, Arrive(4, "A", 0, t, t, t));
  }

  /** A waiter re-reads the slot under whatever key it then holds: here a caller
      for identity A is told that identity B is claimed. */
  lemma WaiterMaySeeAnotherIdentity(floor: int)
    returns (run: seq<Step>)
    requires GoodFloor(floor)
    ensures Legal(floor, run)
    ensures var r := After(floor, run).replies;
            r != [] && r[|r| - 1].key == "A" && r[|r| - 1].about == "B"
            && r[|r| - 1].response == ResponseFrom(Got("claimed", None).out, 0)
  {
    var s: System;
    run, s := [], START;
    run, s := OneMore(floor, run, s, Arrive(1, "A", 0, 0, 0, 0));
    run, s := OneMore(floor, run, s, Arrive(2, "A", 0, 0, 0, 0));
    assert s.waiting == map[2 := Waiter("A", 0, 1)];
    run, s := OneMore(floor, run, s, Arrive(3, "B", 0, 0, 0, 0));
    assert s.slot == Slot("B", None, 0, None, None, Some(1), "B") && s.waiting == map[2 := Waiter("A", 0, 1)];
    run, s := OneMore(floor, run, s, Land(1, Got("claimed", None), 0));
    assert s.slot.key == "B" && s.slot.last == Some(ResponseFrom(Got("claimed", None).out, 0));
    run, s := OneMore(floor, run, s, Land(0, Got("unclaimed", None), 0));
    assert s.slot.key == "B" && s.slot.last == Some(ResponseFrom(Got("claimed", None).out, 0));
    run, s := OneMore(floor, run, s, Wake(2, false, 0));
  }

  /** The bound is per epoch, not per identity: going from A to B and back, two
      probes for A run at the same instant. */
  lemma ReturnToAnOldKeyProbesAgain(floor: int)
    returns (run: seq<Step>)
    requires GoodFloor(floor)
    ensures Legal(floor, run)
    ensures var ps := After(floor, run).probes;
            |ps| == 3 && ps[0] == Probe("A", 1, 0, None) && ps[2] == Probe("A", 3, 0, None)
  {
    var s: System;
    run, s := [], START;
    run, s := OneMore(floor, run, s, Arrive(1, "A", 0, 0, 0, 0));
    run, s := OneMore(floor, run, s, Arrive(2, "B", 0, 0, 0, 0));
    run, s := OneMore(floor, run, s, Arrive(3, "A", 0, 0, 0, 0));
  }
}

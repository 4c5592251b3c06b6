/** The claim-status cache: one slot, keyed by identity, refreshed by at most one
    probe at a time.  Get gives up its lock while a probe runs, so it is three
    atomic steps: Enter, then Finish for the caller that probes or Wake for one
    that waits.  Times and durations are nanoseconds. */
module ClaimStatus {
  import opened Text

  const SECOND := 1_000_000_000
  const FLOOR := 7 * SECOND
  const INT64_MIN := -0x8000_0000_0000_0000
  const INT64_MAX := 0x7FFF_FFFF_FFFF_FFFF
  const TWO_TO_64 := 0x1_0000_0000_0000_0000

  /** The clock floor is positive and fits a duration. */
  predicate GoodFloor(floor: int) { 0 < floor <= INT64_MAX }

  function Wrap64(x: int): int { (x - INT64_MIN) % TWO_TO_64 + INT64_MIN }

  /** time.Time.Sub: the difference, saturated to a duration. */
  function Since(t: int, u: int): int {
    if t - u > INT64_MAX then INT64_MAX else if t - u < INT64_MIN then INT64_MIN else t - u
  }

  // ----- what a probe reports and what a caller is told -----

  datatype Details = Details(
    registered: Option<bool>, ownerPresent: Option<bool>, version: Option<int>,
    claimable: Option<bool>, claimUnavailableReason: Option<string>, resetUntil: Option<string>,
    lastSeenAt: Option<string>, lastSeenAgeSeconds: Option<int>)

  datatype Output = Output(result: string, details: Details, retryAfterSeconds: Option<int>)

  datatype Probed = Probed(out: Output, failed: bool)

  datatype Response = Response(
    result: string, details: Details, retryAfterSeconds: Option<int>,
    checkedAt: int, stale: bool, error: string)

  const DEFINITIVE: set<string> :=
    {"claimed", "unclaimed", "secret_mismatch", "server_unregistered",
     "unregistered", "secret_invalid", "no_identity", "blocked"}

  const NO_DETAILS := Details(None, None, None, None, None, None, None, None)

  predicate IsDefinitive(result: string) { result in DEFINITIVE }

  predicate Settles(got: Probed) { !got.failed && IsDefinitive(got.out.result) }

  function ResponseFrom(o: Output, at: int): Response {
    Response(o.result, o.details, o.retryAfterSeconds, at, false, "")
  }

  function Unavailable(at: int): Response {
    Response("unavailable", NO_DETAILS, None, at, false, "")
  }

  // ----- the slot -----

  datatype Slot = Slot(
    key: string, good: Option<Response>, goodAt: int, last: Option<Response>,
    nextProbeAt: Option<int>, inflight: Option<nat>, inflightKey: string)

  const EMPTY := Slot("", None, 0, None, None, None, "")

  /** How Enter ends: an answer at once, a channel to wait on, or a probe to run. */
  datatype Entered = Hit(hit: Response) | Guarded(guarded: Response) | Join(channel: nat) | Launch

  function Rekey(s: Slot, key: string): Slot {
    if s.key == key then s
    else s.(key := key, good := None, last := None, goodAt := 0, nextProbeAt := None)
  }

  function Best(s: Slot, now: int): Response {
    if s.last.Some? then s.last.value else if s.good.Some? then s.good.value else Unavailable(now)
  }

  /** t1, t2 and t3 are the readings of the freshness test, the rate guard and
      the synthesized answer; made names the channel a launch would make. */
  function Enter(s: Slot, floor: int, key: string, maxAge: int, t1: int, t2: int, t3: int, made: nat): (Slot, Entered) {
    var r := Rekey(s, key);
    var eff := if maxAge < floor then floor else maxAge;
    if r.good.Some? && Since(t1, r.goodAt) <= eff then (r, Hit(r.good.value))
    else if r.nextProbeAt.Some? && t2 < r.nextProbeAt.value then (r, Guarded(Best(r, t3)))
    else if r.inflight.Some? && r.inflightKey == key then (r, Join(r.inflight.value))
    else (r.(inflight := Some(made), inflightKey := key), Launch)
  }

  /** The hold-off after a result: the floor, or a longer 429 hint.  The hint is
      multiplied out in 64-bit arithmetic. */
  function Delay(floor: int, out: Output): int {
    if out.result == "rate_limited" && out.retryAfterSeconds.Some? then
      var ra := Wrap64(out.retryAfterSeconds.value * SECOND);
      if ra > floor then ra else floor
    else floor
  }

  function Fallback(good: Response, out: Output): Response {
    good.(stale := true, error := out.result, retryAfterSeconds := out.retryAfterSeconds)
  }

  function Store(s: Slot, floor: int, got: Probed, now: int): (Slot, Response) {
    var timed := s.(nextProbeAt := Some(now + Delay(floor, got.out)));
    var resp := ResponseFrom(got.out, now);
    if Settles(got) then (timed.(good := Some(resp), goodAt := now, last := Some(resp)), resp)
    else if s.good.Some? then
      var fallback := Fallback(s.good.value, got.out);
      (timed.(last := Some(fallback)), fallback)
    else (timed.(last := Some(resp)), resp)
  }

  function Finish(s: Slot, floor: int, key: string, channel: nat, got: Probed, now: int): (Slot, Response) {
    var (stored, resp) := if s.key != key then (s, ResponseFrom(got.out, now)) else Store(s, floor, got, now);
    (if stored.inflight == Some(channel) then stored.(inflight := None) else stored, resp)
  }

  class Cache {
    const floor: int
    var key: string
    var good: Option<Response>
    var goodAt: int
    var last: Option<Response>
    var nextProbeAt: Option<int>
    var inflight: Option<nat>
    var inflightKey: string

    ghost function View(): Slot
      reads this
    {
      Slot(key, good, goodAt, last, nextProbeAt, inflight, inflightKey)
    }

    constructor ()
      ensures floor == 7_000_000_000
      ensures key == "" && good.None? && last.None? && nextProbeAt.None? && inflight.None? && View() == EMPTY
    {
      floor := FLOOR;
      key, good, goodAt, last := "", None, 0, None;
      nextProbeAt, inflight, inflightKey := None, None, "";
    }

    method BestLocked(now: int) returns (r: Response)
      ensures r == Best(View(), now)
    {
      if last.Some? { return last.value; }
      if good.Some? { return good.value; }
      r := Unavailable(now);
    }

    method EnterGet(key: string, maxAge: int, t1: int, t2: int, t3: int, made: nat) returns (e: Entered)
      modifies this
      ensures (View(), e) == Enter(old(View()), floor, key, maxAge, t1, t2, t3, made)
    {
      var eff := maxAge;
      if eff < floor { eff := floor; }
      if this.key != key {
        this.key := key;
        good, last, goodAt, nextProbeAt := None, None, 0, None;
      }
      if good.Some? && Since(t1, goodAt) <= eff { return Hit(good.value); }
      if nextProbeAt.Some? && t2 < nextProbeAt.value {
        var r := BestLocked(t3);
        return Guarded(r);
      }
      if inflight.Some? && inflightKey == key { return Join(inflight.value); }
      inflight, inflightKey := Some(made), key;
      e := Launch;
    }

    method FinishGet(key: string, channel: nat, got: Probed, now: int) returns (r: Response)
      modifies this
      ensures (View(), r) == Finish(old(View()), floor, key, channel, got, now)
    {
      if this.key != key {
        r := ResponseFrom(got.out, now);
      } else {
        var delay := floor;
        if got.out.result == "rate_limited" && got.out.retryAfterSeconds.Some? {
          var ra := Wrap64(got.out.retryAfterSeconds.value * SECOND);
          if ra > delay { delay := ra; }
        }
        nextProbeAt := Some(now + delay);
        var resp := ResponseFrom(got.out, now);
        if !got.failed && IsDefinitive(got.out.result) {
          good, goodAt, last := Some(resp), now, Some(resp);
          r := resp;
        } else if good.Some? {
          var fallback := good.value.(stale := true, error := got.out.result,
                                      retryAfterSeconds := got.out.retryAfterSeconds);
          last := Some(fallback);
          r := fallback;
        } else {
          last := Some(resp);
          r := resp;
        }
      }
      if inflight == Some(channel) { inflight := None; }
    }

    method WakeGet(now: int) returns (r: Response)
      ensures r == Best(View(), now)
    {
      r := BestLocked(now);
    }
  }

  /** A 429 hint is honoured in full exactly while its nanoseconds fit 64 bits. */
  lemma HintHonoured(floor: int, out: Output)
    requires GoodFloor(floor) && out.result == "rate_limited" && out.retryAfterSeconds.Some?
    ensures Delay(floor, out) >= out.retryAfterSeconds.value * SECOND
       <==> out.retryAfterSeconds.value * SECOND <= INT64_MAX
  {}

  /** ns is the number reduced to 64 bits, wrapped around q times. */
  predicate Reduced(number: int, ns: int, q: int) {
    -0x8000_0000_0000_0000 <= ns < 0x8000_0000_0000_0000 && number == ns + q * 0x1_0000_0000_0000_0000
  }

  /** The hold-off in full: the floor, unless a 429 came with a hint that, reduced to 64
      bits in nanoseconds, is more. */
  lemma DelayExactly(floor: int, out: Output)
    ensures !(out.result == "rate_limited" && out.retryAfterSeconds.Some?) ==> Delay(floor, out) == floor
    ensures out.result == "rate_limited" && out.retryAfterSeconds.Some? ==>
              exists ns, q :: Reduced(out.retryAfterSeconds.value * 1_000_000_000, ns, q)
                && Delay(floor, out) == if ns > floor then ns else floor
  {
    if out.result == "rate_limited" && out.retryAfterSeconds.Some? {
      var hint := out.retryAfterSeconds.value * 1_000_000_000;
      assert Reduced(hint, Wrap64(hint), (hint - INT64_MIN) / TWO_TO_64);
    }
  }

  /** Every hold-off is at least the floor. */
  lemma DelayAtLeastFloor(floor: int, out: Output)
    ensures Delay(floor, out) >= floor
  {}
}

/** The login throttle: a lazily pruned window of failures, against the full
    record of them.  Times are integers on one non-decreasing clock. */
module Lockout {
  import opened Text

  datatype Config = Config(threshold: int, window: int, duration: int)

  /** What the throttle holds: the failures not yet dropped, and the lock. */
  datatype Throttle = Throttle(failures: seq<int>, lockedUntil: Option<int>)

  const OPEN := Throttle([], None)

  predicate Locked(lockedUntil: Option<int>, now: int) {
    lockedUntil.Some? && now < lockedUntil.value
  }

  /** The entries of s later than cutoff, in order. */
  function After(s: seq<int>, cutoff: int): seq<int> {
    if s == [] then []
    else After(s[..|s| - 1], cutoff) + (if s[|s| - 1] > cutoff then [s[|s| - 1]] else [])
  }

  function Record(cfg: Config, t: Throttle, now: int): (Throttle, Option<int>) {
    if Locked(t.lockedUntil, now) then (t, t.lockedUntil)
    else
      var failures := After(t.failures, now - cfg.window) + [now];
      if |failures| >= cfg.threshold then
        (Throttle([], Some(now + cfg.duration)), Some(now + cfg.duration))
      else (t.(failures := failures), None)
  }

  // ----- the throttle of the source, filtering its buffer in place -----

  class LoginThrottle {
    const cfg: Config
    var buffer: array<int>
    var length: nat
    var lockedUntil: Option<int>

    ghost predicate Valid()
      reads this
    {
      length <= buffer.Length
    }

    ghost function View(): Throttle
      requires Valid()
      reads this, buffer
    {
      Throttle(buffer[..length], lockedUntil)
    }

    constructor (cfg: Config)
      ensures Valid() && this.cfg == cfg && View() == OPEN && fresh(buffer)
      ensures length == 0 && lockedUntil.None?
    {
      this.cfg := cfg;
      buffer, length, lockedUntil := new int[0], 0, None;
    }

    method IsLocked(now: int) returns (until: Option<int>)
      requires Valid()
      ensures until == if lockedUntil.Some? && now < lockedUntil.value then lockedUntil else None
    {
      until := if lockedUntil.Some? && now < lockedUntil.value then lockedUntil else None;
    }

    method RecordFailure(now: int) returns (until: Option<int>)
      requires Valid()
      modifies this, buffer
      ensures Valid() && (buffer == old(buffer) || fresh(buffer))
      ensures (View(), until) == Record(cfg, old(View()), now)
    {
      if lockedUntil.Some? && now < lockedUntil.value { return lockedUntil; }
      ghost var recorded := After(View().failures, now - cfg.window) + [now];
      var kept := KeepAfter(now - cfg.window);
      Append(kept, now);
      assert View().failures == recorded && |recorded| == length;
      if length >= cfg.threshold {
        lockedUntil := Some(now + cfg.duration);
        buffer, length := new int[0], 0;
        assert View() == Throttle([], Some(now + cfg.duration));
        return lockedUntil;
      }
      return None;
    }

    /** kept shares the buffer it is filtered from. */
    method KeepAfter(cutoff: int) returns (kept: nat)
      requires Valid()
      modifies buffer
      ensures kept <= length && buffer[..kept] == After(old(buffer[..length]), cutoff)
    {
      kept := 0;
      ghost var was := buffer[..length];
      for i := 0 to length
        invariant kept <= i
        invariant buffer[..kept] == After(was[..i], cutoff)
        invariant forall j | i <= j < length :: buffer[j] == was[j]
      {
        assert was[..i + 1][..i] == was[..i];
        if buffer[i] > cutoff {
          buffer[kept] := buffer[i];
          kept := kept + 1;
        }
      }
      assert was[..length] == was;
    }

    /** Go's append: in place while there is room, otherwise into a larger copy. */
    method Append(kept: nat, now: int)
      requires Valid() && kept <= length
      modifies this, buffer
      ensures Valid() && (buffer == old(buffer) || fresh(buffer))
      ensures buffer[..length] == old(buffer[..kept]) + [now] && lockedUntil == old(lockedUntil)
    {
      if kept == buffer.Length {
        var larger := new int[2 * kept + 1];
        forall i | 0 <= i < kept { larger[i] := buffer[i]; }
        buffer := larger;
      }
      buffer[kept] := now;
      length := kept + 1;
    }

    method Reset()
      modifies this
      ensures Valid() && fresh(buffer) && View() == OPEN && length == 0 && lockedUntil.None?
    {
      buffer, length, lockedUntil := new int[0], 0, None;
    }
  }

  // ----- runs -----

  datatype Call = Failure(at: int) | Reset(at: int)

  predicate Ordered(run: seq<Call>) {
    forall i, j | 0 <= i < j < |run| :: run[i].at <= run[j].at
  }

  function Step(cfg: Config, t: Throttle, c: Call): Throttle {
    match c case Failure(at) => Record(cfg, t, at).0 case Reset(_) => OPEN
  }

  function Run(cfg: Config, run: seq<Call>): Throttle {
    if run == [] then OPEN else Step(cfg, Run(cfg, run[..|run| - 1]), run[|run| - 1])
  }

  /** The answer RecordFailure gives at the end of run. */
  function Answer(cfg: Config, run: seq<Call>, now: int): Option<int> {
    Record(cfg, Run(cfg, run), now).1
  }

  // ----- the full record: nothing is ever pruned -----

  /** The counted failures since the last reset: those before the last lock are
      settled, those after it pending; and the times of the locks. */
  datatype Book = Book(settled: seq<int>, pending: seq<int>, lockedUntil: Option<int>, locks: seq<int>)
  {
    function Counted(): seq<int> { settled + pending }
  }

  const BLANK := Book([], [], None, [])

  /** How many entries lie in (lo, hi]. */
  function CountIn(s: seq<int>, lo: int, hi: int): nat {
    if s == [] then 0
    else CountIn(s[..|s| - 1], lo, hi) + (if lo < s[|s| - 1] <= hi then 1 else 0)
  }

  function Note(cfg: Config, b: Book, c: Call): Book {
    match c
    case Reset(_) => BLANK
    case Failure(at) =>
      if Locked(b.lockedUntil, at) then b
      else if CountIn(b.pending, at - cfg.window, at) + 1 >= cfg.threshold then
        Book(b.settled + (b.pending + [at]), [], Some(at + cfg.duration), b.locks + [at])
      else b.(pending := b.pending + [at])
  }

  function Notes(cfg: Config, run: seq<Call>): Book {
    if run == [] then BLANK else Note(cfg, Notes(cfg, run[..|run| - 1]), run[|run| - 1])
  }

  lemma {:induction false} AfterIsCount(s: seq<int>, lo: int, hi: int)
    requires forall i | 0 <= i < |s| :: s[i] <= hi
    ensures |After(s, lo)| == CountIn(s, lo, hi)
  {
    if s != [] { AfterIsCount(s[..|s| - 1], lo, hi); }
  }

  lemma {:induction false} AfterAfter(s: seq<int>, lo: int, lo': int)
    requires lo <= lo'
    ensures After(After(s, lo), lo') == After(s, lo')
  {
    if s != [] {
      var init, last := s[..|s| - 1], s[|s| - 1];
      AfterAfter(init, lo, lo');
      if last > lo {
        assert After(s, lo)[..|After(s, lo)| - 1] == After(init, lo);
      } else {
        assert After(s, lo) == After(init, lo);
      }
    }
  }

  /** The stored list is the full pending record with a prefix of the window
      already dropped: at every later cutoff the two agree. */
  ghost predicate Refines(cfg: Config, t: Throttle, b: Book, now: int) {
    && t.lockedUntil == b.lockedUntil
    && (forall i | 0 <= i < |b.pending| :: b.pending[i] <= now)
    && (forall cut | cut >= now - cfg.window :: After(t.failures, cut) == After(b.pending, cut))
  }

  lemma RefinesStep(cfg: Config, t: Throttle, b: Book, was: int, c: Call)
    requires was <= c.at && Refines(cfg, t, b, was)
    ensures Refines(cfg, Step(cfg, t, c), Note(cfg, b, c), c.at)
  {
    if c.Failure? && !Locked(b.lockedUntil, c.at) {
      var lo := c.at - cfg.window;
      var kept := After(t.failures, lo);
      var pending := b.pending + [c.at];
      assert kept == After(b.pending, lo);
      assert pending[..|pending| - 1] == b.pending;
      AfterIsCount(b.pending, lo, c.at);
      forall cut | cut >= lo ensures After(kept + [c.at], cut) == After(pending, cut) {
        assert (kept + [c.at])[..|kept|] == kept;
        AfterAfter(b.pending, lo, cut);
      }
    }
  }

  lemma {:induction false} RunRefines(cfg: Config, run: seq<Call>, now: int)
    requires Ordered(run) && (run != [] ==> run[|run| - 1].at <= now)
    ensures Refines(cfg, Run(cfg, run), Notes(cfg, run), now)
  {
    if run != [] {
      var init, last := run[..|run| - 1], run[|run| - 1];
      RunRefines(cfg, init, last.at);
      RefinesStep(cfg, Run(cfg, init), Notes(cfg, init), last.at, last);
    }
  }

  lemma AnswerAgrees(cfg: Config, t: Throttle, b: Book, now: int)
    requires Refines(cfg, t, b, now)
    ensures Record(cfg, t, now).1 == BookAnswer(cfg, b, now)
  {
    AfterIsCount(b.pending, now - cfg.window, now);
  }

  function BookAnswer(cfg: Config, b: Book, now: int): Option<int> {
    if b.lockedUntil.Some? && now < b.lockedUntil.value then b.lockedUntil
    else if CountIn(b.pending, now - cfg.window, now) + 1 >= cfg.threshold then Some(now + cfg.duration)
    else None
  }

  lemma BookCounts(cfg: Config, b: Book, now: int)
    ensures cfg.window > 0 && !Locked(b.lockedUntil, now) ==>
              (BookAnswer(cfg, b, now).Some? <==> CountIn(b.pending + [now], now - cfg.window, now) >= cfg.threshold)
  {
    CountsItself(b.pending, cfg.window, now);
  }

  /** Lazy pruning answers like the full record.  A failure reported at now is
      answered with the running lock when there is one, never a later time;
      otherwise it locks exactly when, with it, at least threshold counted
      failures since the last lock or reset fall in the window. */
  lemma LocksExactly(cfg: Config, run: seq<Call>, now: int)
    requires Ordered(run) && (run != [] ==> run[|run| - 1].at <= now)
    ensures Answer(cfg, run, now) == BookAnswer(cfg, Notes(cfg, run), now)
    ensures var b := Notes(cfg, run);
            cfg.window > 0 && !Locked(b.lockedUntil, now) ==>
              (Answer(cfg, run, now).Some? <==> CountIn(b.pending + [now], now - cfg.window, now) >= cfg.threshold)
  {
    RunRefines(cfg, run, now);
    AnswerAgrees(cfg, Run(cfg, run), Notes(cfg, run), now);
    BookCounts(cfg, Notes(cfg, run), now);
  }

  /** With a window that is not empty, the failure itself is among those counted. */
  lemma CountsItself(s: seq<int>, window: int, now: int)
    ensures CountIn(s + [now], now - window, now) == CountIn(s, now - window, now) + 1 <==> window > 0
  {}

  /** The stored list never reaches the threshold. */
  lemma {:induction false} StoredIsShort(cfg: Config, run: seq<Call>)
    requires cfg.threshold >= 1
    ensures |Run(cfg, run).failures| < cfg.threshold
  {
    if run != [] { StoredIsShort(cfg, run[..|run| - 1]); }
  }

  // ----- density -----

  /** In order, and none later than now. */
  predicate Ascending(s: seq<int>, now: int) {
    s == [] || (s[|s| - 1] <= now && Ascending(s[..|s| - 1], s[|s| - 1]))
  }

  /** Every entry closes a window that holds at most k entries up to itself. */
  predicate Sparse(s: seq<int>, window: int, k: int) {
    s == [] || (CountIn(s, s[|s| - 1] - window, s[|s| - 1]) <= k && Sparse(s[..|s| - 1], window, k))
  }

  /** Neighbours are at least gap apart. */
  predicate Apart(s: seq<int>, gap: int) {
    |s| <= 1 || (s[|s| - 1] - s[|s| - 2] >= gap && Apart(s[..|s| - 1], gap))
  }

  predicate LockShape(cfg: Config, b: Book) {
    if b.locks == [] then b.settled == [] && b.lockedUntil.None?
    else
      var at := b.locks[|b.locks| - 1];
      b.lockedUntil == Some(at + cfg.duration) && Ascending(b.settled, at)
  }

  predicate BookShape(cfg: Config, b: Book, now: int) {
    && LockShape(cfg, b)
    && Ascending(b.pending, now)
    && Ascending(b.Counted(), now)
    && CountIn(b.pending, now - cfg.window, now) < cfg.threshold
    && Sparse(b.Counted(), cfg.window, cfg.threshold)
    && Apart(b.locks, cfg.duration)
  }

  lemma {:induction false} CountConcat(a: seq<int>, b: seq<int>, lo: int, hi: int)
    ensures CountIn(a + b, lo, hi) == CountIn(a, lo, hi) + CountIn(b, lo, hi)
  {
    if b == [] {
      assert a + b == a;
    } else {
      CountConcat(a, b[..|b| - 1], lo, hi);
      assert (a + b)[..|a + b| - 1] == a + b[..|b| - 1];
    }
  }

  lemma {:induction false} CountNone(s: seq<int>, lo: int, hi: int)
    requires Ascending(s, lo)
    ensures CountIn(s, lo, hi) == 0
  {
    if s != [] { CountNone(s[..|s| - 1], lo, hi); }
  }

  /** A later window over the same entries holds no more of them. */
  lemma {:induction false} CountMonotone(s: seq<int>, lo: int, hi: int, lo': int, hi': int)
    requires lo <= lo' && Ascending(s, hi)
    ensures CountIn(s, lo', hi') <= CountIn(s, lo, hi)
  {
    if s != [] { CountMonotone(s[..|s| - 1], lo, hi, lo', hi'); }
  }

  lemma Grown(s: seq<int>, x: int, now: int, lo: int, hi: int)
    requires Ascending(s, now) && now <= x
    ensures Ascending(s + [x], x)
    ensures CountIn(s + [x], lo, hi) == CountIn(s, lo, hi) + (if lo < x <= hi then 1 else 0)
  {}

  lemma SparseGrown(s: seq<int>, x: int, window: int, k: int)
    requires Sparse(s, window, k) && CountIn(s + [x], x - window, x) <= k
    ensures Sparse(s + [x], window, k)
  {}

  /** Whether or not it locks, a failure that finds no lock joins the counted ones. */
  lemma CountedNext(cfg: Config, b: Book, at: int)
    requires !Locked(b.lockedUntil, at)
    ensures Note(cfg, b, Failure(at)).Counted() == b.Counted() + [at]
  {}

  lemma CountedGrows(cfg: Config, b: Book, was: int, at: int)
    requires cfg.duration >= cfg.window && was <= at && cfg.threshold >= 1
    requires BookShape(cfg, b, was) && !Locked(b.lockedUntil, at)
    ensures CountIn(b.pending, at - cfg.window, at) < cfg.threshold
    ensures Sparse(b.Counted() + [at], cfg.window, cfg.threshold)
    ensures Ascending(b.Counted() + [at], at)
  {
    var lo := at - cfg.window;
    CountMonotone(b.pending, was - cfg.window, was, lo, at);
    CountConcat(b.settled, b.pending, lo, at);
    CountNone(b.settled, lo, at);
    Grown(b.Counted(), at, was, lo, at);
    SparseGrown(b.Counted(), at, cfg.window, cfg.threshold);
  }

  lemma LockStep(cfg: Config, b: Book, at: int)
    requires cfg.threshold >= 1 && !Locked(b.lockedUntil, at)
    requires LockShape(cfg, b) && Apart(b.locks, cfg.duration)
    requires Sparse(b.Counted() + [at], cfg.window, cfg.threshold) && Ascending(b.Counted() + [at], at)
    requires CountIn(b.pending, at - cfg.window, at) + 1 >= cfg.threshold
    ensures BookShape(cfg, Note(cfg, b, Failure(at)), at)
  {
    ApartStep(cfg, b, at);
    Regroup(b.settled, b.pending, at);
    Fresh(cfg, b.Counted() + [at], b.locks + [at], at);
  }

  lemma Regroup(a: seq<int>, b: seq<int>, x: int)
    ensures a + (b + [x]) == (a + b) + [x]
  {}

  lemma ApartStep(cfg: Config, b: Book, at: int)
    requires LockShape(cfg, b) && Apart(b.locks, cfg.duration) && !Locked(b.lockedUntil, at)
    ensures Apart(b.locks + [at], cfg.duration)
  {}

  lemma Fresh(cfg: Config, settled: seq<int>, locks: seq<int>, at: int)
    requires locks != [] && locks[|locks| - 1] == at && Apart(locks, cfg.duration)
    requires Ascending(settled, at) && Sparse(settled, cfg.window, cfg.threshold) && cfg.threshold >= 1
    ensures BookShape(cfg, Book(settled, [], Some(at + cfg.duration), locks), at)
  {
    assert settled + [] == settled;
  }

  lemma PendStep(cfg: Config, b: Book, was: int, at: int)
    requires was <= at && cfg.threshold >= 1 && cfg.duration >= cfg.window
    requires BookShape(cfg, b, was) && !Locked(b.lockedUntil, at)
    requires CountIn(b.pending, at - cfg.window, at) + 1 < cfg.threshold
    ensures BookShape(cfg, Note(cfg, b, Failure(at)), at)
  {
    CountedGrows(cfg, b, was, at);
    CountedNext(cfg, b, at);
    Grown(b.pending, at, was, at - cfg.window, at);
    assert Note(cfg, b, Failure(at)) == b.(pending := b.pending + [at]);
  }

  lemma ShapeStep(cfg: Config, b: Book, was: int, at: int)
    requires cfg.threshold >= 1 && cfg.duration >= cfg.window
    requires was <= at && BookShape(cfg, b, was)
    ensures BookShape(cfg, Note(cfg, b, Failure(at)), at)
  {
    if Locked(b.lockedUntil, at) {
      CountMonotone(b.pending, was - cfg.window, was, at - cfg.window, at);
    } else if CountIn(b.pending, at - cfg.window, at) + 1 >= cfg.threshold {
      CountedGrows(cfg, b, was, at);
      LockStep(cfg, b, at);
    } else {
      PendStep(cfg, b, was, at);
    }
  }

  lemma {:induction false} RunShape(cfg: Config, run: seq<Call>, now: int)
    requires cfg.threshold >= 1 && cfg.duration >= cfg.window
    requires Ordered(run) && (run != [] ==> run[|run| - 1].at <= now)
    ensures BookShape(cfg, Notes(cfg, run), now)
  {
    if run != [] {
      var init, last := run[..|run| - 1], run[|run| - 1];
      RunShape(cfg, init, last.at);
      if last.Failure? { ShapeStep(cfg, Notes(cfg, init), last.at, last.at); }
      Later(cfg, Notes(cfg, run), last.at, now);
    }
  }

  lemma Later(cfg: Config, b: Book, was: int, now: int)
    requires was <= now && BookShape(cfg, b, was)
    ensures BookShape(cfg, b, now)
  {
    CountMonotone(b.pending, was - cfg.window, was, now - cfg.window, now);
  }

  /** A sparse record in order puts at most k entries in any half-open span of one window. */
  lemma {:induction false} SparseIsDense(s: seq<int>, window: int, k: nat, from: int, now: int)
    requires Ascending(s, now) && Sparse(s, window, k)
    ensures CountIn(s, from, from + window) <= k
  {
    if s != [] {
      var init, last := s[..|s| - 1], s[|s| - 1];
      if from < last <= from + window {
        CountMonotone(s, last - window, last, from, from + window);
      } else {
        SparseIsDense(init, window, k, from, last);
      }
    }
  }

  /** No half-open span of one window holds more than threshold counted failures. */
  predicate Dense(cfg: Config, run: seq<Call>, from: int) {
    CountIn(Notes(cfg, run).Counted(), from, from + cfg.window) <= cfg.threshold
  }

  /** The density bound, since the last reset of any run; and locks are at least
      duration apart. */
  lemma Density(cfg: Config, run: seq<Call>, from: int)
    requires cfg.threshold >= 1 && cfg.duration >= cfg.window && Ordered(run)
    ensures Dense(cfg, run, from)
    ensures Apart(Notes(cfg, run).locks, cfg.duration)
  {
    var now := if run == [] then 0 else run[|run| - 1].at;
    RunShape(cfg, run, now);
    SparseIsDense(Notes(cfg, run).Counted(), cfg.window, cfg.threshold, from, now);
  }

  // ----- the bound needs the lock to outlast the window -----

  function Burst(n: nat): seq<Call> { seq(n, i => Failure(0)) }

  function Zeros(n: nat): seq<int> { seq(n, i => 0) }

  lemma {:induction false} ZerosCount(n: nat, lo: int, hi: int)
    requires lo < 0 <= hi
    ensures CountIn(Zeros(n), lo, hi) == n
  {
    if n > 0 {
      ZerosCount(n - 1, lo, hi);
      assert Zeros(n)[..n - 1] == Zeros(n - 1);
    }
  }

  function BurstBookOf(cfg: Config, n: nat): Book {
    if 0 < n == cfg.threshold then Book(Zeros(n), [], Some(cfg.duration), [0])
    else Book([], Zeros(n), None, [])
  }

  lemma {:induction false} BurstBook(cfg: Config, n: nat)
    requires n <= cfg.threshold && cfg.window > 0
    ensures Notes(cfg, Burst(n)) == BurstBookOf(cfg, n)
  {
    if n > 0 {
      BurstBook(cfg, n - 1);
      assert Burst(n)[..n - 1] == Burst(n - 1) && Burst(n)[n - 1] == Failure(0);
      assert Notes(cfg, Burst(n)) == Note(cfg, BurstBookOf(cfg, n - 1), Failure(0));
      BurstNote(cfg, n - 1);
    }
  }

  lemma BurstNote(cfg: Config, n: nat)
    requires n < cfg.threshold && cfg.window > 0
    ensures Note(cfg, Book([], Zeros(n), None, []), Failure(0)) == BurstBookOf(cfg, n + 1)
  {
    ZerosCount(n, -cfg.window, 0);
    assert Zeros(n + 1) == Zeros(n) + [0];
    assert [] + Zeros(n + 1) == Zeros(n + 1);
  }

  /** For a real window and threshold, the density bound holds of every run
      exactly when the lock lasts at least as long as the window. */
  lemma DensityNeedsDuration(cfg: Config)
    requires cfg.threshold >= 1 && cfg.window > 0
    ensures (forall run, from :: Ordered(run) ==> Dense(cfg, run, from)) <==> cfg.duration >= cfg.window
  {
    if cfg.duration >= cfg.window {
      forall run, from | Ordered(run) ensures Dense(cfg, run, from) {
        Density(cfg, run, from);
      }
    } else {
      var again := if cfg.duration > 0 then cfg.duration else 0;
      var run := Burst(cfg.threshold) + [Failure(again)];
      assert run[..|run| - 1] == Burst(cfg.threshold);
      BurstBook(cfg, cfg.threshold);
      ZerosCount(cfg.threshold, -1, -1 + cfg.window);
      assert Ordered(run);
      var b := Notes(cfg, Burst(cfg.threshold));
      CountedNext(cfg, b, again);
      CountConcat(b.Counted(), [again], -1, -1 + cfg.window);
      assert [again][..0] == [];
      assert b.Counted() == Zeros(cfg.threshold);
      assert !Dense(cfg, run, -1);
    }
  }
}

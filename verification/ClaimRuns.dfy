/** Runs of the claim-status cache: any number of callers, every interleaving of
    their atomic steps, with the history the guarantees are about. */
module ClaimRuns {
  import opened Text
  import opened ClaimStatus

  datatype Done = Done(at: int, got: Probed)

  /** One probe; its place in the history names the channel its launch made.
      An epoch is a stretch of the run between two changes of the slot's key. */
  datatype Probe = Probe(key: string, epoch: nat, launched: int, done: Option<Done>)

  /** Where an answer comes from: the probe whose verdict is shown, and the one
      whose outcome flags it (the same one unless the answer is a stale fallback). */
  datatype Shown = Shown(verdict: nat, refresh: nat)

  datatype Waiter = Waiter(key: string, channel: nat, joined: nat)

  /** Orphan: the caller's own result, after the slot moved to another identity. */
  datatype Via = Fresh | Guard | Own | Orphan | Coalesced(joined: nat, closed: bool)

  /** about: the identity of the slot the answer was read from, or of the caller's
      own probe. */
  datatype Reply = Reply(key: string, about: string, via: Via, epoch: nat, origin: Option<Shown>, at: int, response: Response)

  datatype System = System(
    slot: Slot, epoch: nat, clock: int, probes: seq<Probe>, closes: seq<nat>,
    waiting: map<nat, Waiter>, shown: Option<Shown>, replies: seq<Reply>)

  datatype Step =
    | Arrive(caller: nat, key: string, maxAge: int, t1: int, t2: int, t3: int)
    | Land(channel: nat, got: Probed, now: int)
    | Wake(caller: nat, cancelled: bool, now: int)

  const START := System(EMPTY, 0, 0, [], [], map[], None, [])

  predicate Enabled(s: System, a: Step) {
    match a
    case Arrive(caller, _, _, t1, t2, t3) => caller !in s.waiting && s.clock <= t1 <= t2 <= t3
    case Land(ch, _, now) => ch < |s.probes| == |s.closes| && s.probes[ch].done.None? && s.clock <= now
    case Wake(caller, cancelled, now) =>
      && caller in s.waiting && s.clock <= now
      && (cancelled || (s.waiting[caller].channel < |s.closes| && s.closes[s.waiting[caller].channel] > 0))
  }

  function AfterArrive(floor: int, s: System, a: Step): System
    requires a.Arrive?
  {
    var (slot, entered) := Enter(s.slot, floor, a.key, a.maxAge, a.t1, a.t2, a.t3, |s.probes|);
    var moved := s.slot.key != a.key;
    var epoch := if moved then s.epoch + 1 else s.epoch;
    var shown := if moved then None else s.shown;
    var t := s.(slot := slot, epoch := epoch, shown := shown, clock := a.t3);
    match entered
    case Hit(r) =>
      var verdict := match shown case None => None case Some(sh) => Some(Shown(sh.verdict, sh.verdict));
      t.(replies := s.replies + [Reply(a.key, a.key, Fresh, epoch, verdict, a.t3, r)])
    case Guarded(r) => t.(replies := s.replies + [Reply(a.key, a.key, Guard, epoch, shown, a.t3, r)])
    case Join(ch) => t.(waiting := s.waiting[a.caller := Waiter(a.key, ch, epoch)])
    case Launch => t.(probes := s.probes + [Probe(a.key, epoch, a.t2, None)], closes := s.closes + [0])
  }

  function AfterLand(floor: int, s: System, a: Step): System
    requires a.Land? && Enabled(s, a)
  {
    var p := s.probes[a.channel];
    var (slot, r) := Finish(s.slot, floor, p.key, a.channel, a.got, a.now);
    var orphan := s.slot.key != p.key;
    var own := if !Settles(a.got) && s.slot.good.Some? && s.shown.Some? then Shown(s.shown.value.verdict, a.channel)
               else Shown(a.channel, a.channel);
    var origin := if orphan then Shown(a.channel, a.channel) else own;
    s.(slot := slot, clock := a.now,
       probes := s.probes[a.channel := p.(done := Some(Done(a.now, a.got)))],
       closes := s.closes[a.channel := s.closes[a.channel] + 1],
       shown := if orphan then s.shown else Some(own),
       replies := s.replies + [Reply(p.key, p.key, if orphan then Orphan else Own, s.epoch, Some(origin), a.now, r)])
  }

  function AfterWake(s: System, a: Step): System
    requires a.Wake? && Enabled(s, a)
  {
    var w := s.waiting[a.caller];
    var closed := w.channel < |s.closes| && s.closes[w.channel] > 0;
    s.(clock := a.now, waiting := s.waiting - {a.caller},
       replies := s.replies
         + [Reply(w.key, s.slot.key, Coalesced(w.joined, closed), s.epoch, s.shown, a.now, Best(s.slot, a.now))])
  }

  function Next(floor: int, s: System, a: Step): System
    requires Enabled(s, a)
  {
    match a
    case Arrive(_, _, _, _, _, _) => AfterArrive(floor, s, a)
    case Land(_, _, _) => AfterLand(floor, s, a)
    case Wake(_, _, _) => AfterWake(s, a)
  }

  // ----- the invariant -----

  predicate Finished(ps: seq<Probe>, i: nat) { i < |ps| && ps[i].done.Some? }

  predicate Sourced(ps: seq<Probe>, sh: Shown, key: string) {
    && Finished(ps, sh.verdict) && Finished(ps, sh.refresh)
    && ps[sh.verdict].key == key && ps[sh.refresh].key == key
  }

  /** The answer an origin stands for. */
  function Render(ps: seq<Probe>, sh: Shown): Response
    requires Finished(ps, sh.verdict) && Finished(ps, sh.refresh)
  {
    var v, r := ps[sh.verdict].done.value, ps[sh.refresh].done.value;
    var base := ResponseFrom(v.got.out, v.at);
    if sh.verdict == sh.refresh then base else Fallback(base, r.got.out)
  }

  /** Bookkeeping of the history: epochs, times, and one close per channel. */
  ghost predicate History(s: System) {
    && |s.closes| == |s.probes|
    && (forall i | 0 <= i < |s.probes| :: s.closes[i] == if s.probes[i].done.Some? then 1 else 0)
    && (forall i | 0 <= i < |s.probes| ::
          && s.probes[i].epoch <= s.epoch && s.probes[i].launched <= s.clock
          && (s.probes[i].epoch == s.epoch ==> s.probes[i].key == s.slot.key)
          && (s.probes[i].done.Some? ==> s.probes[i].launched <= s.probes[i].done.value.at <= s.clock))
  }

  /** The slot's probe is of the current epoch and running, and no other such is. */
  ghost predicate Flight(s: System) {
    && (s.slot.inflight.Some? ==>
          && s.slot.inflight.value < |s.probes| && s.slot.inflightKey == s.slot.key
          && s.probes[s.slot.inflight.value].epoch == s.epoch
          && s.probes[s.slot.inflight.value].done.None?)
    && (forall i | 0 <= i < |s.probes| ::
          s.probes[i].epoch == s.epoch && s.probes[i].done.None? ==> s.slot.inflight == Some(i))
  }

  /** After a result of the current epoch the next probe waits at least the floor. */
  ghost predicate Held(floor: int, s: System) {
    forall i | 0 <= i < |s.probes| ::
      s.probes[i].epoch == s.epoch && s.probes[i].done.Some? ==>
        s.slot.nextProbeAt.Some? && s.slot.nextProbeAt.value >= s.probes[i].done.value.at + floor
  }

  /** The slot holds probes off by the result stored last in the epoch: the one that
      flags its answer. */
  predicate HeldByLast(floor: int, s: System) {
    match s.shown
    case None => s.slot.nextProbeAt.None?
    case Some(sh) =>
      Finished(s.probes, sh.refresh)
      && var r := s.probes[sh.refresh].done.value; s.slot.nextProbeAt == Some(r.at + Delay(floor, r.got.out))
  }

  /** Within an epoch a probe is launched only the floor after the one before it landed. */
  ghost predicate Spaced(floor: int, ps: seq<Probe>) {
    forall i, j | 0 <= i < j < |ps| ::
      && ps[i].epoch <= ps[j].epoch
      && (ps[i].epoch == ps[j].epoch ==> ps[i].done.Some? && ps[j].launched >= ps[i].done.value.at + floor)
  }

  /** last shows its origin, and good is the verdict behind it. */
  predicate Kept(s: System) {
    && (s.slot.last.Some? <==> s.shown.Some?)
    && (s.slot.good.Some? ==> s.slot.last.Some?)
    && (s.shown.Some? ==>
          var sh := s.shown.value;
          && Sourced(s.probes, sh, s.slot.key)
          && s.slot.last == Some(Render(s.probes, sh))
          && var v := s.probes[sh.verdict].done.value;
             if s.slot.good.Some? then
               Settles(v.got) && s.slot.good == Some(ResponseFrom(v.got.out, v.at)) && s.slot.goodAt == v.at
             else sh.verdict == sh.refresh && !Settles(v.got))
  }

  ghost predicate Waiters(s: System) {
    forall c | c in s.waiting ::
      var w := s.waiting[c];
      && w.channel < |s.probes|
      && s.probes[w.channel].key == w.key && s.probes[w.channel].epoch == w.joined
  }

  predicate ReplyOk(ps: seq<Probe>, r: Reply) {
    && (r.origin.Some? ==> Sourced(ps, r.origin.value, r.about) && r.response == Render(ps, r.origin.value))
    && (r.origin.None? ==> r.response == Unavailable(r.at))
    && (!r.via.Coalesced? ==> r.about == r.key && r.origin.Some?)
    && (r.via.Coalesced? && r.via.closed && r.via.joined == r.epoch ==> r.about == r.key && r.origin.Some?)
  }

  ghost predicate Replies(s: System) {
    forall i | 0 <= i < |s.replies| :: ReplyOk(s.probes, s.replies[i])
  }

  ghost predicate Inv(floor: int, s: System) {
    && History(s) && Flight(s) && Held(floor, s) && Spaced(floor, s.probes)
    && HeldByLast(floor, s) && Kept(s) && Waiters(s) && Replies(s)
  }

  // ----- every step keeps the invariant -----

  /** Probes only get added, or finished. */
  ghost predicate Grows(ps: seq<Probe>, qs: seq<Probe>) {
    && |ps| <= |qs|
    && (forall i | 0 <= i < |ps| ::
          && qs[i].key == ps[i].key && qs[i].epoch == ps[i].epoch && qs[i].launched == ps[i].launched
          && (ps[i].done.Some? ==> qs[i].done == ps[i].done))
  }

  lemma OriginStays(ps: seq<Probe>, qs: seq<Probe>, sh: Shown, key: string)
    requires Grows(ps, qs) && Sourced(ps, sh, key)
    ensures Sourced(qs, sh, key) && Render(qs, sh) == Render(ps, sh)
  {}

  lemma RepliesStep(s: System, ps: seq<Probe>, r: Reply)
    requires Replies(s) && Grows(s.probes, ps) && ReplyOk(ps, r)
    ensures forall i | 0 <= i < |s.replies + [r]| :: ReplyOk(ps, (s.replies + [r])[i])
  {}

  lemma RepliesKept(s: System, ps: seq<Probe>)
    requires Replies(s) && Grows(s.probes, ps)
    ensures forall i | 0 <= i < |s.replies| :: ReplyOk(ps, s.replies[i])
  {}

  /** A caller who finds another key in the slot always launches. */
  lemma MoveLaunches(floor: int, s: System, a: Step)
    requires a.Arrive? && Flight(s) && s.slot.key != a.key
    ensures Enter(s.slot, floor, a.key, a.maxAge, a.t1, a.t2, a.t3, |s.probes|).1 == Launch
  {}

  lemma AnswerKeeps(floor: int, s: System, a: Step)
    requires Inv(floor, s) && a.Arrive? && Enabled(s, a) && s.slot.key == a.key
    requires var e := Enter(s.slot, floor, a.key, a.maxAge, a.t1, a.t2, a.t3, |s.probes|).1; e.Hit? || e.Guarded?
    ensures Inv(floor, AfterArrive(floor, s, a))
  {
    var n := AfterArrive(floor, s, a);
    var r := n.replies[|s.replies|];
    assert n == s.(clock := a.t3, replies := s.replies + [r]);
    assert ReplyOk(s.probes, r);
    RepliesStep(s, s.probes, r);
  }

  lemma JoinKeeps(floor: int, s: System, a: Step)
    requires Inv(floor, s) && a.Arrive? && Enabled(s, a) && s.slot.key == a.key
    requires Enter(s.slot, floor, a.key, a.maxAge, a.t1, a.t2, a.t3, |s.probes|).1.Join?
    ensures Inv(floor, AfterArrive(floor, s, a))
  {
    var n := AfterArrive(floor, s, a);
    assert n == s.(clock := a.t3, waiting := s.waiting[a.caller := Waiter(a.key, s.slot.inflight.value, s.epoch)]);
  }

  lemma LaunchKeeps(floor: int, s: System, a: Step)
    requires Inv(floor, s) && a.Arrive? && Enabled(s, a)
    requires Enter(s.slot, floor, a.key, a.maxAge, a.t1, a.t2, a.t3, |s.probes|).1.Launch?
    ensures Inv(floor, AfterArrive(floor, s, a))
  {
    var n := AfterArrive(floor, s, a);
    LaunchSpaced(floor, s, a);
    LaunchSlot(floor, s, a);
    assert Grows(s.probes, n.probes);
    RepliesKept(s, n.probes);
    assert n.replies == s.replies;
    if n.shown.Some? { OriginStays(s.probes, n.probes, n.shown.value, s.slot.key); }
    assert n.waiting == s.waiting;
    assert Waiters(n);
  }

  lemma LaunchSlot(floor: int, s: System, a: Step)
    requires History(s) && Flight(s) && Held(floor, s) && a.Arrive? && Enabled(s, a)
    requires Enter(s.slot, floor, a.key, a.maxAge, a.t1, a.t2, a.t3, |s.probes|).1.Launch?
    ensures var n := AfterArrive(floor, s, a);
            History(n) && Flight(n) && Held(floor, n)
  {
    var n := AfterArrive(floor, s, a);
    assert n.probes == s.probes + [Probe(a.key, n.epoch, a.t2, None)] && n.closes == s.closes + [0];
    assert n.slot.key == a.key && n.slot.inflight == Some(|s.probes|) && n.slot.inflightKey == a.key;
  }

  lemma LaunchSpaced(floor: int, s: System, a: Step)
    requires Inv(floor, s) && a.Arrive? && Enabled(s, a)
    requires Enter(s.slot, floor, a.key, a.maxAge, a.t1, a.t2, a.t3, |s.probes|).1.Launch?
    ensures Spaced(floor, AfterArrive(floor, s, a).probes)
  {
    var ps := AfterArrive(floor, s, a).probes;
    forall i, j | 0 <= i < j < |ps|
      ensures ps[i].epoch <= ps[j].epoch
      ensures ps[i].epoch == ps[j].epoch ==> ps[i].done.Some? && ps[j].launched >= ps[i].done.value.at + floor
    {
      if j < |s.probes| {
        assert ps[i] == s.probes[i] && ps[j] == s.probes[j];
      } else {
        assert ps[i] == s.probes[i];
      }
    }
  }

  lemma LandHistory(floor: int, s: System, a: Step)
    requires Inv(floor, s) && a.Land? && Enabled(s, a)
    ensures var n := AfterLand(floor, s, a);
            Grows(s.probes, n.probes) && History(n) && Spaced(floor, n.probes) && Waiters(n)
  {}

  lemma LandOrphan(floor: int, s: System, a: Step)
    requires Inv(floor, s) && a.Land? && Enabled(s, a) && s.probes[a.channel].key != s.slot.key
    ensures Inv(floor, AfterLand(floor, s, a))
  {
    var n := AfterLand(floor, s, a);
    LandHistory(floor, s, a);
    assert n.slot == s.slot;
    assert ReplyOk(n.probes, n.replies[|s.replies|]);
    RepliesStep(s, n.probes, n.replies[|s.replies|]);
    if n.shown.Some? { OriginStays(s.probes, n.probes, n.shown.value, s.slot.key); }
    assert Flight(n);
    assert Held(floor, n);
  }

  lemma LandKept(floor: int, s: System, a: Step)
    requires Inv(floor, s) && a.Land? && Enabled(s, a) && s.probes[a.channel].key == s.slot.key
    ensures var n := AfterLand(floor, s, a);
            Kept(n) && ReplyOk(n.probes, n.replies[|s.replies|])
  {
    var n := AfterLand(floor, s, a);
    LandHistory(floor, s, a);
    if s.shown.Some? { OriginStays(s.probes, n.probes, s.shown.value, s.slot.key); }
  }

  lemma LandStored(floor: int, s: System, a: Step)
    requires Inv(floor, s) && a.Land? && Enabled(s, a) && s.probes[a.channel].key == s.slot.key
    ensures Inv(floor, AfterLand(floor, s, a))
  {
    var n := AfterLand(floor, s, a);
    LandHistory(floor, s, a);
    LandKept(floor, s, a);
    LandSlot(floor, s, a);
    RepliesStep(s, n.probes, n.replies[|s.replies|]);
  }

  lemma LandSlot(floor: int, s: System, a: Step)
    requires History(s) && Flight(s) && Held(floor, s)
    requires a.Land? && Enabled(s, a) && s.probes[a.channel].key == s.slot.key
    ensures var n := AfterLand(floor, s, a);
            Flight(n) && Held(floor, n)
  {}

  lemma WakeKeeps(floor: int, s: System, a: Step)
    requires Inv(floor, s) && a.Wake? && Enabled(s, a)
    ensures Inv(floor, AfterWake(s, a))
  {
    var n := AfterWake(s, a);
    var r := n.replies[|s.replies|];
    var w := s.waiting[a.caller];
    assert r.via.closed ==> s.probes[w.channel].done.Some?;
    assert ReplyOk(s.probes, r);
    RepliesStep(s, s.probes, r);
  }

  lemma Keeps(floor: int, s: System, a: Step)
    requires Inv(floor, s) && Enabled(s, a)
    ensures Inv(floor, Next(floor, s, a))
  {
    match a
    case Arrive(caller, key, maxAge, t1, t2, t3) =>
      if s.slot.key != key { MoveLaunches(floor, s, a); }
      match Enter(s.slot, floor, key, maxAge, t1, t2, t3, |s.probes|).1 {
        case Launch => LaunchKeeps(floor, s, a);
        case Join(_) => JoinKeeps(floor, s, a);
        case _ => AnswerKeeps(floor, s, a);
      }
    case Land(ch, _, _) =>
      if s.probes[ch].key == s.slot.key { LandStored(floor, s, a); } else { LandOrphan(floor, s, a); }
    case Wake(_, _, _) => WakeKeeps(floor, s, a);
  }

  // ----- runs -----

  predicate Legal(floor: int, run: seq<Step>)
    decreases |run|, 0
  {
    run == [] || (Legal(floor, run[..|run| - 1]) && Enabled(After(floor, run[..|run| - 1]), run[|run| - 1]))
  }

  function After(floor: int, run: seq<Step>): System
    requires Legal(floor, run)
    decreases |run|, 1
  {
    if run == [] then START else Next(floor, After(floor, run[..|run| - 1]), run[|run| - 1])
  }

  lemma {:induction false} Always(floor: int, run: seq<Step>)
    requires Legal(floor, run)
    ensures Inv(floor, After(floor, run))
  {
    if run != [] {
      Always(floor, run[..|run| - 1]);
      Keeps(floor, After(floor, run[..|run| - 1]), run[|run| - 1]);
    }
  }

  /** Single flight, in every interleaving.  A probe in the slot runs for the slot's
      key and was launched in the current epoch, and it is the only such probe;
      of the probes of any one epoch at most one is outstanding, ever. */
  lemma SingleFlight(floor: int, run: seq<Step>)
    requires Legal(floor, run)
    ensures var s := After(floor, run);
            && (s.slot.inflight.Some? ==>
                  var i := s.slot.inflight.value;
                  i < |s.probes| && s.probes[i].done.None? && s.probes[i].key == s.slot.key == s.slot.inflightKey)
            && (forall i | 0 <= i < |s.probes| && s.probes[i].epoch == s.epoch && s.probes[i].done.None? ::
                  s.slot.inflight == Some(i))
            && (forall i, j | 0 <= i < j < |s.probes| && s.probes[i].epoch == s.probes[j].epoch ::
                  s.probes[i].done.Some?)
  {
    Always(floor, run);
  }

  /** Channels: each is closed at most once, exactly when its probe has landed, and
      a blocked caller waits for a channel that is closed or still owned by a
      running probe for the caller's key. */
  lemma NobodyStranded(floor: int, run: seq<Step>)
    requires Legal(floor, run)
    ensures var s := After(floor, run);
            && |s.closes| == |s.probes|
            && (forall i | 0 <= i < |s.probes| :: s.closes[i] == if s.probes[i].done.Some? then 1 else 0)
            && (forall c | c in s.waiting ::
                  var w := s.waiting[c];
                  w.channel < |s.probes| && s.probes[w.channel].key == w.key
                  && (s.probes[w.channel].done.Some? <==> Enabled(s, Wake(c, false, s.clock))))
  {
    Always(floor, run);
  }

  /** Right identity.  An answer given at once, by the rate guard or by the caller's
      own probe shows a probe of the caller's key.  A coalesced answer does exactly
      when the slot still has a verdict and the caller's key; and it has, when the
      channel was closed and no key change came while the caller waited. */
  lemma RightIdentity(floor: int, run: seq<Step>, i: nat)
    requires Legal(floor, run) && i < |After(floor, run).replies|
    ensures var s := After(floor, run);
            var r := s.replies[i];
            var shows := r.origin.Some? && Sourced(s.probes, r.origin.value, r.key);
            && (r.origin.Some? ==> Sourced(s.probes, r.origin.value, r.about) && r.response == Render(s.probes, r.origin.value))
            && (!r.via.Coalesced? ==> shows)
            && (shows <==> r.origin.Some? && r.about == r.key)
            && (r.via.Coalesced? && r.via.closed && r.via.joined == r.epoch ==> shows)
            && (r.origin.None? ==> r.response == Unavailable(r.at))
  {
    Always(floor, run);
    assert ReplyOk(After(floor, run).probes, After(floor, run).replies[i]);
  }

  /** What every answer looks like.  It carries the verdict, the details and the time of
      the probe whose verdict it shows.  Shown by that probe alone it is not stale;
      flagged by another, it is stale, and names that one's result and hint.  Without
      any probe it is a bare "unavailable". */
  lemma AnswerFields(floor: int, run: seq<Step>, i: nat)
    requires Legal(floor, run) && i < |After(floor, run).replies|
    ensures var ps, r := After(floor, run).probes, After(floor, run).replies[i];
            var a := r.response;
            match r.origin
            case None =>
              && a.result == "unavailable" && a.checkedAt == r.at && !a.stale && a.error == "" && a.retryAfterSeconds.None?
              && a.details == Details(None, None, None, None, None, None, None, None)
            case Some(sh) =>
              Finished(ps, sh.verdict) && Finished(ps, sh.refresh)
              && var v, f := ps[sh.verdict].done.value, ps[sh.refresh].done.value;
                 && a.result == v.got.out.result && a.details == v.got.out.details && a.checkedAt == v.at
                 && (sh.verdict == sh.refresh ==> !a.stale && a.error == "" && a.retryAfterSeconds == v.got.out.retryAfterSeconds)
                 && (sh.verdict != sh.refresh ==>
                       a.stale && a.error == f.got.out.result && a.retryAfterSeconds == f.got.out.retryAfterSeconds)
  {
    Always(floor, run);
    assert ReplyOk(After(floor, run).probes, After(floor, run).replies[i]);
  }

  /** The second arm of Best is dead: a good verdict is never without a last one. */
  lemma SecondArmIsDead(floor: int, run: seq<Step>, now: int)
    requires Legal(floor, run)
    ensures var s := After(floor, run).slot;
            Best(s, now) == if s.last.Some? then s.last.value else Unavailable(now)
    ensures var s := After(floor, run).slot;
            s.good.Some? ==>
              s.last.Some? && s.last.value.(stale := false, error := "", retryAfterSeconds := s.good.value.retryAfterSeconds) == s.good.value
  {
    Always(floor, run);
  }

  /** The slot has a definitive verdict whose own probe is, at t1, no older than the
      caller tolerates, the tolerance being at least the floor. */
  predicate FreshVerdict(floor: int, s: System, maxAge: int, t1: int) {
    && s.shown.Some? && Finished(s.probes, s.shown.value.verdict)
    && var v := s.probes[s.shown.value.verdict].done.value;
       Settles(v.got) && Since(t1, v.at) <= (if maxAge < floor then floor else maxAge)
  }

  /** The same in numbers: one of the eight definitive results, from a probe that did not
      fail, at most as old as the tolerance or the floor; ages saturate at 64 bits. */
  lemma FreshInNumbers(floor: int, s: System, maxAge: int, t1: int)
    requires floor >= 0
    ensures var eff := if maxAge < floor then floor else maxAge;
            FreshVerdict(floor, s, maxAge, t1)
            <==> (s.shown.Some? && Finished(s.probes, s.shown.value.verdict)
                  && var v := s.probes[s.shown.value.verdict].done.value;
                     var word := v.got.out.result;
                     && !v.got.failed
                     && (word == "claimed" || word == "unclaimed" || word == "secret_mismatch" || word == "server_unregistered"
                         || word == "unregistered" || word == "secret_invalid" || word == "no_identity" || word == "blocked")
                     && (t1 - v.at <= eff || eff >= 0x7FFF_FFFF_FFFF_FFFF))
  {}

  /** The result stored last holds probes off at time t. */
  predicate HeldOff(floor: int, s: System, t: int) {
    && s.shown.Some? && Finished(s.probes, s.shown.value.refresh)
    && var r := s.probes[s.shown.value.refresh].done.value; t < r.at + Delay(floor, r.got.out)
  }

  /** Every probe launched since the last key change has landed. */
  predicate AllLanded(s: System) {
    forall i | 0 <= i < |s.probes| && s.probes[i].epoch == s.epoch :: s.probes[i].done.Some?
  }

  predicate Running(ps: seq<Probe>, i: nat, key: string) { i < |ps| && ps[i].key == key && ps[i].done.None? }

  /** An answer is served without a probe exactly when the caller's identity has a
      fresh verdict. */
  lemma HitExactly(floor: int, run: seq<Step>, key: string, maxAge: int, t1: int, t2: int, t3: int, made: nat)
    requires Legal(floor, run)
    ensures var s := After(floor, run);
            Enter(s.slot, floor, key, maxAge, t1, t2, t3, made).1.Hit? <==> s.slot.key == key && FreshVerdict(floor, s, maxAge, t1)
  {
    Always(floor, run);
  }

  /** A call probes exactly when the slot is another identity's, or holds no fresh
      verdict, is not held off by the result stored last, and every probe launched
      since the last key change has landed. */
  lemma LaunchExactly(floor: int, run: seq<Step>, key: string, maxAge: int, t1: int, t2: int, t3: int, made: nat)
    requires Legal(floor, run)
    ensures var s := After(floor, run);
            Enter(s.slot, floor, key, maxAge, t1, t2, t3, made).1.Launch?
            <==> (s.slot.key != key || (!FreshVerdict(floor, s, maxAge, t1) && !HeldOff(floor, s, t2) && AllLanded(s)))
  {
    Always(floor, run);
    LaunchFrom(floor, After(floor, run), key, maxAge, t1, t2, t3, made);
  }

  lemma LaunchFrom(floor: int, s: System, key: string, maxAge: int, t1: int, t2: int, t3: int, made: nat)
    requires Flight(s) && HeldByLast(floor, s) && Kept(s)
    ensures Enter(s.slot, floor, key, maxAge, t1, t2, t3, made).1.Launch?
       <==> (s.slot.key != key || (!FreshVerdict(floor, s, maxAge, t1) && !HeldOff(floor, s, t2) && AllLanded(s)))
  {}

  /** A call has its identity probed twice at once exactly when it probes while a probe
      of that identity from an earlier epoch is still running. */
  lemma DoublesExactly(floor: int, run: seq<Step>, a: Step)
    requires Legal(floor, run) && a.Arrive? && Enabled(After(floor, run), a)
    ensures var s := After(floor, run);
            var n := Next(floor, s, a);
            (|n.probes| > |s.probes| && exists i :: 0 <= i < |s.probes| && Running(n.probes, i, a.key))
            <==> (Enter(s.slot, floor, a.key, a.maxAge, a.t1, a.t2, a.t3, |s.probes|).1.Launch?
                  && exists i :: 0 <= i < |s.probes| && Running(s.probes, i, a.key) && s.probes[i].epoch < n.epoch)
  {
    Always(floor, run);
    var s := After(floor, run);
    var n := Next(floor, s, a);
    if i :| 0 <= i < |s.probes| && Running(n.probes, i, a.key) { assert Running(s.probes, i, a.key); }
    if i :| 0 <= i < |s.probes| && Running(s.probes, i, a.key) && s.probes[i].epoch < n.epoch {
      assert |n.probes| > |s.probes| ==> Running(n.probes, i, a.key);
    }
  }

  // ----- the rate bound -----

  /** Launches of one epoch within [from, from + span], among the first n probes. */
  function Launches(ps: seq<Probe>, n: nat, epoch: nat, from: int, span: int): nat
    requires n <= |ps|
  {
    if n == 0 then 0
    else Launches(ps, n - 1, epoch, from, span)
         + (if ps[n - 1].epoch == epoch && from <= ps[n - 1].launched <= from + span then 1 else 0)
  }

  lemma {:induction false} LaunchesSpread(floor: int, ps: seq<Probe>, n: nat, epoch: nat, from: int, span: int, last: int)
    requires n <= |ps| && floor >= 0 && Spaced(floor, ps)
    requires forall i | 0 <= i < |ps| && ps[i].done.Some? :: ps[i].launched <= ps[i].done.value.at
    requires forall i | 0 <= i < n && ps[i].epoch == epoch && ps[i].launched <= from + span :: ps[i].launched <= last - floor
    ensures Launches(ps, n, epoch, from, span) * floor <= (if last >= from then last - from else 0)
  {
    if n > 0 {
      var p := ps[n - 1];
      if p.epoch == epoch && from <= p.launched <= from + span {
        forall i | 0 <= i < n - 1 && ps[i].epoch == epoch ensures ps[i].launched <= p.launched - floor {
          assert ps[i].done.Some?;
        }
        LaunchesSpread(floor, ps, n - 1, epoch, from, span, p.launched);
        var k := Launches(ps, n - 1, epoch, from, span);
        OneFloorMore(k, floor);
      } else {
        LaunchesSpread(floor, ps, n - 1, epoch, from, span, last);
      }
    }
  }

  lemma OneFloorMore(k: nat, floor: int)
    ensures (k + 1) * floor == k * floor + floor
  {}

  lemma RateOf(floor: int, ps: seq<Probe>, epoch: nat, from: int, span: nat)
    requires GoodFloor(floor) && Spaced(floor, ps)
    requires forall i | 0 <= i < |ps| && ps[i].done.Some? :: ps[i].launched <= ps[i].done.value.at
    ensures (Launches(ps, |ps|, epoch, from, span) - 1) * floor <= span
  {
    var n := Launches(ps, |ps|, epoch, from, span);
    LaunchesSpread(floor, ps, |ps|, epoch, from, span, from + span + floor);
    assert (n - 1) * floor == n * floor - floor;
  }

  lemma AlwaysTimed(floor: int, run: seq<Step>)
    requires Legal(floor, run)
    ensures var ps := After(floor, run).probes;
            Spaced(floor, ps) && forall i | 0 <= i < |ps| && ps[i].done.Some? :: ps[i].launched <= ps[i].done.value.at
  {
    Always(floor, run);
  }

  /** Within an epoch a launch comes at least the floor after every earlier probe
      landed, so n launches in a span have n - 1 floors between them: at most one
      launch more than the floors that fit. */
  lemma RateBound(floor: int, run: seq<Step>, epoch: nat, from: int, span: nat)
    requires Legal(floor, run) && GoodFloor(floor)
    ensures Spaced(floor, After(floor, run).probes)
    ensures var ps := After(floor, run).probes;
            (Launches(ps, |ps|, epoch, from, span) - 1) * floor <= span
  {
    AlwaysTimed(floor, run);
    RateOf(floor, After(floor, run).probes, epoch, from, span);
  }

  // ----- from one point of a run to a later one -----

  lemma StepGrows(floor: int, s: System, a: Step)
    requires Inv(floor, s) && Enabled(s, a)
    ensures var n := Next(floor, s, a);
            Grows(s.probes, n.probes) && s.epoch <= n.epoch && s.replies <= n.replies
  {
    if a.Land? { LandHistory(floor, s, a); }
  }

  /** The answer is definitive, and dated by the probe that found it. */
  predicate Firm(ps: seq<Probe>, r: Reply) {
    && r.origin.Some? && Finished(ps, r.origin.value.verdict)
    && var v := ps[r.origin.value.verdict].done.value;
       Settles(v.got) && r.response.result == v.got.out.result && r.response.checkedAt == v.at
  }

  predicate FirmFrom(s: System, m: nat) {
    forall i | m <= i < |s.replies| && s.replies[i].via != Orphan :: Firm(s.probes, s.replies[i])
  }

  lemma FirmGrows(ps: seq<Probe>, qs: seq<Probe>, r: Reply)
    requires Grows(ps, qs) && Firm(ps, r)
    ensures Firm(qs, r)
  {}

  /** At most one answer more, and that one firm or an orphan's. */
  predicate FirmNext(s: System, n: System) {
    && n.slot.good.Some?
    && (n.replies == s.replies
        || (|n.replies| == |s.replies| + 1
            && (n.replies[|s.replies|].via == Orphan || Firm(n.probes, n.replies[|s.replies|]))))
  }

  lemma FirmArrival(floor: int, s: System, a: Step)
    requires Kept(s) && a.Arrive? && Enabled(s, a) && s.slot.good.Some? && s.slot.key == a.key
    ensures FirmNext(s, AfterArrive(floor, s, a))
  {}

  lemma FirmLanding(floor: int, s: System, a: Step)
    requires Kept(s) && a.Land? && Enabled(s, a) && s.slot.good.Some?
    ensures FirmNext(s, AfterLand(floor, s, a))
  {}

  /** A slot with a good verdict keeps one, and answers with its origin's verdict. */
  lemma FirmAnswer(floor: int, s: System, a: Step)
    requires Kept(s) && Enabled(s, a) && s.slot.good.Some?
    requires Next(floor, s, a).epoch == s.epoch
    ensures FirmNext(s, Next(floor, s, a))
  {
    match a
    case Arrive(_, _, _, _, _, _) => FirmArrival(floor, s, a);
    case Land(_, _, _) => FirmLanding(floor, s, a);
    case Wake(_, _, _) =>
  }

  lemma FirmStep(floor: int, s: System, a: Step, m: nat)
    requires Inv(floor, s) && Enabled(s, a) && s.slot.good.Some? && FirmFrom(s, m)
    requires Next(floor, s, a).epoch == s.epoch
    ensures Next(floor, s, a).slot.good.Some? && FirmFrom(Next(floor, s, a), m)
  {
    var n := Next(floor, s, a);
    StepGrows(floor, s, a);
    FirmAnswer(floor, s, a);
    forall i | m <= i < |n.replies| && n.replies[i].via != Orphan ensures Firm(n.probes, n.replies[i]) {
      if i < |s.replies| {
        assert s.replies[i] == n.replies[i];
        FirmGrows(s.probes, n.probes, s.replies[i]);
      }
    }
  }

  /** Verdicts never regress: once the slot holds a definitive verdict, it holds one
      until the key changes, and every answer given meanwhile is definitive and
      carries the time of the probe that produced it; but for the own results of
      callers whose identity the slot has left. */
  lemma {:induction false} VerdictsNeverRegress(floor: int, run: seq<Step>, i: nat)
    requires Legal(floor, run) && i <= |run| && Legal(floor, run[..i])
    requires After(floor, run[..i]).slot.good.Some?
    ensures After(floor, run[..i]).epoch <= After(floor, run).epoch
    ensures After(floor, run).epoch == After(floor, run[..i]).epoch ==>
              After(floor, run).slot.good.Some? && FirmFrom(After(floor, run), |After(floor, run[..i]).replies|)
    decreases |run|
  {
    if i == |run| {
      assert run[..i] == run;
    } else {
      var init := run[..|run| - 1];
      assert init[..i] == run[..i];
      VerdictsNeverRegress(floor, init, i);
      Always(floor, init);
      var s, a := After(floor, init), run[|run| - 1];
      StepGrows(floor, s, a);
      if Next(floor, s, a).epoch == After(floor, run[..i]).epoch {
        FirmStep(floor, s, a, |After(floor, run[..i]).replies|);
      }
    }
  }
}

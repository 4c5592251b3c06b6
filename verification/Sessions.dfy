/** The session table, its throttled mirror on disk, and restarts.  A session is
    known by the 64-character hash of its token; times are nanoseconds. */
module Sessions {
  import opened Text

  const PERSIST_INTERVAL := 60_000_000_000
  const SCHEMA_VERSION := 1
  const KEY_LENGTH: nat := 64

  /** The session file as the loader meets it. */
  datatype Disk = Absent | Unreadable | Corrupt | Table(schema: int, sessions: map<string, int>)

  datatype Config = Config(ttl: int, onDisk: bool)

  datatype Store = Store(entries: map<string, int>, lastPersist: Option<int>, disk: Disk)

  /** The readable rows of the file. */
  function Rows(disk: Disk): map<string, int> {
    if disk.Table? && disk.schema == SCHEMA_VERSION then disk.sessions else map[]
  }

  /** What the loader keeps: well-formed rows that are still live. */
  function Loaded(cfg: Config, disk: Disk, now: int): map<string, int> {
    var rows := if cfg.onDisk then Rows(disk) else map[];
    map k | k in rows && |k| == KEY_LENGTH && now <= rows[k] :: rows[k]
  }

  function Persisted(cfg: Config, s: Store, writeOk: bool, at: int): Store {
    if cfg.onDisk && writeOk then s.(disk := Table(SCHEMA_VERSION, s.entries), lastPersist := Some(at)) else s
  }

  predicate Due(s: Store, now: int) {
    s.lastPersist.None? || now - s.lastPersist.value >= PERSIST_INTERVAL
  }

  /** Every operation reads the clock at t, writes (if it does) at w >= t, and the
      write succeeds or fails. */
  datatype Op =
    | Issue(key: string, t: int, w: int, writeOk: bool)
    | Validate(key: string, t: int, w: int, writeOk: bool)
    | Revoke(key: string, t: int, w: int, writeOk: bool)
    | RevokeAll(t: int, w: int, writeOk: bool)
    | Restart(t: int, w: int)

  function Do(cfg: Config, s: Store, op: Op): Store {
    match op
    case Issue(key, t, w, ok) =>
      Persisted(cfg, s.(entries := s.entries[key := t + cfg.ttl]), ok, w)
    case Validate(key, t, w, ok) =>
      if key !in s.entries then s
      else if t > s.entries[key] then Persisted(cfg, s.(entries := s.entries - {key}), ok, w)
      else
        var bumped := s.(entries := s.entries[key := t + cfg.ttl]);
        if cfg.onDisk && Due(s, t) then Persisted(cfg, bumped, ok, w) else bumped
    case Revoke(key, t, w, ok) =>
      Persisted(cfg, s.(entries := s.entries - {key}), ok, w)
    case RevokeAll(t, w, ok) =>
      s.(entries := map[], disk := if cfg.onDisk && ok then Absent else s.disk)
    case Restart(t, w) =>
      Store(Loaded(cfg, s.disk, t), None, s.disk)
  }

  /** The expiry Validate returns, if it accepts the key. */
  function Answer(cfg: Config, s: Store, key: string, t: int): Option<int> {
    if key in s.entries && t <= s.entries[key] then Some(t + cfg.ttl) else None
  }

  // ----- the store of the source -----

  class SessionFile {
    var content: Disk
    constructor (content: Disk)
      ensures this.content == content
    { this.content := content; }
  }

  class SessionStore {
    const ttl: int
    const onDisk: bool
    const file: SessionFile
    const hashToken: string -> string
    var entries: map<string, int>
    var lastPersist: Option<int>

    ghost function Cfg(): Config { Config(ttl, onDisk) }

    ghost function View(): Store
      reads this, file
    {
      Store(entries, lastPersist, file.content)
    }

    /** A new process over an existing file. */
    constructor (ttl: int, onDisk: bool, file: SessionFile, hashToken: string -> string, now: int)
      ensures this.ttl == ttl && this.onDisk == onDisk && this.file == file && this.hashToken == hashToken
      ensures View() == Do(Cfg(), Store(map[], None, file.content), Restart(now, now))
    {
      this.ttl, this.onDisk, this.file, this.hashToken := ttl, onDisk, file, hashToken;
      entries, lastPersist := map[], None;
      new;
      Load(now);
    }

    method Load(now: int)
      requires entries == map[]
      modifies this`entries
      ensures entries == Loaded(Cfg(), file.content, now)
      ensures forall k :: k in entries <==>
                onDisk && file.content.Table? && file.content.schema == 1
                && k in file.content.sessions && |k| == 64 && now <= file.content.sessions[k]
      ensures forall k | k in entries :: entries[k] == file.content.sessions[k]
    {
      if !onDisk || file.content.Absent? || file.content.Unreadable? { return; }
      if file.content.Corrupt? || file.content.schema != SCHEMA_VERSION { return; }
      var sessions := file.content.sessions;
      var left := sessions.Keys;
      while left != {}
        invariant left <= sessions.Keys
        invariant entries == map k | k in sessions && k !in left && |k| == KEY_LENGTH && now <= sessions[k] :: sessions[k]
        decreases |left|
      {
        var key :| key in left;
        left := left - {key};
        if |key| == KEY_LENGTH && !(now > sessions[key]) {
          entries := entries[key := sessions[key]];
        }
      }
    }

    method Persist(writeOk: bool, at: int)
      modifies this`lastPersist, file
      ensures View() == Persisted(Cfg(), old(View()), writeOk, at)
    {
      if !onDisk || !writeOk { return; }
      file.content := Table(SCHEMA_VERSION, entries);
      lastPersist := Some(at);
    }

    /** random: the fresh token, or None when the system gives no random bytes. */
    method IssueToken(random: Option<string>, t: int, w: int, writeOk: bool) returns (issued: Option<(string, int)>)
      modifies this, file
      ensures random.None? ==> issued.None? && View() == old(View())
      ensures random.Some? ==> issued == Some((random.value, t + ttl))
      ensures random.Some? ==> View() == Do(Cfg(), old(View()), Issue(hashToken(random.value), t, w, writeOk))
      ensures random.Some? ==> entries == old(entries)[hashToken(random.value) := t + ttl]
      ensures random.Some? && onDisk && writeOk ==> file.content == Table(1, entries) && lastPersist == Some(w)
      ensures !(random.Some? && onDisk && writeOk) ==> file.content == old(file.content) && lastPersist == old(lastPersist)
    {
      if random.None? { return None; }
      entries := entries[hashToken(random.value) := t + ttl];
      Persist(writeOk, w);
      issued := Some((random.value, t + ttl));
    }

    method ValidateToken(token: string, t: int, w: int, writeOk: bool) returns (until: Option<int>)
      modifies this, file
      ensures token == "" ==> until.None? && View() == old(View())
      ensures token != "" ==> until == Answer(Cfg(), old(View()), hashToken(token), t)
      ensures token != "" ==> View() == Do(Cfg(), old(View()), Validate(hashToken(token), t, w, writeOk))
      ensures var k := hashToken(token);
              var known := token != "" && k in old(entries);
              var live := known && t <= old(entries)[k];
              var due := if live then old(lastPersist).None? || t - old(lastPersist).value >= 60_000_000_000 else known;
              && until == (if live then Some(t + ttl) else None)
              && entries == (if live then old(entries)[k := t + ttl] else if known then old(entries) - {k} else old(entries))
              && (onDisk && writeOk && due ==> file.content == Table(1, entries) && lastPersist == Some(w))
              && (!(onDisk && writeOk && due) ==> file.content == old(file.content) && lastPersist == old(lastPersist))
    {
      if token == "" { return None; }
      var key := hashToken(token);
      if key !in entries { return None; }
      if t > entries[key] {
        entries := entries - {key};
        Persist(writeOk, w);
        return None;
      }
      entries := entries[key := t + ttl];
      if onDisk && (lastPersist.None? || t - lastPersist.value >= PERSIST_INTERVAL) {
        Persist(writeOk, w);
      }
      until := Some(t + ttl);
    }

    method RevokeToken(token: string, t: int, w: int, writeOk: bool)
      modifies this, file
      ensures View() == Do(Cfg(), old(View()), Revoke(hashToken(token), t, w, writeOk))
      ensures entries == old(entries) - {hashToken(token)}
      ensures onDisk && writeOk ==> file.content == Table(1, entries) && lastPersist == Some(w)
      ensures !(onDisk && writeOk) ==> file.content == old(file.content) && lastPersist == old(lastPersist)
    {
      entries := entries - {hashToken(token)};
      Persist(writeOk, w);
    }

    /** removed: whether the file could be removed; a missing file counts. */
    method RevokeEvery(t: int, w: int, removed: bool) returns (failed: bool)
      modifies this, file
      ensures View() == Do(Cfg(), old(View()), RevokeAll(t, w, removed))
      ensures failed <==> onDisk && !removed
      ensures entries == map[] && lastPersist == old(lastPersist)
      ensures file.content == if onDisk && removed then Absent else old(file.content)
    {
      entries := map[];
      if !onDisk { return false; }
      if !removed { return true; }
      file.content := Absent;
      failed := false;
    }
  }

  // ----- runs -----

  /** The store with its history: the clock; the last successful write; the keys whose
      revocation has not reached the disk; and whether an issue or a due bump has
      failed to reach it since the last write, revocation of all, or restart. */
  datatype World = World(store: Store, clock: int, written: int, lost: set<string>, unwritten: bool)

  predicate Timely(w: World, op: Op) { w.clock <= op.t <= op.w }

  predicate Wrote(cfg: Config, s: Store, op: Op) {
    cfg.onDisk && !op.Restart? && op.writeOk &&
    match op
    case Validate(key, t, _, _) => key in s.entries && (t > s.entries[key] || Due(s, t))
    case RevokeAll(_, _, _) => false
    case _ => true
  }

  function Lost(cfg: Config, w: World, op: Op): set<string> {
    if Wrote(cfg, w.store, op) then {}
    else match op
      case Issue(key, _, _, _) => w.lost - {key}
      case Validate(_, _, _, _) => w.lost
      case Revoke(key, _, _, _) => w.lost + {key}
      case RevokeAll(_, _, ok) => if ok then {} else w.lost + Rows(w.store.disk).Keys
      case Restart(_, _) => {}
  }

  function Step(cfg: Config, w: World, op: Op): World {
    var wrote := Wrote(cfg, w.store, op);
    World(Do(cfg, w.store, op), op.w,
      if wrote then op.w else w.written,
      Lost(cfg, w, op),
      match op
        case Issue(_, _, _, ok) => !ok
        case Validate(key, t, _, ok) =>
          !wrote && (w.unwritten || (key in w.store.entries && t <= w.store.entries[key] && Due(w.store, t)))
        case RevokeAll(_, _, _) => false
        case Restart(_, _) => false
        case _ => !wrote && w.unwritten)
  }

  /** Before the first operation: memory as loaded at time now, from a file that an
      earlier process with the same ttl may have left. */
  predicate Initial(cfg: Config, w: World) {
    && w.store.entries == Loaded(cfg, w.store.disk, w.clock) && w.store.lastPersist.None?
    && w.written == w.clock && w.lost == {} && !w.unwritten
    && forall k | k in Rows(w.store.disk) :: Rows(w.store.disk)[k] <= w.clock + cfg.ttl
  }

  predicate Legal(cfg: Config, start: World, run: seq<Op>)
    decreases |run|, 0
  {
    if run == [] then Initial(cfg, start)
    else Legal(cfg, start, run[..|run| - 1]) && Timely(After(cfg, start, run[..|run| - 1]), run[|run| - 1])
  }

  function After(cfg: Config, start: World, run: seq<Op>): World
    requires Legal(cfg, start, run)
    decreases |run|, 1
  {
    if run == [] then start else Step(cfg, After(cfg, start, run[..|run| - 1]), run[|run| - 1])
  }

  /** No expiry in memory lies beyond one ttl from now, none on disk beyond one ttl
      from the last successful write. */
  predicate Bounded(cfg: Config, w: World) {
    && w.written <= w.clock
    && (w.store.lastPersist.Some? ==> w.store.lastPersist.value <= w.clock)
    && (forall k | k in w.store.entries :: w.store.entries[k] <= w.clock + cfg.ttl)
    && (forall k | k in Rows(w.store.disk) :: Rows(w.store.disk)[k] <= w.written + cfg.ttl)
  }

  /** A row a restart could still load is in memory, expiring no earlier there, or its
      revocation is lost; and lost keys are not in memory. */
  predicate Covered(cfg: Config, w: World) {
    cfg.onDisk ==>
      && w.lost !! w.store.entries.Keys
      && forall k | k in Rows(w.store.disk) && |k| == KEY_LENGTH && w.clock <= Rows(w.store.disk)[k] ::
           k in w.lost || (k in w.store.entries && Rows(w.store.disk)[k] <= w.store.entries[k])
  }

  /** k is on disk as in memory; or it was last bumped in the interval that the last
      write opened, and its copy was still live at that write. */
  predicate Fresh(cfg: Config, s: Store, k: string)
    requires k in s.entries
  {
    && k in Rows(s.disk)
    && (Rows(s.disk)[k] == s.entries[k]
        || (s.lastPersist.Some? && s.lastPersist.value <= Rows(s.disk)[k]
            && s.lastPersist.value <= s.entries[k] - cfg.ttl < s.lastPersist.value + PERSIST_INTERVAL))
  }

  predicate Mirrored(cfg: Config, w: World) {
    cfg.onDisk && !w.unwritten ==> forall k | k in w.store.entries :: Fresh(cfg, w.store, k)
  }

  predicate Inv(cfg: Config, w: World) { Bounded(cfg, w) && Covered(cfg, w) && Mirrored(cfg, w) }

  lemma BoundedKeeps(cfg: Config, w: World, op: Op)
    requires Bounded(cfg, w) && Timely(w, op)
    ensures Bounded(cfg, Step(cfg, w, op))
  {}

  lemma CoveredKeeps(cfg: Config, w: World, op: Op)
    requires Bounded(cfg, w) && Covered(cfg, w) && Timely(w, op)
    ensures Covered(cfg, Step(cfg, w, op))
  {}

  lemma MirroredKeeps(cfg: Config, w: World, op: Op)
    requires Bounded(cfg, w) && Mirrored(cfg, w) && Timely(w, op)
    ensures Mirrored(cfg, Step(cfg, w, op))
  {}

  lemma Keeps(cfg: Config, w: World, op: Op)
    requires Inv(cfg, w) && Timely(w, op)
    ensures Inv(cfg, Step(cfg, w, op))
  {
    BoundedKeeps(cfg, w, op);
    CoveredKeeps(cfg, w, op);
    MirroredKeeps(cfg, w, op);
  }

  lemma {:induction false} Always(cfg: Config, start: World, run: seq<Op>)
    requires Legal(cfg, start, run)
    ensures Inv(cfg, After(cfg, start, run))
  {
    if run != [] {
      Always(cfg, start, run[..|run| - 1]);
      Keeps(cfg, After(cfg, start, run[..|run| - 1]), run[|run| - 1]);
    }
  }

  predicate Resurrected(cfg: Config, s: Store, t: int, k: string) {
    k in Do(cfg, s, Restart(t, t)).entries && k !in s.entries
  }

  /** Which sessions a restart brings back: exactly those whose revocation is lost,
      whose row is still on disk, well formed, and not yet expired. */
  lemma ResurrectedExactly(cfg: Config, start: World, run: seq<Op>, t: int, k: string)
    requires Legal(cfg, start, run) && After(cfg, start, run).clock <= t && cfg.onDisk
    ensures var w := After(cfg, start, run);
            Resurrected(cfg, w.store, t, k)
            <==> k in w.lost && k in Rows(w.store.disk) && |k| == KEY_LENGTH && t <= Rows(w.store.disk)[k]
  {
    Always(cfg, start, run);
  }

  /** A restart never extends a session, and resurrects none but those whose revocation
      is lost; and whatever failed, nothing on disk outlives one ttl after the last
      successful write. */
  lemma RestartNeverResurrects(cfg: Config, start: World, run: seq<Op>, t: int)
    requires Legal(cfg, start, run) && After(cfg, start, run).clock <= t
    ensures var w := After(cfg, start, run);
            var loaded := Do(cfg, w.store, Restart(t, t)).entries;
            && (forall k | k in loaded && k !in w.lost :: k in w.store.entries && loaded[k] <= w.store.entries[k])
            && (forall k | k in Rows(w.store.disk) :: Rows(w.store.disk)[k] <= w.written + cfg.ttl)
  {
    Always(cfg, start, run);
    forall k | cfg.onDisk { ResurrectedExactly(cfg, start, run, t, k); }
  }

  predicate AllWritten(run: seq<Op>) {
    forall i | 0 <= i < |run| :: run[i].Restart? || run[i].writeOk
  }

  /** When every write succeeds, no failure is ever pending. */
  lemma {:induction false} AllWrittenIsClean(cfg: Config, start: World, run: seq<Op>)
    requires Legal(cfg, start, run) && AllWritten(run) && cfg.onDisk
    ensures After(cfg, start, run).lost == {} && !After(cfg, start, run).unwritten
  {
    if run != [] { AllWrittenIsClean(cfg, start, run[..|run| - 1]); }
  }

  /** The throttled mirror.  When every write succeeded, every session is on disk,
      exactly as in memory or lagging by less than the interval and the ttl together. */
  lemma MirrorLag(cfg: Config, start: World, run: seq<Op>, k: string)
    requires Legal(cfg, start, run) && AllWritten(run) && cfg.onDisk
    requires k in After(cfg, start, run).store.entries
    ensures Fresh(cfg, After(cfg, start, run).store, k)
    ensures var s := After(cfg, start, run).store;
            s.entries[k] == Rows(s.disk)[k] || s.entries[k] - Rows(s.disk)[k] < PERSIST_INTERVAL + cfg.ttl
  {
    Always(cfg, start, run);
    AllWrittenIsClean(cfg, start, run);
  }

  /** An accepted validation leaves the copy more than the interval behind exactly when
      the last write is too recent for another one, and the copy is from a touch more
      than the interval ago. */
  lemma BumpLagsExactly(cfg: Config, start: World, run: seq<Op>, k: string, t: int, w: int)
    requires Legal(cfg, start, run) && AllWritten(run) && cfg.onDisk && After(cfg, start, run).clock <= t <= w
    requires Answer(cfg, After(cfg, start, run).store, k, t).Some?
    ensures var s := After(cfg, start, run).store;
            var n := Do(cfg, s, Validate(k, t, w, true));
            && k in n.entries && k in Rows(n.disk) && k in Rows(s.disk)
            && (n.entries[k] - Rows(n.disk)[k] > PERSIST_INTERVAL
                <==> !Due(s, t) && t - (Rows(s.disk)[k] - cfg.ttl) > PERSIST_INTERVAL)
  {
    MirrorLag(cfg, start, run, k);
  }

  lemma OneMore(cfg: Config, start: World, run: seq<Op>, op: Op)
    requires Legal(cfg, start, run) && Timely(After(cfg, start, run), op)
    ensures Legal(cfg, start, run + [op]) && After(cfg, start, run + [op]) == Step(cfg, After(cfg, start, run), op)
  {
    assert (run + [op])[..|run|] == run;
  }

  const NEW := World(Store(map[], None, Absent), 0, 0, {}, false)

  /** The keys issued are hashes: of the one length that the store and its loader know. */
  predicate WellKeyed(run: seq<Op>) { forall i | 0 <= i < |run| && run[i].Issue? :: |run[i].key| == KEY_LENGTH }

  /** After this run, if all its writes succeeded, no copy lags by more than bound. */
  predicate LagsAtMost(cfg: Config, start: World, run: seq<Op>, bound: int) {
    Legal(cfg, start, run) && AllWritten(run) && WellKeyed(run) ==>
      var s := After(cfg, start, run).store;
      forall k | k in s.entries :: k in Rows(s.disk) && s.entries[k] - Rows(s.disk)[k] <= bound
  }

  lemma TwoKeys() returns (a: string, b: string)
    ensures a != b && |a| == |b| == KEY_LENGTH
  {
    a, b := seq(KEY_LENGTH, _ => 'a'), seq(KEY_LENGTH, _ => 'b');
    assert a[0] != b[0];
  }

  /** a is touched, often enough to live and too early for another write, until until. */
  lemma KeepTouching(cfg: Config, run: seq<Op>, a: string, until: int) returns (more: seq<Op>)
    requires cfg.onDisk && cfg.ttl >= 1 && Legal(cfg, NEW, run) && AllWritten(run) && WellKeyed(run)
    requires var w := After(cfg, NEW, run);
             && a in w.store.entries && w.store.entries[a] >= w.clock && until >= w.clock
             && w.store.lastPersist.Some? && until - w.store.lastPersist.value < PERSIST_INTERVAL
    ensures Legal(cfg, NEW, more) && AllWritten(more) && WellKeyed(more)
    ensures After(cfg, NEW, more).store.disk == After(cfg, NEW, run).store.disk && After(cfg, NEW, more).clock == until
    ensures var s := After(cfg, NEW, more).store; a in s.entries && s.entries[a] == until + cfg.ttl
    decreases until - After(cfg, NEW, run).store.entries[a]
  {
    var expiry := After(cfg, NEW, run).store.entries[a];
    var t := if until <= expiry then until else expiry;
    OneMore(cfg, NEW, run, Validate(a, t, t, true));
    more := run + [Validate(a, t, t, true)];
    if expiry < until { more := KeepTouching(cfg, more, a, until); }
  }

  /** a is issued, and b just before a expires: the write for b stores a as it was. */
  lemma TwoIssues(cfg: Config, a: string, b: string) returns (run: seq<Op>)
    requires cfg.onDisk && cfg.ttl >= 1 && a != b && |a| == |b| == KEY_LENGTH
    ensures Legal(cfg, NEW, run) && AllWritten(run) && WellKeyed(run)
    ensures var w, rows := After(cfg, NEW, run), map[a := cfg.ttl, b := 2 * cfg.ttl];
            w.clock == cfg.ttl && w.store == Store(rows, Some(cfg.ttl), Table(SCHEMA_VERSION, rows))
  {
    run := [] + [Issue(a, 0, 0, true)];
    OneMore(cfg, NEW, [], Issue(a, 0, 0, true));
    var one := map[a := cfg.ttl];
    assert After(cfg, NEW, run) == World(Store(one, Some(0), Table(SCHEMA_VERSION, one)), 0, 0, {}, false);
    OneMore(cfg, NEW, run, Issue(b, cfg.ttl, cfg.ttl, true));
    run := run + [Issue(b, cfg.ttl, cfg.ttl, true)];
    assert one[b := 2 * cfg.ttl] == map[a := cfg.ttl, b := 2 * cfg.ttl];
  }

  /** The worst lag: a write made for one session when another is about to expire opens
      an interval in which the other is bumped in memory alone. */
  lemma WorstLag(cfg: Config, a: string, b: string) returns (run: seq<Op>)
    requires cfg.onDisk && cfg.ttl >= 1 && a != b && |a| == |b| == KEY_LENGTH
    ensures Legal(cfg, NEW, run) && AllWritten(run) && WellKeyed(run)
    ensures var s := After(cfg, NEW, run).store;
            a in s.entries && a in Rows(s.disk) && s.entries[a] - Rows(s.disk)[a] == PERSIST_INTERVAL + cfg.ttl - 1
  {
    run := TwoIssues(cfg, a, b);
    run := KeepTouching(cfg, run, a, cfg.ttl + PERSIST_INTERVAL - 1);
  }

  /** The exact bound on the mirror's lag, over all runs whose writes succeed. */
  lemma LagExactly(cfg: Config, bound: int)
    requires cfg.onDisk && cfg.ttl >= 1
    ensures (forall start, run :: LagsAtMost(cfg, start, run, bound)) <==> bound >= PERSIST_INTERVAL + cfg.ttl - 1
  {
    var a, b := TwoKeys();
    var worst := WorstLag(cfg, a, b);
    if bound >= PERSIST_INTERVAL + cfg.ttl - 1 {
      forall start, run ensures LagsAtMost(cfg, start, run, bound) { NoLagBeyond(cfg, start, run, bound); }
    } else {
      assert !LagsAtMost(cfg, NEW, worst, bound);
    }
  }

  lemma NoLagBeyond(cfg: Config, start: World, run: seq<Op>, bound: int)
    requires cfg.onDisk && bound >= 0 && bound >= PERSIST_INTERVAL + cfg.ttl - 1
    ensures LagsAtMost(cfg, start, run, bound)
  {
    if Legal(cfg, start, run) && AllWritten(run) {
      forall k | k in After(cfg, start, run).store.entries { MirrorLag(cfg, start, run, k); }
    }
  }

  /** So the lag stays within the interval, as documented, only for a ttl of at most one
      nanosecond. */
  lemma LagMayExceedInterval(cfg: Config)
    requires cfg.onDisk
    ensures (forall start, run :: LagsAtMost(cfg, start, run, PERSIST_INTERVAL)) <==> cfg.ttl <= 1
  {
    if cfg.ttl >= 1 {
      LagExactly(cfg, PERSIST_INTERVAL);
    } else {
      forall start, run ensures LagsAtMost(cfg, start, run, PERSIST_INTERVAL) {
        NoLagBeyond(cfg, start, run, PERSIST_INTERVAL);
      }
    }
  }

  /** What a restart keeps, when every write succeeded: the sessions whose copy on disk
      has not expired, at the expiry of that copy. */
  lemma RestartKeepsExactly(cfg: Config, start: World, run: seq<Op>, t: int, k: string)
    requires Legal(cfg, start, run) && AllWritten(run) && cfg.onDisk && After(cfg, start, run).clock <= t
    ensures var s := After(cfg, start, run).store;
            var loaded := Do(cfg, s, Restart(t, t)).entries;
            && (k in s.entries ==> k in Rows(s.disk))
            && (k in loaded <==> k in s.entries && |k| == KEY_LENGTH && t <= Rows(s.disk)[k])
            && (k in loaded ==> loaded[k] == Rows(s.disk)[k])
  {
    AllWrittenIsClean(cfg, start, run);
    ResurrectedExactly(cfg, start, run, t, k);
    if k in After(cfg, start, run).store.entries { MirrorLag(cfg, start, run, k); }
  }

  /** A session can be lost to a restart at the very instant it is touched, though every
      write succeeded: its copy is from a touch more than a ttl ago. */
  lemma LiveSessionLost(cfg: Config, a: string, b: string) returns (run: seq<Op>)
    requires cfg.onDisk && cfg.ttl >= 1 && a != b && |a| == |b| == KEY_LENGTH
    ensures Legal(cfg, NEW, run) && AllWritten(run) && WellKeyed(run)
    ensures var w := After(cfg, NEW, run);
            && a in w.store.entries && w.store.entries[a] == w.clock + cfg.ttl
            && a !in Do(cfg, w.store, Restart(w.clock, w.clock)).entries
  {
    run := TwoIssues(cfg, a, b);
    run := KeepTouching(cfg, run, a, cfg.ttl + 1);
  }

  /** A revocation that failed to reach the disk is undone by a restart. */
  lemma FailedRevokeResurrects(cfg: Config, key: string) returns (run: seq<Op>)
    requires cfg.onDisk && cfg.ttl >= 0 && |key| == KEY_LENGTH
    ensures Legal(cfg, NEW, run) && key !in After(cfg, NEW, run).store.entries
    ensures key in After(cfg, NEW, run).lost
    ensures key in Do(cfg, After(cfg, NEW, run).store, Restart(0, 0)).entries
  {
    run := [];
    OneMore(cfg, NEW, run, Issue(key, 0, 0, true)); run := run + [Issue(key, 0, 0, true)];
    OneMore(cfg, NEW, run, Revoke(key, 0, 0, false)); run := run + [Revoke(key, 0, 0, false)];
  }

  // ----- which tokens are accepted -----

  predicate Touches(op: Op, k: string) { (op.Issue? || op.Validate?) && op.key == k }

  predicate Kills(op: Op, k: string) { op.RevokeAll? || (op.Revoke? && op.key == k) }

  /** Some touch of k from place i on, before place n, is at most ttl before at. */
  predicate Near(run: seq<Op>, k: string, ttl: int, i: nat, n: nat, at: int)
    requires n <= |run|
  {
    exists h :: i <= h < n && Touches(run[h], k) && at - run[h].t <= ttl
  }

  /** k was issued at place i, was not revoked since, and no touch since came more
      than ttl after the ones before it. */
  predicate Living(run: seq<Op>, k: string, ttl: int, i: nat) {
    && i < |run| && run[i].Issue? && run[i].key == k
    && forall j | i < j < |run| ::
         !Kills(run[j], k) && (Touches(run[j], k) ==> Near(run, k, ttl, i, j, run[j].t))
  }

  predicate NoRestart(run: seq<Op>) { forall i | 0 <= i < |run| :: !run[i].Restart? }

  /** A table entry is one ttl after the last touch of its key. */
  predicate LastTouch(run: seq<Op>, k: string, ttl: int, i: nat, expiry: int) {
    && (exists h :: i <= h < |run| && Touches(run[h], k) && run[h].t + ttl == expiry)
    && (forall h | 0 <= h < |run| && Touches(run[h], k) :: run[h].t + ttl <= expiry)
  }

  lemma NearGrows(run: seq<Op>, op: Op, k: string, ttl: int, i: nat, n: nat, at: int)
    requires n <= |run|
    ensures Near(run + [op], k, ttl, i, n, at) <==> Near(run, k, ttl, i, n, at)
  {
    if Near(run, k, ttl, i, n, at) {
      var h :| i <= h < n && Touches(run[h], k) && at - run[h].t <= ttl;
      assert (run + [op])[h] == run[h];
    }
  }

  lemma LivingPrefix(run: seq<Op>, op: Op, k: string, ttl: int, i: nat)
    requires i < |run|
    ensures Living(run + [op], k, ttl, i) <==>
              Living(run, k, ttl, i) && !Kills(op, k) && (Touches(op, k) ==> Near(run, k, ttl, i, |run|, op.t))
  {
    var more := run + [op];
    forall j | i < j < |run| ensures more[j] == run[j] && Near(more, k, ttl, i, j, more[j].t) == Near(run, k, ttl, i, j, run[j].t) {
      NearGrows(run, op, k, ttl, i, j, run[j].t);
    }
    NearGrows(run, op, k, ttl, i, |run|, op.t);
    if Living(more, k, ttl, i) {
      assert more[|run|] == op;
      forall j | i < j < |run| ensures !Kills(run[j], k) && (Touches(run[j], k) ==> Near(run, k, ttl, i, j, run[j].t)) {
        assert more[j] == run[j];
      }
    }
  }

  lemma NearLast(run: seq<Op>, k: string, ttl: int, i: nat, expiry: int, at: int)
    requires LastTouch(run, k, ttl, i, expiry)
    ensures Near(run, k, ttl, i, |run|, at) <==> at <= expiry
  {}

  lemma LastTouchStays(run: seq<Op>, op: Op, k: string, ttl: int, i: nat, expiry: int)
    requires LastTouch(run, k, ttl, i, expiry) && !Touches(op, k)
    ensures LastTouch(run + [op], k, ttl, i, expiry)
  {
    var h :| i <= h < |run| && Touches(run[h], k) && run[h].t + ttl == expiry;
    assert (run + [op])[h] == run[h];
    assert forall j | 0 <= j < |run| :: (run + [op])[j] == run[j];
  }

  lemma LastTouchNew(run: seq<Op>, op: Op, k: string, ttl: int, i: nat)
    requires i <= |run| && Touches(op, k)
    requires forall h | 0 <= h < |run| :: run[h].t <= op.t
    ensures LastTouch(run + [op], k, ttl, i, op.t + ttl)
  {
    assert (run + [op])[|run|] == op;
    assert forall j | 0 <= j < |run| :: (run + [op])[j] == run[j];
  }

  lemma {:induction false} ClockPassed(cfg: Config, start: World, run: seq<Op>)
    requires Legal(cfg, start, run)
    ensures forall h | 0 <= h < |run| :: run[h].t <= After(cfg, start, run).clock
  {
    if run != [] { ClockPassed(cfg, start, run[..|run| - 1]); }
  }

  /** The table holds k exactly while some issue of k is living, and then with the
      expiry of its last touch. */
  lemma {:induction false} TableIsLiving(cfg: Config, start: World, run: seq<Op>, k: string) returns (i: nat)
    requires Legal(cfg, start, run) && NoRestart(run) && start.store.entries == map[]
    ensures var entries := After(cfg, start, run).store.entries;
            if k in entries then Living(run, k, cfg.ttl, i) && LastTouch(run, k, cfg.ttl, i, entries[k])
            else forall i' :: !Living(run, k, cfg.ttl, i')
  {
    i := 0;
    if run != [] {
      var init, op := run[..|run| - 1], run[|run| - 1];
      var before := After(cfg, start, init);
      i := TableIsLiving(cfg, start, init, k);
      ClockPassed(cfg, start, init);
      assert run == init + [op];
      i := TableStep(cfg, before, init, op, k, i);
    }
  }

  lemma TableStep(cfg: Config, w: World, run: seq<Op>, op: Op, k: string, i: nat) returns (i': nat)
    requires Timely(w, op) && !op.Restart? && forall h | 0 <= h < |run| :: run[h].t <= w.clock
    requires if k in w.store.entries then Living(run, k, cfg.ttl, i) && LastTouch(run, k, cfg.ttl, i, w.store.entries[k])
             else forall j :: !Living(run, k, cfg.ttl, j)
    ensures var entries := Do(cfg, w.store, op).entries;
            if k in entries then Living(run + [op], k, cfg.ttl, i') && LastTouch(run + [op], k, cfg.ttl, i', entries[k])
            else forall j :: !Living(run + [op], k, cfg.ttl, j)
  {
    var entries := Do(cfg, w.store, op).entries;
    i' := if op.Issue? && op.key == k then |run| else i;
    if op.Issue? && op.key == k {
      LastTouchNew(run, op, k, cfg.ttl, |run|);
    } else if k in entries {
      NearLast(run, k, cfg.ttl, i, w.store.entries[k], op.t);
      LivingPrefix(run, op, k, cfg.ttl, i);
      if Touches(op, k) {
        LastTouchNew(run, op, k, cfg.ttl, i);
      } else {
        LastTouchStays(run, op, k, cfg.ttl, i, w.store.entries[k]);
      }
    } else {
      forall j: nat ensures !Living(run + [op], k, cfg.ttl, j) {
        if j < |run| {
          LivingPrefix(run, op, k, cfg.ttl, j);
          if k in w.store.entries && Touches(op, k) { TooLate(run, k, cfg.ttl, i, j, w.store.entries[k], op.t); }
        }
      }
    }
  }

  lemma TooLate(run: seq<Op>, k: string, ttl: int, i: nat, j: nat, expiry: int, at: int)
    requires LastTouch(run, k, ttl, i, expiry) && at > expiry
    ensures !Near(run, k, ttl, j, |run|, at)
  {}

  /** Without restarts a key is accepted exactly when it was issued, not revoked
      since, and no gap between touches, the present one included, exceeded the ttl. */
  lemma AcceptedExactly(cfg: Config, start: World, run: seq<Op>, k: string, t: int)
    requires Legal(cfg, start, run) && NoRestart(run) && start.store.entries == map[]
    requires After(cfg, start, run).clock <= t
    ensures Answer(cfg, After(cfg, start, run).store, k, t).Some?
       <==> exists i :: Living(run, k, cfg.ttl, i) && Near(run, k, cfg.ttl, i, |run|, t)
    ensures var s := After(cfg, start, run).store;
            Answer(cfg, s, k, t).Some? ==>
              Answer(cfg, s, k, t).value == t + cfg.ttl
              && forall w, ok :: var n := Do(cfg, s, Validate(k, t, w, ok)).entries; k in n && n[k] == t + cfg.ttl
  {
    var entries := After(cfg, start, run).store.entries;
    var i := TableIsLiving(cfg, start, run, k);
    if k in entries {
      NearLast(run, k, cfg.ttl, i, entries[k], t);
      if t > entries[k] {
        forall j: nat ensures !Near(run, k, cfg.ttl, j, |run|, t) { TooLate(run, k, cfg.ttl, i, j, entries[k], t); }
      }
    }
  }

  // ----- which sessions survive a restart -----

  /** How many operations of the run had passed when the last of its writes was made. */
  function LastWrite(cfg: Config, start: World, run: seq<Op>): (n: nat)
    requires Legal(cfg, start, run)
    ensures n <= |run|
  {
    if run == [] then 0
    else
      var init := run[..|run| - 1];
      if Wrote(cfg, After(cfg, start, init).store, run[|run| - 1]) then |run| else LastWrite(cfg, start, init)
  }

  /** The copy of a session is one ttl after its last touch up to the last write. */
  lemma {:induction false} CopyIsTouch(cfg: Config, start: World, run: seq<Op>, k: string)
    requires Legal(cfg, start, run) && NoRestart(run) && AllWritten(run) && cfg.onDisk && start.store.entries == map[]
    requires k in After(cfg, start, run).store.entries
    ensures var rows := Rows(After(cfg, start, run).store.disk);
            k in rows && LastTouch(run[..LastWrite(cfg, start, run)], k, cfg.ttl, 0, rows[k])
  {
    var init, op := run[..|run| - 1], run[|run| - 1];
    if Wrote(cfg, After(cfg, start, init).store, op) {
      var i := TableIsLiving(cfg, start, run, k);
      assert run[..|run|] == run;
    } else {
      CopyIsTouch(cfg, start, init, k);
      assert run[..LastWrite(cfg, start, init)] == init[..LastWrite(cfg, start, init)];
    }
  }

  /** Which live sessions survive a restart at time t, when every write succeeded:
      exactly those touched at most a ttl before t by the time of the last write. */
  lemma SurvivesExactly(cfg: Config, start: World, run: seq<Op>, t: int, k: string)
    requires Legal(cfg, start, run) && NoRestart(run) && AllWritten(run) && cfg.onDisk && start.store.entries == map[]
    requires k in After(cfg, start, run).store.entries && |k| == KEY_LENGTH && After(cfg, start, run).clock <= t
    ensures k in Do(cfg, After(cfg, start, run).store, Restart(t, t)).entries
       <==> Near(run, k, cfg.ttl, 0, LastWrite(cfg, start, run), t)
  {
    var n := LastWrite(cfg, start, run);
    RestartKeepsExactly(cfg, start, run, t, k);
    CopyIsTouch(cfg, start, run, k);
    NearLast(run[..n], k, cfg.ttl, 0, Rows(After(cfg, start, run).store.disk)[k], t);
    assert forall h | 0 <= h < n :: run[..n][h] == run[h];
    if Near(run, k, cfg.ttl, 0, n, t) {
      var h :| 0 <= h < n && Touches(run[h], k) && t - run[h].t <= cfg.ttl;
      assert Touches(run[..n][h], k);
    }
  }

  // ----- tokens -----

  /** The same operation on the key of its token. */
  function Keyed(hash: string -> string, op: Op): Op {
    if op.Issue? || op.Validate? || op.Revoke? then op.(key := hash(op.key)) else op
  }

  function AllKeyed(hash: string -> string, run: seq<Op>): seq<Op> {
    seq(|run|, i requires 0 <= i < |run| => Keyed(hash, run[i]))
  }

  /** No other token of the run has the hash of this one. */
  predicate NoCollision(hash: string -> string, run: seq<Op>, token: string) {
    forall i | 0 <= i < |run| && (run[i].Issue? || run[i].Validate? || run[i].Revoke?) ::
      hash(run[i].key) == hash(token) ==> run[i].key == token
  }

  lemma NearKeyed(hash: string -> string, run: seq<Op>, token: string, ttl: int, i: nat, n: nat, at: int)
    requires NoCollision(hash, run, token) && n <= |run|
    ensures Near(AllKeyed(hash, run), hash(token), ttl, i, n, at) <==> Near(run, token, ttl, i, n, at)
  {
    var keyed := AllKeyed(hash, run);
    forall h | 0 <= h < |run| ensures Touches(keyed[h], hash(token)) <==> Touches(run[h], token) {}
    if Near(run, token, ttl, i, n, at) {
      var h :| i <= h < n && Touches(run[h], token) && at - run[h].t <= ttl;
      assert Touches(keyed[h], hash(token)) && keyed[h].t == run[h].t;
    }
  }

  lemma LivingKeyed(hash: string -> string, run: seq<Op>, token: string, ttl: int, i: nat)
    requires NoCollision(hash, run, token)
    ensures Living(AllKeyed(hash, run), hash(token), ttl, i) <==> Living(run, token, ttl, i)
  {
    var keyed := AllKeyed(hash, run);
    forall j | 0 <= j < |run|
      ensures Touches(keyed[j], hash(token)) <==> Touches(run[j], token)
      ensures Kills(keyed[j], hash(token)) <==> Kills(run[j], token)
      ensures Near(keyed, hash(token), ttl, i, j, keyed[j].t) <==> Near(run, token, ttl, i, j, run[j].t)
    {
      NearKeyed(hash, run, token, ttl, i, j, run[j].t);
    }
  }

  /** Without restarts, a token that collides with no other is accepted exactly when
      it was issued, not revoked since, and no gap between its touches, the present
      one included, exceeded the ttl. */
  lemma TokensAcceptedExactly(cfg: Config, start: World, hash: string -> string, run: seq<Op>, token: string, t: int)
    requires Legal(cfg, start, AllKeyed(hash, run)) && NoRestart(run) && start.store.entries == map[]
    requires NoCollision(hash, run, token) && After(cfg, start, AllKeyed(hash, run)).clock <= t
    ensures Answer(cfg, After(cfg, start, AllKeyed(hash, run)).store, hash(token), t).Some?
       <==> exists i :: Living(run, token, cfg.ttl, i) && Near(run, token, cfg.ttl, i, |run|, t)
  {
    var keyed := AllKeyed(hash, run);
    AcceptedExactly(cfg, start, keyed, hash(token), t);
    forall i: nat
      ensures Living(keyed, hash(token), cfg.ttl, i) <==> Living(run, token, cfg.ttl, i)
      ensures Near(keyed, hash(token), cfg.ttl, i, |run|, t) <==> Near(run, token, cfg.ttl, i, |run|, t)
    {
      LivingKeyed(hash, run, token, cfg.ttl, i);
      NearKeyed(hash, run, token, cfg.ttl, i, |run|, t);
    }
  }
}

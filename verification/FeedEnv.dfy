/** Saving settings: the payload that says which tracked values changed, and the
    merge that stores them. */
module FeedEnv {
  import opened Text
  import Altitude

  type Env = map<string, string>

  const LATITUDE := "LATITUDE"
  const LONGITUDE := "LONGITUDE"
  const ALTITUDE := "ALTITUDE"
  const GEO_CONFIGURED := "GEO_CONFIGURED"
  const EDITED_BY := "feeder"

  const TRACKED: set<string> := {LATITUDE, LONGITUDE, ALTITUDE, "MLAT_USER", "MLAT_ENABLED", "MLAT_PRIVATE"}

  // ----- the payload -----

  datatype PayloadValue = Plain(text: string) | Stamped(value: string, editedAt: string, editedBy: string)

  function CanonForCompare(key: string, value: string): string {
    if key == ALTITUDE then
      match Altitude.Canon(value, Altitude.HalfEven) case None => value case Some(out) => out
    else value
  }

  function Entry(current: Env, k: string, v: string, stamp: string): PayloadValue {
    if k !in TRACKED then Plain(v)
    else if k in current && CanonForCompare(k, current[k]) == CanonForCompare(k, v) then Plain(v)
    else Stamped(v, stamp, EDITED_BY)
  }

  function Payload(current: Env, posted: Env, stamp: string): map<string, PayloadValue> {
    map k | k in posted :: Entry(current, k, posted[k], stamp)
  }

  method BuildApplyPayload(current: Env, posted: Env, stamp: string) returns (out: map<string, PayloadValue>)
    ensures out == Payload(current, posted, stamp)
  {
    out := map[];
    var left := posted.Keys;
    while left != {}
      invariant left <= posted.Keys
      invariant out == map k | k in posted && k !in left :: Entry(current, k, posted[k], stamp)
      decreases |left|
    {
      var k :| k in left;
      left := left - {k};
      var v := posted[k];
      if k !in TRACKED {
        out := out[k := Plain(v)];
        continue;
      }
      if k in current && CanonForCompare(k, current[k]) == CanonForCompare(k, v) {
        out := out[k := Plain(v)];
        continue;
      }
      out := out[k := Stamped(v, stamp, EDITED_BY)];
    }
  }

  /** The two values are stored as one: equal, or for an altitude equal when canonical. */
  predicate StoredAlike(k: string, v: string, w: string) {
    v == w
    || (k == "ALTITUDE"
        && match (Altitude.Canon(v, Altitude.HalfEven), Altitude.Canon(w, Altitude.HalfEven))
           case (Some(x), Some(y)) => x == y
           case (Some(x), None) => x == w
           case (None, Some(y)) => v == y
           case (None, None) => false)
  }

  /** The payload has exactly the posted keys, each with its posted value.  Exactly the
      tracked ones whose value is new or differs are stamped, with the given time and
      the feeder as editor. */
  lemma PayloadExactly(current: Env, posted: Env, stamp: string, k: string)
    ensures var out := Payload(current, posted, stamp);
            && (k in out <==> k in posted)
            && (k in out ==>
                  && (out[k].Plain? ==> out[k].text == posted[k])
                  && (out[k].Stamped? ==> out[k].value == posted[k] && out[k].editedAt == stamp && out[k].editedBy == "feeder")
                  && (out[k].Stamped?
                      <==> (k == "LATITUDE" || k == "LONGITUDE" || k == "ALTITUDE"
                            || k == "MLAT_USER" || k == "MLAT_ENABLED" || k == "MLAT_PRIVATE")
                           && !(k in current && StoredAlike(k, current[k], posted[k]))))
  {}

  // ----- the merge -----

  function Get(env: Env, k: string): string { if k in env then env[k] else "" }

  /** The value stored for an update: ALTITUDE canonically, when it can be. */
  function Stored(k: string, v: string): string {
    if k == ALTITUDE && Altitude.Canon(v, Altitude.HalfEven).Some? then Altitude.Canon(v, Altitude.HalfEven).value else v
  }

  function Merged(env: Env, u: Env): Env { env + map k | k in u :: Stored(k, u[k]) }

  predicate Derives(u: Env) { GEO_CONFIGURED !in u && (LATITUDE in u || LONGITUDE in u) }

  /** zero tells whether a coordinate text is empty, unreadable or numerically zero. */
  function Geo(env: Env, zero: string -> bool): string {
    if !zero(Get(env, LATITUDE)) || !zero(Get(env, LONGITUDE)) then "true" else "false"
  }

  function Apply(env: Env, u: Env, zero: string -> bool): Env {
    var m := Merged(env, u);
    if Derives(u) then m[GEO_CONFIGURED := Geo(m, zero)] else m
  }

  /** The keys whose stored value is not what it was. */
  function Moved(before: Env, after: Env): set<string> {
    set k | k in after && (k !in before || before[k] != after[k])
  }

  // ----- key order -----

  predicate Less(a: string, b: string) {
    b != "" && (a == "" || a[0] < b[0] || (a[0] == b[0] && Less(a[1..], b[1..])))
  }

  /** The order of the keys is that of their texts: at the first place where they differ,
      or where one ends, the smaller has the smaller character, or has ended. */
  lemma {:induction false} LessExactly(a: string, b: string)
    ensures Less(a, b) <==> exists i: nat :: FirstDifference(a, b, i)
  {
    if a != "" && b != "" && a[0] == b[0] {
      LessExactly(a[1..], b[1..]);
      if i: nat :| FirstDifference(a[1..], b[1..], i) {
        assert a == [a[0]] + a[1..] && b == [b[0]] + b[1..];
        assert a[..i + 1] == [a[0]] + a[1..][..i] && b[..i + 1] == [b[0]] + b[1..][..i];
        assert FirstDifference(a, b, i + 1);
      }
      if i: nat :| FirstDifference(a, b, i) {
        assert i > 0 && a[1..][..i - 1] == a[..i][1..] && b[1..][..i - 1] == b[..i][1..];
        assert FirstDifference(a[1..], b[1..], i - 1);
      }
    } else if b != "" {
      assert FirstDifference(a, b, 0) <==> a == "" || a[0] < b[0];
      forall i: nat | FirstDifference(a, b, i) ensures i == 0 { SameHead(a, b, i); }
    }
  }

  lemma SameHead(a: string, b: string, i: nat)
    requires i <= |a| && i < |b| && a[..i] == b[..i]
    ensures i > 0 ==> a[0] == b[0]
  {
    if i > 0 { assert a[0] == a[..i][0] == b[..i][0] == b[0]; }
  }

  predicate FirstDifference(a: string, b: string, i: nat) {
    i <= |a| && i < |b| && a[..i] == b[..i] && (i == |a| || a[i] < b[i])
  }

  predicate Increasing(s: seq<string>) { forall i, j | 0 <= i < j < |s| :: Less(s[i], s[j]) }

  lemma {:induction false} LessTotal(a: string, b: string)
    ensures Less(a, b) || a == b || Less(b, a)
    ensures !(Less(a, b) && Less(b, a)) && !Less(a, a)
  {
    if a != "" && b != "" {
      LessTotal(a[1..], b[1..]);
      LessTotal(a[1..], a[1..]);
      assert a == [a[0]] + a[1..] && b == [b[0]] + b[1..];
    } else if a != "" {
      LessTotal(a[1..], a[1..]);
    }
  }

  lemma {:induction false} LessTransitive(a: string, b: string, c: string)
    requires Less(a, b) && Less(b, c)
    ensures Less(a, c)
  {
    if a != "" && a[0] == b[0] == c[0] { LessTransitive(a[1..], b[1..], c[1..]); }
  }

  function Insert(k: string, s: seq<string>): seq<string> {
    if s == [] then [k] else if Less(k, s[0]) then [k] + s else [s[0]] + Insert(k, s[1..])
  }

  lemma {:induction false} InsertSorts(k: string, s: seq<string>)
    requires Increasing(s) && k !in s
    ensures Increasing(Insert(k, s))
    ensures forall x :: x in Insert(k, s) <==> x == k || x in s
  {
    if s != [] {
      LessTotal(k, s[0]);
      if Less(k, s[0]) {
        forall j | 0 <= j < |s| ensures Less(k, s[j]) {
          if j > 0 { LessTransitive(k, s[0], s[j]); }
        }
      } else {
        InsertSorts(k, s[1..]);
        var t := Insert(k, s[1..]);
        forall x | x in t ensures Less(s[0], x) {}
        assert s == [s[0]] + s[1..];
      }
    }
  }

  /** Sorting a list of distinct keys, by insertion. */
  function Sort(s: seq<string>): seq<string> {
    if s == [] then [] else Insert(s[|s| - 1], Sort(s[..|s| - 1]))
  }

  predicate Distinct(s: seq<string>) { forall i, j | 0 <= i < j < |s| :: s[i] != s[j] }

  lemma {:induction false} SortSorts(s: seq<string>)
    requires Distinct(s)
    ensures Increasing(Sort(s)) && forall x :: x in Sort(s) <==> x in s
  {
    if s != [] {
      var init := s[..|s| - 1];
      SortSorts(init);
      assert s == init + [s[|s| - 1]];
      InsertSorts(s[|s| - 1], Sort(init));
    }
  }

  /** An increasing list is determined by its members. */
  lemma {:induction false} IncreasingUnique(a: seq<string>, b: seq<string>)
    requires Increasing(a) && Increasing(b) && forall x :: x in a <==> x in b
    ensures a == b
  {
    if a == [] {
      if b != [] { HasMember(b); }
    } else {
      assert a[0] in b && b[0] in a;
      HeadLeast(a, b[0]);
      HeadLeast(b, a[0]);
      LessTotal(a[0], b[0]);
      TailMembers(a);
      TailMembers(b);
      IncreasingUnique(a[1..], b[1..]);
      assert a == [a[0]] + a[1..] && b == [b[0]] + b[1..];
    }
  }

  lemma HasMember(s: seq<string>)
    requires s != []
    ensures exists x :: x in s
  {
    assert s[0] in s;
  }

  lemma HeadLeast(s: seq<string>, x: string)
    requires Increasing(s) && x in s
    ensures x == s[0] || Less(s[0], x)
  {}

  lemma TailMembers(s: seq<string>)
    requires s != [] && Increasing(s)
    ensures forall x :: x in s[1..] <==> x in s && x != s[0]
  {
    LessTotal(s[0], s[0]);
    assert s == [s[0]] + s[1..];
    forall x | x in s[1..] ensures x != s[0] {
      var j :| 0 <= j < |s[1..]| && s[1..][j] == x;
      assert Less(s[0], s[j + 1]);
    }
  }

  // ----- the state of the source -----

  class State {
    var feedEnv: Env
    const zero: string -> bool

    constructor (feedEnv: Env, zero: string -> bool)
      ensures this.feedEnv == feedEnv && this.zero == zero
    {
      this.feedEnv, this.zero := feedEnv, zero;
    }

    /** One update: canonicalised if need be, stored if it differs. */
    method StoreOne(k: string, value: string) returns (moved: bool)
      modifies this
      ensures feedEnv == old(feedEnv)[k := Stored(k, value)]
      ensures moved <==> !(k in old(feedEnv) && old(feedEnv[k]) == Stored(k, value))
    {
      var v := value;
      if k == ALTITUDE {
        var canon := Altitude.Canon(v, Altitude.HalfEven);
        if canon.Some? { v := canon.value; }
      }
      moved := !(k in feedEnv && feedEnv[k] == v);
      if moved {
        feedEnv := feedEnv[k := v];
      } else {
        assert feedEnv[k := v] == feedEnv;
      }
    }

    /** The loop over the updates, in whatever order the map yields them. */
    method StoreUpdates(updates: Env)
      returns (changed: seq<string>, touchedLat: bool, touchedLon: bool, explicitGeo: bool)
      modifies this
      ensures feedEnv == Merged(old(feedEnv), updates)
      ensures Distinct(changed) && forall k :: k in changed <==> k in Moved(old(feedEnv), feedEnv)
      ensures forall k :: k in changed ==> k in updates
      ensures touchedLat == (LATITUDE in updates) && touchedLon == (LONGITUDE in updates)
      ensures explicitGeo == (GEO_CONFIGURED in updates)
    {
      changed := [];
      touchedLat, touchedLon, explicitGeo := false, false, false;
      var left := updates.Keys;
      ghost var done: set<string> := {};
      while left != {}
        invariant done !! left && done + left == updates.Keys
        invariant feedEnv == Partly(old(feedEnv), updates, done)
        invariant touchedLat == (LATITUDE in done) && touchedLon == (LONGITUDE in done)
        invariant explicitGeo == (GEO_CONFIGURED in done)
        invariant Lists(changed, old(feedEnv), updates, done)
        decreases |left|
      {
        var k :| k in left;
        MoveOver(done, left, k);
        left := left - {k};
        if k == LATITUDE { touchedLat := true; }
        if k == LONGITUDE { touchedLon := true; }
        if k == GEO_CONFIGURED { explicitGeo := true; }
        PartlyNext(old(feedEnv), updates, done, k);
        var moved := StoreOne(k, updates[k]);
        ListsNext(changed, old(feedEnv), updates, done, k);
        done := done + {k};
        if moved { changed := changed + [k]; }
      }
      MovedOfMerged(old(feedEnv), updates);
    }

    /** The derived flag; returns whether its stored value moved. */
    method DeriveGeo() returns (moved: bool)
      modifies this
      ensures feedEnv == old(feedEnv)[GEO_CONFIGURED := Geo(old(feedEnv), zero)]
      ensures moved <==> GEO_CONFIGURED !in old(feedEnv) || old(feedEnv[GEO_CONFIGURED]) != Geo(old(feedEnv), zero)
    {
      var derived := "false";
      if !zero(Get(feedEnv, LATITUDE)) || !zero(Get(feedEnv, LONGITUDE)) { derived := "true"; }
      moved := Get(feedEnv, GEO_CONFIGURED) != derived;
      if moved {
        feedEnv := feedEnv[GEO_CONFIGURED := derived];
      } else {
        assert feedEnv[GEO_CONFIGURED := derived] == feedEnv;
      }
    }

    /** syncOk: whether the runtime state files could be rewritten afterwards. */
    method ApplyFeedEnv(updates: Env, syncOk: bool) returns (result: Option<seq<string>>)
      modifies this
      ensures feedEnv == Apply(old(feedEnv), updates, zero)
      ensures result.Some? <==> syncOk
      ensures syncOk ==> Increasing(result.value)
      ensures syncOk ==> forall k :: k in result.value <==> k in Moved(old(feedEnv), feedEnv)
    {
      var changed, touchedLat, touchedLon, explicitGeo := StoreUpdates(updates);
      if !explicitGeo && (touchedLat || touchedLon) {
        var moved := DeriveGeo();
        if moved && GEO_CONFIGURED !in changed { changed := changed + [GEO_CONFIGURED]; }
      }
      SortSorts(changed);
      if !syncOk { return None; }
      result := Some(Sort(changed));
    }
  }

  /** The updates named in done are stored, the others not yet. */
  function Partly(env: Env, u: Env, done: set<string>): Env
    requires done <= u.Keys
  {
    env + map x | x in done :: Stored(x, u[x])
  }

  predicate Moves(env: Env, u: Env, k: string) { k in u && !(k in env && env[k] == Stored(k, u[k])) }

  lemma MoveOver(done: set<string>, left: set<string>, k: string)
    requires k in left && done !! left
    ensures (done + {k}) + (left - {k}) == done + left && (done + {k}) !! (left - {k})
  {}

  /** changed names, once each, the updates in done that move their key. */
  ghost predicate Lists(changed: seq<string>, env: Env, u: Env, done: set<string>) {
    Distinct(changed) && forall k :: k in changed <==> k in done && Moves(env, u, k)
  }

  lemma ListsNext(changed: seq<string>, env: Env, u: Env, done: set<string>, k: string)
    requires Lists(changed, env, u, done) && k !in done
    ensures Lists(if Moves(env, u, k) then changed + [k] else changed, env, u, done + {k})
  {}

  lemma PartlyNext(env: Env, u: Env, done: set<string>, k: string)
    requires done <= u.Keys && k in u && k !in done
    ensures Partly(env, u, done + {k}) == Partly(env, u, done)[k := Stored(k, u[k])]
    ensures !Moves(env, u, k) <==> k in Partly(env, u, done) && Partly(env, u, done)[k] == Stored(k, u[k])
    ensures !Moves(env, u, k) ==> Partly(env, u, done + {k}) == Partly(env, u, done)
  {}

  lemma MovedOfMerged(env: Env, u: Env)
    ensures Partly(env, u, u.Keys) == Merged(env, u)
    ensures forall k :: k in Moved(env, Merged(env, u)) <==> Moves(env, u, k)
  {}

  /** What a save leaves under each key: the posted value, an altitude canonically when it
      can be; the derived flag, when a coordinate was posted and the flag was not,
      which is "false" exactly if both stored coordinates count as zero; and for every
      other key what was there. */
  lemma SavedExactly(env: Env, u: Env, zero: string -> bool, k: string)
    ensures var n := Apply(env, u, zero);
            var derived := "GEO_CONFIGURED" !in u && ("LATITUDE" in u || "LONGITUDE" in u);
            var canon := if k in u then Altitude.Canon(u[k], Altitude.HalfEven) else None;
            && (k in u ==> k in n && n[k] == if k == "ALTITUDE" && canon.Some? then canon.value else u[k])
            && (derived ==>
                  && "GEO_CONFIGURED" in n
                  && n["GEO_CONFIGURED"] ==
                     if zero(if "LATITUDE" in n then n["LATITUDE"] else "") && zero(if "LONGITUDE" in n then n["LONGITUDE"] else "")
                     then "false" else "true")
            && (k !in u && !(derived && k == "GEO_CONFIGURED") ==> (k in n <==> k in env) && (k in env ==> n[k] == env[k]))
  {}

  // ----- saving twice -----

  lemma SecondApply(env: Env, u: Env, zero: string -> bool)
    ensures Apply(Apply(env, u, zero), u, zero) == Apply(env, u, zero)
  {
    var n := Apply(env, u, zero);
    assert Merged(n, u) == n;
  }

  lemma CanonTwice(k: string, v: string)
    ensures CanonForCompare(k, Stored(k, v)) == CanonForCompare(k, v)
    ensures Stored(k, v) == CanonForCompare(k, v)
  {
    if k == ALTITUDE && Altitude.Canon(v, Altitude.HalfEven).Some? {
      Altitude.Idempotent(v, Altitude.HalfEven, Altitude.HalfEven);
    }
  }

  /** Saving the same form twice changes nothing the second time: no key moves, and
      the payload built against the stored values stamps none of them. */
  lemma SaveTwiceIsQuiet(env: Env, u: Env, zero: string -> bool, stamp: string)
    ensures var n := Apply(env, u, zero);
            && Apply(n, u, zero) == n && Moved(n, Apply(n, u, zero)) == {}
            && Payload(n, u, stamp) == map k | k in u :: Plain(u[k])
  {
    SecondApply(env, u, zero);
    var n := Apply(env, u, zero);
    forall k | k in u ensures Entry(n, k, u[k], stamp) == Plain(u[k]) {
      CanonTwice(k, u[k]);
    }
  }

  /** The reported list depends on the stored values alone, not on the order in
      which the updates were visited. */
  lemma ChangedIsDetermined(before: Env, after: Env, a: seq<string>, b: seq<string>)
    requires Increasing(a) && Increasing(b)
    requires forall k :: k in a <==> k in Moved(before, after)
    requires forall k :: k in b <==> k in Moved(before, after)
    ensures a == b
  {
    IncreasingUnique(a, b);
  }

  // ----- metadata against movement -----

  /** The payload stamps a tracked update exactly when the merge moves its key. */
  predicate StampsMoves(env: Env, u: Env, zero: string -> bool, stamp: string) {
    forall k | k in u && k in TRACKED ::
      Entry(env, k, u[k], stamp).Stamped? <==> k in Moved(env, Apply(env, u, zero))
  }

  /** For every update, exactly while the stored altitude is its own canonical form. */
  lemma StampsExactlyMoves(env: Env, zero: string -> bool, stamp: string)
    ensures (forall u: Env :: StampsMoves(env, u, zero, stamp))
       <==> (ALTITUDE in env ==> CanonForCompare(ALTITUDE, env[ALTITUDE]) == env[ALTITUDE])
  {
    if ALTITUDE in env ==> CanonForCompare(ALTITUDE, env[ALTITUDE]) == env[ALTITUDE] {
      forall u: Env ensures StampsMoves(env, u, zero, stamp) {
        forall k | k in u && k in TRACKED
          ensures Entry(env, k, u[k], stamp).Stamped? <==> k in Moved(env, Apply(env, u, zero))
        {
          CanonTwice(k, u[k]);
        }
      }
    } else {
      var u: Env := map[ALTITUDE := env[ALTITUDE]];
      CanonTwice(ALTITUDE, env[ALTITUDE]);
      assert ALTITUDE in Moved(env, Apply(env, u, zero));
      assert !StampsMoves(env, u, zero, stamp);
    }
  }

  /** A merge that sets the altitude leaves it canonical. */
  lemma ApplyCanonicalises(env: Env, u: Env, zero: string -> bool)
    requires ALTITUDE in u
    ensures var n := Apply(env, u, zero);
            CanonForCompare(ALTITUDE, n[ALTITUDE]) == n[ALTITUDE]
  {
    CanonTwice(ALTITUDE, u[ALTITUDE]);
  }
}

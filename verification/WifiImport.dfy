/** Bulk import of Wi-Fi profiles: every entry is vetted first, then each is applied
    without touching the active connection. */
module WifiImport {
  import opened Text
  import opened Wifi

  datatype Entry = Entry(id: string, ssid: string, psk: string, hidden: bool, priority: int)

  /** One result per entry: applied, or skipped because its network is active. */
  datatype Line = Line(id: string, ssid: string, applied: bool)

  datatype Outcome = ParseError | Rejected | Imported(imported: nat, results: seq<Line>)

  /** The list as it was when the import began, by id. */
  function Snapshot(nets: Networks): map<string, Network> {
    if nets == [] then map[] else Snapshot(nets[..|nets| - 1])[nets[|nets| - 1].id := nets[|nets| - 1]]
  }

  predicate Known(was: map<string, Network>, e: Entry) { e.id != "" && e.id in was }

  predicate Skipped(was: map<string, Network>, e: Entry) { Known(was, e) && was[e.id].active }

  function Applied(nets: Networks, was: map<string, Network>, e: Entry, slug: string -> string, uuid: string): (Networks, Line) {
    if Skipped(was, e) then (nets, Line(e.id, e.ssid, false))
    else if Known(was, e) then
      (Updated(nets, e.id, e.ssid, e.psk, e.hidden, e.priority), Line(e.id, e.ssid, true))
    else
      (Added(nets, slug(e.ssid), uuid, e.ssid, e.psk, e.hidden, e.priority),
       Line(FreshId(nets, Base(slug(e.ssid))), e.ssid, true))
  }

  function AllApplied(nets: Networks, was: map<string, Network>, entries: seq<Entry>, slug: string -> string, uuid: nat -> string)
    : (Networks, seq<Line>)
  {
    if entries == [] then (nets, [])
    else
      var n := |entries| - 1;
      var (before, lines) := AllApplied(nets, was, entries[..n], slug, uuid);
      var (after, line) := Applied(before, was, entries[n], slug, uuid(n));
      (after, lines + [line])
  }

  function CountApplied(lines: seq<Line>): nat {
    if lines == [] then 0 else CountApplied(lines[..|lines| - 1]) + (if lines[|lines| - 1].applied then 1 else 0)
  }

  predicate Valid(entries: seq<Entry>) { forall i | 0 <= i < |entries| :: entries[i].ssid != "" }

  function Import(nets: Networks, body: Option<seq<Entry>>, slug: string -> string, uuid: nat -> string): (Networks, Outcome) {
    if body.None? then (nets, ParseError)
    else if !Valid(body.value) then (nets, Rejected)
    else
      var (after, lines) := AllApplied(nets, Snapshot(nets), body.value, slug, uuid);
      (after, Imported(CountApplied(lines), lines))
  }

  method ById(nets: Networks) returns (existing: map<string, Network>)
    ensures existing == Snapshot(nets)
  {
    existing := map[];
    for i := 0 to |nets|
      invariant existing == Snapshot(nets[..i])
    {
      assert nets[..i + 1][..i] == nets[..i];
      existing := existing[nets[i].id := nets[i]];
    }
    assert nets[..|nets|] == nets;
  }

  /** One turn of the second pass. */
  method ImportOne(state: State, existing: map<string, Network>, n: Entry, uuid: string) returns (line: Line)
    modifies state`networks
    ensures (state.networks, line) == Applied(old(state.networks), existing, n, state.slug, uuid)
  {
    if n.id != "" && n.id in existing {
      if existing[n.id].active { return Line(n.id, n.ssid, false); }
      var _ := state.WifiUpdate(n.id, n.ssid, n.psk, n.hidden, n.priority);
      return Line(n.id, n.ssid, true);
    }
    var id := state.WifiAdd(uuid, n.ssid, n.psk, n.hidden, n.priority);
    line := Line(id, n.ssid, true);
  }

  lemma AllNext(nets: Networks, was: map<string, Network>, entries: seq<Entry>, i: nat, slug: string -> string, uuid: nat -> string)
    requires i < |entries|
    ensures var (before, lines) := AllApplied(nets, was, entries[..i], slug, uuid);
            var (after, line) := Applied(before, was, entries[i], slug, uuid(i));
            AllApplied(nets, was, entries[..i + 1], slug, uuid) == (after, lines + [line])
  {
    assert entries[..i + 1][..i] == entries[..i];
  }

  lemma CountNext(lines: seq<Line>, line: Line)
    ensures CountApplied(lines + [line]) == CountApplied(lines) + if line.applied then 1 else 0
  {
    assert (lines + [line])[..|lines|] == lines;
  }

  /** The second pass. */
  method ApplyAll(state: State, existing: map<string, Network>, entries: seq<Entry>, uuid: nat -> string)
    returns (imported: nat, results: seq<Line>)
    modifies state`networks
    ensures (state.networks, results) == AllApplied(old(state.networks), existing, entries, state.slug, uuid)
    ensures imported == CountApplied(results)
  {
    results, imported := [], 0;
    for i := 0 to |entries|
      invariant (state.networks, results) == AllApplied(old(state.networks), existing, entries[..i], state.slug, uuid)
      invariant imported == CountApplied(results)
    {
      AllNext(old(state.networks), existing, entries, i, state.slug, uuid);
      var line := ImportOne(state, existing, entries[i], uuid(i));
      CountNext(results, line);
      results := results + [line];
      if line.applied { imported := imported + 1; }
    }
    assert entries[..|entries|] == entries;
  }

  /** The first pass. */
  method AllNamed(entries: seq<Entry>) returns (ok: bool)
    ensures ok <==> Valid(entries)
  {
    for i := 0 to |entries|
      invariant forall j | 0 <= j < i :: entries[j].ssid != ""
    {
      if entries[i].ssid == "" { return false; }
    }
    ok := true;
  }

  /** body: the decoded entries, or None when the JSON cannot be read; uuid: the
      random identifier drawn for each entry. */
  method ImportBody(state: State, body: Option<seq<Entry>>, uuid: nat -> string) returns (r: Outcome)
    modifies state`networks
    ensures (state.networks, r) == Import(old(state.networks), body, state.slug, uuid)
  {
    if body.None? { return ParseError; }
    var ok := AllNamed(body.value);
    if !ok { return Rejected; }
    var existing := ById(state.networks);
    var imported, results := ApplyAll(state, existing, body.value, uuid);
    r := Imported(imported, results);
  }

  // ----- guarantees -----

  lemma {:induction false} SnapshotById(nets: Networks)
    requires DistinctIds(nets)
    ensures Snapshot(nets).Keys == Ids(nets)
    ensures forall i | 0 <= i < |nets| :: Snapshot(nets)[nets[i].id] == nets[i]
  {
    if nets != [] {
      var init := nets[..|nets| - 1];
      SnapshotById(init);
      assert nets == init + [nets[|nets| - 1]];
      forall n | n in nets ensures n in init || n == nets[|nets| - 1] {}
    }
  }

  /** The list that was there is still there: same places, ids and active flags, the
      active network untouched; whatever was added is managed and not active. */
  predicate Preserved(was: Networks, now: Networks) {
    && |was| <= |now|
    && (forall i | 0 <= i < |was| :: now[i].id == was[i].id && now[i].active == was[i].active)
    && (forall i | 0 <= i < |was| && was[i].active :: now[i] == was[i])
    && (forall i | |was| <= i < |now| :: now[i].managed && !now[i].active)
  }

  /** The network called id carries the entry's settings. */
  predicate Carries(nets: Networks, id: string, e: Entry) {
    exists k :: 0 <= k < |nets| && nets[k].id == id && nets[k].ssid == e.ssid
      && nets[k].hidden == e.hidden && nets[k].priority == e.priority && (e.psk != "" ==> nets[k].hasPsk)
  }

  lemma KnownIndex(was: Networks, nets: Networks, e: Entry)
    requires Good(was) && Good(nets) && Preserved(was, nets) && Known(Snapshot(was), e)
    ensures var k := IndexOf(nets, e.id);
            k < |was| && nets[k].id == was[k].id == e.id && Snapshot(was)[e.id] == was[k]
  {
    SnapshotById(was);
    var n :| n in was && n.id == e.id;
    var j :| 0 <= j < |was| && was[j] == n;
    assert nets[j].id == e.id;
  }

  lemma AppliedKeeps(was: Networks, nets: Networks, e: Entry, slug: string -> string, uuid: string)
    requires Good(was) && Good(nets) && Preserved(was, nets) && e.ssid != ""
    ensures var (after, line) := Applied(nets, Snapshot(was), e, slug, uuid);
            && Good(after) && Preserved(was, after)
            && (line.applied <==> !Skipped(Snapshot(was), e))
            && (line.applied ==> Carries(after, line.id, e) && (line.id == e.id || line.id !in Ids(nets)))
  {
    var (after, line) := Applied(nets, Snapshot(was), e, slug, uuid);
    if Known(Snapshot(was), e) {
      KnownIndex(was, nets, e);
      var k := IndexOf(nets, e.id);
      if line.applied {
        ReplacedKeepsGood(nets, k, Edited(nets[k], e.ssid, e.psk, e.hidden, e.priority));
        assert after[k].id == e.id;
      }
    } else {
      AddedKeepsGood(nets, after[|nets|]);
      assert after[|nets|].id == line.id;
    }
  }

  /** An application leaves every network of another id as it was. */
  lemma OthersCarry(was: Networks, nets: Networks, e: Entry, slug: string -> string, uuid: string, id: string, f: Entry)
    requires Carries(nets, id, f) && (id != e.id || !Known(Snapshot(was), e))
    ensures Carries(Applied(nets, Snapshot(was), e, slug, uuid).0, id, f)
  {
    var k :| 0 <= k < |nets| && nets[k].id == id && nets[k].ssid == f.ssid
      && nets[k].hidden == f.hidden && nets[k].priority == f.priority && (f.psk != "" ==> nets[k].hasPsk);
    var after := Applied(nets, Snapshot(was), e, slug, uuid).0;
    assert after[k] == nets[k];
  }

  /** Entry i is the last word on the network it was applied to. */
  predicate LastWord(was: Networks, entries: seq<Entry>, lines: seq<Line>, i: nat)
    requires i < |lines| == |entries|
  {
    lines[i].applied && forall j | i < j < |entries| :: entries[j].id != lines[i].id || !Known(Snapshot(was), entries[j])
  }

  lemma {:induction false} ImportKeeps(was: Networks, entries: seq<Entry>, slug: string -> string, uuid: nat -> string)
    requires Good(was) && Valid(entries)
    ensures var (after, lines) := AllApplied(was, Snapshot(was), entries, slug, uuid);
            && Good(after) && Preserved(was, after) && |lines| == |entries|
            && (forall i | 0 <= i < |lines| :: lines[i].applied <==> !Skipped(Snapshot(was), entries[i]))
  {
    if entries != [] {
      var n := |entries| - 1;
      ImportKeeps(was, entries[..n], slug, uuid);
      var (before, ls) := AllApplied(was, Snapshot(was), entries[..n], slug, uuid);
      AppliedKeeps(was, before, entries[n], slug, uuid(n));
    }
  }

  lemma LastWordStep(was: Networks, before: Networks, init: seq<Entry>, ls: seq<Line>, e: Entry,
                     slug: string -> string, uuid: string, i: nat)
    requires Good(was) && Good(before) && Preserved(was, before) && e.ssid != "" && |ls| == |init|
    requires i <= |init| && LastWord(was, init + [e], ls + [Applied(before, Snapshot(was), e, slug, uuid).1], i)
    requires i < |init| && LastWord(was, init, ls, i) ==> Carries(before, ls[i].id, init[i])
    ensures var (after, line) := Applied(before, Snapshot(was), e, slug, uuid);
            Carries(after, (ls + [line])[i].id, (init + [e])[i])
  {
    if i < |init| {
      LastWordPrefix(was, init, e, ls, Applied(before, Snapshot(was), e, slug, uuid).1, i);
      OthersCarry(was, before, e, slug, uuid, ls[i].id, init[i]);
    } else {
      AppliedKeeps(was, before, e, slug, uuid);
    }
  }

  lemma ListAfter(was: Networks, entries: seq<Entry>, slug: string -> string, uuid: nat -> string, after: Networks, lines: seq<Line>)
    requires Good(was) && Valid(entries) && (after, lines) == AllApplied(was, Snapshot(was), entries, slug, uuid)
    ensures Good(after) && Preserved(was, after) && |lines| == |entries|
  {
    ImportKeeps(was, entries, slug, uuid);
  }

  lemma {:induction false} LastWordCarries(was: Networks, entries: seq<Entry>, slug: string -> string, uuid: nat -> string,
                                           i: nat, after: Networks, lines: seq<Line>)
    requires Good(was) && Valid(entries) && (after, lines) == AllApplied(was, Snapshot(was), entries, slug, uuid)
    requires i < |entries| == |lines| && LastWord(was, entries, lines, i)
    ensures Carries(after, lines[i].id, entries[i])
    decreases |entries|
  {
    var n := |entries| - 1;
    var init, e := entries[..n], entries[n];
    assert init + [e] == entries;
    var (before, ls) := AllApplied(was, Snapshot(was), init, slug, uuid);
    ListAfter(was, init, slug, uuid, before, ls);
    if i < n && LastWord(was, init, ls, i) { LastWordCarries(was, init, slug, uuid, i, before, ls); }
    LastWordStep(was, before, init, ls, e, slug, uuid(n), i);
  }

  lemma LastWordPrefix(was: Networks, entries: seq<Entry>, e: Entry, lines: seq<Line>, line: Line, i: nat)
    requires i < |entries| == |lines| && LastWord(was, entries + [e], lines + [line], i)
    ensures LastWord(was, entries, lines, i) && (e.id != lines[i].id || !Known(Snapshot(was), e))
  {
    assert (entries + [e])[|entries|] == e && (lines + [line])[i] == lines[i];
    assert forall j | 0 <= j < |entries| :: (entries + [e])[j] == entries[j];
  }

  /** The entry names, by a non-empty id, a network that was active. */
  predicate NamesActive(was: Networks, e: Entry) {
    e.id != "" && exists k :: 0 <= k < |was| && was[k].id == e.id && was[k].active
  }

  lemma SkippedExactly(was: Networks, e: Entry)
    requires Good(was)
    ensures Skipped(Snapshot(was), e) <==> NamesActive(was, e)
  {}

  /** The entry names, by a non-empty id, a network that was there. */
  predicate NamesKnown(was: Networks, e: Entry) {
    e.id != "" && exists k :: 0 <= k < |was| && was[k].id == e.id
  }

  lemma KnownExactly(was: Networks, e: Entry)
    requires Good(was)
    ensures Known(Snapshot(was), e) <==> NamesKnown(was, e)
  {
    SnapshotById(was);
    if Known(Snapshot(was), e) { KnownIndex(was, was, e); }
  }

  /** Each line names its entry's network: the one it was for, or a new one. */
  predicate LineOf(was: Networks, e: Entry, line: Line) {
    line.ssid == e.ssid && if NamesKnown(was, e) then line.id == e.id else line.id !in Ids(was)
  }

  lemma {:induction false} LinesName(was: Networks, entries: seq<Entry>, slug: string -> string, uuid: nat -> string)
    requires Good(was) && Valid(entries)
    ensures var lines := AllApplied(was, Snapshot(was), entries, slug, uuid).1;
            |lines| == |entries| && forall i | 0 <= i < |lines| :: LineOf(was, entries[i], lines[i])
  {
    if entries != [] {
      var n := |entries| - 1;
      LinesName(was, entries[..n], slug, uuid);
      ImportKeeps(was, entries[..n], slug, uuid);
      LineNames(was, AllApplied(was, Snapshot(was), entries[..n], slug, uuid).0, entries[n], slug, uuid(n));
    }
  }

  lemma LineNames(was: Networks, before: Networks, e: Entry, slug: string -> string, uuid: string)
    requires Good(was) && Preserved(was, before)
    ensures LineOf(was, e, Applied(before, Snapshot(was), e, slug, uuid).1)
  {
    KnownExactly(was, e);
    IdsKept(was, before);
  }

  lemma IdsKept(was: Networks, now: Networks)
    requires Preserved(was, now)
    ensures Ids(was) <= Ids(now)
  {
    forall id | id in Ids(was) ensures id in Ids(now) {
      var n :| n in was && n.id == id;
      var k :| 0 <= k < |was| && was[k] == n;
      assert now[k] in now;
    }
  }

  lemma {:induction false} CountIsSize(lines: seq<Line>)
    ensures CountApplied(lines) == |set i | 0 <= i < |lines| && lines[i].applied|
  {
    var all := set i | 0 <= i < |lines| && lines[i].applied;
    if lines == [] {
      assert all == {};
    } else {
      var n := |lines| - 1;
      CountIsSize(lines[..n]);
      var before := set i | 0 <= i < |lines[..n]| && lines[..n][i].applied;
      assert all == before + if lines[n].applied then {n} else {};
    }
  }

  /** An import keeps the list well formed and leaves the active network alone; the last
      entry applied to a network decides its settings; and an import that is refused
      changes nothing. */
  lemma ImportIsSafe(was: Networks, body: Option<seq<Entry>>, slug: string -> string, uuid: nat -> string)
    requires Good(was)
    ensures var (after, r) := Import(was, body, slug, uuid);
            && Good(after) && Preserved(was, after)
            && (!r.Imported? ==> after == was)
            && (r.Imported? ==>
                  body.Some? && |r.results| == |body.value|
                  && forall i | 0 <= i < |r.results| ::
                       LastWord(was, body.value, r.results, i) ==> Carries(after, r.results[i].id, body.value[i]))
  {
    if body.Some? && Valid(body.value) {
      ImportKeeps(was, body.value, slug, uuid);
      var (after, lines) := AllApplied(was, Snapshot(was), body.value, slug, uuid);
      forall i | 0 <= i < |lines| && LastWord(was, body.value, lines, i) ensures Carries(after, lines[i].id, body.value[i]) {
        LastWordCarries(was, body.value, slug, uuid, i, after, lines);
      }
    }
  }

  /** What an import answers: an error for an unreadable body; a refusal if some entry has
      no name; otherwise a line for each entry, naming its network, that says applied
      unless it names the active one, and the number of those applied. */
  lemma ImportAnswers(was: Networks, body: Option<seq<Entry>>, slug: string -> string, uuid: nat -> string)
    requires Good(was)
    ensures var r := Import(was, body, slug, uuid).1;
            && (r.ParseError? <==> body.None?)
            && (r.Rejected? <==> body.Some? && exists i :: 0 <= i < |body.value| && body.value[i].ssid == "")
            && (r.Imported? ==>
                  && body.Some? && |r.results| == |body.value|
                  && r.imported == |set i | 0 <= i < |r.results| && r.results[i].applied|
                  && forall i | 0 <= i < |r.results| ::
                       LineOf(was, body.value[i], r.results[i]) && (r.results[i].applied <==> !NamesActive(was, body.value[i])))
  {
    if body.Some? && Valid(body.value) {
      var lines := AllApplied(was, Snapshot(was), body.value, slug, uuid).1;
      ImportKeeps(was, body.value, slug, uuid);
      LinesName(was, body.value, slug, uuid);
      CountIsSize(lines);
      forall i | 0 <= i < |lines| ensures lines[i].applied <==> !NamesActive(was, body.value[i]) {
        SkippedExactly(was, body.value[i]);
      }
    }
  }
}

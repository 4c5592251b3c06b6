/** The restore progress stream: the server writes one JSON object a line and ends
    with a summary; the browser splits what arrives, chunk by chunk, into lines. */
module RestoreStream {
  import opened Text
  import opened TextDecoder

  function Concat(chunks: seq<seq<byte>>): seq<byte> {
    if chunks == [] then [] else Concat(chunks[..|chunks| - 1]) + chunks[|chunks| - 1]
  }

  // ----- one line -----

  datatype Event = Section(section: string, status: string, reason: string) | Summary(passwordChanged: bool) | OtherValue(text: string)

  /** JSON.parse: a failure, the value null, or a value one may read a type from. */
  datatype Parsed = BadJson | NullJson | Value(event: Event)

  predicate IsSpace(c: char) {
    || '\t' <= c <= '\r' || c == ' ' || c == '\U{A0}' || c == '\U{1680}' || '\U{2000}' <= c <= '\U{200A}'
    || c == '\U{2028}' || c == '\U{2029}' || c == '\U{202F}' || c == '\U{205F}' || c == '\U{3000}' || c == '\U{FEFF}'
  }

  function Trim(s: string): string {
    if s == "" then s
    else if IsSpace(s[0]) then Trim(s[1..])
    else if IsSpace(s[|s| - 1]) then Trim(s[..|s| - 1])
    else s
  }

  predicate AllSpace(s: string) { forall i | 0 <= i < |s| :: IsSpace(s[i]) }

  /** Trimming takes off white space at both ends, and all of it. */
  lemma {:induction false} TrimExactly(s: string) returns (a: string, b: string)
    ensures s == a + Trim(s) + b && AllSpace(a) && AllSpace(b)
    ensures Trim(s) == "" || (!IsSpace(Trim(s)[0]) && !IsSpace(Trim(s)[|Trim(s)| - 1]))
  {
    a, b := "", "";
    if s != "" {
      if IsSpace(s[0]) {
        a, b := TrimExactly(s[1..]);
        Group([s[0]], a, Trim(s[1..]), b);
        a := [s[0]] + a;
        assert s == [s[0]] + s[1..];
      } else if IsSpace(s[|s| - 1]) {
        a, b := TrimExactly(s[..|s| - 1]);
        assert s == s[..|s| - 1] + [s[|s| - 1]];
        assert a + Trim(s) + (b + [s[|s| - 1]]) == a + Trim(s) + b + [s[|s| - 1]];
        b := b + [s[|s| - 1]];
      }
    }
  }

  /** What has been handled: the events passed on, the last summary, and whether
      reading the type of null has thrown. */
  datatype Seen = Seen(events: seq<Event>, summary: Option<Event>, threw: bool)

  const NOTHING := Seen([], None, false)

  function HandleLine(parse: string -> Parsed, seen: Seen, line: string): Seen {
    var text := Trim(line);
    if seen.threw || text == "" then seen
    else match parse(text)
      case BadJson => seen
      case NullJson => seen.(threw := true)
      case Value(ev) => Seen(seen.events + [ev], if ev.Summary? then Some(ev) else seen.summary, false)
  }

  function HandleLines(parse: string -> Parsed, seen: Seen, lines: seq<string>): Seen {
    if lines == [] then seen
    else HandleLine(parse, HandleLines(parse, seen, lines[..|lines| - 1]), lines[|lines| - 1])
  }

  // ----- the whole body -----

  datatype Outcome = Success(summary: Event) | Truncated | ConnectionLost | Threw

  /** The lines handled for a body.  The decoder's last flush goes to the last line,
      which is not handled at all when the connection is lost. */
  function LinesOf<S>(d: Decoder<S>, body: seq<byte>, lost: bool): seq<string> {
    var (end, text) := DecodeFrom(d, d.start, body);
    var lines := Split(text, '\n');
    var n := |lines| - 1;
    if lost then lines[..n] else lines[..n] + [lines[n] + d.flush(end)]
  }

  function Read<S>(d: Decoder<S>, parse: string -> Parsed, body: seq<byte>, lost: bool): (Outcome, seq<Event>) {
    var seen := HandleLines(parse, NOTHING, LinesOf(d, body, lost));
    (if lost && !seen.threw then ConnectionLost else Verdict(seen), seen.events)
  }

  function Verdict(seen: Seen): Outcome {
    if seen.threw then Threw else if seen.summary.Some? then Success(seen.summary.value) else Truncated
  }

  function Unlines(lines: seq<string>): string {
    if lines == [] then "" else Unlines(lines[..|lines| - 1]) + lines[|lines| - 1] + "\n"
  }

  predicate AllFree(lines: seq<string>) { forall i | 0 <= i < |lines| :: Free(lines[i], '\n') }

  lemma Group(a: string, b: string, c: string, d: string)
    ensures a + b + c + d == a + (b + c + d)
  {}

  lemma Regroup(init: seq<string>, last: string, more: seq<string>)
    ensures init + ([last] + more) == init + [last] + more
  {}

  lemma {:induction false} SplitUnlines(lines: seq<string>, rest: string)
    requires AllFree(lines)
    ensures Split(Unlines(lines) + rest, '\n') == lines + Split(rest, '\n')
  {
    if lines == [] {
      assert Unlines(lines) + rest == rest;
    } else {
      var init, last := lines[..|lines| - 1], lines[|lines| - 1];
      SplitUnlines(init, last + "\n" + rest);
      SplitHead(last, rest, '\n');
      Group(Unlines(init), last, "\n", rest);
      Regroup(init, last, Split(rest, '\n'));
      assert init + [last] == lines;
    }
  }

  lemma {:induction false} HandleConcat(parse: string -> Parsed, seen: Seen, a: seq<string>, b: seq<string>)
    ensures HandleLines(parse, seen, a + b) == HandleLines(parse, HandleLines(parse, seen, a), b)
  {
    if b == [] {
      assert a + b == a;
    } else {
      HandleConcat(parse, seen, a, b[..|b| - 1]);
      assert (a + b)[..|a + b| - 1] == a + b[..|b| - 1];
    }
  }

  lemma {:induction false} ThrownStays(parse: string -> Parsed, seen: Seen, lines: seq<string>)
    requires seen.threw
    ensures HandleLines(parse, seen, lines) == seen
  {
    if lines != [] { ThrownStays(parse, seen, lines[..|lines| - 1]); }
  }

  /** The lines of a longer body start with the lines already cut off. */
  lemma LinesExtend<S>(d: Decoder<S>, before: seq<byte>, after: seq<byte>, lost: bool, lines: seq<string>, rest: string)
    returns (more: seq<string>)
    requires AllFree(lines) && DecodeFrom(d, d.start, before).1 == Unlines(lines) + rest
    ensures LinesOf(d, before + after, lost) == lines + more
    ensures after == [] && Free(rest, '\n') ==>
              more == if lost then [] else [rest + d.flush(DecodeFrom(d, d.start, before).0)]
  {
    DecodeConcat(d, d.start, before, after);
    var (end, text) := DecodeFrom(d, d.start, before + after);
    var tail := rest + DecodeFrom(d, DecodeFrom(d, d.start, before).0, after).1;
    assert text == Unlines(lines) + tail;
    SplitUnlines(lines, tail);
    var parts := Split(tail, '\n');
    var n := |parts| - 1;
    more := if lost then parts[..n] else parts[..n] + [parts[n] + d.flush(end)];
    assert (lines + parts)[..|lines| + n] == lines + parts[..n];
    if after == [] && Free(rest, '\n') {
      assert tail == rest && before + after == before;
      SplitFree(rest, '\n');
    }
  }

  // ----- the reader of the source -----

  function IndexOf(s: string, c: char): (i: int)
    ensures -1 <= i < |s|
    ensures if i < 0 then Free(s, c) else s[i] == c && Free(s[..i], c)
  {
    if s == "" then -1
    else if s[0] == c then 0
    else
      var i := IndexOf(s[1..], c);
      if i < 0 then -1 else assert s[..i + 1] == [s[0]] + s[1..][..i]; i + 1
  }

  /** Where the reader is, between two chunks. */
  datatype Reading<S> = Reading(state: S, buf: string, seen: Seen)

  /** Complete lines are cut off the buffer and handled, until none is left or one throws. */
  function CutAll(parse: string -> Parsed, buf: string, seen: Seen): (string, Seen)
    decreases |buf|
  {
    var nl := IndexOf(buf, '\n');
    if seen.threw || nl < 0 then (buf, seen)
    else CutAll(parse, buf[nl + 1..], HandleLine(parse, seen, buf[..nl]))
  }

  function FeedChunk<S>(d: Decoder<S>, parse: string -> Parsed, r: Reading<S>, chunk: seq<byte>): Reading<S> {
    if r.seen.threw then r
    else
      var (next, more) := DecodeFrom(d, r.state, chunk);
      var (buf, seen) := CutAll(parse, r.buf + more, r.seen);
      Reading(next, buf, seen)
  }

  function FeedAll<S>(d: Decoder<S>, parse: string -> Parsed, chunks: seq<seq<byte>>): Reading<S> {
    if chunks == [] then Reading(d.start, "", NOTHING)
    else FeedChunk(d, parse, FeedAll(d, parse, chunks[..|chunks| - 1]), chunks[|chunks| - 1])
  }

  /** The incremental reading of a sequence of chunks; lost: the read after them failed. */
  function Stream<S>(d: Decoder<S>, parse: string -> Parsed, chunks: seq<seq<byte>>, lost: bool): (Outcome, seq<Event>) {
    var r := FeedAll(d, parse, chunks);
    if r.seen.threw then (Threw, r.seen.events)
    else if lost then (ConnectionLost, r.seen.events)
    else
      var last := HandleLine(parse, r.seen, r.buf + d.flush(r.state));
      (Verdict(last), last.events)
  }

  class Reader<S> {
    const decoder: Decoder<S>
    const parse: string -> Parsed
    var state: S
    var buf: string
    var seen: Seen

    ghost function View(): Reading<S>
      reads this
    {
      Reading(state, buf, seen)
    }

    constructor (decoder: Decoder<S>, parse: string -> Parsed)
      ensures this.decoder == decoder && this.parse == parse && View() == FeedAll(decoder, parse, [])
    {
      this.decoder, this.parse := decoder, parse;
      state, buf, seen := decoder.start, "", NOTHING;
    }

    method CutLines()
      modifies this`buf, this`seen
      ensures (buf, seen) == CutAll(parse, old(buf), old(seen))
    {
      var nl := IndexOf(buf, '\n');
      while nl >= 0 && !seen.threw
        invariant nl == IndexOf(buf, '\n') && CutAll(parse, buf, seen) == CutAll(parse, old(buf), old(seen))
        decreases |buf|
      {
        seen := HandleLine(parse, seen, buf[..nl]);
        buf := buf[nl + 1..];
        nl := IndexOf(buf, '\n');
      }
    }

    method Feed(chunk: seq<byte>)
      requires !seen.threw
      modifies this
      ensures View() == FeedChunk(decoder, parse, old(View()), chunk)
    {
      var (next, more) := DecodeFrom(decoder, state, chunk);
      state, buf := next, buf + more;
      CutLines();
    }

    /** The loop over the chunks the response yields; lost: the last read failed. */
    method Drain(chunks: seq<seq<byte>>, lost: bool) returns (r: Outcome)
      requires View() == FeedAll(decoder, parse, [])
      modifies this
      ensures (r, seen.events) == Stream(decoder, parse, chunks, lost)
    {
      for i := 0 to |chunks|
        invariant !seen.threw && View() == FeedAll(decoder, parse, chunks[..i])
      {
        assert chunks[..i + 1][..i] == chunks[..i];
        Feed(chunks[i]);
        if seen.threw {
          ThrewForGood(decoder, parse, chunks, i + 1);
          return Threw;
        }
      }
      assert chunks[..|chunks|] == chunks;
      if lost { return ConnectionLost; }
      seen := HandleLine(parse, seen, buf + decoder.flush(state));
      r := if seen.threw then Threw else if seen.summary.Some? then Success(seen.summary.value) else Truncated;
    }
  }

  lemma {:induction false} ThrewForGood<S>(d: Decoder<S>, parse: string -> Parsed, chunks: seq<seq<byte>>, i: nat)
    requires i <= |chunks| && FeedAll(d, parse, chunks[..i]).seen.threw
    ensures FeedAll(d, parse, chunks) == FeedAll(d, parse, chunks[..i])
  {
    if i == |chunks| {
      assert chunks[..i] == chunks;
    } else {
      assert chunks[..|chunks| - 1][..i] == chunks[..i];
      ThrewForGood(d, parse, chunks[..|chunks| - 1], i);
    }
  }

  // ----- reading chunk by chunk is reading the whole -----

  /** The text so far is the lines cut off, then the buffer; and the lines are handled. */
  ghost predicate Cut(parse: string -> Parsed, lines: seq<string>, buf: string, seen: Seen, text: string) {
    AllFree(lines) && text == Unlines(lines) + buf && seen == HandleLines(parse, NOTHING, lines)
  }

  lemma {:induction false} CutAllKeeps(parse: string -> Parsed, lines: seq<string>, buf: string, seen: Seen, text: string)
    returns (more: seq<string>)
    requires Cut(parse, lines, buf, seen, text)
    ensures var (rest, after) := CutAll(parse, buf, seen);
            Cut(parse, more, rest, after, text) && (after.threw || Free(rest, '\n'))
    decreases |buf|
  {
    more := lines;
    var nl := IndexOf(buf, '\n');
    if !seen.threw && nl >= 0 {
      CutOne(lines, buf, nl);
      more := CutAllKeeps(parse, lines + [buf[..nl]], buf[nl + 1..], HandleLine(parse, seen, buf[..nl]), text);
    }
  }

  /** r is the reading of body: some lines are cut off it and handled, the rest is the
      buffer, which holds no more complete line. */
  ghost predicate ReadingOf<S>(d: Decoder<S>, parse: string -> Parsed, r: Reading<S>, body: seq<byte>, lines: seq<string>) {
    && Cut(parse, lines, r.buf, r.seen, DecodeFrom(d, d.start, body).1)
    && r.state == DecodeFrom(d, d.start, body).0
    && (r.seen.threw || Free(r.buf, '\n'))
  }

  lemma FeedKeeps<S>(d: Decoder<S>, parse: string -> Parsed, r: Reading<S>, body: seq<byte>, lines: seq<string>, chunk: seq<byte>)
    returns (more: seq<string>)
    requires ReadingOf(d, parse, r, body, lines) && !r.seen.threw
    ensures ReadingOf(d, parse, FeedChunk(d, parse, r, chunk), body + chunk, more)
  {
    DecodeConcat(d, d.start, body, chunk);
    var text := DecodeFrom(d, d.start, body).1 + DecodeFrom(d, r.state, chunk).1;
    assert text == Unlines(lines) + (r.buf + DecodeFrom(d, r.state, chunk).1);
    more := CutAllKeeps(parse, lines, r.buf + DecodeFrom(d, r.state, chunk).1, r.seen, text);
  }

  /** The chunks fed, up to one that threw, are a prefix of the whole; without one, all of it. */
  lemma {:induction false} FeedAllReads<S>(d: Decoder<S>, parse: string -> Parsed, chunks: seq<seq<byte>>)
    returns (before: seq<byte>, after: seq<byte>, lines: seq<string>)
    ensures Concat(chunks) == before + after && ReadingOf(d, parse, FeedAll(d, parse, chunks), before, lines)
    ensures !FeedAll(d, parse, chunks).seen.threw ==> after == []
  {
    before, after, lines := [], [], [];
    if chunks != [] {
      var init, last := chunks[..|chunks| - 1], chunks[|chunks| - 1];
      before, after, lines := FeedAllReads(d, parse, init);
      var r := FeedAll(d, parse, init);
      if r.seen.threw {
        after := after + last;
      } else {
        lines := FeedKeeps(d, parse, r, before, lines, last);
        before := before + last;
      }
    }
  }

  /** The incremental reader reads, chunk by chunk, what the whole body at once holds. */
  lemma StreamIsRead<S>(d: Decoder<S>, parse: string -> Parsed, chunks: seq<seq<byte>>, lost: bool)
    ensures Stream(d, parse, chunks, lost) == Read(d, parse, Concat(chunks), lost)
  {
    var before, after, lines := FeedAllReads(d, parse, chunks);
    var r := FeedAll(d, parse, chunks);
    var more := LinesExtend(d, before, after, lost, lines, r.buf);
    HandleConcat(parse, NOTHING, lines, more);
    if r.seen.threw {
      ThrownStays(parse, r.seen, more);
    } else {
      assert before + after == before;
      if lost { assert lines + [] == lines; } else { HandleOne(parse, r.seen, more); }
    }
  }

  lemma HandleOne(parse: string -> Parsed, seen: Seen, more: seq<string>)
    requires |more| == 1
    ensures HandleLines(parse, seen, more) == HandleLine(parse, seen, more[0])
  {}

  lemma CutText(buf: string, nl: nat)
    requires nl < |buf| && buf[nl] == '\n'
    ensures buf[..nl] + "\n" + buf[nl + 1..] == buf
  {}

  lemma CutOne(lines: seq<string>, buf: string, nl: nat)
    requires nl < |buf| && buf[nl] == '\n'
    ensures Unlines(lines + [buf[..nl]]) + buf[nl + 1..] == Unlines(lines) + buf
    ensures (lines + [buf[..nl]])[..|lines|] == lines
  {
    Group(Unlines(lines), buf[..nl], "\n", buf[nl + 1..]);
    CutText(buf, nl);
  }

  // ----- chunks do not matter -----

  /** The result depends on the bytes alone, however they were cut into chunks. */
  lemma ChunkIndependent<S>(d: Decoder<S>, parse: string -> Parsed, a: seq<seq<byte>>, b: seq<seq<byte>>, lost: bool)
    requires Concat(a) == Concat(b)
    ensures Stream(d, parse, a, lost) == Stream(d, parse, b, lost)
  {
    StreamIsRead(d, parse, a, lost);
    StreamIsRead(d, parse, b, lost);
  }

  /** When the decoder's flush adds no line feed, the lines handled are the newline
      split of the whole decoded text. */
  lemma StreamIsSplit<S>(d: Decoder<S>, parse: string -> Parsed, chunks: seq<seq<byte>>)
    requires Free(d.flush(DecodeFrom(d, d.start, Concat(chunks)).0), '\n')
    ensures Stream(d, parse, chunks, false)
         == var seen := HandleLines(parse, NOTHING, Split(DecodeAll(d, Concat(chunks)), '\n')); (Verdict(seen), seen.events)
  {
    StreamIsRead(d, parse, chunks, false);
    LinesAreSplit(d, Concat(chunks));
  }

  /** The line is the value null, whose type cannot be read. */
  predicate IsNull(parse: string -> Parsed, line: string) { Trim(line) != "" && parse(Trim(line)).NullJson? }

  predicate FirstNull(parse: string -> Parsed, lines: seq<string>, i: nat) {
    i < |lines| && IsNull(parse, lines[i]) && forall j | 0 <= j < i :: !IsNull(parse, lines[j])
  }

  /** The values read from the lines, in order; blank and unreadable lines give none. */
  function Values(parse: string -> Parsed, lines: seq<string>): seq<Event> {
    if lines == [] then []
    else
      var t := Trim(lines[|lines| - 1]);
      Values(parse, lines[..|lines| - 1]) + if t != "" && parse(t).Value? then [parse(t).event] else []
  }

  predicate LastSummary(events: seq<Event>, i: nat) {
    i < |events| && events[i].Summary? && forall j | i < j < |events| :: !events[j].Summary?
  }

  /** What the handled lines come to: i is the line that threw, or the last summary. */
  ghost predicate Decided(parse: string -> Parsed, lines: seq<string>, seen: Seen, i: nat) {
    if seen.threw then FirstNull(parse, lines, i) && seen.events == Values(parse, lines[..i])
    else
      && (forall j | 0 <= j < |lines| :: !IsNull(parse, lines[j]))
      && seen.events == Values(parse, lines)
      && match seen.summary
         case Some(ev) => LastSummary(seen.events, i) && seen.events[i] == ev
         case None => forall j | 0 <= j < |seen.events| :: !seen.events[j].Summary?
  }

  lemma ThrewDecides(parse: string -> Parsed, lines: seq<string>, line: string, seen: Seen, i: nat)
    requires Decided(parse, lines, seen, i) && seen.threw
    ensures Decided(parse, lines + [line], seen, i)
  {
    assert (lines + [line])[..i] == lines[..i];
  }

  lemma NullDecides(parse: string -> Parsed, lines: seq<string>, line: string, seen: Seen, i: nat)
    requires Decided(parse, lines, seen, i) && !seen.threw && IsNull(parse, line)
    ensures Decided(parse, lines + [line], HandleLine(parse, seen, line), |lines|)
  {
    assert (lines + [line])[..|lines|] == lines;
  }

  lemma LineDecides(parse: string -> Parsed, lines: seq<string>, line: string, seen: Seen, i: nat) returns (k: nat)
    requires Decided(parse, lines, seen, i) && !seen.threw && !IsNull(parse, line)
    ensures Decided(parse, lines + [line], HandleLine(parse, seen, line), k)
  {
    k := i;
    var t := Trim(line);
    assert (lines + [line])[..|lines|] == lines;
    assert Values(parse, lines + [line]) == seen.events + if t != "" && parse(t).Value? then [parse(t).event] else [];
    if t != "" && parse(t).Value? {
      if parse(t).event.Summary? { k := |seen.events|; }
    } else {
      assert seen.events + [] == seen.events;
    }
  }

  lemma {:induction false} LinesDecide(parse: string -> Parsed, lines: seq<string>) returns (i: nat)
    ensures Decided(parse, lines, HandleLines(parse, NOTHING, lines), i)
  {
    i := 0;
    if lines != [] {
      var init, last := lines[..|lines| - 1], lines[|lines| - 1];
      i := LinesDecide(parse, init);
      var before := HandleLines(parse, NOTHING, init);
      assert init + [last] == lines;
      if before.threw {
        ThrewDecides(parse, init, last, before, i);
      } else if IsNull(parse, last) {
        NullDecides(parse, init, last, before, i);
        i := |init|;
      } else {
        i := LineDecides(parse, init, last, before, i);
      }
    }
  }

  /** What a whole body comes to, line by line of its decoded text.  A null line throws
      after the values before it were passed on.  Otherwise all values are passed on,
      and the last summary among them is the success; without one the body counts as
      truncated. */
  lemma StreamDecides<S>(d: Decoder<S>, parse: string -> Parsed, chunks: seq<seq<byte>>)
    requires Free(d.flush(DecodeFrom(d, d.start, Concat(chunks)).0), '\n')
    ensures var (r, seen) := Stream(d, parse, chunks, false);
            var lines := Split(DecodeAll(d, Concat(chunks)), '\n');
            match r
            case Threw => exists i: nat :: FirstNull(parse, lines, i) && seen == Values(parse, lines[..i])
            case Success(ev) =>
              && (forall j | 0 <= j < |lines| :: !IsNull(parse, lines[j]))
              && seen == Values(parse, lines) && exists i: nat :: LastSummary(seen, i) && seen[i] == ev
            case Truncated =>
              && (forall j | 0 <= j < |lines| :: !IsNull(parse, lines[j]))
              && seen == Values(parse, lines) && forall j | 0 <= j < |seen| :: !seen[j].Summary?
            case ConnectionLost => false
  {
    StreamIsSplit(d, parse, chunks);
    var i := LinesDecide(parse, Split(DecodeAll(d, Concat(chunks)), '\n'));
  }

  lemma LinesAreSplit<S>(d: Decoder<S>, body: seq<byte>)
    requires Free(d.flush(DecodeFrom(d, d.start, body).0), '\n')
    ensures LinesOf(d, body, false) == Split(DecodeAll(d, body), '\n')
  {
    var (end, text) := DecodeFrom(d, d.start, body);
    SplitTail(text, d.flush(end));
  }

  lemma SplitTail(text: string, tail: string)
    requires Free(tail, '\n')
    ensures var lines := Split(text, '\n');
            Split(text + tail, '\n') == lines[..|lines| - 1] + [lines[|lines| - 1] + tail]
  {
    var lines := Split(text, '\n');
    JoinSplit(text, '\n');
    JoinAppend(lines, tail, '\n');
    SplitJoin(lines[..|lines| - 1] + [lines[|lines| - 1] + tail], '\n');
  }

  // ----- the writer -----

  datatype Answer = Answer(status: string, reason: string)

  const SECTIONS := ["settings", "identity", "aggregators", "wifi"]

  function SectionEvents(answers: seq<Answer>): seq<Event>
    requires |answers| <= 4
  {
    seq(|answers|, i requires 0 <= i < |answers| => Section(SECTIONS[i], answers[i].status, answers[i].reason))
  }

  /** An authenticated restore: the sections, then the password, then the summary. */
  function RestoreSections(answers: seq<Answer>, password: Option<Answer>): seq<Event>
    requires |answers| == 4
  {
    var p := if password.Some? then password.value else Answer("skipped", "absent");
    SectionEvents(answers) + [Section("password", p.status, p.reason)]
  }

  predicate PasswordChanged(password: Option<Answer>) {
    password.Some? && password.value.status == "applied"
  }

  /** A restore at set-up: the password was applied before the stream began. */
  function SetupSections(answers: seq<Answer>): seq<Event>
    requires |answers| == 4
  {
    [Section("password", "applied", "")] + SectionEvents(answers)
  }

  function Texts(encode: Event -> string, events: seq<Event>): seq<string> {
    seq(|events|, i requires 0 <= i < |events| => encode(events[i]))
  }

  function Wire(encode: Event -> string, events: seq<Event>): string { Unlines(Texts(encode, events)) }

  lemma WireMore(encode: Event -> string, events: seq<Event>, ev: Event)
    ensures Wire(encode, events + [ev]) == Wire(encode, events) + encode(ev) + "\n"
  {
    assert Texts(encode, events + [ev])[..|events|] == Texts(encode, events);
  }

  class Response {
    const encode: Event -> string
    var sent: string
    ghost var events: seq<Event>

    constructor (encode: Event -> string)
      ensures this.encode == encode && events == [] && Valid()
    {
      this.encode, sent, events := encode, "", [];
    }

    ghost predicate Valid()
      reads this
    {
      sent == Wire(encode, events)
    }

    method Encode(ev: Event)
      requires Valid()
      modifies this
      ensures Valid() && events == old(events) + [ev]
    {
      WireMore(encode, events, ev);
      sent := sent + encode(ev) + "\n";
      events := events + [ev];
    }

    method EmitSection(section: string, status: string, reason: string)
      requires Valid()
      modifies this
      ensures Valid() && events == old(events) + [Section(section, status, reason)]
    {
      Encode(Section(section, status, reason));
    }

    /** answers: what the four section restorers return; password: what replacing
        the password returns, or None when the backup has no such section. */
    method Restore(answers: seq<Answer>, password: Option<Answer>)
      requires Valid() && events == [] && |answers| == 4
      modifies this
      ensures Valid()
      ensures events == RestoreSections(answers, password) + [Summary(PasswordChanged(password))]
      ensures events == [
        Section("settings", answers[0].status, answers[0].reason),
        Section("identity", answers[1].status, answers[1].reason),
        Section("aggregators", answers[2].status, answers[2].reason),
        Section("wifi", answers[3].status, answers[3].reason),
        if password.Some? then Section("password", password.value.status, password.value.reason)
        else Section("password", "skipped", "absent"),
        Summary(password.Some? && password.value.status == "applied")]
    {
      EmitSection("settings", answers[0].status, answers[0].reason);
      EmitSection("identity", answers[1].status, answers[1].reason);
      EmitSection("aggregators", answers[2].status, answers[2].reason);
      EmitSection("wifi", answers[3].status, answers[3].reason);
      var changed := false;
      if password.Some? {
        EmitSection("password", password.value.status, password.value.reason);
        changed := password.value.status == "applied";
      } else {
        EmitSection("password", "skipped", "absent");
      }
      Encode(Summary(changed));
    }

    method RestoreSetup(answers: seq<Answer>)
      requires Valid() && events == [] && |answers| == 4
      modifies this
      ensures Valid()
      ensures events == SetupSections(answers) + [Summary(false)]
      ensures events == [
        Section("password", "applied", ""),
        Section("settings", answers[0].status, answers[0].reason),
        Section("identity", answers[1].status, answers[1].reason),
        Section("aggregators", answers[2].status, answers[2].reason),
        Section("wifi", answers[3].status, answers[3].reason),
        Summary(false)]
    {
      EmitSection("password", "applied", "");
      EmitSection("settings", answers[0].status, answers[0].reason);
      EmitSection("identity", answers[1].status, answers[1].reason);
      EmitSection("aggregators", answers[2].status, answers[2].reason);
      EmitSection("wifi", answers[3].status, answers[3].reason);
      Encode(Summary(false));
    }
  }

  // ----- truncation is detected -----

  /** No value is read from this unfinished line. */
  predicate Broken(parse: string -> Parsed, line: string) { Trim(line) == "" || parse(Trim(line)).BadJson? }

  /** The JSON codec, as far as the stream relies on it: an event is one line, reads
      back as itself, and no proper prefix of it, even with a character replaced at
      the cut, reads as anything. */
  ghost predicate Codec(encode: Event -> string, parse: string -> Parsed) {
    forall ev: Event :: !ev.OtherValue? ==> Encodes(encode, parse, ev)
  }

  ghost predicate Encodes(encode: Event -> string, parse: string -> Parsed, ev: Event) {
    var t := encode(ev);
    && Free(t, '\n') && t != "" && Trim(t) == t && parse(t) == Value(ev)
    && forall n | 0 <= n < |t| :: Broken(parse, t[..n]) && Broken(parse, t[..n] + [REPLACEMENT])
  }

  function Noted(seen: Seen, events: seq<Event>): Seen {
    if events == [] then seen
    else
      var before := Noted(seen, events[..|events| - 1]);
      var ev := events[|events| - 1];
      Seen(before.events + [ev], if ev.Summary? then Some(ev) else before.summary, false)
  }

  predicate OwnEvents(events: seq<Event>) { forall i | 0 <= i < |events| :: !events[i].OtherValue? }

  lemma {:induction false} HandleTexts(encode: Event -> string, parse: string -> Parsed, events: seq<Event>)
    requires Codec(encode, parse) && OwnEvents(events)
    ensures HandleLines(parse, NOTHING, Texts(encode, events)) == Noted(NOTHING, events)
    ensures AllFree(Texts(encode, events))
  {
    if events != [] {
      var n := |events| - 1;
      HandleTexts(encode, parse, events[..n]);
      assert Texts(encode, events)[..n] == Texts(encode, events[..n]);
      assert Encodes(encode, parse, events[n]);
      forall i | 0 <= i < |events| ensures Free(encode(events[i]), '\n') { assert Encodes(encode, parse, events[i]); }
    }
  }

  /** How many events are complete, bar perhaps the line feed, in the first n characters. */
  function Complete(encode: Event -> string, events: seq<Event>, n: nat): (m: nat)
    ensures m <= |events|
  {
    if events == [] then 0
    else
      var init := events[..|events| - 1];
      if n >= |Wire(encode, init)| + |encode(events[|events| - 1])| then |events| else Complete(encode, init, n)
  }

  /** A cut after n characters; cut through a character, it leaves a replacement. */
  predicate CutAt(wire: string, n: nat, tail: string) {
    n <= |wire| && (tail == "" || (tail == [REPLACEMENT] && n < |wire| && wire[n] != '\n'))
  }

  /** Complete lines, then one more line: the first are noted, the last one handled. */
  lemma HandlePart(encode: Event -> string, parse: string -> Parsed, events: seq<Event>, line: string)
    requires Codec(encode, parse) && OwnEvents(events) && Free(line, '\n')
    ensures HandleLines(parse, NOTHING, Split(Wire(encode, events) + line, '\n'))
         == HandleLine(parse, Noted(NOTHING, events), line)
  {
    HandleTexts(encode, parse, events);
    SplitUnlines(Texts(encode, events), line);
    SplitFree(line, '\n');
    HandleConcat(parse, NOTHING, Texts(encode, events), [line]);
    HandleOne(parse, Noted(NOTHING, events), [line]);
  }

  lemma WireLast(encode: Event -> string, events: seq<Event>)
    requires events != []
    ensures var init, t := events[..|events| - 1], encode(events[|events| - 1]);
            Wire(encode, events) == Wire(encode, init) + t + "\n" && Wire(encode, init) <= Wire(encode, events)
  {
    var init := events[..|events| - 1];
    WireMore(encode, init, events[|events| - 1]);
    assert init + [events[|events| - 1]] == events;
  }

  lemma {:induction false} NotThrown(events: seq<Event>)
    ensures !Noted(NOTHING, events).threw && Noted(NOTHING, events).events == events
  {
    if events != [] {
      var init := events[..|events| - 1];
      NotThrown(init);
      assert init + [events[|events| - 1]] == events;
    }
  }

  /** One event's line, cut after k characters: handled when whole, else ignored. */
  lemma HandleCut(encode: Event -> string, parse: string -> Parsed, before: seq<Event>, ev: Event, k: nat, tail: string)
    requires Encodes(encode, parse, ev) && k <= |encode(ev)|
    requires tail == "" || (tail == [REPLACEMENT] && k < |encode(ev)|)
    ensures HandleLine(parse, Noted(NOTHING, before), encode(ev)[..k] + tail)
         == Noted(NOTHING, if k == |encode(ev)| then before + [ev] else before)
  {
    var t := encode(ev);
    NotThrown(before);
    if k == |t| {
      assert t[..k] + tail == t;
      assert (before + [ev])[..|before|] == before;
    } else {
      assert t[..k] + "" == t[..k];
      assert Broken(parse, t[..k]) && Broken(parse, t[..k] + [REPLACEMENT]);
    }
  }

  /** Whole lines, and then all or part of one more. */
  lemma CutInLine(w: string, t: string, n: nat, tail: string)
    requires CutAt(w + t + "\n", n, tail) && |w| <= n <= |w| + |t|
    ensures (w + t + "\n")[..n] + tail == w + (t[..n - |w|] + tail)
    ensures tail != "" ==> n - |w| < |t|
  {}

  /** The cut falls in the last event's line, or after it. */
  lemma HandleLast(encode: Event -> string, parse: string -> Parsed, init: seq<Event>, ev: Event, n: nat, tail: string)
    requires Codec(encode, parse) && OwnEvents(init) && !ev.OtherValue?
    requires CutAt(Wire(encode, init) + encode(ev) + "\n", n, tail) && n >= |Wire(encode, init)|
    ensures HandleLines(parse, NOTHING, Split((Wire(encode, init) + encode(ev) + "\n")[..n] + tail, '\n'))
         == Noted(NOTHING, if n >= |Wire(encode, init)| + |encode(ev)| then init + [ev] else init)
  {
    var w, t := Wire(encode, init), encode(ev);
    if n == |w| + |t| + 1 {
      WireMore(encode, init, ev);
      assert (w + t + "\n")[..n] + tail == Wire(encode, init + [ev]) + "";
      HandlePart(encode, parse, init + [ev], "");
    } else {
      CutInLine(w, t, n, tail);
      HandleTail(encode, parse, init, ev, n - |w|, tail);
    }
  }

  lemma HandleTail(encode: Event -> string, parse: string -> Parsed, init: seq<Event>, ev: Event, k: nat, tail: string)
    requires Codec(encode, parse) && OwnEvents(init) && !ev.OtherValue? && k <= |encode(ev)|
    requires tail == "" || (tail == [REPLACEMENT] && k < |encode(ev)|)
    ensures HandleLines(parse, NOTHING, Split(Wire(encode, init) + (encode(ev)[..k] + tail), '\n'))
         == Noted(NOTHING, if k == |encode(ev)| then init + [ev] else init)
  {
    assert Encodes(encode, parse, ev);
    assert Free(encode(ev)[..k] + tail, '\n');
    HandlePart(encode, parse, init, encode(ev)[..k] + tail);
    HandleCut(encode, parse, init, ev, k, tail);
  }

  lemma {:induction false} HandlePrefix(encode: Event -> string, parse: string -> Parsed, events: seq<Event>, n: nat, tail: string)
    requires Codec(encode, parse) && OwnEvents(events) && CutAt(Wire(encode, events), n, tail)
    ensures HandleLines(parse, NOTHING, Split(Wire(encode, events)[..n] + tail, '\n'))
         == Noted(NOTHING, events[..Complete(encode, events, n)])
  {
    if events == [] {
      assert Split("", '\n') == [""];
      HandleOne(parse, NOTHING, [""]);
      assert Wire(encode, events)[..n] + tail == "";
    } else {
      var init, ev := events[..|events| - 1], events[|events| - 1];
      var w := Wire(encode, init);
      assert init + [ev] == events;
      WireMore(encode, init, ev);
      if n >= |w| {
        HandleIntoLast(encode, parse, init, ev, n, tail);
      } else {
        assert Wire(encode, events)[..n] == w[..n] && Wire(encode, events)[n] == w[n];
        HandlePrefix(encode, parse, init, n, tail);
        CompleteLast(encode, init, ev, n);
        assert init[..Complete(encode, init, n)] == events[..Complete(encode, init, n)];
      }
    }
  }

  lemma HandleIntoLast(encode: Event -> string, parse: string -> Parsed, init: seq<Event>, ev: Event, n: nat, tail: string)
    requires Codec(encode, parse) && OwnEvents(init) && !ev.OtherValue? && n >= |Wire(encode, init)|
    requires CutAt(Wire(encode, init + [ev]), n, tail)
    ensures HandleLines(parse, NOTHING, Split(Wire(encode, init + [ev])[..n] + tail, '\n'))
         == Noted(NOTHING, (init + [ev])[..Complete(encode, init + [ev], n)])
  {
    var all := init + [ev];
    WireMore(encode, init, ev);
    HandleLast(encode, parse, init, ev, n, tail);
    CompleteLast(encode, init, ev, n);
    assert all[..|all|] == all && all[..|init|] == init;
  }

  lemma CompleteLast(encode: Event -> string, init: seq<Event>, ev: Event, n: nat)
    ensures Complete(encode, init + [ev], n) ==
            if n >= |Wire(encode, init)| + |encode(ev)| then |init| + 1
            else if n >= |Wire(encode, init)| then |init|
            else Complete(encode, init, n)
  {
    assert (init + [ev])[..|init|] == init;
    if n >= |Wire(encode, init)| { AllComplete(encode, init, n); }
  }

  lemma AllComplete(encode: Event -> string, events: seq<Event>, n: nat)
    requires n >= |Wire(encode, events)|
    ensures Complete(encode, events, n) == |events|
  {
    if events != [] { WireLast(encode, events); }
  }

  lemma {:induction false} NoSummary(events: seq<Event>)
    requires forall i | 0 <= i < |events| :: events[i].Section?
    ensures Noted(NOTHING, events).summary.None?
  {
    if events != [] { NoSummary(events[..|events| - 1]); }
  }

  /** Truncation is always detected.  Whatever part of the server's stream arrives, in
      whatever chunks, the browser reports success exactly when the stream was not
      broken off by an error and the whole summary object came, with or without its
      line feed; the summary is then the server's, and the events passed on are
      exactly those that came whole. */
  lemma TruncationIsDetected<S>(
    d: Decoder<S>, encode: Event -> string, parse: string -> Parsed,
    sections: seq<Event>, summary: Event, chunks: seq<seq<byte>>, lost: bool, n: nat, tail: string)
    requires Codec(encode, parse) && summary.Summary?
    requires forall i | 0 <= i < |sections| :: sections[i].Section?
    requires Free(d.flush(DecodeFrom(d, d.start, Concat(chunks)).0), '\n')
    requires CutAt(Wire(encode, sections + [summary]), n, tail)
    requires DecodeAll(d, Concat(chunks)) == Wire(encode, sections + [summary])[..n] + tail
    ensures var (r, seen) := Stream(d, parse, chunks, lost);
            var all := sections + [summary];
            && (r.Success? <==> !lost && n >= |Wire(encode, all)| - 1)
            && (r.Success? ==> r == Success(summary) && seen == all)
            && (!lost ==> seen == all[..Complete(encode, all, n)])
  {
    if !lost {
      var all := sections + [summary];
      StreamIsSplit(d, parse, chunks);
      HandlePrefix(encode, parse, all, n, tail);
      WireMore(encode, sections, summary);
      CompleteLast(encode, sections, summary, n);
      VerdictOfPrefix(sections, summary, Complete(encode, all, n));
    }
  }

  lemma VerdictOfPrefix(sections: seq<Event>, summary: Event, m: nat)
    requires m <= |sections| + 1 && summary.Summary?
    requires forall i | 0 <= i < |sections| :: sections[i].Section?
    ensures var all := sections + [summary];
            var seen := Noted(NOTHING, all[..m]);
            && seen.events == all[..m] && (m == |all| ==> all[..m] == all)
            && Verdict(seen) == if m == |all| then Success(summary) else Truncated
  {
    var all := sections + [summary];
    NotThrown(all[..m]);
    if m == |all| {
      assert all[..m] == all;
    } else {
      assert all[..m] == sections[..m];
      NoSummary(sections[..m]);
    }
  }

  // ----- the stream as bytes -----

  lemma {:induction false} TrimShort(s: string)
    ensures |Trim(s)| <= |s|
  {
    if s != "" {
      TrimShort(s[1..]);
      TrimShort(s[..|s| - 1]);
    }
  }

  /** An encoded event, and so a stream, does not start with a byte order mark. */
  lemma NoMark(encode: Event -> string, parse: string -> Parsed, events: seq<Event>)
    requires Codec(encode, parse) && events != [] && !events[0].OtherValue?
    ensures Wire(encode, events) != "" && Wire(encode, events)[0] != MARK
  {
    var t := encode(events[0]);
    assert Encodes(encode, parse, events[0]);
    if IsSpace(t[0]) { TrimShort(t[1..]); }
    WireStarts(encode, events);
  }

  lemma {:induction false} WireStarts(encode: Event -> string, events: seq<Event>)
    requires events != [] && encode(events[0]) != ""
    ensures Wire(encode, events) != "" && Wire(encode, events)[0] == encode(events[0])[0]
  {
    WireLast(encode, events);
    if |events| > 1 {
      WireStarts(encode, events[..|events| - 1]);
    } else {
      assert Wire(encode, events[..0]) == "";
    }
  }

  /** Bytes cut off a text hold its first k characters exactly if the whole characters
      among them do. */
  lemma ReachExactly(s: string, bytes: seq<byte>, n: nat, partial: bool, k: nat)
    requires CutOf(s, bytes, n, partial) && k <= |s|
    ensures n >= k <==> |bytes| >= |Utf8(s[..k])|
  {
    if n >= k {
      Utf8Concat(s[..k], s[k..n]);
      assert s[..n] == s[..k] + s[k..n];
    } else {
      Utf8Concat(s[..n], s[n..k]);
      assert s[..k] == s[..n] + s[n..k];
      assert Utf8(s[n..k]) == CharBytes(s[n]) + Utf8(s[n..k][1..]);
    }
  }

  /** The first m lines, but for the last line feed, are within n characters exactly
      when m events are complete there. */
  lemma {:induction false} CompleteReaches(encode: Event -> string, events: seq<Event>, n: nat, m: nat)
    requires 0 < m <= |events|
    ensures m <= Complete(encode, events, n) <==> n >= |Wire(encode, events[..m])| - 1
  {
    var init := events[..|events| - 1];
    WireLast(encode, events);
    if m == |events| {
      assert events[..m] == events;
    } else {
      assert events[..m] == init[..m];
      CompleteReaches(encode, init, n, m);
      if n >= |Wire(encode, init)| + |encode(events[|events| - 1])| { WireMonotone(encode, init, m); }
    }
  }

  lemma {:induction false} WireMonotone(encode: Event -> string, events: seq<Event>, m: nat)
    requires m <= |events|
    ensures Wire(encode, events[..m]) <= Wire(encode, events)
  {
    if m == |events| {
      assert events[..m] == events;
    } else {
      WireLast(encode, events);
      assert events[..m] == events[..|events| - 1][..m];
      WireMonotone(encode, events[..|events| - 1], m);
    }
  }

  /** How many events came in n characters with their line feed. */
  function Arrived(encode: Event -> string, events: seq<Event>, n: nat): (m: nat)
    ensures m <= |events|
  {
    if n == 0 then 0 else Complete(encode, events, n - 1)
  }

  lemma ArrivedReaches(encode: Event -> string, events: seq<Event>, n: nat, m: nat)
    requires 0 < m <= |events|
    ensures m <= Arrived(encode, events, n) <==> n >= |Wire(encode, events[..m])|
  {
    WireLast(encode, events[..m]);
    if n > 0 { CompleteReaches(encode, events, n - 1, m); }
  }

  /** The first n characters are the lines that arrived, and a piece without line feed. */
  lemma ArrivedCut(encode: Event -> string, parse: string -> Parsed, events: seq<Event>, n: nat) returns (rest: string)
    requires Codec(encode, parse) && OwnEvents(events) && n <= |Wire(encode, events)|
    ensures Free(rest, '\n')
    ensures Wire(encode, events)[..n] == Wire(encode, events[..Arrived(encode, events, n)]) + rest
  {
    var m, w := Arrived(encode, events, n), Wire(encode, events);
    var head := Wire(encode, events[..m]);
    WireMonotone(encode, events, m);
    if m > 0 { ArrivedReaches(encode, events, n, m); } else { assert head == ""; }
    rest := w[|head|..n];
    assert w[..n] == head + rest;
    if m < |events| {
      ArrivedReaches(encode, events, n, m + 1);
      WireMonotone(encode, events, m + 1);
      assert events[..m + 1] == events[..m] + [events[m]];
      WireMore(encode, events[..m], events[m]);
      assert Encodes(encode, parse, events[m]);
      assert rest == encode(events[m])[..|rest|];
    } else {
      assert events[..m] == events;
    }
  }

  /** When the connection is lost, exactly the events whose line feed came were passed on. */
  lemma LostReads<S>(d: Decoder<S>, encode: Event -> string, parse: string -> Parsed, events: seq<Event>, chunks: seq<seq<byte>>, n: nat)
    requires Codec(encode, parse) && OwnEvents(events) && n <= |Wire(encode, events)|
    requires DecodeFrom(d, d.start, Concat(chunks)).1 == Wire(encode, events)[..n]
    ensures Stream(d, parse, chunks, true) == (ConnectionLost, events[..Arrived(encode, events, n)])
  {
    var came := events[..Arrived(encode, events, n)];
    var rest := ArrivedCut(encode, parse, events, n);
    StreamIsRead(d, parse, chunks, true);
    HandleTexts(encode, parse, came);
    SplitUnlines(Texts(encode, came), rest);
    SplitFree(rest, '\n');
    assert (Texts(encode, came) + [rest])[..|Texts(encode, came)|] == Texts(encode, came);
    NotThrown(came);
  }

  /** seen is what was sent, up to the last event of which all but slack bytes came. */
  ghost predicate PassedOn(encode: Event -> string, all: seq<Event>, seen: seq<Event>, bytes: seq<byte>, slack: nat) {
    && seen <= all
    && forall m | 0 < m <= |all| :: m <= |seen| <==> |bytes| >= |Utf8(Wire(encode, all[..m]))| - slack
  }

  /** What the browser makes of a stream broken off anywhere, in bytes.  It reports
      success exactly when the connection was not lost and all came, bar perhaps the
      last line feed.  It passes on the events in order, and exactly those that came
      whole: up to the line feed if the connection held, with it if it was lost. */
  lemma BrokenStreamIsDetected(
    encode: Event -> string, parse: string -> Parsed, sections: seq<Event>, summary: Event, chunks: seq<seq<byte>>, lost: bool)
    requires Codec(encode, parse) && summary.Summary?
    requires forall i | 0 <= i < |sections| :: sections[i].Section?
    requires Concat(chunks) <= Utf8(Wire(encode, sections + [summary]))
    ensures var (r, seen) := Stream(UTF8, parse, chunks, lost);
            var all := sections + [summary];
            && (r.Success? <==> !lost && |Concat(chunks)| >= |Utf8(Wire(encode, all))| - 1)
            && (r.Success? ==> r == Success(summary) && seen == all)
            && (lost ==> r == ConnectionLost)
            && PassedOn(encode, all, seen, Concat(chunks), if lost then 0 else 1)
  {
    var all, bytes := sections + [summary], Concat(chunks);
    NoMark(encode, parse, all);
    var n, partial := PrefixDecodes(Wire(encode, all), bytes, false);
    if lost {
      LostReads(UTF8, encode, parse, all, chunks, n);
      ArrivedArePassedOn(encode, all, bytes, n, partial);
    } else {
      HeldInBytes(encode, parse, sections, summary, chunks, n, partial);
    }
  }

  lemma HeldInBytes(encode: Event -> string, parse: string -> Parsed, sections: seq<Event>, summary: Event,
                    chunks: seq<seq<byte>>, n: nat, partial: bool)
    requires Codec(encode, parse) && summary.Summary?
    requires forall i | 0 <= i < |sections| :: sections[i].Section?
    requires CutOf(Wire(encode, sections + [summary]), Concat(chunks), n, partial)
    requires var (end, text) := DecodeFrom(UTF8, Idle(false), Concat(chunks));
             text == Wire(encode, sections + [summary])[..n] && Utf8Flush(end) == if partial then [REPLACEMENT] else ""
    ensures var (r, seen) := Stream(UTF8, parse, chunks, false);
            var all := sections + [summary];
            && (r.Success? <==> |Concat(chunks)| >= |Utf8(Wire(encode, all))| - 1)
            && (r.Success? ==> r == Success(summary) && seen == all)
            && PassedOn(encode, all, seen, Concat(chunks), 1)
  {
    var all := sections + [summary];
    CutHere(Wire(encode, all), Concat(chunks), n, partial);
    TruncationIsDetected(UTF8, encode, parse, sections, summary, chunks, false, n, if partial then [REPLACEMENT] else "");
    SuccessInBytes(encode, all, Concat(chunks), n, partial);
    CompleteArePassedOn(encode, all, Concat(chunks), n, partial);
  }

  lemma SuccessInBytes(encode: Event -> string, all: seq<Event>, bytes: seq<byte>, n: nat, partial: bool)
    requires all != [] && CutOf(Wire(encode, all), bytes, n, partial)
    ensures n >= |Wire(encode, all)| - 1 <==> |bytes| >= |Utf8(Wire(encode, all))| - 1
  {
    assert all[..|all|] == all;
    CompleteInBytes(encode, all, bytes, n, partial, |all|);
    CompleteReaches(encode, all, n, |all|);
  }

  lemma ArrivedArePassedOn(encode: Event -> string, all: seq<Event>, bytes: seq<byte>, n: nat, partial: bool)
    requires CutOf(Wire(encode, all), bytes, n, partial)
    ensures PassedOn(encode, all, all[..Arrived(encode, all, n)], bytes, 0)
  {
    forall m | 0 < m <= |all| ensures m <= Arrived(encode, all, n) <==> |bytes| >= |Utf8(Wire(encode, all[..m]))| {
      ArrivedInBytes(encode, all, bytes, n, partial, m);
    }
  }

  lemma CompleteArePassedOn(encode: Event -> string, all: seq<Event>, bytes: seq<byte>, n: nat, partial: bool)
    requires CutOf(Wire(encode, all), bytes, n, partial)
    ensures PassedOn(encode, all, all[..Complete(encode, all, n)], bytes, 1)
  {
    forall m | 0 < m <= |all| ensures m <= Complete(encode, all, n) <==> |bytes| >= |Utf8(Wire(encode, all[..m]))| - 1 {
      CompleteInBytes(encode, all, bytes, n, partial, m);
    }
  }

  lemma ArrivedInBytes(encode: Event -> string, all: seq<Event>, bytes: seq<byte>, n: nat, partial: bool, m: nat)
    requires 0 < m <= |all| && CutOf(Wire(encode, all), bytes, n, partial)
    ensures m <= Arrived(encode, all, n) <==> |bytes| >= |Utf8(Wire(encode, all[..m]))|
  {
    var w, head := Wire(encode, all), Wire(encode, all[..m]);
    WireMonotone(encode, all, m);
    ArrivedReaches(encode, all, n, m);
    assert w[..|head|] == head;
    ReachExactly(w, bytes, n, partial, |head|);
  }

  lemma CompleteInBytes(encode: Event -> string, all: seq<Event>, bytes: seq<byte>, n: nat, partial: bool, m: nat)
    requires 0 < m <= |all| && CutOf(Wire(encode, all), bytes, n, partial)
    ensures m <= Complete(encode, all, n) <==> |bytes| >= |Utf8(Wire(encode, all[..m]))| - 1
  {
    var w, head := Wire(encode, all), Wire(encode, all[..m]);
    WireMonotone(encode, all, m);
    CompleteReaches(encode, all, n, m);
    WireLast(encode, all[..m]);
    var line := head[..|head| - 1];
    assert head == line + "\n" && w[..|line|] == line;
    ReachExactly(w, bytes, n, partial, |line|);
    Utf8Concat(line, "\n");
    assert |Utf8("\n")| == 1;
  }

  lemma CutHere(s: string, bytes: seq<byte>, n: nat, partial: bool)
    requires CutOf(s, bytes, n, partial)
    ensures CutAt(s, n, if partial then [REPLACEMENT] else "")
  {}

  /** A restore seen from both ends: with the whole stream received, in whatever chunks,
      the browser gets the five section answers in order and learns of a password
      change exactly when the password section was applied. */
  lemma RestoreEndToEnd(
    encode: Event -> string, parse: string -> Parsed, answers: seq<Answer>, password: Option<Answer>, chunks: seq<seq<byte>>)
    requires Codec(encode, parse) && |answers| == 4
    requires Concat(chunks) == Utf8(Wire(encode, RestoreSections(answers, password) + [Summary(PasswordChanged(password))]))
    ensures var (r, seen) := Stream(UTF8, parse, chunks, false);
            var summary := Summary(password.Some? && password.value.status == "applied");
            && r == Success(summary)
            && seen == [
              Section("settings", answers[0].status, answers[0].reason),
              Section("identity", answers[1].status, answers[1].reason),
              Section("aggregators", answers[2].status, answers[2].reason),
              Section("wifi", answers[3].status, answers[3].reason),
              if password.Some? then Section("password", password.value.status, password.value.reason)
              else Section("password", "skipped", "absent"),
              summary]
  {
    BrokenStreamIsDetected(encode, parse, RestoreSections(answers, password), Summary(PasswordChanged(password)), chunks, false);
  }
}

/** Streaming text decoders, and UTF-8 decoding with replacement as the Encoding
    Standard of the WHATWG defines it in section 8.1.1; a byte order mark at the
    start of the stream is dropped, as section 7 has TextDecoder do. */
module TextDecoder {
  import opened Text

  /** A state, a step for each byte, and a final flush. */
  datatype Decoder<!S> = Decoder(start: S, step: (S, byte) -> (S, string), flush: S -> string)

  function DecodeFrom<S>(d: Decoder<S>, st: S, bytes: seq<byte>): (S, string)
    decreases |bytes|
  {
    if bytes == [] then (st, "")
    else
      var (mid, head) := d.step(st, bytes[0]);
      var (end, tail) := DecodeFrom(d, mid, bytes[1..]);
      (end, head + tail)
  }

  function DecodeAll<S>(d: Decoder<S>, bytes: seq<byte>): string {
    var (end, text) := DecodeFrom(d, d.start, bytes);
    text + d.flush(end)
  }

  lemma {:induction false} DecodeConcat<S>(d: Decoder<S>, st: S, a: seq<byte>, b: seq<byte>)
    ensures var (mid, x) := DecodeFrom(d, st, a);
            var (end, y) := DecodeFrom(d, mid, b);
            DecodeFrom(d, st, a + b) == (end, x + y)
    decreases |a|
  {
    if a == [] {
      assert a + b == b;
      assert "" + DecodeFrom(d, st, b).1 == DecodeFrom(d, st, b).1;
    } else {
      var (mid, head) := d.step(st, a[0]);
      DecodeConcat(d, mid, a[1..], b);
      assert (a + b)[1..] == a[1..] + b;
      var (m, x) := DecodeFrom(d, mid, a[1..]);
      assert head + (x + DecodeFrom(d, m, b).1) == head + x + DecodeFrom(d, m, b).1;
    }
  }

  // ----- UTF-8 -----

  const REPLACEMENT := '\U{FFFD}'
  const MARK := '\U{FEFF}'

  function CharBytes(c: char): (bytes: seq<byte>)
    ensures 1 <= |bytes| <= 4
  {
    var v := c as int;
    if v < 0x80 then [v]
    else if v < 0x800 then [0xC0 + v / 64, 0x80 + v % 64]
    else if v < 0x1_0000 then [0xE0 + v / 4096, 0x80 + v / 64 % 64, 0x80 + v % 64]
    else [0xF0 + v / 0x4_0000, 0x80 + v / 4096 % 64, 0x80 + v / 64 % 64, 0x80 + v % 64]
  }

  function Utf8(s: string): seq<byte> {
    if s == "" then [] else CharBytes(s[0]) + Utf8(s[1..])
  }

  /** needed: the continuation bytes still to come; begun: whether the place of a byte
      order mark has passed. */
  datatype State = State(needed: nat, codePoint: nat, lower: nat, upper: nat, begun: bool)

  function Idle(begun: bool): State { State(0, 0, 0x80, 0xBF, begun) }

  /** The bounds of the steps keep out every number that is not a character. */
  function Scalar(v: nat): char {
    if v < 0xD800 || 0xE000 <= v < 0x11_0000 then v as char else REPLACEMENT
  }

  /** A character goes out; the first one of the stream not, if it is the mark. */
  function Emit(begun: bool, c: char): (State, string) {
    (Idle(true), if !begun && c == MARK then "" else [c])
  }

  function Lead(begun: bool, b: byte): (State, string) {
    if b < 0x80 then Emit(begun, b as char)
    else if 0xC2 <= b <= 0xDF then (State(1, b - 0xC0, 0x80, 0xBF, begun), "")
    else if 0xE0 <= b <= 0xEF then
      (State(2, b - 0xE0, if b == 0xE0 then 0xA0 else 0x80, if b == 0xED then 0x9F else 0xBF, begun), "")
    else if 0xF0 <= b <= 0xF4 then
      (State(3, b - 0xF0, if b == 0xF0 then 0x90 else 0x80, if b == 0xF4 then 0x8F else 0xBF, begun), "")
    else Emit(begun, REPLACEMENT)
  }

  function Utf8Step(st: State, b: byte): (State, string) {
    if st.needed == 0 then Lead(st.begun, b)
    else if !(st.lower <= b <= st.upper) then
      var (next, text) := Lead(true, b);
      (next, [REPLACEMENT] + text)
    else
      var v := st.codePoint * 64 + if b >= 0x80 then b - 0x80 else 0;
      if st.needed > 1 then (State(st.needed - 1, v, 0x80, 0xBF, st.begun), "") else Emit(st.begun, Scalar(v))
  }

  function Utf8Flush(st: State): string { if st.needed == 0 then "" else [REPLACEMENT] }

  const UTF8: Decoder<State> := Decoder(Idle(false), Utf8Step, Utf8Flush)

  lemma DecodeMore(st: State, a: seq<byte>, b: byte)
    ensures var (mid, x) := DecodeFrom(UTF8, st, a);
            var (end, y) := Utf8Step(mid, b);
            DecodeFrom(UTF8, st, a + [b]) == (end, x + y)
  {
    DecodeConcat(UTF8, st, a, [b]);
    var mid := DecodeFrom(UTF8, st, a).0;
    assert [b][1..] == [];
    var (end, y) := Utf8Step(mid, b);
    assert y + "" == y;
    assert DecodeFrom(UTF8, end, []) == (end, "");
    assert DecodeFrom(UTF8, mid, [b]) == (end, y);
  }

  /** k bytes of the character have come, and the rest are awaited. */
  predicate Midway(begun: bool, c: char, k: nat)
    requires 0 < k < |CharBytes(c)|
  {
    var r := DecodeFrom(UTF8, Idle(begun), CharBytes(c)[..k]);
    r.1 == "" && r.0.needed == |CharBytes(c)| - k && r.0.begun == begun
  }

  lemma CharTwo(begun: bool, v: nat, a: byte, b: byte)
    requires 0x80 <= v < 0x800 && a == 0xC0 + v / 64 && b == 0x80 + v % 64
    ensures Utf8Step(Idle(begun), a) == (State(1, v / 64, 0x80, 0xBF, begun), "")
    ensures Utf8Step(State(1, v / 64, 0x80, 0xBF, begun), b) == Emit(begun, Scalar(v))
  {}

  lemma CharThree(begun: bool, v: nat, a: byte, b: byte, c: byte)
    requires 0x800 <= v < 0x1_0000 && !(0xD800 <= v < 0xE000)
    requires a == 0xE0 + v / 4096 && b == 0x80 + v / 64 % 64 && c == 0x80 + v % 64
    ensures var (s, x) := Utf8Step(Idle(begun), a);
            && x == "" && s.needed == 2 && s.begun == begun
            && Utf8Step(s, b) == (State(1, v / 64, 0x80, 0xBF, begun), "")
    ensures Utf8Step(State(1, v / 64, 0x80, 0xBF, begun), c) == Emit(begun, Scalar(v))
  {
    assert v / 64 == v / 4096 * 64 + v / 64 % 64;
  }

  lemma CharFour(begun: bool, v: nat, a: byte, b: byte, c: byte, d: byte)
    requires 0x1_0000 <= v < 0x11_0000
    requires a == 0xF0 + v / 0x4_0000 && b == 0x80 + v / 4096 % 64 && c == 0x80 + v / 64 % 64 && d == 0x80 + v % 64
    ensures var (s, x) := Utf8Step(Idle(begun), a);
            && x == "" && s.needed == 3 && s.begun == begun
            && Utf8Step(s, b) == (State(2, v / 4096, 0x80, 0xBF, begun), "")
    ensures Utf8Step(State(2, v / 4096, 0x80, 0xBF, begun), c) == (State(1, v / 64, 0x80, 0xBF, begun), "")
    ensures Utf8Step(State(1, v / 64, 0x80, 0xBF, begun), d) == Emit(begun, Scalar(v))
  {
    assert v / 4096 == v / 0x4_0000 * 64 + v / 4096 % 64;
    assert v / 64 == v / 4096 * 64 + v / 64 % 64;
  }

  /** After the first k bytes of the character the decoder is at st, with nothing out. */
  predicate Reached(begun: bool, c: char, k: nat, st: State)
    requires k <= |CharBytes(c)|
  {
    DecodeFrom(UTF8, Idle(begun), CharBytes(c)[..k]) == (st, "")
  }

  lemma ReachedNext(begun: bool, c: char, k: nat, st: State)
    requires k < |CharBytes(c)| && Reached(begun, c, k, st)
    ensures DecodeFrom(UTF8, Idle(begun), CharBytes(c)[..k + 1]) == Utf8Step(st, CharBytes(c)[k])
  {
    var e := CharBytes(c);
    assert e[..k + 1] == e[..k] + [e[k]];
    DecodeMore(Idle(begun), e[..k], e[k]);
    assert "" + Utf8Step(st, e[k]).1 == Utf8Step(st, e[k]).1;
  }

  /** The bytes of the character decode to it; cut short, to nothing yet. */
  ghost predicate Decodes(begun: bool, c: char) {
    && DecodeFrom(UTF8, Idle(begun), CharBytes(c)) == Emit(begun, c)
    && forall k | 0 < k < |CharBytes(c)| :: Midway(begun, c, k)
  }

  lemma TwoDecode(begun: bool, c: char)
    requires |CharBytes(c)| == 2
    ensures Decodes(begun, c)
  {
    var v, e := c as int, CharBytes(c);
    assert e[..2] == e && e[..0] == [];
    ReachedNext(begun, c, 0, Idle(begun));
    CharTwo(begun, v, e[0], e[1]);
    ReachedNext(begun, c, 1, State(1, v / 64, 0x80, 0xBF, begun));
  }

  lemma ThreeDecode(begun: bool, c: char)
    requires |CharBytes(c)| == 3
    ensures Decodes(begun, c)
  {
    var v, e := c as int, CharBytes(c);
    assert e[..3] == e && e[..0] == [];
    CharThree(begun, v, e[0], e[1], e[2]);
    var one := Utf8Step(Idle(begun), e[0]).0;
    ReachedNext(begun, c, 0, Idle(begun));
    ReachedNext(begun, c, 1, one);
    ReachedNext(begun, c, 2, State(1, v / 64, 0x80, 0xBF, begun));
  }

  lemma FourDecode(begun: bool, c: char)
    requires |CharBytes(c)| == 4
    ensures Decodes(begun, c)
  {
    var v, e := c as int, CharBytes(c);
    assert e[..4] == e && e[..0] == [];
    CharFour(begun, v, e[0], e[1], e[2], e[3]);
    var one := Utf8Step(Idle(begun), e[0]).0;
    ReachedNext(begun, c, 0, Idle(begun));
    ReachedNext(begun, c, 1, one);
    ReachedNext(begun, c, 2, State(2, v / 4096, 0x80, 0xBF, begun));
    ReachedNext(begun, c, 3, State(1, v / 64, 0x80, 0xBF, begun));
  }

  lemma CharDecodes(begun: bool, c: char)
    ensures Decodes(begun, c)
  {
    match |CharBytes(c)|
    case 1 =>
      assert CharBytes(c)[..1] == CharBytes(c) && CharBytes(c)[..0] == [];
      ReachedNext(begun, c, 0, Idle(begun));
    case 2 => TwoDecode(begun, c);
    case 3 => ThreeDecode(begun, c);
    case _ => FourDecode(begun, c);
  }

  /** The bytes up to a cut: whole characters, and then part of one more or nothing. */
  predicate CutOf(s: string, bytes: seq<byte>, n: nat, partial: bool) {
    && n <= |s|
    && if partial then n < |s| && Utf8(s[..n]) < bytes < Utf8(s[..n]) + CharBytes(s[n]) else bytes == Utf8(s[..n])
  }

  /** What shows of a text, a byte order mark at the start of the stream being dropped. */
  function Unmarked(s: string, begun: bool): string { if !begun && s != "" && s[0] == MARK then s[1..] else s }

  /** A byte prefix of a text decodes to the whole characters in it, and a replacement
      if it ends within one. */
  lemma {:induction false} PrefixDecodes(s: string, bytes: seq<byte>, begun: bool) returns (n: nat, partial: bool)
    requires bytes <= Utf8(s)
    ensures CutOf(s, bytes, n, partial)
    ensures var (end, text) := DecodeFrom(UTF8, Idle(begun), bytes);
            text == Unmarked(s[..n], begun) && Utf8Flush(end) == if partial then [REPLACEMENT] else ""
  {
    n, partial := 0, false;
    if s != "" {
      var e := CharBytes(s[0]);
      CharDecodes(begun, s[0]);
      if |bytes| >= |e| {
        var rest := bytes[|e|..];
        assert bytes == e + rest && rest <= Utf8(s[1..]);
        n, partial := PrefixDecodes(s[1..], rest, true);
        HeadThenRest(s, rest, begun, n, partial);
        n := n + 1;
      } else {
        partial := bytes != [];
        CutInFirst(s, bytes, begun);
      }
    }
  }

  lemma HeadThenRest(s: string, rest: seq<byte>, begun: bool, n: nat, partial: bool)
    requires s != "" && Decodes(begun, s[0]) && CutOf(s[1..], rest, n, partial)
    requires DecodeFrom(UTF8, Idle(true), rest).1 == s[1..][..n]
    ensures CutOf(s, CharBytes(s[0]) + rest, n + 1, partial)
    ensures var (end, text) := DecodeFrom(UTF8, Idle(begun), CharBytes(s[0]) + rest);
            text == Unmarked(s[..n + 1], begun) && end == DecodeFrom(UTF8, Idle(true), rest).0
  {
    DecodeConcat(UTF8, Idle(begun), CharBytes(s[0]), rest);
    CutShifts(s, rest, n, partial);
    assert s[..n + 1][1..] == s[1..][..n] && "" + s[1..][..n] == s[1..][..n];
  }

  lemma CutInFirst(s: string, bytes: seq<byte>, begun: bool)
    requires s != "" && bytes <= Utf8(s) && |bytes| < |CharBytes(s[0])| && Decodes(begun, s[0])
    ensures CutOf(s, bytes, 0, bytes != [])
    ensures var (end, text) := DecodeFrom(UTF8, Idle(begun), bytes);
            text == "" && Utf8Flush(end) == if bytes != [] then [REPLACEMENT] else ""
  {
    var e := CharBytes(s[0]);
    assert bytes == e[..|bytes|] && [] + e == e;
    assert bytes != [] ==> Midway(begun, s[0], |bytes|);
  }

  lemma CutShifts(s: string, rest: seq<byte>, n: nat, partial: bool)
    requires s != "" && CutOf(s[1..], rest, n, partial)
    ensures CutOf(s, CharBytes(s[0]) + rest, n + 1, partial)
    ensures s[..n + 1] == [s[0]] + s[1..][..n]
  {
    var e := CharBytes(s[0]);
    assert s[..n + 1][1..] == s[1..][..n];
    assert Utf8(s[..n + 1]) == e + Utf8(s[1..][..n]);
    if partial {
      assert e + Utf8(s[1..][..n]) + CharBytes(s[n + 1]) == e + (Utf8(s[1..][..n]) + CharBytes(s[n + 1]));
    }
  }

  lemma {:induction false} Utf8Concat(s: string, t: string)
    ensures Utf8(s + t) == Utf8(s) + Utf8(t)
  {
    if s == "" {
      assert s + t == t;
    } else {
      assert (s + t)[1..] == s[1..] + t;
      Utf8Concat(s[1..], t);
    }
  }
}

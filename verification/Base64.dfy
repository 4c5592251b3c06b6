/** Raw standard base64: the alphabet of section 4 of RFC 4648 with the padding
    omitted as section 3.2 allows.  The decoder keeps the two liberties Go's
    decoder takes: CR and LF are skipped wherever they stand, and the unused
    low bits of the last character are ignored. */
module Base64 {
  import opened Text

  type sextet = x: int | 0 <= x < 64

  function Symbol(v: sextet): char {
    if v < 26 then ('A' as int + v) as char
    else if v < 52 then ('a' as int + v - 26) as char
    else if v < 62 then ('0' as int + v - 52) as char
    else if v == 62 then '+' else '/'
  }

  function SymbolValue(c: char): Option<sextet> {
    if 'A' <= c <= 'Z' then Some(c as int - 'A' as int)
    else if 'a' <= c <= 'z' then Some(c as int - 'a' as int + 26)
    else if '0' <= c <= '9' then Some(c as int - '0' as int + 52)
    else if c == '+' then Some(62)
    else if c == '/' then Some(63)
    else None
  }

  predicate IsSymbol(c: char) { SymbolValue(c).Some? }

  predicate IsBreak(c: char) { c == '\r' || c == '\n' }

  function Encode(b: seq<byte>): (s: string)
    ensures forall i | 0 <= i < |s| :: IsSymbol(s[i])
  {
    if b == [] then ""
    else if |b| == 1 then [Symbol(b[0] / 4), Symbol(b[0] % 4 * 16)]
    else if |b| == 2 then
      [Symbol(b[0] / 4), Symbol(b[0] % 4 * 16 + b[1] / 16), Symbol(b[1] % 16 * 4)]
    else
      [Symbol(b[0] / 4), Symbol(b[0] % 4 * 16 + b[1] / 16),
       Symbol(b[1] % 16 * 4 + b[2] / 64), Symbol(b[2] % 64)] + Encode(b[3..])
  }

  /** The text with its line breaks dropped. */
  function Unbroken(s: string): string {
    if s == "" then ""
    else if IsBreak(s[0]) then Unbroken(s[1..]) else [s[0]] + Unbroken(s[1..])
  }

  function DecodeQuanta(s: string): Option<seq<byte>> {
    if s == "" then Some([])
    else if |s| == 1 then None
    else
      match (SymbolValue(s[0]), SymbolValue(s[1]))
      case (Some(w), Some(x)) => (
        var b0: byte := w * 4 + x / 16;
        if |s| == 2 then Some([b0])
        else match SymbolValue(s[2])
          case None => None
          case Some(y) =>
            var b1: byte := x % 16 * 16 + y / 4;
            if |s| == 3 then Some([b0, b1])
            else match (SymbolValue(s[3]), DecodeQuanta(s[4..]))
              case (Some(z), Some(rest)) =>
                var b2: byte := y % 4 * 64 + z;
                Some([b0, b1, b2] + rest)
              case _ => None)
      case _ => None
  }

  function Decode(s: string): Option<seq<byte>> { DecodeQuanta(Unbroken(s)) }

  lemma SymbolInverse(v: sextet)
    ensures SymbolValue(Symbol(v)) == Some(v)
  {}

  /** Cutting bytes into sextets and gluing them back, one boundary at a time. */
  lemma Glue(a: byte, b: byte)
    ensures a / 4 * 4 + (a % 4 * 16 + b / 16) / 16 == a
    ensures (a % 4 * 16 + b / 16) % 16 == b / 16
    ensures a / 4 * 4 + (a % 4 * 16) / 16 == a
    ensures b / 16 * 16 + (b % 16 * 4) / 4 == b
  {}

  lemma GlueLow(b: byte, c: byte)
    ensures b / 16 * 16 + (b % 16 * 4 + c / 64) / 4 == b
    ensures (b % 16 * 4 + c / 64) % 4 == c / 64
    ensures c / 64 * 64 + c % 64 == c
  {}

  lemma TailRoundTrip(a: byte, b: byte)
    ensures DecodeQuanta([Symbol(a / 4), Symbol(a % 4 * 16)]) == Some([a])
    ensures DecodeQuanta([Symbol(a / 4), Symbol(a % 4 * 16 + b / 16), Symbol(b % 16 * 4)])
            == Some([a, b])
  {
    var w, x, x', y := a / 4, a % 4 * 16, a % 4 * 16 + b / 16, b % 16 * 4;
    SymbolInverse(w); SymbolInverse(x); SymbolInverse(x'); SymbolInverse(y);
    Glue(a, b);
    assert w * 4 + x / 16 == a && w * 4 + x' / 16 == a && x' % 16 * 16 + y / 4 == b;
  }

  lemma {:induction false} QuantaRoundTrip(b: seq<byte>)
    ensures DecodeQuanta(Encode(b)) == Some(b)
  {
    if |b| == 1 {
      TailRoundTrip(b[0], 0);
      assert b == [b[0]];
    } else if |b| == 2 {
      TailRoundTrip(b[0], b[1]);
      assert b == [b[0], b[1]];
    } else if |b| >= 3 {
      QuantaRoundTrip(b[3..]);
      QuantumRoundTrip(b[0], b[1], b[2], Encode(b[3..]), b[3..]);
      assert b == [b[0], b[1], b[2]] + b[3..];
    }
  }

  lemma QuantumRoundTrip(a: byte, b: byte, c: byte, tail: string, rest: seq<byte>)
    requires DecodeQuanta(tail) == Some(rest)
    ensures DecodeQuanta([Symbol(a / 4), Symbol(a % 4 * 16 + b / 16),
                          Symbol(b % 16 * 4 + c / 64), Symbol(c % 64)] + tail)
            == Some([a, b, c] + rest)
  {
    var w, x, y, z := a / 4, a % 4 * 16 + b / 16, b % 16 * 4 + c / 64, c % 64;
    var s := [Symbol(w), Symbol(x), Symbol(y), Symbol(z)] + tail;
    assert s[4..] == tail;
    SymbolInverse(w); SymbolInverse(x); SymbolInverse(y); SymbolInverse(z);
    Glue(a, b);
    GlueLow(b, c);
    assert w * 4 + x / 16 == a && x % 16 * 16 + y / 4 == b && y % 4 * 64 + z == c;
  }

  lemma {:induction false} UnbrokenIdentity(s: string)
    requires forall i | 0 <= i < |s| :: !IsBreak(s[i])
    ensures Unbroken(s) == s
  {
    if s != "" {
      UnbrokenIdentity(s[1..]);
      assert [s[0]] + s[1..] == s;
    }
  }

  /** Decoding undoes encoding, for every byte string. */
  lemma RoundTrip(b: seq<byte>)
    ensures Decode(Encode(b)) == Some(b)
  {
    QuantaRoundTrip(b);
    UnbrokenIdentity(Encode(b));
  }

  /** A trailing line feed does not change what a text decodes to. */
  lemma {:induction false} UnbrokenFinalBreak(s: string, c: char)
    requires IsBreak(c)
    ensures Unbroken(s + [c]) == Unbroken(s)
  {
    if s == "" {
      assert (s + [c])[1..] == "";
    } else {
      UnbrokenFinalBreak(s[1..], c);
      assert (s + [c])[1..] == s[1..] + [c];
    }
  }

  /** The encoder emits only what the fields of a PHC string may hold. */
  lemma EncodedIsFree(b: seq<byte>, c: char)
    requires !IsSymbol(c)
    ensures Free(Encode(b), c)
  {}
  /** Three bytes are four sextets, most significant first, and each sextet one symbol. */
  lemma EncodesQuantum(a: byte, b: byte, c: byte, w: sextet, x: sextet, y: sextet, z: sextet)
    requires a * 0x1_0000 + b * 0x100 + c == w * 0x4_0000 + x * 0x1000 + y * 0x40 + z
    ensures Encode([a, b, c]) == [Symbol(w), Symbol(x), Symbol(y), Symbol(z)]
  {
    assert w == a / 4 && x == a % 4 * 16 + b / 16 && y == b % 16 * 4 + c / 64 && z == c % 64;
    assert [a, b, c][3..] == [];
  }

  /** The alphabet of section 4 of RFC 4648, at the ends of its ranges. */
  lemma Alphabet()
    ensures Symbol(0) == 'A' && Symbol(25) == 'Z' && Symbol(26) == 'a' && Symbol(51) == 'z'
    ensures Symbol(52) == '0' && Symbol(61) == '9' && Symbol(62) == '+' && Symbol(63) == '/'
    ensures forall v: sextet | v != 25 && v != 51 && v < 61 :: Symbol(v + 1) as int == Symbol(v) as int + 1
  {}

  /** What the decoder lets pass. */
  predicate Fine(c: char) {
    'A' <= c <= 'Z' || 'a' <= c <= 'z' || '0' <= c <= '9' || c == '+' || c == '/' || c == '\r' || c == '\n'
  }

  /** What the decoder accepts: symbols and line breaks alone, where the symbols, of
      which there are n, do not leave one over; and how many bytes they give. */
  lemma DecodesExactly(s: string)
    ensures var n := |s| - Count(s, '\r') - Count(s, '\n');
            && (Decode(s).Some? <==> (forall i | 0 <= i < |s| :: Fine(s[i])) && n % 4 != 1)
            && (Decode(s).Some? ==> |Decode(s).value| == n * 3 / 4)
  {
    QuantaExactly(Unbroken(s));
    UnbrokenExactly(s);
  }

  predicate AllSymbols(s: string) { forall i | 0 <= i < |s| :: IsSymbol(s[i]) }

  lemma {:induction false} QuantaExactly(s: string)
    ensures DecodeQuanta(s).Some? <==> AllSymbols(s) && |s| % 4 != 1
    ensures DecodeQuanta(s).Some? ==> |DecodeQuanta(s).value| == |s| * 3 / 4
    decreases |s|
  {
    if |s| >= 4 {
      QuantaExactly(s[4..]);
      assert s == [s[0], s[1], s[2], s[3]] + s[4..];
    }
  }

  lemma {:induction false} UnbrokenExactly(s: string)
    ensures (forall i | 0 <= i < |s| :: Fine(s[i])) <==> AllSymbols(Unbroken(s))
    ensures |Unbroken(s)| == |s| - Count(s, '\r') - Count(s, '\n')
  {
    if s != "" {
      var rest := s[1..];
      UnbrokenExactly(rest);
      assert (forall i | 0 <= i < |s| :: Fine(s[i])) <==> Fine(s[0]) && forall i | 0 <= i < |rest| :: Fine(rest[i]) by {
        assert s == [s[0]] + rest;
      }
      AllSymbolsOf(s[0], Unbroken(rest));
    }
  }

  lemma AllSymbolsOf(c: char, s: string)
    ensures AllSymbols([c] + s) <==> IsSymbol(c) && AllSymbols(s)
  {
    assert ([c] + s)[0] == c && ([c] + s)[1..] == s;
    forall i | 0 <= i < |s| ensures ([c] + s)[i + 1] == s[i] {}
  }
}

/** Altitude text to bare metres: shape, unit conversion, rounding to ten decimals,
    range, trimming.  Numbers are exact decimals; the rule for ties at the
    eleventh decimal is a parameter, because the two implementations differ there. */
module Altitude {
  import opened Text

  /** Go rounds half to even, JavaScript's toFixed half away from zero. */
  datatype Tie = HalfEven | HalfAway

  datatype Suffix = Bare | Metres | Feet

  datatype Shape = Shape(neg: bool, whole: string, frac: string, suffix: Suffix)

  const TEN_10: nat := 10_000_000_000

  // ----- the accepted shape -----

  function DigitRun(s: string): (n: nat)
    ensures n <= |s| && AllDigits(s[..n]) && (n < |s| ==> !IsDigit(s[n]))
  {
    if s == "" || !IsDigit(s[0]) then 0
    else
      var n := DigitRun(s[1..]);
      assert s[..n + 1] == [s[0]] + s[1..][..n];
      1 + n
  }

  function SuffixOf(s: string): Option<Suffix> {
    if s == "" then Some(Bare) else if s == "m" then Some(Metres) else if s == "ft" then Some(Feet) else None
  }

  function SuffixText(u: Suffix): string {
    match u case Bare => "" case Metres => "m" case Feet => "ft"
  }

  /** What may follow the whole part: a fraction or not, then a suffix. */
  function ParseTail(t: string): Option<(string, Suffix)> {
    if t != "" && t[0] == '.' then
      var m := DigitRun(t[1..]);
      if m == 0 then None
      else match SuffixOf(t[1..][m..])
        case None => None
        case Some(u) => Some((t[1..][..m], u))
    else match SuffixOf(t)
      case None => None
      case Some(u) => Some(("", u))
  }

  function ParseBody(rest: string): Option<(string, string, Suffix)> {
    var n := DigitRun(rest);
    if n == 0 then None
    else match ParseTail(rest[n..])
      case None => None
      case Some((frac, u)) => Some((rest[..n], frac, u))
  }

  function ParseShape(value: string): Option<Shape> {
    var neg := value != "" && value[0] == '-';
    match ParseBody(if neg then value[1..] else value)
    case None => None
    case Some((whole, frac, u)) => Some(Shape(neg, whole, frac, u))
  }

  /** The text a shape stands for; frac is empty when there is no point. */
  predicate WellFormed(h: Shape) { h.whole != "" && AllDigits(h.whole) && AllDigits(h.frac) }

  function TailText(frac: string, u: Suffix): string {
    if frac == "" then SuffixText(u) else "." + (frac + SuffixText(u))
  }

  function Sign(neg: bool): string { if neg then "-" else "" }

  function ShapeText(h: Shape): string { Sign(h.neg) + (h.whole + TailText(h.frac, h.suffix)) }

  lemma {:induction false} RunIsWhole(w: string, rest: string)
    requires AllDigits(w) && (rest == "" || !IsDigit(rest[0]))
    ensures DigitRun(w + rest) == |w|
  {
    if w == "" {
      assert w + rest == rest;
    } else {
      assert (w + rest)[1..] == w[1..] + rest;
      RunIsWhole(w[1..], rest);
    }
  }

  lemma SuffixExact(s: string, u: Suffix)
    ensures SuffixOf(s) == Some(u) <==> s == SuffixText(u)
    ensures SuffixText(u) == "" || (!IsDigit(SuffixText(u)[0]) && SuffixText(u)[0] != '.')
  {}

  lemma TailOfText(frac: string, u: Suffix)
    requires AllDigits(frac)
    ensures var t := TailText(frac, u);
            ParseTail(t) == Some((frac, u)) && (t == "" || !IsDigit(t[0]))
  {
    SuffixExact(SuffixText(u), u);
    if frac != "" {
      var t := TailText(frac, u);
      RunIsWhole(frac, SuffixText(u));
      assert t[1..] == frac + SuffixText(u);
      assert t[1..][..|frac|] == frac && t[1..][|frac|..] == SuffixText(u);
    }
  }

  lemma TextOfTail(t: string)
    requires ParseTail(t).Some?
    ensures var (frac, u) := ParseTail(t).value;
            AllDigits(frac) && t == TailText(frac, u)
  {
    var (frac, u) := ParseTail(t).value;
    if t != "" && t[0] == '.' {
      var m := DigitRun(t[1..]);
      SuffixExact(t[1..][m..], u);
      assert t == "." + (t[1..][..m] + t[1..][m..]);
    } else {
      SuffixExact(t, u);
    }
  }

  lemma BodyOfText(whole: string, frac: string, u: Suffix)
    requires whole != "" && AllDigits(whole) && AllDigits(frac)
    ensures ParseBody(whole + TailText(frac, u)) == Some((whole, frac, u))
  {
    var t := TailText(frac, u);
    TailOfText(frac, u);
    RunIsWhole(whole, t);
    assert (whole + t)[..|whole|] == whole && (whole + t)[|whole|..] == t;
  }

  lemma TextOfBody(rest: string)
    requires ParseBody(rest).Some?
    ensures var (whole, frac, u) := ParseBody(rest).value;
            whole != "" && AllDigits(whole) && AllDigits(frac) && rest == whole + TailText(frac, u)
  {
    var n := DigitRun(rest);
    TextOfTail(rest[n..]);
    assert rest == rest[..n] + rest[n..];
  }

  lemma ParseOfText(h: Shape)
    requires WellFormed(h)
    ensures ParseShape(ShapeText(h)) == Some(h)
  {
    BodyOfText(h.whole, h.frac, h.suffix);
    SignSplit(h.neg, h.whole + TailText(h.frac, h.suffix));
  }

  lemma SignSplit(neg: bool, rest: string)
    requires rest != "" && rest[0] != '-'
    ensures var value := Sign(neg) + rest;
            (value[0] == '-' <==> neg) && (if neg then value[1..] else value) == rest
  {}

  lemma TextOfParse(value: string)
    requires ParseShape(value).Some?
    ensures WellFormed(ParseShape(value).value) && ShapeText(ParseShape(value).value) == value
  {
    var neg := value != "" && value[0] == '-';
    var rest := if neg then value[1..] else value;
    TextOfBody(rest);
    assert value == Sign(neg) + rest;
  }

  /** The parser accepts exactly the texts of well-formed shapes, each one way. */
  lemma ShapeExact(value: string, h: Shape)
    ensures ParseShape(value) == Some(h) <==> WellFormed(h) && value == ShapeText(h)
  {
    if WellFormed(h) { ParseOfText(h); }
    if ParseShape(value).Some? { TextOfParse(value); }
  }

  // ----- value and rounding -----

  /** |metres| times 10^10 as a fraction num / den. */
  function Num(h: Shape): nat
    requires WellFormed(h)
  {
    Value(h.whole + h.frac) * (if h.suffix == Feet then 3048 else 1) * TEN_10
  }

  function Den(h: Shape): (d: nat)
    ensures d >= 1
  {
    Pow10(|h.frac|) * (if h.suffix == Feet then 10_000 else 1)
  }

  function Round(num: nat, den: nat, tie: Tie): nat
    requires den >= 1
  {
    var q, r := num / den, num % den;
    if 2 * r < den then q
    else if 2 * r > den then q + 1
    else if tie == HalfAway || q % 2 == 1 then q + 1 else q
  }

  function Units(h: Shape, tie: Tie): nat
    requires WellFormed(h)
  {
    Round(Num(h), Den(h), tie)
  }

  predicate InRange(neg: bool, units: nat) {
    if neg then units <= 1_000 * TEN_10 else units <= 10_000 * TEN_10
  }

  // ----- the canonical text -----

  function Pad(n: nat, width: nat): (s: string)
    ensures |s| == width && AllDigits(s)
  {
    if width == 0 then "" else Pad(n / 10, width - 1) + [('0' as int + n % 10) as char]
  }

  /** Fixed-point text with ten decimals. */
  function Fixed(neg: bool, units: nat): string {
    Sign(neg) + Decimal(units / TEN_10) + "." + Pad(units % TEN_10, 10)
  }

  function TrimFraction(s: string): string {
    if '.' !in s then s else TrimRight(TrimRight(s, '0'), '.')
  }

  function Canon(value: string, tie: Tie): Option<string> {
    if value == "" then Some("")
    else match ParseShape(value)
      case None => None
      case Some(h) =>
        TextOfParse(value);
        var units := Units(h, tie);
        if InRange(h.neg, units) then Some(TrimFraction(Fixed(h.neg, units))) else None
  }

  // ----- rounding is to the nearest -----

  function Abs(x: int): int { if x < 0 then -x else x }

  lemma DivMod(num: nat, den: nat)
    requires den >= 1
    ensures num == num / den * den + num % den && 0 <= num % den < den
  {}

  lemma OneMore(q: int, den: int)
    ensures (q + 1) * den == q * den + den
  {}

  lemma RoundIsNear(num: nat, den: nat, tie: Tie)
    requires den >= 1
    ensures 2 * Abs(num - Round(num, den, tie) * den) <= den
  {}

  lemma NearIsNearest(num: int, den: nat, u: int, v: int)
    requires den >= 1 && 2 * Abs(num - u * den) <= den
    ensures Abs(num - u * den) <= Abs(num - v * den)
  {
    assert num - v * den == (num - u * den) - (v - u) * den;
    FarApart(v - u, den);
  }

  lemma FarApart(d: int, den: nat)
    requires den >= 1
    ensures d != 0 ==> Abs(d * den) >= den
  {}

  lemma ExactDiv(num: nat, u: nat, den: nat)
    requires den >= 1 && num == u * den
    ensures num / den == u && num % den == 0
  {
    DivMod(num, den);
    var q := num / den;
    assert (u - q) * den == num % den;
    FarApart(u - q, den);
  }

  lemma RoundExact(num: nat, u: nat, den: nat, tie: Tie)
    requires den >= 1 && num == u * den
    ensures Round(num, den, tie) == u
  {
    ExactDiv(num, u, den);
  }

  // ----- the canonical text is its own canonical form -----

  lemma {:induction false} PadValue(n: nat, width: nat)
    requires n < Pow10(width)
    ensures Value(Pad(n, width)) == n
  {
    if width > 0 { PadValue(n / 10, width - 1); }
  }

  lemma TenTen()
    ensures Pow10(10) == TEN_10
  {}

  lemma {:induction false} TrimStops(a: string, f: string, c: char)
    requires a == "" || a[|a| - 1] != c
    ensures TrimRight(a + f, c) == a + TrimRight(f, c)
  {
    if f == "" {
      assert a + f == a;
    } else {
      TrimStops(a, f[..|f| - 1], c);
      assert (a + f)[..|a + f| - 1] == a + f[..|f| - 1];
      assert f[|f| - 1] != c ==> TrimRight(f, c) == f;
    }
  }

  /** Dropping trailing zeros divides the value by the matching power of ten. */
  lemma {:induction false} TrimZeros(f: string)
    requires AllDigits(f)
    ensures var t := TrimRight(f, '0');
            && |t| <= |f| && AllDigits(t) && (t == "" || t[|t| - 1] != '0')
            && f[..|t|] == t && Value(f) == Value(t) * Pow10(|f| - |t|)
  {
    if f != "" && f[|f| - 1] == '0' {
      var g := f[..|f| - 1];
      TrimZeros(g);
      var t := TrimRight(f, '0');
      assert t == TrimRight(g, '0') && Value(f) == Value(g) * 10;
      assert f[..|t|] == g[..|t|];
      Ten(Value(t), Pow10(|g| - |t|));
    } else {
      assert f[..|f|] == f;
    }
  }

  lemma Ten(v: nat, p: nat)
    ensures v * p * 10 == v * (10 * p)
  {}

  /** The shape of the canonical text of a signed number of units. */
  function CanonShape(neg: bool, units: nat): Shape {
    Shape(neg, Decimal(units / TEN_10), TrimRight(Pad(units % TEN_10, 10), '0'), Bare)
  }

  lemma TrimPoint(head: string, kept: string)
    requires head != "" && head[|head| - 1] != '.'
    requires AllDigits(kept)
    ensures TrimRight(head + "." + kept, '.') == head + (if kept == "" then "" else "." + kept)
  {}

  lemma TrimmedText(neg: bool, units: nat)
    ensures WellFormed(CanonShape(neg, units))
    ensures TrimFraction(Fixed(neg, units)) == ShapeText(CanonShape(neg, units))
  {
    var w := Decimal(units / TEN_10);
    var head := Sign(neg) + w;
    assert head[|head| - 1] == w[|w| - 1];
    var frac := Pad(units % TEN_10, 10);
    var kept := TrimRight(frac, '0');
    TrimZeros(frac);
    assert Fixed(neg, units) == head + "." + frac;
    assert (head + "." + frac)[|head|] == '.';
    assert (head + ".")[|head|] == '.';
    TrimStops(head + ".", frac, '0');
    TrimPoint(head, kept);
    CanonText(neg, w, kept);
  }

  lemma CanonText(neg: bool, w: string, kept: string)
    ensures Sign(neg) + w + (if kept == "" then "" else "." + kept) == ShapeText(Shape(neg, w, kept, Bare))
  {}

  /** Its exact value is that many units, so rounding it changes nothing. */
  lemma CanonUnits(neg: bool, units: nat, tie: Tie)
    ensures var h := CanonShape(neg, units);
            WellFormed(h) && Num(h) == units * Den(h) && Units(h, tie) == units
  {
    var h := CanonShape(neg, units);
    TrimmedText(neg, units);
    DigitsOfUnits(units, h.whole, h.frac);
    assert Num(h) == Value(h.whole + h.frac) * TEN_10 && Den(h) == Pow10(|h.frac|);
    RoundExact(Num(h), units, Den(h), tie);
  }

  lemma DigitsOfUnits(units: nat, w: string, kept: string)
    requires w == Decimal(units / TEN_10) && kept == TrimRight(Pad(units % TEN_10, 10), '0')
    requires AllDigits(kept)
    ensures Value(w + kept) * TEN_10 == units * Pow10(|kept|)
  {
    DivMod(units, TEN_10);
    DigitsOf(units / TEN_10, units % TEN_10, w, kept);
  }

  lemma DigitsOf(q: nat, r: nat, w: string, kept: string)
    requires r < TEN_10 && w == Decimal(q) && kept == TrimRight(Pad(r, 10), '0') && AllDigits(kept)
    ensures Value(w + kept) * TEN_10 == (q * TEN_10 + r) * Pow10(|kept|)
  {
    FractionValue(r, kept);
    ValueConcat(w, kept);
    var v, k, z := Value(kept), Pow10(|kept|), Pow10(10 - |kept|);
    Recombine(q, v, k, z, TEN_10, q * TEN_10 + r, Value(w + kept));
  }

  lemma FractionValue(r: nat, kept: string)
    requires r < TEN_10 && kept == TrimRight(Pad(r, 10), '0') && AllDigits(kept)
    ensures |kept| <= 10 && TEN_10 == Pow10(|kept|) * Pow10(10 - |kept|) && r == Value(kept) * Pow10(10 - |kept|)
  {
    TenTen();
    PadValue(r, 10);
    TrimZeros(Pad(r, 10));
    Pow10Add(|kept|, 10 - |kept|);
  }

  lemma Recombine(q: nat, v: nat, k: nat, z: nat, t: nat, units: nat, m: nat)
    requires t == k * z && units == q * t + v * z && m == q * k + v
    ensures m * t == units * k
  {
    assert (q * k + v) * (k * z) == q * (k * z) * k + v * z * k;
  }

  lemma CanonOfUnits(neg: bool, units: nat, tie: Tie)
    requires InRange(neg, units)
    ensures var c := TrimFraction(Fixed(neg, units));
            c != "" && ParseShape(c) == Some(CanonShape(neg, units)) && Canon(c, tie) == Some(c)
  {
    TrimmedText(neg, units);
    ParseOfText(CanonShape(neg, units));
    CanonUnits(neg, units, tie);
  }

  /** Canonicalisation is idempotent, whichever tie rule made the text and
      whichever reads it back. */
  lemma Idempotent(value: string, tie: Tie, tie': Tie)
    requires Canon(value, tie).Some?
    ensures Canon(Canon(value, tie).value, tie') == Canon(value, tie)
  {
    if value != "" {
      var h := ParseShape(value).value;
      TextOfParse(value);
      CanonOfUnits(h.neg, Units(h, tie), tie');
    }
  }

  /** An accepted text yields the nearest ten-decimal number to its exact metres,
      within [-1000, 10000], written without trailing fractional zero or bare point. */
  lemma CanonIsNearest(value: string, tie: Tie, v: int)
    requires value != "" && Canon(value, tie).Some?
    ensures var h := ParseShape(value).value;
            var c := ParseShape(Canon(value, tie).value);
            && c.Some? && c.value.suffix == Bare && c.value.neg == h.neg
            && WellFormed(h) && WellFormed(c.value)
            && (c.value.frac == "" || c.value.frac[|c.value.frac| - 1] != '0') && |c.value.frac| <= 10
            && var u := Units(h, tie);
               && Num(c.value) == u * Den(c.value)
               && Abs(Num(h) - u * Den(h)) <= Abs(Num(h) - v * Den(h))
               && (if h.neg then u <= 1_000 * TEN_10 else u <= 10_000 * TEN_10)
  {
    var h := ParseShape(value).value;
    TextOfParse(value);
    var u := Units(h, tie);
    CanonOfUnits(h.neg, u, tie);
    CanonUnits(h.neg, u, tie);
    TrimZeros(Pad(u % TEN_10, 10));
    RoundIsNear(Num(h), Den(h), tie);
    NearIsNearest(Num(h), Den(h), u, v);
  }

  function SignedUnits(h: Shape, tie: Tie): int
    requires WellFormed(h)
  {
    var u: int := Units(h, tie);
    if h.neg then -u else u
  }

  predicate Between(units: int, low: int, high: int) { low * 10_000_000_000 <= units <= high * 10_000_000_000 }

  /** A text is accepted exactly when it is empty, and then stays so, or has the shape
      and its metres, rounded to ten decimals, lie between -1000 and 10000. */
  lemma AcceptedExactly(value: string, tie: Tie)
    ensures value == "" ==> Canon(value, tie) == Some("")
    ensures Canon(value, tie).Some? <==>
              value == "" || exists h :: WellFormed(h) && value == ShapeText(h) && Between(SignedUnits(h, tie), -1_000, 10_000)
  {
    if ParseShape(value).Some? { TextOfParse(value); }
    forall h | WellFormed(h) && value == ShapeText(h) ensures ParseShape(value) == Some(h) { ParseOfText(h); }
  }
}

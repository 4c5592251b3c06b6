/** How the altitude field shows a stored value, and that saving what it shows
    stores the same value again. */
module AltitudeDisplay {
  import opened Text
  import opened Altitude

  /** An integer as JavaScript prints it. */
  function IntText(n: int): string { if n < 0 then "-" + Decimal(-n) else Decimal(n) }

  /** Math.round(m / 0.3048) for the number with shape h: the floor of a half more. */
  function WholeFeet(h: Shape): int
    requires WellFormed(h)
  {
    var magnitude := Value(h.whole + h.frac) * 10_000;
    var num := if h.neg then -magnitude else magnitude;
    var den := 3048 * Pow10(|h.frac|);
    (2 * num + den) / (2 * den)
  }

  /** The number JavaScript reads, for texts that are a bare decimal. */
  function NumberOf(s: string): (h: Option<Shape>)
    ensures h.Some? ==> WellFormed(h.value)
  {
    match ParseShape(s)
    case None => None
    case Some(h) => TextOfParse(s); if h.suffix == Bare then Some(h) else None
  }

  function FeetText(n: int): string { IntText(n) + "ft" }

  function Display(s: string, imperial: bool): string {
    if s == "" then ""
    else
      var h := NumberOf(s);
      if imperial && h.Some? && Canon(FeetText(WholeFeet(h.value)), HalfAway) == Canon(s, HalfAway) then
        FeetText(WholeFeet(h.value))
      else s + "m"
  }

  /** A stored value: one that canonicalisation leaves alone. */
  predicate Canonical(s: string) { exists tie :: Canon(s, tie) == Some(s) }

  lemma CanonicalEverywhere(s: string, tie: Tie)
    requires Canonical(s)
    ensures Canon(s, tie) == Some(s)
  {
    var t :| Canon(s, t) == Some(s);
    Idempotent(s, t, tie);
  }

  // ----- whole feet -----

  function FeetShape(n: int): Shape { Shape(n < 0, Decimal(if n < 0 then -n else n), "", Feet) }

  lemma FeetOfText(n: int)
    ensures ParseShape(FeetText(n)) == Some(FeetShape(n)) && WellFormed(FeetShape(n))
  {
    var h := FeetShape(n);
    assert ShapeText(h) == Sign(h.neg) + (h.whole + "ft");
    assert FeetText(n) == ShapeText(h);
    ParseOfText(h);
  }

  /** Whole feet are a whole number of ten-decimal units: 0.3048 metres each. */
  lemma FeetUnits(n: int, tie: Tie)
    ensures WellFormed(FeetShape(n)) && Units(FeetShape(n), tie) == Abs(n) * 3_048_000_000
    ensures Num(FeetShape(n)) % Den(FeetShape(n)) == 0
  {
    var h := FeetShape(n);
    assert h.whole + "" == h.whole;
    assert Num(h) == Abs(n) * 3048 * TEN_10 && Den(h) == 10_000;
    assert Num(h) == Abs(n) * 3_048_000_000 * 10_000;
    ExactDiv(Num(h), Abs(n) * 3_048_000_000, 10_000);
  }

  /** Whole feet canonicalise to exactly 0.3048 times as many metres, or are out of range. */
  lemma FeetCanon(n: int, tie: Tie)
    ensures var u := Abs(n) * 3_048_000_000;
            Canon(FeetText(n), tie)
            == if InRange(n < 0, u) then Some(ShapeText(CanonShape(n < 0, u))) else None
  {
    FeetOfText(n);
    FeetUnits(n, tie);
    TrimmedText(n < 0, Abs(n) * 3_048_000_000);
    assert FeetText(n) != "";
  }

  /** Reading a stored whole-feet value back in feet gives the number of feet. */
  lemma FeetRecovered(n: int)
    requires InRange(n < 0, Abs(n) * 3_048_000_000)
    ensures var h := CanonShape(n < 0, Abs(n) * 3_048_000_000);
            WellFormed(h) && WholeFeet(h) == n
  {
    var u := Abs(n) * 3_048_000_000;
    var h := CanonShape(n < 0, u);
    CanonUnits(n < 0, u, HalfAway);
    BareUnits(h, u);
    Scaled(Value(h.whole + h.frac), Pow10(|h.frac|), Abs(n));
    WholeFeetIs(h, n);
  }

  lemma BareUnits(h: Shape, u: nat)
    requires WellFormed(h) && h.suffix == Bare && Num(h) == u * Den(h)
    ensures Value(h.whole + h.frac) * TEN_10 == u * Pow10(|h.frac|)
  {}

  lemma WholeFeetIs(h: Shape, n: int)
    requires WellFormed(h) && (h.neg <==> n < 0)
    requires Value(h.whole + h.frac) * 10_000 == Abs(n) * (3048 * Pow10(|h.frac|))
    ensures WholeFeet(h) == n
  {
    var den := 3048 * Pow10(|h.frac|);
    Signed(n, den);
    HalfMore(n, den);
  }

  lemma Signed(n: int, den: int)
    ensures n * den == if n < 0 then -(Abs(n) * den) else Abs(n) * den
  {}

  lemma Scaled(v: nat, p: nat, n: nat)
    requires v * TEN_10 == n * 3_048_000_000 * p
    ensures v * 10_000 == n * (3048 * p)
  {}

  lemma HalfMore(n: int, den: nat)
    requires den >= 1
    ensures (2 * (n * den) + den) / (2 * den) == n
  {
    assert 2 * (n * den) + den == n * (2 * den) + den;
    FloorOf(n, 2 * den, den);
  }

  lemma FloorOf(q: int, d: int, r: int)
    requires 0 <= r < d
    ensures (q * d + r) / d == q
  {
    var x := q * d + r;
    assert (x / d - q) * d == r - x % d;
    FarApart(x / d - q, d);
  }

  lemma ShownAsFeet(s: string, h: Shape, n: int)
    requires s != "" && ParseShape(s) == Some(h) && WellFormed(h) && h.suffix == Bare && WholeFeet(h) == n
    requires Canon(FeetText(n), HalfAway) == Canon(s, HalfAway)
    ensures Display(s, true) == FeetText(n)
  {}

  /** An imperial viewer is shown every in-range whole number of feet as that number. */
  lemma FeetShownBack(n: int)
    requires -1_000 * 10_000_000_000 <= n * 3_048_000_000 <= 10_000 * 10_000_000_000
    ensures Canon(FeetText(n), HalfAway).Some?
    ensures Display(Canon(FeetText(n), HalfAway).value, true) == FeetText(n)
  {
    var u := Abs(n) * 3_048_000_000;
    FeetCanon(n, HalfAway);
    var s := Canon(FeetText(n), HalfAway).value;
    TrimmedText(n < 0, u);
    CanonOfUnits(n < 0, u, HalfAway);
    FeetRecovered(n);
    ShownAsFeet(s, CanonShape(n < 0, u), n);
  }

  // ----- saving what is shown -----

  lemma MetresSuffix(s: string, tie: Tie)
    requires s != "" && ParseShape(s).Some? && ParseShape(s).value.suffix == Bare
    ensures Canon(s + "m", tie) == Canon(s, tie)
  {
    var h := ParseShape(s).value;
    TextOfParse(s);
    MetresText(h);
    ParseOfText(h.(suffix := Metres));
  }

  lemma MetresText(h: Shape)
    requires h.suffix == Bare
    ensures ShapeText(h.(suffix := Metres)) == ShapeText(h) + "m"
  {}

  lemma CanonicalIsBare(s: string)
    requires Canonical(s) && s != ""
    ensures ParseShape(s).Some? && ParseShape(s).value.suffix == Bare
  {
    CanonicalEverywhere(s, HalfAway);
    CanonIsNearest(s, HalfAway, 0);
  }

  /** For every stored value, in either locale, canonicalising what is displayed
      gives the stored value back, whichever implementation does it. */
  lemma DisplayRoundTrip(s: string, imperial: bool, tie: Tie)
    requires Canonical(s)
    ensures Canon(Display(s, imperial), tie) == Some(s)
  {
    CanonicalEverywhere(s, tie);
    if s != "" {
      CanonicalIsBare(s);
      MetresSuffix(s, tie);
      var ft := WholeFeet(NumberOf(s).value);
      if Display(s, imperial) == FeetText(ft) {
        if imperial && Canon(FeetText(ft), HalfAway) == Canon(s, HalfAway) {
          CanonicalEverywhere(s, HalfAway);
          FeetCanon(ft, HalfAway);
          FeetCanon(ft, tie);
        }
      }
    }
  }

  /** Feet are shown exactly to imperial viewers and for the values that are a whole
      number of feet; otherwise, the stored metres. */
  lemma FeetShownExactly(s: string)
    requires Canonical(s) && s != ""
    ensures Display(s, false) == s + "m"
    ensures Display(s, true) != s + "m" <==> exists n :: Canon(FeetText(n), HalfAway) == Some(s)
  {
    CanonicalEverywhere(s, HalfAway);
    CanonicalIsBare(s);
    var ft := WholeFeet(NumberOf(s).value);
    FeetEnd(ft);
    assert (s + "m")[|s|] == 'm';
    if n :| Canon(FeetText(n), HalfAway) == Some(s) {
      FeetCanon(n, HalfAway);
      FeetShownBack(n);
      FeetEnd(n);
    }
  }

  lemma FeetEnd(n: int)
    ensures FeetText(n)[|FeetText(n)| - 1] == 't'
  {}
}

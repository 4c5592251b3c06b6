/** Where the two rounding rules of the altitude code differ: exactly on which texts,
    and on which of these the metres are a number that the code can hold. */
module AltitudeTies {
  import opened Text
  import opened Altitude

  /** The exact metres lie midway between u and u + 1 units, u even and in range. */
  predicate EvenTie(h: Shape)
    requires WellFormed(h)
  {
    var u := Num(h) / Den(h);
    2 * (Num(h) % Den(h)) == Den(h) && u % 2 == 0 && InRange(h.neg, u)
  }

  lemma UnitsOfTie(h: Shape)
    requires WellFormed(h)
    ensures var u := Num(h) / Den(h);
            if 2 * (Num(h) % Den(h)) == Den(h) && u % 2 == 0
            then Units(h, HalfEven) == u && Units(h, HalfAway) == u + 1
            else Units(h, HalfEven) == Units(h, HalfAway)
  {}

  lemma UnitsTellTextsApart(neg: bool, u: nat, v: nat)
    requires InRange(neg, u) && InRange(neg, v)
    requires TrimFraction(Fixed(neg, u)) == TrimFraction(Fixed(neg, v))
    ensures u == v
  {
    CanonOfUnits(neg, u, HalfEven);
    CanonOfUnits(neg, v, HalfEven);
    CanonUnits(neg, u, HalfEven);
    CanonUnits(neg, v, HalfEven);
  }

  lemma AgreeOnShape(h: Shape)
    requires WellFormed(h)
    ensures Canon(ShapeText(h), HalfEven) == Canon(ShapeText(h), HalfAway) <==> !EvenTie(h)
  {
    ParseOfText(h);
    UnitsOfTie(h);
    assert ShapeText(h) != "";
    if EvenTie(h) && InRange(h.neg, Units(h, HalfAway)) && Canon(ShapeText(h), HalfEven) == Canon(ShapeText(h), HalfAway) {
      UnitsTellTextsApart(h.neg, Units(h, HalfEven), Units(h, HalfAway));
    }
  }

  /** The two tie rules give the same answer for every text, except exactly those
      whose metres are a tie between an even number of units, in range, and the next. */
  lemma AgreeExactly(value: string)
    ensures Canon(value, HalfEven) == Canon(value, HalfAway)
       <==> !exists h :: WellFormed(h) && value == ShapeText(h) && EvenTie(h)
  {
    forall h | WellFormed(h) && value == ShapeText(h)
      ensures Canon(value, HalfEven) == Canon(value, HalfAway) <==> !EvenTie(h)
    {
      AgreeOnShape(h);
    }
    if value != "" && ParseShape(value).Some? { TextOfParse(value); }
  }

  // ----- ties that a double can hold -----

  /** The exact metres are j / 2^11. */
  predicate IsDyadic(h: Shape, j: nat)
    requires WellFormed(h)
  {
    Num(h) * 2048 == j * TEN_10 * Den(h)
  }

  lemma DyadicDivision(num: nat, den: nat, j: nat)
    requires den >= 1 && num * 2048 == j * TEN_10 * den
    ensures num / den == j * 9_765_625 / 2
    ensures 2 * (num % den) == if j % 2 == 1 then den else 0
  {
    Rescale(num, den, j);
    HalfOrWhole(num, den, j * 9_765_625, j * 9_765_625 / 2, j % 2);
  }

  lemma Rescale(num: nat, den: nat, j: nat)
    requires num * 2048 == j * TEN_10 * den
    ensures 2 * num == j * 9_765_625 * den
  {
    assert j * TEN_10 * den == TEN_10 * (j * den);
    assert j * 9_765_625 * den == 9_765_625 * (j * den);
  }

  lemma HalfOrWhole(num: nat, den: nat, x: nat, u: nat, odd: nat)
    requires den >= 1 && 2 * num == x * den && x == 2 * u + odd && odd <= 1
    ensures num / den == u && 2 * (num % den) == if odd == 1 then den else 0
  {
    assert (2 * u + odd) * den == 2 * (u * den) + odd * den;
    QuotientIs(num, den, u, num - u * den);
  }

  lemma QuotientIs(num: nat, den: nat, u: nat, r: nat)
    requires num == u * den + r && r < den
    ensures num / den == u && num % den == r
  {
    DivMod(num, den);
    var q := num / den;
    assert (u - q) * den == num % den - r;
    FarApart(u - q, den);
  }

  lemma HalfOf(x: nat, k: nat, h: nat, odd: nat)
    requires x == 2 * (2 * k + h) + odd && odd <= 1
    ensures x / 2 % 2 == h % 2
  {
    assert x / 2 == 2 * k + h;
  }

  lemma Parity(j: nat)
    ensures j % 2 == 1 && j * 9_765_625 / 2 % 2 == 0 <==> j % 4 == 1
  {
    var i := j / 4;
    match j - 4 * i
    case 0 => HalfOf(j * 9_765_625, 9_765_625 * i, 0, 0);
    case 1 => HalfOf(j * 9_765_625, 9_765_625 * i, 4_882_812, 1);
    case 2 => HalfOf(j * 9_765_625, 9_765_625 * i, 9_765_625, 0);
    case _ => HalfOf(j * 9_765_625, 9_765_625 * i, 14_648_437, 1);
  }

  /** Of the metres j / 2^11 the two rules differ on every fourth: where j is 1 modulo
      4, and in range. */
  lemma DyadicsDifferExactly(h: Shape, j: nat)
    requires WellFormed(h) && IsDyadic(h, j)
    ensures Canon(ShapeText(h), HalfEven) != Canon(ShapeText(h), HalfAway)
       <==> j % 4 == 1 && InRange(h.neg, j * 9_765_625 / 2)
  {
    DyadicDivision(Num(h), Den(h), j);
    Parity(j);
    AgreeOnShape(h);
  }

  function Pow2(e: nat): nat { if e == 0 then 1 else 2 * Pow2(e - 1) }

  /** An odd divisor of x * 2^e divides x. */
  lemma {:induction false} OddDivides(x: nat, e: nat, k: nat) returns (i: nat)
    requires x * Pow2(e) == 9_765_625 * k
    ensures x == 9_765_625 * i
  {
    i := k;
    if e > 0 {
      var y := x * Pow2(e - 1);
      assert x * Pow2(e) == 2 * y;
      assert 9_765_625 * k == 2 * (9_765_625 * (k / 2)) + 9_765_625 * (k % 2);
      assert k % 2 == 0;
      i := OddDivides(x, e - 1, k / 2);
    }
  }

  /** A tie whose metres are exactly m / 2^e, as those of a double are, is some j / 2^11. */
  lemma TieIsDyadic(h: Shape, m: nat, e: nat) returns (j: nat)
    requires WellFormed(h) && 2 * (Num(h) % Den(h)) == Den(h)
    requires Num(h) * Pow2(e) == m * TEN_10 * Den(h)
    ensures IsDyadic(h, j) && j % 2 == 1
  {
    var u := Num(h) / Den(h);
    DivMod(Num(h), Den(h));
    OddHalves(Num(h), Den(h), u, Num(h) % Den(h));
    j := TieOf(Num(h), Den(h), 2 * u + 1, m, e);
  }

  lemma TieOf(num: nat, den: nat, x: nat, m: nat, e: nat) returns (j: nat)
    requires den >= 1 && 2 * num == x * den && x % 2 == 1 && num * Pow2(e) == m * TEN_10 * den
    ensures num * 2048 == j * TEN_10 * den && j % 2 == 1
  {
    TieNumerator(num, den, x, Pow2(e), m);
    j := OddDivides(x, e, 2048 * m);
    Scale(x, j, den, num);
  }

  lemma OddHalves(num: nat, den: nat, u: nat, r: nat)
    requires num == u * den + r && 2 * r == den
    ensures 2 * num == (2 * u + 1) * den
  {
    assert (2 * u + 1) * den == 2 * (u * den) + den;
  }

  lemma TieNumerator(num: nat, den: nat, x: nat, p: nat, m: nat)
    requires den >= 1 && 2 * num == x * den && num * p == m * TEN_10 * den
    ensures x * p == 9_765_625 * (2048 * m)
  {
    assert x * p * den == x * den * p == 2 * (num * p);
    CancelDen(x * p, 2 * m * TEN_10, den);
  }

  lemma CancelDen(x: nat, y: nat, den: nat)
    requires den >= 1 && x * den == y * den
    ensures x == y
  {
    assert (x - y) * den == 0;
    FarApart(x - y, den);
  }

  lemma Scale(x: nat, j: nat, den: nat, num: nat)
    requires x == 9_765_625 * j && 2 * num == x * den && x % 2 == 1
    ensures num * 2048 == j * TEN_10 * den && j % 2 == 1
  {
    assert x * den == 9_765_625 * (j * den);
    assert j * TEN_10 * den == TEN_10 * (j * den);
    assert x == 2 * (9_765_625 * (j / 2)) + 9_765_625 * (j % 2);
  }

  /** The shape of 0.00048828125, which is 2^-11. */
  const EXAMPLE := Shape(false, "0", "00048828125", Bare)

  lemma PadInput()
    ensures Pad(48828125, 12) == "000048828125"
  {}

  lemma PadEven()
    ensures Pad(4882812, 10) == "0004882812"
  {}

  lemma PadAway()
    ensures Pad(4882813, 10) == "0004882813"
  {}

  lemma TenTwelve()
    ensures Pow10(11) == 100_000_000_000 && Pow10(12) == 1_000_000_000_000
  {
    TenTen();
  }

  lemma ExampleValue()
    ensures AllDigits("000048828125") && Value("000048828125") == 48828125
  {
    PadInput();
    TenTwelve();
    PadValue(48828125, 12);
  }

  lemma ExampleText()
    ensures ShapeText(EXAMPLE) == "0.00048828125"
  {
    assert TailText(EXAMPLE.frac, Bare) == ".00048828125";
  }

  lemma ExampleFraction()
    ensures WellFormed(EXAMPLE) && Num(EXAMPLE) == 48828125 * TEN_10 && Den(EXAMPLE) == 100_000_000_000
  {
    ExampleValue();
    assert EXAMPLE.whole + EXAMPLE.frac == "000048828125";
    TenTwelve();
    assert |EXAMPLE.frac| == 11;
  }

  lemma NoTrim(s: string)
    requires '.' in s && s[|s| - 1] != '0' && s[|s| - 1] != '.'
    ensures TrimFraction(s) == s
  {}

  /** An input on which the two rules differ, and which the code holds exactly. */
  lemma TieExample()
    ensures Canon("0.00048828125", HalfEven) == Some("0.0004882812")
    ensures Canon("0.00048828125", HalfAway) == Some("0.0004882813")
    ensures ParseShape("0.00048828125") == Some(EXAMPLE) && WellFormed(EXAMPLE) && IsDyadic(EXAMPLE, 1)
  {
    ExampleText();
    ExampleFraction();
    ParseOfText(EXAMPLE);
    ExampleUnits();
    EvenOutput();
    AwayOutput();
  }

  lemma ExampleUnits()
    ensures WellFormed(EXAMPLE) && Units(EXAMPLE, HalfEven) == 4882812 && Units(EXAMPLE, HalfAway) == 4882813
  {
    ExampleFraction();
  }

  lemma EvenOutput()
    ensures TrimFraction(Fixed(false, 4882812)) == "0.0004882812"
  {
    PadEven();
    FixedText(4882812, "0.0004882812");
  }

  lemma AwayOutput()
    ensures TrimFraction(Fixed(false, 4882813)) == "0.0004882813"
  {
    PadAway();
    FixedText(4882813, "0.0004882813");
  }

  lemma FixedText(units: nat, text: string)
    requires units < TEN_10 && text == "0" + "." + Pad(units, 10) && text[11] != '0'
    ensures TrimFraction(Fixed(false, units)) == text
  {
    assert Decimal(0) == "0" && units / TEN_10 == 0 && units % TEN_10 == units;
    assert Sign(false) + "0" == "0";
    assert text[1] == '.' && IsDigit(Pad(units, 10)[9]) && text[11] == Pad(units, 10)[9];
    NoTrim(text);
  }
}

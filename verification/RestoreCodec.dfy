/** What the restore stream relies on of its JSON codec can be met: one encoding that does. */
module RestoreCodec {
  import opened Text
  import opened TextDecoder
  import opened RestoreStream

  /** The characters of a text as decimals, each with a comma after it. */
  function Code(s: string): (t: string)
    ensures forall i | 0 <= i < |t| :: IsDigit(t[i]) || t[i] == ','
  {
    if s == "" then "" else Decimal(s[0] as int) + [','] + Code(s[1..])
  }

  lemma {:induction false} CodeInjective(a: string, b: string)
    requires Code(a) == Code(b)
    ensures a == b
  {
    if a != "" && b != "" {
      var x, y := Decimal(a[0] as int), Decimal(b[0] as int);
      SplitHead(x, Code(a[1..]), ',');
      SplitHead(y, Code(b[1..]), ',');
      var p, q := Split(Code(a[1..]), ','), Split(Code(b[1..]), ',');
      assert ([x] + p)[0] == ([y] + q)[0] && ([x] + p)[1..] == p && ([y] + q)[1..] == q;
      DecimalInjective(a[0] as int, b[0] as int);
      JoinSplit(Code(a[1..]), ',');
      JoinSplit(Code(b[1..]), ',');
      CodeInjective(a[1..], b[1..]);
      assert a == [a[0]] + a[1..] && b == [b[0]] + b[1..];
    }
  }

  /** Neither white space nor a closing brace. */
  predicate Plain(s: string) { forall i | 0 <= i < |s| :: IsDigit(s[i]) || s[i] in ",;STFO{" }

  function Fields(a: string, b: string, c: string): string { Code(a) + ";" + (Code(b) + ";" + Code(c)) }

  function Inner(ev: Event): (s: string)
    ensures Plain(s) && s != ""
  {
    match ev
    case Section(a, b, c) => "S" + Fields(a, b, c)
    case Summary(changed) => if changed then "T" else "F"
    case OtherValue(_) => "O"
  }

  function Sample(ev: Event): string { "{" + Inner(ev) + "}" }

  lemma FieldsInjective(a: string, b: string, c: string, a': string, b': string, c': string)
    requires Fields(a, b, c) == Fields(a', b', c')
    ensures a == a' && b == b' && c == c'
  {
    FieldsSplit(a, b, c);
    FieldsSplit(a', b', c');
    assert [Code(a), Code(b), Code(c)][0] == Code(a) && [Code(a), Code(b), Code(c)][1] == Code(b);
    assert [Code(a), Code(b), Code(c)][2] == Code(c);
    CodeInjective(a, a');
    CodeInjective(b, b');
    CodeInjective(c, c');
  }

  lemma FieldsSplit(a: string, b: string, c: string)
    ensures Split(Fields(a, b, c), ';') == [Code(a), Code(b), Code(c)]
  {
    SplitHead(Code(a), Code(b) + ";" + Code(c), ';');
    SplitHead(Code(b), Code(c), ';');
    SplitFree(Code(c), ';');
  }

  lemma SampleInjective(ev: Event, ev': Event)
    requires Sample(ev) == Sample(ev') && !ev.OtherValue? && !ev'.OtherValue?
    ensures ev == ev'
  {
    var s, s' := Sample(ev), Sample(ev');
    assert s[1..|s| - 1] == Inner(ev) && s'[1..|s'| - 1] == Inner(ev');
    assert Inner(ev)[0] == Inner(ev')[0];
    if ev.Section? && ev'.Section? {
      assert Inner(ev)[1..] == Fields(ev.section, ev.status, ev.reason);
      assert Inner(ev')[1..] == Fields(ev'.section, ev'.status, ev'.reason);
      FieldsInjective(ev.section, ev.status, ev.reason, ev'.section, ev'.status, ev'.reason);
    }
  }

  /** A text is read as the event it is the sample of, if there is one. */
  ghost function ParseSample(t: string): Parsed {
    if exists ev: Event :: !ev.OtherValue? && Sample(ev) == t then
      var ev: Event :| !ev.OtherValue? && Sample(ev) == t; Value(ev)
    else BadJson
  }

  lemma {:induction false} TrimAddsNothing(s: string, c: char)
    requires c !in s
    ensures c !in Trim(s)
  {
    if s != "" {
      TrimAddsNothing(s[1..], c);
      TrimAddsNothing(s[..|s| - 1], c);
    }
  }

  lemma Unclosed(line: string)
    requires '}' !in line
    ensures Broken(ParseSample, line)
  {
    TrimAddsNothing(line, '}');
    forall ev: Event ensures Sample(ev) != Trim(line) {
      assert Sample(ev)[|Sample(ev)| - 1] == '}';
    }
  }

  lemma SampleOpen(ev: Event, n: nat)
    requires n < |Sample(ev)|
    ensures '}' !in Sample(ev)[..n]
  {
    var t := Sample(ev);
    assert t[..|t| - 1] == "{" + Inner(ev);
    assert Plain("{" + Inner(ev));
    assert t[..n] == ("{" + Inner(ev))[..n];
  }

  lemma BracedIsLine(inner: string)
    requires Plain(inner)
    ensures var t := "{" + inner + "}"; Free(t, '\n') && t != "" && Trim(t) == t
  {
    var t := "{" + inner + "}";
    assert t[0] == '{' && t[|t| - 1] == '}';
    forall i | 0 <= i < |t| ensures t[i] != '\n' {
      if 0 < i < |t| - 1 { assert t[i] == inner[i - 1]; }
    }
  }

  lemma SampleReads(ev: Event)
    requires !ev.OtherValue?
    ensures ParseSample(Sample(ev)) == Value(ev)
  {
    forall other: Event | !other.OtherValue? && Sample(other) == Sample(ev) ensures other == ev {
      SampleInjective(other, ev);
    }
  }

  lemma SampleEncodes(ev: Event)
    requires !ev.OtherValue?
    ensures Encodes(Sample, ParseSample, ev)
  {
    BracedIsLine(Inner(ev));
    SampleReads(ev);
    forall n | 0 <= n < |Sample(ev)|
      ensures Broken(ParseSample, Sample(ev)[..n]) && Broken(ParseSample, Sample(ev)[..n] + [REPLACEMENT])
    {
      SampleOpen(ev, n);
      Unclosed(Sample(ev)[..n]);
      Unclosed(Sample(ev)[..n] + [REPLACEMENT]);
    }
  }

  /** The hypothesis of the stream theorems holds of some encoder and parser. */
  lemma CodecExists()
    ensures exists encode: Event -> string, parse: string -> Parsed :: Codec(encode, parse)
  {
    forall ev: Event | !ev.OtherValue? ensures Encodes(Sample, ParseSample, ev) { SampleEncodes(ev); }
    assert Codec(Sample, ParseSample);
  }
}

/** Terse nmcli lines: fields separated by unescaped colons. */
module Nmcli {
  import opened Text

  /** The rest of the scan: taken fields are done, cur is being built. */
  function Scan(line: string, max: int, taken: nat, cur: string, escaped: bool): (fields: seq<string>)
    ensures 1 <= |fields| && (taken + |fields| <= max || |fields| == 1)
    decreases |line|
  {
    if line == "" then [cur]
    else if escaped then Scan(line[1..], max, taken, cur + [line[0]], false)
    else if line[0] == '\\' then Scan(line[1..], max, taken, cur, true)
    else if line[0] == ':' && taken < max - 1 then [cur] + Scan(line[1..], max, taken + 1, "", false)
    else Scan(line[1..], max, taken, cur + [line[0]], false)
  }

  function SplitLine(line: string, max: int): (fields: seq<string>)
    ensures 1 <= |fields| && (max >= 1 ==> |fields| <= max)
  {
    Scan(line, max, 0, "", false)
  }

  method SplitNmcliFields(line: string, maxFields: nat) returns (out: seq<string>)
    ensures out == SplitLine(line, maxFields)
  {
    out := [];
    var cur, escaped := "", false;
    for i := 0 to |line|
      invariant SplitLine(line, maxFields) == out + Scan(line[i..], maxFields, |out|, cur, escaped)
    {
      var c := line[i];
      assert line[i..][0] == c && line[i..][1..] == line[i + 1..];
      if escaped {
        cur, escaped := cur + [c], false;
        continue;
      }
      if c == '\\' {
        escaped := true;
        continue;
      }
      if c == ':' && |out| < maxFields - 1 {
        assert out + ([cur] + Scan(line[i + 1..], maxFields, |out| + 1, "", false))
            == (out + [cur]) + Scan(line[i + 1..], maxFields, |out| + 1, "", false);
        out, cur := out + [cur], "";
        continue;
      }
      cur := cur + [c];
    }
    out := out + [cur];
  }

  // ----- what nmcli prints -----

  predicate Special(c: char) { c == ':' || c == '\\' }

  function Escape(field: string): string {
    if field == "" then ""
    else (if Special(field[0]) then ['\\', field[0]] else [field[0]]) + Escape(field[1..])
  }

  function Terse(fields: seq<string>): string
    requires fields != []
  {
    if |fields| == 1 then Escape(fields[0]) else Escape(fields[0]) + ":" + Terse(fields[1..])
  }

  lemma {:induction false} ScanEscaped(field: string, rest: string, max: int, taken: nat, cur: string)
    ensures Scan(Escape(field) + rest, max, taken, cur, false) == Scan(rest, max, taken, cur + field, false)
  {
    var line := Escape(field) + rest;
    if field == "" {
      assert line == rest && cur + field == cur;
    } else {
      var tail := Escape(field[1..]) + rest;
      if Special(field[0]) {
        assert line[0] == '\\' && line[1..] == [field[0]] + tail && line[1..][1..] == tail;
        assert Scan(line, max, taken, cur, false) == Scan(line[1..], max, taken, cur, true);
      } else {
        assert line[0] == field[0] && line[1..] == tail;
      }
      assert Scan(line, max, taken, cur, false) == Scan(tail, max, taken, cur + [field[0]], false);
      ScanEscaped(field[1..], rest, max, taken, cur + [field[0]]);
      assert cur + [field[0]] + field[1..] == cur + field;
    }
  }

  /** Reading back what was printed: each field as it was, and when there are more
      than max of them, the surplus joined again inside the last one. */
  function Merged(fields: seq<string>, max: nat): seq<string>
    requires fields != [] && max >= 1
  {
    if |fields| <= max then fields else fields[..max - 1] + [Join(fields[max - 1..], ':')]
  }

  lemma {:induction false} ScanSurplus(fields: seq<string>, max: nat, taken: nat, cur: string)
    requires fields != [] && taken + 1 >= max
    ensures Scan(Terse(fields), max, taken, cur, false) == [cur + Join(fields, ':')]
  {
    if |fields| == 1 {
      ScanEscaped(fields[0], "", max, taken, cur);
      assert Escape(fields[0]) + "" == Escape(fields[0]);
    } else {
      var tail := Terse(fields[1..]);
      ScanEscaped(fields[0], ":" + tail, max, taken, cur);
      assert Escape(fields[0]) + ":" + tail == Escape(fields[0]) + (":" + tail);
      assert (":" + tail)[1..] == tail;
      ScanSurplus(fields[1..], max, taken, cur + fields[0] + ":");
      assert cur + fields[0] + ":" + Join(fields[1..], ':') == cur + Join(fields, ':');
    }
  }

  lemma {:induction false} ScanTerse(fields: seq<string>, max: nat, taken: nat)
    requires fields != [] && taken < max
    ensures Scan(Terse(fields), max, taken, "", false) == Merged(fields, max - taken)
  {
    if taken == max - 1 {
      ScanSurplus(fields, max, taken, "");
      assert "" + Join(fields, ':') == Join(fields, ':');
      assert fields[..0] + [Join(fields[0..], ':')] == [Join(fields, ':')] by { assert fields[0..] == fields; }
    } else if |fields| == 1 {
      ScanEscaped(fields[0], "", max, taken, "");
      assert Escape(fields[0]) + "" == Escape(fields[0]);
      assert "" + fields[0] == fields[0];
    } else {
      var tail := Terse(fields[1..]);
      ScanEscaped(fields[0], ":" + tail, max, taken, "");
      assert Escape(fields[0]) + ":" + tail == Escape(fields[0]) + (":" + tail);
      assert (":" + tail)[1..] == tail && "" + fields[0] == fields[0];
      ScanTerse(fields[1..], max, taken + 1);
      var m := max - taken;
      if |fields| > m {
        assert fields[1..][..m - 2] == fields[1..m - 1] && fields[1..][m - 2..] == fields[m - 1..];
        assert [fields[0]] + fields[1..m - 1] == fields[..m - 1];
      } else {
        assert [fields[0]] + fields[1..] == fields;
      }
    }
  }

  /** The round trip, for any number of fields of any text and any limit. */
  lemma RoundTrip(fields: seq<string>, max: nat)
    requires fields != [] && max >= 1
    ensures SplitLine(Terse(fields), max) == Merged(fields, max)
  {
    ScanTerse(fields, max, 0);
  }
  /** Escaping goes character by character: a backslash before a colon or a backslash,
      and nothing before any other. */
  lemma {:induction false} EscapeExactly(a: string, c: char)
    ensures Escape(a + [c]) == Escape(a) + if c == ':' then "\\:" else if c == '\\' then "\\\\" else [c]
    ensures Escape("") == ""
  {
    if a == "" {
      assert a + [c] == [c] && [c][1..] == "";
    } else {
      assert (a + [c])[1..] == a[1..] + [c];
      EscapeExactly(a[1..], c);
    }
  }

  /** A last backslash with nothing to escape is dropped. */
  lemma DanglingEscape(fields: seq<string>, max: nat)
    requires fields != [] && max >= 1
    ensures SplitLine(Terse(fields) + "\\", max) == Merged(fields, max)
  {
    ScanDangling(fields, max, 0, "");
    ScanTerse(fields, max, 0);
  }

  lemma {:induction false} ScanDangling(fields: seq<string>, max: nat, taken: nat, cur: string)
    requires fields != []
    ensures Scan(Terse(fields) + "\\", max, taken, cur, false) == Scan(Terse(fields), max, taken, cur, false)
  {
    if |fields| == 1 {
      ScanEscaped(fields[0], "\\", max, taken, cur);
      ScanEscaped(fields[0], "", max, taken, cur);
      assert Escape(fields[0]) + "" == Escape(fields[0]);
    } else {
      var tail := Terse(fields[1..]);
      ScanEscaped(fields[0], ":" + tail, max, taken, cur);
      ScanEscaped(fields[0], ":" + (tail + "\\"), max, taken, cur);
      assert Terse(fields) == Escape(fields[0]) + (":" + tail);
      assert Terse(fields) + "\\" == Escape(fields[0]) + (":" + (tail + "\\"));
      assert (":" + tail)[1..] == tail && (":" + (tail + "\\"))[1..] == tail + "\\";
      ScanDangling(fields[1..], max, taken + 1, "");
      ScanDangling(fields[1..], max, taken, cur + fields[0] + ":");
    }
  }
}

/** The argon2id PHC string: printing, strict parsing, and the caps put on a
    hash that comes from outside. */
module Phc {
  import opened Text
  import opened Base64

  const MAX_UINT32: nat := 0xFFFF_FFFF
  const MAX_UINT8: nat := 0xFF
  type uint32 = x: int | 0 <= x <= MAX_UINT32
  type uint8 = x: int | 0 <= x <= MAX_UINT8

  datatype Params = Params(timeCost: uint32, memoryKB: uint32, threads: uint8, keyLen: uint32, saltLen: uint32)

  datatype Error =
    | FieldCount | LeadingDollar | Algorithm | Version
    | PairCount | MalformedPair | DuplicateM | DuplicateT | DuplicateP | BadM | BadT | BadP
    | UnknownParam | MissingParams
    | SaltEncoding | HashEncoding | SaltShort | HashShort
    | LowTime | LowMemory | LowThreads | LowKeyLen | LowSaltLen
    | HighMemory | HighTime | HighThreads | HighKeyLen | HighSaltLen

  datatype Result<+T> = Ok(value: T) | Err(error: Error)

  datatype Stored = Stored(params: Params, salt: seq<byte>, hash: seq<byte>)

  datatype Costs = Costs(memKB: uint32, timeCost: uint32, threads: uint8)

  // ----- parameter checks -----

  /** The first lower bound that p misses, if any. */
  function Validate(p: Params): Option<Error> {
    if p.timeCost < 1 then Some(LowTime)
    else if p.memoryKB < 8 then Some(LowMemory)
    else if p.threads < 1 then Some(LowThreads)
    else if p.keyLen < 16 then Some(LowKeyLen)
    else if p.saltLen < 8 then Some(LowSaltLen)
    else None
  }

  const MAX_STORED := Params(10, 256 * 1024, 8, 128, 64)

  // ----- the m=,t=,p= field -----

  /** strings.Cut: the text before and after the first c. */
  function Cut(s: string, c: char): Option<(string, string)> {
    if s == "" then None
    else if s[0] == c then Some(("", s[1..]))
    else match Cut(s[1..], c)
      case None => None
      case Some((k, v)) => Some(([s[0]] + k, v))
  }

  /** strconv.ParseUint in base ten: digits only, at least one, no overflow. */
  function ParseUint(s: string, max: nat): (r: Option<nat>)
    ensures r.Some? ==> r.value <= max
  {
    if s == "" || !AllDigits(s) || Value(s) > max then None else Some(Value(s))
  }

  datatype Seen = Seen(m: Option<uint32>, t: Option<uint32>, p: Option<uint8>)

  function TakePair(seen: Seen, kv: string): Result<Seen> {
    match Cut(kv, '=')
    case None => Err(MalformedPair)
    case Some((k, v)) =>
      if k == "m" then
        if seen.m.Some? then Err(DuplicateM)
        else match ParseUint(v, MAX_UINT32)
          case None => Err(BadM)
          case Some(n) => Ok(seen.(m := Some(n)))
      else if k == "t" then
        if seen.t.Some? then Err(DuplicateT)
        else match ParseUint(v, MAX_UINT32)
          case None => Err(BadT)
          case Some(n) => Ok(seen.(t := Some(n)))
      else if k == "p" then
        if seen.p.Some? then Err(DuplicateP)
        else match ParseUint(v, MAX_UINT8)
          case None => Err(BadP)
          case Some(n) => Ok(seen.(p := Some(n)))
      else Err(UnknownParam)
  }

  function TakePairs(seen: Seen, pairs: seq<string>): Result<Seen>
    decreases |pairs|
  {
    if pairs == [] then Ok(seen)
    else match TakePair(seen, pairs[0])
      case Err(e) => Err(e)
      case Ok(next) => TakePairs(next, pairs[1..])
  }

  const UNSEEN := Seen(None, None, None)

  function ParseParams(s: string): Result<Costs> {
    var pairs := Split(s, ',');
    if |pairs| != 3 then Err(PairCount)
    else match TakePairs(UNSEEN, pairs)
      case Err(e) => Err(e)
      case Ok(Seen(Some(m), Some(t), Some(p))) => Ok(Costs(m, t, p))
      case _ => Err(MissingParams)
  }

  /** The loop of the source, proved against ParseParams. */
  method ParsePhcParams(s: string) returns (r: Result<Costs>)
    ensures r == ParseParams(s)
  {
    var pairs := Split(s, ',');
    if |pairs| != 3 { return Err(PairCount); }
    var memKB: uint32, timeCost: uint32, threads: uint8 := 0, 0, 0;
    var seenM, seenT, seenP := false, false, false;
    for i := 0 to |pairs|
      invariant TakePairs(UNSEEN, pairs)
             == TakePairs(Seen(if seenM then Some(memKB) else None, if seenT then Some(timeCost) else None,
                               if seenP then Some(threads) else None), pairs[i..])
    {
      assert pairs[i..][1..] == pairs[i + 1..];
      var cut := Cut(pairs[i], '=');
      if cut.None? { return Err(MalformedPair); }
      var (k, v) := cut.value;
      if k == "m" {
        if seenM { return Err(DuplicateM); }
        var n := ParseUint(v, MAX_UINT32);
        if n.None? { return Err(BadM); }
        seenM, memKB := true, n.value;
      } else if k == "t" {
        if seenT { return Err(DuplicateT); }
        var n := ParseUint(v, MAX_UINT32);
        if n.None? { return Err(BadT); }
        seenT, timeCost := true, n.value;
      } else if k == "p" {
        if seenP { return Err(DuplicateP); }
        var n := ParseUint(v, MAX_UINT8);
        if n.None? { return Err(BadP); }
        seenP, threads := true, n.value;
      } else {
        return Err(UnknownParam);
      }
    }
    if !seenM || !seenT || !seenP { return Err(MissingParams); }
    return Ok(Costs(memKB, timeCost, threads));
  }

  // ----- the whole string -----

  const ALGORITHM := "argon2id"
  const VERSION := "v=19"

  function ParamsField(p: Params): string {
    "m=" + Decimal(p.memoryKB) + ",t=" + Decimal(p.timeCost) + ",p=" + Decimal(p.threads)
  }

  function Format(p: Params, salt: seq<byte>, hash: seq<byte>): string {
    "$" + (ALGORITHM + "$" + ("v=" + Decimal(19) + "$"
      + (ParamsField(p) + "$" + (Encode(salt) + "$" + Encode(hash)))))
  }

  function Truncated(n: nat): uint32 { n % (MAX_UINT32 + 1) }

  function Assemble(costs: Costs, saltText: string, hashText: string): Result<Stored> {
    match (Decode(saltText), Decode(hashText))
    case (None, _) => Err(SaltEncoding)
    case (_, None) => Err(HashEncoding)
    case (Some(salt), Some(hash)) =>
      if |salt| < 8 then Err(SaltShort)
      else if |hash| < 16 then Err(HashShort)
      else
        var p := Params(costs.timeCost, costs.memKB, costs.threads, Truncated(|hash|), Truncated(|salt|));
        match Validate(p)
        case Some(e) => Err(e)
        case None => Ok(Stored(p, salt, hash))
  }

  function ParseFields(parts: seq<string>): Result<Stored>
    requires |parts| == 6
  {
    if parts[0] != "" then Err(LeadingDollar)
    else if parts[1] != ALGORITHM then Err(Algorithm)
    else if parts[2] != VERSION then Err(Version)
    else match ParseParams(parts[3])
      case Err(e) => Err(e)
      case Ok(costs) => Assemble(costs, parts[4], parts[5])
  }

  function Parse(s: string): Result<Stored> {
    var parts := Split(s, '$');
    if |parts| != 6 then Err(FieldCount) else ParseFields(parts)
  }

  function ValidateStored(s: string): Option<Error> {
    match Parse(s)
    case Err(e) => Some(e)
    case Ok(Stored(p, _, _)) =>
      if p.memoryKB > MAX_STORED.memoryKB then Some(HighMemory)
      else if p.timeCost > MAX_STORED.timeCost then Some(HighTime)
      else if p.threads > MAX_STORED.threads then Some(HighThreads)
      else if p.keyLen > MAX_STORED.keyLen then Some(HighKeyLen)
      else if p.saltLen > MAX_STORED.saltLen then Some(HighSaltLen)
      else None
  }

  // ----- what the parameter parser accepts -----

  /** kv is name, an equals sign, and a decimal for n that fits under max. */
  predicate Gives(kv: string, name: char, max: nat, n: nat) {
    && |kv| > 2 && kv[0] == name && kv[1] == '='
    && (forall i | 0 <= i < |kv[2..]| :: '0' <= kv[2..][i] <= '9')
    && Value(kv[2..]) == n <= max
  }

  lemma GivesIsParsed(kv: string, name: char, max: nat, n: nat)
    ensures Gives(kv, name, max, n)
       <==> |kv| >= 2 && kv[0] == name && kv[1] == '=' && ParseUint(kv[2..], max) == Some(n)
  {}

  lemma CutShort(kv: string, name: char)
    requires name != '='
    ensures (|kv| >= 2 && kv[0] == name && kv[1] == '=')
            <==> (Cut(kv, '=').Some? && Cut(kv, '=').value.0 == [name])
    ensures |kv| >= 2 && kv[0] == name && kv[1] == '=' ==> Cut(kv, '=').value.1 == kv[2..]
  {
    if kv != "" && kv[0] != '=' && Cut(kv[1..], '=').Some? {
      var (k, v) := Cut(kv[1..], '=').value;
      assert Cut(kv, '=').value.0 == [kv[0]] + k;
      assert [kv[0]] + k == [name] <==> kv[0] == name && k == "";
      assert k == "" <==> kv[1] == '=';
      assert kv[1..][1..] == kv[2..];
    }
  }

  /** One accepted pair fills exactly one place that was empty. */
  lemma PairStep(seen: Seen, kv: string)
    requires TakePair(seen, kv).Ok?
    ensures var next := TakePair(seen, kv).value;
            || (seen.m.None? && next.m.Some? && Gives(kv, 'm', MAX_UINT32, next.m.value) && next == seen.(m := next.m))
            || (seen.t.None? && next.t.Some? && Gives(kv, 't', MAX_UINT32, next.t.value) && next == seen.(t := next.t))
            || (seen.p.None? && next.p.Some? && Gives(kv, 'p', MAX_UINT8, next.p.value) && next == seen.(p := next.p))
  {
    CutShort(kv, 'm');
    CutShort(kv, 't');
    CutShort(kv, 'p');
    var next := TakePair(seen, kv).value;
    if next.m.Some? { GivesIsParsed(kv, 'm', MAX_UINT32, next.m.value); }
    if next.t.Some? { GivesIsParsed(kv, 't', MAX_UINT32, next.t.value); }
    if next.p.Some? { GivesIsParsed(kv, 'p', MAX_UINT8, next.p.value); }
  }

  /** seen with the place called name filled from c. */
  function With(seen: Seen, c: Costs, name: char): Seen {
    if name == 'm' then seen.(m := Some(c.memKB))
    else if name == 't' then seen.(t := Some(c.timeCost)) else seen.(p := Some(c.threads))
  }

  predicate Lacks(seen: Seen, name: char) {
    if name == 'm' then seen.m.None? else if name == 't' then seen.t.None? else seen.p.None?
  }

  predicate GivesNamed(kv: string, name: char, c: Costs) {
    if name == 'm' then Gives(kv, 'm', MAX_UINT32, c.memKB)
    else if name == 't' then Gives(kv, 't', MAX_UINT32, c.timeCost)
    else Gives(kv, 'p', MAX_UINT8, c.threads)
  }

  lemma PairTaken(seen: Seen, kv: string, name: char, c: Costs)
    requires name in "mtp" && GivesNamed(kv, name, c) && Lacks(seen, name)
    ensures TakePair(seen, kv) == Ok(With(seen, c, name))
  {
    CutShort(kv, name);
    GivesIsParsed(kv, name, if name == 'p' then MAX_UINT8 else MAX_UINT32,
                  if name == 'm' then c.memKB else if name == 't' then c.timeCost else c.threads);
  }

  /** i, j and k are the places of m, t and p in some order. */
  predicate Placed(pairs: seq<string>, c: Costs, i: nat, j: nat, k: nat)
    requires |pairs| == 3
  {
    && i < 3 && j < 3 && k < 3 && i != j && j != k && i != k
    && Gives(pairs[i], 'm', 0xFFFF_FFFF, c.memKB)
    && Gives(pairs[j], 't', 0xFFFF_FFFF, c.timeCost)
    && Gives(pairs[k], 'p', 0xFF, c.threads)
  }

  lemma TakeThree(pairs: seq<string>)
    requires |pairs| == 3
    ensures TakePairs(UNSEEN, pairs) == Then(Then(TakePair(UNSEEN, pairs[0]), pairs[1]), pairs[2])
  {
    assert pairs[1..][1..] == pairs[2..] && pairs[2..][1..] == [];
    if TakePair(UNSEEN, pairs[0]).Ok? {
      var a := TakePair(UNSEEN, pairs[0]).value;
      assert TakePairs(UNSEEN, pairs) == TakePairs(a, pairs[1..]);
      if TakePair(a, pairs[1]).Ok? {
        var b := TakePair(a, pairs[1]).value;
        assert TakePairs(a, pairs[1..]) == TakePairs(b, pairs[2..]);
        assert TakePair(b, pairs[2]).Ok? ==> TakePairs(TakePair(b, pairs[2]).value, []) == TakePair(b, pairs[2]);
      }
    }
  }

  function Then(r: Result<Seen>, kv: string): Result<Seen> {
    match r case Err(e) => Err(e) case Ok(seen) => TakePair(seen, kv)
  }

  lemma StepThree(pairs: seq<string>) returns (c: Costs, i: nat, j: nat, k: nat)
    requires |pairs| == 3 && TakePairs(UNSEEN, pairs).Ok?
    ensures Placed(pairs, c, i, j, k)
    ensures TakePairs(UNSEEN, pairs) == Ok(Seen(Some(c.memKB), Some(c.timeCost), Some(c.threads)))
  {
    TakeThree(pairs);
    var a := TakePair(UNSEEN, pairs[0]).value;
    var b := TakePair(a, pairs[1]).value;
    var s := TakePair(b, pairs[2]).value;
    PairStep(UNSEEN, pairs[0]);
    PairStep(a, pairs[1]);
    PairStep(b, pairs[2]);
    c := Costs(s.m.value, s.t.value, s.p.value);
    i := if a.m.Some? then 0 else if b.m.Some? then 1 else 2;
    j := if a.t.Some? then 0 else if b.t.Some? then 1 else 2;
    k := if a.p.Some? then 0 else if b.p.Some? then 1 else 2;
  }

  lemma PlacedIsTaken(pairs: seq<string>, c: Costs, i: nat, j: nat, k: nat)
    requires |pairs| == 3 && Placed(pairs, c, i, j, k)
    ensures TakePairs(UNSEEN, pairs) == Ok(Seen(Some(c.memKB), Some(c.timeCost), Some(c.threads)))
  {
    TakeThree(pairs);
    var x := if i == 0 then 'm' else if j == 0 then 't' else 'p';
    var y := if i == 1 then 'm' else if j == 1 then 't' else 'p';
    var z := if i == 2 then 'm' else if j == 2 then 't' else 'p';
    PairTaken(UNSEEN, pairs[0], x, c);
    var a := With(UNSEEN, c, x);
    PairTaken(a, pairs[1], y, c);
    PairTaken(With(a, c, y), pairs[2], z, c);
  }

  /** The parser accepts a field exactly when it is m=, t= and p= in some order,
      once each, with a decimal in range; and the values are the costs. */
  lemma ParamsAccepted(s: string, c: Costs)
    ensures ParseParams(s) == Ok(c)
       <==> |Split(s, ',')| == 3 && exists i, j, k :: Placed(Split(s, ','), c, i, j, k)
  {
    var pairs := Split(s, ',');
    if |pairs| == 3 {
      if TakePairs(UNSEEN, pairs).Ok? {
        var c', i', j', k' := StepThree(pairs);
      }
      if i, j, k :| Placed(pairs, c, i, j, k) {
        PlacedIsTaken(pairs, c, i, j, k);
      }
    }
  }

  /** The check for missing parameters after the loop can never fire. */
  lemma MissingIsUnreachable(s: string)
    ensures ParseParams(s) != Err(MissingParams)
  {
    var pairs := Split(s, ',');
    if |pairs| == 3 {
      TakeThree(pairs);
      if TakePairs(UNSEEN, pairs).Ok? { var c, i, j, k := StepThree(pairs); }
    }
  }

  // ----- round trips -----

  lemma ParamsPairs(p: Params)
    ensures Split(ParamsField(p), ',') == ["m=" + Decimal(p.memoryKB), "t=" + Decimal(p.timeCost), "p=" + Decimal(p.threads)]
  {
    var m, t, q := "m=" + Decimal(p.memoryKB), "t=" + Decimal(p.timeCost), "p=" + Decimal(p.threads);
    var pairs := [m, t, q];
    assert Join(pairs[1..][1..], ',') == q;
    assert Join(pairs[1..], ',') == t + [','] + q;
    assert Join(pairs, ',') == m + [','] + (t + [','] + q);
    assert ParamsField(p) == Join(pairs, ',');
    SplitJoin(pairs, ',');
  }

  lemma ParamsRoundTrip(p: Params)
    ensures ParseParams(ParamsField(p)) == Ok(Costs(p.memoryKB, p.timeCost, p.threads))
  {
    ParamsPairs(p);
    var pairs := Split(ParamsField(p), ',');
    assert pairs[0][2..] == Decimal(p.memoryKB) && pairs[1][2..] == Decimal(p.timeCost) && pairs[2][2..] == Decimal(p.threads);
    assert Placed(pairs, Costs(p.memoryKB, p.timeCost, p.threads), 0, 1, 2);
    ParamsAccepted(ParamsField(p), Costs(p.memoryKB, p.timeCost, p.threads));
  }

  lemma ParamsFieldFree(p: Params)
    ensures Free(ParamsField(p), '$')
  {}

  lemma VersionField()
    ensures "v=" + Decimal(19) == VERSION
  {}

  function FieldsOf(p: Params, salt: seq<byte>, hash: seq<byte>): seq<string> {
    ["", ALGORITHM, VERSION, ParamsField(p), Encode(salt), Encode(hash)]
  }

  lemma FormatFields(p: Params, salt: seq<byte>, hash: seq<byte>)
    ensures Split(Format(p, salt, hash), '$') == FieldsOf(p, salt, hash)
  {
    var parts := FieldsOf(p, salt, hash);
    VersionField();
    JoinSix(parts, '$');
    assert Format(p, salt, hash) == "" + "$" + (parts[1] + "$" + (parts[2] + "$" + (parts[3] + "$" + (parts[4] + "$" + parts[5]))));
    forall i | 0 <= i < 6 ensures Free(parts[i], '$') {
      EncodedIsFree(salt, '$');
      EncodedIsFree(hash, '$');
      ParamsFieldFree(p);
    }
    SplitJoin(parts, '$');
  }

  lemma JoinSix(f: seq<string>, c: char)
    requires |f| == 6
    ensures Join(f, c) == f[0] + [c] + (f[1] + [c] + (f[2] + [c] + (f[3] + [c] + (f[4] + [c] + f[5]))))
  {
    assert f[1..][1..] == f[2..] && f[2..][1..] == f[3..] && f[3..][1..] == f[4..] && f[4..][1..] == f[5..];
    assert Join(f[5..], c) == f[5];
    assert Join(f[4..], c) == f[4] + [c] + f[5];
    assert Join(f[3..], c) == f[3] + [c] + Join(f[4..], c);
    assert Join(f[2..], c) == f[2] + [c] + Join(f[3..], c);
    assert Join(f[1..], c) == f[1] + [c] + Join(f[2..], c);
  }

  /** What the parser accepts, and as what: six fields, framed as argon2id in version 19;
      m, t and p once each, in any order, at least 8, 1 and 1; a salt and a hash in
      base64, of at least 8 and 16 bytes; and lengths that, reduced to 32 bits, still
      are at least that. */
  ghost predicate Accepts(s: string, v: Stored) {
    var f := Split(s, '$');
    && |f| == 6 && f[0] == "" && f[1] == "argon2id" && f[2] == "v=19"
    && |Split(f[3], ',')| == 3
    && (exists i, j, k :: Placed(Split(f[3], ','), Costs(v.params.memoryKB, v.params.timeCost, v.params.threads), i, j, k))
    && v.params.memoryKB >= 8 && v.params.timeCost >= 1 && v.params.threads >= 1
    && Decode(f[4]) == Some(v.salt) && |v.salt| >= 8 && v.params.saltLen == |v.salt| % 0x1_0000_0000 >= 8
    && Decode(f[5]) == Some(v.hash) && |v.hash| >= 16 && v.params.keyLen == |v.hash| % 0x1_0000_0000 >= 16
  }

  lemma AcceptedExactly(s: string, v: Stored)
    ensures Parse(s) == Ok(v) <==> Accepts(s, v)
  {
    var f := Split(s, '$');
    if |f| == 6 {
      ParamsAccepted(f[3], Costs(v.params.memoryKB, v.params.timeCost, v.params.threads));
      AssembledExactly(Costs(v.params.memoryKB, v.params.timeCost, v.params.threads), f[4], f[5], v);
      if Parse(s).Ok? && ParseParams(f[3]).Ok? { AssembledCosts(ParseParams(f[3]).value, f[4], f[5]); }
    }
  }

  lemma AssembledExactly(c: Costs, saltText: string, hashText: string, v: Stored)
    requires c == Costs(v.params.memoryKB, v.params.timeCost, v.params.threads)
    ensures Assemble(c, saltText, hashText) == Ok(v)
       <==> c.memKB >= 8 && c.timeCost >= 1 && c.threads >= 1
            && Decode(saltText) == Some(v.salt) && |v.salt| >= 8 && v.params.saltLen == |v.salt| % 0x1_0000_0000 >= 8
            && Decode(hashText) == Some(v.hash) && |v.hash| >= 16 && v.params.keyLen == |v.hash| % 0x1_0000_0000 >= 16
  {}

  lemma AssembledCosts(c: Costs, saltText: string, hashText: string)
    requires Assemble(c, saltText, hashText).Ok?
    ensures var p := Assemble(c, saltText, hashText).value.params; c == Costs(p.memoryKB, p.timeCost, p.threads)
  {}

  /** The fields of a printed hash. */
  lemma PrintedFields(p: Params, salt: seq<byte>, hash: seq<byte>)
    ensures var f := Split(Format(p, salt, hash), '$');
            && |f| == 6 && f[0] == "" && f[1] == "argon2id" && f[2] == "v=19"
            && Split(f[3], ',') == ["m=" + Decimal(p.memoryKB), "t=" + Decimal(p.timeCost), "p=" + Decimal(p.threads)]
            && Decode(f[4]) == Some(salt) && Decode(f[5]) == Some(hash)
  {
    FormatFields(p, salt, hash);
    ParamsPairs(p);
    Base64.RoundTrip(salt);
    Base64.RoundTrip(hash);
  }

  /** Parsing undoes printing for costs of at least the minimum.  The lengths come back
      reduced to 32 bits, so the string is refused exactly when a reduced length is too
      small. */
  lemma RoundTrip(p: Params, salt: seq<byte>, hash: seq<byte>)
    requires p.memoryKB >= 8 && p.timeCost >= 1 && p.threads >= 1 && |salt| >= 8 && |hash| >= 16
    ensures var q := p.(keyLen := |hash| % 0x1_0000_0000, saltLen := |salt| % 0x1_0000_0000);
            Parse(Format(p, salt, hash))
            == if q.keyLen < 16 then Err(LowKeyLen) else if q.saltLen < 8 then Err(LowSaltLen)
               else Ok(Stored(q, salt, hash))
  {
    FormatFields(p, salt, hash);
    ParamsRoundTrip(p);
    Base64.RoundTrip(salt);
    Base64.RoundTrip(hash);
  }

  /** The recorded lengths are the true ones exactly below 2^32 bytes. */
  lemma LengthsExact(p: Params, salt: seq<byte>, hash: seq<byte>)
    requires p.memoryKB >= 8 && p.timeCost >= 1 && p.threads >= 1 && |salt| >= 8 && |hash| >= 16
    ensures var r := Parse(Format(p, salt, hash));
            (r.Ok? && r.value.params.keyLen == |hash| && r.value.params.saltLen == |salt|)
            <==> |hash| < 0x1_0000_0000 && |salt| < 0x1_0000_0000
  {
    RoundTrip(p, salt, hash);
    TruncatedExact(|hash|);
    TruncatedExact(|salt|);
  }

  lemma TruncatedExact(n: nat)
    ensures Truncated(n) == n <==> n < 0x1_0000_0000
  {}

  /** Printing a parsed string again changes nothing that is parsed from it. */
  lemma Normalised(s: string)
    requires Parse(s).Ok?
    ensures var v := Parse(s).value;
            Parse(Format(v.params, v.salt, v.hash)) == Parse(s)
  {
    var v := Parse(s).value;
    AcceptedExactly(s, v);
    RoundTrip(v.params, v.salt, v.hash);
  }

  /** Two accepted strings print the same exactly when they parse the same. */
  lemma NormalFormIsUnique(s: string, r: string)
    requires Parse(s).Ok? && Parse(r).Ok?
    ensures var v, w := Parse(s).value, Parse(r).value;
            Format(v.params, v.salt, v.hash) == Format(w.params, w.salt, w.hash) <==> v == w
  {
    Normalised(s);
    Normalised(r);
  }

  /** A hash printed from its own parameters passes the import caps exactly when
      each parameter is within its cap. */
  lemma StoredCaps(p: Params, salt: seq<byte>, hash: seq<byte>)
    requires p.memoryKB >= 8 && p.timeCost >= 1 && p.threads >= 1
    requires |salt| == p.saltLen >= 8 && |hash| == p.keyLen >= 16
    ensures ValidateStored(Format(p, salt, hash)).None? <==> WithinCaps(p)
  {
    RoundTrip(p, salt, hash);
    TruncatedExact(|hash|);
    TruncatedExact(|salt|);
    CapsOfParsed(Format(p, salt, hash), Stored(p, salt, hash));
  }

  predicate WithinCaps(p: Params) {
    p.memoryKB <= 262144 && p.timeCost <= 10 && p.threads <= 8 && p.keyLen <= 128 && p.saltLen <= 64
  }

  lemma CapsOfParsed(s: string, v: Stored)
    requires Parse(s) == Ok(v)
    ensures ValidateStored(s).None? <==> WithinCaps(v.params)
  {}

  /** One more trailing line feed is invisible to the parser. */
  lemma FinalLineFeed(s: string)
    ensures Parse(s + "\n") == Parse(s)
  {
    var parts := Split(s, '$');
    var last := |parts| - 1;
    var longer := parts[..last] + [parts[last] + "\n"];
    JoinSplit(s, '$');
    JoinAppend(parts, "\n", '$');
    SplitJoin(longer, '$');
    assert Split(s + "\n", '$') == longer;
    if |parts| == 6 { UnbrokenFinalBreak(parts[5], '\n'); }
  }
}

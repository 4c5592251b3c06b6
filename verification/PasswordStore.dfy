/** The on-disk hash file and the start-up check that classifies it. */
module PasswordStore {
  import opened Text
  import Phc

  /** What a write may run into: the temporary file, the link or rename, or the
      final sync of the directory.  The last one fails after the file has moved. */
  datatype WriteFault = NoFault | TempFault | MoveFault | SyncFault

  datatype WriteResult = Written | AlreadyExists | WriteFailed
  datatype ReadResult = Found(phc: string) | NotExist | ReadFailed
  datatype ServerState = Uninitialized | Initialized | Corrupt

  function ReadOf(file: Option<string>, readFails: bool): ReadResult {
    if readFails then ReadFailed
    else match file
      case None => NotExist
      case Some(content) =>
        var phc := TrimRight(content, '\n');
        if phc == "" then NotExist else Found(phc)
  }

  function Setup(file: Option<string>, phc: string, fault: WriteFault): (Option<string>, WriteResult) {
    if fault == TempFault then (file, WriteFailed)
    else if fault == MoveFault then (file, WriteFailed)
    else if file.Some? then (file, AlreadyExists)
    else (Some(phc + "\n"), if fault == SyncFault then WriteFailed else Written)
  }

  function Replace(file: Option<string>, phc: string, fault: WriteFault): (Option<string>, WriteResult) {
    if fault == TempFault || fault == MoveFault then (file, WriteFailed)
    else (Some(phc + "\n"), if fault == SyncFault then WriteFailed else Written)
  }

  const PREFIX := "$argon2id$v=19$"

  /** The cheap structural test: the prefix, and five separators. */
  predicate LooksStored(phc: string) { PREFIX <= phc && Count(phc, '$') == 5 }

  function DetectState(file: Option<string>, statFails: bool, readFails: bool): ServerState {
    if statFails || file.None? || file.value == "" then Uninitialized
    else match ReadOf(file, readFails)
      case NotExist => Uninitialized
      case ReadFailed => Corrupt
      case Found(phc) => if LooksStored(phc) then Initialized else Corrupt
  }

  class Store {
    var file: Option<string>

    constructor (file: Option<string>)
      ensures this.file == file
    {
      this.file := file;
    }

    method SetupFile(phc: string, fault: WriteFault) returns (r: WriteResult)
      modifies this
      ensures (file, r) == Setup(old(file), phc, fault)
      ensures file == if old(file).None? && (fault.NoFault? || fault.SyncFault?) then Some(phc + "\n") else old(file)
      ensures r.Written? <==> old(file).None? && fault.NoFault?
      ensures r.AlreadyExists? <==> old(file).Some? && (fault.NoFault? || fault.SyncFault?)
    {
      if fault == TempFault { return WriteFailed; }
      if fault == MoveFault { return WriteFailed; }
      if file.Some? { return AlreadyExists; }
      file := Some(phc + "\n");
      r := if fault == SyncFault then WriteFailed else Written;
    }

    method ReplaceFile(phc: string, fault: WriteFault) returns (r: WriteResult)
      modifies this
      ensures (file, r) == Replace(old(file), phc, fault)
      ensures file == if fault.NoFault? || fault.SyncFault? then Some(phc + "\n") else old(file)
      ensures if fault.NoFault? then r.Written? else r.WriteFailed?
    {
      if fault == TempFault || fault == MoveFault { return WriteFailed; }
      file := Some(phc + "\n");
      r := if fault == SyncFault then WriteFailed else Written;
    }

    method Read(readFails: bool) returns (r: ReadResult)
      ensures r == ReadOf(file, readFails)
    {
      if readFails { return ReadFailed; }
      if file.None? { return NotExist; }
      var phc := TrimRight(file.value, '\n');
      r := if phc == "" then NotExist else Found(phc);
    }

    method State(statFails: bool, readFails: bool) returns (s: ServerState)
      ensures s == DetectState(file, statFails, readFails)
    {
      if statFails || file.None? || |file.value| == 0 { return Uninitialized; }
      var r := Read(readFails);
      if r.NotExist? { return Uninitialized; }
      if r.ReadFailed? { return Corrupt; }
      s := if PREFIX <= r.phc && Count(r.phc, '$') == 5 then Initialized else Corrupt;
    }
  }

  // ----- the structural test against the parser -----

  /** The frame: six fields, of which the first three are fixed. */
  predicate Framed(parts: seq<string>) {
    |parts| == 6 && parts[0] == "" && parts[1] == Phc.ALGORITHM && parts[2] == Phc.VERSION
  }

  lemma PrefixSplit(rest: string)
    ensures Split(PREFIX + rest, '$') == ["", Phc.ALGORITHM, Phc.VERSION] + Split(rest, '$')
  {
    var sep := ['$'];
    var c := Phc.VERSION + sep + rest;
    var b := Phc.ALGORITHM + sep + c;
    SplitHead(Phc.VERSION, rest, '$');
    SplitHead(Phc.ALGORITHM, c, '$');
    SplitHead("", b, '$');
    assert PREFIX + rest == "" + sep + b by {
      assert PREFIX == sep + Phc.ALGORITHM + sep + Phc.VERSION + sep;
    }
    assert [""] + ([Phc.ALGORITHM] + ([Phc.VERSION] + Split(rest, '$')))
        == ["", Phc.ALGORITHM, Phc.VERSION] + Split(rest, '$');
  }

  lemma FramedHasPrefix(s: string)
    requires Framed(Split(s, '$'))
    ensures PREFIX <= s
  {
    var parts := Split(s, '$');
    JoinSplit(s, '$');
    Phc.JoinSix(parts, '$');
    var tail := parts[3] + "$" + (parts[4] + "$" + parts[5]);
    assert s == "" + "$" + (Phc.ALGORITHM + "$" + (Phc.VERSION + "$" + tail));
    assert s == PREFIX + tail;
  }

  /** The structural test passes exactly when the parser gets past the frame:
      it rejects the string, if at all, for its parameters, salt or hash. */
  lemma LooksStoredMeansFramed(s: string)
    ensures LooksStored(s) <==> Framed(Split(s, '$'))
    ensures LooksStored(s) <==>
              !(Phc.Parse(s).Err? && Phc.Parse(s).error in
                {Phc.FieldCount, Phc.LeadingDollar, Phc.Algorithm, Phc.Version})
  {
    SplitCount(s, '$');
    if PREFIX <= s {
      PrefixSplit(s[|PREFIX|..]);
      assert s == PREFIX + s[|PREFIX|..];
    }
    if Framed(Split(s, '$')) { FramedHasPrefix(s); }
    FrameErrors(s);
  }

  lemma FrameErrors(s: string)
    ensures Framed(Split(s, '$')) <==>
              !(Phc.Parse(s).Err? && Phc.Parse(s).error in
                {Phc.FieldCount, Phc.LeadingDollar, Phc.Algorithm, Phc.Version})
  {
    var parts := Split(s, '$');
    if Framed(parts) {
      ParamErrors(parts[3]);
      if Phc.ParseParams(parts[3]).Ok? {
        AssembleErrors(Phc.ParseParams(parts[3]).value, parts[4], parts[5]);
      }
    }
  }

  predicate FrameError(e: Phc.Error) { e in {Phc.FieldCount, Phc.LeadingDollar, Phc.Algorithm, Phc.Version} }

  lemma ParamErrors(s: string)
    ensures Phc.ParseParams(s).Err? ==> !FrameError(Phc.ParseParams(s).error)
  {
    var pairs := Split(s, ',');
    if |pairs| == 3 { Phc.TakeThree(pairs); }
  }

  lemma AssembleErrors(costs: Phc.Costs, salt: string, hash: string)
    ensures Phc.Assemble(costs, salt, hash).Err? ==> !FrameError(Phc.Assemble(costs, salt, hash).error)
  {}

  // ----- what is read, and how it is classified -----

  predicate AllFeeds(s: string) { forall i | 0 <= i < |s| :: s[i] == '\n' }

  /** phc is content without its trailing line feeds. */
  predicate Stripped(content: string, phc: string) {
    && phc <= content && AllFeeds(content[|phc|..])
    && (phc == "" || phc[|phc| - 1] != '\n')
  }

  lemma {:induction false} TrimStrips(content: string, phc: string)
    ensures TrimRight(content, '\n') == phc <==> Stripped(content, phc)
  {
    if content == "" || content[|content| - 1] != '\n' {
      WholeIsStripped(content, phc);
    } else {
      var init := content[..|content| - 1];
      TrimStrips(init, phc);
      OneFeedMore(init, phc);
      assert init + "\n" == content;
    }
  }

  lemma WholeIsStripped(content: string, phc: string)
    requires content == "" || content[|content| - 1] != '\n'
    ensures Stripped(content, phc) <==> phc == content
  {
    if phc <= content && |phc| < |content| {
      assert content[|phc|..][|content| - 1 - |phc|] == content[|content| - 1];
    }
  }

  lemma OneFeedMore(init: string, phc: string)
    ensures Stripped(init + "\n", phc) <==> Stripped(init, phc)
  {
    var content := init + "\n";
    assert content[|content| - 1] == '\n';
    if phc <= content && phc != content {
      assert phc == content[..|phc|] == init[..|phc|];
      AllFeedsMore(init[|phc|..]);
      assert content[|phc|..] == init[|phc|..] + "\n";
    }
    if phc <= init { assert phc == init[..|phc|] == content[..|phc|]; }
  }

  lemma AllFeedsMore(s: string)
    ensures AllFeeds(s + "\n") <==> AllFeeds(s)
  {
    assert forall i | 0 <= i < |s| :: (s + "\n")[i] == s[i];
  }

  /** A read gives the text without its trailing line feeds; nothing left is no file. */
  lemma ReadExactly(file: Option<string>, readFails: bool, phc: string)
    ensures ReadOf(file, readFails).ReadFailed? <==> readFails
    ensures ReadOf(file, readFails).NotExist? <==> !readFails && (file.None? || AllFeeds(file.value))
    ensures ReadOf(file, readFails) == Found(phc) <==> !readFails && file.Some? && phc != "" && Stripped(file.value, phc)
  {
    if file.Some? {
      TrimStrips(file.value, phc);
      TrimStrips(file.value, "");
      TrimStrips(file.value, TrimRight(file.value, '\n'));
      assert file.value[0..] == file.value;
    }
  }

  /** The text of the file, without its trailing line feeds, has the frame of a hash. */
  ghost predicate HoldsHash(content: string) {
    exists phc :: Stripped(content, phc) && HasFrame(phc)
  }

  predicate HasFrame(phc: string) {
    var f := Split(phc, '$');
    |f| == 6 && f[0] == "" && f[1] == "argon2id" && f[2] == "v=19"
  }

  /** The three states.  No hash is set: the file cannot be looked at, is not there, or
      is empty or, when readable, all line feeds.  One is set: the file is readable and
      framed as a hash.  Anything else is corrupt. */
  lemma StateExactly(file: Option<string>, statFails: bool, readFails: bool)
    ensures var unset := statFails || file.None? || file.value == "" || (!readFails && AllFeeds(file.value));
            var fine := !statFails && file.Some? && !readFails && HoldsHash(file.value);
            && (DetectState(file, statFails, readFails) == Uninitialized <==> unset)
            && (DetectState(file, statFails, readFails) == Initialized <==> fine)
            && (DetectState(file, statFails, readFails) == Corrupt <==> !unset && !fine)
  {
    if file.Some? {
      var phc := TrimRight(file.value, '\n');
      ReadExactly(file, readFails, phc);
      TrimStrips(file.value, phc);
      LooksStoredMeansFramed(phc);
      if other :| Stripped(file.value, other) && HasFrame(other) { TrimStrips(file.value, other); }
      if AllFeeds(file.value) { TrimStrips(file.value, ""); }
      assert HasFrame(phc) <==> Framed(Split(phc, '$'));
      assert !HasFrame("") by { assert Split("", '$') == [""]; }
    }
  }

  // ----- storing a hash -----

  lemma {:induction false} TrimmedParses(s: string)
    ensures Phc.Parse(TrimRight(s, '\n')) == Phc.Parse(s)
  {
    if s != "" && s[|s| - 1] == '\n' {
      TrimmedParses(s[..|s| - 1]);
      Phc.FinalLineFeed(s[..|s| - 1]);
      assert s[..|s| - 1] + "\n" == s;
    }
  }

  lemma EmptyDoesNotParse()
    ensures Phc.Parse("").Err?
  {}

  /** A hash the parser accepts survives the store: after any write that moved the
      file into place, the text read back parses to the same parameters, salt and
      hash, and the device counts as initialized. */
  lemma StoredHashSurvives(before: Option<string>, phc: string, fault: WriteFault, after: Option<string>)
    requires Phc.Parse(phc).Ok?
    requires fault == NoFault || fault == SyncFault
    requires after == Replace(before, phc, fault).0 || (before.None? && after == Setup(before, phc, fault).0)
    ensures var r := ReadOf(after, false);
            r.Found? && Phc.Parse(r.phc) == Phc.Parse(phc)
    ensures DetectState(after, false, false) == Initialized
  {
    Phc.FinalLineFeed(phc);
    TrimmedParses(phc + "\n");
    EmptyDoesNotParse();
    LooksStoredMeansFramed(TrimRight(phc + "\n", '\n'));
  }

  /** The text itself comes back unchanged exactly when it ends in no line feed. */
  lemma StoredTextExact(phc: string)
    requires phc != ""
    ensures ReadOf(Some(phc + "\n"), false) == Found(phc) <==> phc[|phc| - 1] != '\n'
  {
    assert (phc + "\n")[..|phc|] == phc;
    assert TrimRight(phc + "\n", '\n') == TrimRight(phc, '\n');
    if phc[|phc| - 1] == '\n' { TrimShortens(phc[..|phc| - 1]); }
  }

  lemma {:induction false} TrimShortens(s: string)
    ensures |TrimRight(s, '\n')| <= |s|
  {
    if s != "" { TrimShortens(s[..|s| - 1]); }
  }
}

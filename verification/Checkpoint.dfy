/** Checkpoints and signed checkpoints (pkg/util/checkpoint.go). */
module Checkpoints {
  import opened Basics
  import opened Numerals
  import opened Signing
  import opened Text
  import Base64
  import Notes = SignedNotes

  datatype Checkpoint = Checkpoint(origin: string, size: U64, hash: Bytes, otherContent: seq<string>)

  function Lines(c: Checkpoint): seq<string> {
    [c.origin, Format(c.size, 10), Base64.Encode(c.hash)] + c.otherContent
  }

  function Print(c: Checkpoint): string { Joined(Lines(c)) }

  /** Other content ends at the first empty line. */
  function UntilEmpty(lines: seq<string>): seq<string> {
    if lines == [] || lines[0] == "" then [] else [lines[0]] + UntilEmpty(lines[1..])
  }

  function Parse(data: string): Result<Checkpoint> {
    var l := Split(data);
    if |l| < 4 then Err("invalid checkpoint - too few newlines")
    else if l[0] == "" then Err("invalid checkpoint - empty ecosystem")
    else
      var size := ParseUint(l[1], 10);
      if size.None? then Err("invalid checkpoint - size invalid")
      else
        var hash := Base64.Decode(l[2]);
        if hash.None? then Err("invalid checkpoint - invalid hash")
        else Ok(Checkpoint(l[0], size.value, hash.value, UntilEmpty(l[3..])))
  }

  predicate IsLine(s: string) { s != "" && LineFree(s) }

  predicate WellFormed(c: Checkpoint) {
    IsLine(c.origin) && forall i :: 0 <= i < |c.otherContent| ==> IsLine(c.otherContent[i])
  }

  // ----- Parser and printer undo each other -----

  lemma {:induction false} UntilEmptyOf(lines: seq<string>)
    requires forall i :: 0 <= i < |lines| ==> lines[i] != ""
    ensures UntilEmpty(lines + [""]) == lines
  {
    if lines != [] {
      assert (lines + [""])[1..] == lines[1..] + [""];
      UntilEmptyOf(lines[1..]);
    }
  }

  lemma {:induction false} UntilEmptyLines(lines: seq<string>)
    requires forall i :: 0 <= i < |lines| ==> LineFree(lines[i])
    ensures forall i :: 0 <= i < |UntilEmpty(lines)| ==> IsLine(UntilEmpty(lines)[i])
  {
    if lines != [] && lines[0] != "" {
      UntilEmptyLines(lines[1..]);
    }
  }

  lemma DigitsAreLine(s: string)
    requires AllDigits(s, 10)
    ensures LineFree(s)
  {
    forall i | 0 <= i < |s|
      ensures s[i] != '\n'
    {
      assert IsDigit(s[i], 10);
    }
  }

  lemma ParsePrint(c: Checkpoint)
    requires WellFormed(c)
    ensures Parse(Print(c)) == Ok(c)
  {
    hide Split, Joined, Format, Value, ParseUint, Base64.Encode, Base64.DecodeGroups, UntilEmpty, LineFree;
    var lines := Lines(c);
    FormatRoundTrip(c.size, 10);
    ParseUintRoundTrip(c.size, 10);
    DigitsAreLine(Format(c.size, 10));
    Base64.RoundTrip(c.hash);
    Notes.SymbolsAreWord(c.hash);
    SplitJoined(lines);
    assert (lines + [""])[3..] == c.otherContent + [""];
    UntilEmptyOf(c.otherContent);
  }

  lemma ParsedIsWellFormed(data: string)
    requires Parse(data).Ok?
    ensures WellFormed(Parse(data).value)
  {
    hide Split, ParseUint, Base64.DecodeGroups, UntilEmpty, LineFree;
    var l := Split(data);
    forall i | 0 <= i < |l|
      ensures LineFree(l[i])
    {
      SplitLineFree(data, i);
    }
    UntilEmptyLines(l[3..]);
  }

  /** A checkpoint survives printing exactly when it is well formed. */
  lemma RoundTripIffWellFormed(c: Checkpoint)
    ensures Parse(Print(c)) == Ok(c) <==> WellFormed(c)
  {
    if WellFormed(c) {
      ParsePrint(c);
    } else if Parse(Print(c)) == Ok(c) {
      ParsedIsWellFormed(Print(c));
    }
  }

  /** Parse, print, parse equals parse on every accepted input. */
  lemma ParsePrintParse(data: string)
    requires Parse(data).Ok?
    ensures Parse(Print(Parse(data).value)) == Parse(data)
  {
    ParsedIsWellFormed(data);
    ParsePrint(Parse(data).value);
  }

  /** Four parts on lines of their own: an origin, a decimal size below 2^64, a hash in base64, and anything. */
  predicate IsCheckpointText(data: string, origin: string, size: string, hash: string, rest: string) {
    && data == origin + "\n" + (size + "\n" + (hash + "\n" + rest))
    && IsLine(origin) && LineFree(size) && LineFree(hash)
    && size != "" && AllDigits(size, 10) && Value(size, 10) < TWO_64 && Base64.Decode(hash).Some?
  }

  lemma ParsesAs(data: string, origin: string, size: string, hash: string, rest: string)
    requires IsCheckpointText(data, origin, size, hash, rest)
    ensures Parse(data).Ok?
    ensures var c := Parse(data).value;
            c.origin == origin && c.size == Value(size, 10) && Some(c.hash) == Base64.Decode(hash)
  {
    hide Split, Base64.Decode, AllDigits, Value, LineFree;
    LinesOf(data, origin, size, hash, rest);
  }

  lemma LinesOf(data: string, origin: string, size: string, hash: string, rest: string)
    requires IsCheckpointText(data, origin, size, hash, rest)
    ensures Split(data) == [origin, size, hash] + Split(rest)
  {
    hide Split, Base64.Decode, AllDigits, Value, LineFree;
    SplitFirst(origin, size + "\n" + (hash + "\n" + rest));
    SplitFirst(size, hash + "\n" + rest);
    SplitFirst(hash, rest);
  }

  /** Other content is what comes before the next empty line, whatever follows it. */
  lemma OtherContentEnds(data: string, origin: string, size: string, hash: string, more: seq<string>, rest: string)
    requires IsCheckpointText(data, origin, size, hash, Joined(more) + ("\n" + rest))
    requires forall i :: 0 <= i < |more| ==> IsLine(more[i])
    ensures Parse(data).Ok? && Parse(data).value.otherContent == more
  {
    hide Split, Base64.Decode, AllDigits, Value, LineFree, UntilEmpty, Joined;
    var tail := Joined(more) + ("\n" + rest);
    LinesOf(data, origin, size, hash, tail);
    assert Split(data)[3..] == Split(tail);
    UntilEmptyOfMore(more, rest);
  }

  lemma {:induction false} UntilEmptyOfMore(more: seq<string>, rest: string)
    requires forall i :: 0 <= i < |more| ==> IsLine(more[i])
    ensures UntilEmpty(Split(Joined(more) + ("\n" + rest))) == more
  {
    hide Split;
    if more == [] {
      SplitFirst("", rest);
      assert Joined(more) + ("\n" + rest) == "" + "\n" + rest;
    } else {
      UntilEmptyOfMore(more[1..], rest);
      var tail := Joined(more[1..]) + ("\n" + rest);
      assert Joined(more) + ("\n" + rest) == more[0] + "\n" + tail;
      SplitFirst(more[0], tail);
      assert ([more[0]] + Split(tail))[1..] == Split(tail);
    }
  }

  /** Text parses exactly when it has these parts, zeros in front and carriage returns in the base64 being no matter. */
  lemma ParsesIff(data: string)
    ensures Parse(data).Ok? <==> exists origin, size, hash, rest :: IsCheckpointText(data, origin, size, hash, rest)
  {
    if Parse(data).Ok? {
      hide Split, Base64.Decode, AllDigits, Value, LineFree, UntilEmpty;
      var l := Split(data);
      SplitLineFree(data, 0);
      SplitLineFree(data, 1);
      SplitLineFree(data, 2);
      var after := SplitRest(data);
      var after' := SplitRest(after);
      var rest := SplitRest(after');
      assert IsCheckpointText(data, l[0], l[1], l[2], rest);
    }
    if origin, size, hash, rest :| IsCheckpointText(data, origin, size, hash, rest) {
      ParsesAs(data, origin, size, hash, rest);
    }
  }

  /** The checkpoint in memory. */
  class CheckpointRecord {
    var origin: string
    var size: U64
    var hash: Bytes
    var otherContent: seq<string>

    ghost function Contents(): Checkpoint
      reads this
    {
      Checkpoint(origin, size, hash, otherContent)
    }

    constructor (c: Checkpoint)
      ensures Contents() == c
    {
      origin, size, hash, otherContent := c.origin, c.size, c.hash, c.otherContent;
    }

    method String() returns (s: string)
      ensures s == Print(Contents())
    {
      ghost var lines := Lines(Contents());
      s := origin + "\n" + Format(size, 10) + "\n" + Base64.Encode(hash) + "\n";
      JoinedThree(origin, Format(size, 10), Base64.Encode(hash), otherContent);
      assert otherContent[0..] == otherContent;
      for i := 0 to |otherContent|
        invariant s + Joined(otherContent[i..]) == Print(Contents())
      {
        assert otherContent[i..][1..] == otherContent[i + 1..];
        assert s + Joined(otherContent[i..]) == s + otherContent[i] + "\n" + Joined(otherContent[i + 1..]);
        s := s + otherContent[i] + "\n";
      }
    }

    /** Overwrites the checkpoint on success and leaves it alone on every error. */
    method UnmarshalCheckpoint(data: string) returns (r: Result<()>)
      modifies this
      ensures match Parse(data)
              case Ok(c) => r.Ok? && Contents() == c
              case Err(e) => r == Err(e) && Contents() == old(Contents())
    {
      hide Split, ParseUint, Base64.DecodeGroups, UntilEmpty;
      var l := Split(data);
      if |l| < 4 {
        return Err("invalid checkpoint - too few newlines");
      }
      if l[0] == "" {
        return Err("invalid checkpoint - empty ecosystem");
      }
      var parsed := ParseUint(l[1], 10);
      if parsed.None? {
        return Err("invalid checkpoint - size invalid");
      }
      var h := Base64.Decode(l[2]);
      if h.None? {
        return Err("invalid checkpoint - invalid hash");
      }
      var other := CollectLines(l[3..]);
      origin, size, hash, otherContent := l[0], parsed.value, h.value, other;
      r := Ok(());
    }
  }

  /** The loop of `UnmarshalCheckpoint` over the lines after the hash. */
  method CollectLines(lines: seq<string>) returns (other: seq<string>)
    ensures other == UntilEmpty(lines)
  {
    other := [];
    assert lines[0..] == lines;
    for i := 0 to |lines|
      invariant other + UntilEmpty(lines[i..]) == UntilEmpty(lines)
    {
      assert lines[i..][0] == lines[i] && lines[i..][1..] == lines[i + 1..];
      if lines[i] == "" {
        return;
      }
      other := other + [lines[i]];
    }
  }

  lemma JoinedThree(a: string, b: string, c: string, more: seq<string>)
    ensures Joined([a, b, c] + more) == a + "\n" + b + "\n" + c + "\n" + Joined(more)
  {
    assert ([a, b, c] + more)[1..] == [b, c] + more;
    assert ([b, c] + more)[1..] == [c] + more;
    assert ([c] + more)[1..] == more;
    var t := Joined(more);
    assert Joined([c] + more) == c + "\n" + t;
    assert Joined([b, c] + more) == b + "\n" + (c + "\n" + t);
    assert Joined([a, b, c] + more) == a + "\n" + (b + "\n" + (c + "\n" + t));
  }

  // ----- Signed checkpoints -----

  datatype SignedCheckpoint = SignedCheckpoint(checkpoint: Checkpoint, note: Notes.Note)

  /** `SignedCheckpoint.UnmarshalText`: the note, then the checkpoint in its text. */
  function ParseSigned(data: string): Result<SignedCheckpoint> {
    var n := Notes.Parse(data);
    if n.Err? then Err(n.error)
    else
      var c := Parse(n.value.text);
      if c.Err? then Err(c.error) else Ok(SignedCheckpoint(c.value, n.value))
  }

  /** What is stored of a signed checkpoint is its text, and reading it back gives the same checkpoint. */
  lemma StoredCheckpointRoundTrip(data: string)
    requires ParseSigned(data).Ok?
    ensures ParseSigned(Notes.Print(ParseSigned(data).value.note)) == ParseSigned(data)
  {
    Notes.ParsePrintParse(data);
  }

  /** The checkpoint a log publishes for one of its trees. */
  function LogCheckpoint(hostname: string, treeID: int, size: U64, root: Bytes): Checkpoint {
    Checkpoint(hostname + " - " + FormatInt(treeID, 10), size, root, [])
  }

  /** The signatures of all signers in order, or None when one of them fails. */
  function SignAll(scheme: Scheme, text: string, identity: string, signers: seq<Signer>): Option<seq<Notes.Signature>> {
    if signers == [] then Some([])
    else
      var n := |signers| - 1;
      var before, last := SignAll(scheme, text, identity, signers[..n]),
        Notes.SignOne(scheme, text, identity, signers[n]);
      if before.None? || last.None? then None else Some(before.value + [last.value])
  }

  /** The signed note of a published checkpoint. */
  function PublishedNote(scheme: Scheme, hostname: string, treeID: int, size: U64, root: Bytes,
                         signers: seq<Signer>): Option<Notes.Note> {
    var text := Print(LogCheckpoint(hostname, treeID, size, root));
    var sigs := SignAll(scheme, text, hostname, signers);
    if signers == [] || sigs.None? then None else Some(Notes.Note(text, sigs.value))
  }

  method CreateAndSignCheckpointMultiple(scheme: Scheme, hostname: string, treeID: int, size: U64, root: Bytes,
                                         signers: seq<Signer>)
    returns (r: Result<string>)
    ensures match PublishedNote(scheme, hostname, treeID, size, root, signers)
            case None => r.Err?
            case Some(n) => r == Ok(Notes.Print(n))
  {
    if |signers| == 0 {
      return Err("no signers provided");
    }
    hide Notes.Print, Notes.SignOne;
    var text := Print(LogCheckpoint(hostname, treeID, size, root));
    var sth := new Notes.SignedNote(text);
    for i := 0 to |signers|
      invariant sth.text == text && SignAll(scheme, text, hostname, signers[..i]) == Some(sth.signatures)
    {
      assert signers[..i + 1][..i] == signers[..i];
      var sig := sth.Sign(scheme, hostname, signers[i]);
      if sig.Err? {
        SignAllFails(scheme, text, hostname, signers, i);
        return Err("error signing checkpoint");
      }
    }
    assert signers[..|signers|] == signers;
    var s := sth.String();
    r := Ok(s);
  }

  lemma {:induction false} SignAllFails(scheme: Scheme, text: string, identity: string, signers: seq<Signer>, i: nat)
    requires i < |signers| && Notes.SignOne(scheme, text, identity, signers[i]).None?
    ensures SignAll(scheme, text, identity, signers).None?
  {
    var n := |signers| - 1;
    if i < n {
      SignAllFails(scheme, text, identity, signers[..n], i);
    }
  }

  /** One signature for each signer, in order. */
  lemma {:induction false} SignAllInOrder(scheme: Scheme, text: string, identity: string, signers: seq<Signer>)
    requires SignAll(scheme, text, identity, signers).Some?
    ensures var sigs := SignAll(scheme, text, identity, signers).value;
            && |sigs| == |signers|
            && forall i :: 0 <= i < |sigs| ==> Notes.SignOne(scheme, text, identity, signers[i]) == Some(sigs[i])
  {
    hide Notes.SignOne;
    if signers != [] {
      SignAllInOrder(scheme, text, identity, signers[..|signers| - 1]);
    }
  }

  /** All signers sign and have readable keys, or nobody's signature comes back. */
  lemma {:induction false} SignAllIff(scheme: Scheme, text: string, identity: string, signers: seq<Signer>)
    ensures SignAll(scheme, text, identity, signers).Some?
            <==> forall i :: 0 <= i < |signers| ==>
                 scheme.sign(signers[i], text).Some? && scheme.hint(signers[i].key).Some?
  {
    if signers != [] {
      SignAllIff(scheme, text, identity, signers[..|signers| - 1]);
    }
  }

  /** A checkpoint is published if and only if there is a signer and all of them can sign its text. */
  lemma PublishedIff(scheme: Scheme, hostname: string, treeID: int, size: U64, root: Bytes, signers: seq<Signer>)
    ensures var text := Print(LogCheckpoint(hostname, treeID, size, root));
            PublishedNote(scheme, hostname, treeID, size, root, signers).Some?
            <==> && signers != []
                 && forall i :: 0 <= i < |signers| ==>
                    scheme.sign(signers[i], text).Some? && scheme.hint(signers[i].key).Some?
  {
    hide Print;
    SignAllIff(scheme, Print(LogCheckpoint(hostname, treeID, size, root)), hostname, signers);
  }

  /** The origin of a published checkpoint is the hostname, a dash and the tree ID, which reads back from it. */
  lemma OriginNamesTree(hostname: string, treeID: int, size: U64, root: Bytes)
    requires IsInt64(treeID)
    ensures var origin := LogCheckpoint(hostname, treeID, size, root).origin;
            && hostname + " - " <= origin
            && ParseInt(origin[|hostname| + 3..], 10) == Some(treeID)
  {
    hide ParseInt, FormatInt;
    FormatIntParses(treeID, 10);
    var origin := hostname + " - " + FormatInt(treeID, 10);
    assert origin[|hostname| + 3..] == FormatInt(treeID, 10);
  }

  /** The format itself, on one checkpoint. */
  lemma KnownCheckpoint()
    ensures Print(Checkpoint("host - 7", 5, [102], ["x"])) == "host - 7\n5\nZg==\nx\n"
  {
    Base64.KnownEncodings();
    hide Base64.Encode;
    JoinedThree("host - 7", "5", "Zg==", ["x"]);
    assert Joined(["x"]) == "x\n" by {
      assert ["x"][1..] == [];
    }
  }

  /** What a hostname and the signatures must satisfy for the published text to be read back. */
  predicate Publishable(hostname: string, n: Notes.Note) {
    && IsWord(hostname)
    && forall i :: 0 <= i < |n.signatures| ==>
         && n.signatures[i].base64 != ""
         && ByteLength(Notes.SignatureLine(n.signatures[i])) < LINE_LIMIT
  }

  lemma PrintIsTerminated(c: Checkpoint)
    ensures Print(c) != "" && Print(c)[|Print(c)| - 1] == '\n'
  {
    JoinedTerminated(Lines(c));
  }

  lemma {:induction false} JoinedTerminated(lines: seq<string>)
    requires lines != []
    ensures Joined(lines) != "" && Joined(lines)[|Joined(lines)| - 1] == '\n'
  {
    if |lines| > 1 {
      JoinedTerminated(lines[1..]);
    }
  }

  lemma {:induction false} FormatIntIsLine(x: int)
    ensures LineFree(FormatInt(x, 10))
  {
    FormatRoundTrip(if x < 0 then -x else x, 10);
    DigitsAreLine(Format(if x < 0 then -x else x, 10));
  }

  lemma SignedIsCanonical(scheme: Scheme, text: string, identity: string, signer: Signer)
    requires Notes.SignOne(scheme, text, identity, signer).Some?
    ensures var sig := Notes.SignOne(scheme, text, identity, signer).value;
            && sig.name == identity
            && scheme.sign(signer, text).Some?
            && Base64.Decode(sig.base64) == scheme.sign(signer, text)
            && sig.base64 == Base64.Encode(Base64.Decode(sig.base64).value)
            && (sig.base64 == "" <==> Base64.Decode(sig.base64).value == [])
  {
    hide Base64.Encode, Base64.Decode;
    var bytes := scheme.sign(signer, text).value;
    Base64.RoundTrip(bytes);
    Notes.SymbolsAreWord(bytes);
    Base64.KnownEncodings();
  }

  lemma PublishedWellFormed(scheme: Scheme, hostname: string, treeID: int, size: U64, root: Bytes, signers: seq<Signer>)
    requires PublishedNote(scheme, hostname, treeID, size, root, signers).Some?
    ensures var n := PublishedNote(scheme, hostname, treeID, size, root, signers).value;
            Notes.WellFormed(n) <==> Publishable(hostname, n)
  {
    hide Print, Notes.SignOne, Base64.Encode, Base64.DecodeGroups, IsWord, ByteLength, Notes.SignatureLine, SignAll;
    var c := LogCheckpoint(hostname, treeID, size, root);
    var n := PublishedNote(scheme, hostname, treeID, size, root, signers).value;
    PrintIsTerminated(c);
    SignAllInOrder(scheme, n.text, hostname, signers);
    forall i | 0 <= i < |signers|
      ensures Notes.WellFormedSignature(n.signatures[i])
              <==> && IsWord(hostname) && n.signatures[i].base64 != ""
                   && ByteLength(Notes.SignatureLine(n.signatures[i])) < LINE_LIMIT
    {
      SignedIsCanonical(scheme, n.text, hostname, signers[i]);
    }
    if Notes.WellFormed(n) {
      assert Notes.WellFormedSignature(n.signatures[0]);
    }
  }

  /**
    Sign, print, parse: a published checkpoint reads back as the same checkpoint with
    the same signatures in order exactly when it is publishable.
   */
  lemma PublishedRoundTrip(scheme: Scheme, hostname: string, treeID: int, size: U64, root: Bytes, signers: seq<Signer>)
    requires PublishedNote(scheme, hostname, treeID, size, root, signers).Some?
    ensures var n := PublishedNote(scheme, hostname, treeID, size, root, signers).value;
            ParseSigned(Notes.Print(n)) == Ok(SignedCheckpoint(LogCheckpoint(hostname, treeID, size, root), n))
            <==> Publishable(hostname, n)
  {
    hide Notes.Print, Notes.Parse, Parse, Print, Notes.WellFormed, SignAll, FormatInt, ByteLength;
    var c := LogCheckpoint(hostname, treeID, size, root);
    var n := PublishedNote(scheme, hostname, treeID, size, root, signers).value;
    PublishedWellFormed(scheme, hostname, treeID, size, root, signers);
    Notes.RoundTripIffWellFormed(n);
    if Publishable(hostname, n) {
      FormatIntIsLine(treeID);
      RoundTripIffWellFormed(c);
    }
  }

  /**
    Verify: a key accepts the published note exactly when it accepts what the first signer with its
    hint signed. So a signer behind another one with the same hint is never looked at.
   */
  lemma PublishedVerifiesIff(scheme: Scheme, hostname: string, treeID: int, size: U64, root: Bytes,
                             signers: seq<Signer>, key: Key, i: nat)
    requires PublishedNote(scheme, hostname, treeID, size, root, signers).Some?
    requires i < |signers| && scheme.hint(signers[i].key) == scheme.hint(key)
    requires forall j :: 0 <= j < i ==> scheme.hint(signers[j].key) != scheme.hint(key)
    ensures var n := PublishedNote(scheme, hostname, treeID, size, root, signers).value;
            var sig := scheme.sign(signers[i], n.text);
            sig.Some? && (Notes.Verifies(scheme, n, key) <==> scheme.verify(key, sig.value, n.text))
  {
    hide Print, Base64.Encode, Base64.DecodeGroups;
    var n := PublishedNote(scheme, hostname, treeID, size, root, signers).value;
    SignAllInOrder(scheme, n.text, hostname, signers);
    SignedIsCanonical(scheme, n.text, hostname, signers[i]);
    assert Notes.FirstWithHint(n.signatures, scheme.hint(key).value, i);
  }

  /** A key whose hint no signer has accepts nothing. */
  lemma StrangerVerifiesNothing(scheme: Scheme, hostname: string, treeID: int, size: U64, root: Bytes,
                                signers: seq<Signer>, key: Key)
    requires PublishedNote(scheme, hostname, treeID, size, root, signers).Some?
    requires forall j :: 0 <= j < |signers| ==> scheme.hint(signers[j].key) != scheme.hint(key)
    ensures !Notes.Verifies(scheme, PublishedNote(scheme, hostname, treeID, size, root, signers).value, key)
  {
    hide Print, Base64.Encode, Base64.DecodeGroups;
    var n := PublishedNote(scheme, hostname, treeID, size, root, signers).value;
    SignAllInOrder(scheme, n.text, hostname, signers);
  }

  /** So the key of a signer accepts the published note when no earlier signer shares its hint. */
  lemma PublishedVerifies(scheme: Scheme, hostname: string, treeID: int, size: U64, root: Bytes, signers: seq<Signer>,
                          i: nat)
    requires scheme.Correct()
    requires PublishedNote(scheme, hostname, treeID, size, root, signers).Some?
    requires i < |signers| && forall j :: 0 <= j < i ==> scheme.hint(signers[j].key) != scheme.hint(signers[i].key)
    ensures Notes.Verifies(scheme, PublishedNote(scheme, hostname, treeID, size, root, signers).value, signers[i].key)
  {
    hide PublishedNote, Notes.Verifies;
    PublishedVerifiesIff(scheme, hostname, treeID, size, root, signers, signers[i].key, i);
  }

  /** With pairwise distinct hints, all signers' keys together accept the published note. */
  lemma PublishedVerifiesAll(scheme: Scheme, hostname: string, treeID: int, size: U64, root: Bytes,
                             signers: seq<Signer>)
    requires scheme.Correct()
    requires PublishedNote(scheme, hostname, treeID, size, root, signers).Some?
    requires forall i, j :: 0 <= j < i < |signers| ==> scheme.hint(signers[j].key) != scheme.hint(signers[i].key)
    ensures var n := PublishedNote(scheme, hostname, treeID, size, root, signers).value;
            Notes.VerifiesAll(scheme, n, seq(|signers|, i requires 0 <= i < |signers| => signers[i].key))
  {
    hide Print, Notes.Verifies;
    var n := PublishedNote(scheme, hostname, treeID, size, root, signers).value;
    SignAllInOrder(scheme, n.text, hostname, signers);
    forall i | 0 <= i < |signers|
      ensures Notes.Verifies(scheme, n, signers[i].key)
    {
      PublishedVerifies(scheme, hostname, treeID, size, root, signers, i);
    }
  }
}

/** Signed notes: printing, parsing, signing and verifying (pkg/util/signed_note.go). */
module SignedNotes {
  import opened Basics
  import opened Signing
  import opened Text
  import Base64

  const EM_DASH: char := '\U{2014}'

  datatype Signature = Signature(name: string, hint: Hint, base64: string)

  datatype Note = Note(text: string, signatures: seq<Signature>)

  // ----- Printing -----

  /** The bytes of a signature; those before the fault when it is not base64. */
  function SignatureBytes(base64: string): Bytes {
    var b := Base64.Decode(base64);
    if b.Some? then b.value else DecodedPrefix(Base64.WithoutBreaks(base64))
  }

  /** Whole groups up to the first bad one; after a padded group the decoder stops. */
  function DecodedPrefix(s: string): Bytes {
    if |s| < 4 then []
    else
      var group := Base64.DecodeGroups(s[..4]);
      if group.None? then []
      else if |group.value| < 3 then group.value
      else group.value + DecodedPrefix(s[4..])
  }

  function HintedBase64(sig: Signature): string {
    Base64.Encode(PutUint32(sig.hint) + SignatureBytes(sig.base64))
  }

  /** A signature line without its newline. */
  function SignatureLine(sig: Signature): string {
    [EM_DASH] + " " + sig.name + " " + HintedBase64(sig)
  }

  function SignatureLines(sigs: seq<Signature>): seq<string> {
    seq(|sigs|, i requires 0 <= i < |sigs| => SignatureLine(sigs[i]))
  }

  function Print(n: Note): string {
    n.text + "\n" + Joined(SignatureLines(n.signatures))
  }

  // ----- Parsing -----

  /** The scan of `"— %s %s\n"`: an em dash, space, a word, space, a word, and at most space after it. */
  function ScanSignature(line: string): Option<(string, string)> {
    if line == "" || line[0] != EM_DASH then None
    else if |line| > 1 && !IsSpace(line[1]) then None
    else
      var s := SkipSpace(line[1..]);
      if s == "" then None
      else
        var name := TakeWord(s);
        var t := SkipSpace(s[|name|..]);
        if t == "" then None
        else
          var sig := TakeWord(t);
          if SkipSpace(t[|sig|..]) != "" then None else Some((name, sig))
  }

  function ParseSignature(line: string): Result<Signature> {
    var words := ScanSignature(line);
    if words.None? then Err("parsing signature")
    else
      var bytes := Base64.Decode(words.value.1);
      if bytes.None? then Err("decoding signature")
      else if |bytes.value| < 5 then Err("signature is too small")
      else Ok(Signature(words.value.0, ReadUint32(bytes.value), Base64.Encode(bytes.value[4..])))
  }

  /** `bufio.ScanLines` drops one carriage return from the end of a line. */
  function DropCR(line: string): string {
    if line != "" && line[|line| - 1] == '\r' then line[..|line| - 1] else line
  }

  /**
    The lines a default scanner delivers from newline-terminated data: it stops without
    a word at the first line of 64 KiB or more, and its error is never looked at.
   */
  function Scanned(lines: seq<string>): seq<string> {
    if lines == [] || ByteLength(lines[0]) >= LINE_LIMIT then []
    else [DropCR(lines[0])] + Scanned(lines[1..])
  }

  function ParseSignatures(lines: seq<string>): Result<seq<Signature>> {
    if lines == [] then Ok([])
    else
      var first := ParseSignature(lines[0]);
      if first.Err? then Err(first.error)
      else
        var rest := ParseSignatures(lines[1..]);
        if rest.Err? then Err(rest.error) else Ok([first.value] + rest.value)
  }

  function Parse(data: string): Result<Note> {
    var split := LastBlank(data);
    if split < 0 then Err("malformed note")
    else
      var (text, rest) := (data[..split + 1], data[split + 2..]);
      if rest == "" || rest[|rest| - 1] != '\n' then Err("malformed note")
      else
        var lines := Split(rest);
        var sigs := ParseSignatures(Scanned(lines[..|lines| - 1]));
        if sigs.Err? then Err(sigs.error)
        else if sigs.value == [] then Err("no signatures found in input")
        else Ok(Note(text, sigs.value))
  }

  // ----- Parser and printer undo each other -----

  predicate WellFormedSignature(sig: Signature) {
    && IsWord(sig.name)
    && Base64.Decode(sig.base64).Some?
    && Base64.Decode(sig.base64).value != []
    && sig.base64 == Base64.Encode(Base64.Decode(sig.base64).value)
    && ByteLength(SignatureLine(sig)) < LINE_LIMIT
  }

  /** Notes that survive printing: newline-terminated text and at least one signature line that scans. */
  predicate WellFormed(n: Note) {
    && n.text != "" && n.text[|n.text| - 1] == '\n'
    && n.signatures != []
    && forall i :: 0 <= i < |n.signatures| ==> WellFormedSignature(n.signatures[i])
  }

  lemma SymbolsAreWord(b: Bytes)
    ensures SpaceFree(Base64.Encode(b)) && LineFree(Base64.Encode(b))
    ensures b != [] ==> Base64.Encode(b) != ""
  {
    Base64.EncodeSymbols(b);
  }

  lemma ScanPrinted(name: string, word: string)
    requires IsWord(name) && IsWord(word)
    ensures ScanSignature([EM_DASH] + " " + name + " " + word) == Some((name, word))
  {
    hide ScanSignature, IsWord;
    assert [EM_DASH] + " " + name + " " + word == [EM_DASH] + (" " + (name + (" " + (word + ""))));
    ScansWithSpaces([EM_DASH] + " " + name + " " + word, " ", name, " ", word, "");
  }

  lemma {:induction false} SkipSpaces(gap: string, s: string)
    requires AllSpace(gap) && (s == "" || !IsSpace(s[0]))
    ensures SkipSpace(gap + s) == s
  {
    if gap == "" {
      assert gap + s == s;
    } else {
      SkipSpaces(gap[1..], s);
      assert (gap + s)[1..] == gap[1..] + s;
    }
  }

  lemma {:induction false} SkippedIsSpace(s: string) returns (gap: string)
    ensures AllSpace(gap) && s == gap + SkipSpace(s)
  {
    gap := "";
    if s != "" && IsSpace(s[0]) {
      var rest := SkippedIsSpace(s[1..]);
      gap := [s[0]] + rest;
    }
  }

  predicate AllSpace(s: string) { forall i :: 0 <= i < |s| ==> IsSpace(s[i]) }

  /** A dash, a name and a word with space between them, any amount of it, and perhaps some at the end. */
  predicate IsSignatureLine(line: string, a: string, name: string, b: string, word: string, c: string) {
    && IsWord(name) && IsWord(word) && AllSpace(a) && AllSpace(b) && AllSpace(c) && a != "" && b != ""
    && line == [EM_DASH] + (a + (name + (b + (word + c))))
  }

  lemma ScansWithSpaces(line: string, a: string, name: string, b: string, word: string, c: string)
    requires IsSignatureLine(line, a, name, b, word, c)
    ensures ScanSignature(line) == Some((name, word))
  {
    hide SkipSpace, TakeWord;
    var (s, t) := (name + (b + (word + c)), word + c);
    assert line[1..] == a + s && line[0] == EM_DASH && line[1] == a[0];
    SkipSpaces(a, s);
    TakeWordPrefix(name, b + t);
    assert s[|name|..] == b + t;
    SkipSpaces(b, t);
    TakeWordPrefix(word, c);
    assert t[|word|..] == c && c + "" == c;
    SkipSpaces(c, "");
  }

  /** A line scans as a name and a word exactly when it is such a line. */
  lemma ScansIff(line: string, name: string, word: string)
    ensures ScanSignature(line) == Some((name, word))
            <==> exists a, b, c :: IsSignatureLine(line, a, name, b, word, c)
  {
    if ScanSignature(line) == Some((name, word)) {
      hide TakeWord, SkipSpace;
      var a := SkippedIsSpace(line[1..]);
      var s := SkipSpace(line[1..]);
      var b := SkippedIsSpace(s[|name|..]);
      var t := SkipSpace(s[|name|..]);
      var c := SkippedIsSpace(t[|word|..]);
      assert s == name + (b + t) && t == word + c;
      assert line == [EM_DASH] + (a + s);
      assert IsSignatureLine(line, a, name, b, word, c);
    }
    if a, b, c :| IsSignatureLine(line, a, name, b, word, c) {
      ScansWithSpaces(line, a, name, b, word, c);
    }
  }

  lemma ParsePrintedSignature(sig: Signature)
    requires WellFormedSignature(sig)
    ensures LineFree(SignatureLine(sig)) && DropCR(SignatureLine(sig)) == SignatureLine(sig)
    ensures ByteLength(SignatureLine(sig)) < LINE_LIMIT
    ensures ParseSignature(SignatureLine(sig)) == Ok(sig)
  {
    hide ScanSignature, Base64.Encode, Base64.DecodeGroups, Base64.WithoutBreaks, PutUint32, ReadUint32, ByteLength;
    var bytes := SignatureBytes(sig.base64);
    var hinted := PutUint32(sig.hint) + bytes;
    SymbolsAreWord(hinted);
    ScanPrinted(sig.name, HintedBase64(sig));
    Base64.RoundTrip(hinted);
    HintRoundTrip(sig.hint, bytes);
    assert SignatureLine(sig)[|SignatureLine(sig)| - 1] == HintedBase64(sig)[|HintedBase64(sig)| - 1];
  }

  lemma ScanFirst(line: string, lines: seq<string>, sig: Signature)
    requires ByteLength(line) < LINE_LIMIT && DropCR(line) == line && ParseSignature(line) == Ok(sig)
    requires ParseSignatures(Scanned(lines)).Ok?
    ensures ParseSignatures(Scanned([line] + lines)) == Ok([sig] + ParseSignatures(Scanned(lines)).value)
  {
    hide ByteLength, DropCR, ParseSignature;
    assert Scanned([line] + lines) == [line] + Scanned(lines);
    assert ([line] + Scanned(lines))[1..] == Scanned(lines);
  }

  lemma NoLines()
    ensures ParseSignatures(Scanned([])) == Ok([])
  {
  }

  lemma SignatureLinesStep(sigs: seq<Signature>)
    requires sigs != []
    ensures SignatureLines(sigs) == [SignatureLine(sigs[0])] + SignatureLines(sigs[1..])
  {
  }

  lemma {:induction false} ParsePrintedSignatures(sigs: seq<Signature>)
    requires forall i :: 0 <= i < |sigs| ==> WellFormedSignature(sigs[i])
    ensures ParseSignatures(Scanned(SignatureLines(sigs))) == Ok(sigs)
  {
    hide WellFormedSignature, SignatureLine, ParseSignature, DropCR, LineFree, ByteLength, ParseSignatures, Scanned;
    if sigs == [] {
      assert SignatureLines(sigs) == [];
      NoLines();
    } else {
      hide SignatureLines;
      ParsePrintedSignature(sigs[0]);
      ParsePrintedSignatures(sigs[1..]);
      ScanFirst(SignatureLine(sigs[0]), SignatureLines(sigs[1..]), sigs[0]);
      SignatureLinesStep(sigs);
      assert sigs == [sigs[0]] + sigs[1..];
    }
  }

  lemma PrintedLinesAreLines(sigs: seq<Signature>)
    requires forall i :: 0 <= i < |sigs| ==> WellFormedSignature(sigs[i])
    ensures forall i :: 0 <= i < |sigs| ==> LineFree(SignatureLines(sigs)[i])
  {
    hide WellFormedSignature, SignatureLine, ParseSignature, DropCR, LineFree, ByteLength;
    forall i | 0 <= i < |sigs|
      ensures LineFree(SignatureLines(sigs)[i])
    {
      ParsePrintedSignature(sigs[i]);
    }
  }

  /** Joined lines that start with an em dash contain no blank line and end with a newline. */
  lemma {:induction false} NoBlankInLines(lines: seq<string>)
    requires forall i :: 0 <= i < |lines| ==> LineFree(lines[i]) && lines[i] != "" && lines[i][0] == EM_DASH
    ensures forall j :: !BlankAt(Joined(lines), j)
    ensures lines != [] ==>
            Joined(lines) != "" && Joined(lines)[0] == EM_DASH && Joined(lines)[|Joined(lines)| - 1] == '\n'
  {
    if lines != [] {
      NoBlankInLines(lines[1..]);
      var (s, rest) := (Joined(lines), Joined(lines[1..]));
      var n := |lines[0]|;
      assert s == lines[0] + "\n" + rest;
      forall j
        ensures !BlankAt(s, j)
      {
        if n < j < |s| - 1 {
          assert s[j] == rest[j - n - 1] && s[j + 1] == rest[j - n];
          assert !BlankAt(rest, j - n - 1);
        } else if 0 <= j < n {
          assert s[j] == lines[0][j];
        }
      }
    }
  }

  /** Parsing splits after the text when no blank line follows. */
  lemma ParseAt(text: string, tail: string, lines: seq<string>)
    requires text != "" && text[|text| - 1] == '\n'
    requires tail != "" && tail[0] != '\n' && tail[|tail| - 1] == '\n'
    requires forall j :: !BlankAt(tail, j)
    requires Split(tail) == lines + [""]
    ensures Parse(text + "\n" + tail)
            == var sigs := ParseSignatures(Scanned(lines));
               if sigs.Err? then Err(sigs.error)
               else if sigs.value == [] then Err("no signatures found in input")
               else Ok(Note(text, sigs.value))
  {
    hide Split, ParseSignatures, Scanned;
    var data, split := text + "\n" + tail, |text| - 1;
    assert BlankAt(data, split);
    forall j | split < j
      ensures !BlankAt(data, j)
    {
      if split + 1 < j < |data| - 1 {
        assert data[j] == tail[j - split - 2] && data[j + 1] == tail[j - split - 1];
        assert !BlankAt(tail, j - split - 2);
      } else if j == split + 1 {
        assert data[j + 1] == tail[0];
      }
    }
    assert LastBlank(data) == split;
    assert data[..split + 1] == text && data[split + 2..] == tail;
    assert Split(tail)[..|lines|] == lines;
  }

  /** Parsing undoes printing on every well-formed note. */
  lemma ParsePrint(n: Note)
    requires WellFormed(n)
    ensures Parse(Print(n)) == Ok(n)
  {
    hide Split, ParseSignatures, Scanned, Parse, Joined, WellFormedSignature, HintedBase64, BlankAt;
    var lines := SignatureLines(n.signatures);
    ParsePrintedSignatures(n.signatures);
    PrintedLinesAreLines(n.signatures);
    NoBlankInLines(lines);
    SplitJoined(lines);
    ParseAt(n.text, Joined(lines), lines);
  }

  /** A scanned signature line is at least as long as the line printed for what it says. */
  lemma ScanLength(line: string)
    requires ScanSignature(line).Some?
    ensures var (name, word) := ScanSignature(line).value;
            && IsWord(name) && IsWord(word)
            && ByteLength([EM_DASH] + " " + name + " ") + ByteLength(word) <= ByteLength(line)
  {
    hide SkipSpace, TakeWord;
    var (name, word) := ScanSignature(line).value;
    var s := SkipSpace(line[1..]);
    var t := SkipSpace(s[|name|..]);
    SkipSpaceShortens(line[1..]);
    TakeWordBytes(s);
    SkipSpaceShortens(s[|name|..]);
    TakeWordBytes(t);
    assert ByteLength(line) == CharLength(EM_DASH) + ByteLength(line[1..]);
    ByteLengthConcat([EM_DASH] + " " + name, " ");
    ByteLengthConcat([EM_DASH] + " ", name);
    assert ByteLength(" ") == 1;
    assert ([EM_DASH] + " ")[1..] == " ";
    assert ByteLength([EM_DASH] + " ") == CharLength(EM_DASH) + 1;
  }

  lemma {:induction false} WordHasNoBreaks(w: string)
    requires SpaceFree(w)
    ensures Base64.WithoutBreaks(w) == w
  {
    Base64.WithoutBreaksIdentity(w);
  }

  lemma ParsedSignature(line: string)
    requires ParseSignature(line).Ok? && ByteLength(line) < LINE_LIMIT
    ensures WellFormedSignature(ParseSignature(line).value)
  {
    hide ScanSignature, ByteLength, Base64.Encode, Base64.DecodeGroups, Base64.WithoutBreaks, PutUint32, ReadUint32,
      IsWord;
    var (name, word) := ScanSignature(line).value;
    var bytes := Base64.Decode(word).value;
    var sig := ParseSignature(line).value;
    ScanLength(line);
    Base64.RoundTrip(bytes[4..]);
    HintBytesRoundTrip(bytes);
    assert HintedBase64(sig) == Base64.Encode(bytes);
    CanonicalIsShorter(word, bytes);
    ByteLengthConcat([EM_DASH] + " " + name + " ", HintedBase64(sig));
  }

  lemma CanonicalIsShorter(word: string, bytes: Bytes)
    requires IsWord(word) && Base64.Decode(word) == Some(bytes)
    ensures ByteLength(Base64.Encode(bytes)) <= ByteLength(word)
  {
    hide ByteLength, Base64.Encode, Base64.DecodeGroups, Base64.WithoutBreaks, Base64.IsSymbol;
    WordHasNoBreaks(word);
    Base64.DecodedGroupsLength(word);
    Base64.EncodeSymbols(bytes);
    AsciiLength(Base64.Encode(bytes), word);
  }

  /** Of two strings of one length, one of base64 symbols is never longer in bytes. */
  lemma {:induction false} AsciiLength(s: string, t: string)
    requires |s| == |t| && forall i :: 0 <= i < |s| ==> Base64.IsSymbol(s[i])
    ensures ByteLength(s) <= ByteLength(t)
  {
    if s != "" {
      AsciiLength(s[1..], t[1..]);
    }
  }

  lemma {:induction false} ParsedSignatures(lines: seq<string>)
    requires ParseSignatures(Scanned(lines)).Ok?
    ensures forall i :: 0 <= i < |ParseSignatures(Scanned(lines)).value| ==>
                          WellFormedSignature(ParseSignatures(Scanned(lines)).value[i])
  {
    if lines != [] && ByteLength(lines[0]) < LINE_LIMIT {
      assert Scanned(lines)[1..] == Scanned(lines[1..]);
      ParsedSignatures(lines[1..]);
      DropCRShortens(lines[0]);
      ParsedSignature(DropCR(lines[0]));
    }
  }

  lemma DropCRShortens(line: string)
    ensures ByteLength(DropCR(line)) <= ByteLength(line)
  {
    if line != "" {
      var n := |line| - 1;
      assert line == line[..n] + line[n..];
      ByteLengthConcat(line[..n], line[n..]);
    }
  }

  /** Whatever is accepted is well formed. */
  lemma ParsedIsWellFormed(data: string)
    requires Parse(data).Ok?
    ensures WellFormed(Parse(data).value)
  {
    hide Split, ParseSignatures, Scanned, WellFormedSignature;
    var split := LastBlank(data);
    var lines := Split(data[split + 2..]);
    ParsedSignatures(lines[..|lines| - 1]);
  }

  /** A note survives printing exactly when it is well formed. */
  lemma RoundTripIffWellFormed(n: Note)
    ensures Parse(Print(n)) == Ok(n) <==> WellFormed(n)
  {
    if WellFormed(n) {
      ParsePrint(n);
    } else if Parse(Print(n)) == Ok(n) {
      ParsedIsWellFormed(Print(n));
    }
  }

  /** Parse, print, parse equals parse on every accepted input. */
  lemma ParsePrintParse(data: string)
    requires Parse(data).Ok?
    ensures Parse(Print(Parse(data).value)) == Parse(data)
  {
    ParsedIsWellFormed(data);
    ParsePrint(Parse(data).value);
  }

  // ----- Long lines -----

  /** Every line is delivered exactly when none reaches 64 KiB. */
  lemma {:induction false} ScannedAll(lines: seq<string>)
    ensures |Scanned(lines)| == |lines| <==> forall i :: 0 <= i < |lines| ==> ByteLength(lines[i]) < LINE_LIMIT
    ensures |Scanned(lines)| <= |lines|
  {
    hide ByteLength, DropCR;
    if lines != [] {
      ScannedAll(lines[1..]);
      assert lines == [lines[0]] + lines[1..];
      if forall i :: 0 <= i < |lines[1..]| ==> ByteLength(lines[1..][i]) < LINE_LIMIT {
      } else {
        var i :| 0 <= i < |lines[1..]| && ByteLength(lines[1..][i]) >= LINE_LIMIT;
        assert lines[i + 1] == lines[1..][i];
      }
    }
  }

  lemma {:induction false} ScannedStops(lines: seq<string>, long: string, more: seq<string>)
    requires ByteLength(long) >= LINE_LIMIT
    ensures Scanned(lines + [long] + more) == Scanned(lines)
  {
    hide ByteLength, DropCR;
    var all := lines + [long] + more;
    if lines != [] {
      assert all[1..] == lines[1..] + [long] + more;
      ScannedStops(lines[1..], long, more);
    }
  }

  /** A signature line of 64 KiB or more is dropped without an error, with every signature after it. */
  lemma LongLineHidesTheRest(n: Note, long: string, more: seq<string>)
    requires WellFormed(n)
    requires ByteLength(long) >= LINE_LIMIT
    requires forall line :: line in [long] + more ==> LineFree(line) && line != "" && line[0] == EM_DASH
    ensures Parse(n.text + "\n" + Joined(SignatureLines(n.signatures) + [long] + more)) == Ok(n)
  {
    hide Split, ParseSignatures, Scanned, Parse, Joined, WellFormedSignature, HintedBase64, BlankAt, ByteLength,
      LineFree;
    var lines := SignatureLines(n.signatures);
    var all := lines + [long] + more;
    ParsePrintedSignatures(n.signatures);
    PrintedLinesAreLines(n.signatures);
    ScannedStops(lines, long, more);
    forall i | 0 <= i < |all|
      ensures LineFree(all[i]) && all[i] != "" && all[i][0] == EM_DASH
    {
      if i >= |lines| {
        assert all[i] == ([long] + more)[i - |lines|];
      }
    }
    NoBlankInLines(all);
    SplitJoined(all);
    ParseAt(n.text, Joined(all), all);
  }

  // ----- Signing and verifying -----

  /** `Sign` appends the signer's signature over the text. */
  function SignOne(scheme: Scheme, text: string, identity: string, signer: Signer): Option<Signature> {
    var sig, hint := scheme.sign(signer, text), scheme.hint(signer.key);
    if sig.None? || hint.None? then None
    else Some(Signature(identity, hint.value, Base64.Encode(sig.value)))
  }

  /** Signature `i` is the first with the key's hint. */
  predicate FirstWithHint(sigs: seq<Signature>, hint: Hint, i: int) {
    && 0 <= i < |sigs| && sigs[i].hint == hint
    && forall j :: 0 <= j < i ==> sigs[j].hint != hint
  }

  predicate SignatureHolds(scheme: Scheme, key: Key, sig: Signature, text: string) {
    var bytes := Base64.Decode(sig.base64);
    bytes.Some? && scheme.verify(key, bytes.value, text)
  }

  /** A key accepts a note when the first signature carrying its hint holds. */
  predicate Verifies(scheme: Scheme, n: Note, key: Key) {
    var hint := scheme.hint(key);
    hint.Some?
    && exists i :: && 0 <= i < |n.signatures| && FirstWithHint(n.signatures, hint.value, i)
                   && SignatureHolds(scheme, key, n.signatures[i], n.text)
  }

  /** Every one of the keys, and at least one, accepts. */
  predicate VerifiesAll(scheme: Scheme, n: Note, keys: seq<Key>) {
    n.signatures != [] && keys != [] && forall k :: 0 <= k < |keys| ==> Verifies(scheme, n, keys[k])
  }

  /** The note `SignedNote` in memory. */
  class SignedNote {
    var text: string
    var signatures: seq<Signature>

    ghost function Contents(): Note
      reads this
    {
      Note(text, signatures)
    }

    constructor (text: string)
      ensures Contents() == Note(text, [])
    {
      this.text := text;
      this.signatures := [];
    }

    method Sign(scheme: Scheme, identity: string, signer: Signer) returns (r: Result<Signature>)
      modifies this`signatures
      ensures match SignOne(scheme, text, identity, signer)
              case None => r.Err? && signatures == old(signatures)
              case Some(sig) => r == Ok(sig) && signatures == old(signatures) + [sig]
    {
      var sig := scheme.sign(signer, text);
      if sig.None? {
        return Err("signing note");
      }
      var hint := scheme.hint(signer.key);
      if hint.None? {
        return Err("computing key identity");
      }
      var signature := Signature(identity, hint.value, Base64.Encode(sig.value));
      signatures := signatures + [signature];
      r := Ok(signature);
    }

    method Verify(scheme: Scheme, key: Key) returns (ok: bool)
      ensures ok == Verifies(scheme, Contents(), key)
    {
      if |signatures| == 0 {
        return false;
      }
      var hint := scheme.hint(key);
      if hint.None? {
        return false;
      }
      for i := 0 to |signatures|
        invariant forall j :: 0 <= j < i ==> signatures[j].hint != hint.value
      {
        if signatures[i].hint == hint.value {
          assert forall j :: FirstWithHint(signatures, hint.value, j) <==> j == i;
          var bytes := Base64.Decode(signatures[i].base64);
          return bytes.Some? && scheme.verify(key, bytes.value, text);
        }
      }
      return false;
    }

    method VerifyAll(scheme: Scheme, keys: seq<Key>) returns (ok: bool)
      ensures ok == VerifiesAll(scheme, Contents(), keys)
    {
      if |signatures| == 0 || |keys| == 0 {
        return false;
      }
      for k := 0 to |keys|
        invariant forall j :: 0 <= j < k ==> Verifies(scheme, Contents(), keys[j])
      {
        var good := Verify(scheme, keys[k]);
        if !good {
          return false;
        }
      }
      return true;
    }

    method String() returns (s: string)
      ensures s == Print(Contents())
    {
      s := text + "\n";
      var lines := SignatureLines(signatures);
      for i := 0 to |signatures|
        invariant s + Joined(lines[i..]) == Print(Contents())
      {
        assert lines[i..][1..] == lines[i + 1..];
        assert s + Joined(lines[i..]) == s + lines[i] + "\n" + Joined(lines[i + 1..]);
        var hinted := Base64.Encode(PutUint32(signatures[i].hint) + SignatureBytes(signatures[i].base64));
        s := s + ([EM_DASH] + " " + signatures[i].name + " " + hinted) + "\n";
      }
    }

    /** Overwrites the note on success and leaves it alone on every error. */
    method UnmarshalText(data: string) returns (r: Result<()>)
      modifies this
      ensures match Parse(data)
              case Ok(n) => r.Ok? && Contents() == n
              case Err(e) => r == Err(e) && Contents() == old(Contents())
    {
      hide ParseSignatures, Scanned, Split;
      var split := LastBlank(data);
      if split < 0 {
        return Err("malformed note");
      }
      var newText, rest := data[..split + 1], data[split + 2..];
      if |rest| == 0 || rest[|rest| - 1] != '\n' {
        return Err("malformed note");
      }
      var lines := Split(rest);
      var sigs := ScanSignatures(Scanned(lines[..|lines| - 1]));
      if sigs.Err? {
        return Err(sigs.error);
      }
      if |sigs.value| == 0 {
        return Err("no signatures found in input");
      }
      text, signatures := newText, sigs.value;
      r := Ok(());
    }
  }

  /** The loop of `UnmarshalText` over the scanned lines. */
  method ScanSignatures(scanned: seq<string>) returns (r: Result<seq<Signature>>)
    ensures r == ParseSignatures(scanned)
  {
    hide ParseSignature;
    var sigs: seq<Signature> := [];
    assert scanned[0..] == scanned;
    for i := 0 to |scanned|
      invariant ParseSignatures(scanned[i..]).Ok? ==>
                  && ParseSignatures(scanned).Ok?
                  && ParseSignatures(scanned).value == sigs + ParseSignatures(scanned[i..]).value
      invariant ParseSignatures(scanned[i..]).Err? ==> ParseSignatures(scanned) == ParseSignatures(scanned[i..])
    {
      assert scanned[i..][0] == scanned[i] && scanned[i..][1..] == scanned[i + 1..];
      var sig := ParseSignature(scanned[i]);
      if sig.Err? {
        return Err(sig.error);
      }
      sigs := sigs + [sig.value];
    }
    assert scanned[|scanned|..] == [] && sigs + [] == sigs;
    assert ParseSignatures([]) == Ok([]);
    r := Ok(sigs);
  }

  /** Without a key nothing is verified, not even a note without signatures. */
  lemma NoKeysVerifyNothing(scheme: Scheme, n: Note)
    ensures !VerifiesAll(scheme, n, [])
    ensures n.signatures == [] ==> forall keys :: !VerifiesAll(scheme, n, keys)
  {
  }

  /** A carriage return before the end of a line is not part of the line. */
  lemma CarriageReturnIsDropped(lines: seq<string>)
    requires lines != [] && ByteLength(lines[0] + "\r") < LINE_LIMIT
    ensures Scanned([lines[0] + "\r"] + lines[1..]) == [lines[0]] + Scanned(lines[1..])
  {
    assert ([lines[0] + "\r"] + lines[1..])[1..] == lines[1..];
    assert (lines[0] + "\r")[..|lines[0]|] == lines[0];
  }

  lemma KnownLine()
    ensures SignatureLine(Signature("n", 0x01020304, "BQYH")) == "\U{2014} n AQIDBAUGBw=="
  {
    hide Base64.Encode, Base64.Decode, PutUint32;
    KnownHinted();
    Base64.RoundTrip([5, 6, 7]);
    KnownHints();
    assert PutUint32(0x01020304) + [5, 6, 7] == [1, 2, 3, 4, 5, 6, 7];
  }

  /** The format itself, on one note. */
  lemma KnownNote()
    ensures Print(Note("a\n", [Signature("n", 0x01020304, "BQYH")])) == "a\n\n\U{2014} n AQIDBAUGBw==\n"
  {
    hide SignatureLine;
    KnownLine();
    var line := SignatureLine(Signature("n", 0x01020304, "BQYH"));
    assert SignatureLines([Signature("n", 0x01020304, "BQYH")]) == [line];
    assert Joined([line]) == line + "\n" by {
      assert [line][1..] == [] && Joined([]) == "" && line + "\n" + "" == line + "\n";
    }
  }

  lemma KnownHinted()
    ensures Base64.Encode([5, 6, 7]) == "BQYH" && Base64.Encode([1, 2, 3, 4, 5, 6, 7]) == "AQIDBAUGBw=="
  {
    assert [1, 2, 3, 4, 5, 6, 7][3..] == [4, 5, 6, 7] && [4, 5, 6, 7][3..] == [7];
    assert Base64.Encode([7]) == "Bw==";
    assert Base64.Encode([4, 5, 6, 7]) == "BAUGBw==";
  }
}

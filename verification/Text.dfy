/** Lines, blank lines and words, as `bytes`, `bufio` and `fmt` find them. */
module Text {
  import opened Basics

  const LINE_LIMIT := 65536

  /** White space as `fmt` scans it. */
  predicate IsSpace(c: char) {
    var n := c as int;
    || 0x09 <= n <= 0x0d || n == 0x20 || n == 0x85 || n == 0xa0 || n == 0x1680 || 0x2000 <= n <= 0x200a
    || 0x2028 <= n <= 0x2029 || n == 0x202f || n == 0x205f || n == 0x3000
  }

  predicate SpaceFree(s: string) { forall i :: 0 <= i < |s| ==> !IsSpace(s[i]) }

  predicate LineFree(s: string) { forall i :: 0 <= i < |s| ==> s[i] != '\n' }

  predicate IsWord(s: string) { s != "" && SpaceFree(s) }

  /** The length of a string in UTF-8 bytes. */
  function ByteLength(s: string): nat {
    if s == "" then 0 else CharLength(s[0]) + ByteLength(s[1..])
  }

  function CharLength(c: char): (n: nat)
    ensures 1 <= n
  {
    var v := c as int;
    if v < 0x80 then 1 else if v < 0x800 then 2 else if v < 0x10000 then 3 else 4
  }

  lemma {:induction false} ByteLengthConcat(s: string, t: string)
    ensures ByteLength(s + t) == ByteLength(s) + ByteLength(t)
  {
    if s == "" {
      assert s + t == t;
    } else {
      ByteLengthConcat(s[1..], t);
      assert (s + t)[1..] == s[1..] + t;
    }
  }

  // ----- Lines -----

  /** `bytes.Split(s, "\n")`. */
  function Split(s: string): (lines: seq<string>)
    ensures lines != []
  {
    if s == "" then [""]
    else
      var rest := Split(s[1..]);
      if s[0] == '\n' then [""] + rest else [[s[0]] + rest[0]] + rest[1..]
  }

  /** The lines, each ended by a newline. */
  function Joined(lines: seq<string>): string {
    if lines == [] then "" else lines[0] + "\n" + Joined(lines[1..])
  }

  lemma {:induction false} SplitFirst(line: string, rest: string)
    requires LineFree(line)
    ensures Split(line + "\n" + rest) == [line] + Split(rest)
  {
    var s := line + "\n" + rest;
    if line == "" {
      assert s[1..] == rest;
    } else {
      SplitFirst(line[1..], rest);
      assert s[1..] == line[1..] + "\n" + rest;
      assert s[0] == line[0] && line == [line[0]] + line[1..];
      assert Split(s[1..])[1..] == Split(rest);
    }
  }

  /** Splitting undoes joining, leaving the empty string after the last newline. */
  lemma {:induction false} SplitJoined(lines: seq<string>)
    requires forall i :: 0 <= i < |lines| ==> LineFree(lines[i])
    ensures Split(Joined(lines)) == lines + [""]
  {
    if lines != [] {
      SplitJoined(lines[1..]);
      SplitFirst(lines[0], Joined(lines[1..]));
      assert lines == [lines[0]] + lines[1..];
    }
  }

  /** The first line and what comes after it. */
  lemma {:induction false} SplitRest(s: string) returns (rest: string)
    requires |Split(s)| > 1
    ensures s == Split(s)[0] + "\n" + rest && Split(rest) == Split(s)[1..]
  {
    if s[0] == '\n' {
      rest := s[1..];
    } else {
      rest := SplitRest(s[1..]);
      assert Split(s)[1..] == Split(s[1..])[1..];
      assert s == [s[0]] + s[1..];
    }
  }

  /** No line contains a newline. */
  lemma {:induction false} SplitLineFree(s: string, i: nat)
    requires i < |Split(s)|
    ensures LineFree(Split(s)[i])
  {
    if s != "" {
      if s[0] == '\n' {
        if i > 0 {
          SplitLineFree(s[1..], i - 1);
        }
      } else {
        SplitLineFree(s[1..], i);
      }
    }
  }

  // ----- Blank lines -----

  predicate BlankAt(s: string, i: int) {
    0 <= i < |s| - 1 && s[i] == '\n' && s[i + 1] == '\n'
  }

  /** `bytes.LastIndex(s, "\n\n")`. */
  function LastBlank(s: string): (i: int)
    ensures i == -1 || BlankAt(s, i)
    ensures forall j :: i < j ==> !BlankAt(s, j)
  {
    LastBlankBelow(s, |s|)
  }

  function LastBlankBelow(s: string, n: nat): (i: int)
    ensures i == -1 || (i < n && BlankAt(s, i))
    ensures forall j :: i < j < n ==> !BlankAt(s, j)
  {
    if n == 0 then -1 else if BlankAt(s, n - 1) then n - 1 else LastBlankBelow(s, n - 1)
  }

  // ----- Words -----

  function SkipSpace(s: string): (r: string)
    ensures r != "" ==> !IsSpace(r[0])
  {
    if s != "" && IsSpace(s[0]) then SkipSpace(s[1..]) else s
  }

  function TakeWord(s: string): (w: string)
    ensures |w| <= |s| && w == s[..|w|] && SpaceFree(w)
    ensures |w| < |s| ==> IsSpace(s[|w|])
    ensures s != "" && !IsSpace(s[0]) ==> w != ""
  {
    if s == "" || IsSpace(s[0]) then "" else [s[0]] + TakeWord(s[1..])
  }

  lemma {:induction false} TakeWordPrefix(w: string, rest: string)
    requires SpaceFree(w) && (rest == "" || IsSpace(rest[0]))
    ensures TakeWord(w + rest) == w
  {
    if w == "" {
      assert w + rest == rest;
    } else {
      assert (w + rest)[1..] == w[1..] + rest;
      TakeWordPrefix(w[1..], rest);
    }
  }

  lemma {:induction false} SkipSpaceShortens(s: string)
    ensures ByteLength(SkipSpace(s)) <= ByteLength(s)
    ensures s != "" && IsSpace(s[0]) ==> ByteLength(SkipSpace(s)) + 1 <= ByteLength(s)
  {
    if s != "" && IsSpace(s[0]) {
      SkipSpaceShortens(s[1..]);
    }
  }

  lemma TakeWordBytes(s: string)
    ensures ByteLength(s) == ByteLength(TakeWord(s)) + ByteLength(s[|TakeWord(s)|..])
  {
    var w := TakeWord(s);
    assert s == w + s[|w|..];
    ByteLengthConcat(w, s[|w|..]);
  }
}

/** The command file: arguments a line each, read through a buffer of fixed size. */
module CommandFile {
  import opened Bytes
  import opened CStrings

  const MAX_ARG_LENGTH: nat := 4096

  predicate LineEnd(c: char) {
    c == '\r' || c == '\n'
  }

  /** How much one fgets takes: up to a newline, to the end, or as much as there is room for. */
  function PieceLength(s: seq<char>, room: nat): (n: nat)
    ensures n <= |s| && n <= room && (s != [] && room > 0 ==> n > 0)
    ensures forall i :: 0 <= i < n - 1 ==> s[i] != '\n'
    ensures n < |s| && n < room ==> n > 0 && s[n - 1] == '\n'
  {
    if s == [] || room == 0 then 0
    else if s[0] == '\n' then 1
    else 1 + PieceLength(s[1..], room - 1)
  }

  /** The text up to a line end or NUL. */
  function Stem(s: seq<char>): (t: seq<char>)
    ensures t <= s && NUL !in t && '\r' !in t && '\n' !in t
    ensures |t| < |s| ==> s[|t|] in {NUL, '\r', '\n'}
  {
    if s == [] || s[0] == NUL || LineEnd(s[0]) then [] else [s[0]] + Stem(s[1..])
  }

  /** What strtok takes from the string in the buffer: the first run without line ends. */
  function Token(s: seq<char>): (t: Option<seq<char>>)
    ensures t.Some? ==> t.value != [] && NUL !in t.value && '\r' !in t.value && '\n' !in t.value
  {
    if s == [] || s[0] == NUL then None
    else if LineEnd(s[0]) then Token(s[1..])
    else Some(Stem(s))
  }

  function Behind(lines: seq<seq<char>>, rest: Option<seq<seq<char>>>): Option<seq<seq<char>>> {
    if rest.None? then None else Some(lines + rest.value)
  }

  /** The lines of a file as far as they are wanted. None: a piece had no token, and a missing string was to be copied. */
  function FileLines(file: seq<char>, wanted: nat): (lines: Option<seq<seq<char>>>)
    ensures lines.Some? ==> |lines.value| <= wanted && forall i :: 0 <= i < |lines.value| ==> NUL !in lines.value[i]
    decreases wanted
  {
    if file == [] || wanted == 0 then Some([])
    else
      var n := PieceLength(file, MAX_ARG_LENGTH - 1);
      var first := Token(file[..n]);
      if first.None? then None else Behind([first.value], FileLines(file[n..], wanted - 1))
  }

  /** The program's name and the lines of the file, at most so many together. */
  method ReadLines(argv0: seq<char>, file: seq<char>, most: nat) returns (args: Option<seq<seq<char>>>)
    requires most > 0
    ensures args == Behind([argv0], FileLines(file, most - 1))
  {
    hide FileLines;
    var done, pos := [argv0], 0;
    assert file[0..] == file;
    while |done| < most && pos < |file|
      invariant 0 <= pos <= |file| && 0 < |done| <= most
      invariant Behind([argv0], FileLines(file, most - 1)) == Behind(done, FileLines(file[pos..], most - |done|))
      decreases most - |done|
    {
      var n := PieceLength(file[pos..], MAX_ARG_LENGTH - 1);
      var line := Token(file[pos..][..n]);
      NextLine(file[pos..], most - |done|);
      if line == None { return None; }
      assert file[pos..][n..] == file[pos + n..];
      BehindBehind(done, [line.value], FileLines(file[pos + n..], most - |done| - 1));
      done, pos := done + [line.value], pos + n;
    }
    NextLine(file[pos..], most - |done|);
    BehindNone(done);
    args := Some(done);
  }

  lemma NextLine(file: seq<char>, wanted: nat)
    ensures file == [] || wanted == 0 ==> FileLines(file, wanted) == Some([])
    ensures file != [] && wanted > 0 ==>
      var n := PieceLength(file, MAX_ARG_LENGTH - 1);
      var first := Token(file[..n]);
      FileLines(file, wanted) == if first.None? then None else Behind([first.value], FileLines(file[n..], wanted - 1))
  {
  }

  lemma BehindNone(lines: seq<seq<char>>)
    ensures Behind(lines, Some([])) == Some(lines)
  {
    assert lines + [] == lines;
  }

  lemma NoneBehind(rest: Option<seq<seq<char>>>)
    ensures Behind([], rest) == rest
  {
    if rest.Some? { assert [] + rest.value == rest.value; }
  }

  lemma BehindBehind(a: seq<seq<char>>, b: seq<seq<char>>, rest: Option<seq<seq<char>>>)
    ensures Behind(a, Behind(b, rest)) == Behind(a + b, rest)
  {
    if rest.Some? { assert a + (b + rest.value) == a + b + rest.value; }
  }

  /** There is a token exactly when something but line ends stands in front of the first NUL. */
  lemma {:induction false} TokenExactly(s: seq<char>)
    ensures Token(s) == None <==> forall i :: 0 <= i < Length(s) ==> LineEnd(s[i])
  {
    if s != [] && s[0] != NUL && LineEnd(s[0]) {
      TokenExactly(s[1..]);
      assert Length(s) == 1 + Length(s[1..]);
      assert forall i :: 0 <= i < Length(s[1..]) ==> s[1..][i] == s[i + 1];
      assert forall i :: 1 <= i < Length(s) ==> s[i] == s[1..][i - 1];
    }
  }

  /** And it is what stands behind the first line ends, up to a line end or a NUL. */
  lemma {:induction false} TokenPlace(s: seq<char>) returns (k: nat)
    requires Token(s).Some?
    ensures k <= |s| && Token(s).value <= s[k..] && forall i :: 0 <= i < k ==> s[i] == '\r' || s[i] == '\n'
    ensures k + |Token(s).value| < |s| ==> s[k + |Token(s).value|] in {NUL, '\r', '\n'}
  {
    if LineEnd(s[0]) {
      k := TokenPlace(s[1..]);
      assert s[1..][k..] == s[k + 1..];
      k := k + 1;
    } else {
      k := 0;
      assert s[0..] == s;
    }
  }

  // What a well-formed file gives

  /** A line that one call reads together with its end. */
  predicate Plain(line: seq<char>, end: seq<char>) {
    line != [] && NUL !in line && '\r' !in line && '\n' !in line && |line| + |end| < MAX_ARG_LENGTH
  }

  predicate Ending(end: seq<char>) {
    end == "\n" || end == "\r\n"
  }

  /** The lines with an end behind each. */
  function Ended(lines: seq<seq<char>>, end: seq<char>): seq<char> {
    if lines == [] then [] else lines[0] + end + Ended(lines[1..], end)
  }

  lemma {:induction false} PieceIsLine(line: seq<char>, more: seq<char>, room: nat)
    requires '\n' !in line && |line| < room
    ensures PieceLength(line + ['\n'] + more, room) == |line| + 1
  {
    if line != [] {
      assert (line + ['\n'] + more)[1..] == line[1..] + ['\n'] + more;
      PieceIsLine(line[1..], more, room - 1);
    }
  }

  lemma {:induction false} StemIsLine(line: seq<char>, more: seq<char>)
    requires NUL !in line && '\r' !in line && '\n' !in line
    requires more == [] || LineEnd(more[0])
    ensures Stem(line + more) == line
  {
    if line == [] {
      assert line + more == more;
    } else {
      assert (line + more)[1..] == line[1..] + more;
      StemIsLine(line[1..], more);
    }
  }

  /** A plain line in front of the rest of the file. */
  lemma OneLine(line: seq<char>, end: seq<char>, rest: seq<char>, wanted: nat)
    requires Ending(end) && Plain(line, end) && wanted > 0
    ensures FileLines(line + end + rest, wanted) == Behind([line], FileLines(rest, wanted - 1))
  {
    var file := line + end + rest;
    var n := |line| + |end|;
    assert file == line + end[..|end| - 1] + ['\n'] + rest;
    PieceIsLine(line + end[..|end| - 1], rest, MAX_ARG_LENGTH - 1);
    assert file[..n] == line + end && file[n..] == rest;
    StemIsLine(line, end);
  }

  ghost predicate AllPlain(lines: seq<seq<char>>, end: seq<char>) {
    forall i :: 0 <= i < |lines| ==> Plain(lines[i], end)
  }

  /** Plain lines are read off one by one, whatever stands behind them. */
  lemma {:induction false} LinesRead(lines: seq<seq<char>>, end: seq<char>, rest: seq<char>, wanted: nat)
    requires Ending(end) && AllPlain(lines, end) && |lines| <= wanted
    ensures FileLines(Ended(lines, end) + rest, wanted) == Behind(lines, FileLines(rest, wanted - |lines|))
    decreases |lines|
  {
    hide FileLines, Plain;
    if lines == [] {
      assert Ended(lines, end) + rest == rest;
      NoneBehind(FileLines(rest, wanted));
    } else {
      var tail := Ended(lines[1..], end) + rest;
      assert Ended(lines, end) + rest == lines[0] + end + tail;
      OneLine(lines[0], end, tail, wanted);
      LinesRead(lines[1..], end, rest, wanted - 1);
      assert lines == [lines[0]] + lines[1..];
      BehindBehind([lines[0]], lines[1..], FileLines(rest, wanted - |lines|));
    }
  }

  lemma {:induction false} EndedSplit(lines: seq<seq<char>>, end: seq<char>, k: nat)
    requires k <= |lines|
    ensures Ended(lines, end) == Ended(lines[..k], end) + Ended(lines[k..], end)
  {
    if k > 0 {
      EndedSplit(lines[1..], end, k - 1);
      assert lines[..k][1..] == lines[1..][..k - 1] && lines[k..] == lines[1..][k - 1..];
    } else {
      assert lines[0..] == lines;
    }
  }

  /** A file of plain lines gives them back, as many as are wanted, with or without an end behind the last. */
  lemma FileRead(lines: seq<seq<char>>, end: seq<char>, last: seq<char>, wanted: nat)
    requires Ending(end) && AllPlain(lines, end) && (last != [] ==> Plain(last, []))
    ensures var all := if last == [] then lines else lines + [last];
      FileLines(Ended(lines, end) + last, wanted) == Some(all[..Min(|all|, wanted)])
  {
    hide FileLines, Plain;
    if |lines| < wanted {
      LinesRead(lines, end, last, wanted);
      if last != [] {
        LastLine(last, wanted - |lines|);
        assert (lines + [last])[..|lines| + 1] == lines + [last];
      } else {
        NextLine(last, wanted - |lines|);
        BehindNone(lines);
        assert lines[..|lines|] == lines;
      }
    } else {
      EndedSplit(lines, end, wanted);
      var rest := Ended(lines[wanted..], end) + last;
      assert Ended(lines, end) + last == Ended(lines[..wanted], end) + rest;
      LinesRead(lines[..wanted], end, rest, wanted);
      NextLine(rest, 0);
      BehindNone(lines[..wanted]);
      assert (lines + [last])[..wanted] == lines[..wanted];
    }
  }

  lemma LastLine(last: seq<char>, wanted: nat)
    requires Plain(last, []) && wanted > 0
    ensures FileLines(last, wanted) == Some([last])
  {
    PieceIsAll(last, MAX_ARG_LENGTH - 1);
    assert last[..|last|] == last && last[|last|..] == [];
    assert last + [] == last;
    StemIsLine(last, []);
    NextLine([], wanted - 1);
    BehindNone([last]);
  }

  lemma {:induction false} PieceIsAll(s: seq<char>, room: nat)
    requires '\n' !in s && |s| <= room
    ensures PieceLength(s, room) == |s|
  {
    if s != [] { PieceIsAll(s[1..], room - 1); }
  }

  lemma {:induction false} PieceIsRoom(s: seq<char>, more: seq<char>, room: nat)
    requires '\n' !in s && |s| == room
    ensures PieceLength(s + more, room) == room
  {
    if s != [] {
      assert (s + more)[1..] == s[1..] + more;
      PieceIsRoom(s[1..], more, room - 1);
    }
  }

  /** A longer line is cut after 4095 bytes, and the rest taken for another. */
  lemma LongLine(front: seq<char>, rest: seq<char>, wanted: nat)
    requires |front| == 4095 && NUL !in front && '\r' !in front && '\n' !in front && wanted > 0
    ensures FileLines(front + rest, wanted) == Behind([front], FileLines(rest, wanted - 1))
  {
    PieceIsRoom(front, rest, 4095);
    var file := front + rest;
    assert file[..4095] == front && file[4095..] == rest;
    assert front + [] == front;
    StemIsLine(front, []);
    hide PieceLength, Stem;
    NextLine(file, wanted);
    assert Token(front) == Some(Stem(front));
  }

  /** An empty line that is reached breaks the reading off. */
  lemma BlankLine(lines: seq<seq<char>>, end: seq<char>, rest: seq<char>, wanted: nat)
    requires Ending(end) && AllPlain(lines, end) && |lines| < wanted
    ensures FileLines(Ended(lines, end) + (end + rest), wanted) == None
  {
    hide PieceLength, Stem, Token, Plain, AllPlain, Ended, FileLines;
    LinesRead(lines, end, end + rest, wanted);
    EndAlone(end, rest);
    NextLine(end + rest, wanted - |lines|);
  }

  lemma EndAlone(end: seq<char>, rest: seq<char>)
    requires Ending(end)
    ensures PieceLength(end + rest, MAX_ARG_LENGTH - 1) == |end| > 0 && (end + rest)[..|end|] == end && Token(end) == None
  {
    assert end + rest == end[..|end| - 1] + ['\n'] + rest;
    PieceIsLine(end[..|end| - 1], rest, MAX_ARG_LENGTH - 1);
    TokenExactly(end);
  }

  /** Two lines, with either kind of end. */
  lemma LinesExample()
    ensures FileLines("--wipe_data\n--locale=en\n", 99) == Some(["--wipe_data", "--locale=en"])
    ensures FileLines("--wipe_data\r\n--locale=en", 99) == Some(["--wipe_data", "--locale=en"])
  {
    var first, second := "--wipe_data", "--locale=en";
    PlainTwo();
    hide FileLines, Ended, Plain, AllPlain, Ending, PieceLength, Token, Stem, Behind;
    EndedTwo(first, second, "\n");
    EndedOne(first, "\r\n");
    FileRead([first, second], "\n", [], 99);
    FileRead([first], "\r\n", second, 99);
    assert [first] + [second] == [first, second] && [first, second][..2] == [first, second];
    assert first + "\n" + second + "\n" + [] == "--wipe_data\n--locale=en\n";
    assert first + "\r\n" + second == "--wipe_data\r\n--locale=en";
  }

  lemma PlainTwo()
    ensures Plain("--wipe_data", "\n") && Plain("--locale=en", "\n") && Plain("--wipe_data", "\r\n") && Plain("--locale=en", [])
    ensures AllPlain(["--wipe_data", "--locale=en"], "\n") && AllPlain(["--wipe_data"], "\r\n")
    ensures Ending("\n") && Ending("\r\n")
  {
  }

  lemma EndedOne(line: seq<char>, end: seq<char>)
    ensures Ended([line], end) == line + end
  {
    assert [line][1..] == [];
  }

  lemma EndedTwo(first: seq<char>, second: seq<char>, end: seq<char>)
    ensures Ended([first, second], end) == first + end + second + end
  {
    assert [first, second][1..] == [second];
    EndedOne(second, end);
  }
}

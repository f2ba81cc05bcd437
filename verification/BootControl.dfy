/** The bootloader control block: the arguments of a recovery run, kept across reboots. */
module BootControl {
  import opened Bytes
  import opened Slices
  import opened CStrings
  import opened CommandFile

  const FIELD: nat := 768
  const MAX_ARGS: nat := 100

  // Lines

  /** How far a line goes. */
  function LineLength(s: seq<char>): (n: nat)
    ensures n <= |s| && '\n' !in s[..n] && (n < |s| ==> s[n] == '\n')
    ensures s != [] && s[0] != '\n' ==> n > 0
  {
    if s == [] || s[0] == '\n' then 0
    else
      var n := LineLength(s[1..]);
      assert s[..n + 1] == [s[0]] + s[1..][..n];
      n + 1
  }

  /** The lines of a text, empty ones left out. */
  function Lines(s: seq<char>): seq<seq<char>>
    decreases |s|
  {
    if s == [] then []
    else if s[0] == '\n' then Lines(s[1..])
    else [s[..LineLength(s)]] + Lines(s[LineLength(s)..])
  }

  lemma {:induction false} LineLengthIs(s: seq<char>, n: nat)
    requires n <= |s| && '\n' !in s[..n] && (n < |s| ==> s[n] == '\n')
    ensures LineLength(s) == n
  {
    if n > 0 {
      assert s[..n][0] == s[0];
      assert s[1..][..n - 1] == s[..n][1..];
      LineLengthIs(s[1..], n - 1);
    }
  }

  /** A line put in front. */
  lemma LinesOn(arg: seq<char>, rest: seq<char>)
    requires arg != [] && '\n' !in arg
    ensures Lines(arg + ['\n'] + rest) == [arg] + Lines(rest)
  {
    var s := arg + ['\n'] + rest;
    assert s[..|arg|] == arg && s[|arg|..] == ['\n'] + rest && s[|arg|..][1..] == rest;
    LineLengthIs(s, |arg|);
  }

  /** A last newline makes no difference. */
  lemma {:induction false} LinesLast(s: seq<char>)
    ensures Lines(s + ['\n']) == Lines(s)
    decreases |s|
  {
    var t := s + ['\n'];
    if s == [] {
      assert t[1..] == [];
    } else if s[0] == '\n' {
      assert t[1..] == s[1..] + ['\n'];
      LinesLast(s[1..]);
    } else {
      var n := LineLength(s);
      assert t[..n] == s[..n] && t[n..] == s[n..] + ['\n'];
      LineLengthIs(t, n);
      LinesLast(s[n..]);
    }
  }

  /** The length of the lines with a newline behind each. */
  function Weight(lines: seq<seq<char>>): nat {
    if lines == [] then 0 else |lines[0]| + 1 + Weight(lines[1..])
  }

  ghost predicate Proper(lines: seq<seq<char>>) {
    forall i :: 0 <= i < |lines| ==> lines[i] != [] && '\n' !in lines[i]
  }

  /** Lines are not empty, hold no newline, and fit into the text. */
  lemma {:induction false} LinesProper(s: seq<char>)
    ensures Proper(Lines(s)) && Weight(Lines(s)) <= |s| + 1
    decreases |s|
  {
    if s != [] {
      if s[0] == '\n' {
        LinesProper(s[1..]);
      } else {
        var n := LineLength(s);
        if n < |s| {
          assert s[n..][0] == '\n';
          LinesProper(s[n..][1..]);
          assert Lines(s[n..]) == Lines(s[n..][1..]);
        } else {
          assert s[n..] == [];
        }
        var first, rest := s[..n], Lines(s[n..]);
        assert Lines(s) == [first] + rest && ([first] + rest)[1..] == rest;
      }
    }
  }

  // What is stored

  function Joined(lines: seq<seq<char>>): seq<char> {
    if lines == [] then [] else lines[0] + ['\n'] + Joined(lines[1..])
  }

  lemma {:induction false} JoinedWeight(lines: seq<seq<char>>)
    ensures |Joined(lines)| == Weight(lines)
  {
    if lines != [] { JoinedWeight(lines[1..]); }
  }

  lemma {:induction false} JoinedOn(lines: seq<seq<char>>, more: seq<char>)
    ensures Joined(lines + [more]) == Joined(lines) + (more + ['\n'])
  {
    if lines == [] {
      assert [more][1..] == [];
    } else {
      assert (lines + [more])[1..] == lines[1..] + [more];
      JoinedOn(lines[1..], more);
    }
  }

  lemma {:induction false} LinesJoined(lines: seq<seq<char>>)
    requires Proper(lines)
    ensures Lines(Joined(lines)) == lines
  {
    if lines != [] {
      LinesJoined(lines[1..]);
      LinesOn(lines[0], Joined(lines[1..]));
    }
  }

  const PROGRAM: seq<char> := "recovery"

  /** The program's name and the arguments behind it, one to a line. */
  function Body(args: seq<seq<char>>): seq<char>
    requires |args| > 0
  {
    Joined([PROGRAM] + args[1..])
  }

  /** As much of it as the field holds with a NUL behind it. */
  function Clip(s: seq<char>): (t: seq<char>)
    ensures |t| < FIELD
  {
    s[..Min(|s|, FIELD - 1)]
  }

  function Stored(args: seq<seq<char>>): (t: seq<char>)
    requires |args| > 0
    ensures |t| < FIELD
  {
    Clip(Body(args))
  }

  /** The arguments that a field gives: none when its first line is not the program's name. */
  function Reparsed(text: seq<char>): seq<seq<char>> {
    var lines := Lines(text);
    if lines != [] && lines[0] == PROGRAM then lines[..Min(|lines|, MAX_ARGS)] else []
  }

  /** No argument is empty or holds a newline, there are not too many, and all but the last newline fits the field. */
  ghost predicate Storable(args: seq<seq<char>>)
    requires |args| > 0
  {
    Proper(args[1..]) && |args| <= MAX_ARGS && |Body(args)| <= FIELD
  }

  lemma BodyProper(args: seq<seq<char>>)
    requires |args| > 0
    ensures Proper(args[1..]) <==> Proper([PROGRAM] + args[1..])
  {
    var all := [PROGRAM] + args[1..];
    if Proper(all) {
      assert forall i :: 0 <= i < |args[1..]| ==> args[1..][i] == all[i + 1];
    }
  }

  /** The text of a storable list is read back as its lines. */
  lemma StoredLines(args: seq<seq<char>>)
    requires |args| > 0 && Storable(args)
    ensures Lines(Stored(args)) == [PROGRAM] + args[1..]
  {
    var all := [PROGRAM] + args[1..];
    BodyProper(args);
    LinesJoined(all);
    if |Body(args)| == FIELD {
      JoinedOn(all[..|all| - 1], all[|all| - 1]);
      assert all == all[..|all| - 1] + [all[|all| - 1]];
      assert Body(args) == Stored(args) + ['\n'];
      LinesLast(Stored(args));
    } else {
      assert Stored(args) == Body(args);
    }
  }

  /** What get_args stores is read back as the same arguments exactly when the list is storable. */
  lemma StoredExactly(args: seq<seq<char>>)
    requires |args| > 0
    ensures Reparsed(Stored(args)) == [PROGRAM] + args[1..] <==> Storable(args)
  {
    var all := [PROGRAM] + args[1..];
    if Storable(args) {
      StoredLines(args);
    }
    if Reparsed(Stored(args)) == all {
      LinesProper(Stored(args));
      var lines := Lines(Stored(args));
      BodyProper(args);
      assert all == lines[..Min(|lines|, MAX_ARGS)];
      WeightPrefix(lines, |all|);
      JoinedWeight(all);
    }
  }

  /** An empty argument does not come back. */
  lemma ForgottenExample()
    ensures Reparsed(Stored([PROGRAM, ""])) != [PROGRAM, ""]
  {
    var args := [PROGRAM, ""];
    hide Reparsed, Stored;
    assert args[1..][0] == "" && [PROGRAM] + args[1..] == args;
    StoredExactly(args);
  }

  lemma {:induction false} WeightPrefix(lines: seq<seq<char>>, k: nat)
    requires k <= |lines|
    ensures Weight(lines[..k]) <= Weight(lines)
  {
    if k > 0 {
      assert lines[..k][1..] == lines[1..][..k - 1];
      WeightPrefix(lines[1..], k - 1);
    }
  }

  // Cutting in place

  /** The next line of the string in the buffer, its newline overwritten; end is where the string ends. */
  method Strtok(buf: array<char>, from: nat, ghost end: nat) returns (line: Option<seq<char>>, next: nat)
    requires from <= end < buf.Length && buf[end] == NUL && NUL !in buf[from..end]
    modifies buf
    ensures from <= next <= end && buf[end] == NUL && NUL !in buf[next..end]
    ensures Lines(old(buf[from..end])) == match line case None => [] case Some(l) => [l] + Lines(buf[next..end])
  {
    hide Lines, LineLength;
    ghost var s := buf[from..end];
    var i := from;
    while buf[i] == '\n'
      invariant from <= i <= end && buf[..] == old(buf[..]) && Lines(s) == Lines(buf[i..end])
      decreases end - i
    {
      NotInside(buf[..], from, i, end);
      SkipNewline(buf[..], i, end);
      i := i + 1;
    }
    if buf[i] == NUL {
      NotInside(buf[..], from, i, end);
      NoLines(buf[..], i);
      return None, i;
    }
    var start := i;
    while buf[i] != NUL && buf[i] != '\n'
      invariant start <= i <= end && buf[..] == old(buf[..]) && '\n' !in buf[start..i]
      decreases end - i
    {
      assert buf[start..i + 1] == buf[start..i] + [buf[i]];
      i := i + 1;
    }
    NotInside(buf[..], from, i, end);
    line := Some(buf[start..i]);
    LineCut(buf[..], start, i, end);
    if buf[i] == NUL {
      NoLines(buf[..], i);
      return line, i;
    }
    ghost var rest := buf[i + 1..end];
    buf[i] := NUL;
    next := i + 1;
    assert buf[next..end] == rest == s[next - from..];
  }

  lemma NotInside(buf: seq<char>, from: nat, i: nat, end: nat)
    requires from <= i <= end < |buf| && NUL !in buf[from..end]
    ensures buf[i] == NUL ==> i == end
    ensures NUL !in buf[i..end]
  {
    assert i < end ==> buf[from..end][i - from] == buf[i];
    assert buf[i..end] == buf[from..end][i - from..];
  }

  lemma SkipNewline(buf: seq<char>, i: nat, end: nat)
    requires i < end <= |buf| && buf[i] == '\n'
    ensures Lines(buf[i..end]) == Lines(buf[i + 1..end])
  {
    assert buf[i..end][1..] == buf[i + 1..end];
  }

  lemma NoLines(buf: seq<char>, i: nat)
    requires i <= |buf|
    ensures Lines(buf[i..i]) == Lines([]) == []
  {
  }

  lemma LineCut(buf: seq<char>, start: nat, i: nat, end: nat)
    requires start < i <= end < |buf| && '\n' !in buf[start..i] && (i < end ==> buf[i] == '\n')
    ensures Lines(buf[start..end]) == [buf[start..i]] + Lines(if i < end then buf[i + 1..end] else [])
  {
    var s := buf[start..end];
    assert s[..i - start] == buf[start..i] && s[0] == buf[start..i][0];
    LineLengthIs(s, i - start);
    if i < end { assert s[i - start..][1..] == buf[i + 1..end]; }
  }

  // The control block

  datatype Message = Message(
    command: seq<char>, status: seq<char>, recovery: seq<char>, needUpdate: seq<char>, systemFlag: seq<char>)

  ghost predicate Shaped(m: Message) {
    |m.command| == 32 && |m.status| == 32 && |m.recovery| == FIELD && |m.needUpdate| == 4 && |m.systemFlag| == 252
  }

  function Zeros(n: nat): seq<char> {
    seq(n, i => NUL)
  }

  const ZERO: Message := Message(Zeros(32), Zeros(32), Zeros(FIELD), Zeros(4), Zeros(252))

  lemma ParsedEnd(t: seq<char>, args: seq<seq<char>>, rest: seq<seq<char>>)
    requires Lines(t) == args + rest && 0 < |args| <= MAX_ARGS && args[0] == PROGRAM && (rest == [] || |args| == MAX_ARGS)
    ensures Reparsed(t) == args
  {
    hide Lines;
    assert (args + rest)[..|args|] == args;
  }

  lemma ParsedNone(t: seq<char>, first: Option<seq<char>>, rest: seq<seq<char>>)
    requires Lines(t) == (match first case None => [] case Some(l) => [l] + rest) && first != Some(PROGRAM)
    ensures Reparsed(t) == []
  {
    hide Lines;
  }

  /** Where the field's string ends once its last character is taken for a NUL. */
  lemma FieldEnds(was: seq<char>)
    requires |was| == FIELD
    ensures var t, now := Clip(Text(was)), was[FIELD - 1 := NUL];
      now[|t|] == NUL && NUL !in now[0..|t|] && now[0..|t|] == t
  {
    var t, now := Clip(Text(was)), was[FIELD - 1 := NUL];
    assert now[0..|t|] == was[..|t|] == t;
  }

  /** The arguments that a field of the block gives; its last character is taken for a NUL. */
  method ParseMessage(buf: array<char>) returns (args: seq<seq<char>>)
    requires buf.Length == FIELD
    modifies buf
    ensures args == Reparsed(Clip(Text(old(buf[..]))))
  {
    hide Lines, Reparsed, Clip, Text;
    ghost var was := buf[..];
    ghost var t := Clip(Text(was));
    buf[FIELD - 1] := NUL;
    assert buf[..] == was[FIELD - 1 := NUL];
    FieldEnds(was);
    assert buf[0..|t|] == t;
    var arg, next := Strtok(buf, 0, |t|);
    if arg != Some(PROGRAM) {
      ParsedNone(t, arg, Lines(buf[next..|t|]));
      return [];
    }
    args := [arg.value];
    while |args| < MAX_ARGS
      invariant 0 < |args| <= MAX_ARGS && args[0] == PROGRAM && next <= |t|
      invariant buf[|t|] == NUL && NUL !in buf[next..|t|]
      invariant Lines(t) == args + Lines(buf[next..|t|])
      decreases MAX_ARGS - |args|
    {
      arg, next := Strtok(buf, next, |t|);
      if arg == None {
        ParsedEnd(t, args, []);
        return;
      }
      args := args + [arg.value];
    }
    ParsedEnd(t, args, Lines(buf[next..|t|]));
  }

  lemma ClipOn(a: seq<char>, b: seq<char>)
    ensures Clip(Clip(a) + b) == Clip(a + b)
  {
  }

  /** Appends an argument and a newline, as far as they fit. */
  method AppendArg(buf: array<char>, arg: seq<char>, ghost before: seq<char>)
    requires buf.Length == FIELD && NUL !in arg && Text(buf[..]) == Clip(before)
    modifies buf
    ensures Text(buf[..]) == Clip(before + (arg + ['\n']))
  {
    hide Text, Clip, Overlay;
    AppendLine(buf[..], before, arg);
    assert buf[..][..FIELD] == buf[..];
    var _ := Strlcat(buf, arg, FIELD);
    AppendLine(buf[..], before + arg, ['\n']);
    assert buf[..][..FIELD] == buf[..];
    var _ := Strlcat(buf, ['\n'], FIELD);
    assert before + arg + ['\n'] == before + (arg + ['\n']);
  }

  /** The arguments, one to a line, cut off where the field ends. */
  method Serialize(buf: array<char>, args: seq<seq<char>>)
    requires buf.Length == FIELD && |args| > 0 && forall i :: 0 <= i < |args| ==> NUL !in args[i]
    modifies buf
    ensures Text(buf[..]) == Stored(args)
  {
    hide Joined, Text, Clip, Overlay;
    FirstLine(buf[..]);
    var _ := Strlcpy(buf, PROGRAM + ['\n'], FIELD);
    assert args[1..1] == [] && [PROGRAM] + args[1..1] == [PROGRAM];
    for i := 1 to |args|
      invariant Text(buf[..]) == Clip(Joined([PROGRAM] + args[1..i]))
    {
      AppendArg(buf, args[i], Joined([PROGRAM] + args[1..i]));
      JoinedOn([PROGRAM] + args[1..i], args[i]);
      assert [PROGRAM] + args[1..i] + [args[i]] == [PROGRAM] + args[1..i + 1];
    }
    assert args[1..|args|] == args[1..];
  }

  lemma FirstLine(buf: seq<char>)
    requires |buf| == FIELD
    ensures NUL !in PROGRAM + ['\n']
    ensures Text(Overlay(buf, 0, Clipped(PROGRAM + ['\n'], FIELD))) == Clip(Joined([PROGRAM]))
  {
    CopiedText(buf, PROGRAM + ['\n'], FIELD);
    assert [PROGRAM][1..] == [];
  }

  lemma AppendLine(buf: seq<char>, before: seq<char>, more: seq<char>)
    requires |buf| == FIELD && Text(buf) == Clip(before) && NUL !in more
    ensures Length(buf) < FIELD
    ensures Text(Overlay(buf, Length(buf), Clipped(more, FIELD - Length(buf)))) == Clip(before + more)
  {
    AppendedText(buf, more);
    ClipOn(before, more);
  }

  ghost predicate Strings(args: seq<seq<char>>) {
    forall i :: 0 <= i < |args| ==> NUL !in args[i]
  }

  /** Those found on the command line, else in the block. */
  function Given(argv: seq<seq<char>>, text: seq<char>): (args: seq<seq<char>>)
    requires |argv| > 0
    ensures |args| > 0
  {
    if |argv| <= 1 && |Reparsed(text)| > 0 then Reparsed(text) else argv
  }

  /** Which arguments count: those given, else those in the command file. None: reading the file breaks off. */
  function Chosen(argv: seq<seq<char>>, text: seq<char>, file: Option<seq<char>>): (args: Option<seq<seq<char>>>)
    requires |argv| > 0
    ensures args.Some? ==> |args.value| > 0
  {
    var given := Given(argv, text);
    if |given| <= 1 && file.Some? then Behind([given[0]], FileLines(file.value, MAX_ARGS - 1)) else Some(given)
  }

  lemma {:induction false} LinesStrings(s: seq<char>)
    requires NUL !in s
    ensures Strings(Lines(s))
    decreases |s|
  {
    if s != [] {
      if s[0] == '\n' { LinesStrings(s[1..]); } else { LinesStrings(s[LineLength(s)..]); }
    }
  }

  lemma ParsedStrings(buf: seq<char>)
    ensures Strings(Reparsed(Clip(Text(buf))))
  {
    LinesStrings(Clip(Text(buf)));
  }

  lemma ReadStrings(argv0: seq<char>, file: seq<char>, wanted: nat)
    requires NUL !in argv0
    ensures var args := Behind([argv0], FileLines(file, wanted)); args.Some? ==> |args.value| > 0 && Strings(args.value)
  {
  }

  lemma BlockWins(argv: seq<seq<char>>, buf: seq<char>, file: Option<seq<char>>, lines: seq<seq<char>>)
    requires |argv| == 1 && |buf| == 768 && Text(buf) == "recovery\n" + Joined(lines) && Proper(lines) && 0 < |lines| <= 99
    ensures Chosen(argv, Clip(Text(buf)), file) == Some(["recovery"] + lines)
  {
    hide *;
    var all := ["recovery"] + lines;
    JoinedFirst("recovery", lines);
    TextFits(buf);
    ProperFirst("recovery", lines);
    ClippedLines(Text(buf), all);
    ReparsedAll(Clip(Text(buf)), all);
    ChosenBlock(argv, Clip(Text(buf)), file, all);
  }

  lemma ProperFirst(first: seq<char>, rest: seq<seq<char>>)
    requires first != [] && '\n' !in first && Proper(rest)
    ensures Proper([first] + rest)
  {
  }

  lemma ClippedLines(t: seq<char>, all: seq<seq<char>>)
    requires |t| <= 768 && t == Joined(all) && Proper(all) && all != []
    ensures Lines(Clip(t)) == all
  {
    hide Lines, Joined;
    LinesJoined(all);
    JoinedEnds(all);
    if |t| == 768 {
      assert t == Clip(t) + ['\n'];
      LinesLast(Clip(t));
    } else {
      assert Clip(t) == t;
    }
  }

  lemma ReparsedAll(t: seq<char>, all: seq<seq<char>>)
    requires Lines(t) == all && 0 < |all| <= 100 && all[0] == "recovery"
    ensures Reparsed(t) == all
  {
    hide Lines;
    assert all[..|all|] == all;
  }

  lemma ChosenBlock(argv: seq<seq<char>>, t: seq<char>, file: Option<seq<char>>, all: seq<seq<char>>)
    requires |argv| == 1 && Reparsed(t) == all && |all| > 1
    ensures Chosen(argv, t, file) == Some(all)
  {
    hide Reparsed;
  }

  lemma TextFits(buf: seq<char>)
    ensures |Text(buf)| <= |buf|
  {
  }

  lemma JoinedFirst(first: seq<char>, rest: seq<seq<char>>)
    ensures Joined([first] + rest) == first + ['\n'] + Joined(rest)
  {
    assert ([first] + rest)[1..] == rest;
  }

  lemma {:induction false} JoinedEnds(lines: seq<seq<char>>)
    requires lines != []
    ensures Joined(lines) != [] && Joined(lines)[|Joined(lines)| - 1] == '\n'
  {
    if |lines| > 1 { JoinedEnds(lines[1..]); }
  }

  /** A cleared block leaves the word to the command file. */
  lemma FileCounts(argv: seq<seq<char>>, lines: seq<seq<char>>, end: seq<char>)
    requires |argv| == 1 && Ending(end) && AllPlain(lines, end)
    ensures Chosen(argv, [], Some(Ended(lines, end))) == Some(argv + lines[..Min(|lines|, 99)])
  {
    hide FileLines;
    assert Ended(lines, end) + [] == Ended(lines, end);
    FileRead(lines, end, [], 99);
    assert [argv[0]] == argv;
  }

  /** A command line of more than the program's name wins; else the lines of the block; and if that is empty, those of the
      command file, if there is one; a block that does not begin with the program's name does not count. */
  ghost predicate ByPrecedence(argv: seq<seq<char>>, text: seq<char>, file: Option<seq<char>>, args: Option<seq<seq<char>>>) {
    && (|argv| > 1 ==> args == Some(argv))
    && (|argv| == 1 && text == [] && file == None ==> args == Some(argv))
    && (forall lines :: |argv| == 1 && Proper(lines) && 0 < |lines| <= 99 && text == "recovery\n" + Joined(lines) ==>
          args == Some(["recovery"] + lines))
    && (forall lines :: |argv| == 1 && file == None && Proper(lines) && lines != [] && lines[0] != "recovery" && text == Joined(lines) ==>
          args == Some(argv))
    && (forall lines, end :: |argv| == 1 && text == [] && Ending(end) && AllPlain(lines, end) && file == Some(Ended(lines, end)) ==>
          args == Some(argv + lines[..Min(|lines|, 99)]))
  }

  lemma ChosenMeans(argv: seq<seq<char>>, buf: seq<char>, file: Option<seq<char>>)
    requires |argv| > 0 && |buf| == 768
    ensures ByPrecedence(argv, Text(buf), file, Chosen(argv, Clip(Text(buf)), file))
  {
    hide Text, Proper, AllPlain, Ended, Joined;
    forall lines | |argv| == 1 && Proper(lines) && 0 < |lines| <= 99 && Text(buf) == "recovery\n" + Joined(lines)
      ensures Chosen(argv, Clip(Text(buf)), file) == Some(["recovery"] + lines)
    {
      BlockWins(argv, buf, file, lines);
    }
    forall lines | |argv| == 1 && file == None && Proper(lines) && lines != [] && lines[0] != "recovery" && Text(buf) == Joined(lines)
      ensures Chosen(argv, Clip(Text(buf)), file) == Some(argv)
    {
      TextFits(buf);
      ClippedLines(Text(buf), lines);
    }
    forall lines, end | |argv| == 1 && Text(buf) == [] && Ending(end) && AllPlain(lines, end) && file == Some(Ended(lines, end))
      ensures Chosen(argv, Clip(Text(buf)), file) == Some(argv + lines[..Min(|lines|, 99)])
    {
      FileCounts(argv, lines, end);
      assert Clip([]) == [];
    }
  }

  /** What lasts across reboots: the control block and the command file. */
  class Device {
    var misc: Message
    var commandFile: Option<seq<char>>

    ghost predicate Valid()
      reads this
    {
      Shaped(misc)
    }

    constructor (misc: Message, commandFile: Option<seq<char>>)
      requires Shaped(misc)
      ensures Valid() && this.misc == misc && this.commandFile == commandFile
    {
      this.misc := misc;
      this.commandFile := commandFile;
    }

    /** Finds the arguments and writes them back, so that a reboot finds them again. */
    method GetArgs(argv: seq<seq<char>>) returns (args: Option<seq<seq<char>>>)
      requires Valid() && |argv| > 0 && Strings(argv)
      modifies `misc
      ensures Valid() && args == Chosen(argv, Clip(Text(old(misc.recovery))), commandFile)
      ensures ByPrecedence(argv, Text(old(misc.recovery)), commandFile, args)
      ensures args.None? ==> misc == old(misc)
      ensures args.Some? ==> Text(misc.recovery) == Stored(args.value) && Text(misc.command) == "boot-recovery"
      ensures misc == old(misc).(recovery := misc.recovery, command := misc.command)
    {
      ghost var was := misc.recovery;
      args := FindArgs(argv);
      ChosenMeans(argv, was, commandFile);
    }

    /** The arguments, from where they are to be had, and writing them back. */
    method FindArgs(argv: seq<seq<char>>) returns (args: Option<seq<seq<char>>>)
      requires Valid() && |argv| > 0 && Strings(argv)
      modifies `misc
      ensures Valid() && args == Chosen(argv, Clip(Text(old(misc.recovery))), commandFile)
      ensures args.None? ==> misc == old(misc)
      ensures args.Some? ==> Text(misc.recovery) == Stored(args.value) && Text(misc.command) == "boot-recovery"
      ensures misc == old(misc).(recovery := misc.recovery, command := misc.command)
    {
      hide Text, Clip, Stored, Reparsed, FileLines, Behind;
      var recovery := new char[FIELD](i requires 0 <= i < FIELD reads this => if i < |misc.recovery| then misc.recovery[i] else NUL);
      var command := new char[32](i requires 0 <= i < 32 reads this => if i < |misc.command| then misc.command[i] else NUL);
      assert recovery[..] == misc.recovery && command[..] == misc.command;
      var given := argv;
      if |given| <= 1 {
        var parsed := ParseMessage(recovery);
        if |parsed| > 0 { given := parsed; }
        ParsedStrings(misc.recovery);
      }
      args := Some(given);
      if |given| <= 1 && commandFile.Some? {
        args := ReadLines(given[0], commandFile.value, MAX_ARGS);
        if args == None { return; }
        ReadStrings(given[0], commandFile.value, MAX_ARGS - 1);
      }
      var _ := Strlcpy(command, "boot-recovery", 32);
      Serialize(recovery, args.value);
      CopiedText(misc.command, "boot-recovery", 32);
      misc := misc.(command := command[..], recovery := recovery[..]);
    }

    /** Boots again and again without arguments, as after a reboot in the middle of the work. */
    method Reboot(argv0: seq<char>, times: nat, ghost args: seq<seq<char>>) returns (seen: seq<seq<seq<char>>>)
      requires Valid() && NUL !in argv0
      requires |args| > 1 && Storable(args) && Text(misc.recovery) == Stored(args)
      modifies `misc
      ensures Valid() && |seen| == times && forall i :: 0 <= i < times ==> seen[i] == [PROGRAM] + args[1..]
      ensures Text(misc.recovery) == Stored(args) && misc == old(misc).(recovery := misc.recovery, command := misc.command)
    {
      hide Text, Clip, Storable, Stored, Reparsed;
      seen := [];
      for i := 0 to times
        invariant Valid() && |seen| == i && forall k :: 0 <= k < i ==> seen[k] == [PROGRAM] + args[1..]
        invariant Text(misc.recovery) == Stored(args) && misc == old(misc).(recovery := misc.recovery, command := misc.command)
      {
        StoredAgain(args);
        var found := GetArgs([argv0]);
        seen := seen + [found.value];
      }
    }

    /** Ends the recovery: the block is cleared but for the flag, and the command file removed. */
    method FinishRecovery(systemFlag: seq<char>)
      requires Valid() && NUL !in systemFlag
      modifies this
      ensures Valid() && commandFile == None
      ensures misc == ZERO.(systemFlag := Overlay(Zeros(252), 0, Clipped(systemFlag, 252)))
    {
      var flag := new char[252](_ => NUL);
      assert flag[..] == Zeros(252);
      var _ := Strlcpy(flag, systemFlag, 252);
      misc := ZERO.(systemFlag := flag[..]);
      commandFile := None;
    }
  }

  /** What is stored is taken from the block, and is what would be stored again. */
  lemma StoredAgain(args: seq<seq<char>>)
    requires |args| > 1 && Storable(args)
    ensures Clip(Stored(args)) == Stored(args) && Reparsed(Stored(args)) == [PROGRAM] + args[1..]
    ensures Stored([PROGRAM] + args[1..]) == Stored(args)
  {
    StoredExactly(args);
    assert ([PROGRAM] + args[1..])[1..] == args[1..];
  }

  /** A command file of plain lines that fit the block is obeyed, and found in the block at the next boot. */
  lemma CommandKept(argv0: seq<char>, text: seq<char>, lines: seq<seq<char>>, end: seq<char>)
    requires Ending(end) && AllPlain(lines, end) && |Reparsed(text)| <= 1
    ensures var args := Chosen([argv0], text, Some(Ended(lines, end)));
      && args.Some? && args.value[1..] == lines[..Min(|lines|, MAX_ARGS - 1)]
      && (|Body(args.value)| <= FIELD ==> Reparsed(Stored(args.value)) == [PROGRAM] + args.value[1..])
  {
    hide Reparsed, FileLines, Stored, Body;
    var args := Chosen([argv0], text, Some(Ended(lines, end)));
    assert Ended(lines, end) + [] == Ended(lines, end);
    FileRead(lines, end, [], MAX_ARGS - 1);
    StoredExactly(args.value);
  }

  /** After the end of a recovery the next boot finds nothing to do. */
  lemma NothingLeft(argv0: seq<char>, systemFlag: seq<char>)
    requires NUL !in systemFlag
    ensures Chosen([argv0], Clip(Text(ZERO.(systemFlag := Overlay(Zeros(252), 0, Clipped(systemFlag, 252))).recovery)), None) == Some([argv0])
  {
    assert Text(Zeros(FIELD)) == [] by { LengthIs(Zeros(FIELD), 0); }
  }
}

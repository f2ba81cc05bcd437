/** One run of the patcher as a sequence of file-system states, any of which a crash may leave behind. */
module PatchRun {
  import opened Bytes

  type Path = string
  type Digest = seq<byte>
  type Files = map<Path, seq<byte>>

  const SAVED: Path := "/cache/saved.file"

  /** What a run is asked to do; the patches are given with the hash, in hex, of what they apply to. */
  datatype Config = Config(source: Path, target: Path, targetSha: Digest, targetSize: nat, patches: seq<(string, seq<byte>)>)

  /** Hashing, what a patch makes of some data (all of its output, output cut short by an error, nothing because the
      patch is of no known format, or output after which the decoder never returns), and whether a decoder whose
      output is cut short, with something left in the file, goes on to success having hashed something. */
  datatype Tools = Tools(
    sha: seq<byte> -> Digest, produce: (seq<byte>, seq<byte>) -> Produced,
    cut: (seq<byte>, seq<byte>, seq<byte>, seq<byte>) -> bool)
  datatype Produced = Full(out: seq<byte>) | Broken(out: seq<byte>) | Unknown | Endless(out: seq<byte>)

  /** How writing a file goes: wholly, with something else left in the file and something hashed, or not at all. */
  datatype Writing = Complete | Partial(left: seq<byte>, hashed: seq<byte>) | NotOpened

  /** What the surroundings contribute: free space, directory listings, open files, and failures, with the files that
      cannot be read and those that cannot be unlinked; k counts the attempts. */
  datatype Env = Env(
    space: nat, cacheFree: (nat, nat) -> nat, listing: seq<Path>, open: set<Path>, procReadable: bool,
    save: nat -> Writing, sink: nat -> Writing, chmod: bool, rename: bool, unread: set<Path>, stays: set<Path>)

  /** A state that a crash may leave: exactly this one, or this one with anything in one file. */
  datatype Shot = Exact(files: Files) | Torn(files: Files, path: Path)

  ghost predicate May(shot: Shot, s: Files) {
    match shot
    case Exact(files) => s == files
    case Torn(files, path) => path in s && s == files[path := s[path]]
  }

  /** The exit code of a run that does not end. */
  const NEVER := -1

  /** The files reached, the states passed through, the exit code once there is one, whether this run has copied the
      source to the cache, and what the last decoder has hashed. */
  datatype Run = Run(files: Files, shots: seq<Shot>, code: Option<int>, copied: bool := false, hashed: seq<byte> := [])

  function Then(r: Run, s: Run): Run {
    Run(s.files, r.shots + s.shots, s.code, r.copied || s.copied, s.hashed)
  }

  function Step(files: Files): Run {
    Run(files, [Exact(files)], None)
  }

  function Stop(files: Files, code: int): Run {
    Run(files, [], Some(code))
  }

  /** Unlinking a file; whether that works is not looked at. */
  function Removed(env: Env, files: Files, path: Path): Files {
    if path in env.stays then files else files - {path}
  }

  // Hex digests

  function HexDigit(c: char): Option<nat> {
    if '0' <= c <= '9' then Some(c as nat - '0' as nat)
    else if 'a' <= c <= 'f' then Some(c as nat - 'a' as nat + 10)
    else if 'A' <= c <= 'F' then Some(c as nat - 'A' as nat + 10)
    else None
  }

  /** The digest that 40 hex digits spell; anything else, even behind the digits, is an error. */
  function Sha1Of(str: string): Option<Digest> {
    if |str| == 40 && forall i :: 0 <= i < 40 ==> HexDigit(str[i]).Some?
    then Some(seq(20, i requires 0 <= i < 20 =>
      assert HexDigit(str[2 * i]).Some? && HexDigit(str[2 * i + 1]).Some?;
      HexPair(str[2 * i], str[2 * i + 1])))
    else None
  }

  function HexPair(a: char, b: char): byte
    requires HexDigit(a).Some? && HexDigit(b).Some?
  {
    16 * HexDigit(a).value + HexDigit(b).value
  }

  predicate Spelled(str: string, k: nat, b: byte) {
    && 2 * k + 1 < |str| && HexDigit(str[2 * k]).Some? && HexDigit(str[2 * k + 1]).Some?
    && b == HexPair(str[2 * k], str[2 * k + 1])
  }

  const LOWER: string := "0123456789abcdef"
  const UPPER: string := "0123456789ABCDEF"

  /** A digest as it is printed: two digits a byte, the high one first. */
  function Printed(d: Digest, letters: string): (s: string)
    requires |letters| == 16
    ensures |s| == 2 * |d|
  {
    seq(2 * |d|, i requires 0 <= i < 2 * |d| => letters[if i % 2 == 0 then d[i / 2] / 16 else d[i / 2] % 16])
  }

  lemma DigitIs(c: char, v: nat)
    requires v < 16
    ensures HexDigit(c) == Some(v) <==> c == LOWER[v] || c == UPPER[v]
  {
  }

  lemma DigitPair(a: nat, b: nat, v: byte)
    requires a < 16 && b < 16
    ensures v == 16 * a + b <==> a == v / 16 && b == v % 16
  {
  }

  /** A string is read as a digest exactly when it has 40 characters, each the digit that printing the digest gives there,
      in lower or in upper case. */
  lemma Sha1Exactly(str: string, d: Digest)
    requires |d| == 20
    ensures Sha1Of(str) == Some(d) <==>
      |str| == 40 && forall i: nat :: i < 40 ==> str[i] == Printed(d, LOWER)[i] || str[i] == Printed(d, UPPER)[i]
  {
    assert |str| != 40 ==> Sha1Of(str) == None;
    if |str| == 40 {
      hide *;
      PairsSpell(str, d);
      LettersPaired(str, d);
      forall k: nat | k < 20 ensures PairAt(str, d, k) <==> LettersAt(str, d, k) {
        PairLetters(str, d, k);
      }
    }
  }

  ghost predicate LettersAt(str: string, d: Digest, k: nat)
    requires k < 20 && |str| == 40 && |d| == 20
  {
    LetterAt(str, d, 2 * k) && LetterAt(str, d, 2 * k + 1)
  }

  lemma LettersPaired(str: string, d: Digest)
    requires |str| == 40 && |d| == 20
    ensures (forall i: nat :: i < 40 ==> str[i] == Printed(d, LOWER)[i] || str[i] == Printed(d, UPPER)[i]) <==>
      forall k: nat :: k < 20 ==> LettersAt(str, d, k)
  {
    hide Printed;
    if forall k: nat :: k < 20 ==> LettersAt(str, d, k) {
      forall i: nat | i < 40 ensures str[i] == Printed(d, LOWER)[i] || str[i] == Printed(d, UPPER)[i] {
        assert LettersAt(str, d, i / 2);
        assert i == 2 * (i / 2) || i == 2 * (i / 2) + 1;
      }
    }
    if forall i: nat :: i < 40 ==> str[i] == Printed(d, LOWER)[i] || str[i] == Printed(d, UPPER)[i] {
      forall k: nat | k < 20 ensures LettersAt(str, d, k) {
        assert LetterAt(str, d, 2 * k) && LetterAt(str, d, 2 * k + 1);
      }
    }
  }

  predicate LetterAt(str: string, d: Digest, i: nat)
    requires i < 40 && |str| == 40 && |d| == 20
  {
    str[i] == Printed(d, LOWER)[i] || str[i] == Printed(d, UPPER)[i]
  }

  lemma PairLetters(str: string, d: Digest, k: nat)
    requires k < 20 && |str| == 40 && |d| == 20
    ensures PairAt(str, d, k) <==> LettersAt(str, d, k)
  {
    hide HexDigit, HexPair, Printed;
    PrintedAt(d, LOWER, k);
    PrintedAt(d, UPPER, k);
    PairIs(str[2 * k], str[2 * k + 1], d[k]);
  }

  lemma PrintedAt(d: Digest, letters: string, k: nat)
    requires |letters| == 16 && k < |d|
    ensures Printed(d, letters)[2 * k] == letters[d[k] / 16] && Printed(d, letters)[2 * k + 1] == letters[d[k] % 16]
  {
  }

  ghost predicate PairAt(str: string, d: Digest, k: nat)
    requires k < 20 && |str| == 40 && |d| == 20
  {
    HexDigit(str[2 * k]).Some? && HexDigit(str[2 * k + 1]).Some? && HexPair(str[2 * k], str[2 * k + 1]) == d[k]
  }

  lemma PairsSpell(str: string, d: Digest)
    requires |str| == 40 && |d| == 20
    ensures Sha1Of(str) == Some(d) <==> forall k: nat :: k < 20 ==> PairAt(str, d, k)
  {
    hide HexDigit;
    if forall k: nat :: k < 20 ==> PairAt(str, d, k) {
      forall i | 0 <= i < 40 ensures HexDigit(str[i]).Some? {
        assert PairAt(str, d, i / 2);
      }
      assert Sha1Of(str).value == d by {
        forall k | 0 <= k < 20 ensures Sha1Of(str).value[k] == d[k] { assert PairAt(str, d, k); }
      }
    }
    if Sha1Of(str) == Some(d) {
      forall k: nat | k < 20 ensures PairAt(str, d, k) { assert Sha1Of(str).value[k] == d[k]; }
    }
  }

  lemma PairIs(a: char, b: char, v: byte)
    ensures HexDigit(a).Some? && HexDigit(b).Some? && HexPair(a, b) == v <==>
      (a == LOWER[v / 16] || a == UPPER[v / 16]) && (b == LOWER[v % 16] || b == UPPER[v % 16])
  {
    hide HexDigit;
    DigitIs(a, v / 16);
    DigitIs(b, v % 16);
    if HexDigit(a).Some? && HexDigit(b).Some? {
      DigitSmall(a);
      DigitSmall(b);
      DigitPair(HexDigit(a).value, HexDigit(b).value, v);
    }
  }

  lemma DigitSmall(c: char)
    ensures HexDigit(c).Some? ==> HexDigit(c).value < 16
  {
  }

  /** So what is printed is read back, in either case. */
  lemma PrintedBack(d: Digest)
    requires |d| == 20
    ensures Sha1Of(Printed(d, LOWER)) == Some(d) && Sha1Of(Printed(d, UPPER)) == Some(d)
  {
    Sha1Exactly(Printed(d, LOWER), d);
    Sha1Exactly(Printed(d, UPPER), d);
  }

  /** A digest with anything behind it is not a digest. */
  lemma DigestAlone(digits: string, more: string)
    requires |digits| == 40 && more != ""
    ensures Sha1Of(digits + more) == None
  {
  }

  method ParseSha1(str: string) returns (r: Option<Digest>)
    ensures r == Sha1Of(str)
  {
    var digest := new byte[20](_ => 0);
    var i := 0;
    while i < 40
      invariant 0 <= i <= 40 && i <= |str| && forall k :: 0 <= k < i ==> HexDigit(str[k]).Some?
      invariant forall k :: 0 <= k < i / 2 ==> Spelled(str, k, digest[k])
      invariant i % 2 == 1 ==> digest[i / 2] == 16 * HexDigit(str[i - 1]).value
    {
      if i == |str| { return None; }
      var digit := HexDigit(str[i]);
      if digit == None { return None; }
      if i % 2 == 0 {
        digest[i / 2] := 16 * digit.value;
      } else {
        digest[i / 2] := digest[i / 2] + digit.value;
      }
      i := i + 1;
    }
    if |str| != 40 { return None; }
    assert digest[..] == Sha1Of(str).value;
    return Some(digest[..]);
  }

  /** The first patch for data of that hash. */
  function MatchFrom(sha: Digest, patches: seq<(string, seq<byte>)>, i: nat): (r: Option<nat>)
    requires i <= |patches|
    ensures r.Some? ==> i <= r.value < |patches| && Sha1Of(patches[r.value].0) == Some(sha)
    ensures forall k :: i <= k < (if r.Some? then r.value else |patches|) ==> Sha1Of(patches[k].0) != Some(sha)
    decreases |patches| - i
  {
    if i == |patches| then None
    else if Sha1Of(patches[i].0) == Some(sha) then Some(i)
    else MatchFrom(sha, patches, i + 1)
  }

  method FindMatchingPatch(sha: Digest, patches: seq<(string, seq<byte>)>) returns (r: Option<nat>)
    ensures r == MatchFrom(sha, patches, 0)
  {
    for i := 0 to |patches|
      invariant MatchFrom(sha, patches, 0) == MatchFrom(sha, patches, i)
    {
      var parsed := ParseSha1(patches[i].0);
      if parsed == Some(sha) { return Some(i); }
    }
    return None;
  }

  /** Is there a patch for this data? */
  predicate Patchable(cfg: Config, tools: Tools, data: seq<byte>) {
    MatchFrom(tools.sha(data), cfg.patches, 0).Some?
  }

  function PatchFor(cfg: Config, tools: Tools, data: seq<byte>): seq<byte>
    requires Patchable(cfg, tools, data)
  {
    cfg.patches[MatchFrom(tools.sha(data), cfg.patches, 0).value].1
  }

  // Making room on the cache

  /** The files that may go: listed, still there, not open, and not the saved copy. */
  function Expendable(env: Env, files: Files, n: nat): seq<Path>
    requires n <= |env.listing|
  {
    if n == 0 then [] else
      var p := env.listing[n - 1];
      Expendable(env, files, n - 1) + if p != SAVED && p in files && p !in env.open then [p] else []
  }

  /** Deletes the names from i on until there is room. */
  function Deleting(env: Env, k: nat, files: Files, names: seq<Path>, i: nat, need: nat): Run
    requires i <= |names|
    decreases |names| - i
  {
    if i < |names| && env.cacheFree(k, i) < need then
      Then(Step(Removed(env, files, names[i])), Deleting(env, k, Removed(env, files, names[i]), names, i + 1, need))
    else Run(files, [], if env.cacheFree(k, i) >= need then None else Some(1))
  }

  function FreeCache(env: Env, k: nat, files: Files, need: nat): Run {
    if env.cacheFree(k, 0) >= need then Run(files, [], None)
    else if !env.procReadable then Stop(files, 1)
    else
      var names := Expendable(env, files, |env.listing|);
      if |names| == 0 then Stop(files, 1) else Deleting(env, k, files, names, 0, need)
  }

  // One attempt

  /** A file is written; this is left in it. */
  function Left(files: Files, path: Path, left: seq<byte>, code: Option<int>): Run {
    Run(files[path := left], [Torn(files, path), Exact(files[path := left])], code)
  }

  function Write(files: Files, path: Path, data: seq<byte>, how: Writing): Run {
    match how
    case NotOpened => Stop(files, 1)
    case Complete => Left(files, path, data, None)
    case Partial(left, _) => Left(files, path, left, Some(1))
  }

  /** Copies the source to the cache and deletes it. */
  function Backup(cfg: Config, env: Env, k: nat, files: Files, data: seq<byte>): Run {
    var freed := FreeCache(env, k, files, |data|);
    if freed.code.Some? then freed else
    var saved := Then(freed, Write(freed.files, SAVED, data, env.save(k)));
    if saved.code.Some? then saved else
    Then(saved, Step(Removed(env, saved.files, cfg.source))).(copied := true)
  }

  function TempName(cfg: Config): Path {
    cfg.target + ".patch"
  }

  /** Does the decoder take output that was cut short for all of it? */
  predicate Unnoticed(tools: Tools, data: seq<byte>, patch: seq<byte>, how: Writing) {
    how.Partial? && tools.cut(data, patch, how.left, how.hashed)
  }

  /** Writing the patched data next to the target: None when the decoder succeeds, 1 when it fails,
      2 when the patch is of no known format, 3 when the file cannot be opened, NEVER when the decoder does not return. */
  function Produce(cfg: Config, tools: Tools, env: Env, k: nat, files: Files, data: seq<byte>, patch: seq<byte>): Run {
    var tmp, how := TempName(cfg), env.sink(k);
    if how == NotOpened then Stop(files, 3)
    else match tools.produce(data, patch)
      case Unknown => Left(files, tmp, [], Some(2))
      case Broken(out) => Left(files, tmp, if how == Complete then out else how.left, Some(1))
      case Endless(out) => Left(files, tmp, if how == Complete then out else how.left, Some(NEVER))
      case Full(out) =>
        if how == Complete then Left(files, tmp, out, None).(hashed := out)
        else Left(files, tmp, how.left, if Unnoticed(tools, data, patch, how) then None else Some(1)).(hashed := how.hashed)
  }

  function Enough(cfg: Config, env: Env): bool {
    env.space > 262144 && env.space > cfg.targetSize * 3 / 2
  }

  /** The retry loop from attempt k on; fromSource says whose patch is applied. */
  function Attempts(cfg: Config, tools: Tools, env: Env, k: nat, files: Files, fromSource: bool,
                    data: seq<byte>, patch: seq<byte>): Run
    requires k <= 1
    decreases 1 - k
  {
    var enough := k == 0 && Enough(cfg, env);
    var backed := if !enough && fromSource then Backup(cfg, env, k, files, data) else Run(files, [], None);
    if backed.code.Some? then Stop'(backed) else
    var made := Then(backed, Produce(cfg, tools, env, k, backed.files, data, patch));
    match made.code
    case None => made
    case Some(c) =>
      if c == 1 && enough then
        var gone := Removed(env, made.files, TempName(cfg));
        Then(Then(made, Step(gone)), Attempts(cfg, tools, env, k + 1, gone, fromSource, data, patch))
      else if c == NEVER then made
      else Stop'(made)
  }

  /** Any failure exits with 1. */
  function Stop'(r: Run): Run {
    r.(code := Some(1))
  }

  /** The check of what was hashed, the renaming onto the target, and the removal of this run's copy. */
  function Finish(cfg: Config, tools: Tools, env: Env, made: Run): Run {
    var tmp := TempName(cfg);
    if made.code.Some? then made
    else if tools.sha(made.hashed) != cfg.targetSha then Stop'(made)
    else if tmp !in made.files || !env.chmod || !env.rename then Stop'(made)
    else
      var renamed := Then(made, Step((made.files - {tmp})[cfg.target := made.files[tmp]]));
      if made.copied then Done(Then(renamed, Step(Removed(env, renamed.files, SAVED)))) else Done(renamed)
  }

  function Done(r: Run): Run {
    r.(code := Some(0))
  }

  function Holds(files: Files, path: Path): Option<seq<byte>> {
    if path in files then Some(files[path]) else None
  }

  /** A file's contents, if it is there and can be read. */
  function Load(env: Env, files: Files, path: Path): Option<seq<byte>> {
    if path in env.unread then None else Holds(files, path)
  }

  datatype Choice = Choice(fromSource: bool, data: seq<byte>)

  /** The data that a run patches: the source, or else the saved copy. */
  function Choose(cfg: Config, tools: Tools, env: Env, files: Files): (c: Option<Choice>)
    ensures c.Some? ==> Patchable(cfg, tools, c.value.data)
    ensures c.Some? ==> Load(env, files, if c.value.fromSource then cfg.source else SAVED) == Some(c.value.data)
  {
    var source, saved := Load(env, files, cfg.source), Load(env, files, SAVED);
    if source.Some? && Patchable(cfg, tools, source.value) then Some(Choice(true, source.value))
    else if saved.Some? && Patchable(cfg, tools, saved.value) then Some(Choice(false, saved.value))
    else None
  }

  /** Is the target seen to be done? */
  predicate SeenDone(cfg: Config, tools: Tools, env: Env, files: Files) {
    var target := Load(env, files, cfg.target);
    target.Some? && tools.sha(target.value) == cfg.targetSha
  }

  /** The whole run. */
  function WholeRun(cfg: Config, tools: Tools, env: Env, files: Files): Run {
    if SeenDone(cfg, tools, env, files) then Stop(files, 0)
    else match Choose(cfg, tools, env, files)
      case None => Stop(files, 1)
      case Some(c) =>
        Finish(cfg, tools, env, Attempts(cfg, tools, env, 0, files, c.fromSource, c.data, PatchFor(cfg, tools, c.data)))
  }
}

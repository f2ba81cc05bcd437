/** What survives a crash of the patcher at any moment, over any number of runs. */
module CrashSafety {
  import opened Bytes
  import opened PatchRun

  /** The target has the digest wanted of it. */
  ghost predicate IsDone(cfg: Config, tools: Tools, s: Files) {
    cfg.target in s && tools.sha(s[cfg.target]) == cfg.targetSha
  }

  /** The target is done, or the source or the saved copy of it can still be patched. */
  ghost predicate Safe(cfg: Config, tools: Tools, s: Files) {
    || IsDone(cfg, tools, s)
    || (cfg.source in s && Patchable(cfg, tools, s[cfg.source]))
    || (SAVED in s && Patchable(cfg, tools, s[SAVED]))
  }

  /** The target is done, or is what it was; only a target that is its own source may also be away. */
  ghost predicate Whole(cfg: Config, tools: Tools, was: Option<seq<byte>>, s: Files) {
    IsDone(cfg, tools, s) || Holds(s, cfg.target) == was || (cfg.source == cfg.target && cfg.target !in s)
  }

  ghost predicate Sound(cfg: Config, tools: Tools, was: Option<seq<byte>>, s: Files) {
    Safe(cfg, tools, s) && Whole(cfg, tools, was, s)
  }

  predicate OnCache(p: Path) {
    "/cache/" <= p
  }

  /** Source and target lie outside the cache, and the temporary file is not the source. */
  ghost predicate Separate(cfg: Config) {
    !OnCache(cfg.source) && !OnCache(cfg.target) && TempName(cfg) != cfg.source
  }

  /** Directory listings name files of the cache. */
  ghost predicate Honest(env: Env) {
    forall p :: p in env.listing ==> OnCache(p)
  }

  lemma TempOutside(cfg: Config)
    requires !OnCache(cfg.target)
    ensures !OnCache(TempName(cfg)) && TempName(cfg) != cfg.target && TempName(cfg) != SAVED && OnCache(SAVED)
  {
    var t := TempName(cfg);
    assert |t| == |cfg.target| + 6 && t[..|cfg.target|] == cfg.target && t[|cfg.target|] == '.';
    assert |cfg.target| >= 7 ==> t[..7] == cfg.target[..7];
    assert forall i :: 0 <= i < 7 ==> "/cache/"[i] != '.';
  }

  /** Two states that agree on source, target and saved copy. */
  ghost predicate SameKept(cfg: Config, s: Files, t: Files) {
    Holds(s, cfg.source) == Holds(t, cfg.source) && Holds(s, cfg.target) == Holds(t, cfg.target) && Holds(s, SAVED) == Holds(t, SAVED)
  }

  lemma SameSound(cfg: Config, tools: Tools, was: Option<seq<byte>>, s: Files, t: Files)
    requires SameKept(cfg, s, t)
    ensures Sound(cfg, tools, was, s) <==> Sound(cfg, tools, was, t)
  {
    assert cfg.source in s <==> Holds(s, cfg.source).Some?;
    assert cfg.target in s <==> Holds(s, cfg.target).Some?;
    assert SAVED in s <==> Holds(s, SAVED).Some?;
  }

  /** Every state the shots may leave is safe. */
  ghost predicate AllSound(cfg: Config, tools: Tools, was: Option<seq<byte>>, shots: seq<Shot>) {
    forall shot, s :: shot in shots && May(shot, s) ==> Sound(cfg, tools, was, s)
  }

  ghost predicate AllSame(cfg: Config, files: Files, shots: seq<Shot>) {
    forall shot, s :: shot in shots && May(shot, s) ==> SameKept(cfg, files, s)
  }

  lemma SameAllSound(cfg: Config, tools: Tools, was: Option<seq<byte>>, files: Files, shots: seq<Shot>)
    requires Sound(cfg, tools, was, files) && AllSame(cfg, files, shots)
    ensures AllSound(cfg, tools, was, shots)
  {
    forall shot, s | shot in shots && May(shot, s) ensures Sound(cfg, tools, was, s) {
      SameSound(cfg, tools, was, files, s);
    }
  }

  lemma AllSoundJoin(cfg: Config, tools: Tools, was: Option<seq<byte>>, a: seq<Shot>, b: seq<Shot>)
    requires AllSound(cfg, tools, was, a) && AllSound(cfg, tools, was, b)
    ensures AllSound(cfg, tools, was, a + b)
  {
    assert forall shot :: shot in a + b ==> shot in a || shot in b;
  }

  lemma {:induction false} ExpendableKept(env: Env, files: Files, n: nat)
    requires Honest(env) && n <= |env.listing|
    ensures forall p :: p in Expendable(env, files, n) ==> OnCache(p) && p != SAVED
  {
    if n > 0 {
      ExpendableKept(env, files, n - 1);
      assert env.listing[n - 1] in env.listing;
    }
  }

  lemma {:induction false} DeletingKeeps(cfg: Config, env: Env, k: nat, files: Files, names: seq<Path>, i: nat, need: nat)
    requires Separate(cfg) && i <= |names| && forall p :: p in names ==> OnCache(p) && p != SAVED
    ensures var r := Deleting(env, k, files, names, i, need); SameKept(cfg, files, r.files) && AllSame(cfg, files, r.shots) && !r.copied
    decreases |names| - i
  {
    if i < |names| && env.cacheFree(k, i) < need {
      assert names[i] in names;
      var less := Removed(env, files, names[i]);
      assert SameKept(cfg, files, less);
      DeletingKeeps(cfg, env, k, less, names, i + 1, need);
      var rest := Deleting(env, k, less, names, i + 1, need).shots;
      assert forall shot :: shot in [Exact(less)] + rest ==> shot == Exact(less) || shot in rest;
    }
  }

  lemma FreeCacheKeeps(cfg: Config, env: Env, k: nat, files: Files, need: nat)
    requires Separate(cfg) && Honest(env)
    ensures var r := FreeCache(env, k, files, need); SameKept(cfg, files, r.files) && AllSame(cfg, files, r.shots) && !r.copied
  {
    ExpendableKept(env, files, |env.listing|);
    var names := Expendable(env, files, |env.listing|);
    if env.cacheFree(k, 0) < need && |names| > 0 { DeletingKeeps(cfg, env, k, files, names, 0, need); }
  }

  /** What is listed, is there, is not open and is not the saved copy may be deleted, and nothing else. */
  lemma {:induction false} ExpendableMeans(env: Env, files: Files, n: nat)
    requires n <= |env.listing|
    ensures forall p :: p in Expendable(env, files, n) <==>
      p in env.listing[..n] && p in files && p !in env.open && p != "/cache/saved.file"
  {
    if n > 0 {
      ExpendableMeans(env, files, n - 1);
      assert env.listing[..n] == env.listing[..n - 1] + [env.listing[n - 1]];
    }
  }

  lemma {:induction false} DeletingSpares(env: Env, k: nat, files: Files, names: seq<Path>, i: nat, need: nat, p: Path)
    requires i <= |names| && p !in names
    ensures var r := Deleting(env, k, files, names, i, need);
      Holds(r.files, p) == Holds(files, p) && forall shot, s :: shot in r.shots && May(shot, s) ==> Holds(s, p) == Holds(files, p)
    decreases |names| - i
  {
    if i < |names| && env.cacheFree(k, i) < need {
      assert names[i] in names;
      var less := Removed(env, files, names[i]);
      DeletingSpares(env, k, less, names, i + 1, need, p);
      var rest := Deleting(env, k, less, names, i + 1, need).shots;
      assert forall shot :: shot in [Exact(less)] + rest ==> shot == Exact(less) || shot in rest;
    }
  }

  /** Making room leaves a file alone that is open, is the saved copy, or is not listed, in every state on the way. */
  lemma FreeCacheSpares(env: Env, k: nat, files: Files, need: nat, p: Path)
    requires p in env.open || p == "/cache/saved.file" || p !in env.listing
    ensures var r := FreeCache(env, k, files, need);
      Holds(r.files, p) == Holds(files, p) && forall shot, s :: shot in r.shots && May(shot, s) ==> Holds(s, p) == Holds(files, p)
  {
    var names := Expendable(env, files, |env.listing|);
    ExpendableMeans(env, files, |env.listing|);
    DeletingSpares(env, k, files, names, 0, need, p);
  }

  /** How many files go: one at a time, until there is room, or until there are no more. */
  lemma {:induction false} DeletingStops(env: Env, k: nat, files: Files, names: seq<Path>, i: nat, need: nat)
    requires i <= |names|
    ensures var r := Deleting(env, k, files, names, i, need); var n := i + |r.shots|;
      && n <= |names| && (r.code == None <==> env.cacheFree(k, n) >= need) && (r.code != None ==> n == |names|)
      && forall m :: i <= m < n ==> env.cacheFree(k, m) < need
    decreases |names| - i
  {
    if i < |names| && env.cacheFree(k, i) < need {
      DeletingStops(env, k, Removed(env, files, names[i]), names, i + 1, need);
    }
  }

  /** Making room deletes no more than it needs to: none while there is room, and after each file it looks again. It fails
      when nothing is left to delete, or the open files cannot be found out. */
  lemma FreeCacheStops(env: Env, k: nat, files: Files, need: nat)
    ensures var r, names := FreeCache(env, k, files, need), Expendable(env, files, |env.listing|);
      var n := |r.shots|;
      && n <= |names| && (r.code == None <==> env.cacheFree(k, n) >= need)
      && (r.code != None ==> !env.procReadable || n == |names|)
      && forall m :: 0 <= m < n ==> env.cacheFree(k, m) < need
  {
    DeletingStops(env, k, files, Expendable(env, files, |env.listing|), 0, need);
  }

  /** Can this run's data, once lost from its place, still be had? */
  ghost predicate Backed(cfg: Config, tools: Tools, files: Files, data: seq<byte>) {
    Patchable(cfg, tools, data) && SAVED in files && files[SAVED] == data
  }

  lemma WriteSavedSound(cfg: Config, tools: Tools, was: Option<seq<byte>>, files: Files, data: seq<byte>, how: Writing)
    requires Separate(cfg) && cfg.source in files && Patchable(cfg, tools, files[cfg.source]) && Whole(cfg, tools, was, files)
    ensures AllSound(cfg, tools, was, Write(files, SAVED, data, how).shots)
    ensures Whole(cfg, tools, was, Write(files, SAVED, data, how).files)
    ensures cfg.source in Write(files, SAVED, data, how).files
    ensures Write(files, SAVED, data, how).files[cfg.source] == files[cfg.source]
    ensures how == Complete ==> Holds(Write(files, SAVED, data, how).files, SAVED) == Some(data)
    ensures Write(files, SAVED, data, how).code == None <==> how == Complete
  {
    assert OnCache(SAVED) && cfg.source != SAVED;
  }

  /** Backing up: until the copy is complete the source is there, and afterwards the copy is. */
  lemma BackupSound(cfg: Config, tools: Tools, was: Option<seq<byte>>, env: Env, k: nat, files: Files, data: seq<byte>)
    requires Separate(cfg) && Honest(env)
    requires cfg.source in files && files[cfg.source] == data && Patchable(cfg, tools, data) && Whole(cfg, tools, was, files)
    ensures var r := Backup(cfg, env, k, files, data);
      && AllSound(cfg, tools, was, r.shots) && Sound(cfg, tools, was, r.files)
      && (r.code == None ==> Backed(cfg, tools, r.files, data) && r.copied)
  {
    hide Patchable, FreeCache;
    FreeCacheKeeps(cfg, env, k, files, |data|);
    var freed := FreeCache(env, k, files, |data|);
    SameAllSound(cfg, tools, was, files, freed.shots);
    SameSound(cfg, tools, was, files, freed.files);
    if freed.code == None {
      assert Holds(freed.files, cfg.source) == Some(data);
      var w := Write(freed.files, SAVED, data, env.save(k));
      WriteSavedSound(cfg, tools, was, freed.files, data, env.save(k));
      AllSoundJoin(cfg, tools, was, freed.shots, w.shots);
      if w.code == None {
        var s := Removed(env, w.files, cfg.source);
        assert OnCache(SAVED) && cfg.source != SAVED;
        assert Holds(s, SAVED) == Some(data);
        assert AllSound(cfg, tools, was, [Exact(s)]);
        AllSoundJoin(cfg, tools, was, freed.shots + w.shots, [Exact(s)]);
      }
    }
  }

  lemma OtherFileKeeps(cfg: Config, files: Files, path: Path, left: seq<byte>)
    requires path != cfg.source && path != cfg.target && path != SAVED
    ensures SameKept(cfg, files, files[path := left]) && AllSame(cfg, files, [Torn(files, path), Exact(files[path := left])])
  {
  }

  /** Writing the temporary file touches nothing that is kept. */
  lemma ProduceKeeps(cfg: Config, tools: Tools, env: Env, k: nat, files: Files, data: seq<byte>, patch: seq<byte>)
    requires Separate(cfg)
    ensures var r := Produce(cfg, tools, env, k, files, data, patch);
      SameKept(cfg, files, r.files) && AllSame(cfg, files, r.shots) && !r.copied
  {
    hide SameKept, AllSame;
    TempOutside(cfg);
    OtherFileKeeps(cfg, files, TempName(cfg), []);
    if env.sink(k).Partial? { OtherFileKeeps(cfg, files, TempName(cfg), env.sink(k).left); }
    if env.sink(k) == NotOpened { StopKeeps(cfg, files, 3); }
    match tools.produce(data, patch)
    case Unknown =>
    case Broken(out) => OtherFileKeeps(cfg, files, TempName(cfg), out);
    case Endless(out) => OtherFileKeeps(cfg, files, TempName(cfg), out);
    case Full(out) => OtherFileKeeps(cfg, files, TempName(cfg), out);
  }

  lemma StopKeeps(cfg: Config, files: Files, code: int)
    ensures SameKept(cfg, files, Stop(files, code).files) && AllSame(cfg, files, Stop(files, code).shots)
  {
  }

  /** The data of this run is still where it came from, or safely in the saved copy. */
  ghost predicate Rooted(cfg: Config, tools: Tools, files: Files, fromSource: bool, data: seq<byte>) {
    && Patchable(cfg, tools, data)
    && (if fromSource then cfg.source in files && files[cfg.source] == data else SAVED in files && files[SAVED] == data)
  }

  /** The retry loop passes through safe states only. */
  lemma {:induction false} AttemptsSound(cfg: Config, tools: Tools, was: Option<seq<byte>>, env: Env, k: nat,
      files: Files, fromSource: bool, data: seq<byte>, patch: seq<byte>)
    requires Separate(cfg) && Honest(env) && k <= 1 && Rooted(cfg, tools, files, fromSource, data)
    requires Whole(cfg, tools, was, files)
    ensures var r := Attempts(cfg, tools, env, k, files, fromSource, data, patch);
      AllSound(cfg, tools, was, r.shots) && Sound(cfg, tools, was, r.files) && r.code != Some(0)
    decreases 1 - k
  {
    hide Patchable, Backup, Produce;
    var enough := k == 0 && Enough(cfg, env);
    var backed := if !enough && fromSource then Backup(cfg, env, k, files, data) else Run(files, [], None);
    if !enough && fromSource { BackupSound(cfg, tools, was, env, k, files, data); }
    if backed.code == None {
      var p := Produce(cfg, tools, env, k, backed.files, data, patch);
      ProduceKeeps(cfg, tools, env, k, backed.files, data, patch);
      SameAllSound(cfg, tools, was, backed.files, p.shots);
      SameSound(cfg, tools, was, backed.files, p.files);
      AllSoundJoin(cfg, tools, was, backed.shots, p.shots);
      if p.code == Some(1) && enough {
        var made := Then(backed, p);
        var gone := Removed(env, made.files, TempName(cfg));
        TempOutside(cfg);
        assert SameKept(cfg, backed.files, gone);
        SameSound(cfg, tools, was, backed.files, gone);
        assert AllSound(cfg, tools, was, [Exact(gone)]);
        AllSoundJoin(cfg, tools, was, made.shots, [Exact(gone)]);
        RootedSame(cfg, tools, files, gone, fromSource, data);
        AttemptsSound(cfg, tools, was, env, k + 1, gone, fromSource, data, patch);
        AllSoundJoin(cfg, tools, was, made.shots + [Exact(gone)], Attempts(cfg, tools, env, k + 1, gone, fromSource, data, patch).shots);
      }
    }
  }

  lemma RootedSame(cfg: Config, tools: Tools, s: Files, t: Files, fromSource: bool, data: seq<byte>)
    requires SameKept(cfg, s, t) && Rooted(cfg, tools, s, fromSource, data)
    ensures Rooted(cfg, tools, t, fromSource, data)
  {
    assert cfg.source in s ==> Holds(s, cfg.source).Some?;
    assert SAVED in s ==> Holds(s, SAVED).Some?;
  }

  // The hash and the file

  /** Does a first attempt with room for source and target fail in a way that is tried again? */
  predicate Retries(cfg: Config, tools: Tools, env: Env, data: seq<byte>, patch: seq<byte>) {
    && Enough(cfg, env) && env.sink(0) != NotOpened
    && match tools.produce(data, patch)
       case Full(_) => env.sink(0).Partial? && !Unnoticed(tools, data, patch, env.sink(0))
       case Broken(_) => true
       case _ => false
  }

  /** How the temporary file is written by the last attempt. */
  function LastSink(cfg: Config, tools: Tools, env: Env, data: seq<byte>, patch: seq<byte>): Writing {
    env.sink(if Retries(cfg, tools, env, data, patch) then 1 else 0)
  }

  /** Has the decoder succeeded, and what it hashed and left in the file. */
  ghost predicate Made(cfg: Config, tools: Tools, how: Writing, data: seq<byte>, patch: seq<byte>, r: Run) {
    && tools.produce(data, patch).Full? && (how == Complete || Unnoticed(tools, data, patch, how))
    && r.hashed == (if how == Complete then tools.produce(data, patch).out else how.hashed)
    && Holds(r.files, TempName(cfg)) == Some(if how == Complete then tools.produce(data, patch).out else how.left)
  }

  lemma ProduceMade(cfg: Config, tools: Tools, env: Env, k: nat, files: Files, data: seq<byte>, patch: seq<byte>)
    ensures var r := Produce(cfg, tools, env, k, files, data, patch);
      && (r.code == None ==> Made(cfg, tools, env.sink(k), data, patch, r))
      && (r.code == None <==> tools.produce(data, patch).Full? && (env.sink(k) == Complete || Unnoticed(tools, data, patch, env.sink(k))))
      && (k == 0 && Enough(cfg, env) ==> (r.code == Some(1) <==> Retries(cfg, tools, env, data, patch)))
      && (r.code == Some(NEVER) <==> tools.produce(data, patch).Endless? && env.sink(k) != NotOpened)
      && r.code != Some(0)
  {
    hide Enough;
  }

  /** When the attempts succeed, what the last one left and hashed is there; only of a cut that the decoder does not
      notice are the two different. */
  lemma AttemptsMade(cfg: Config, tools: Tools, env: Env, files: Files, fromSource: bool, data: seq<byte>, patch: seq<byte>)
    ensures var r := Attempts(cfg, tools, env, 0, files, fromSource, data, patch);
      r.code == None ==> Made(cfg, tools, LastSink(cfg, tools, env, data, patch), data, patch, r)
  {
    hide Backup, Enough, Unnoticed, Produce, Retries;
    var backed := if !Enough(cfg, env) && fromSource then Backup(cfg, env, 0, files, data) else Run(files, [], None);
    ProduceMade(cfg, tools, env, 0, backed.files, data, patch);
    RetriesEnough(cfg, tools, env, data, patch);
    if Retries(cfg, tools, env, data, patch) {
      var gone := Removed(env, Produce(cfg, tools, env, 0, files, data, patch).files, TempName(cfg));
      var again := if fromSource then Backup(cfg, env, 1, gone, data) else Run(gone, [], None);
      ProduceMade(cfg, tools, env, 1, again.files, data, patch);
    }
  }

  lemma RetriesEnough(cfg: Config, tools: Tools, env: Env, data: seq<byte>, patch: seq<byte>)
    ensures Retries(cfg, tools, env, data, patch) ==> Enough(cfg, env)
  {
  }

  /** Is the hash of a cut output the one wanted, though what is left in the file has another? */
  ghost predicate Fools(cfg: Config, tools: Tools, data: seq<byte>, patch: seq<byte>, how: Writing) {
    && tools.produce(data, patch).Full? && Unnoticed(tools, data, patch, how)
    && tools.sha(how.hashed) == cfg.targetSha && tools.sha(how.left) != cfg.targetSha
  }

  /** The run is not fooled by the hash of output that was cut short. */
  ghost predicate Unfooled(cfg: Config, tools: Tools, env: Env, files: Files) {
    var c := Choose(cfg, tools, env, files);
    !SeenDone(cfg, tools, env, files) && c.Some? ==>
      var patch := PatchFor(cfg, tools, c.value.data);
      !Fools(cfg, tools, c.value.data, patch, LastSink(cfg, tools, env, c.value.data, patch))
  }

  /** What will be renamed has the hash that was taken. */
  ghost predicate Trusted(cfg: Config, tools: Tools, made: Run) {
    made.code == None && tools.sha(made.hashed) == cfg.targetSha && TempName(cfg) in made.files ==>
      tools.sha(made.files[TempName(cfg)]) == cfg.targetSha
  }

  lemma AttemptsTrusted(cfg: Config, tools: Tools, env: Env, files: Files, fromSource: bool, data: seq<byte>, patch: seq<byte>)
    requires !Fools(cfg, tools, data, patch, LastSink(cfg, tools, env, data, patch))
    ensures Trusted(cfg, tools, Attempts(cfg, tools, env, 0, files, fromSource, data, patch))
  {
    hide Attempts, Unnoticed, LastSink;
    AttemptsMade(cfg, tools, env, files, fromSource, data, patch);
  }

  /** The check and the renaming keep what is sound, and exit with 0 only when the target is done. */
  lemma FinishSound(cfg: Config, tools: Tools, was: Option<seq<byte>>, env: Env, made: Run)
    requires Separate(cfg) && AllSound(cfg, tools, was, made.shots) && Sound(cfg, tools, was, made.files)
    requires Trusted(cfg, tools, made)
    ensures var r := Finish(cfg, tools, env, made); AllSound(cfg, tools, was, r.shots) && Sound(cfg, tools, was, r.files)
    ensures var r := Finish(cfg, tools, env, made); made.code != Some(0) && r.code == Some(0) ==> IsDone(cfg, tools, r.files)
  {
    hide Patchable;
    var tmp := TempName(cfg);
    if made.code == None && tmp in made.files && tools.sha(made.files[tmp]) == cfg.targetSha {
      var s := (made.files - {tmp})[cfg.target := made.files[tmp]];
      assert s[cfg.target] == made.files[tmp];
      assert AllSound(cfg, tools, was, [Exact(s)]);
      AllSoundJoin(cfg, tools, was, made.shots, [Exact(s)]);
      assert OnCache(SAVED) && cfg.target != SAVED;
      var t := Removed(env, s, SAVED);
      assert t[cfg.target] == s[cfg.target];
      assert AllSound(cfg, tools, was, [Exact(t)]);
      AllSoundJoin(cfg, tools, was, made.shots + [Exact(s)], [Exact(t)]);
    }
  }

  /** What is chosen is there, so it is rooted where it was read. */
  lemma ChosenRooted(cfg: Config, tools: Tools, env: Env, files: Files)
    ensures var c := Choose(cfg, tools, env, files);
      c.Some? ==> Patchable(cfg, tools, c.value.data) && Rooted(cfg, tools, files, c.value.fromSource, c.value.data)
  {
    hide Patchable;
  }

  /** Started in a sound state, a run passes through sound states only, whatever its surroundings do. */
  lemma RunSound(cfg: Config, tools: Tools, was: Option<seq<byte>>, env: Env, files: Files)
    requires Separate(cfg) && Honest(env) && Sound(cfg, tools, was, files) && Unfooled(cfg, tools, env, files)
    ensures var r := WholeRun(cfg, tools, env, files); AllSound(cfg, tools, was, r.shots) && Sound(cfg, tools, was, r.files)
    ensures var r := WholeRun(cfg, tools, env, files); r.code == Some(0) ==> IsDone(cfg, tools, r.files)
  {
    hide Attempts, Finish, Separate, Honest, Whole, Patchable, Choose, Fools, LastSink, Safe;
    var c := Choose(cfg, tools, env, files);
    ChosenRooted(cfg, tools, env, files);
    if !SeenDone(cfg, tools, env, files) && c.Some? {
      var patch := PatchFor(cfg, tools, c.value.data);
      AttemptsSound(cfg, tools, was, env, 0, files, c.value.fromSource, c.value.data, patch);
      AttemptsTrusted(cfg, tools, env, files, c.value.fromSource, c.value.data, patch);
      FinishSound(cfg, tools, was, env, Attempts(cfg, tools, env, 0, files, c.value.fromSource, c.value.data, patch));
    }
  }

  // Many runs

  /** What a run in these surroundings may leave: the state it began with, the one it ended with, or one at a crash. */
  ghost predicate Leaves(cfg: Config, tools: Tools, env: Env, s: Files, t: Files) {
    var r := WholeRun(cfg, tools, env, s);
    t == s || t == r.files || exists shot :: shot in r.shots && May(shot, t)
  }

  /** Each state but the first was left by a run started in the one before it. */
  ghost predicate History(cfg: Config, tools: Tools, envs: seq<Env>, states: seq<Files>) {
    && |states| == |envs| + 1
    && forall i :: 0 <= i < |envs| ==> Honest(envs[i]) && Leaves(cfg, tools, envs[i], states[i], states[i + 1])
  }

  /** None of the runs is fooled. */
  ghost predicate NeverFooled(cfg: Config, tools: Tools, envs: seq<Env>, states: seq<Files>)
    requires |states| == |envs| + 1
  {
    forall i :: 0 <= i < |envs| ==> Unfooled(cfg, tools, envs[i], states[i])
  }

  /** However often the patcher is started and killed, the target can still be had,
      and nobody ever sees a target half written. */
  lemma {:induction false} AlwaysSound(cfg: Config, tools: Tools, envs: seq<Env>, states: seq<Files>, i: nat)
    requires Separate(cfg) && History(cfg, tools, envs, states) && Safe(cfg, tools, states[0]) && i < |states|
    requires NeverFooled(cfg, tools, envs, states)
    ensures Sound(cfg, tools, Holds(states[0], cfg.target), states[i])
  {
    hide WholeRun, Safe, Separate, Unfooled;
    if i > 0 {
      AlwaysSound(cfg, tools, envs, states, i - 1);
      assert Honest(envs[i - 1]) && Leaves(cfg, tools, envs[i - 1], states[i - 1], states[i - 1 + 1]);
      RunSound(cfg, tools, Holds(states[0], cfg.target), envs[i - 1], states[i - 1]);
    }
  }

  /** Once a run has exited with 0, later runs that can read the target find nothing to do and change nothing, even
      when killed. */
  lemma {:induction false} SuccessStays(cfg: Config, tools: Tools, envs: seq<Env>, states: seq<Files>, i: nat, next: Env)
    requires Separate(cfg) && History(cfg, tools, envs, states) && Safe(cfg, tools, states[0]) && 0 < i < |states|
    requires NeverFooled(cfg, tools, envs, states)
    requires WholeRun(cfg, tools, envs[0], states[0]).code == Some(0) && states[1] == WholeRun(cfg, tools, envs[0], states[0]).files
    requires cfg.target !in next.unread && forall k :: 0 < k < i ==> cfg.target !in envs[k].unread
    ensures states[i] == states[1] && WholeRun(cfg, tools, next, states[i]) == Stop(states[i], 0)
  {
    hide Separate, Attempts, Finish, Unfooled, Choose;
    assert Honest(envs[0]);
    RunSound(cfg, tools, Holds(states[0], cfg.target), envs[0], states[0]);
    if i > 1 {
      SuccessStays(cfg, tools, envs, states, i - 1, envs[i - 1]);
      assert Leaves(cfg, tools, envs[i - 1], states[i - 1], states[i - 1 + 1]);
    }
  }
}

/** How the patcher gets on: when it finishes, what its exit code means, and what happens to the source. */
module CrashRecovery {
  import opened Bytes
  import opened PatchRun
  import opened CrashSafety

  // One attempt after which there is no other

  function LastTry(cfg: Config, tools: Tools, env: Env, k: nat, files: Files, c: Choice, patch: seq<byte>): Run {
    var backed := if c.fromSource then Backup(cfg, env, k, files, c.data) else Run(files, [], None);
    if backed.code.Some? then Stop'(backed) else
    var made := Then(backed, Produce(cfg, tools, env, k, backed.files, c.data, patch));
    if made.code in {None, Some(NEVER)} then made else Stop'(made)
  }

  function Cleared(cfg: Config, tools: Tools, env: Env, files: Files, c: Choice, patch: seq<byte>): Run {
    var first := Produce(cfg, tools, env, 0, files, c.data, patch);
    Then(first, Step(Removed(env, first.files, TempName(cfg))))
  }

  /** The loop goes round twice when the first attempt is tried again, and else once. */
  lemma AttemptsForm(cfg: Config, tools: Tools, env: Env, files: Files, c: Choice, patch: seq<byte>)
    ensures var all := Attempts(cfg, tools, env, 0, files, c.fromSource, c.data, patch);
      var first, cleared := Produce(cfg, tools, env, 0, files, c.data, patch), Cleared(cfg, tools, env, files, c, patch);
      if Retries(cfg, tools, env, c.data, patch) then
        all == Then(cleared, LastTry(cfg, tools, env, 1, cleared.files, c, patch))
      else if Enough(cfg, env) then
        all == if first.code in {None, Some(NEVER)} then first else Stop'(first)
      else
        all == LastTry(cfg, tools, env, 0, files, c, patch)
  {
    hide Produce, Backup, Enough, Retries;
    ProduceMade(cfg, tools, env, 0, files, c.data, patch);
    RetriesEnough(cfg, tools, env, c.data, patch);
    var first := Produce(cfg, tools, env, 0, files, c.data, patch);
    ProduceFresh(cfg, tools, env, 0, files, c.data, patch);
    assert Then(Run(files, [], None), first) == first;
  }

  lemma ProduceFresh(cfg: Config, tools: Tools, env: Env, k: nat, files: Files, data: seq<byte>, patch: seq<byte>)
    ensures !Produce(cfg, tools, env, k, files, data, patch).copied
  {
  }

  /** Can an attempt that needs the source out of the way have it there? */
  predicate Ready(env: Env, k: nat, files: Files, c: Choice) {
    c.fromSource ==> FreeCache(env, k, files, |c.data|).code == None && env.save(k) == Complete
  }

  lemma BackupReady(cfg: Config, env: Env, k: nat, files: Files, c: Choice)
    requires c.fromSource
    ensures Backup(cfg, env, k, files, c.data).code == None <==> Ready(env, k, files, c)
  {
    hide FreeCache;
  }

  // Room on the cache does not depend on files elsewhere

  lemma {:induction false} DeletingCode(env: Env, k: nat, files: Files, other: Files, names: seq<Path>, i: nat, need: nat)
    requires i <= |names|
    ensures Deleting(env, k, files, names, i, need).code == Deleting(env, k, other, names, i, need).code
    decreases |names| - i
  {
    if i < |names| { DeletingCode(env, k, Removed(env, files, names[i]), Removed(env, other, names[i]), names, i + 1, need); }
  }

  lemma {:induction false} ExpendableSame(env: Env, files: Files, other: Files, n: nat)
    requires Honest(env) && n <= |env.listing| && forall p :: OnCache(p) ==> (p in files <==> p in other)
    ensures Expendable(env, files, n) == Expendable(env, other, n)
  {
    if n > 0 {
      ExpendableSame(env, files, other, n - 1);
      assert env.listing[n - 1] in env.listing;
    }
  }

  lemma FreeCacheCode(env: Env, k: nat, files: Files, other: Files, need: nat)
    requires Honest(env) && forall p :: OnCache(p) ==> (p in files <==> p in other)
    ensures FreeCache(env, k, files, need).code == FreeCache(env, k, other, need).code
  {
    ExpendableSame(env, files, other, |env.listing|);
    DeletingCode(env, k, files, other, Expendable(env, files, |env.listing|), 0, need);
  }

  /** Writing and removing the temporary file does not change what can be backed up. */
  lemma ClearedReady(cfg: Config, tools: Tools, env: Env, files: Files, c: Choice, patch: seq<byte>)
    requires Separate(cfg) && Honest(env)
    ensures Ready(env, 1, Cleared(cfg, tools, env, files, c, patch).files, c) <==> Ready(env, 1, files, c)
  {
    hide Produce, FreeCache, Honest;
    var left := Cleared(cfg, tools, env, files, c, patch).files;
    TempOutside(cfg);
    ProducePaths(cfg, tools, env, 0, files, c.data, patch);
    FreeCacheCode(env, 1, files, left, |c.data|);
  }

  lemma ProducePaths(cfg: Config, tools: Tools, env: Env, k: nat, files: Files, data: seq<byte>, patch: seq<byte>)
    ensures forall p :: p != TempName(cfg) ==> (p in files <==> p in Produce(cfg, tools, env, k, files, data, patch).files)
  {
  }

  // How a run ends

  /** Does the decoder of the last attempt get to work? */
  predicate Reaches(cfg: Config, tools: Tools, env: Env, files: Files, c: Choice, patch: seq<byte>) {
    && LastSink(cfg, tools, env, c.data, patch) != NotOpened
    && (Retries(cfg, tools, env, c.data, patch) ==> Ready(env, 1, files, c))
    && (!Enough(cfg, env) ==> Ready(env, 0, files, c))
  }

  /** What the last attempt leaves in the temporary file, and what it has hashed. */
  function LastLeft(cfg: Config, tools: Tools, env: Env, c: Choice, patch: seq<byte>): (r: (seq<byte>, seq<byte>))
    requires tools.produce(c.data, patch).Full? && LastSink(cfg, tools, env, c.data, patch) != NotOpened
  {
    match LastSink(cfg, tools, env, c.data, patch)
    case Complete => (tools.produce(c.data, patch).out, tools.produce(c.data, patch).out)
    case Partial(left, hashed) => (left, hashed)
  }

  /** Does the decoder of the last attempt succeed? */
  predicate Delivers(cfg: Config, tools: Tools, env: Env, files: Files, c: Choice, patch: seq<byte>) {
    && Reaches(cfg, tools, env, files, c, patch) && tools.produce(c.data, patch).Full?
    && var how := LastSink(cfg, tools, env, c.data, patch);
       how == Complete || Unnoticed(tools, c.data, patch, how)
  }

  lemma LastTryEnds(cfg: Config, tools: Tools, env: Env, k: nat, files: Files, c: Choice, patch: seq<byte>)
    ensures var r, how := LastTry(cfg, tools, env, k, files, c, patch), env.sink(k);
      && r.code in {None, Some(1), Some(NEVER)}
      && (r.code == None <==>
            Ready(env, k, files, c) && tools.produce(c.data, patch).Full? && (how == Complete || Unnoticed(tools, c.data, patch, how)))
      && (r.code == Some(NEVER) <==> Ready(env, k, files, c) && how != NotOpened && tools.produce(c.data, patch).Endless?)
  {
    hide Backup, Produce, Ready;
    if c.fromSource { BackupReady(cfg, env, k, files, c); } else { assert Ready(env, k, files, c) by { NoBackup(env, k, files, c); } }
    var backed := if c.fromSource then Backup(cfg, env, k, files, c.data) else Run(files, [], None);
    ProduceMade(cfg, tools, env, k, backed.files, c.data, patch);
  }

  lemma NoBackup(env: Env, k: nat, files: Files, c: Choice)
    requires !c.fromSource
    ensures Ready(env, k, files, c)
  {
  }

  lemma RetriesMeans(cfg: Config, tools: Tools, env: Env, data: seq<byte>, patch: seq<byte>)
    ensures Retries(cfg, tools, env, data, patch) ==> Enough(cfg, env) && !tools.produce(data, patch).Endless?
    ensures LastSink(cfg, tools, env, data, patch) == env.sink(if Retries(cfg, tools, env, data, patch) then 1 else 0)
  {
  }

  /** How the attempts end, by what a caller could look up beforehand. */
  lemma AttemptsEnd(cfg: Config, tools: Tools, env: Env, files: Files, c: Choice, patch: seq<byte>)
    requires Separate(cfg) && Honest(env)
    ensures var r := Attempts(cfg, tools, env, 0, files, c.fromSource, c.data, patch);
      && r.code in {None, Some(1), Some(NEVER)}
      && (r.code == None <==> Delivers(cfg, tools, env, files, c, patch))
      && (r.code == Some(NEVER) <==> Reaches(cfg, tools, env, files, c, patch) && tools.produce(c.data, patch).Endless?)
  {
    hide Attempts, LastTry, Produce, Ready, Retries, Enough, LastSink, Separate, Honest;
    AttemptsForm(cfg, tools, env, files, c, patch);
    RetriesMeans(cfg, tools, env, c.data, patch);
    if Retries(cfg, tools, env, c.data, patch) {
      LastTryEnds(cfg, tools, env, 1, Cleared(cfg, tools, env, files, c, patch).files, c, patch);
      ClearedReady(cfg, tools, env, files, c, patch);
    } else if Enough(cfg, env) {
      ProduceMade(cfg, tools, env, 0, files, c.data, patch);
    } else {
      LastTryEnds(cfg, tools, env, 0, files, c, patch);
    }
  }

  /** Does the run exit with 0? */
  predicate Succeeds(cfg: Config, tools: Tools, env: Env, files: Files, c: Choice, patch: seq<byte>) {
    && Delivers(cfg, tools, env, files, c, patch) && env.chmod && env.rename
    && tools.sha(LastLeft(cfg, tools, env, c, patch).1) == cfg.targetSha
  }

  /** A run that finds data to patch exits with 0, with 1, or not at all, exactly by its guards; after a success
      the target holds what the last attempt left. */
  lemma RunExactly(cfg: Config, tools: Tools, env: Env, files: Files)
    requires Separate(cfg) && Honest(env) && !SeenDone(cfg, tools, env, files) && Choose(cfg, tools, env, files).Some?
    ensures var r, c := WholeRun(cfg, tools, env, files), Choose(cfg, tools, env, files).value;
      var patch := PatchFor(cfg, tools, c.data);
      && (r.code == Some(0) <==> Succeeds(cfg, tools, env, files, c, patch))
      && (r.code == Some(NEVER) <==> Reaches(cfg, tools, env, files, c, patch) && tools.produce(c.data, patch).Endless?)
      && r.code in {Some(0), Some(1), Some(NEVER)}
      && (r.code == Some(0) ==> Holds(r.files, cfg.target) == Some(LastLeft(cfg, tools, env, c, patch).0))
  {
    hide Attempts, Delivers, Reaches, Choose, Separate, Honest, Patchable, LastSink, Unnoticed;
    var c := Choose(cfg, tools, env, files).value;
    var patch := PatchFor(cfg, tools, c.data);
    AttemptsEnd(cfg, tools, env, files, c, patch);
    AttemptsMade(cfg, tools, env, files, c.fromSource, c.data, patch);
    var made := Attempts(cfg, tools, env, 0, files, c.fromSource, c.data, patch);
    DeliversMeans(cfg, tools, env, files, c, patch);
    FinishEnds(cfg, tools, env, made);
  }

  lemma DeliversMeans(cfg: Config, tools: Tools, env: Env, files: Files, c: Choice, patch: seq<byte>)
    ensures Delivers(cfg, tools, env, files, c, patch) ==>
      tools.produce(c.data, patch).Full? && LastSink(cfg, tools, env, c.data, patch) != NotOpened
  {
  }

  lemma FinishEnds(cfg: Config, tools: Tools, env: Env, made: Run)
    requires Separate(cfg) && made.code in {None, Some(1), Some(NEVER)} && (made.code == None ==> TempName(cfg) in made.files)
    ensures var r := Finish(cfg, tools, env, made);
      && (r.code == Some(0) <==> made.code == None && tools.sha(made.hashed) == cfg.targetSha && env.chmod && env.rename)
      && (r.code == Some(NEVER) <==> made.code == Some(NEVER)) && r.code in {Some(0), Some(1), Some(NEVER)}
      && (r.code == Some(0) ==> Holds(r.files, cfg.target) == Some(made.files[TempName(cfg)]))
      && (r.code != Some(0) ==> r.files == made.files)
  {
    assert OnCache(SAVED) && cfg.target != SAVED;
  }

  // The exit code

  /** The target is as it was, or away. */
  ghost predicate TargetKept(cfg: Config, s: Files, t: Files) {
    cfg.target in t ==> Holds(t, cfg.target) == Holds(s, cfg.target)
  }

  lemma BackupTarget(cfg: Config, env: Env, k: nat, files: Files, data: seq<byte>)
    requires Separate(cfg) && Honest(env)
    ensures TargetKept(cfg, files, Backup(cfg, env, k, files, data).files)
  {
    hide FreeCache;
    FreeCacheKeeps(cfg, env, k, files, |data|);
    var freed := FreeCache(env, k, files, |data|);
    assert OnCache(SAVED) && cfg.target != SAVED;
    assert cfg.target in freed.files <==> Holds(freed.files, cfg.target).Some?;
    assert TargetKept(cfg, files, freed.files);
  }

  lemma LastTryTarget(cfg: Config, tools: Tools, env: Env, k: nat, files: Files, c: Choice, patch: seq<byte>)
    requires Separate(cfg) && Honest(env)
    ensures TargetKept(cfg, files, LastTry(cfg, tools, env, k, files, c, patch).files)
  {
    hide Backup, Produce, Separate, Honest;
    BackupTarget(cfg, env, k, files, c.data);
    var backed := if c.fromSource then Backup(cfg, env, k, files, c.data) else Run(files, [], None);
    ProduceKeeps(cfg, tools, env, k, backed.files, c.data, patch);
    SameTarget(cfg, files, backed.files, Produce(cfg, tools, env, k, backed.files, c.data, patch).files);
  }

  lemma ClearedKeeps(cfg: Config, tools: Tools, env: Env, files: Files, c: Choice, patch: seq<byte>)
    requires Separate(cfg)
    ensures var r := Cleared(cfg, tools, env, files, c, patch); SameKept(cfg, files, r.files) && AllSame(cfg, files, r.shots)
  {
    hide Produce;
    ProduceKeeps(cfg, tools, env, 0, files, c.data, patch);
    TempOutside(cfg);
    var first := Produce(cfg, tools, env, 0, files, c.data, patch);
    var gone := Removed(env, first.files, TempName(cfg));
    assert SameKept(cfg, first.files, gone);
    assert forall shot :: shot in first.shots + [Exact(gone)] ==> shot in first.shots || shot == Exact(gone);
  }

  lemma AttemptsTarget(cfg: Config, tools: Tools, env: Env, files: Files, c: Choice, patch: seq<byte>)
    requires Separate(cfg) && Honest(env)
    ensures TargetKept(cfg, files, Attempts(cfg, tools, env, 0, files, c.fromSource, c.data, patch).files)
  {
    hide Attempts, LastTry, Produce, Retries, Enough, Separate, Honest, Cleared;
    AttemptsForm(cfg, tools, env, files, c, patch);
    ProduceKeeps(cfg, tools, env, 0, files, c.data, patch);
    SameTarget(cfg, files, files, Produce(cfg, tools, env, 0, files, c.data, patch).files);
    LastTryTarget(cfg, tools, env, 0, files, c, patch);
    var cleared := Cleared(cfg, tools, env, files, c, patch);
    ClearedKeeps(cfg, tools, env, files, c, patch);
    LastTryTarget(cfg, tools, env, 1, cleared.files, c, patch);
    var last := LastTry(cfg, tools, env, 1, cleared.files, c, patch).files;
    assert cfg.target in last ==> Holds(last, cfg.target) == Holds(files, cfg.target);
  }

  lemma SameTarget(cfg: Config, files: Files, s: Files, t: Files)
    requires TargetKept(cfg, files, s)
    requires cfg.target in t ==> Holds(t, cfg.target) == Holds(s, cfg.target)
    ensures TargetKept(cfg, files, t)
  {
    assert cfg.target in t ==> Holds(t, cfg.target).Some?;
  }

  /** A run that can read the target and is not fooled leaves it done exactly when it exits with 0. */
  lemma ExitCode(cfg: Config, tools: Tools, env: Env, files: Files)
    requires Separate(cfg) && Honest(env) && Unfooled(cfg, tools, env, files) && cfg.target !in env.unread
    ensures var r := WholeRun(cfg, tools, env, files); r.code == Some(0) <==> IsDone(cfg, tools, r.files)
    ensures WholeRun(cfg, tools, env, files).code in {Some(0), Some(1), Some(NEVER)}
  {
    hide Attempts, Separate, Honest, Choose, Patchable, LastSink, Fools;
    var c := Choose(cfg, tools, env, files);
    if !IsDone(cfg, tools, files) && c.Some? {
      var patch := PatchFor(cfg, tools, c.value.data);
      var made := Attempts(cfg, tools, env, 0, files, c.value.fromSource, c.value.data, patch);
      AttemptsTarget(cfg, tools, env, files, c.value, patch);
      AttemptsEnd(cfg, tools, env, files, c.value, patch);
      AttemptsMade(cfg, tools, env, files, c.value.fromSource, c.value.data, patch);
      AttemptsTrusted(cfg, tools, env, files, c.value.fromSource, c.value.data, patch);
      KeptUndone(cfg, tools, files, made.files);
      FinishEnds(cfg, tools, env, made);
    }
  }

  lemma KeptUndone(cfg: Config, tools: Tools, files: Files, s: Files)
    requires TargetKept(cfg, files, s) && !IsDone(cfg, tools, files)
    ensures !IsDone(cfg, tools, s)
  {
    assert cfg.target in s ==> Holds(files, cfg.target) == Some(s[cfg.target]);
  }

  /** Files that cannot be read are as if they were not there: a run that can read none of them exits with 1 and does nothing,
      and one that cannot read the source turns to the saved copy. */
  lemma UnreadMeans(cfg: Config, tools: Tools, env: Env, files: Files)
    ensures cfg.source in env.unread && cfg.target in env.unread && SAVED in env.unread ==> WholeRun(cfg, tools, env, files) == Stop(files, 1)
    ensures cfg.source in env.unread && SAVED !in env.unread && SAVED in files && Patchable(cfg, tools, files[SAVED]) ==>
      Choose(cfg, tools, env, files) == Some(Choice(false, files[SAVED]))
    ensures cfg.source !in env.unread && cfg.source in files && Patchable(cfg, tools, files[cfg.source]) ==>
      Choose(cfg, tools, env, files) == Some(Choice(true, files[cfg.source]))
  {
    hide Patchable;
  }

  // Finishing

  /** Nothing gets in the way of this run: what it reads can be read, a source that has to go out of the way can be
      copied to the cache, making room if need be, and no call of the first attempt fails. */
  ghost predicate Calm(cfg: Config, env: Env, start: Files) {
    && {cfg.source, cfg.target, SAVED} !! env.unread
    && (cfg.source in start && !Enough(cfg, env) ==>
          FreeCache(env, 0, start, |start[cfg.source]|).code == None && env.save(0) == Complete)
    && env.sink(0) == Complete && env.chmod && env.rename
  }

  /** The first attempt has room beside the source, but is cut short, and noticed to be; then the source can be copied to
      the cache, and nothing gets in the way of the second. */
  ghost predicate CalmAgain(cfg: Config, tools: Tools, env: Env, start: Files) {
    && {cfg.source, cfg.target, SAVED} !! env.unread
    && (var c := Choose(cfg, tools, env, start); c.Some? ==> Retries(cfg, tools, env, c.value.data, PatchFor(cfg, tools, c.value.data)))
    && (cfg.source in start ==>
          FreeCache(env, 1, start, |start[cfg.source]|).code == None && env.save(1) == Complete)
    && env.sink(1) == Complete && env.chmod && env.rename
  }

  /** The patch for this data, which there is, makes the data wanted of it. */
  ghost predicate PatchedWell(cfg: Config, tools: Tools, data: seq<byte>) {
    Patchable(cfg, tools, data) ==>
      var made := tools.produce(data, PatchFor(cfg, tools, data));
      made.Full? && tools.sha(made.out) == cfg.targetSha
  }

  /** What the run can patch is patched into the data wanted. */
  ghost predicate GoodPatches(cfg: Config, tools: Tools, start: Files) {
    && (cfg.source in start ==> PatchedWell(cfg, tools, start[cfg.source]))
    && (SAVED in start ==> PatchedWell(cfg, tools, start[SAVED]))
  }

  /** What can be read is chosen when there is anything to choose. */
  lemma ChooseSafe(cfg: Config, tools: Tools, env: Env, files: Files)
    requires {cfg.source, cfg.target, SAVED} !! env.unread && Safe(cfg, tools, files) && GoodPatches(cfg, tools, files)
    ensures SeenDone(cfg, tools, env, files) <==> IsDone(cfg, tools, files)
    ensures var c := Choose(cfg, tools, env, files);
      && (IsDone(cfg, tools, files) || c.Some?)
      && (c.Some? ==> PatchedWell(cfg, tools, c.value.data) && Patchable(cfg, tools, c.value.data))
      && (c.Some? && c.value.fromSource ==> cfg.source in files && files[cfg.source] == c.value.data)
  {
    hide PatchedWell, Patchable;
    assert cfg.source !in env.unread && cfg.target !in env.unread && SAVED !in env.unread;
  }

  /** From a safe state, so after any crashes, a run that nothing disturbs finishes the job: the target is what it was
      if it was done already, and else what the patch makes of the chosen data. */
  lemma CalmRunFinishes(cfg: Config, tools: Tools, env: Env, files: Files)
    requires Separate(cfg) && Honest(env) && GoodPatches(cfg, tools, files) && Safe(cfg, tools, files)
    requires Calm(cfg, env, files) || CalmAgain(cfg, tools, env, files)
    ensures var r := WholeRun(cfg, tools, env, files); r.code == Some(0) && IsDone(cfg, tools, r.files)
    ensures IsDone(cfg, tools, files) || Choose(cfg, tools, env, files).Some?
    ensures Holds(WholeRun(cfg, tools, env, files).files, cfg.target) == Some(
      if IsDone(cfg, tools, files) then files[cfg.target]
      else var data := Choose(cfg, tools, env, files).value.data; tools.produce(data, PatchFor(cfg, tools, data)).out)
  {
    hide Choose, Attempts, FreeCache, Finish, Patchable, Enough, Separate, Honest, Safe, GoodPatches, Unnoticed;
    ChooseSafe(cfg, tools, env, files);
    if !IsDone(cfg, tools, files) {
      var c := Choose(cfg, tools, env, files).value;
      RunExactly(cfg, tools, env, files);
      RetriesMeans(cfg, tools, env, c.data, PatchFor(cfg, tools, c.data));
    }
  }

  // The source

  /** Does the run take the source out of its place before there is anything in the target's? */
  predicate BacksUp(cfg: Config, tools: Tools, env: Env, files: Files) {
    !SeenDone(cfg, tools, env, files) &&
    match Choose(cfg, tools, env, files)
    case None => false
    case Some(c) =>
      && c.fromSource && cfg.source !in env.stays
      && (Enough(cfg, env) ==> Retries(cfg, tools, env, c.data, PatchFor(cfg, tools, c.data)))
      && Ready(env, if Enough(cfg, env) then 1 else 0, files, c)
  }

  /** The source is as it was in every state that the shots may leave. */
  ghost predicate AllKept(cfg: Config, files: Files, shots: seq<Shot>) {
    forall shot, s :: shot in shots && May(shot, s) ==> Holds(s, cfg.source) == Holds(files, cfg.source)
  }

  /** Some state has the source away and the target not done. */
  ghost predicate SomeAway(cfg: Config, tools: Tools, shots: seq<Shot>) {
    exists shot, s :: shot in shots && May(shot, s) && cfg.source !in s && !IsDone(cfg, tools, s)
  }

  /** Some state has the source changed or away and the target not done. */
  ghost predicate SomeTouched(cfg: Config, tools: Tools, files: Files, shots: seq<Shot>) {
    exists shot, s :: shot in shots && May(shot, s) && Holds(s, cfg.source) != Holds(files, cfg.source) && !IsDone(cfg, tools, s)
  }

  lemma SameAllKept(cfg: Config, files: Files, now: Files, shots: seq<Shot>)
    requires Holds(now, cfg.source) == Holds(files, cfg.source) && AllSame(cfg, now, shots)
    ensures AllKept(cfg, files, shots)
  {
    forall shot, s | shot in shots && May(shot, s) ensures Holds(s, cfg.source) == Holds(files, cfg.source) {
      assert SameKept(cfg, now, s);
    }
  }

  lemma AllKeptJoin(cfg: Config, files: Files, a: seq<Shot>, b: seq<Shot>)
    requires AllKept(cfg, files, a) && AllKept(cfg, files, b)
    ensures AllKept(cfg, files, a + b)
  {
    assert forall shot :: shot in a + b ==> shot in a || shot in b;
  }

  lemma WriteSavedKept(cfg: Config, files: Files, data: seq<byte>, how: Writing)
    requires Separate(cfg)
    ensures var w := Write(files, SAVED, data, how); AllKept(cfg, files, w.shots) && Holds(w.files, cfg.source) == Holds(files, cfg.source)
  {
    assert OnCache(SAVED) && cfg.source != SAVED;
  }

  /** Backing up leaves the source where it is unless it gets to unlinking it, and that works. */
  lemma BackupKept(cfg: Config, env: Env, k: nat, files: Files, c: Choice)
    requires Separate(cfg) && Honest(env) && c.fromSource && (!Ready(env, k, files, c) || cfg.source in env.stays)
    ensures var r := Backup(cfg, env, k, files, c.data); AllKept(cfg, files, r.shots) && Holds(r.files, cfg.source) == Holds(files, cfg.source)
  {
    hide FreeCache, Honest;
    FreeCacheKeeps(cfg, env, k, files, |c.data|);
    var freed := FreeCache(env, k, files, |c.data|);
    SameAllKept(cfg, files, files, freed.shots);
    if freed.code == None {
      var w := Write(freed.files, SAVED, c.data, env.save(k));
      WriteSavedKept(cfg, freed.files, c.data, env.save(k));
      AllKeptJoin(cfg, files, freed.shots, w.shots);
      if w.code == None {
        assert Removed(env, w.files, cfg.source) == w.files;
        assert AllKept(cfg, files, [Exact(w.files)]);
        AllKeptJoin(cfg, files, freed.shots + w.shots, [Exact(w.files)]);
      }
    }
  }

  /** Else there is a state with the source away and the target as it was, if it is another. */
  lemma BackupAway(cfg: Config, tools: Tools, env: Env, k: nat, files: Files, c: Choice)
    requires Separate(cfg) && Honest(env) && c.fromSource && Ready(env, k, files, c) && cfg.source !in env.stays
    requires !IsDone(cfg, tools, files)
    ensures var r := Backup(cfg, env, k, files, c.data); SomeAway(cfg, tools, r.shots) && cfg.source !in r.files && r.code == None
  {
    hide FreeCache, Honest;
    BackupTarget(cfg, env, k, files, c.data);
    var r := Backup(cfg, env, k, files, c.data);
    KeptUndone(cfg, tools, files, r.files);
    assert r.shots[|r.shots| - 1] == Exact(r.files);
    assert Exact(r.files) in r.shots && May(Exact(r.files), r.files);
  }

  lemma AwayJoin(cfg: Config, tools: Tools, a: seq<Shot>, b: seq<Shot>)
    requires SomeAway(cfg, tools, a) || SomeAway(cfg, tools, b)
    ensures SomeAway(cfg, tools, a + b)
  {
    assert forall shot :: shot in a || shot in b ==> shot in a + b;
  }

  lemma LastTryKept(cfg: Config, tools: Tools, env: Env, k: nat, files: Files, c: Choice, patch: seq<byte>)
    requires Separate(cfg) && Honest(env) && (c.fromSource ==> !Ready(env, k, files, c) || cfg.source in env.stays)
    ensures var r := LastTry(cfg, tools, env, k, files, c, patch);
      AllKept(cfg, files, r.shots) && Holds(r.files, cfg.source) == Holds(files, cfg.source)
  {
    hide Backup, Produce, Ready, Separate, Honest;
    if c.fromSource { BackupKept(cfg, env, k, files, c); }
    var backed := if c.fromSource then Backup(cfg, env, k, files, c.data) else Run(files, [], None);
    ProduceKeeps(cfg, tools, env, k, backed.files, c.data, patch);
    var p := Produce(cfg, tools, env, k, backed.files, c.data, patch);
    SameAllKept(cfg, files, backed.files, p.shots);
    AllKeptJoin(cfg, files, backed.shots, p.shots);
  }

  lemma LastTryAway(cfg: Config, tools: Tools, env: Env, k: nat, files: Files, c: Choice, patch: seq<byte>)
    requires Separate(cfg) && Honest(env) && c.fromSource && Ready(env, k, files, c) && cfg.source !in env.stays
    requires !IsDone(cfg, tools, files)
    ensures var r := LastTry(cfg, tools, env, k, files, c, patch); SomeAway(cfg, tools, r.shots) && cfg.source !in r.files
  {
    hide Backup, Produce, Ready, Separate, Honest;
    BackupAway(cfg, tools, env, k, files, c);
    var backed := Backup(cfg, env, k, files, c.data);
    ProduceKeeps(cfg, tools, env, k, backed.files, c.data, patch);
    var p := Produce(cfg, tools, env, k, backed.files, c.data, patch);
    AwayJoin(cfg, tools, backed.shots, p.shots);
    assert cfg.source in p.files ==> Holds(p.files, cfg.source).Some?;
  }

  /** The attempts take the source away exactly when the run backs it up. */
  lemma AttemptsSource(cfg: Config, tools: Tools, env: Env, files: Files)
    requires Separate(cfg) && Honest(env) && !SeenDone(cfg, tools, env, files) && !IsDone(cfg, tools, files)
    requires Choose(cfg, tools, env, files).Some?
    ensures var c := Choose(cfg, tools, env, files).value;
      var r := Attempts(cfg, tools, env, 0, files, c.fromSource, c.data, PatchFor(cfg, tools, c.data));
      if BacksUp(cfg, tools, env, files) then SomeAway(cfg, tools, r.shots) && cfg.source !in r.files
      else AllKept(cfg, files, r.shots) && Holds(r.files, cfg.source) == Holds(files, cfg.source)
  {
    hide Attempts, LastTry, Produce, Ready, Retries, Enough, LastSink, Separate, Honest, Cleared, Choose, Patchable;
    var c := Choose(cfg, tools, env, files).value;
    var patch := PatchFor(cfg, tools, c.data);
    AttemptsForm(cfg, tools, env, files, c, patch);
    RetriesMeans(cfg, tools, env, c.data, patch);
    var r := Attempts(cfg, tools, env, 0, files, c.fromSource, c.data, patch);
    if Retries(cfg, tools, env, c.data, patch) {
      var cleared := Cleared(cfg, tools, env, files, c, patch);
      ClearedReady(cfg, tools, env, files, c, patch);
      ClearedKeeps(cfg, tools, env, files, c, patch);
      SameAllKept(cfg, files, files, cleared.shots);
      var last := LastTry(cfg, tools, env, 1, cleared.files, c, patch);
      if BacksUp(cfg, tools, env, files) {
        ClearedUndone(cfg, tools, files, cleared.files);
        LastTryAway(cfg, tools, env, 1, cleared.files, c, patch);
        AwayJoin(cfg, tools, cleared.shots, last.shots);
      } else {
        LastTryKept(cfg, tools, env, 1, cleared.files, c, patch);
        AllKeptJoin(cfg, files, cleared.shots, last.shots);
      }
    } else if Enough(cfg, env) {
      ProduceKeeps(cfg, tools, env, 0, files, c.data, patch);
      SameAllKept(cfg, files, files, Produce(cfg, tools, env, 0, files, c.data, patch).shots);
    } else if BacksUp(cfg, tools, env, files) {
      LastTryAway(cfg, tools, env, 0, files, c, patch);
    } else {
      LastTryKept(cfg, tools, env, 0, files, c, patch);
    }
  }

  lemma ClearedUndone(cfg: Config, tools: Tools, files: Files, s: Files)
    requires SameKept(cfg, files, s) && !IsDone(cfg, tools, files)
    ensures !IsDone(cfg, tools, s)
  {
    assert cfg.target in s ==> Holds(s, cfg.target).Some?;
  }

  /** Renaming and removing the copy leave another source alone, and change a source that is the target into what the
      hash was taken of. */
  lemma FinishSource(cfg: Config, tools: Tools, env: Env, files: Files, made: Run)
    requires Separate(cfg) && cfg.source in files && made.code != Some(0)
    ensures var r := Finish(cfg, tools, env, made); made.shots <= r.shots
    ensures var r := Finish(cfg, tools, env, made);
      cfg.source in r.files <==> cfg.source in made.files || (cfg.source == cfg.target && r.code == Some(0))
    ensures AllKept(cfg, files, made.shots) && Holds(made.files, cfg.source) == Holds(files, cfg.source) ==>
      var r := Finish(cfg, tools, env, made);
      && !SomeAway(cfg, tools, r.shots) && (Trusted(cfg, tools, made) ==> !SomeTouched(cfg, tools, files, r.shots))
  {
    var tmp := TempName(cfg);
    var r := Finish(cfg, tools, env, made);
    assert OnCache(SAVED) && cfg.source != SAVED && cfg.target != SAVED;
    if AllKept(cfg, files, made.shots) && Holds(made.files, cfg.source) == Holds(files, cfg.source) {
      forall shot, s | shot in r.shots && May(shot, s)
        ensures cfg.source in s
        ensures Trusted(cfg, tools, made) ==> Holds(s, cfg.source) == Holds(files, cfg.source) || IsDone(cfg, tools, s)
      {
        assert cfg.source in s <==> Holds(s, cfg.source).Some?;
      }
    }
  }

  /** The original is away before its replacement is there exactly when the run backs it up; and, unless the run is fooled,
      only then is it touched at all before that. */
  lemma OriginalTouchedExactly(cfg: Config, tools: Tools, env: Env, files: Files)
    requires Separate(cfg) && Honest(env) && cfg.source in files && !IsDone(cfg, tools, files)
    ensures SomeAway(cfg, tools, WholeRun(cfg, tools, env, files).shots) <==> BacksUp(cfg, tools, env, files)
    ensures Unfooled(cfg, tools, env, files) ==>
      (SomeTouched(cfg, tools, files, WholeRun(cfg, tools, env, files).shots) <==> BacksUp(cfg, tools, env, files))
  {
    hide Attempts, Finish, Separate, Honest, Choose, Patchable, LastSink, Fools, BacksUp;
    var c := Choose(cfg, tools, env, files);
    assert !SeenDone(cfg, tools, env, files);
    var r := WholeRun(cfg, tools, env, files);
    if c == None {
      NoneBacksUp(cfg, tools, env, files);
    } else {
      var patch := PatchFor(cfg, tools, c.value.data);
      var made := Attempts(cfg, tools, env, 0, files, c.value.fromSource, c.value.data, patch);
      AttemptsSource(cfg, tools, env, files);
      AttemptsEnd(cfg, tools, env, files, c.value, patch);
      FinishSource(cfg, tools, env, files, made);
      if Unfooled(cfg, tools, env, files) { AttemptsTrusted(cfg, tools, env, files, c.value.fromSource, c.value.data, patch); }
      if BacksUp(cfg, tools, env, files) { AwayPrefix(cfg, tools, files, made.shots, r.shots); }
    }
  }

  /** Else undisturbed, a run takes the original out of its place exactly when the target's file system has no more than
      256 KiB, or no more than one and a half times the target's size. */
  lemma RoomExactly(cfg: Config, tools: Tools, env: Env, files: Files)
    requires Separate(cfg) && Honest(env) && cfg.source in files && !IsDone(cfg, tools, files)
    requires cfg.source !in env.unread && Patchable(cfg, tools, files[cfg.source]) && cfg.source !in env.stays
    requires FreeCache(env, 0, files, |files[cfg.source]|).code == None && env.save(0) == Complete && env.sink(0) == Complete
    requires tools.produce(files[cfg.source], PatchFor(cfg, tools, files[cfg.source])).Full?
    ensures SomeAway(cfg, tools, WholeRun(cfg, tools, env, files).shots) <==>
      env.space <= 256 * 1024 || 2 * env.space <= 3 * cfg.targetSize
  {
    assert Choose(cfg, tools, env, files) == Some(Choice(true, files[cfg.source]));
    hide WholeRun, FreeCache, Patchable, SomeAway;
    OriginalTouchedExactly(cfg, tools, env, files);
  }

  lemma NoneBacksUp(cfg: Config, tools: Tools, env: Env, files: Files)
    requires Choose(cfg, tools, env, files) == None
    ensures !BacksUp(cfg, tools, env, files)
  {
  }

  lemma AwayPrefix(cfg: Config, tools: Tools, files: Files, a: seq<Shot>, b: seq<Shot>)
    requires SomeAway(cfg, tools, a) && a <= b && cfg.source in files
    ensures SomeAway(cfg, tools, b) && SomeTouched(cfg, tools, files, b)
  {
    var shot, s :| shot in a && May(shot, s) && cfg.source !in s && !IsDone(cfg, tools, s);
    assert shot in b && Holds(s, cfg.source) != Holds(files, cfg.source);
  }

  /** However it ends, a run leaves the source behind exactly when it does not back it up, or puts the replacement there. */
  lemma SourceLeftExactly(cfg: Config, tools: Tools, env: Env, files: Files)
    requires Separate(cfg) && Honest(env) && cfg.source in files && !IsDone(cfg, tools, files)
    ensures var r := WholeRun(cfg, tools, env, files);
      cfg.source in r.files <==> !BacksUp(cfg, tools, env, files) || (cfg.source == cfg.target && r.code == Some(0))
  {
    hide Attempts, Finish, Separate, Honest, Choose, Patchable, BacksUp;
    var c := Choose(cfg, tools, env, files);
    assert !SeenDone(cfg, tools, env, files);
    if c == None {
      NoneBacksUp(cfg, tools, env, files);
    } else {
      var patch := PatchFor(cfg, tools, c.value.data);
      var made := Attempts(cfg, tools, env, 0, files, c.value.fromSource, c.value.data, patch);
      AttemptsSource(cfg, tools, env, files);
      AttemptsEnd(cfg, tools, env, files, c.value, patch);
      FinishSource(cfg, tools, env, files, made);
      assert cfg.source in made.files <==> Holds(made.files, cfg.source).Some?;
    }
  }

  const KEY: string := seq(40, i => '0')
  const DIGEST: Digest := seq(20, i => 1)
  const LOST := Config("/system/a", "/system/b", DIGEST, 1, [(KEY, [])])
  const IN_PLACE := Config("/system/a", "/system/a", DIGEST, 1, [(KEY, [])])
  const SIMPLE := Tools(d => seq(20, i => if d == [] then 0 else 1), (d, p) => Full([7]), (d, p, l, h) => h == [])
  const FULL := Env(0, (k, n) => 1, [], {}, true, k => Complete, k => Complete, true, true, {}, {})
  const EMPTY: Files := map["/system/a" := []]

  /** Without room on the target's file system the source of a successful run is gone. */
  lemma SourceLostExample()
    ensures var r := WholeRun(LOST, SIMPLE, FULL, EMPTY); r.code == Some(0) && "/system/a" !in r.files
  {
    EmptyChosen(LOST, FULL);
    assert PatchedWell(LOST, SIMPLE, []);
    assert Calm(LOST, FULL, EMPTY) && GoodPatches(LOST, SIMPLE, EMPTY) && Safe(LOST, SIMPLE, EMPTY);
    CalmRunFinishes(LOST, SIMPLE, FULL, EMPTY);
    SourceLeftExactly(LOST, SIMPLE, FULL, EMPTY);
  }

  /** That run, state by state: the copy, the source away, the output next to the target, the target, the copy away. */
  lemma StatesExample()
    ensures WholeRun(LOST, SIMPLE, FULL, EMPTY).shots == [
      Torn(map["/system/a" := []], "/cache/saved.file"),
      Exact(map["/system/a" := [], "/cache/saved.file" := []]),
      Exact(map["/cache/saved.file" := []]),
      Torn(map["/cache/saved.file" := []], "/system/b.patch"),
      Exact(map["/cache/saved.file" := [], "/system/b.patch" := [7]]),
      Exact(map["/cache/saved.file" := [], "/system/b" := [7]]),
      Exact(map["/system/b" := [7]])]
  {
    EmptyChosen(LOST, FULL);
    assert TempName(LOST) == "/system/b.patch";
    var c := Choice(true, []);
    AttemptsForm(LOST, SIMPLE, FULL, EMPTY, c, []);
    StatesOfBackup();
    StatesOfAttempts();
    hide Choose, LastTry, Attempts;
    assert SIMPLE.sha([7]) == DIGEST;
    var made := LastTry(LOST, SIMPLE, FULL, 0, EMPTY, c, []);
    assert (made.files - {"/system/b.patch"})["/system/b" := [7]] == map["/cache/saved.file" := [], "/system/b" := [7]];
    assert map["/cache/saved.file" := [], "/system/b" := [7]] - {"/cache/saved.file"} == map["/system/b" := [7]];
  }

  lemma StatesOfBackup()
    ensures var files: Files := map["/cache/saved.file" := []];
      Backup(LOST, FULL, 0, EMPTY, []) == Run(files, [Torn(map["/system/a" := []], "/cache/saved.file"),
        Exact(map["/system/a" := [], "/cache/saved.file" := []]), Exact(files)], None, true)
  {
    var both: Files := map["/system/a" := [], "/cache/saved.file" := []];
    assert EMPTY["/cache/saved.file" := []] == both;
    assert both - {"/system/a"} == map["/cache/saved.file" := []];
  }

  lemma StatesOfAttempts()
    ensures var r := LastTry(LOST, SIMPLE, FULL, 0, EMPTY, Choice(true, []), []);
      && r.files == map["/cache/saved.file" := [], "/system/b.patch" := [7]] && r.code == None && r.copied && r.hashed == [7]
      && r.shots == [
        Torn(map["/system/a" := []], "/cache/saved.file"),
        Exact(map["/system/a" := [], "/cache/saved.file" := []]),
        Exact(map["/cache/saved.file" := []]),
        Torn(map["/cache/saved.file" := []], "/system/b.patch"),
        Exact(map["/cache/saved.file" := [], "/system/b.patch" := [7]])]
  {
    StatesOfBackup();
    hide Backup;
    assert TempName(LOST) == "/system/b.patch";
    var files: Files := map["/cache/saved.file" := []];
    assert files["/system/b.patch" := [7]] == map["/cache/saved.file" := [], "/system/b.patch" := [7]];
  }

  /** A file that is updated in place is away for a time. */
  lemma OriginalAwayExample()
    ensures SomeAway(IN_PLACE, SIMPLE, WholeRun(IN_PLACE, SIMPLE, FULL, EMPTY).shots)
  {
    EmptyChosen(IN_PLACE, FULL);
    OriginalTouchedExactly(IN_PLACE, SIMPLE, FULL, EMPTY);
  }

  lemma EmptyChosen(cfg: Config, env: Env)
    requires cfg in {LOST, IN_PLACE} && env.unread == {}
    ensures Separate(cfg) && !IsDone(cfg, SIMPLE, EMPTY) && Patchable(cfg, SIMPLE, []) && PatchFor(cfg, SIMPLE, []) == []
    ensures Choose(cfg, SIMPLE, env, EMPTY) == Some(Choice(true, []))
  {
    KeyOfEmpty();
    SystemIsSeparate();
    assert MatchFrom(SIMPLE.sha([]), cfg.patches, 0) == Some(0);
    assert SIMPLE.sha([])[0] == 0 && cfg.targetSha[0] == 1;
  }

  lemma KeyOfEmpty()
    ensures Sha1Of(KEY) == Some(SIMPLE.sha([]))
  {
    assert forall i :: 0 <= i < 40 ==> HexDigit(KEY[i]) == Some(0);
    assert Sha1Of(KEY).Some?;
    assert Sha1Of(KEY).value == SIMPLE.sha([]);
  }

  lemma SystemIsSeparate()
    ensures Separate(LOST) && Separate(IN_PLACE)
  {
    assert "/cache/"[1] == 'c' && LOST.source[1] == 's' && LOST.target[1] == 's';
    assert TempName(LOST)[8] == 'b' && LOST.source[8] == 'a';
    assert |TempName(IN_PLACE)| == |IN_PLACE.source| + 6;
  }

  // When data can be lost

  /** When the source is called like the target with .patch behind it, opening the temporary file empties the only
      good copy: a crash there leaves whatever the file then holds. */
  lemma TempIsSource(cfg: Config, tools: Tools, env: Env, files: Files, junk: seq<byte>)
    requires TempName(cfg) == cfg.source && cfg.source != SAVED
    requires !IsDone(cfg, tools, files) && cfg.source in files && Patchable(cfg, tools, files[cfg.source])
    requires !(SAVED in files && Patchable(cfg, tools, files[SAVED]))
    requires Enough(cfg, env) && env.sink(0) != NotOpened && cfg.source !in env.unread && !Patchable(cfg, tools, junk)
    ensures Leaves(cfg, tools, env, files, files[cfg.source := junk]) && !Safe(cfg, tools, files[cfg.source := junk])
  {
    hide Enough;
    var data := files[cfg.source];
    var patch := PatchFor(cfg, tools, data);
    var p := Produce(cfg, tools, env, 0, files, data, patch);
    assert p.shots[0] == Torn(files, cfg.source);
    var made := Attempts(cfg, tools, env, 0, files, true, data, patch);
    assert |made.shots| > 0 && made.shots[0] == p.shots[0] by { FirstShot(cfg, tools, env, files, data, patch); }
    FinishShots(cfg, tools, env, made);
    var r := WholeRun(cfg, tools, env, files);
    assert Choose(cfg, tools, env, files) == Some(Choice(true, data));
    assert r == Finish(cfg, tools, env, made);
    assert r.shots[0] == made.shots[0] && r.shots[0] in r.shots && May(r.shots[0], files[cfg.source := junk]);
  }

  lemma FirstShot(cfg: Config, tools: Tools, env: Env, files: Files, data: seq<byte>, patch: seq<byte>)
    requires Enough(cfg, env) && |Produce(cfg, tools, env, 0, files, data, patch).shots| > 0
    ensures Produce(cfg, tools, env, 0, files, data, patch).shots <= Attempts(cfg, tools, env, 0, files, true, data, patch).shots
  {
    hide Produce, Enough, Backup;
  }

  lemma FinishShots(cfg: Config, tools: Tools, env: Env, made: Run)
    ensures made.shots <= Finish(cfg, tools, env, made).shots
  {
  }

  /** A run that patches the saved copy leaves it there. */
  lemma SavedStays(cfg: Config, tools: Tools, env: Env, files: Files, c: Choice, patch: seq<byte>)
    requires Separate(cfg) && !c.fromSource
    ensures var r := Attempts(cfg, tools, env, 0, files, false, c.data, patch);
      Holds(r.files, SAVED) == Holds(files, SAVED) && !r.copied
  {
    hide Attempts, Produce, Retries, Enough, Separate;
    AttemptsForm(cfg, tools, env, files, c, patch);
    ProduceKeeps(cfg, tools, env, 0, files, c.data, patch);
    ClearedKeeps(cfg, tools, env, files, c, patch);
    var cleared := Cleared(cfg, tools, env, files, c, patch);
    ProduceKeeps(cfg, tools, env, 1, cleared.files, c.data, patch);
    ThenNone(files, Produce(cfg, tools, env, 0, files, c.data, patch));
    ThenNone(cleared.files, Produce(cfg, tools, env, 1, cleared.files, c.data, patch));
  }

  lemma ThenNone(files: Files, r: Run)
    ensures Then(Run(files, [], None), r) == r
  {
  }

  /** A run that had to copy the source removes the copy when it succeeds. */
  lemma CopyRemoved(cfg: Config, tools: Tools, env: Env, files: Files, c: Choice, patch: seq<byte>)
    requires Separate(cfg) && c.fromSource && !Enough(cfg, env) && SAVED !in env.stays
    ensures var r := Finish(cfg, tools, env, Attempts(cfg, tools, env, 0, files, true, c.data, patch));
      r.code == Some(0) ==> SAVED !in r.files
  {
    hide Attempts, Produce, Enough, Retries;
    RetriesEnough(cfg, tools, env, c.data, patch);
    AttemptsForm(cfg, tools, env, files, c, patch);
    var made := LastTry(cfg, tools, env, 0, files, c, patch);
    assert Backup(cfg, env, 0, files, c.data).code == None ==> Backup(cfg, env, 0, files, c.data).copied;
    assert OnCache(SAVED) && cfg.target != SAVED;
  }

  /** A patch, data for it, and a cut of its output that is taken for the target; and if the source is the target, then
      what is left cannot be patched instead, and the data is not what is wanted already. */
  ghost predicate Deceptive(cfg: Config, tools: Tools, data: seq<byte>, how: Writing) {
    && Patchable(cfg, tools, data) && Fools(cfg, tools, data, PatchFor(cfg, tools, data), how)
    && (cfg.source == cfg.target ==> tools.sha(data) != cfg.targetSha && !Patchable(cfg, tools, how.left))
  }

  /** A deceptive cut loses the data in a run that has no room: source and copy are gone, and the target is not done. */
  lemma DeceptionLoses(cfg: Config, tools: Tools, data: seq<byte>, how: Writing)
    requires Separate(cfg) && Deceptive(cfg, tools, data, how)
    ensures var env := Env(0, (k, n) => |data|, [], {}, true, k => Complete, k => how, true, true, {}, {});
      var files: Files := map[cfg.source := data];
      var r := WholeRun(cfg, tools, env, files);
      && Honest(env) && Safe(cfg, tools, files) && r.code == Some(0) && !Safe(cfg, tools, r.files)
  {
    var env := Env(0, (k, n) => |data|, [], {}, true, k => Complete, k => how, true, true, {}, {});
    var files: Files := map[cfg.source := data];
    var c := Choice(true, data);
    var patch := PatchFor(cfg, tools, data);
    assert Choose(cfg, tools, env, files) == Some(c);
    assert !Enough(cfg, env) && Ready(env, 0, files, c) && BacksUp(cfg, tools, env, files);
    assert Succeeds(cfg, tools, env, files, c, patch);
    hide Attempts, Finish, Choose, Succeeds, BacksUp, Patchable, Enough;
    assert !IsDone(cfg, tools, files);
    RunExactly(cfg, tools, env, files);
    SourceLeftExactly(cfg, tools, env, files);
    CopyRemoved(cfg, tools, env, files, c, patch);
  }

  /** No run, in whatever surroundings, leaves an unsafe state after a safe one. */
  ghost predicate NeverLost(cfg: Config, tools: Tools) {
    forall env, s, t :: Honest(env) && Safe(cfg, tools, s) && Leaves(cfg, tools, env, s, t) ==> Safe(cfg, tools, t)
  }

  /** The renaming leaves a safe state also when what is renamed can be patched in its turn, or the copy stays. */
  lemma FinishSafe(cfg: Config, tools: Tools, was: Option<seq<byte>>, env: Env, made: Run)
    requires Separate(cfg) && AllSound(cfg, tools, was, made.shots) && Sound(cfg, tools, was, made.files)
    requires TempName(cfg) in made.files
    requires || (cfg.source == cfg.target && Patchable(cfg, tools, made.files[TempName(cfg)]))
      || (SAVED in made.files && Patchable(cfg, tools, made.files[SAVED]) && !made.copied)
    ensures var r := Finish(cfg, tools, env, made);
      Safe(cfg, tools, r.files) && forall shot, s :: shot in r.shots && May(shot, s) ==> Safe(cfg, tools, s)
  {
    hide Patchable;
    TempOutside(cfg);
    assert cfg.target != SAVED && cfg.source != SAVED;
  }

  lemma FooledSafe(cfg: Config, tools: Tools, env: Env, s: Files)
    requires Separate(cfg) && Honest(env) && Safe(cfg, tools, s)
    requires !Unfooled(cfg, tools, env, s) && forall data, how :: !Deceptive(cfg, tools, data, how)
    ensures var r := WholeRun(cfg, tools, env, s);
      Safe(cfg, tools, r.files) && forall shot, t :: shot in r.shots && May(shot, t) ==> Safe(cfg, tools, t)
  {
    hide Attempts, Finish, Separate, Honest, Choose, Patchable, LastSink;
    var c := Choose(cfg, tools, env, s).value;
    var patch := PatchFor(cfg, tools, c.data);
    var how := LastSink(cfg, tools, env, c.data, patch);
    assert !Deceptive(cfg, tools, c.data, how);
    var made := Attempts(cfg, tools, env, 0, s, c.fromSource, c.data, patch);
    var was := Holds(s, cfg.target);
    ChosenRooted(cfg, tools, env, s);
    AttemptsSound(cfg, tools, was, env, 0, s, c.fromSource, c.data, patch);
    AttemptsMade(cfg, tools, env, s, c.fromSource, c.data, patch);
    if made.code == None {
      if !c.fromSource {
        SavedStays(cfg, tools, env, s, c, patch);
        assert SAVED in made.files <==> Holds(made.files, SAVED).Some?;
      }
      FinishSafe(cfg, tools, was, env, made);
    } else {
      assert Finish(cfg, tools, env, made) == made by { FailedStays(cfg, tools, env, made); }
    }
  }

  lemma FailedStays(cfg: Config, tools: Tools, env: Env, made: Run)
    requires made.code.Some?
    ensures Finish(cfg, tools, env, made) == made
  {
  }

  /** The patcher never loses the data exactly when the temporary file is not the source, and no cut of a patch's output is
      taken for the target. */
  lemma NeverLostExactly(cfg: Config, tools: Tools, good: seq<byte>, junk: seq<byte>)
    requires !OnCache(cfg.source) && !OnCache(cfg.target) && Patchable(cfg, tools, good) && !Patchable(cfg, tools, junk)
    ensures NeverLost(cfg, tools) <==> TempName(cfg) != cfg.source && forall data, how :: !Deceptive(cfg, tools, data, how)
  {
    hide Patchable, WholeRun, Deceptive, SeenDone, Unfooled;
    if TempName(cfg) == cfg.source {
      var env := Env(262145 + 2 * cfg.targetSize, (k, n) => 0, [], {}, true, k => Complete, k => Complete, true, true, {}, {});
      var s := map[cfg.source := good];
      assert |cfg.source| == |cfg.target| + 6;
      assert OnCache(SAVED) && SAVED !in s;
      TempIsSource(cfg, tools, env, s, junk);
      assert Safe(cfg, tools, s) && Honest(env);
    } else if data, how :| Deceptive(cfg, tools, data, how) {
      DeceptionLoses(cfg, tools, data, how);
    } else {
      forall env, s, t | Honest(env) && Safe(cfg, tools, s) && Leaves(cfg, tools, env, s, t) ensures Safe(cfg, tools, t) {
        if Unfooled(cfg, tools, env, s) {
          UnfooledSafe(cfg, tools, env, s);
        } else {
          FooledSafe(cfg, tools, env, s);
        }
      }
    }
  }

  lemma UnfooledSafe(cfg: Config, tools: Tools, env: Env, s: Files)
    requires Separate(cfg) && Honest(env) && Safe(cfg, tools, s) && Unfooled(cfg, tools, env, s)
    ensures var r := WholeRun(cfg, tools, env, s);
      Safe(cfg, tools, r.files) && forall shot, t :: shot in r.shots && May(shot, t) ==> Safe(cfg, tools, t)
  {
    hide Attempts, Finish, Choose, Unfooled, Separate;
    if !SeenDone(cfg, tools, env, s) { RunSound(cfg, tools, Holds(s, cfg.target), env, s); }
  }
}

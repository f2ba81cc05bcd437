/** The patcher as it works on a file system in place, proved to pass through the states of PatchRun. */
module Patcher {
  import opened Bytes
  import opened PatchRun

  lemma ThenThen(a: Run, b: Run, c: Run)
    ensures Then(Then(a, b), c) == Then(a, Then(b, c))
    ensures Then(Then(a, b), Stop'(c)) == Then(a, Stop'(Then(b, c)))
  {
    assert (a.shots + b.shots) + c.shots == a.shots + (b.shots + c.shots);
  }

  /** The states passed through from a first one to a current one make up this run. */
  ghost predicate Passed(r: Run, before: seq<Shot>, files: Files, shots: seq<Shot>) {
    files == r.files && shots == before + r.shots
  }

  lemma PassedThen(a: Run, b: Run, before: seq<Shot>, files: Files, shots: seq<Shot>)
    requires Passed(b, before + a.shots, files, shots)
    ensures Passed(Then(a, b), before, files, shots)
    ensures Passed(Stop'(Then(a, b)), before, files, shots)
    ensures Then(a, b).copied == (a.copied || b.copied) && Then(a, b).code == b.code && Then(a, Stop'(b)) == Stop'(Then(a, b))
    ensures Then(a, b).hashed == b.hashed
  {
    assert (before + a.shots) + b.shots == before + (a.shots + b.shots);
  }

  function FirstBackup(cfg: Config, env: Env, k: nat, files: Files, fromSource: bool, data: seq<byte>): Run {
    if !(k == 0 && Enough(cfg, env)) && fromSource then Backup(cfg, env, k, files, data) else Run(files, [], None)
  }

  /** One attempt, and what follows it. */
  lemma Attempt(cfg: Config, tools: Tools, env: Env, k: nat, files: Files, fromSource: bool, data: seq<byte>,
                patch: seq<byte>)
    requires k <= 1
    ensures var all := Attempts(cfg, tools, env, k, files, fromSource, data, patch);
      var backed := FirstBackup(cfg, env, k, files, fromSource, data);
      var made := Then(backed, Produce(cfg, tools, env, k, backed.files, data, patch));
      var gone := Removed(env, made.files, TempName(cfg));
      if backed.code.Some? then all == Stop'(backed)
      else if made.code.None? then all == made
      else if made.code == Some(1) && k == 0 && Enough(cfg, env) then
        all == Then(Then(made, Step(gone)), Attempts(cfg, tools, env, k + 1, gone, fromSource, data, patch))
      else all == if made.code == Some(NEVER) then made else Stop'(made)
  {
    hide Backup, Produce, Enough;
  }

  lemma ThenFields(a: Run, b: Run)
    ensures Then(a, b).files == b.files && Then(a, b).code == b.code && Then(a, b).copied == (a.copied || b.copied)
    ensures Then(a, b).hashed == b.hashed
  {
  }

  lemma DeletingStep(env: Env, k: nat, files: Files, names: seq<Path>, i: nat, need: nat)
    requires i < |names| && env.cacheFree(k, i) < need
    ensures var less := Removed(env, files, names[i]);
      Deleting(env, k, files, names, i, need) == Then(Step(less), Deleting(env, k, less, names, i + 1, need))
  {
  }

  lemma DeletingStop(env: Env, k: nat, files: Files, names: seq<Path>, i: nat, need: nat)
    requires i <= |names| && (i == |names| || env.cacheFree(k, i) >= need)
    ensures Deleting(env, k, files, names, i, need) == Run(files, [], if env.cacheFree(k, i) >= need then None else Some(1))
  {
  }

  /** Attempts that failed are left as they are. */
  lemma FinishFailed(cfg: Config, tools: Tools, env: Env, made: Run)
    requires made.code.Some?
    ensures Finish(cfg, tools, env, made) == made
  {
  }

  lemma ThenNothing(files: Files, r: Run)
    ensures r == Then(Run(files, [], None), r)
  {
  }

  /** The file system, and every state a crash could have left so far. */
  class Disk {
    var files: Files
    ghost var shots: seq<Shot>

    ghost predicate Reached(r: Run, before: seq<Shot>)
      reads this
    {
      files == r.files && shots == before + r.shots
    }

    constructor (files: Files)
      ensures this.files == files && shots == []
    {
      this.files := files;
      shots := [];
    }

    method Unlink(env: Env, path: Path)
      modifies this
      ensures Reached(Step(Removed(env, old(files), path)), old(shots))
    {
      files := Removed(env, files, path);
      shots := shots + [Exact(files)];
    }

    /** Opens and empties a file and writes to it; whether all went well. */
    method WriteFile(path: Path, data: seq<byte>, how: Writing) returns (ok: bool)
      modifies this
      ensures Reached(Write(old(files), path, data, how), old(shots)) && ok == (how == Complete)
    {
      if how == NotOpened { return false; }
      ghost var before := files;
      files := files[path := if how == Complete then data else how.left];
      shots := shots + [Torn(before, path), Exact(files)];
      return how == Complete;
    }

    method FindExpendableFiles(env: Env) returns (names: seq<Path>)
      ensures names == Expendable(env, files, |env.listing|)
    {
      names := [];
      for i := 0 to |env.listing|
        invariant names == Expendable(env, files, i)
      {
        var p := env.listing[i];
        if p != SAVED && p in files && p !in env.open { names := names + [p]; }
      }
    }

    method MakeFreeSpaceOnCache(env: Env, k: nat, need: nat) returns (ok: bool)
      modifies this
      ensures var r := FreeCache(env, k, old(files), need); Reached(r, old(shots)) && ok == r.code.None? && !r.copied
    {
      hide Deleting, Removed, Expendable;
      var freeNow := env.cacheFree(k, 0);
      if freeNow >= need { return true; }
      if !env.procReadable { return false; }
      var names := FindExpendableFiles(env);
      if |names| == 0 { return false; }
      var i := 0;
      ghost var done := Run(files, [], None);
      ghost var all := Deleting(env, k, files, names, 0, need);
      while i < |names| && freeNow < need
        invariant 0 <= i <= |names| && freeNow == env.cacheFree(k, i)
        invariant Reached(done, old(shots)) && !done.copied
        invariant all == Then(done, Deleting(env, k, files, names, i, need))
      {
        ghost var step := Step(Removed(env, files, names[i]));
        DeletingStep(env, k, files, names, i, need);
        ThenThen(done, step, Deleting(env, k, step.files, names, i + 1, need));
        Unlink(env, names[i]);
        done := Then(done, step);
        i := i + 1;
        freeNow := env.cacheFree(k, i);
      }
      DeletingStop(env, k, files, names, i, need);
      assert done.shots + [] == done.shots;
      return freeNow >= need;
    }

    /** Copies the source to the cache and takes it from its place; whether it could. */
    method BackUp(cfg: Config, env: Env, k: nat, data: seq<byte>) returns (ok: bool)
      modifies this
      ensures var r := Backup(cfg, env, k, old(files), data); Reached(r, old(shots)) && ok == r.code.None? == r.copied
    {
      hide FreeCache;
      ok := MakeFreeSpaceOnCache(env, k, |data|);
      if !ok { return; }
      ok := WriteFile(SAVED, data, env.save(k));
      if !ok { return; }
      Unlink(env, cfg.source);
    }

    /** Applies the patch into the temporary file and gives the result with what was hashed; the result NEVER stands for
        a decoder that does not return. */
    method ApplyTo(cfg: Config, tools: Tools, env: Env, k: nat, data: seq<byte>, patch: seq<byte>)
      returns (result: int, hashed: seq<byte>)
      modifies this
      ensures var r := Produce(cfg, tools, env, k, old(files), data, patch);
        && Reached(r, old(shots)) && !r.copied && (if result == 0 then r.code.None? else r.code == Some(result))
        && hashed == r.hashed
    {
      hashed := [];
      var tmp, how := TempName(cfg), env.sink(k);
      if how == NotOpened { return 3, hashed; }
      var made := tools.produce(data, patch);
      match made {
        case Unknown =>
          var _ := WriteFile(tmp, [], Complete);
          result := 2;
        case Broken(out) =>
          var _ := WriteFile(tmp, if how == Complete then out else how.left, Complete);
          result := 1;
        case Endless(out) =>
          var _ := WriteFile(tmp, if how == Complete then out else how.left, Complete);
          result := NEVER;
        case Full(out) =>
          var ok := WriteFile(tmp, out, how);
          hashed := if ok then out else how.hashed;
          result := if ok || tools.cut(data, patch, how.left, how.hashed) then 0 else 1;
      }
    }

    /** The attempts, a second one with the source out of the way if the first had room for both and failed. */
    method TryToApply(cfg: Config, tools: Tools, env: Env, fromSource: bool, data: seq<byte>, patch: seq<byte>)
      returns (code: int, madeCopy: bool, hashed: seq<byte>)
      modifies this
      ensures var r := Attempts(cfg, tools, env, 0, old(files), fromSource, data, patch);
        && Reached(r, old(shots)) && madeCopy == r.copied && (if code == 0 then r.code.None? else r.code == Some(code))
        && (code == 0 ==> hashed == r.hashed) && code in {0, 1, NEVER}
    {
      hide Backup, Produce, Enough, Attempts, Then;
      madeCopy, hashed := false, [];
      var retry := 1;
      ghost var done := Run(files, [], None);
      ghost var all := Attempts(cfg, tools, env, 0, files, fromSource, data, patch);
      assert all == Then(done, all) by { ThenNothing(files, all); }
      while true
        invariant 0 <= retry <= 1 && Reached(done, old(shots)) && done.copied == madeCopy
        invariant all == Then(done, Attempts(cfg, tools, env, 1 - retry, files, fromSource, data, patch))
        decreases retry
      {
        var k := 1 - retry;
        Attempt(cfg, tools, env, k, files, fromSource, data, patch);
        var enough := false;
        if retry > 0 { enough := Enough(cfg, env); }
        if !enough { retry := 0; }
        ghost var backed := FirstBackup(cfg, env, k, files, fromSource, data);
        if !enough && fromSource {
          var ok := BackUp(cfg, env, k, data);
          PassedThen(done, backed, old(shots), files, shots);
          if !ok { return 1, madeCopy, hashed; }
          madeCopy := true;
        } else {
          PassedThen(done, backed, old(shots), files, shots);
        }
        ghost var p := Produce(cfg, tools, env, k, files, data, patch);
        ghost var made, start := Then(backed, p), done;
        var result;
        result, hashed := ApplyTo(cfg, tools, env, k, data, patch);
        PassedThen(Then(done, backed), p, old(shots), files, shots);
        ThenThen(done, backed, p);
        ThenFields(backed, p);
        ThenFields(done, made);
        done := Then(done, made);
        if result in {0, NEVER} { return result, madeCopy, hashed; }
        if result != 1 || retry == 0 { return 1, madeCopy, hashed; }
        Unlink(env, TempName(cfg));
        ghost var step := Step(files);
        PassedThen(done, step, old(shots), files, shots);
        ThenFields(done, step);
        ThenThen(start, made, step);
        ThenThen(start, Then(made, step), Attempts(cfg, tools, env, k + 1, files, fromSource, data, patch));
        done := Then(done, step);
        retry := retry - 1;
      }
    }

    method Rename(from: Path, to: Path)
      requires from in files && from != to
      modifies this
      ensures Reached(Step((old(files) - {from})[to := old(files)[from]]), old(shots))
    {
      files := (files - {from})[to := files[from]];
      shots := shots + [Exact(files)];
    }

    /** Checks what was hashed and puts the temporary file in the target's place. */
    method FinishUp(cfg: Config, tools: Tools, env: Env, madeCopy: bool, hashed: seq<byte>, ghost made: Run,
                    ghost before: seq<Shot>)
      returns (code: int)
      requires Reached(made, before) && made.code.None? && made.copied == madeCopy && made.hashed == hashed
      modifies this
      ensures var r := Finish(cfg, tools, env, made); Reached(r, before) && r.code == Some(code)
    {
      var tmp := TempName(cfg);
      if tools.sha(hashed) != cfg.targetSha { return 1; }
      if tmp !in files || !env.chmod { return 1; }
      if !env.rename { return 1; }
      Rename(tmp, cfg.target);
      if madeCopy { Unlink(env, SAVED); }
      return 0;
    }

    /** Brings the target to the data wanted and returns 0, or returns 1, or does not return: NEVER. */
    method ApplyPatch(cfg: Config, tools: Tools, env: Env) returns (code: int)
      modifies this
      ensures var r := WholeRun(cfg, tools, env, old(files)); Reached(r, old(shots)) && r.code == Some(code)
    {
      hide Attempts, MatchFrom, Finish;

      var source := Load(env, files, cfg.target);
      if source.Some? && tools.sha(source.value) == cfg.targetSha { return 0; }
      if source.None? || cfg.target != cfg.source { source := Load(env, files, cfg.source); }
      var use := None;
      if source.Some? { use := FindMatchingPatch(tools.sha(source.value), cfg.patches); }
      var fromSource := use.Some?;
      var data := source;
      if !fromSource {
        data := Load(env, files, SAVED);
        if data.None? { return 1; }
        use := FindMatchingPatch(tools.sha(data.value), cfg.patches);
        if use.None? { return 1; }
      }
      assert Choose(cfg, tools, env, files) == Some(Choice(fromSource, data.value));
      ghost var made := Attempts(cfg, tools, env, 0, files, fromSource, data.value, cfg.patches[use.value].1);
      var result, madeCopy, hashed := TryToApply(cfg, tools, env, fromSource, data.value, cfg.patches[use.value].1);
      if result != 0 {
        FinishFailed(cfg, tools, env, made);
        return result;
      }
      code := FinishUp(cfg, tools, env, madeCopy, hashed, made, old(shots));
    }
  }
}

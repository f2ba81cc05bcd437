/** From the differ to the installed file: a patch that was made for a file brings it there, through any crashes. */
module UpdateEndToEnd {
  import opened Bytes
  import opened Encoding
  import opened BsPatch
  import opened ImageFormat
  import opened ImagePatch
  import opened ImageDiff
  import opened ImageRead
  import opened ImageMain
  import opened PatchRun
  import opened CrashSafety
  import opened CrashRecovery
  import PatchStream

  function Outcomes(o: Outcome): Produced {
    match o
    case Done(data) => Full(data)
    case Endless => Produced.Endless([])
    case _ => Broken([])
  }

  predicate Binary(patch: seq<byte>) {
    |patch| >= 8 && patch[..8] == MAGIC
  }

  predicate Chunked(patch: seq<byte>) {
    |patch| >= 8 && patch[..8] == IMGDIFF2
  }

  /** Which decoder a patch is for is seen from its first eight bytes. */
  function Producer(bz: Bzip, zlib: Zlib): (seq<byte>, seq<byte>) -> Produced {
    (data: seq<byte>, patch: seq<byte>) =>
      if Binary(patch) then Outcomes(Decode(bz, data, patch, 0))
      else if Chunked(patch) then Outcomes(Apply(bz, zlib, data, patch))
      else Unknown
  }

  /** The chunked decoder may succeed on a sink that has taken no more than this. */
  function Cutter(bz: Bzip, zlib: Zlib): (seq<byte>, seq<byte>, seq<byte>, seq<byte>) -> bool {
    (data: seq<byte>, patch: seq<byte>, left: seq<byte>, hashed: seq<byte>) =>
      Chunked(patch) && SinkAll(bz, zlib, data, patch, |left|) == Sunk(left, hashed)
  }

  function Decoder(bz: Bzip, zlib: Zlib, sha: seq<byte> -> Digest): Tools {
    Tools(sha, Producer(bz, zlib), Cutter(bz, zlib))
  }

  /** A decoder that takes a cut output for all of it has hashed less. */
  ghost predicate Brief(tools: Tools) {
    forall data, patch, left, hashed :: tools.cut(data, patch, left, hashed) && tools.produce(data, patch).Full? ==>
      left == tools.produce(data, patch).out || |hashed| < |tools.produce(data, patch).out|
  }

  lemma DecoderBrief(bz: Bzip, zlib: Zlib, sha: seq<byte> -> Digest)
    ensures Brief(Decoder(bz, zlib, sha))
  {
    hide SinkAll, Apply, Decode;
    var tools := Decoder(bz, zlib, sha);
    forall data, patch, left, hashed | tools.cut(data, patch, left, hashed) && tools.produce(data, patch).Full?
      ensures left == tools.produce(data, patch).out || |hashed| < |tools.produce(data, patch).out|
    {
      CutIsShort(bz, zlib, data, patch, |left|);
    }
  }

  /** Each patch turns its source into the target, and its key is its source's hash. */
  ghost predicate Fitting(cfg: Config, tools: Tools, sources: seq<seq<byte>>, target: seq<byte>) {
    && |sources| == |cfg.patches| && tools.sha(target) == cfg.targetSha
    && forall i :: 0 <= i < |sources| ==>
        Sha1Of(cfg.patches[i].0) == Some(tools.sha(sources[i])) && tools.produce(sources[i], cfg.patches[i].1) == Full(target)
  }

  /** What a run that starts here hashes of what it does not make itself: source, target and saved copy, and outputs
      cut short. */
  function Met(cfg: Config, env: Env, start: Files): set<seq<byte>> {
    (set p | p in {cfg.source, cfg.target, SAVED} && p in start :: start[p])
    + (set k | k in {0, 1} && env.sink(k).Partial? :: env.sink(k).hashed)
  }

  /** Of the data met, only these files themselves have their hashes. */
  ghost predicate NoCollisions(tools: Tools, met: set<seq<byte>>, files: seq<seq<byte>>) {
    forall i, d :: 0 <= i < |files| && d in met && tools.sha(d) == tools.sha(files[i]) ==> d == files[i]
  }

  /** With patches that fit, data met that can be patched is one of the sources, so it becomes the target. */
  lemma FittingPatches(cfg: Config, tools: Tools, sources: seq<seq<byte>>, target: seq<byte>, met: set<seq<byte>>, data: seq<byte>)
    requires Fitting(cfg, tools, sources, target) && NoCollisions(tools, met, sources)
    requires data in met && Patchable(cfg, tools, data)
    ensures data in sources && tools.produce(data, PatchFor(cfg, tools, data)) == Full(target)
  {
    hide Sha1Of;
    var i := MatchFrom(tools.sha(data), cfg.patches, 0).value;
    assert tools.sha(data) == tools.sha(sources[i]);
  }

  /** So patches that fit are good ones, when none of the data met shares a hash with a source. */
  lemma FittingIsGood(cfg: Config, tools: Tools, sources: seq<seq<byte>>, target: seq<byte>, env: Env, start: Files)
    requires Fitting(cfg, tools, sources, target) && NoCollisions(tools, Met(cfg, env, start), sources)
    ensures GoodPatches(cfg, tools, start)
  {
    hide Fitting, NoCollisions, Patchable;
    FittingSha(cfg, tools, sources, target);
    if cfg.source in start && Patchable(cfg, tools, start[cfg.source]) {
      FittingPatches(cfg, tools, sources, target, Met(cfg, env, start), start[cfg.source]);
    }
    if SAVED in start && Patchable(cfg, tools, start[SAVED]) {
      FittingPatches(cfg, tools, sources, target, Met(cfg, env, start), start[SAVED]);
    }
  }

  /** And a run with patches that fit is not fooled: a hash taken of less than the target is not the target's. */
  lemma FittingUnfooled(cfg: Config, tools: Tools, sources: seq<seq<byte>>, target: seq<byte>, env: Env, start: Files)
    requires Fitting(cfg, tools, sources, target) && NoCollisions(tools, Met(cfg, env, start), sources + [target]) && Brief(tools)
    ensures Unfooled(cfg, tools, env, start)
  {
    hide Fitting, NoCollisions, Patchable, Choose, LastSink;
    FittingSha(cfg, tools, sources, target);
    CollisionsPart(tools, Met(cfg, env, start), sources, target);
    var c := Choose(cfg, tools, env, start);
    if c.Some? {
      var patch := PatchFor(cfg, tools, c.value.data);
      var how := LastSink(cfg, tools, env, c.value.data, patch);
      RetriesMeans(cfg, tools, env, c.value.data, patch);
      assert c.value.data in Met(cfg, env, start);
      FittingPatches(cfg, tools, sources, target, Met(cfg, env, start), c.value.data);
      if Fools(cfg, tools, c.value.data, patch, how) {
        assert how.hashed in Met(cfg, env, start);
        OnlyTarget(tools, Met(cfg, env, start), sources, target, how.hashed);
      }
    }
  }

  /** After any number of runs and crashes, one run that nothing disturbs, or only a first attempt cut short, leaves
      exactly the new file in place. */
  lemma UpdateArrives(cfg: Config, tools: Tools, sources: seq<seq<byte>>, target: seq<byte>,
                      envs: seq<Env>, states: seq<Files>, i: nat, last: Env)
    requires Separate(cfg) && Fitting(cfg, tools, sources, target) && Brief(tools)
    requires History(cfg, tools, envs, states) && Safe(cfg, tools, states[0]) && i < |states|
    requires forall j :: 0 <= j < |envs| ==> NoCollisions(tools, Met(cfg, envs[j], states[j]), sources + [target])
    requires NoCollisions(tools, Met(cfg, last, states[i]), sources + [target])
    requires Honest(last) && (Calm(cfg, last, states[i]) || CalmAgain(cfg, tools, last, states[i]))
    ensures var r := WholeRun(cfg, tools, last, states[i]); r.code == Some(0) && Holds(r.files, cfg.target) == Some(target)
  {
    hide Separate, Fitting, Calm, CalmAgain, WholeRun, GoodPatches, Safe, NoCollisions, Patchable, Choose, Met, Honest, Brief,
         Unfooled, Leaves;
    var s := states[i];
    CollisionsPart(tools, Met(cfg, last, s), sources, target);
    FittingIsGood(cfg, tools, sources, target, last, s);
    FittingNeverFooled(cfg, tools, sources, target, envs, states);
    AlwaysSound(cfg, tools, envs, states, i);
    CalmRunFinishes(cfg, tools, last, s);
    FittingSha(cfg, tools, sources, target);
    if IsDone(cfg, tools, s) {
      MetHere(cfg, tools, last, s);
      OnlyTarget(tools, Met(cfg, last, s), sources, target, s[cfg.target]);
    } else {
      MetHere(cfg, tools, last, s);
      FittingPatches(cfg, tools, sources, target, Met(cfg, last, s), Choose(cfg, tools, last, s).value.data);
    }
  }

  lemma FittingNeverFooled(cfg: Config, tools: Tools, sources: seq<seq<byte>>, target: seq<byte>, envs: seq<Env>, states: seq<Files>)
    requires Fitting(cfg, tools, sources, target) && Brief(tools) && |states| == |envs| + 1
    requires forall j :: 0 <= j < |envs| ==> NoCollisions(tools, Met(cfg, envs[j], states[j]), sources + [target])
    ensures NeverFooled(cfg, tools, envs, states)
  {
    hide Fitting, Brief, NoCollisions, Unfooled, Met;
    forall j | 0 <= j < |envs| ensures Unfooled(cfg, tools, envs[j], states[j]) {
      FittingUnfooled(cfg, tools, sources, target, envs[j], states[j]);
    }
  }

  lemma MetHere(cfg: Config, tools: Tools, env: Env, s: Files)
    ensures cfg.target in s ==> s[cfg.target] in Met(cfg, env, s)
    ensures var c := Choose(cfg, tools, env, s); c.Some? ==> c.value.data in Met(cfg, env, s)
  {
    hide Choose;
  }

  /** All this can be had of a hash that does collide, of other files: here those of [7] and [8] are the same. */
  lemma ArrivesExample()
    ensures var r := WholeRun(LOST, SIMPLE, FULL, EMPTY); r.code == Some(0) && Holds(r.files, "/system/b") == Some([7])
    ensures SIMPLE.sha([7]) == SIMPLE.sha([8])
  {
    EmptyChosen(LOST, FULL);
    ExampleFits();
    assert Calm(LOST, FULL, EMPTY) && Safe(LOST, SIMPLE, EMPTY) && Honest(FULL);
    hide *;
    UpdateArrives(LOST, SIMPLE, [[]], [7], [], [EMPTY], 0, FULL);
  }

  lemma ExampleFits()
    ensures Brief(SIMPLE) && Fitting(LOST, SIMPLE, [[]], [7]) && History(LOST, SIMPLE, [], [EMPTY])
    ensures NoCollisions(SIMPLE, Met(LOST, FULL, EMPTY), [[]] + [[7]]) && SIMPLE.sha([7]) == SIMPLE.sha([8])
  {
    KeyOfEmpty();
    assert SIMPLE.sha([])[0] == 0 && SIMPLE.sha([7])[0] == 1 && SIMPLE.sha([8]) == SIMPLE.sha([7]);
    assert forall d :: d in Met(LOST, FULL, EMPTY) ==> d == [];
  }

  /** An image patch of a raw chunk and a normal one, given with the hash of the raw chunk as the target's: cut one byte
      behind the raw chunk, its output is taken for the target, and updating in place loses the data. */
  lemma CutLoses(bz: Bzip, zlib: Zlib, sha: seq<byte> -> Digest, key: string, path: Path, size: nat, src: seq<byte>,
                 t: seq<byte>, x: seq<byte>, r: Record)
    requires AllYield(bz, zlib, src, [RawRecord(t), r], [t, x]) && r.NormalRecord? && |x| > 1
    requires Sha1Of(key) == Some(sha(src)) && sha(src) != sha(t) && sha(t + x[..1]) !in {sha(src), sha(t)} && !OnCache(path)
    ensures var cfg := Config(path, path, sha(t), size, [(key, ImageFile([RawRecord(t), r]))]);
      var tools, how := Decoder(bz, zlib, sha), Partial(t + x[..1], t);
      Separate(cfg) && Deceptive(cfg, tools, src, how) && !NeverLost(cfg, tools)
  {
    hide AllYield, Apply, Decode, SinkAll, ImageFile, Sha1Of, NeverLost;
    var file := ImageFile([RawRecord(t), r]);
    var cfg := Config(path, path, sha(t), size, [(key, file)]);
    var tools, how := Decoder(bz, zlib, sha), Partial(t + x[..1], t);
    assert |TempName(cfg)| == |path| + 6;
    CutBehind(bz, zlib, src, t, x, r);
    FileIsChunked([RawRecord(t), r]);
    ImageRoundTrip(bz, zlib, src, [RawRecord(t), r], [t, x]);
    assert MatchFrom(sha(src), cfg.patches, 0) == Some(0) && MatchFrom(sha(how.left), cfg.patches, 0) == None;
    assert Deceptive(cfg, tools, src, how);
    DeceptionIsLoss(cfg, tools, src, how);
  }

  lemma DeceptionIsLoss(cfg: Config, tools: Tools, data: seq<byte>, how: Writing)
    requires Separate(cfg) && Deceptive(cfg, tools, data, how)
    ensures !NeverLost(cfg, tools)
  {
    hide WholeRun, Deceptive, Separate, Safe;
    DeceptionLoses(cfg, tools, data, how);
  }

  lemma FileIsChunked(rs: seq<Record>)
    ensures Chunked(ImageFile(rs)) && !Binary(ImageFile(rs))
  {
    hide HeaderBytes;
    HeaderStarts(rs, |rs|);
    FileFront(rs);
  }

  lemma OnlyTarget(tools: Tools, met: set<seq<byte>>, sources: seq<seq<byte>>, target: seq<byte>, d: seq<byte>)
    requires NoCollisions(tools, met, sources + [target]) && d in met && tools.sha(d) == tools.sha(target)
    ensures d == target
  {
    assert (sources + [target])[|sources|] == target;
  }

  lemma FittingSha(cfg: Config, tools: Tools, sources: seq<seq<byte>>, target: seq<byte>)
    requires Fitting(cfg, tools, sources, target)
    ensures tools.sha(target) == cfg.targetSha
  {
  }

  lemma CollisionsPart(tools: Tools, met: set<seq<byte>>, sources: seq<seq<byte>>, target: seq<byte>)
    requires NoCollisions(tools, met, sources + [target])
    ensures NoCollisions(tools, met, sources)
  {
    forall i, d | 0 <= i < |sources| && d in met && tools.sha(d) == tools.sha(sources[i]) ensures d == sources[i] {
      assert (sources + [target])[i] == sources[i];
    }
  }

  /** Makes a binary patch for a file; the update it is part of fits. */
  method MakeUpdate(bz: Bzip, zlib: Zlib, sha: seq<byte> -> Digest, key: string, source: seq<byte>,
                    target: seq<byte>, from: Path, to: Path)
    returns (cfg: Config)
    requires SelfDelimiting(bz) && Modest(bz) && |source| < TWO50 && |target| < TWO50
    requires Sha1Of(key) == Some(sha(source))
    ensures cfg.source == from && cfg.target == to
    ensures Fitting(cfg, Decoder(bz, zlib, sha), [source], target)
  {
    hide Sha1Of, SelfDelimiting, Modest, Decode, Placed;
    var file, ctrl, diff, extra := WritePatch(bz, source, target);
    PatchTurns(bz, source, target, ctrl, diff, extra);
    TurnsAlone(bz, source, target, file);
    FileStarts(bz, ctrl, diff, extra, |target|);
    return Config(from, to, sha(target), |target|, [(key, file)]);
  }

  /** Makes a chunked patch for an image of the same shape. */
  method MakeImageUpdate(bz: Bzip, zlib: Zlib, sha: seq<byte> -> Digest, key: string, source: seq<byte>,
                         target: seq<byte>, from: Path, to: Path)
    returns (r: Option<Config>)
    requires SelfDelimiting(bz) && Modest(bz) && StreamEnds(zlib) && |source| < TWO31 && |target| < TWO31
    requires Sha1Of(key) == Some(sha(source))
    ensures r.Some? <==> SameShape(ReadFrom(zlib, source, 0), ReadFrom(zlib, target, 0))
    ensures r.Some? ==> r.value.source == from && r.value.target == to && |r.value.patches| == 1
    ensures r.Some? && |r.value.patches[0].1| < TWO63 ==> Fitting(r.value, Decoder(bz, zlib, sha), [source], target)
  {
    hide Sha1Of, SelfDelimiting, Modest, StreamEnds, ReadFrom, SameShape, ApplyFrom;
    var file := PatchForImage(bz, zlib, source, target);
    if file == None { return None; }
    return Some(Config(from, to, sha(target), |target|, [(key, file.value)]));
  }

  lemma TurnsAlone(bz: Bzip, text: seq<byte>, target: seq<byte>, file: seq<byte>)
    requires Turns(bz, text, target, file)
    ensures Placed(file, 0) && Decode(bz, text, file, 0) == Done(target)
  {
    hide Decode, Placed;
    var before: seq<byte>, behind: seq<byte> := [], [];
    assert Placed(before + file + behind, |before|) && Decode(bz, text, before + file + behind, |before|) == Done(target);
    assert before + file + behind == file;
  }

  lemma FileStarts(bz: Bzip, ctrl: seq<PatchStream.Triple>, diff: seq<byte>, extra: seq<byte>, newsize: nat)
    ensures var file := PatchFile(bz, ctrl, diff, extra, newsize); |file| >= 8 && file[..8] == MAGIC
  {
  }
}

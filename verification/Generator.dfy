/** The writing half of the generator as it runs, step by step on a file system:
    `write_sharded_map_files`, `write_distro_index` and the two writing passes of
    `main`. The log of steps is what a crash can cut short. */
module Generator {
  import opened Text
  import opened Filing
  import opened Sharding
  import opened Commits
  import opened Publishing

  class FileSystem {
    var files: Disk
    ghost var log: seq<Step>

    constructor (disk: Disk)
      ensures files == disk && log == []
    {
      files, log := disk, [];
    }

    /** One call into the operating system. */
    method Perform(step: Step)
      modifies this
      ensures files == Apply(old(files), step) && log == old(log) + [step]
    {
      files := Apply(files, step);
      log := log + [step];
    }
  }

  /** Since `start` the steps `steps` have been performed, after the log `base`. */
  ghost predicate Performed(fs: FileSystem, start: Disk, base: seq<Step>, steps: seq<Step>)
    reads fs
  {
    fs.log == base + steps && fs.files == Exec(start, steps)
  }

  method Extend(fs: FileSystem, ghost start: Disk, ghost base: seq<Step>, ghost steps: seq<Step>, step: Step)
    requires Performed(fs, start, base, steps)
    modifies fs
    ensures Performed(fs, start, base, steps + [step])
  {
    fs.Perform(step);
    assert (steps + [step])[..|steps|] == steps;
  }

  /** Write a document to its temporary file in `n` partial writes, then rename. */
  method PublishDoc(fs: FileSystem, tmp: Path, target: Path, doc: Doc, n: nat)
    requires tmp != target
    modifies fs
    ensures var c := Commit(target, tmp, Some(doc));
            && fs.files == Done(old(fs.files), c)
            && fs.log == old(fs.log) + CommitSteps(old(fs.files), c, n)
  {
    ghost var start, base := fs.files, fs.log;
    Extend(fs, start, base, [], Write(tmp, 0));
    assert [] + [Write(tmp, 0)] == Writes(tmp, 0);
    for i := 0 to n
      invariant Performed(fs, start, base, Writes(tmp, i))
    {
      Extend(fs, start, base, Writes(tmp, i), Write(tmp, i + 1));
    }
    ghost var written := Writes(tmp, n);
    Extend(fs, start, base, written, Finish(tmp, doc));
    Extend(fs, start, base, written + [Finish(tmp, doc)], Rename(tmp, target));
    ghost var c := Commit(target, tmp, Some(doc));
    assert (written + [Finish(tmp, doc)]) + [Rename(tmp, target)] == CommitSteps(start, c, n);
    CommitCompletes(start, c, n);
  }

  /** `if os.path.exists(path): os.remove(path)`. */
  method DropFile(fs: FileSystem, path: Path, ghost tmp: Path, ghost n: nat)
    requires tmp != path
    modifies fs
    ensures var c := Commit(path, tmp, None);
            && fs.files == Done(old(fs.files), c)
            && fs.log == old(fs.log) + CommitSteps(old(fs.files), c, n)
  {
    if path in fs.files {
      fs.Perform(Remove(path));
    } else {
      assert fs.log + [] == fs.log;
    }
  }

  method WriteShard(fs: FileSystem, run: Run, s: string, entries: Mapping, flushes: Path -> nat)
    requires entries == ShardOf(run.mapping, s)
    modifies fs
    ensures var c := ShardCommit(run, s);
            && fs.files == Done(old(fs.files), c)
            && fs.log == old(fs.log) + CommitSteps(old(fs.files), c, flushes(c.tmp))
  {
    var path, tmp := ShardPath(run, s), Path(run.dir, ShardTmp(s));
    if entries == map[] {
      DropFile(fs, path, tmp, flushes(tmp));
    } else {
      PublishDoc(fs, tmp, path, ShardDoc(run.distro, run.generatedAt, s, |entries|, entries), flushes(tmp));
    }
  }

  /** The log grows by the plan of the commits, and the disk is what they leave. */
  ghost predicate Ran(fs: FileSystem, start: Disk, base: seq<Step>, cs: seq<Commit>, flushes: Path -> nat)
    reads fs
  {
    fs.files == DoneAll(start, cs) && fs.log == base + Plan(start, cs, flushes)
  }

  lemma RanOneMore(start: Disk, base: seq<Step>, cs: seq<Commit>, c: Commit, flushes: Path -> nat)
    requires TmpIsNotTarget(cs)
    ensures Done(DoneAll(start, cs), c) == DoneAll(start, cs + [c])
    ensures base + Plan(start, cs, flushes) + CommitSteps(DoneAll(start, cs), c, flushes(c.tmp)) ==
            base + Plan(start, cs + [c], flushes)
  {
    DoneSnoc(start, cs, c);
    PlanCompletes(start, cs, flushes);
    PlanSnoc(start, cs, c, flushes);
    Associate(base, Plan(start, cs, flushes), CommitSteps(DoneAll(start, cs), c, flushes(c.tmp)));
  }

  lemma DoneSnoc(start: Disk, cs: seq<Commit>, c: Commit)
    ensures DoneAll(start, cs + [c]) == Done(DoneAll(start, cs), c)
  {
    assert (cs + [c])[..|cs|] == cs;
  }

  lemma ShardTmps(run: Run, k: nat)
    requires k <= |SHARDS|
    ensures TmpIsNotTarget(ShardCommits(run, k))
  {
    forall i | 0 <= i < k ensures ShardCommits(run, k)[i].target != ShardCommits(run, k)[i].tmp {
      ShardCommitAt(run, k, i);
    }
  }

  /** One more shard, seen as one more commit of the run so far. */
  method WriteNextShard(fs: FileSystem, run: Run, k: nat, entries: Mapping, flushes: Path -> nat,
                        ghost start: Disk, ghost base: seq<Step>)
    requires k < |SHARDS| && entries == ShardOf(run.mapping, SHARDS[k])
    requires Ran(fs, start, base, ShardCommits(run, k), flushes)
    modifies fs
    ensures Ran(fs, start, base, ShardCommits(run, k + 1), flushes)
  {
    ShardTmps(run, k);
    RanOneMore(start, base, ShardCommits(run, k), ShardCommit(run, SHARDS[k]), flushes);
    WriteShard(fs, run, SHARDS[k], entries, flushes);
  }

  lemma CountShard(run: Run, k: nat)
    requires k < |SHARDS|
    ensures Total(run.mapping, k + 1) == Total(run.mapping, k) + |ShardOf(run.mapping, SHARDS[k])|
    ensures ShardOf(run.mapping, SHARDS[k]) == map[] ==> Listed(run, k + 1) == Listed(run, k)
    ensures ShardOf(run.mapping, SHARDS[k]) != map[] ==> Listed(run, k + 1) == Listed(run, k) + [SHARDS[k]]
  {
  }

  method WriteShards(fs: FileSystem, run: Run, buckets: Buckets, flushes: Path -> nat)
    returns (written: seq<string>, total: nat)
    requires forall s :: s in SHARDS ==> s in buckets && buckets[s] == ShardOf(run.mapping, s)
    modifies fs
    ensures written == Listed(run, |SHARDS|) && total == Total(run.mapping, |SHARDS|)
    ensures Ran(fs, old(fs.files), old(fs.log), ShardCommits(run, |SHARDS|), flushes)
  {
    ghost var start, base := fs.files, fs.log;
    written, total := [], 0;
    assert base + [] == base;
    for k := 0 to |SHARDS|
      invariant written == Listed(run, k) && total == Total(run.mapping, k)
      invariant Ran(fs, start, base, ShardCommits(run, k), flushes)
    {
      var entries := buckets[SHARDS[k]];
      WriteNextShard(fs, run, k, entries, flushes, start, base);
      CountShard(run, k);
      if entries != map[] {
        written := written + [SHARDS[k]];
        total := total + |entries|;
      }
    }
  }

  /** Nothing is written, and `None` returned, exactly when some name has no
      shard; otherwise the shards written and the entries they hold. */
  method WriteShardedMapFiles(fs: FileSystem, run: Run, flushes: Path -> nat)
    returns (r: Option<(seq<string>, nat)>)
    modifies fs
    ensures r.None? <==> !Shardable(run.mapping)
    ensures r.None? ==> fs.files == old(fs.files) && fs.log == old(fs.log)
    ensures r.Some? ==> r.value == (Listed(run, |SHARDS|), Total(run.mapping, |SHARDS|))
    ensures r.Some? ==> Ran(fs, old(fs.files), old(fs.log), ShardCommits(run, |SHARDS|), flushes)
  {
    var buckets := FillBuckets(run.mapping);
    if buckets.None? { return None; }
    var written, total := WriteShards(fs, run, buckets.value, flushes);
    r := Some((written, total));
  }

  method WriteDistroIndex(fs: FileSystem, run: Run, shards: seq<string>, total: nat, flushes: Path -> nat)
    modifies fs
    ensures var c := Commit(IndexPath(run), Path(run.dir, IndexTmp),
                            Some(IndexDoc(run.distro, run.generatedAt, shards, total)));
            && fs.files == Done(old(fs.files), c)
            && fs.log == old(fs.log) + CommitSteps(old(fs.files), c, flushes(c.tmp))
  {
    var tmp := Path(run.dir, IndexTmp);
    PublishDoc(fs, tmp, IndexPath(run), IndexDoc(run.distro, run.generatedAt, shards, total), flushes(tmp));
  }

  /** One directory: its shards, then its index. */
  method PublishRun(fs: FileSystem, run: Run, flushes: Path -> nat) returns (ok: bool)
    modifies fs
    ensures ok <==> Shardable(run.mapping)
    ensures !ok ==> fs.files == old(fs.files) && fs.log == old(fs.log)
    ensures ok ==> Ran(fs, old(fs.files), old(fs.log), RunCommits(run), flushes)
  {
    ghost var start, base := fs.files, fs.log;
    var r := WriteShardedMapFiles(fs, run, flushes);
    if r.None? { return false; }
    ShardTmps(run, |SHARDS|);
    RanOneMore(start, base, ShardCommits(run, |SHARDS|), IndexCommit(run), flushes);
    WriteDistroIndex(fs, run, r.value.0, r.value.1, flushes);
    ok := true;
  }

  lemma RanBoth(start: Disk, base: seq<Step>, cs: seq<Commit>, more: seq<Commit>, flushes: Path -> nat)
    requires TmpIsNotTarget(cs)
    ensures DoneAll(DoneAll(start, cs), more) == DoneAll(start, cs + more)
    ensures base + Plan(start, cs, flushes) + Plan(DoneAll(start, cs), more, flushes) ==
            base + Plan(start, cs + more, flushes)
  {
    PlanCompletes(start, cs, flushes);
    PlanConcat(start, DoneAll(start, cs), cs, more, flushes);
    DoneAllConcat(start, cs, more);
    Associate(base, Plan(start, cs, flushes), Plan(DoneAll(start, cs), more, flushes));
  }

  lemma AllCommitsSnoc(runs: seq<Run>, run: Run)
    ensures AllCommits(runs + [run]) == AllCommits(runs) + RunCommits(run)
  {
    assert (runs + [run])[..|runs|] == runs;
    assert (Blocks(runs) + [RunCommits(run)])[..|runs|] == Blocks(runs);
  }

  lemma TmpsAreNotTargets(runs: seq<Run>)
    ensures TmpIsNotTarget(AllCommits(runs))
  {
    forall n | 0 <= n < |AllCommits(runs)| ensures AllCommits(runs)[n].target != AllCommits(runs)[n].tmp {
      var r, i := ItemOfCommit(runs, n);
      ItemShape(runs[r], i);
    }
  }

  /** One more directory, seen as the next block of commits. */
  method PublishNext(fs: FileSystem, ghost runs: seq<Run>, run: Run, flushes: Path -> nat,
                     ghost start: Disk, ghost base: seq<Step>) returns (ok: bool)
    requires Ran(fs, start, base, AllCommits(runs), flushes)
    modifies fs
    ensures ok <==> Shardable(run.mapping)
    ensures Ran(fs, start, base, AllCommits(if ok then runs + [run] else runs), flushes)
  {
    TmpsAreNotTargets(runs);
    RanBoth(start, base, AllCommits(runs), RunCommits(run), flushes);
    AllCommitsSnoc(runs, run);
    ok := PublishRun(fs, run, flushes);
  }

  predicate AllShardable(runs: seq<Run>)
  {
    runs == [] || (AllShardable(runs[..|runs| - 1]) && Shardable(runs[|runs| - 1].mapping))
  }

  lemma Grow(sofar: seq<Run>, runs: seq<Run>)
    requires sofar <= runs && |sofar| < |runs|
    ensures sofar + [runs[|sofar|]] <= runs
    ensures AllShardable(sofar + [runs[|sofar|]]) <==> AllShardable(sofar) && Shardable(runs[|sofar|].mapping)
  {
    assert (sofar + [runs[|sofar|]])[..|sofar|] == sofar;
  }

  /** The writing passes: every distro's directory, then `common`. The first
      directory whose mapping cannot be sharded ends the run. */
  method PublishAll(fs: FileSystem, runs: seq<Run>, flushes: Path -> nat) returns (done: nat, ghost published: seq<Run>)
    modifies fs
    ensures published <= runs && |published| == done && AllShardable(published)
    ensures done < |runs| ==> !Shardable(runs[done].mapping)
    ensures Ran(fs, old(fs.files), old(fs.log), AllCommits(published), flushes)
  {
    ghost var start, base := fs.files, fs.log;
    done, published := 0, [];
    assert base + [] == base;
    while done < |runs|
      invariant published <= runs && |published| == done && AllShardable(published)
      invariant Ran(fs, start, base, AllCommits(published), flushes)
    {
      Grow(published, runs);
      var ok := PublishNext(fs, published, runs[done], flushes, start, base);
      if !ok { break; }
      published := published + [runs[done]];
      done := done + 1;
    }
  }
}

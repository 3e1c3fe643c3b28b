/** What one run of the generator leaves on disk, complete or cut off anywhere:
    `write_sharded_map_files` and `write_distro_index` for every directory. */
module Publishing {
  import opened Text
  import opened Filing
  import opened Sharding
  import opened Commits

  /** One directory's share of a run. */
  datatype Run = Run(dir: string, distro: string, generatedAt: string, mapping: Mapping)

  function ShardPath(run: Run, s: string): Path { Path(run.dir, ShardFile(s)) }

  function IndexPath(run: Run): Path { Path(run.dir, IndexFile) }

  function NewShard(run: Run, s: string): Option<Doc>
  {
    var entries := ShardOf(run.mapping, s);
    if entries == map[] then None
    else Some(ShardDoc(run.distro, run.generatedAt, s, |entries|, entries))
  }

  /** The non-empty ones of the first `k` shards, the generator's `written`. */
  function Listed(run: Run, k: nat): seq<string>
    requires k <= |SHARDS|
  {
    if k == 0 then []
    else
      var s := SHARDS[k - 1];
      if NewShard(run, s).Some? then Listed(run, k - 1) + [s] else Listed(run, k - 1)
  }

  lemma {:induction false} ListedIff(run: Run, k: nat, s: string)
    requires k <= |SHARDS|
    ensures s in Listed(run, k) <==> s in SHARDS[..k] && NewShard(run, s).Some?
  {
    if k > 0 {
      ListedIff(run, k - 1, s);
      InPrefix(SHARDS, k, s);
    }
  }

  function NewIndex(run: Run): Doc
  {
    IndexDoc(run.distro, run.generatedAt, Listed(run, |SHARDS|), Total(run.mapping, |SHARDS|))
  }

  function ShardCommit(run: Run, s: string): Commit
  {
    Commit(ShardPath(run, s), Path(run.dir, ShardTmp(s)), NewShard(run, s))
  }

  function IndexCommit(run: Run): Commit
  {
    Commit(IndexPath(run), Path(run.dir, IndexTmp), Some(NewIndex(run)))
  }

  /** The shards in order, then the index. */
  function ShardCommits(run: Run, k: nat): (r: seq<Commit>)
    requires k <= |SHARDS|
    ensures |r| == k
  {
    if k == 0 then [] else ShardCommits(run, k - 1) + [ShardCommit(run, SHARDS[k - 1])]
  }

  lemma {:induction false} ShardCommitAt(run: Run, k: nat, i: nat)
    requires i < k <= |SHARDS|
    ensures ShardCommits(run, k)[i] == ShardCommit(run, SHARDS[i])
  {
    if i < k - 1 { ShardCommitAt(run, k - 1, i); }
  }


  /** The 28 files of a directory: 27 shards and the index. */
  function RunCommits(run: Run): (r: seq<Commit>)
    ensures |r| == 28
  {
    ShardCommits(run, |SHARDS|) + [IndexCommit(run)]
  }

  function Flatten<T>(blocks: seq<seq<T>>): seq<T>
  {
    if blocks == [] then [] else Flatten(blocks[..|blocks| - 1]) + blocks[|blocks| - 1]
  }

  lemma {:induction false} FlattenLength<T>(blocks: seq<seq<T>>)
    requires forall r :: 0 <= r < |blocks| ==> |blocks[r]| == 28
    ensures |Flatten(blocks)| == 28 * |blocks|
  {
    if blocks != [] { FlattenLength(blocks[..|blocks| - 1]); }
  }

  lemma {:induction false} FlattenAt<T>(blocks: seq<seq<T>>, r: nat, i: nat)
    requires forall r :: 0 <= r < |blocks| ==> |blocks[r]| == 28
    requires r < |blocks| && i < 28
    ensures 28 * r + i < |Flatten(blocks)| && Flatten(blocks)[28 * r + i] == blocks[r][i]
  {
    var front := blocks[..|blocks| - 1];
    FlattenLength(front);
    if r < |front| { FlattenAt(front, r, i); }
  }

  function Blocks(runs: seq<Run>): (r: seq<seq<Commit>>)
    ensures |r| == |runs|
  {
    if runs == [] then [] else Blocks(runs[..|runs| - 1]) + [RunCommits(runs[|runs| - 1])]
  }

  lemma {:induction false} BlockAt(runs: seq<Run>, r: nat)
    requires r < |runs|
    ensures Blocks(runs)[r] == RunCommits(runs[r])
  {
    if r < |runs| - 1 { BlockAt(runs[..|runs| - 1], r); }
  }

  lemma BlocksLength(runs: seq<Run>)
    ensures forall r :: 0 <= r < |runs| ==> |Blocks(runs)[r]| == 28
    ensures |AllCommits(runs)| == 28 * |runs|
  {
    forall r | 0 <= r < |runs| ensures |Blocks(runs)[r]| == 28 { BlockAt(runs, r); }
    FlattenLength(Blocks(runs));
  }

  /** The directories one after the other. */
  function AllCommits(runs: seq<Run>): seq<Commit>
  {
    Flatten(Blocks(runs))
  }

  lemma CommitOfItem(runs: seq<Run>, r: nat, i: nat)
    requires r < |runs| && i < 28
    ensures 28 * r + i < |AllCommits(runs)| == 28 * |runs|
    ensures AllCommits(runs)[28 * r + i] == RunCommits(runs[r])[i]
  {
    BlocksLength(runs);
    FlattenAt(Blocks(runs), r, i);
    BlockAt(runs, r);
  }

  lemma ItemOfCommit(runs: seq<Run>, n: nat) returns (r: nat, i: nat)
    requires n < |AllCommits(runs)|
    ensures r < |runs| && i < 28 && n == 28 * r + i
    ensures AllCommits(runs)[n] == RunCommits(runs[r])[i]
  {
    CommitCount(runs);
    r, i := Divide(n, |runs|);
    ItemAt(AllCommits(runs), n, r, i, RunCommits(runs[r])[i]) by { CommitOfItem(runs, r, i); }
  }

  lemma ItemAt(cs: seq<Commit>, n: nat, r: nat, i: nat, c: Commit)
    requires n == 28 * r + i && 28 * r + i < |cs| && cs[28 * r + i] == c
    ensures cs[n] == c
  {
  }

  lemma CommitCount(runs: seq<Run>)
    ensures |AllCommits(runs)| == 28 * |runs|
  {
    BlocksLength(runs);
  }

  lemma Divide(n: nat, count: nat) returns (r: nat, i: nat)
    requires n < 28 * count
    ensures r < count && i < 28 && n == 28 * r + i
  {
    r, i := n / 28, n % 28;
  }

  // ------------------------------------------------- the files are all distinct

  ghost predicate DistinctDirs(runs: seq<Run>)
  {
    forall r, q :: 0 <= r < q < |runs| ==> runs[r].dir != runs[q].dir
  }

  lemma ItemShape(run: Run, i: nat)
    requires i < 28
    ensures i < |SHARDS| ==> RunCommits(run)[i] == ShardCommit(run, SHARDS[i])
    ensures i == |SHARDS| ==> RunCommits(run)[i] == IndexCommit(run)
    ensures RunCommits(run)[i].target.dir == run.dir == RunCommits(run)[i].tmp.dir
    ensures RunCommits(run)[i].target.file.ShardFile? || RunCommits(run)[i].target.file.IndexFile?
    ensures RunCommits(run)[i].tmp.file.ShardTmp? || RunCommits(run)[i].tmp.file.IndexTmp?
  {
    if i < |SHARDS| { ShardCommitAt(run, |SHARDS|, i); }
  }

  lemma TargetsDiffer(run: Run, i: nat, j: nat)
    requires i < j < 28
    ensures RunCommits(run)[i].target != RunCommits(run)[j].target
  {
    ShardsDistinct();
    ItemShape(run, i);
    ItemShape(run, j);
  }

  lemma AllSeparate(runs: seq<Run>)
    requires DistinctDirs(runs)
    ensures Separate(AllCommits(runs))
  {
    var cs := AllCommits(runs);
    forall n, m | 0 <= n < m < |cs| ensures cs[n].target != cs[m].target {
      var r, i := ItemOfCommit(runs, n);
      var q, j := ItemOfCommit(runs, m);
      ItemShape(runs[r], i);
      ItemShape(runs[q], j);
      if r == q {
        TargetsDiffer(runs[r], i, j);
      } else {
        assert runs[r].dir != runs[q].dir;
      }
    }
    forall n, m | 0 <= n < |cs| && 0 <= m < |cs| ensures cs[n].tmp != cs[m].target {
      var r, i := ItemOfCommit(runs, n);
      var q, j := ItemOfCommit(runs, m);
      ItemShape(runs[r], i);
      ItemShape(runs[q], j);
    }
  }

  // ------------------------------------------------- a run cut off anywhere

  /** The disk a generation leaves when it stops after `j` steps. */
  ghost function CutOff(disk: Disk, runs: seq<Run>, flushes: Path -> nat, j: nat): Disk
  {
    Exec(disk, FirstSteps(Plan(disk, AllCommits(runs), flushes), j))
  }

  ghost function FirstSteps(steps: seq<Step>, j: nat): seq<Step>
  {
    if j < |steps| then steps[..j] else steps
  }

  lemma CutPoint(disk: Disk, runs: seq<Run>, flushes: Path -> nat, j: nat) returns (k: nat)
    requires DistinctDirs(runs)
    ensures Separate(AllCommits(runs)) && k <= |AllCommits(runs)|
    ensures CutAt(disk, AllCommits(runs), CutOff(disk, runs, flushes, j), k)
  {
    AllSeparate(runs);
    var plan := Plan(disk, AllCommits(runs), flushes);
    k := EveryCut(disk, AllCommits(runs), flushes, if j < |plan| then j else |plan|);
    assert plan[..|plan|] == plan;
  }

  /** Where file `i` of directory `r` comes in the generation. */
  function Position(r: nat, i: nat): nat { 28 * r + i }

  /** Every shard and index before position `k` holds the new run's document
      whole, or is absent where the run has none, and every one after it is
      exactly as it was. */
  ghost predicate NewUpTo(disk: Disk, runs: seq<Run>, d: Disk, k: nat)
  {
    forall r, i :: 0 <= r < |runs| && 0 <= i < 28 ==> ItemIs(disk, runs[r], d, i, Position(r, i) < k)
  }

  ghost predicate ItemIs(disk: Disk, run: Run, d: Disk, i: nat, isNew: bool)
    requires i < 28
  {
    var c := RunCommits(run)[i];
    At(d, c.target) == if isNew then Published(c) else At(disk, c.target)
  }

  lemma CutItem(disk: Disk, runs: seq<Run>, d: Disk, k: nat, r: nat, i: nat)
    requires Separate(AllCommits(runs)) && k <= |AllCommits(runs)| && CutAt(disk, AllCommits(runs), d, k)
    requires r < |runs| && i < 28
    ensures ItemIs(disk, runs[r], d, i, Position(r, i) < k)
  {
    CommitOfItem(runs, r, i);
    CutTargets(disk, AllCommits(runs), d, k, Position(r, i));
  }

  /** Crash safety of a whole generation: wherever it stops, what is on disk is
      new up to some position and old from there on. */
  lemma EveryCrashIsAPrefix(disk: Disk, runs: seq<Run>, flushes: Path -> nat, j: nat) returns (k: nat)
    requires DistinctDirs(runs)
    ensures NewUpTo(disk, runs, CutOff(disk, runs, flushes, j), k)
  {
    k := CutPoint(disk, runs, flushes, j);
    var d := CutOff(disk, runs, flushes, j);
    forall r, i | 0 <= r < |runs| && 0 <= i < 28
      ensures ItemIs(disk, runs[r], d, i, Position(r, i) < k)
    {
      CutItem(disk, runs, d, k, r, i);
    }
  }

  ghost predicate IsTmp(p: Path)
  {
    p.file.ShardTmp? || p.file.IndexTmp?
  }

  /** From a disk without temporary files, at most one is left behind. */
  lemma AtMostOneTmp(disk: Disk, runs: seq<Run>, flushes: Path -> nat, j: nat, p: Path, q: Path)
    requires DistinctDirs(runs)
    requires forall t :: t in disk ==> !IsTmp(t)
    requires IsTmp(p) && p in CutOff(disk, runs, flushes, j)
    requires IsTmp(q) && q in CutOff(disk, runs, flushes, j)
    ensures p == q
  {
    var cs := AllCommits(runs);
    var k := CutPoint(disk, runs, flushes, j);
    forall n | 0 <= n < |cs| ensures !IsTmp(cs[n].target) {
      var r, i := ItemOfCommit(runs, n);
      ItemShape(runs[r], i);
    }
    CutLeavesOneTmp(disk, cs, CutOff(disk, runs, flushes, j), k, p);
    CutLeavesOneTmp(disk, cs, CutOff(disk, runs, flushes, j), k, q);
  }

  /** The files of other directories are never touched. */
  lemma OtherDirectoriesUntouched(disk: Disk, runs: seq<Run>, flushes: Path -> nat, j: nat, p: Path)
    requires DistinctDirs(runs)
    requires forall r :: 0 <= r < |runs| ==> runs[r].dir != p.dir
    ensures At(CutOff(disk, runs, flushes, j), p) == At(disk, p)
  {
    var cs := AllCommits(runs);
    var k := CutPoint(disk, runs, flushes, j);
    forall n | 0 <= n < |cs| ensures p != cs[n].target && p != cs[n].tmp {
      var r, i := ItemOfCommit(runs, n);
      ItemShape(runs[r], i);
    }
    CutOthers(disk, cs, CutOff(disk, runs, flushes, j), k, p);
  }

  // --------------------------------------------------- index versus shards

  /** Every shard file is the run's own: whole, or absent where it has none. */
  ghost predicate ShardsAre(disk: Disk, run: Run)
  {
    forall i :: 0 <= i < |SHARDS| ==>
      At(disk, ShardPath(run, SHARDS[i])) == Published(ShardCommit(run, SHARDS[i]))
  }

  /** The entries found by reading the first `k` shard files of a directory. */
  function EntriesOnDisk(disk: Disk, dir: string, k: nat): nat
    requires k <= |SHARDS|
  {
    if k == 0 then 0 else EntriesOnDisk(disk, dir, k - 1) + EntriesIn(At(disk, Path(dir, ShardFile(SHARDS[k - 1]))))
  }

  function EntriesIn(file: Option<Content>): nat
  {
    match file
    case Some(Whole(ShardDoc(_, _, _, _, mappings))) => |mappings|
    case _ => 0
  }

  lemma {:induction false} EntriesAreTotal(disk: Disk, run: Run, k: nat)
    requires ShardsAre(disk, run) && k <= |SHARDS|
    ensures EntriesOnDisk(disk, run.dir, k) == Total(run.mapping, k)
  {
    if k == 0 {
      NothingYet(disk, run);
    } else {
      EntriesAreTotal(disk, run, k - 1);
      BothGrow(disk, run, k - 1);
    }
  }

  lemma NothingYet(disk: Disk, run: Run)
    ensures EntriesOnDisk(disk, run.dir, 0) == Total(run.mapping, 0) == 0
  {
  }

  lemma BothGrow(disk: Disk, run: Run, k: nat)
    requires ShardsAre(disk, run) && k < |SHARDS|
    ensures EntriesOnDisk(disk, run.dir, k + 1) - EntriesOnDisk(disk, run.dir, k) ==
            Total(run.mapping, k + 1) - Total(run.mapping, k)
  {
    EntriesOfShard(disk, run, k);
    TotalNext(run.mapping, k);
  }

  lemma EntriesOfShard(disk: Disk, run: Run, i: nat)
    requires ShardsAre(disk, run) && i < |SHARDS|
    ensures EntriesIn(At(disk, Path(run.dir, ShardFile(SHARDS[i])))) == |ShardOf(run.mapping, SHARDS[i])|
  {
    assert At(disk, ShardPath(run, SHARDS[i])) == Published(ShardCommit(run, SHARDS[i]));
  }

  /** The index of the run is in place and tells the truth: the shard files present
      are those it lists, whole, and its total is the number of entries in them. */
  ghost predicate IndexHolds(disk: Disk, run: Run)
  {
    && At(disk, IndexPath(run)) == Some(Whole(NewIndex(run)))
    && ShardsAre(disk, run)
    && (forall s :: s in SHARDS ==> (ShardPath(run, s) in disk <==> s in NewIndex(run).shards))
    && EntriesOnDisk(disk, run.dir, |SHARDS|) == NewIndex(run).total
  }

  lemma ShardsAndIndexHold(disk: Disk, run: Run)
    requires ShardsAre(disk, run) && At(disk, IndexPath(run)) == Some(Whole(NewIndex(run)))
    ensures IndexHolds(disk, run)
  {
    EntriesAreTotal(disk, run, |SHARDS|);
    assert SHARDS[..|SHARDS|] == SHARDS;
    forall s | s in SHARDS ensures ShardPath(run, s) in disk <==> s in NewIndex(run).shards {
      var i :| 0 <= i < |SHARDS| && SHARDS[i] == s;
      assert At(disk, ShardPath(run, SHARDS[i])) == Published(ShardCommit(run, s));
      ListedIff(run, |SHARDS|, s);
    }
  }

  /** At every crash point every directory's index is either the previous one
      unchanged, or the new one with all its shards in place. */
  lemma IndexIsOldOrTrue(disk: Disk, runs: seq<Run>, flushes: Path -> nat, j: nat, r: nat)
    requires DistinctDirs(runs) && r < |runs|
    ensures At(CutOff(disk, runs, flushes, j), IndexPath(runs[r])) == At(disk, IndexPath(runs[r]))
            || IndexHolds(CutOff(disk, runs, flushes, j), runs[r])
  {
    var k := EveryCrashIsAPrefix(disk, runs, flushes, j);
    var d := CutOff(disk, runs, flushes, j);
    ItemShape(runs[r], 27);
    assert ItemIs(disk, runs[r], d, 27, Position(r, 27) < k);
    if Position(r, 27) < k {
      forall i | 0 <= i < 28 ensures ItemIs(disk, runs[r], d, i, true) {
        assert ItemIs(disk, runs[r], d, i, Position(r, i) < k);
      }
      ItemsHold(disk, runs[r], d);
    }
  }

  /** All 28 files in place make the index true. */
  lemma ItemsHold(disk: Disk, run: Run, d: Disk)
    requires forall i :: 0 <= i < 28 ==> ItemIs(disk, run, d, i, true)
    ensures IndexHolds(d, run)
  {
    forall i | 0 <= i < |SHARDS|
      ensures At(d, ShardPath(run, SHARDS[i])) == Published(ShardCommit(run, SHARDS[i]))
    {
      ItemShape(run, i);
      assert ItemIs(disk, run, d, i, true);
    }
    ItemShape(run, 27);
    assert ItemIs(disk, run, d, 27, true);
    ShardsAndIndexHold(d, run);
  }

  // ------------------------------------------------------- complete runs

  /** The disk a generation leaves when it is not cut off. */
  ghost function Completed(disk: Disk, runs: seq<Run>, flushes: Path -> nat): Disk
  {
    CutOff(disk, runs, flushes, |Plan(disk, AllCommits(runs), flushes)|)
  }

  lemma CompleteIsDone(disk: Disk, runs: seq<Run>, flushes: Path -> nat)
    requires DistinctDirs(runs)
    ensures Completed(disk, runs, flushes) == DoneAll(disk, AllCommits(runs))
  {
    AllSeparate(runs);
    PlanCompletes(disk, AllCommits(runs), flushes);
  }

  lemma DoneItem(disk: Disk, runs: seq<Run>, r: nat, i: nat)
    requires Separate(AllCommits(runs)) && r < |runs| && i < 28
    ensures ItemIs(disk, runs[r], DoneAll(disk, AllCommits(runs)), i, true)
  {
    CommitOfItem(runs, r, i);
    DoneIsACut(disk, AllCommits(runs));
    CutItem(disk, runs, DoneAll(disk, AllCommits(runs)), |AllCommits(runs)|, r, i);
  }

  lemma DoneHolds(disk: Disk, runs: seq<Run>, r: nat)
    requires DistinctDirs(runs) && r < |runs|
    ensures IndexHolds(DoneAll(disk, AllCommits(runs)), runs[r])
  {
    AllSeparate(runs);
    var d := DoneAll(disk, AllCommits(runs));
    forall i | 0 <= i < 28 ensures ItemIs(disk, runs[r], d, i, true) { DoneItem(disk, runs, r, i); }
    ItemsHold(disk, runs[r], d);
  }

  /** A complete generation leaves every index true. */
  lemma CompleteRunHolds(disk: Disk, runs: seq<Run>, flushes: Path -> nat, r: nat)
    requires DistinctDirs(runs) && r < |runs|
    ensures IndexHolds(Completed(disk, runs, flushes), runs[r])
  {
    CompleteIsDone(disk, runs, flushes);
    DoneHolds(disk, runs, r);
  }

  /** Recovery: whatever two disks held before, crashed runs included, and however
      the writing is split up, one complete generation leaves the same shards and
      index on both. */
  lemma CompleteRunForgetsThePast(disk: Disk, flushes: Path -> nat, other: Disk, flushes': Path -> nat,
                                  runs: seq<Run>, r: nat, i: nat)
    requires DistinctDirs(runs) && r < |runs| && i < 28
    ensures var p := RunCommits(runs[r])[i].target;
            At(Completed(disk, runs, flushes), p) == At(Completed(other, runs, flushes'), p)
  {
    AllSeparate(runs);
    CompleteIsDone(disk, runs, flushes);
    CompleteIsDone(other, runs, flushes');
    DoneItem(disk, runs, r, i);
    DoneItem(other, runs, r, i);
  }
}

/** From query rows to a resolved package: the generator's `main` end to end, and
    the resolver that reads what it published. */
module Pipeline {
  import opened Text
  import opened Filing
  import opened Sharding
  import opened Commits
  import opened Publishing
  import Selection
  import Extraction
  import Consensus
  import Generator

  /** A repository and the mapping extracted for it. */
  datatype Distro = Distro(repo: string, mapping: Mapping)

  const COMMON: string := "common"

  function Mappings(distros: seq<Distro>): (r: seq<Mapping>)
    ensures |r| == |distros| && forall i :: 0 <= i < |r| ==> r[i] == distros[i].mapping
  {
    if distros == [] then [] else Mappings(distros[..|distros| - 1]) + [distros[|distros| - 1].mapping]
  }

  function DistroRun(d: Distro, at: string): Run
  {
    Run(d.repo, d.repo, at, d.mapping)
  }

  function CommonRun(distros: seq<Distro>, at: string): Run
  {
    Run(COMMON, COMMON, at, Consensus.ConsensusOf(Mappings(distros)))
  }

  function DistroRuns(distros: seq<Distro>, at: string): (r: seq<Run>)
    ensures |r| == |distros| && forall i :: 0 <= i < |r| ==> r[i] == DistroRun(distros[i], at)
  {
    if distros == [] then [] else DistroRuns(distros[..|distros| - 1], at) + [DistroRun(distros[|distros| - 1], at)]
  }

  /** Everything one generation publishes, `common` last. */
  function Runs(distros: seq<Distro>, at: string): seq<Run>
  {
    DistroRuns(distros, at) + [CommonRun(distros, at)]
  }

  /** The first pass: one mapping per repository, empty ones dropped. */
  function Extracted(repos: seq<(string, seq<string>)>, index: Selection.AliasIndex): seq<Distro>
  {
    if repos == [] then []
    else
      var front, last := Extracted(repos[..|repos| - 1], index), repos[|repos| - 1];
      var mapping := Extraction.Mapping(Extraction.RowsOf(last.1), index);
      if mapping == map[] then front else front + [Distro(last.0, mapping)]
  }

  method ExtractAll(repos: seq<(string, seq<string>)>, index: Selection.AliasIndex) returns (distros: seq<Distro>)
    ensures distros == Extracted(repos, index)
  {
    distros := [];
    for i := 0 to |repos|
      invariant distros == Extracted(repos[..i], index)
    {
      assert repos[..i + 1][..i] == repos[..i];
      var mapping := Extraction.ExtractMappings(repos[i].1, index);
      if mapping != map[] {
        distros := distros + [Distro(repos[i].0, mapping)];
      }
    }
    assert repos[..|repos|] == repos;
  }

  /** The four passes of `main`, given the rows of every repository. */
  method Generate(fs: Generator.FileSystem, repos: seq<(string, seq<string>)>, index: Selection.AliasIndex,
                  at: string, flushes: Path -> nat) returns (complete: bool, ghost published: seq<Run>)
    modifies fs
    ensures var runs := Runs(Extracted(repos, index), at);
            && published <= runs
            && (complete <==> published == runs)
            && (complete <==> Generator.AllShardable(runs))
            && Generator.Ran(fs, old(fs.files), old(fs.log), AllCommits(published), flushes)
  {
    var distros := ExtractAll(repos, index);
    var common := Consensus.BuildConsensus(Mappings(distros));
    var runs := DistroRuns(distros, at) + [Run(COMMON, COMMON, at, common)];
    var done;
    done, published := Generator.PublishAll(fs, runs, flushes);
    complete := done == |runs|;
    if complete {
      assert published == runs;
    } else {
      ShardableThroughout(runs, done);
    }
  }

  lemma {:induction false} ShardableThroughout(runs: seq<Run>, r: nat)
    requires r < |runs| && !Shardable(runs[r].mapping)
    ensures !Generator.AllShardable(runs)
  {
    if r < |runs| - 1 { ShardableThroughout(runs[..|runs| - 1], r); }
  }

  // ------------------------------------------------------- reading it back

  /** The entries of one shard file; a missing or foreign file has none. */
  function ReadShard(disk: Disk, dir: string, s: string): Mapping
  {
    match At(disk, Path(dir, ShardFile(s)))
    case Some(Whole(ShardDoc(_, _, _, _, mappings))) => mappings
    case _ => map[]
  }

  lemma ReadPublished(disk: Disk, run: Run, s: string)
    requires ShardsAre(disk, run) && s in SHARDS
    ensures ReadShard(disk, run.dir, s) == ShardOf(run.mapping, s)
  {
    var i :| 0 <= i < |SHARDS| && SHARDS[i] == s;
    assert At(disk, ShardPath(run, SHARDS[i])) == Published(ShardCommit(run, s));
  }

  /** Repository names are distinct and none is `common`. */
  ghost predicate ProperRepos(distros: seq<Distro>)
  {
    && (forall i, j :: 0 <= i < j < |distros| ==> distros[i].repo != distros[j].repo)
    && (forall i :: 0 <= i < |distros| ==> distros[i].repo != COMMON)
  }

  lemma RunsDistinct(distros: seq<Distro>, at: string)
    requires ProperRepos(distros)
    ensures DistinctDirs(Runs(distros, at))
  {
  }

  /** After a complete generation every directory holds its own mapping. */
  lemma PublishedEverywhere(disk: Disk, distros: seq<Distro>, at: string, i: nat)
    requires ProperRepos(distros) && i < |distros|
    ensures ShardsAre(DoneAll(disk, AllCommits(Runs(distros, at))), DistroRun(distros[i], at))
    ensures ShardsAre(DoneAll(disk, AllCommits(Runs(distros, at))), CommonRun(distros, at))
  {
    RunsDistinct(distros, at);
    DoneHolds(disk, Runs(distros, at), i);
    CommonPublished(disk, distros, at);
  }

  lemma CommonPublished(disk: Disk, distros: seq<Distro>, at: string)
    requires ProperRepos(distros)
    ensures IndexHolds(DoneAll(disk, AllCommits(Runs(distros, at))), CommonRun(distros, at))
  {
    RunsDistinct(distros, at);
    var runs := Runs(distros, at);
    DoneHolds(disk, runs, |distros|);
    assert runs[|distros|] == CommonRun(distros, at);
  }

  ghost predicate Votes(d: Distro, name: string, v: string)
  {
    name in d.mapping && d.mapping[name] == v
  }

  ghost predicate Unanimous(distros: seq<Distro>, name: string, v: string)
  {
    forall i :: 0 <= i < |distros| && name in distros[i].mapping ==> Votes(distros[i], name, v)
  }

  /** End to end: whatever the disk held before, every name some distro produced
      is found in its `common` shard, as its override or as a formula some
      distro chose, and as the shared formula where all agree. */
  lemma EveryNameIsInCommon(disk: Disk, distros: seq<Distro>, at: string, k: nat, name: string)
    requires ProperRepos(distros) && k < |distros| && name in distros[k].mapping
    requires !StartsWithChar(name, DOTTED_I)
    ensures var entries := ReadShard(DoneAll(disk, AllCommits(Runs(distros, at))), COMMON, ShardKey(name));
            && name in entries
            && (name in OVERRIDES ==> entries[name] == OVERRIDES[name])
            && (name !in OVERRIDES ==> exists i :: 0 <= i < |distros| && Votes(distros[i], name, entries[name]))
            && (forall v :: name !in OVERRIDES && Unanimous(distros, name, v) ==> entries[name] == v)
  {
    CommonPublished(disk, distros, at);
    KeyIsShardIff(name);
    ReadPublished(DoneAll(disk, AllCommits(Runs(distros, at))), CommonRun(distros, at), ShardKey(name));
    InConsensus(distros, k, name);
  }

  lemma InConsensus(distros: seq<Distro>, k: nat, name: string)
    requires k < |distros| && name in distros[k].mapping && !StartsWithChar(name, DOTTED_I)
    ensures var entries := ShardOf(Consensus.ConsensusOf(Mappings(distros)), ShardKey(name));
            && name in entries
            && (name in OVERRIDES ==> entries[name] == OVERRIDES[name])
            && (name !in OVERRIDES ==> exists i :: 0 <= i < |distros| && Votes(distros[i], name, entries[name]))
            && (forall v :: name !in OVERRIDES && Unanimous(distros, name, v) ==> entries[name] == v)
  {
    var i := ChosenByOne(distros, k, name);
  }

  lemma ChosenByOne(distros: seq<Distro>, k: nat, name: string) returns (i: nat)
    requires k < |distros| && name in distros[k].mapping
    ensures name in Consensus.ConsensusOf(Mappings(distros))
    ensures i < |distros| && Votes(distros[i], name, Consensus.ConsensusOf(Mappings(distros))[name])
  {
    var ms := Mappings(distros);
    NamedByOne(ms, k, name);
    Consensus.ChoiceIsSomeVote(ms, name);
    i :| 0 <= i < |ms| && name in ms[i] && ms[i][name] == Consensus.ConsensusOf(ms)[name];
  }

  lemma {:induction false} NamedByOne(ms: seq<Mapping>, k: nat, name: string)
    requires k < |ms| && name in ms[k]
    ensures name in Consensus.Names(ms)
  {
    if k < |ms| - 1 { NamedByOne(ms[..|ms| - 1], k, name); }
  }

  // ------------------------------------------------------------ the resolver

  /** One of the shards gives the name this formula. */
  ghost predicate Offers(disk: Disk, dir: string, keys: set<string>, name: string, v: string)
  {
    exists s :: s in keys && name in ReadShard(disk, dir, s) && ReadShard(disk, dir, s)[name] == v
  }

  /** `m` merges those shards of the directory: each name any of them has, with a
      formula one of them gives it. */
  ghost predicate Merges(disk: Disk, dir: string, keys: set<string>, m: Mapping)
  {
    && (forall name :: name in m ==> Offers(disk, dir, keys, name, m[name]))
    && (forall name, s :: s in keys && name in ReadShard(disk, dir, s) ==> name in m)
  }

  lemma MergesMore(disk: Disk, dir: string, keys: set<string>, m: Mapping, s: string)
    requires Merges(disk, dir, keys, m)
    ensures Merges(disk, dir, keys + {s}, m + ReadShard(disk, dir, s))
  {
    var more := m + ReadShard(disk, dir, s);
    forall name | name in more ensures Offers(disk, dir, keys + {s}, name, more[name]) {
      if name in ReadShard(disk, dir, s) {
        assert s in keys + {s};
      } else {
        var t :| t in keys && name in ReadShard(disk, dir, t) && ReadShard(disk, dir, t)[name] == m[name];
        assert t in keys + {s};
      }
    }
  }

  /** The shards a request needs, as the resolver computes them. */
  function ReaderKeys(packages: seq<string>): set<string>
  {
    set i | 0 <= i < |packages| :: ReaderKey(packages[i])
  }

  /** Merged common shards, overlaid with merged shards of the distro. */
  ghost predicate Loaded(disk: Disk, distro: string, keys: set<string>, merged: Mapping)
  {
    exists common, own ::
      Merges(disk, COMMON, keys, common) && Merges(disk, distro, keys, own) && merged == common + own
  }

  /** `load_or_fetch_package_map` on freshly published files. */
  method LoadPackageMap(disk: Disk, distro: string, packages: seq<string>) returns (merged: Mapping)
    ensures Loaded(disk, distro, ReaderKeys(packages), merged)
  {
    var shards: set<string> := {};
    for i := 0 to |packages|
      invariant shards == ReaderKeys(packages[..i])
    {
      shards := shards + {ReaderKey(packages[i])};
      KeysOfMore(packages, i);
    }
    assert packages[..|packages|] == packages;
    var commonMerged: Mapping, distroMerged: Mapping := map[], map[];
    ghost var seen: set<string> := {};
    ghost var all := shards;
    while shards != {}
      invariant seen + shards == all
      invariant Merges(disk, COMMON, seen, commonMerged)
      invariant Merges(disk, distro, seen, distroMerged)
      decreases |shards|
    {
      var s :| s in shards;
      MergesMore(disk, COMMON, seen, commonMerged, s);
      MergesMore(disk, distro, seen, distroMerged, s);
      commonMerged := commonMerged + ReadShard(disk, COMMON, s);
      distroMerged := distroMerged + ReadShard(disk, distro, s);
      seen := seen + {s};
      shards := shards - {s};
    }
    assert seen == all;
    merged := commonMerged + distroMerged;
  }

  lemma KeysOfMore(packages: seq<string>, i: nat)
    requires i < |packages|
    ensures ReaderKeys(packages[..i + 1]) == ReaderKeys(packages[..i]) + {ReaderKey(packages[i])}
  {
    var now, was := packages[..i + 1], packages[..i];
    forall s | s in ReaderKeys(now) ensures s in ReaderKeys(was) + {ReaderKey(packages[i])} {
      var j :| 0 <= j < |now| && s == ReaderKey(now[j]);
      if j < i { assert was[j] == now[j]; }
    }
    forall s | s in ReaderKeys(was) + {ReaderKey(packages[i])} ensures s in ReaderKeys(now) {
      if s in ReaderKeys(was) {
        var j :| 0 <= j < |was| && s == ReaderKey(was[j]);
        assert was[j] == now[j];
      } else {
        assert now[i] == packages[i];
      }
    }
  }

  lemma ReaderKeysAreShards(packages: seq<string>, s: string)
    requires s in ReaderKeys(packages)
    ensures s in SHARDS
  {
    var i :| 0 <= i < |packages| && s == ReaderKey(packages[i]);
    ShardsHold(s);
  }

  /** Every name read from one of the shards belongs there. */
  ghost predicate WellFiled(disk: Disk, dir: string, keys: set<string>)
  {
    forall s, name :: s in keys && name in ReadShard(disk, dir, s) ==> ShardKey(name) == s
  }

  /** Then what a merge says of a name is what the name's own shard says. */
  lemma MergeIsOwnShard(disk: Disk, dir: string, keys: set<string>, m: Mapping, name: string)
    requires Merges(disk, dir, keys, m) && WellFiled(disk, dir, keys)
    ensures name in m <==> ShardKey(name) in keys && name in ReadShard(disk, dir, ShardKey(name))
    ensures name in m ==> m[name] == ReadShard(disk, dir, ShardKey(name))[name]
  {
    if name in m {
      var s :| s in keys && name in ReadShard(disk, dir, s) && ReadShard(disk, dir, s)[name] == m[name];
      assert ShardKey(name) == s;
    }
  }

  /** On a published directory a merge is the flat mapping, cut down to the names
      whose shard was asked for. */
  lemma MergeIsFlat(disk: Disk, run: Run, packages: seq<string>, m: Mapping, name: string)
    requires ShardsAre(disk, run) && Merges(disk, run.dir, ReaderKeys(packages), m)
    ensures name in m <==> ShardKey(name) in ReaderKeys(packages) && name in Flat(run.mapping)
    ensures name in m ==> m[name] == Flat(run.mapping)[name]
  {
    var keys := ReaderKeys(packages);
    forall s | s in keys ensures ReadShard(disk, run.dir, s) == ShardOf(run.mapping, s) {
      ReaderKeysAreShards(packages, s);
      ReadPublished(disk, run, s);
    }
    MergeIsOwnShard(disk, run.dir, keys, m, name);
  }

  /** What the resolver is meant to answer for a package. */
  ghost function Answer(distros: seq<Distro>, i: nat, pkg: string): Option<string>
    requires i < |distros|
  {
    AnswerOf(Consensus.ConsensusOf(Mappings(distros)), distros[i].mapping, pkg)
  }

  /** The override, else the distro's own entry, else the consensus one. */
  ghost function AnswerOf(consensus: Mapping, mine: Mapping, pkg: string): Option<string>
  {
    if pkg in OVERRIDES then Some(OVERRIDES[pkg])
    else if pkg in mine then Some(mine[pkg])
    else if pkg in consensus then Some(consensus[pkg])
    else None
  }

  /** Generator and resolver together: after a complete generation a lookup gives
      the override, else the distro's own formula, else the consensus, else
      nothing, for exactly the names whose shard the request covers. */
  lemma ResolverAnswers(disk: Disk, distros: seq<Distro>, at: string, i: nat, packages: seq<string>,
                        merged: Mapping, pkg: string)
    requires ProperRepos(distros) && i < |distros|
    requires Loaded(DoneAll(disk, AllCommits(Runs(distros, at))), distros[i].repo, ReaderKeys(packages), merged)
    ensures var answer := if ShardKey(pkg) in ReaderKeys(packages) then Answer(distros, i, pkg) else None;
            && (pkg in merged <==> answer.Some?)
            && (answer.Some? ==> merged[pkg] == answer.value)
  {
    var published, keys := DoneAll(disk, AllCommits(Runs(distros, at))), ReaderKeys(packages);
    PublishedEverywhere(disk, distros, at, i);
    var common, own :| Merges(published, COMMON, keys, common) && Merges(published, distros[i].repo, keys, own) &&
                       merged == common + own;
    MergeIsFlat(published, CommonRun(distros, at), packages, common, pkg);
    MergeIsFlat(published, DistroRun(distros[i], at), packages, own, pkg);
    AnswerFrom(Consensus.ConsensusOf(Mappings(distros)), distros[i].mapping, pkg, ShardKey(pkg) in keys, common, own);
  }

  lemma AnswerFrom(consensus: Mapping, mine: Mapping, pkg: string, covered: bool, common: Mapping, own: Mapping)
    requires pkg in common <==> covered && pkg in Flat(consensus)
    requires pkg in common ==> common[pkg] == Flat(consensus)[pkg]
    requires pkg in own <==> covered && pkg in Flat(mine)
    requires pkg in own ==> own[pkg] == Flat(mine)[pkg]
    ensures var answer := if covered then AnswerOf(consensus, mine, pkg) else None;
            && (pkg in common + own <==> answer.Some?)
            && (answer.Some? ==> (common + own)[pkg] == answer.value)
  {
  }

  // ------------------------------------------------ reading after a crash

  /** On a disk that is new up to position `k`, a shard reads as the new one or as
      the old one. */
  lemma ShardIsOldOrNew(disk: Disk, runs: seq<Run>, d: Disk, k: nat, r: nat, n: nat)
    requires NewUpTo(disk, runs, d, k) && r < |runs| && n < |SHARDS|
    ensures ReadShard(d, runs[r].dir, SHARDS[n]) ==
            if Position(r, n) < k then ShardOf(runs[r].mapping, SHARDS[n]) else ReadShard(disk, runs[r].dir, SHARDS[n])
  {
    assert ItemIs(disk, runs[r], d, n, Position(r, n) < k);
    ItemShape(runs[r], n);
  }

  /** Wherever a generation is cut off, and whatever was there before: every shard of
      every directory reads as exactly the old or exactly the new one, and no common
      shard is new before all of every distro's are. */
  lemma ShardsAfterACrash(disk: Disk, distros: seq<Distro>, at: string, flushes: Path -> nat, j: nat) returns (k: nat)
    requires ProperRepos(distros)
    ensures var runs := Runs(distros, at);
            var d := CutOff(disk, runs, flushes, j);
            forall r, n :: 0 <= r < |runs| && 0 <= n < |SHARDS| ==>
              ReadShard(d, runs[r].dir, SHARDS[n]) ==
              if Position(r, n) < k then ShardOf(runs[r].mapping, SHARDS[n])
              else ReadShard(disk, runs[r].dir, SHARDS[n])
    ensures forall i, m, n :: 0 <= i < |distros| && 0 <= m < |SHARDS| && 0 <= n && Position(|distros|, n) < k ==>
              Position(i, m) < k
  {
    var runs := Runs(distros, at);
    RunsDistinct(distros, at);
    k := EveryCrashIsAPrefix(disk, runs, flushes, j);
    var d := CutOff(disk, runs, flushes, j);
    forall r, n | 0 <= r < |runs| && 0 <= n < |SHARDS|
      ensures ReadShard(d, runs[r].dir, SHARDS[n]) ==
              if Position(r, n) < k then ShardOf(runs[r].mapping, SHARDS[n])
              else ReadShard(disk, runs[r].dir, SHARDS[n])
    {
      ShardIsOldOrNew(disk, runs, d, k, r, n);
    }
  }

  /** The shards in `news` are the new run's, the others the old one's. */
  ghost predicate Mixed(d: Disk, before: Run, after: Run, news: set<string>)
  {
    forall s :: s in SHARDS ==>
      ReadShard(d, after.dir, s) == if s in news then ShardOf(after.mapping, s) else ShardOf(before.mapping, s)
  }

  /** The shards of directory `r` before position `k`. */
  ghost function News(r: nat, k: nat): set<string>
  {
    set n | 0 <= n < |SHARDS| && Position(r, n) < k :: SHARDS[n]
  }

  lemma InNews(r: nat, k: nat, n: nat)
    requires n < |SHARDS|
    ensures SHARDS[n] in News(r, k) <==> Position(r, n) < k
  {
    if SHARDS[n] in News(r, k) {
      var m :| 0 <= m < |SHARDS| && Position(r, m) < k && SHARDS[m] == SHARDS[n];
      SameIndex(m, n);
    }
  }

  lemma SameIndex(m: nat, n: nat)
    requires m < |SHARDS| && n < |SHARDS| && SHARDS[m] == SHARDS[n]
    ensures m == n
  {
    ShardsDistinct();
  }

  lemma MixedDirectory(disk: Disk, before: Run, after: Run, d: Disk, r: nat, k: nat)
    requires before.dir == after.dir && ShardsAre(disk, before)
    requires forall n :: 0 <= n < |SHARDS| ==>
               ReadShard(d, after.dir, SHARDS[n]) ==
               if Position(r, n) < k then ShardOf(after.mapping, SHARDS[n]) else ReadShard(disk, after.dir, SHARDS[n])
    ensures Mixed(d, before, after, News(r, k))
  {
    forall s | s in SHARDS
      ensures ReadShard(d, after.dir, s) ==
              if s in News(r, k) then ShardOf(after.mapping, s) else ShardOf(before.mapping, s)
    {
      var n :| 0 <= n < |SHARDS| && SHARDS[n] == s;
      InNews(r, k, n);
      ReadPublished(disk, before, s);
    }
  }

  /** After a crash over published directories both directories of a request are
      such mixtures, and a shard that is new in common is new in the distro's. */
  lemma MixedAfterACrash(disk: Disk, oldCommon: Run, oldOwn: Run, distros: seq<Distro>, at: string,
                         flushes: Path -> nat, j: nat, i: nat) returns (newCommon: set<string>, newOwn: set<string>)
    requires ProperRepos(distros) && i < |distros|
    requires oldCommon.dir == COMMON && ShardsAre(disk, oldCommon)
    requires oldOwn.dir == distros[i].repo && ShardsAre(disk, oldOwn)
    ensures var d := CutOff(disk, Runs(distros, at), flushes, j);
            && Mixed(d, oldCommon, CommonRun(distros, at), newCommon)
            && Mixed(d, oldOwn, DistroRun(distros[i], at), newOwn)
    ensures newCommon <= newOwn
  {
    var runs := Runs(distros, at);
    var d := CutOff(disk, runs, flushes, j);
    var k := ShardsAfterACrash(disk, distros, at, flushes, j);
    assert runs[|distros|] == CommonRun(distros, at) && runs[i] == DistroRun(distros[i], at);
    newCommon, newOwn := News(|distros|, k), News(i, k);
    MixedDirectory(disk, oldCommon, CommonRun(distros, at), d, |distros|, k);
    MixedDirectory(disk, oldOwn, DistroRun(distros[i], at), d, i, k);
    forall s | s in newCommon ensures s in newOwn {
      var n :| 0 <= n < |SHARDS| && Position(|distros|, n) < k && SHARDS[n] == s;
      InNews(i, k, n);
    }
  }

  lemma MixedMerge(d: Disk, before: Run, after: Run, news: set<string>, packages: seq<string>, m: Mapping, name: string)
    requires Mixed(d, before, after, news) && Merges(d, after.dir, ReaderKeys(packages), m)
    ensures var mapping := if ShardKey(name) in news then after.mapping else before.mapping;
            && (name in m <==> ShardKey(name) in ReaderKeys(packages) && name in Flat(mapping))
            && (name in m ==> m[name] == Flat(mapping)[name])
  {
    var keys := ReaderKeys(packages);
    forall s | s in keys
      ensures ReadShard(d, after.dir, s) == if s in news then ShardOf(after.mapping, s) else ShardOf(before.mapping, s)
    {
      ReaderKeysAreShards(packages, s);
    }
    MergeIsOwnShard(d, after.dir, keys, m, name);
  }

  /** After such a crash the resolver still answers as one generation would, or as
      the new distro over the old consensus; the new consensus never comes with the
      old distro. */
  lemma ResolverAfterACrash(disk: Disk, oldCommon: Run, oldOwn: Run, distros: seq<Distro>, at: string,
                            flushes: Path -> nat, j: nat, i: nat, packages: seq<string>, merged: Mapping, pkg: string)
    returns (consensus: Mapping, mine: Mapping)
    requires ProperRepos(distros) && i < |distros|
    requires oldCommon.dir == COMMON && ShardsAre(disk, oldCommon)
    requires oldOwn.dir == distros[i].repo && ShardsAre(disk, oldOwn)
    requires Loaded(CutOff(disk, Runs(distros, at), flushes, j), distros[i].repo, ReaderKeys(packages), merged)
    ensures consensus == oldCommon.mapping || consensus == Consensus.ConsensusOf(Mappings(distros))
    ensures mine == oldOwn.mapping || mine == distros[i].mapping
    ensures consensus == oldCommon.mapping || mine == distros[i].mapping
    ensures var answer := if ShardKey(pkg) in ReaderKeys(packages) then AnswerOf(consensus, mine, pkg) else None;
            && (pkg in merged <==> answer.Some?)
            && (answer.Some? ==> merged[pkg] == answer.value)
  {
    var d := CutOff(disk, Runs(distros, at), flushes, j);
    var newCommon, newOwn := MixedAfterACrash(disk, oldCommon, oldOwn, distros, at, flushes, j, i);
    consensus, mine :=
      AnswerMixed(d, oldCommon, CommonRun(distros, at), newCommon, oldOwn, DistroRun(distros[i], at), newOwn,
                  packages, merged, pkg);
  }

  lemma AnswerMixed(d: Disk, oldCommon: Run, common: Run, newCommon: set<string>, oldOwn: Run, own: Run,
                    newOwn: set<string>, packages: seq<string>, merged: Mapping, pkg: string)
    returns (consensus: Mapping, mine: Mapping)
    requires common.dir == COMMON && Mixed(d, oldCommon, common, newCommon) && Mixed(d, oldOwn, own, newOwn)
    requires newCommon <= newOwn && Loaded(d, own.dir, ReaderKeys(packages), merged)
    ensures consensus == oldCommon.mapping || consensus == common.mapping
    ensures mine == oldOwn.mapping || mine == own.mapping
    ensures consensus == oldCommon.mapping || mine == own.mapping
    ensures var answer := if ShardKey(pkg) in ReaderKeys(packages) then AnswerOf(consensus, mine, pkg) else None;
            && (pkg in merged <==> answer.Some?)
            && (answer.Some? ==> merged[pkg] == answer.value)
  {
    var keys, s := ReaderKeys(packages), ShardKey(pkg);
    var c, o :| Merges(d, COMMON, keys, c) && Merges(d, own.dir, keys, o) && merged == c + o;
    consensus := if s in newCommon then common.mapping else oldCommon.mapping;
    mine := if s in newOwn then own.mapping else oldOwn.mapping;
    MixedMerge(d, oldCommon, common, newCommon, packages, c, pkg);
    MixedMerge(d, oldOwn, own, newOwn, packages, o, pkg);
    AnswerFrom(consensus, mine, pkg, s in keys, c, o);
  }

  /** A requested package is covered unless it starts with U+0130 or U+212A; a
      package that starts with the Kelvin sign is covered only if some other
      requested package is filed under `k`. */
  lemma RequestCovers(packages: seq<string>, j: nat)
    requires j < |packages|
    ensures !StartsWithChar(packages[j], DOTTED_I) && !StartsWithChar(packages[j], KELVIN) ==>
              ShardKey(packages[j]) in ReaderKeys(packages)
    ensures StartsWithChar(packages[j], DOTTED_I) ==> ShardKey(packages[j]) !in ReaderKeys(packages)
    ensures StartsWithChar(packages[j], KELVIN) ==>
              (ShardKey(packages[j]) in ReaderKeys(packages) <==> exists q :: q in packages && ReaderKey(q) == "k")
  {
    ShardKeyCases(packages[j]);
    KeyIsShardIff(packages[j]);
    if ShardKey(packages[j]) in ReaderKeys(packages) {
      ReaderKeysAreShards(packages, ShardKey(packages[j]));
      var i :| 0 <= i < |packages| && ShardKey(packages[j]) == ReaderKey(packages[i]);
      assert packages[i] in packages;
    }
    if q :| q in packages && ReaderKey(q) == "k" {
      var i :| 0 <= i < |packages| && packages[i] == q;
      assert ReaderKey(packages[i]) in ReaderKeys(packages);
    }
    assert ReaderKey(packages[j]) in ReaderKeys(packages);
  }
}

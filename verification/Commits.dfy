/** The write-then-rename protocol on a file system that can be cut off after any
    step. A file is a list of pieces, so a file being written is a torn one. */
module Commits {
  import opened Text

  datatype FileName = ShardFile(shard: string) | ShardTmp(shard: string) | IndexFile | IndexTmp

  datatype Path = Path(dir: string, file: FileName)

  /** A published JSON document; the text encoding is left out. */
  datatype Doc =
    | ShardDoc(distro: string, generatedAt: string, shard: string, total: nat, mappings: map<string, string>)
    | IndexDoc(distro: string, generatedAt: string, shards: seq<string>, total: nat)

  datatype Content = Torn(pieces: nat) | Whole(doc: Doc)

  type Disk = map<Path, Content>

  /** What the operating system does at once. `Write(p, 0)` is the opening of `p`
      for writing, `Write(p, n)` leaves the first `n` pieces in it. */
  datatype Step =
    | Write(path: Path, pieces: nat)
    | Finish(path: Path, doc: Doc)
    | Rename(from: Path, to: Path)
    | Remove(path: Path)

  function Apply(disk: Disk, step: Step): Disk
  {
    match step
    case Write(p, n) => disk[p := Torn(n)]
    case Finish(p, doc) => disk[p := Whole(doc)]
    case Rename(from, to) => if from in disk then disk[to := disk[from]] - {from} else disk
    case Remove(p) => disk - {p}
  }

  function Exec(disk: Disk, steps: seq<Step>): Disk
  {
    if steps == [] then disk else Apply(Exec(disk, steps[..|steps| - 1]), steps[|steps| - 1])
  }

  lemma {:induction false} ExecConcat(disk: Disk, a: seq<Step>, b: seq<Step>)
    ensures Exec(disk, a + b) == Exec(Exec(disk, a), b)
  {
    if b == [] {
      assert a + b == a;
    } else {
      ExecConcat(disk, a, b[..|b| - 1]);
      assert (a + b)[..|a + b| - 1] == a + b[..|b| - 1];
    }
  }

  // -------------------------------------------------------------- one commit

  /** Publish `doc` at `target` by way of `tmp`, or drop `target`. */
  datatype Commit = Commit(target: Path, tmp: Path, doc: Option<Doc>)

  function Writes(tmp: Path, n: nat): (r: seq<Step>)
    ensures |r| == n + 1
  {
    if n == 0 then [Write(tmp, 0)] else Writes(tmp, n - 1) + [Write(tmp, n)]
  }

  /** The steps of one commit, with `n` partial writes before the file is whole. */
  function CommitSteps(disk: Disk, c: Commit, n: nat): seq<Step>
  {
    match c.doc
    case None => if c.target in disk then [Remove(c.target)] else []
    case Some(doc) => Writes(c.tmp, n) + [Finish(c.tmp, doc), Rename(c.tmp, c.target)]
  }

  /** The disk once the commit is complete. */
  function Done(disk: Disk, c: Commit): Disk
  {
    match c.doc
    case None => disk - {c.target}
    case Some(doc) => disk[c.target := Whole(doc)] - {c.tmp}
  }

  lemma {:induction false} ExecWrites(disk: Disk, tmp: Path, n: nat)
    ensures Exec(disk, Writes(tmp, n)) == disk[tmp := Torn(n)]
  {
    if n == 0 {
      assert Writes(tmp, 0)[..0] == [];
    } else {
      ExecWrites(disk, tmp, n - 1);
      PrefixOfConcat(Writes(tmp, n - 1), [Write(tmp, n)], n);
      assert Writes(tmp, n - 1)[..n] == Writes(tmp, n - 1);
    }
  }

  lemma {:induction false} WritesPrefix(tmp: Path, n: nat, j: nat)
    requires 0 < j <= n + 1
    ensures Writes(tmp, n)[..j] == Writes(tmp, j - 1)
  {
    if j <= n {
      WritesPrefix(tmp, n - 1, j);
      PrefixOfConcat(Writes(tmp, n - 1), [Write(tmp, n)], j);
    } else {
      assert Writes(tmp, n)[..j] == Writes(tmp, n);
    }
  }

  lemma CommitCompletes(disk: Disk, c: Commit, n: nat)
    requires c.target != c.tmp
    ensures Exec(disk, CommitSteps(disk, c, n)) == Done(disk, c)
  {
    match c.doc {
      case None =>
        assert [Remove(c.target)][..0] == [];
      case Some(doc) =>
        var writes, tail := Writes(c.tmp, n), [Finish(c.tmp, doc), Rename(c.tmp, c.target)];
        PrefixOfConcat(writes, tail, |writes| + 1);
        assert tail[..1] == [Finish(c.tmp, doc)];
        ExecFinished(disk, c.tmp, doc, n);
        RenameDone(disk, c, doc);
    }
  }

  lemma RenameDone(disk: Disk, c: Commit, doc: Doc)
    requires c.target != c.tmp && c.doc == Some(doc)
    ensures Apply(disk[c.tmp := Whole(doc)], Rename(c.tmp, c.target)) == Done(disk, c)
  {
  }

  lemma ExecFinished(disk: Disk, tmp: Path, doc: Doc, n: nat)
    ensures Exec(disk, Writes(tmp, n) + [Finish(tmp, doc)]) == disk[tmp := Whole(doc)]
  {
    ExecWrites(disk, tmp, n);
    var steps := Writes(tmp, n) + [Finish(tmp, doc)];
    assert steps[..|steps| - 1] == Writes(tmp, n);
  }

  /** Cut off before its last step, a commit has touched nothing but its
      temporary file. */
  lemma CommitCut(disk: Disk, c: Commit, n: nat, j: nat)
    requires j < |CommitSteps(disk, c, n)|
    ensures var d := Exec(disk, CommitSteps(disk, c, n)[..j]);
            d == disk || (c.doc.Some? && c.tmp in d && d == disk[c.tmp := d[c.tmp]])
  {
    if j == 0 {
      assert CommitSteps(disk, c, n)[..0] == [];
    } else {
      var content := PublishCut(disk, c.tmp, c.target, c.doc.value, n, j);
    }
  }

  lemma PublishCut(disk: Disk, tmp: Path, target: Path, doc: Doc, n: nat, j: nat) returns (content: Content)
    requires 0 < j < n + 3
    ensures Exec(disk, (Writes(tmp, n) + [Finish(tmp, doc), Rename(tmp, target)])[..j]) == disk[tmp := content]
  {
    var tail := [Finish(tmp, doc), Rename(tmp, target)];
    PrefixOfConcat(Writes(tmp, n), tail, j);
    if j <= n + 1 {
      WritesPrefix(tmp, n, j);
      ExecWrites(disk, tmp, j - 1);
      content := Torn(j - 1);
    } else {
      assert tail[..1] == [Finish(tmp, doc)];
      ExecFinished(disk, tmp, doc, n);
      content := Whole(doc);
    }
  }

  lemma PrefixOfConcat(a: seq<Step>, b: seq<Step>, j: nat)
    requires j <= |a| + |b|
    ensures (a + b)[..j] == if j <= |a| then a[..j] else a + b[..j - |a|]
  {
  }

  // ------------------------------------------------------------ many commits

  /** The steps of a list of commits; each sees the disk its predecessors left. */
  function Plan(disk: Disk, cs: seq<Commit>, flushes: Path -> nat): seq<Step>
  {
    if cs == [] then []
    else
      var front := Plan(disk, cs[..|cs| - 1], flushes);
      var c := cs[|cs| - 1];
      front + CommitSteps(Exec(disk, front), c, flushes(c.tmp))
  }

  function DoneAll(disk: Disk, cs: seq<Commit>): Disk
  {
    if cs == [] then disk else Done(DoneAll(disk, cs[..|cs| - 1]), cs[|cs| - 1])
  }

  /** Targets are distinct, and no temporary file is anyone's target. */
  ghost predicate Separate(cs: seq<Commit>)
  {
    && (forall i, j :: 0 <= i < j < |cs| ==> cs[i].target != cs[j].target)
    && (forall i, j :: 0 <= i < |cs| && 0 <= j < |cs| ==> cs[i].tmp != cs[j].target)
  }

  ghost predicate TmpIsNotTarget(cs: seq<Commit>)
  {
    forall i :: 0 <= i < |cs| ==> cs[i].target != cs[i].tmp
  }

  lemma {:induction false} PlanCompletes(disk: Disk, cs: seq<Commit>, flushes: Path -> nat)
    requires TmpIsNotTarget(cs)
    ensures Exec(disk, Plan(disk, cs, flushes)) == DoneAll(disk, cs)
  {
    if cs != [] {
      var front, c := cs[..|cs| - 1], cs[|cs| - 1];
      PlanCompletes(disk, front, flushes);
      var before := Plan(disk, front, flushes);
      var steps := CommitSteps(Exec(disk, before), c, flushes(c.tmp));
      ExecConcat(disk, before, steps);
      CommitCompletes(Exec(disk, before), c, flushes(c.tmp));
    }
  }

  /** `d` is the disk with the first `k` commits complete and none of the later
      ones begun, up to the temporary file of the next. */
  ghost predicate CutAt(disk: Disk, cs: seq<Commit>, d: Disk, k: nat)
    requires k <= |cs|
  {
    var base := DoneAll(disk, cs[..k]);
    d == base || (k < |cs| && cs[k].doc.Some? && cs[k].tmp in d && d == base[cs[k].tmp := d[cs[k].tmp]])
  }

  /** Wherever a plan is cut off, some number of commits is complete and the rest
      has changed nothing but one temporary file. */
  lemma {:induction false} EveryCut(disk: Disk, cs: seq<Commit>, flushes: Path -> nat, j: nat) returns (k: nat)
    requires TmpIsNotTarget(cs) && j <= |Plan(disk, cs, flushes)|
    ensures k <= |cs| && CutAt(disk, cs, Exec(disk, Plan(disk, cs, flushes)[..j]), k)
  {
    if j == |Plan(disk, cs, flushes)| {
      k := |cs|;
      CutAfterAll(disk, cs, flushes);
    } else {
      var front := cs[..|cs| - 1];
      if j < |Plan(disk, front, flushes)| {
        k := EveryCut(disk, front, flushes, j);
        CutEarlier(disk, cs, flushes, j);
        assert front[..k] == cs[..k];
      } else {
        k := |front|;
        CutInLast(disk, cs, flushes, j);
      }
    }
  }

  lemma CutAfterAll(disk: Disk, cs: seq<Commit>, flushes: Path -> nat)
    requires TmpIsNotTarget(cs)
    ensures var plan := Plan(disk, cs, flushes); CutAt(disk, cs, Exec(disk, plan[..|plan|]), |cs|)
  {
    PlanCompletes(disk, cs, flushes);
    var plan := Plan(disk, cs, flushes);
    assert plan[..|plan|] == plan && cs[..|cs|] == cs;
  }

  lemma CutEarlier(disk: Disk, cs: seq<Commit>, flushes: Path -> nat, j: nat)
    requires cs != [] && j <= |Plan(disk, cs[..|cs| - 1], flushes)|
    ensures j <= |Plan(disk, cs, flushes)|
    ensures Plan(disk, cs, flushes)[..j] == Plan(disk, cs[..|cs| - 1], flushes)[..j]
  {
    var before, c := Plan(disk, cs[..|cs| - 1], flushes), cs[|cs| - 1];
    PrefixOfConcat(before, CommitSteps(Exec(disk, before), c, flushes(c.tmp)), j);
  }

  lemma CutInLast(disk: Disk, cs: seq<Commit>, flushes: Path -> nat, j: nat)
    requires cs != [] && TmpIsNotTarget(cs)
    requires |Plan(disk, cs[..|cs| - 1], flushes)| <= j < |Plan(disk, cs, flushes)|
    ensures CutAt(disk, cs, Exec(disk, Plan(disk, cs, flushes)[..j]), |cs| - 1)
  {
    var front, c := cs[..|cs| - 1], cs[|cs| - 1];
    var before := Plan(disk, front, flushes);
    var steps := CommitSteps(Exec(disk, before), c, flushes(c.tmp));
    PlanCompletes(disk, front, flushes);
    PrefixOfConcat(before, steps, j);
    assert j == |before| ==> before[..j] == before + steps[..0];
    ExecConcat(disk, before, steps[..j - |before|]);
    CommitCut(Exec(disk, before), c, flushes(c.tmp), j - |before|);
  }

  // ---------------------------------------------------- what a disk then holds

  /** The content of a path, if it exists. */
  function At(disk: Disk, p: Path): Option<Content>
  {
    if p in disk then Some(disk[p]) else None
  }

  function Published(c: Commit): Option<Content>
  {
    match c.doc
    case None => None
    case Some(doc) => Some(Whole(doc))
  }

  lemma DoneAt(disk: Disk, c: Commit, p: Path)
    requires c.target != c.tmp
    ensures p == c.target ==> At(Done(disk, c), p) == Published(c)
    ensures p == c.tmp ==> At(Done(disk, c), p) == if c.doc.Some? then None else At(disk, p)
    ensures p != c.target && p != c.tmp ==> At(Done(disk, c), p) == At(disk, p)
  {
  }

  lemma DoneIsACut(disk: Disk, cs: seq<Commit>)
    ensures CutAt(disk, cs, DoneAll(disk, cs), |cs|)
  {
    assert cs[..|cs|] == cs;
  }

  /** Every completed target holds exactly its document. */
  lemma {:induction false} TargetDone(disk: Disk, cs: seq<Commit>, i: nat)
    requires Separate(cs) && i < |cs|
    ensures At(DoneAll(disk, cs), cs[i].target) == Published(cs[i])
  {
    var front, c := cs[..|cs| - 1], cs[|cs| - 1];
    DoneAt(DoneAll(disk, front), c, cs[i].target);
    if i < |front| {
      TargetDone(disk, front, i);
      assert front[i] == cs[i];
    }
  }

  lemma {:induction false} OthersUntouched(disk: Disk, cs: seq<Commit>, p: Path)
    requires TmpIsNotTarget(cs)
    requires forall i :: 0 <= i < |cs| ==> p != cs[i].target && p != cs[i].tmp
    ensures At(DoneAll(disk, cs), p) == At(disk, p)
  {
    if cs != [] {
      var front, c := cs[..|cs| - 1], cs[|cs| - 1];
      forall i | 0 <= i < |front| ensures p != front[i].target && p != front[i].tmp { assert front[i] == cs[i]; }
      OthersUntouched(disk, front, p);
      DoneAt(DoneAll(disk, front), c, p);
    }
  }

  /** Completing commits creates no file other than their targets. */
  lemma {:induction false} NothingElseAppears(disk: Disk, cs: seq<Commit>, p: Path)
    requires TmpIsNotTarget(cs)
    requires forall i :: 0 <= i < |cs| ==> p != cs[i].target
    ensures At(DoneAll(disk, cs), p) == At(disk, p) || At(DoneAll(disk, cs), p) == None
  {
    if cs != [] {
      var front, c := cs[..|cs| - 1], cs[|cs| - 1];
      forall i | 0 <= i < |front| ensures p != front[i].target { assert front[i] == cs[i]; }
      NothingElseAppears(disk, front, p);
      DoneAt(DoneAll(disk, front), c, p);
    }
  }

  /** A cut plan leaves every target either as published or as it was, a
      completed prefix published and the rest as it was. */
  lemma CutTargets(disk: Disk, cs: seq<Commit>, d: Disk, k: nat, i: nat)
    requires Separate(cs) && k <= |cs| && CutAt(disk, cs, d, k) && i < |cs|
    ensures At(d, cs[i].target) == if i < k then Published(cs[i]) else At(disk, cs[i].target)
  {
    var front := cs[..k];
    assert At(d, cs[i].target) == At(DoneAll(disk, front), cs[i].target);
    if i < k {
      TargetDone(disk, front, i);
      assert front[i] == cs[i];
    } else {
      OthersUntouched(disk, front, cs[i].target);
    }
  }

  /** Paths that no commit names are as they were. */
  lemma CutOthers(disk: Disk, cs: seq<Commit>, d: Disk, k: nat, p: Path)
    requires TmpIsNotTarget(cs) && k <= |cs| && CutAt(disk, cs, d, k)
    requires forall i :: 0 <= i < |cs| ==> p != cs[i].target && p != cs[i].tmp
    ensures At(d, p) == At(disk, p)
  {
    var front := cs[..k];
    forall i | 0 <= i < |front| ensures p != front[i].target && p != front[i].tmp { assert front[i] == cs[i]; }
    OthersUntouched(disk, front, p);
  }

  /** A file that was not there and is no target is the one temporary file of the
      commit that was cut off. */
  lemma CutLeavesOneTmp(disk: Disk, cs: seq<Commit>, d: Disk, k: nat, p: Path)
    requires TmpIsNotTarget(cs) && k <= |cs| && CutAt(disk, cs, d, k)
    requires p !in disk && p in d && forall i :: 0 <= i < |cs| ==> p != cs[i].target
    ensures k < |cs| && p == cs[k].tmp
  {
    var front := cs[..k];
    forall i | 0 <= i < |front| ensures p != front[i].target { assert front[i] == cs[i]; }
    NothingElseAppears(disk, front, p);
  }

  lemma {:induction false} PlanConcat(disk: Disk, mid: Disk, a: seq<Commit>, b: seq<Commit>, flushes: Path -> nat)
    requires mid == Exec(disk, Plan(disk, a, flushes))
    ensures Plan(disk, a + b, flushes) == Plan(disk, a, flushes) + Plan(mid, b, flushes)
  {
    if b == [] {
      assert a + b == a;
    } else {
      var front, c := b[..|b| - 1], b[|b| - 1];
      PlanConcat(disk, mid, a, front, flushes);
      PlanConcatSnoc(disk, mid, a, front, c, flushes);
      LastOf(a, b);
    }
  }

  lemma LastOf(a: seq<Commit>, b: seq<Commit>)
    requires b != []
    ensures b == b[..|b| - 1] + [b[|b| - 1]] && a + b == (a + b[..|b| - 1]) + [b[|b| - 1]]
  {
  }

  lemma PlanConcatSnoc(disk: Disk, mid: Disk, a: seq<Commit>, b: seq<Commit>, c: Commit, flushes: Path -> nat)
    requires mid == Exec(disk, Plan(disk, a, flushes))
    requires Plan(disk, a + b, flushes) == Plan(disk, a, flushes) + Plan(mid, b, flushes)
    ensures Plan(disk, (a + b) + [c], flushes) == Plan(disk, a, flushes) + Plan(mid, b + [c], flushes)
  {
    var first, second := Plan(disk, a, flushes), Plan(mid, b, flushes);
    PlanSnoc(disk, a + b, c, flushes);
    PlanSnoc(mid, b, c, flushes);
    ExecConcat(disk, first, second);
    Associate(first, second, CommitSteps(Exec(mid, second), c, flushes(c.tmp)));
  }

  lemma PlanSnoc(disk: Disk, cs: seq<Commit>, c: Commit, flushes: Path -> nat)
    ensures Plan(disk, cs + [c], flushes) ==
            Plan(disk, cs, flushes) + CommitSteps(Exec(disk, Plan(disk, cs, flushes)), c, flushes(c.tmp))
  {
    assert (cs + [c])[..|cs|] == cs;
  }

  lemma {:induction false} DoneAllConcat(disk: Disk, a: seq<Commit>, b: seq<Commit>)
    ensures DoneAll(disk, a + b) == DoneAll(DoneAll(disk, a), b)
  {
    if b == [] {
      assert a + b == a;
    } else {
      DoneAllConcat(disk, a, b[..|b| - 1]);
      assert (a + b)[..|a + b| - 1] == a + b[..|b| - 1];
    }
  }
}

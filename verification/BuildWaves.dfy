/** `resolve_execution_order` of the build pipeline: images in waves, each wave
    depending only on earlier ones. */
module BuildWaves {
  import opened Text
  import opened Graphs

  datatype Outcome =
    | Waves(waves: seq<seq<string>>)
    | UnknownImage(image: string, dep: string)
    | CircularDependency(stages: set<string>)

  predicate Satisfied(g: Graph, n: string, done: set<string>)
    requires n in g
  {
    forall i :: 0 <= i < |g[n]| ==> g[n][i] in done
  }

  /** Wave `k` holds the images of level `k`, each once. */
  ghost predicate WavesAre(waves: seq<seq<string>>, level: map<string, nat>)
  {
    && (forall n :: n in level ==> level[n] < |waves| && n in waves[level[n]])
    && (forall k, i :: 0 <= k < |waves| && 0 <= i < |waves[k]| ==> waves[k][i] in level && level[waves[k][i]] == k)
    && (forall k, i, j :: 0 <= k < |waves| && 0 <= i < j < |waves[k]| ==> waves[k][i] != waves[k][j])
  }

  /** Dependencies have lower levels, and the level just below is one of them. */
  ghost predicate Tight(g: Graph, level: map<string, nat>)
  {
    forall n {:trigger TightAt(g, level, n)} :: n in level ==> TightAt(g, level, n)
  }

  ghost predicate TightAt(g: Graph, level: map<string, nat>, n: string)
  {
    && n in g && n in level
    && (forall d :: d in g[n] ==> d in level && level[d] < level[n])
    && (level[n] > 0 ==> exists d :: d in g[n] && d in level && level[d] == level[n] - 1)
  }

  /** The images that can be built now, in some order. */
  method NextWave(g: Graph, remaining: set<string>, done: set<string>) returns (wave: seq<string>)
    requires remaining <= g.Keys
    ensures forall n :: n in wave <==> n in remaining && Satisfied(g, n, done)
    ensures Distinct(wave)
  {
    wave := [];
    var todo := remaining;
    while todo != {}
      invariant todo <= remaining
      invariant forall n :: n in wave <==> n in remaining && n !in todo && Satisfied(g, n, done)
      invariant Distinct(wave)
      decreases |todo|
    {
      var n :| n in todo;
      if Satisfied(g, n, done) { wave := wave + [n]; }
      todo := todo - {n};
    }
  }

  /** The levels once a wave has been added. */
  ghost function AddLevel(level: map<string, nat>, wave: seq<string>, k: nat): (r: map<string, nat>)
    ensures forall n :: n in r <==> n in level || n in wave
    ensures forall n :: n in wave ==> r[n] == k
    ensures forall n :: n in level && n !in wave ==> r[n] == level[n]
  {
    level + map n | n in wave :: k
  }

  /** No image outside the waves could have been built before the last of them. */
  ghost predicate Late(g: Graph, level: map<string, nat>, k: nat)
  {
    forall n {:trigger LateAt(g, level, k, n)} :: n in g && n !in level ==> LateAt(g, level, k, n)
  }

  ghost predicate LateAt(g: Graph, level: map<string, nat>, k: nat, n: string)
    requires n in g
  {
    k > 0 ==> exists d :: d in g[n] && (d in level ==> level[d] == k - 1)
  }

  ghost predicate Below(level: map<string, nat>, k: nat)
  {
    forall n :: n in level ==> level[n] < k
  }

  lemma WaveAdded(waves: seq<seq<string>>, level: map<string, nat>, wave: seq<string>)
    requires WavesAre(waves, level) && Below(level, |waves|)
    requires forall n :: n in wave ==> n !in level
    requires Distinct(wave)
    ensures WavesAre(waves + [wave], AddLevel(level, wave, |waves|))
    ensures Below(AddLevel(level, wave, |waves|), |waves| + 1)
  {
  }

  lemma TightAdded(g: Graph, level: map<string, nat>, wave: seq<string>, k: nat)
    requires Tight(g, level) && Below(level, k) && Late(g, level, k)
    requires forall n :: n in wave <==> n in g && n !in level && Satisfied(g, n, level.Keys)
    ensures Tight(g, AddLevel(level, wave, k))
    ensures Late(g, AddLevel(level, wave, k), k + 1)
  {
    var more := AddLevel(level, wave, k);
    forall n | n in more ensures TightAt(g, more, n) {
      if n in wave {
        assert LateAt(g, level, k, n);
        if k > 0 {
          var d :| d in g[n] && (d in level ==> level[d] == k - 1);
          assert d in level;
        }
      } else {
        assert TightAt(g, level, n);
      }
    }
    forall n | n in g && n !in more ensures LateAt(g, more, k + 1, n) {
      var i :| 0 <= i < |g[n]| && g[n][i] !in level;
      assert g[n][i] in g[n];
    }
  }

  /** No wave is empty. */
  ghost predicate Filled(waves: seq<seq<string>>)
  {
    forall k :: 0 <= k < |waves| ==> waves[k] != []
  }

  /** The whole of what the waves promise. */
  ghost predicate Schedule(g: Graph, waves: seq<seq<string>>, level: map<string, nat>)
  {
    && level.Keys == g.Keys
    && WavesAre(waves, level) && Filled(waves)
    && Tight(g, level)
  }

  /** Where nothing more can be built, everything left waits for something left. */
  lemma NothingSatisfied(g: Graph, remaining: set<string>, done: set<string>)
    requires Closed(g) && remaining + done == g.Keys
    requires forall n :: n in remaining ==> n in g && !Satisfied(g, n, done)
    ensures Stuck(g, remaining)
  {
    forall n | n in remaining ensures DependsInto(g, n, remaining) {
      var i :| 0 <= i < |g[n]| && g[n][i] !in done;
      assert Edge(g, n, g[n][i]);
    }
  }

  /** One turn of the loop, seen on the levels. */
  lemma NextLevel(g: Graph, waves: seq<seq<string>>, level: map<string, nat>, wave: seq<string>)
    requires WavesAre(waves, level) && Below(level, |waves|) && Tight(g, level) && Late(g, level, |waves|)
    requires forall n :: n in wave <==> n in g && n !in level && Satisfied(g, n, level.Keys)
    requires Distinct(wave)
    ensures var more := AddLevel(level, wave, |waves|);
            && WavesAre(waves + [wave], more) && Below(more, |waves| + 1)
            && Tight(g, more) && Late(g, more, |waves| + 1)
  {
    WaveAdded(waves, level, wave);
    TightAdded(g, level, wave, |waves|);
  }

  /** Move the images of a wave from the remaining to the assigned ones. */
  method MoveWave(wave: seq<string>, remaining: set<string>, done: set<string>)
    returns (left: set<string>, all: set<string>)
    ensures forall n :: n in left <==> n in remaining && n !in wave
    ensures forall n :: n in all <==> n in done || n in wave
  {
    left, all := remaining, done;
    for i := 0 to |wave|
      invariant forall n :: n in left <==> n in remaining && n !in wave[..i]
      invariant forall n :: n in all <==> n in done || n in wave[..i]
    {
      left := left - {wave[i]};
      all := all + {wave[i]};
      assert wave[..i + 1] == wave[..i] + [wave[i]];
    }
    assert wave[..|wave|] == wave;
  }

  /** The waves so far, what they leave, and what they hold. */
  ghost predicate InProgress(g: Graph, waves: seq<seq<string>>, level: map<string, nat>,
                             remaining: set<string>, done: set<string>)
  {
    && WavesAre(waves, level) && Below(level, |waves|) && Tight(g, level) && Late(g, level, |waves|)
    && Filled(waves)
    && (forall n :: n in level ==> n in g)
    && (forall n :: n in done <==> n in level)
    && (forall n :: n in remaining <==> n in g && n !in level)
  }

  /** One turn of the loop; an empty wave means that everything left is stuck. */
  method AddWave(g: Graph, waves: seq<seq<string>>, remaining: set<string>, done: set<string>,
                 ghost level: map<string, nat>)
    returns (wave: seq<string>, left: set<string>, all: set<string>, ghost more: map<string, nat>)
    requires Closed(g) && InProgress(g, waves, level, remaining, done)
    ensures wave == [] ==> Stuck(g, remaining)
    ensures wave != [] ==> InProgress(g, waves + [wave], more, left, all) && |left| < |remaining|
  {
    wave := NextWave(g, remaining, done);
    left, all := MoveWave(wave, remaining, done);
    if wave == [] {
      EmptyWave(g, waves, level, remaining, done);
    } else {
      WaveMoved(g, waves, level, remaining, done, wave, left, all);
    }
    more := AddLevel(level, wave, |waves|);
  }

  lemma EmptyWave(g: Graph, waves: seq<seq<string>>, level: map<string, nat>, remaining: set<string>, done: set<string>)
    requires Closed(g) && InProgress(g, waves, level, remaining, done)
    requires forall n :: n in remaining ==> !Satisfied(g, n, done)
    ensures Stuck(g, remaining)
  {
    assert remaining + done == g.Keys by {
      forall n | n in done ensures n in g { assert n in level; }
    }
    NothingSatisfied(g, remaining, done);
  }

  lemma WaveMoved(g: Graph, waves: seq<seq<string>>, level: map<string, nat>,
                  remaining: set<string>, done: set<string>, wave: seq<string>,
                  left: set<string>, all: set<string>)
    requires InProgress(g, waves, level, remaining, done) && wave != []
    requires forall n :: n in wave <==> n in remaining && Satisfied(g, n, done)
    requires Distinct(wave)
    requires forall n :: n in left <==> n in remaining && n !in wave
    requires forall n :: n in all <==> n in done || n in wave
    ensures InProgress(g, waves + [wave], AddLevel(level, wave, |waves|), left, all)
    ensures |left| < |remaining|
  {
    NextWaveIs(g, level, remaining, done, wave);
    NextLevel(g, waves, level, wave);
    SetsMoved(g, level, remaining, done, wave, left, all, |waves|);
    assert wave[0] in wave;
    Smaller(left, remaining, wave[0]);
  }

  lemma NextWaveIs(g: Graph, level: map<string, nat>, remaining: set<string>, done: set<string>, wave: seq<string>)
    requires forall n :: n in done <==> n in level
    requires forall n :: n in remaining <==> n in g && n !in level
    requires forall n :: n in wave <==> n in remaining && Satisfied(g, n, done)
    ensures forall n :: n in wave <==> n in g && n !in level && Satisfied(g, n, level.Keys)
  {
    assert done == level.Keys;
  }

  lemma SetsMoved(g: Graph, level: map<string, nat>, remaining: set<string>, done: set<string>, wave: seq<string>,
                  left: set<string>, all: set<string>, k: nat)
    requires forall n :: n in done <==> n in level
    requires forall n :: n in remaining <==> n in g && n !in level
    requires forall n :: n in left <==> n in remaining && n !in wave
    requires forall n :: n in all <==> n in done || n in wave
    ensures forall n :: n in all <==> n in AddLevel(level, wave, k)
    ensures forall n :: n in left <==> n in g && n !in AddLevel(level, wave, k)
  {
  }

  /** The waves come back exactly when every dependency is an image and there is
      no cycle; otherwise an unknown image, or a set of images stuck on each other. */
  method ResolveExecutionOrder(g: Graph) returns (r: Outcome, ghost level: map<string, nat>)
    ensures r.UnknownImage? <==> !Closed(g)
    ensures r.UnknownImage? ==> Edge(g, r.image, r.dep) && r.dep !in g
    ensures r.CircularDependency? <==> Closed(g) && Cyclic(g)
    ensures r.CircularDependency? ==> r.stages != {} && Stuck(g, r.stages)
    ensures r.Waves? ==> Schedule(g, r.waves, level)
  {
    level := map[];
    var unknown := FindUnknown(g);
    if unknown.Some? { return UnknownImage(unknown.value.0, unknown.value.1), level; }
    var waves: seq<seq<string>> := [];
    var done: set<string> := {};
    var remaining := g.Keys;
    while remaining != {}
      invariant InProgress(g, waves, level, remaining, done)
      decreases |remaining|
    {
      var wave, left, all;
      ghost var more;
      wave, left, all, more := AddWave(g, waves, remaining, done, level);
      if wave == [] {
        StuckNodesHaveACycle(g, remaining);
        return CircularDependency(remaining), level;
      }
      remaining, done, waves, level := left, all, waves + [wave], more;
    }
    Completed(g, waves, level, done);
    r := Waves(waves);
  }

  lemma Completed(g: Graph, waves: seq<seq<string>>, level: map<string, nat>, done: set<string>)
    requires InProgress(g, waves, level, {}, done)
    ensures Schedule(g, waves, level) && !Cyclic(g)
  {
    assert level.Keys == g.Keys;
    ScheduleIsAcyclic(g, waves, level);
  }

  lemma Smaller(a: set<string>, b: set<string>, x: string)
    requires a <= b && x in b && x !in a
    ensures |a| < |b|
  {
    assert b == a + (b - a) && x in b - a;
  }

  lemma ScheduleIsAcyclic(g: Graph, waves: seq<seq<string>>, level: map<string, nat>)
    requires Schedule(g, waves, level)
    ensures !Cyclic(g)
  {
    forall n, d | Edge(g, n, d) ensures n in level && d in level && level[d] < level[n] {
      assert TightAt(g, level, n);
    }
    RankedIsAcyclic(g, level);
  }

  /** No schedule that respects the dependencies builds any image earlier: the
      waves are as parallel as can be. */
  lemma {:induction false} WavesAreEarliest(g: Graph, waves: seq<seq<string>>, level: map<string, nat>,
                                            other: map<string, nat>, n: string)
    requires Schedule(g, waves, level) && Ranked(g, other)
    requires n in g && n in other
    ensures level[n] <= other[n]
    decreases level[n]
  {
    assert TightAt(g, level, n);
    if level[n] > 0 {
      var d :| d in g[n] && d in level && level[d] == level[n] - 1;
      assert Edge(g, n, d);
      WavesAreEarliest(g, waves, level, other, d);
    }
  }
}

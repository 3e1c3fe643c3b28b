/** `build_consensus`: one formula per Linux name, by plurality over the distros. */
module Consensus {
  import opened Text
  import opened Formulas
  import Selection

  // ----------------------------------------------------------- one election

  /** The distinct values in order of first appearance, a Counter's key order. */
  function Keys(ballots: seq<string>): seq<string>
  {
    if ballots == [] then []
    else
      var front := Keys(ballots[..|ballots| - 1]);
      var last := ballots[|ballots| - 1];
      if last in front then front else front + [last]
  }

  lemma {:induction false} KeysHold(ballots: seq<string>)
    ensures Distinct(Keys(ballots)) && forall v :: v in Keys(ballots) <==> v in ballots
  {
    if ballots != [] {
      KeysHold(ballots[..|ballots| - 1]);
      assert ballots == ballots[..|ballots| - 1] + [ballots[|ballots| - 1]];
    }
  }

  /** `counts.most_common(1)[0][1]`: the highest count of `keys`. */
  function TopCount(ballots: seq<string>, keys: seq<string>): nat
  {
    if keys == [] then 0
    else
      var c, rest := Count(ballots, keys[|keys| - 1]), TopCount(ballots, keys[..|keys| - 1]);
      if c > rest then c else rest
  }

  lemma {:induction false} TopCountIs(ballots: seq<string>, keys: seq<string>)
    ensures forall v :: v in keys ==> Count(ballots, v) <= TopCount(ballots, keys)
    ensures keys != [] ==> exists v :: v in keys && Count(ballots, v) == TopCount(ballots, keys)
  {
    if keys != [] {
      var front, last := keys[..|keys| - 1], keys[|keys| - 1];
      TopCountIs(ballots, front);
      assert keys == front + [last] && last in keys;
      if front != [] && Count(ballots, last) <= TopCount(ballots, front) {
        var v :| v in front && Count(ballots, v) == TopCount(ballots, front);
        assert v in keys;
      }
    }
  }

  function WithCount(ballots: seq<string>, keys: seq<string>, n: nat): seq<string>
  {
    if keys == [] then []
    else
      var front := WithCount(ballots, keys[..|keys| - 1], n);
      var last := keys[|keys| - 1];
      if Count(ballots, last) == n then front + [last] else front
  }

  lemma {:induction false} WithCountHolds(ballots: seq<string>, keys: seq<string>, n: nat)
    ensures forall v :: v in WithCount(ballots, keys, n) <==> v in keys && Count(ballots, v) == n
    ensures Distinct(keys) ==> Distinct(WithCount(ballots, keys, n))
  {
    if keys != [] {
      WithCountHolds(ballots, keys[..|keys| - 1], n);
      assert keys == keys[..|keys| - 1] + [keys[|keys| - 1]];
    }
  }

  /** The values with the most votes. */
  function Leaders(ballots: seq<string>): (r: seq<string>)
    requires ballots != []
    ensures r != []
  {
    LeadersAre(ballots);
    WithCount(ballots, Keys(ballots), TopCount(ballots, Keys(ballots)))
  }

  lemma LeadersAre(ballots: seq<string>)
    requires ballots != []
    ensures var keys := Keys(ballots);
            var r := WithCount(ballots, keys, TopCount(ballots, keys));
            r != [] && Distinct(r) && forall v :: v in r <==> v in ballots && LeadsIn(ballots, v)
  {
    var keys := Keys(ballots);
    KeysHold(ballots);
    assert ballots[0] in keys;
    TopCountIs(ballots, keys);
    WithCountHolds(ballots, keys, TopCount(ballots, keys));
  }

  /** Nothing has more votes. */
  ghost predicate LeadsIn(ballots: seq<string>, v: string)
  {
    forall u :: u in ballots ==> Count(ballots, u) <= Count(ballots, v)
  }

  /** The plurality winner; ties go to the tie-break shared with `pick_winner`. */
  function Elect(ballots: seq<string>): string
    requires ballots != []
  {
    var leaders := Leaders(ballots);
    if |leaders| == 1 then leaders[0] else Tiebreak(leaders)
  }

  /** `w` has the most votes, and outranks everyone with as many. */
  ghost predicate Elected(votes: multiset<string>, w: string)
  {
    w in votes && forall v :: v in votes && v != w ==>
      votes[v] < votes[w] || (votes[v] == votes[w] && Outranks(w, v))
  }

  /** The rule returns the maximum by votes and then by the tie-break order. */
  lemma ElectIsElected(ballots: seq<string>)
    requires ballots != []
    ensures Elected(multiset(ballots), Elect(ballots))
  {
    LeadersAre(ballots);
    TiebreakIsGreatest(Leaders(ballots));
    FirstLeader(ballots, Leaders(ballots), Elect(ballots));
  }

  lemma FirstLeader(ballots: seq<string>, leaders: seq<string>, w: string)
    requires forall v :: v in leaders <==> v in ballots && LeadsIn(ballots, v)
    requires w in leaders && forall c :: c in leaders && c != w ==> Outranks(w, c)
    ensures Elected(multiset(ballots), w)
  {
    forall v | v in multiset(ballots) && v != w
      ensures Count(ballots, v) < Count(ballots, w) || (Count(ballots, v) == Count(ballots, w) && Outranks(w, v))
    {
      assert LeadsIn(ballots, w) && v in ballots;
      if Count(ballots, v) == Count(ballots, w) { assert LeadsIn(ballots, v) && v in leaders; }
    }
  }

  lemma ElectedIsUnique(votes: multiset<string>, a: string, b: string)
    requires Elected(votes, a) && Elected(votes, b)
    ensures a == b
  {
    if a != b { OutranksAsymmetric(a, b); }
  }

  /** Only the number of votes for each value matters, not their order. */
  lemma OrderOfVotesIrrelevant(a: seq<string>, b: seq<string>)
    requires a != [] && b != [] && multiset(a) == multiset(b)
    ensures Elect(a) == Elect(b)
  {
    ElectIsElected(a);
    ElectIsElected(b);
    ElectedIsUnique(multiset(a), Elect(a), Elect(b));
  }

  /** Per-distro selection and consensus break ties alike: `pick_winner` without
      an alias index chooses the same leader under any Linux name. */
  lemma ConsensusAgreesWithSelection(ballots: seq<string>, name: string)
    requires ballots != []
    ensures Selection.Winner(Leaders(ballots), name, map[]) == Some(Elect(ballots))
  {
    LeadersAre(ballots);
    SelectionWithoutAliases(Leaders(ballots), name);
  }

  lemma SelectionWithoutAliases(cs: seq<string>, name: string)
    requires cs != [] && Distinct(cs)
    ensures Selection.Winner(cs, name, map[]) == Some(if |cs| == 1 then cs[0] else Tiebreak(cs))
  {
    Selection.CanonicalsOfCanonicals(cs, map[]);
    NoAliasNoHit(Selection.Variants(name), cs);
  }

  lemma {:induction false} NoAliasNoHit(variants: seq<string>, cs: seq<string>)
    ensures Selection.FirstHit(variants, map[], cs) == None
  {
    if variants != [] { NoAliasNoHit(variants[1..], cs); }
  }

  // ---------------------------------------------------------- all the names

  /** The votes for one name, in distro order. */
  function Ballots(distros: seq<Mapping>, name: string): seq<string>
  {
    if distros == [] then []
    else
      var front, last := Ballots(distros[..|distros| - 1], name), distros[|distros| - 1];
      if name in last then front + [last[name]] else front
  }

  /** The names any distro maps. */
  function Names(distros: seq<Mapping>): set<string>
  {
    if distros == [] then {} else Names(distros[..|distros| - 1]) + distros[|distros| - 1].Keys
  }

  lemma {:induction false} NamedIffVoted(distros: seq<Mapping>, name: string)
    ensures name in Names(distros) <==> Ballots(distros, name) != []
  {
    if distros != [] { NamedIffVoted(distros[..|distros| - 1], name); }
  }

  /** `union`: every name with its votes. */
  function Union(distros: seq<Mapping>): map<string, seq<string>>
  {
    map name | name in Names(distros) :: Ballots(distros, name)
  }

  /** The consensus mapping as a whole. */
  function ConsensusOf(distros: seq<Mapping>): Mapping
  {
    map name | name in Names(distros) && Ballots(distros, name) != [] :: Elect(Ballots(distros, name))
  }

  function VotesFor(union: map<string, seq<string>>, name: string): seq<string>
  {
    if name in union then union[name] else []
  }

  /** The votes of one more distro, in whatever order its dictionary is walked. */
  method AddVotes(union: map<string, seq<string>>, mapping: Mapping) returns (r: map<string, seq<string>>)
    ensures forall name :: name in r <==> name in union || name in mapping
    ensures forall name :: name in mapping ==> r[name] == VotesFor(union, name) + [mapping[name]]
    ensures forall name :: name in union && name !in mapping ==> r[name] == union[name]
  {
    r := union;
    var todo := mapping.Keys;
    while todo != {}
      invariant todo <= mapping.Keys
      invariant forall name :: name in r <==> name in union || (name in mapping && name !in todo)
      invariant forall name :: name in mapping && name !in todo ==> r[name] == VotesFor(union, name) + [mapping[name]]
      invariant forall name :: name in union && (name in todo || name !in mapping) ==> r[name] == union[name]
      decreases |todo|
    {
      var name :| name in todo;
      r := r[name := VotesFor(r, name) + [mapping[name]]];
      todo := todo - {name};
    }
  }

  method CollectVotes(distros: seq<Mapping>) returns (union: map<string, seq<string>>)
    ensures union == Union(distros)
  {
    union := map[];
    for i := 0 to |distros|
      invariant union == Union(distros[..i])
    {
      ghost var before := union;
      union := AddVotes(union, distros[i]);
      OneMoreDistro(distros[..i], distros[i], before, union);
      assert distros[..i + 1] == distros[..i] + [distros[i]];
    }
    assert distros[..|distros|] == distros;
  }

  lemma OneMoreDistro(seen: seq<Mapping>, d: Mapping, before: map<string, seq<string>>, after: map<string, seq<string>>)
    requires before == Union(seen)
    requires forall name :: name in after <==> name in before || name in d
    requires forall name :: name in d ==> after[name] == VotesFor(before, name) + [d[name]]
    requires forall name :: name in before && name !in d ==> after[name] == before[name]
    ensures after == Union(seen + [d])
  {
    var now := seen + [d];
    assert now[..|seen|] == seen;
    forall name | name in Names(now) ensures name in after && after[name] == Ballots(now, name) {
      NamedIffVoted(seen, name);
    }
  }

  /** One name's votes: the value that comes back has the most of them, and outranks
      every other that has as many. */
  method ElectFrom(values: seq<string>) returns (w: string)
    requires values != []
    ensures Elected(multiset(values), w)
  {
    ElectIsElected(values);
    var leaders := Leaders(values);
    if |leaders| == 1 { return leaders[0]; }
    var versioned := OnlyVersioned(leaders);
    if versioned != [] {
      w := MaxByKey(versioned);
    } else {
      w := LexLeast(leaders);
    }
  }

  /** Since one value at most is elected, that is `Elect`. */
  method ElectTheOne(values: seq<string>) returns (w: string)
    requires values != []
    ensures w == Elect(values)
  {
    w := ElectFrom(values);
    ElectIsElected(values);
    ElectedIsUnique(multiset(values), w, Elect(values));
  }

  method ElectAll(union: map<string, seq<string>>) returns (consensus: Mapping)
    requires forall name :: name in union ==> union[name] != []
    ensures forall name :: name in consensus <==> name in union
    ensures forall name :: name in union ==> consensus[name] == Elect(union[name])
  {
    consensus := map[];
    var todo := union.Keys;
    while todo != {}
      invariant todo <= union.Keys
      invariant forall name :: name in consensus <==> name in union && name !in todo
      invariant forall name :: name in consensus ==> consensus[name] == Elect(union[name])
      decreases |todo|
    {
      var name :| name in todo;
      var w := ElectTheOne(union[name]);
      consensus := consensus[name := w];
      todo := todo - {name};
    }
  }

  method BuildConsensus(distros: seq<Mapping>) returns (consensus: Mapping)
    ensures consensus == ConsensusOf(distros)
  {
    var union := CollectVotes(distros);
    forall name | name in union ensures union[name] != [] { NamedIffVoted(distros, name); }
    consensus := ElectAll(union);
  }

  // ------------------------------------------------------------ voting laws

  /** The distros choose `w` for the name. */
  ghost predicate Chooses(distros: seq<Mapping>, name: string, w: string)
  {
    name in ConsensusOf(distros) && ConsensusOf(distros)[name] == w
  }

  lemma ChoosesIffElected(distros: seq<Mapping>, name: string, w: string)
    ensures Chooses(distros, name, w) <==> Elected(multiset(Ballots(distros, name)), w)
  {
    NamedIffVoted(distros, name);
    var ballots := Ballots(distros, name);
    if ballots != [] {
      ElectIsElected(ballots);
      if Elected(multiset(ballots), w) { ElectedIsUnique(multiset(ballots), Elect(ballots), w); }
    }
  }

  lemma {:induction false} BallotsOfConcat(a: seq<Mapping>, b: seq<Mapping>, name: string)
    ensures Ballots(a + b, name) == Ballots(a, name) + Ballots(b, name)
  {
    if b == [] {
      assert a + b == a;
    } else {
      BallotsOfConcat(a, b[..|b| - 1], name);
      assert (a + b)[..|a + b| - 1] == a + b[..|b| - 1];
    }
  }

  /** Consistency: what two groups choose, or one chooses and the other does not
      vote on, their union chooses. */
  lemma UnionKeepsTheChoice(a: seq<Mapping>, b: seq<Mapping>, name: string, w: string)
    requires Chooses(a, name, w)
    requires Chooses(b, name, w) || Ballots(b, name) == []
    ensures Chooses(a + b, name, w) && Chooses(b + a, name, w)
  {
    var va, vb := multiset(Ballots(a, name)), multiset(Ballots(b, name));
    ChoosesIffElected(a, name, w);
    ChoosesIffElected(b, name, w);
    ElectedInUnion(va, vb, w);
    BallotsOfConcat(a, b, name);
    ChoosesIffElected(a + b, name, w);
    BallotsOfConcat(b, a, name);
    ChoosesIffElected(b + a, name, w);
  }

  lemma ElectedInUnion(a: multiset<string>, b: multiset<string>, w: string)
    requires Elected(a, w) && (Elected(b, w) || b == multiset{})
    ensures Elected(a + b, w) && Elected(b + a, w)
  {
    assert b + a == a + b;
  }

  lemma ElectedWithMoreSupport(votes: multiset<string>, now: multiset<string>, w: string)
    requires Elected(votes, w)
    requires votes[w] <= now[w] && forall v :: v != w ==> now[v] <= votes[v]
    ensures Elected(now, w)
  {
    forall v | v in now && v != w
      ensures now[v] < now[w] || (now[v] == now[w] && Outranks(w, v))
    {
      assert v in votes;
    }
  }

  lemma {:induction false} BallotsOfUpdate(distros: seq<Mapping>, i: nat, d: Mapping, name: string)
    requires i < |distros|
    ensures var votes := multiset(Ballots(distros, name)) + multiset(Ballots([d], name));
            multiset(Ballots(distros[i := d], name)) + multiset(Ballots([distros[i]], name)) == votes
  {
    var before, after := distros[..i], distros[i + 1..];
    assert distros == before + [distros[i]] + after;
    assert distros[i := d] == before + [d] + after;
    BallotsOfConcat(before + [distros[i]], after, name);
    BallotsOfConcat(before, [distros[i]], name);
    BallotsOfConcat(before + [d], after, name);
    BallotsOfConcat(before, [d], name);
  }

  /** Monotonicity: a distro that comes to vote for the winner, newly or instead
      of another formula, cannot make it lose. */
  lemma MoreSupportKeepsTheChoice(distros: seq<Mapping>, name: string, w: string, i: nat, d: Mapping)
    requires i < |distros| && Chooses(distros, name, w)
    requires name in d && d[name] == w
    ensures Chooses(distros[i := d], name, w)
  {
    BallotsOfUpdate(distros, i, d, name);
    ChoosesIffElected(distros, name, w);
    ChoosesIffElected(distros[i := d], name, w);
    var was := distros[i];
    OneBallot(d, name);
    OneBallot(was, name);
    VoteMoved(multiset(Ballots(distros, name)), multiset(Ballots(distros[i := d], name)), Ballots([was], name), w);
  }

  lemma VoteMoved(votes: multiset<string>, now: multiset<string>, lost: seq<string>, w: string)
    requires Elected(votes, w) && |lost| <= 1 && now + multiset(lost) == votes + multiset{w}
    ensures Elected(now, w)
  {
    forall v: string ensures now[v] + multiset(lost)[v] == votes[v] + multiset{w}[v] {
      assert (now + multiset(lost))[v] == (votes + multiset{w})[v];
    }
    assert |lost| == 1 ==> lost == [lost[0]];
    ElectedWithMoreSupport(votes, now, w);
  }

  lemma OneBallot(d: Mapping, name: string)
    ensures Ballots([d], name) == if name in d then [d[name]] else []
  {
    assert [d][..0] == [];
  }

  /** The order in which the distros are listed does not matter. */
  lemma DistroOrderIrrelevant(a: seq<Mapping>, b: seq<Mapping>)
    requires multiset(a) == multiset(b)
    ensures ConsensusOf(a) == ConsensusOf(b)
  {
    forall name: string
      ensures name in ConsensusOf(a) <==> name in ConsensusOf(b)
      ensures name in ConsensusOf(a) ==> ConsensusOf(a)[name] == ConsensusOf(b)[name]
    {
      SameDistrosSameVotes(a, b, name);
      assert |multiset(Ballots(a, name))| == |multiset(Ballots(b, name))|;
      NamedIffVoted(a, name);
      NamedIffVoted(b, name);
      if Ballots(a, name) != [] && Ballots(b, name) != [] {
        OrderOfVotesIrrelevant(Ballots(a, name), Ballots(b, name));
      }
    }
  }

  lemma {:induction false} SameDistrosSameVotes(a: seq<Mapping>, b: seq<Mapping>, name: string)
    requires multiset(a) == multiset(b)
    ensures multiset(Ballots(a, name)) == multiset(Ballots(b, name))
    decreases |a|
  {
    if a == [] {
      assert |multiset(b)| == 0;
    } else {
      var i := SameElsewhere(a, b);
      SameDistrosSameVotes(a[1..], b[..i] + b[i + 1..], name);
      VotesWithoutOne(b, i, name);
      VotesOfFirst(a, name);
    }
  }

  lemma SameElsewhere(a: seq<Mapping>, b: seq<Mapping>) returns (i: nat)
    requires a != [] && multiset(a) == multiset(b)
    ensures i < |b| && b[i] == a[0]
    ensures multiset(a[1..]) == multiset(b[..i] + b[i + 1..])
  {
    assert a[0] in multiset(b);
    i :| 0 <= i < |b| && b[i] == a[0];
    WithoutFirst(a);
    WithoutOne(b, i);
  }

  lemma WithoutFirst(a: seq<Mapping>)
    requires a != []
    ensures multiset(a[1..]) == multiset(a) - multiset{a[0]}
  {
    assert a == [a[0]] + a[1..];
  }

  lemma VotesOfFirst(a: seq<Mapping>, name: string)
    requires a != []
    ensures multiset(Ballots(a, name)) == multiset(Ballots([a[0]], name)) + multiset(Ballots(a[1..], name))
  {
    assert a == [a[0]] + a[1..];
    BallotsOfConcat([a[0]], a[1..], name);
  }

  lemma WithoutOne(a: seq<Mapping>, i: nat)
    requires i < |a|
    ensures multiset(a[..i] + a[i + 1..]) == multiset(a) - multiset{a[i]}
  {
    assert a == a[..i] + [a[i]] + a[i + 1..];
  }

  lemma VotesWithoutOne(a: seq<Mapping>, i: nat, name: string)
    requires i < |a|
    ensures multiset(Ballots(a, name)) == multiset(Ballots(a[..i] + a[i + 1..], name)) + multiset(Ballots([a[i]], name))
  {
    var before, after := a[..i], a[i + 1..];
    assert a == before + [a[i]] + after;
    BallotsOfConcat(before + [a[i]], after, name);
    BallotsOfConcat(before, [a[i]], name);
    BallotsOfConcat(before, after, name);
  }

  /** Every choice is some distro's own, and the shared value if all agree. */
  lemma ChoiceIsSomeVote(distros: seq<Mapping>, name: string)
    requires name in Names(distros)
    ensures name in ConsensusOf(distros)
    ensures exists i :: 0 <= i < |distros| && name in distros[i] && distros[i][name] == ConsensusOf(distros)[name]
  {
    NamedIffVoted(distros, name);
    var w := ConsensusOf(distros)[name];
    ChoosesIffElected(distros, name, w);
    assert w in Ballots(distros, name);
    VoteHasVoter(distros, name, w);
  }

  lemma {:induction false} VoteHasVoter(distros: seq<Mapping>, name: string, w: string)
    requires w in Ballots(distros, name)
    ensures exists i :: 0 <= i < |distros| && name in distros[i] && distros[i][name] == w
  {
    var front, last := distros[..|distros| - 1], distros[|distros| - 1];
    if name in last && last[name] == w {
      assert distros[|distros| - 1] == last;
    } else {
      VoteHasVoter(front, name, w);
      var i :| 0 <= i < |front| && name in front[i] && front[i][name] == w;
      assert distros[i] == front[i];
    }
  }
}

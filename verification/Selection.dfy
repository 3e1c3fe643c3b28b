/** `pick_winner`: reduce the candidate formulas of one Linux package name to one. */
module Selection {
  import opened Text
  import opened Formulas

  /** Every name Homebrew knows, mapped to its canonical full name. */
  type AliasIndex = map<string, string>

  function Canonical(index: AliasIndex, c: string): string
  {
    if c in index then index[c] else c
  }

  /** Step 1: canonical names, first occurrence first, no repeats. */
  function Canonicals(cands: seq<string>, index: AliasIndex): (r: seq<string>)
    ensures cands != [] ==> r != []
  {
    if cands == [] then []
    else
      var front := Canonicals(cands[..|cands| - 1], index);
      var c := Canonical(index, cands[|cands| - 1]);
      if c in front then front else front + [c]
  }

  /** The Linux name, then the name without its `-dev` or `-devel` suffix. */
  function Variants(name: string): seq<string>
  {
    [name]
    + (if EndsWith(name, "-dev") then [name[..|name| - 4]] else [])
    + (if EndsWith(name, "-devel") then [name[..|name| - 6]] else [])
  }

  /** The variant is a known alias of one of the canonical names. */
  predicate Hits(variant: string, index: AliasIndex, cs: seq<string>)
  {
    variant in index && index[variant] != "" && index[variant] in cs
  }

  /** Step 2: the canonical name of the first variant that hits. */
  function FirstHit(variants: seq<string>, index: AliasIndex, cs: seq<string>): Option<string>
  {
    if variants == [] then None
    else if Hits(variants[0], index, cs) then Some(index[variants[0]])
    else FirstHit(variants[1..], index, cs)
  }

  /** `c` is `base@N` with `N` nothing but digits. */
  predicate IsMajorOf(c: string, base: string)
  {
    StartsWith(c, base + "@") && AllDigits(c[|base| + 1..])
  }

  function MajorNumber(c: string, base: string): nat
    requires IsMajorOf(c, base)
  {
    DigitsValue(c[|base| + 1..])
  }

  function MajorsOf(base: string, cs: seq<string>): (r: seq<string>)
    ensures forall c :: c in r <==> c in cs && IsMajorOf(c, base)
  {
    if cs == [] then []
    else
      var front := MajorsOf(base, cs[..|cs| - 1]);
      if IsMajorOf(cs[|cs| - 1], base) then front + [cs[|cs| - 1]] else front
  }

  /** `max(vs, key=int of the suffix)`: the first of the highest. */
  function HighestMajor(base: string, vs: seq<string>): (r: string)
    requires vs != [] && forall c :: c in vs ==> IsMajorOf(c, base)
    ensures r in vs
    ensures forall c :: c in vs ==> MajorNumber(c, base) <= MajorNumber(r, base)
  {
    if |vs| == 1 then vs[0]
    else
      var best := HighestMajor(base, vs[..|vs| - 1]);
      var last := vs[|vs| - 1];
      if MajorNumber(best, base) < MajorNumber(last, base) then last else best
  }

  /** Step 3: an unversioned name gives way to its highest `@N` among the names. */
  function Upgrade(base: string, cs: seq<string>): string
  {
    if Versioned(base) then base
    else
      var vs := MajorsOf(base, cs);
      if vs == [] then base else HighestMajor(base, vs)
  }

  /** Steps 2 to 4, once two or more canonical names are left. */
  function Resolve(cs: seq<string>, name: string, index: AliasIndex): string
    requires cs != []
  {
    match FirstHit(Variants(name), index, cs)
    case Some(base) => Upgrade(base, cs)
    case None => Tiebreak(cs)
  }

  /** What `pick_winner` returns. A lone candidate is returned as it is. */
  function Winner(cands: seq<string>, name: string, index: AliasIndex): (r: Option<string>)
    ensures r.Some? <==> cands != []
  {
    if cands == [] then None
    else if |cands| == 1 then Some(cands[0])
    else
      var cs := Canonicals(cands, index);
      if |cs| == 1 then Some(cs[0]) else Some(Resolve(cs, name, index))
  }

  // ---------------------------------------------------------- the algorithm

  method DedupeCanonicals(cands: seq<string>, index: AliasIndex) returns (canonicals: seq<string>)
    ensures canonicals == Canonicals(cands, index)
  {
    canonicals := [];
    var seen: set<string> := {};
    for i := 0 to |cands|
      invariant canonicals == Canonicals(cands[..i], index)
      invariant forall c :: c in seen <==> c in canonicals
    {
      assert cands[..i + 1][..i] == cands[..i];
      var c := Canonical(index, cands[i]);
      if c !in seen {
        seen := seen + {c};
        canonicals := canonicals + [c];
      }
    }
    assert cands[..|cands|] == cands;
  }

  method PickWinner(cands: seq<string>, name: string, index: AliasIndex) returns (winner: Option<string>)
    ensures winner == Winner(cands, name, index)
  {
    if |cands| == 0 { return None; }
    if |cands| == 1 { return Some(cands[0]); }
    var canonicals := DedupeCanonicals(cands, index);
    if |canonicals| == 1 { return Some(canonicals[0]); }
    var variants := [name];
    if EndsWith(name, "-dev") { variants := variants + [name[..|name| - 4]]; }
    if EndsWith(name, "-devel") { variants := variants + [name[..|name| - 6]]; }
    assert variants == Variants(name);
    for i := 0 to |variants|
      invariant FirstHit(variants, index, canonicals) == FirstHit(variants[i..], index, canonicals)
    {
      assert variants[i..][1..] == variants[i + 1..];
      if Hits(variants[i], index, canonicals) {
        var canonical := index[variants[i]];
        if !Versioned(canonical) {
          var versioned := MajorsOf(canonical, canonicals);
          if versioned != [] { return Some(HighestMajor(canonical, versioned)); }
        }
        return Some(canonical);
      }
    }
    winner := Some(Tiebreak(canonicals));
  }

  // ------------------------------------------------------ what it means

  /** The names a list of candidates stands for. */
  ghost function CanonicalSet(cands: set<string>, index: AliasIndex): set<string>
  {
    set x | x in cands :: Canonical(index, x)
  }

  ghost predicate HitsIn(variant: string, index: AliasIndex, cs: set<string>)
  {
    variant in index && index[variant] != "" && index[variant] in cs
  }

  /** `s` is `name` without one of the two development suffixes. */
  ghost predicate Stripped(name: string, s: string)
  {
    name == s + "-dev" || name == s + "-devel"
  }

  /** The Linux name, else its stripped form, is an alias of `base`, one of `cs`. */
  ghost predicate ResolvesTo(name: string, index: AliasIndex, cs: set<string>, base: string)
  {
    || (HitsIn(name, index, cs) && base == index[name])
    || (!HitsIn(name, index, cs) && exists s :: Stripped(name, s) && HitsIn(s, index, cs) && base == index[s])
  }

  /** `w` is the right formula among the canonical names `cs`. */
  ghost predicate RightChoice(cs: set<string>, name: string, index: AliasIndex, w: string)
  {
    && w in cs
    && (forall base :: ResolvesTo(name, index, cs, base) ==> PrefersMajor(cs, base, w))
    && ((forall base :: !ResolvesTo(name, index, cs, base)) ==> forall c :: c in cs && c != w ==> Outranks(w, c))
  }

  /** `w` is `base` itself, or its highest pure `@N` when `base` has no version. */
  ghost predicate PrefersMajor(cs: set<string>, base: string, w: string)
  {
    if Versioned(base) || (forall c :: c in cs ==> !IsMajorOf(c, base)) then w == base
    else
      IsMajorOf(w, base) &&
      forall c :: c in cs && IsMajorOf(c, base) ==> MajorNumber(c, base) <= MajorNumber(w, base)
  }

  lemma VariantsAreStripped(name: string, s: string)
    ensures s in Variants(name) <==> s == name || Stripped(name, s)
    ensures |Variants(name)| <= 2 && Variants(name)[0] == name
  {
    if EndsWith(name, "-dev") { assert name[|name| - 4..][3] == name[|name| - 1]; }
    if EndsWith(name, "-devel") { assert name[|name| - 6..][5] == name[|name| - 1]; }
    if EndsWith(name, "-dev") { assert name == name[..|name| - 4] + "-dev"; }
    if EndsWith(name, "-devel") { assert name == name[..|name| - 6] + "-devel"; }
    if name == s + "-dev" { assert name[|name| - 4..] == "-dev" && name[..|name| - 4] == s; }
    if name == s + "-devel" { assert name[|name| - 6..] == "-devel" && name[..|name| - 6] == s; }
  }

  lemma FirstHitResolves(name: string, index: AliasIndex, cs: seq<string>)
    ensures var all := Elements(cs);
            var hit := FirstHit(Variants(name), index, cs);
            && (hit.None? ==> forall base :: !ResolvesTo(name, index, all, base))
            && (hit.Some? ==>
                  hit.value in cs && forall base :: ResolvesTo(name, index, all, base) <==> base == hit.value)
  {
    var all := Elements(cs);
    var vs := Variants(name);
    var hit := FirstHit(vs, index, cs);
    forall s ensures s in vs <==> s == name || Stripped(name, s) { VariantsAreStripped(name, s); }
    VariantsAreStripped(name, name);
    if |vs| == 2 {
      var s := vs[1];
      assert s in vs;
      assert vs[1..] == [s];
      assert forall t :: Stripped(name, t) ==> t in vs;
      assert s != name ==> Stripped(name, s);
      assert FirstHit([s], index, cs) == if Hits(s, index, cs) then Some(index[s]) else None;
    } else {
      assert vs[1..] == [];
      assert forall t :: Stripped(name, t) ==> t in vs;
    }
  }

  lemma UpgradePrefersMajor(base: string, cs: seq<string>)
    requires base in cs
    ensures Upgrade(base, cs) in cs
    ensures PrefersMajor(Elements(cs), base, Upgrade(base, cs))
  {
    var all := Elements(cs);
    var vs := MajorsOf(base, cs);
    if !Versioned(base) && vs != [] {
      assert vs[0] in all && IsMajorOf(vs[0], base);
    } else if !Versioned(base) {
      forall c | c in all ensures !IsMajorOf(c, base) { assert c !in vs; }
    }
  }

  lemma {:induction false} CanonicalsCover(cands: seq<string>, index: AliasIndex)
    ensures Elements(Canonicals(cands, index)) == CanonicalSet(Elements(cands), index)
  {
    if cands != [] {
      var front, last := cands[..|cands| - 1], cands[|cands| - 1];
      CanonicalsCover(front, index);
      assert Elements(cands) == Elements(front) + {last};
      var r, c := Canonicals(front, index), Canonical(index, last);
      assert Elements(r + [c]) == Elements(r) + {c};
      assert CanonicalSet(Elements(cands), index) == CanonicalSet(Elements(front), index) + {c};
    }
  }

  lemma {:induction false} CanonicalsDistinct(cands: seq<string>, index: AliasIndex)
    ensures Distinct(Canonicals(cands, index))
  {
    if cands != [] {
      CanonicalsDistinct(cands[..|cands| - 1], index);
    }
  }

  lemma ResolveIsRight(cs: seq<string>, name: string, index: AliasIndex)
    requires cs != []
    ensures RightChoice(Elements(cs), name, index, Resolve(cs, name, index))
  {
    FirstHitResolves(name, index, cs);
    match FirstHit(Variants(name), index, cs)
    case Some(base) =>
      assert ResolvesTo(name, index, Elements(cs), base);
      UpgradePrefersMajor(base, cs);
    case None =>
      TiebreakIsGreatest(cs);
  }

  lemma OnlyChoiceIsRight(c: string, name: string, index: AliasIndex)
    ensures RightChoice({c}, name, index, c)
  {
    assert !IsMajorOf(c, c);
  }

  /** `pick_winner` meets its documented algorithm for every list of two or more
      candidates; an empty list gives nothing, a lone candidate itself. */
  lemma WinnerIsRight(cands: seq<string>, name: string, index: AliasIndex)
    ensures Winner(cands, name, index).None? <==> cands == []
    ensures |cands| == 1 ==> Winner(cands, name, index) == Some(cands[0])
    ensures |cands| >= 2 ==>
              RightChoice(CanonicalSet(Elements(cands), index), name, index, Winner(cands, name, index).value)
  {
    if |cands| >= 2 {
      var cs := Canonicals(cands, index);
      CanonicalsCover(cands, index);
      if |cs| == 1 {
        assert Elements(cs) == {cs[0]};
        OnlyChoiceIsRight(cs[0], name, index);
      } else {
        ResolveIsRight(cs, name, index);
      }
    }
  }

  // ------------------------------------------------ when the order matters

  /** `a` is one of the highest `@N` names of `base` among `cs`. */
  ghost predicate TopMajor(cs: set<string>, base: string, a: string)
  {
    a in cs && IsMajorOf(a, base) &&
    forall c :: c in cs && IsMajorOf(c, base) ==> MajorNumber(c, base) <= MajorNumber(a, base)
  }

  /** Two differently spelled names share the highest number, as `node@8` and
      `node@08` do, for the unversioned name the Linux name resolves to. */
  ghost predicate TopTie(cs: set<string>, name: string, index: AliasIndex)
  {
    exists base, a, b ::
      && ResolvesTo(name, index, cs, base) && !Versioned(base)
      && TopMajor(cs, base, a) && TopMajor(cs, base, b) && a != b
  }

  /** Without a tie the documented algorithm leaves one answer. */
  lemma RightChoiceIsUnique(cs: set<string>, name: string, index: AliasIndex, w1: string, w2: string)
    requires RightChoice(cs, name, index, w1) && RightChoice(cs, name, index, w2)
    requires !TopTie(cs, name, index)
    ensures w1 == w2
  {
    if base :| ResolvesTo(name, index, cs, base) {
      if !Versioned(base) && exists c :: c in cs && IsMajorOf(c, base) {
        assert TopMajor(cs, base, w1) && TopMajor(cs, base, w2);
      }
    } else {
      GreatestIsUnique(cs, w1, w2);
    }
  }

  lemma SameSetSameWinner(cands: seq<string>, other: seq<string>, name: string, index: AliasIndex)
    requires Distinct(cands) && Distinct(other) && Elements(cands) == Elements(other)
    requires !TopTie(CanonicalSet(Elements(cands), index), name, index)
    ensures Winner(cands, name, index) == Winner(other, name, index)
  {
    var xs := Elements(cands);
    WinnerIsRight(cands, name, index);
    WinnerIsRight(other, name, index);
    SameSetSameLength(cands, other);
    if |cands| == 0 {
    } else if |cands| == 1 {
      assert cands[0] in xs;
      assert other[0] in xs;
    } else {
      RightChoiceIsUnique(CanonicalSet(xs, index), name, index,
                          Winner(cands, name, index).value, Winner(other, name, index).value);
    }
  }

  lemma SameSetSameLength(a: seq<string>, b: seq<string>)
    requires Distinct(a) && Distinct(b) && Elements(a) == Elements(b)
    ensures |a| == |b|
  {
    DistinctLength(a);
    DistinctLength(b);
  }

  lemma {:induction false} FirstCanonicalStays(cands: seq<string>, index: AliasIndex)
    requires cands != []
    ensures Canonicals(cands, index) != []
    ensures Canonicals(cands, index)[0] == Canonical(index, cands[0])
  {
    if |cands| == 1 {
      assert cands[..0] == [];
    } else {
      FirstCanonicalStays(cands[..|cands| - 1], index);
    }
  }

  lemma {:induction false} FirstMajorStays(base: string, cs: seq<string>)
    requires cs != [] && IsMajorOf(cs[0], base)
    ensures MajorsOf(base, cs) != [] && MajorsOf(base, cs)[0] == cs[0]
  {
    if |cs| == 1 {
      assert cs[..0] == [];
    } else {
      FirstMajorStays(base, cs[..|cs| - 1]);
    }
  }

  lemma {:induction false} FirstOfHighestWins(base: string, vs: seq<string>)
    requires vs != [] && forall c :: c in vs ==> IsMajorOf(c, base)
    requires forall c :: c in vs ==> MajorNumber(c, base) <= MajorNumber(vs[0], base)
    ensures HighestMajor(base, vs) == vs[0]
  {
    if |vs| > 1 {
      FirstOfHighestWins(base, vs[..|vs| - 1]);
    }
  }

  /** Whichever of the tied names comes first is the one chosen. */
  lemma FirstTopMajorWins(cands: seq<string>, name: string, index: AliasIndex, base: string)
    requires |cands| >= 2
    requires var cs := CanonicalSet(Elements(cands), index);
             ResolvesTo(name, index, cs, base) && !Versioned(base) && TopMajor(cs, base, Canonical(index, cands[0]))
    ensures Winner(cands, name, index) == Some(Canonical(index, cands[0]))
  {
    var cs := Canonicals(cands, index);
    CanonicalsCover(cands, index);
    FirstCanonicalStays(cands, index);
    if |cs| >= 2 {
      FirstHitResolves(name, index, cs);
      assert FirstHit(Variants(name), index, cs) == Some(base);
      FirstMajorStays(base, cs);
      var vs := MajorsOf(base, cs);
      assert forall c :: c in vs ==> c in CanonicalSet(Elements(cands), index);
      FirstOfHighestWins(base, vs);
    }
  }

  /** A tie leaves a candidate such that every order starting with it has
      another winner than the given one. */
  lemma TieMakesOrderMatter(cands: seq<string>, name: string, index: AliasIndex) returns (front: string)
    requires TopTie(CanonicalSet(Elements(cands), index), name, index)
    ensures front in cands && |Elements(cands)| >= 2
    ensures forall other :: Elements(other) == Elements(cands) && |other| >= 2 && other[0] == front ==>
              Winner(other, name, index) != Winner(cands, name, index)
  {
    var xs := Elements(cands);
    var cs := CanonicalSet(xs, index);
    var base, loser := TiedLoser(cs, name, index, Winner(cands, name, index));
    front :| front in xs && Canonical(index, front) == loser;
    forall other | Elements(other) == xs && |other| >= 2 && other[0] == front
      ensures Winner(other, name, index) != Winner(cands, name, index)
    {
      FirstTopMajorWins(other, name, index, base);
    }
    TwoCandidates(xs, name, index);
  }

  lemma TiedLoser(cs: set<string>, name: string, index: AliasIndex, w: Option<string>)
    returns (base: string, loser: string)
    requires TopTie(cs, name, index)
    ensures ResolvesTo(name, index, cs, base) && !Versioned(base)
    ensures TopMajor(cs, base, loser) && w != Some(loser)
  {
    var n, a, b :| ResolvesTo(name, index, cs, n) && !Versioned(n) &&
                   TopMajor(cs, n, a) && TopMajor(cs, n, b) && a != b;
    base, loser := n, if w == Some(a) then b else a;
  }

  lemma TwoCandidates(xs: set<string>, name: string, index: AliasIndex)
    requires TopTie(CanonicalSet(xs, index), name, index)
    ensures |xs| >= 2
  {
    var cs := CanonicalSet(xs, index);
    var n, a, b :| ResolvesTo(name, index, cs, n) && !Versioned(n) &&
                   TopMajor(cs, n, a) && TopMajor(cs, n, b) && a != b;
    var x :| x in xs && Canonical(index, x) == a;
    var y :| y in xs && Canonical(index, y) == b;
    assert x != y && {x, y} <= xs && |{x, y}| == 2;
    SubsetSize({x, y}, xs);
  }

  // ------------------------------------------------ canonicalizing first

  ghost predicate Idempotent(index: AliasIndex)
  {
    forall x :: x in index ==> Canonical(index, index[x]) == index[x]
  }

  lemma {:induction false} CanonicalsOfCanonicals(cs: seq<string>, index: AliasIndex)
    requires Distinct(cs) && forall c :: c in cs ==> Canonical(index, c) == c
    ensures Canonicals(cs, index) == cs
  {
    if cs != [] {
      var front, last := cs[..|cs| - 1], cs[|cs| - 1];
      CanonicalsOfCanonicals(front, index);
      assert last !in front;
      assert cs == front + [last];
    }
  }

  /** With two or more candidates, replacing each by its canonical name and
      dropping repeats beforehand changes nothing. */
  lemma CanonicalizingFirst(cands: seq<string>, name: string, index: AliasIndex)
    requires |cands| >= 2 && Idempotent(index)
    ensures Winner(Canonicals(cands, index), name, index) == Winner(cands, name, index)
  {
    var cs := Canonicals(cands, index);
    FirstCanonicalStays(cands, index);
    CanonicalsCover(cands, index);
    CanonicalsDistinct(cands, index);
    forall c | c in cs ensures Canonical(index, c) == c {
      assert c in Elements(cs);
      var x :| x in Elements(cands) && Canonical(index, x) == c;
    }
    CanonicalsOfCanonicals(cs, index);
  }
}

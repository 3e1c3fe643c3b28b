/** Homebrew formula names and the tie-break that picks one of several:
    `parse_major` and step 4 of `pick_winner`, shared with `build_consensus`. */
module Formulas {
  import opened Text

  /** `parse_major`: the leading integer, if there is one. */
  function ParseMajor(s: string): Option<nat>
  {
    var digits := LeadingDigits(s);
    if digits == [] then None else Some(DigitsValue(digits))
  }

  predicate Versioned(c: string) { '@' in c }

  /** `parse_major(c.rsplit("@", 1)[1]) or 0`. */
  function Major(c: string): nat
    requires Versioned(c)
  {
    match ParseMajor(AfterLastAt(c))
    case Some(n) => n
    case None => 0
  }

  /** Python's `(major(a), a) < (major(b), b)`. */
  predicate KeyLess(a: string, b: string)
    requires Versioned(a) && Versioned(b)
  {
    Major(a) < Major(b) || (Major(a) == Major(b) && Less(a, b))
  }

  function OnlyVersioned(cs: seq<string>): (r: seq<string>)
    ensures forall c :: c in r <==> c in cs && Versioned(c)
  {
    if cs == [] then []
    else
      var rest := OnlyVersioned(cs[..|cs| - 1]);
      if Versioned(cs[|cs| - 1]) then rest + [cs[|cs| - 1]] else rest
  }

  /** `max(vs, key=lambda c: (parse_major(...) or 0, c))`. */
  function MaxByKey(vs: seq<string>): (r: string)
    requires vs != [] && forall c :: c in vs ==> Versioned(c)
    ensures r in vs
  {
    if |vs| == 1 then vs[0]
    else
      var best := MaxByKey(vs[..|vs| - 1]);
      if KeyLess(best, vs[|vs| - 1]) then vs[|vs| - 1] else best
  }

  /** `sorted(cs)[0]`. */
  function LexLeast(cs: seq<string>): (r: string)
    requires cs != []
    ensures r in cs
  {
    if |cs| == 1 then cs[0]
    else
      var best := LexLeast(cs[..|cs| - 1]);
      if Less(cs[|cs| - 1], best) then cs[|cs| - 1] else best
  }

  /** Highest version if any name has one, else the lexicographically first. */
  function Tiebreak(cs: seq<string>): (r: string)
    requires cs != []
  {
    var versioned := OnlyVersioned(cs);
    if versioned != [] then MaxByKey(versioned) else LexLeast(cs)
  }

  // ------------------------------------------------------ the order behind it

  /** Versioned above unversioned; then the higher major; then the greater
      string. Among unversioned names the lexicographically smaller one. */
  predicate Outranks(a: string, b: string)
  {
    if Versioned(a) != Versioned(b) then Versioned(a)
    else if Versioned(a) then KeyLess(b, a)
    else Less(a, b)
  }

  lemma OutranksIrreflexive(a: string)
    ensures !Outranks(a, a)
  {
    LessIrreflexive(a);
  }

  lemma OutranksTotal(a: string, b: string)
    ensures a == b || Outranks(a, b) || Outranks(b, a)
  {
    LessTotal(a, b);
  }

  lemma OutranksTransitive(a: string, b: string, c: string)
    requires Outranks(a, b) && Outranks(b, c)
    ensures Outranks(a, c)
  {
    if Less(a, b) && Less(b, c) { LessTransitive(a, b, c); }
    if Less(c, b) && Less(b, a) { LessTransitive(c, b, a); }
  }

  lemma OutranksAsymmetric(a: string, b: string)
    requires Outranks(a, b)
    ensures !Outranks(b, a)
  {
    if Outranks(b, a) {
      OutranksTransitive(a, b, a);
      OutranksIrreflexive(a);
    }
  }

  lemma {:induction false} MaxByKeyIsGreatest(vs: seq<string>)
    requires vs != [] && forall c :: c in vs ==> Versioned(c)
    ensures forall c :: c in vs && c != MaxByKey(vs) ==> Outranks(MaxByKey(vs), c)
  {
    if |vs| > 1 {
      var front, last := vs[..|vs| - 1], vs[|vs| - 1];
      MaxByKeyIsGreatest(front);
      var best, top := MaxByKey(front), MaxByKey(vs);
      OutranksTotal(best, last);
      forall c | c in vs && c != top
        ensures Outranks(top, c)
      {
        assert c in front || c == last;
        if top != best && c != best { OutranksTransitive(top, best, c); }
      }
    }
  }

  lemma {:induction false} LexLeastIsGreatest(cs: seq<string>)
    requires cs != [] && forall c :: c in cs ==> !Versioned(c)
    ensures forall c :: c in cs && c != LexLeast(cs) ==> Outranks(LexLeast(cs), c)
  {
    if |cs| > 1 {
      var front, last := cs[..|cs| - 1], cs[|cs| - 1];
      LexLeastIsGreatest(front);
      var best, top := LexLeast(front), LexLeast(cs);
      OutranksTotal(best, last);
      forall c | c in cs && c != top
        ensures Outranks(top, c)
      {
        assert c in front || c == last;
        if top != best && c != best { OutranksTransitive(top, best, c); }
      }
    }
  }

  /** The tie-break is the greatest name of the order, whatever the list's order. */
  lemma TiebreakIsGreatest(cs: seq<string>)
    requires cs != []
    ensures Tiebreak(cs) in cs
    ensures forall c :: c in cs && c != Tiebreak(cs) ==> Outranks(Tiebreak(cs), c)
  {
    var versioned := OnlyVersioned(cs);
    if versioned != [] {
      MaxByKeyIsGreatest(versioned);
    } else {
      LexLeastIsGreatest(cs);
    }
  }

  /** A set of names has at most one greatest member. */
  lemma GreatestIsUnique(cs: set<string>, a: string, b: string)
    requires a in cs && forall c :: c in cs && c != a ==> Outranks(a, c)
    requires b in cs && forall c :: c in cs && c != b ==> Outranks(b, c)
    ensures a == b
  {
    if a != b { OutranksAsymmetric(a, b); }
  }
}

/** The alias index of `fetch_homebrew_alias_index`: every name a formula goes by,
    mapped to the formula's canonical name. The fetched list is an input. */
module Aliases {
  import opened Text
  import opened Selection

  /** One entry of the formula API; a missing or null field is empty here. */
  datatype Formula = Formula(fullName: string, name: string, aliases: seq<string>, oldnames: seq<string>)

  function CanonicalName(f: Formula): string
  {
    if f.fullName != "" then f.fullName else f.name
  }

  /** The formula writes the key; one without a name writes none. */
  predicate Mentions(f: Formula, k: string)
  {
    CanonicalName(f) != "" && (k == CanonicalName(f) || k in f.aliases || k in f.oldnames)
  }

  /** Map every one of `keys` to `c`. */
  function Claim(index: AliasIndex, keys: seq<string>, c: string): AliasIndex
  {
    if keys == [] then index else Claim(index, keys[..|keys| - 1], c)[keys[|keys| - 1] := c]
  }

  function Register(index: AliasIndex, f: Formula): AliasIndex
  {
    var c := CanonicalName(f);
    if c == "" then index else Claim(Claim(index[c := c], f.aliases, c), f.oldnames, c)
  }

  /** The index as a whole: later formulas overwrite earlier ones. */
  function IndexOf(data: seq<Formula>): AliasIndex
  {
    if data == [] then map[] else Register(IndexOf(data[..|data| - 1]), data[|data| - 1])
  }

  method ClaimAll(index: AliasIndex, keys: seq<string>, c: string) returns (a2c: AliasIndex)
    ensures a2c == Claim(index, keys, c)
  {
    a2c := index;
    for i := 0 to |keys|
      invariant a2c == Claim(index, keys[..i], c)
    {
      assert keys[..i + 1][..i] == keys[..i];
      a2c := a2c[keys[i] := c];
    }
    assert keys[..|keys|] == keys;
  }

  method BuildIndex(data: seq<Formula>) returns (a2c: AliasIndex)
    ensures a2c == IndexOf(data)
  {
    a2c := map[];
    for i := 0 to |data|
      invariant a2c == IndexOf(data[..i])
    {
      var canonical := CanonicalName(data[i]);
      if canonical != "" {
        a2c := a2c[canonical := canonical];
        a2c := ClaimAll(a2c, data[i].aliases, canonical);
        a2c := ClaimAll(a2c, data[i].oldnames, canonical);
      }
      assert data[..i + 1][..i] == data[..i];
    }
    assert data[..|data|] == data;
  }

  // ------------------------------------------------------------- its meaning

  lemma {:induction false} ClaimAt(index: AliasIndex, keys: seq<string>, c: string, k: string)
    ensures k in Claim(index, keys, c) <==> k in index || k in keys
    ensures k in keys ==> Claim(index, keys, c)[k] == c
    ensures k in index && k !in keys ==> Claim(index, keys, c)[k] == index[k]
  {
    if keys != [] {
      ClaimAt(index, keys[..|keys| - 1], c, k);
      assert k in keys <==> k in keys[..|keys| - 1] || k == keys[|keys| - 1];
    }
  }

  lemma RegisterAt(index: AliasIndex, f: Formula, k: string)
    ensures k in Register(index, f) <==> k in index || Mentions(f, k)
    ensures Mentions(f, k) ==> Register(index, f)[k] == CanonicalName(f)
    ensures k in index && !Mentions(f, k) ==> Register(index, f)[k] == index[k]
  {
    var c := CanonicalName(f);
    if c != "" {
      ClaimAt(index[c := c], f.aliases, c, k);
      ClaimAt(Claim(index[c := c], f.aliases, c), f.oldnames, c, k);
    }
  }

  /** A key maps to the canonical name of the last formula that mentions it. */
  lemma {:induction false} LastMentionWins(data: seq<Formula>, k: string) returns (m: nat)
    requires k in IndexOf(data)
    ensures m < |data| && Mentions(data[m], k)
    ensures forall j :: m < j < |data| ==> !Mentions(data[j], k)
    ensures IndexOf(data)[k] == CanonicalName(data[m])
  {
    var front, last := data[..|data| - 1], data[|data| - 1];
    RegisterAt(IndexOf(front), last, k);
    if Mentions(last, k) {
      m := |data| - 1;
    } else {
      m := LastMentionWins(front, k);
    }
  }

  lemma {:induction false} MentionsAreKeys(data: seq<Formula>, i: nat, k: string)
    requires i < |data| && Mentions(data[i], k)
    ensures k in IndexOf(data)
  {
    var front, last := data[..|data| - 1], data[|data| - 1];
    RegisterAt(IndexOf(front), last, k);
    if i < |front| {
      MentionsAreKeys(front, i, k);
    }
  }

  /** "Canonical names map to themselves", as the index documents of itself. */
  ghost predicate CanonicalsMapToThemselves(data: seq<Formula>)
  {
    forall i :: 0 <= i < |data| && CanonicalName(data[i]) != "" ==>
      Canonical(IndexOf(data), CanonicalName(data[i])) == CanonicalName(data[i])
  }

  /** No formula takes over another's canonical name as alias or old name,
      unless that other formula is listed once more after it. */
  ghost predicate NoTakeover(data: seq<Formula>)
  {
    forall i, j :: 0 <= i < j < |data| && CanonicalName(data[i]) != "" && TakesOver(data[j], data[i]) ==>
      exists k :: j < k < |data| && CanonicalName(data[k]) == CanonicalName(data[i])
  }

  ghost predicate TakesOver(f: Formula, g: Formula)
  {
    Mentions(f, CanonicalName(g)) && CanonicalName(f) != CanonicalName(g)
  }

  /** Exactly when the documented promise holds. */
  lemma CanonicalsMapToThemselvesIff(data: seq<Formula>)
    ensures CanonicalsMapToThemselves(data) <==> NoTakeover(data)
  {
    if NoTakeover(data) {
      forall i | 0 <= i < |data| && CanonicalName(data[i]) != ""
        ensures Canonical(IndexOf(data), CanonicalName(data[i])) == CanonicalName(data[i])
      {
        var c := CanonicalName(data[i]);
        MentionsAreKeys(data, i, c);
        var m := LastMentionWins(data, c);
        if CanonicalName(data[m]) != c {
          assert i < m && TakesOver(data[m], data[i]);
        }
      }
    }
    if CanonicalsMapToThemselves(data) {
      forall i, j | 0 <= i < j < |data| && CanonicalName(data[i]) != "" && TakesOver(data[j], data[i])
        ensures exists k :: j < k < |data| && CanonicalName(data[k]) == CanonicalName(data[i])
      {
        var c := CanonicalName(data[i]);
        MentionsAreKeys(data, i, c);
        var m := LastMentionWins(data, c);
        assert CanonicalName(data[m]) == c;
        assert j < m;
      }
    }
  }

  /** Some later formula takes the name over for good. */
  ghost predicate TakenOver(data: seq<Formula>, i: nat)
    requires i < |data|
  {
    exists j :: i < j < |data| && TakesOver(data[j], data[i]) &&
                forall k :: j < k < |data| ==> CanonicalName(data[k]) != CanonicalName(data[i])
  }

  /** Every name the formula mentions is mentioned again after it. */
  ghost predicate Overruled(data: seq<Formula>, i: nat)
    requires i < |data|
  {
    forall x :: Mentions(data[i], x) ==> exists j :: i < j < |data| && Mentions(data[j], x)
  }

  ghost predicate LosesAllOrNothing(data: seq<Formula>)
  {
    forall i {:trigger TakenOver(data, i)} ::
      0 <= i < |data| && CanonicalName(data[i]) != "" && TakenOver(data, i) ==> Overruled(data, i)
  }

  /** Looking a name up twice is the same as looking it up once, exactly when a
      formula that loses its own name also loses every other name it claimed. */
  lemma IdempotentIff(data: seq<Formula>)
    ensures Idempotent(IndexOf(data)) <==> LosesAllOrNothing(data)
  {
    if Idempotent(IndexOf(data)) {
      forall i | 0 <= i < |data| && CanonicalName(data[i]) != "" && TakenOver(data, i) ensures Overruled(data, i) {
        IdempotentOverrules(data, i);
      }
    }
    if LosesAllOrNothing(data) {
      forall x | x in IndexOf(data) ensures Canonical(IndexOf(data), IndexOf(data)[x]) == IndexOf(data)[x] {
        LookupIsFinal(data, x);
      }
    }
  }

  lemma LookupIsFinal(data: seq<Formula>, x: string)
    requires LosesAllOrNothing(data) && x in IndexOf(data)
    ensures Canonical(IndexOf(data), IndexOf(data)[x]) == IndexOf(data)[x]
  {
    var m := LastMentionWins(data, x);
    assert !Overruled(data, m);
    assert !TakenOver(data, m);
    var c := CanonicalName(data[m]);
    MentionsAreKeys(data, m, c);
    var n := LastMentionWins(data, c);
    assert m < n ==> !TakesOver(data[n], data[m]);
  }

  lemma IdempotentOverrules(data: seq<Formula>, i: nat)
    requires i < |data| && CanonicalName(data[i]) != "" && TakenOver(data, i) && Idempotent(IndexOf(data))
    ensures Overruled(data, i)
  {
    var c := CanonicalName(data[i]);
    MentionsAreKeys(data, i, c);
    var n := LastMentionWins(data, c);
    assert CanonicalName(data[n]) != c;
    forall x | Mentions(data[i], x) ensures exists j :: i < j < |data| && Mentions(data[j], x) {
      MentionsAreKeys(data, i, x);
      var m := LastMentionWins(data, x);
      assert Canonical(IndexOf(data), IndexOf(data)[x]) == IndexOf(data)[x];
      assert i < m;
    }
  }

  /** The documented promise is enough for that. */
  lemma NoTakeoverIsIdempotent(data: seq<Formula>)
    requires NoTakeover(data)
    ensures Idempotent(IndexOf(data))
  {
    CanonicalsMapToThemselvesIff(data);
    forall x | x in IndexOf(data)
      ensures Canonical(IndexOf(data), IndexOf(data)[x]) == IndexOf(data)[x]
    {
      var m := LastMentionWins(data, x);
      assert CanonicalName(data[m]) != "";
    }
  }

  /** In particular when no alias or old name is another formula's full name. */
  lemma SeparateNamesAreIdempotent(data: seq<Formula>)
    requires forall i, j :: 0 <= i < |data| && 0 <= j < |data| ==> !TakesOver(data[j], data[i])
    ensures Idempotent(IndexOf(data))
  {
    NoTakeoverIsIdempotent(data);
  }

  /** Otherwise both can fail: `x` is looked up as `a`, and `a` as `b`. */
  lemma TakeoverBreaksIdempotence()
    ensures var data := [Formula("a", "a", ["x"], []), Formula("b", "b", ["a"], [])];
            !Idempotent(IndexOf(data)) && !CanonicalsMapToThemselves(data)
  {
    var f, g := Formula("a", "a", ["x"], []), Formula("b", "b", ["a"], []);
    var data := [f, g];
    assert data[0] == f && data[1] == g;
    MentionsAreKeys(data, 0, "x");
    MentionsAreKeys(data, 1, "a");
    var m := LastMentionWins(data, "x");
    assert !Mentions(data[1], "x");
    var n := LastMentionWins(data, "a");
    assert n == 1 && IndexOf(data)["x"] == "a" && IndexOf(data)["a"] == "b";
  }
}

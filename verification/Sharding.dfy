/** Filing the entries of a dictionary under keys, for any key function. */
module Filing {
  import opened Text

  type Buckets = map<string, Mapping>

  /** Every bucket holds exactly the entries of `done` filed under it. */
  ghost predicate Filed(buckets: Buckets, done: Mapping, key: string -> string)
  {
    forall s :: s in buckets ==> buckets[s] == Under(done, key, s)
  }

  /** The entries filed under one key. */
  function Under(entries: Mapping, key: string -> string, s: string): Mapping
  {
    map name | name in entries && key(name) == s :: entries[name]
  }

  lemma UnderAdd(entries: Mapping, key: string -> string, s: string, name: string, value: string)
    ensures Under(entries[name := value], key, s) ==
            if key(name) == s then Under(entries, key, s)[name := value] else Under(entries, key, s)
  {
  }

  method FileOne(buckets: Buckets, ghost done: Mapping, key: string -> string, name: string, value: string)
    returns (r: Buckets)
    requires Filed(buckets, done, key) && key(name) in buckets
    ensures Filed(r, done[name := value], key) && forall s :: s in r <==> s in buckets
  {
    forall s | s in buckets { UnderAdd(done, key, s, name, value); }
    r := buckets[key(name) := buckets[key(name)][name := value]];
  }

  /** What has been written once the names of `todo` are left. */
  ghost function Written(done: Mapping, mapping: Mapping, todo: set<string>): Mapping
  {
    done + (map name | name in mapping && name !in todo :: mapping[name])
  }

  lemma WrittenStep(done: Mapping, mapping: Mapping, todo: set<string>, name: string)
    requires name in todo && name in mapping
    ensures Written(done, mapping, todo - {name}) == Written(done, mapping, todo)[name := mapping[name]]
  {
  }

  lemma WrittenEnds(done: Mapping, mapping: Mapping)
    ensures Written(done, mapping, mapping.Keys) == done
    ensures Written(done, mapping, {}) == done + mapping
  {
  }

  /** `buckets[key(name)][name] = value` for every entry, in whatever order the
      dictionary is walked; a key without a bucket is a `KeyError`. */
  method FileAll(start: Buckets, ghost done: Mapping, mapping: Mapping, key: string -> string)
    returns (r: Option<Buckets>)
    requires Filed(start, done, key)
    ensures r.None? <==> exists name :: name in mapping && key(name) !in start
    ensures r.Some? ==> (forall s :: s in r.value <==> s in start) && Filed(r.value, done + mapping, key)
  {
    var buckets := start;
    var todo := mapping.Keys;
    WrittenEnds(done, mapping);
    while todo != {}
      invariant todo <= mapping.Keys
      invariant forall s :: s in buckets <==> s in start
      invariant Filed(buckets, Written(done, mapping, todo), key)
      invariant forall name :: name in mapping && name !in todo ==> key(name) in start
      decreases |todo|
    {
      var name :| name in todo;
      if key(name) !in buckets { return None; }
      WrittenStep(done, mapping, todo, name);
      buckets := FileOne(buckets, Written(done, mapping, todo), key, name, mapping[name]);
      todo := todo - {name};
    }
    r := Some(buckets);
  }

  /** The entries filed under the first `k` of the keys, counted key by key. */
  function CountUpTo(entries: Mapping, key: string -> string, keys: seq<string>, k: nat): nat
    requires k <= |keys|
  {
    if k == 0 then 0 else CountUpTo(entries, key, keys, k - 1) + |Under(entries, key, keys[k - 1])|
  }

  ghost function NamesUpTo(entries: Mapping, key: string -> string, keys: seq<string>, k: nat): set<string>
    requires k <= |keys|
  {
    set name | name in entries && key(name) in keys[..k]
  }

  lemma {:induction false} CountIsNames(entries: Mapping, key: string -> string, keys: seq<string>, k: nat)
    requires k <= |keys| && Distinct(keys)
    ensures CountUpTo(entries, key, keys, k) == |NamesUpTo(entries, key, keys, k)|
  {
    if k == 0 {
      assert NamesUpTo(entries, key, keys, 0) == {};
    } else {
      CountIsNames(entries, key, keys, k - 1);
      NamesStep(entries, key, keys, k);
    }
  }

  lemma NamesStep(entries: Mapping, key: string -> string, keys: seq<string>, k: nat)
    requires 0 < k <= |keys| && Distinct(keys)
    ensures var here := Under(entries, key, keys[k - 1]);
            |NamesUpTo(entries, key, keys, k)| == |NamesUpTo(entries, key, keys, k - 1)| + |here|
  {
    var before, here := NamesUpTo(entries, key, keys, k - 1), Under(entries, key, keys[k - 1]);
    assert keys[k - 1] !in keys[..k - 1];
    forall name | name in entries
      ensures key(name) in keys[..k] <==> key(name) in keys[..k - 1] || key(name) == keys[k - 1]
    {
      InPrefix(keys, k, key(name));
    }
    Partition(NamesUpTo(entries, key, keys, k), before, here.Keys);
  }

  lemma Partition(all: set<string>, a: set<string>, b: set<string>)
    requires forall x :: x in all <==> x in a || x in b
    requires a !! b
    ensures |all| == |a| + |b|
  {
    assert all == a + b;
  }

  /** Distinct keys that cover every entry count every entry once. */
  lemma CountIsAll(entries: Mapping, key: string -> string, keys: seq<string>)
    requires Distinct(keys)
    requires forall name :: name in entries ==> key(name) in keys
    ensures CountUpTo(entries, key, keys, |keys|) == |entries|
  {
    CountIsNames(entries, key, keys, |keys|);
    assert keys[..|keys|] == keys;
    assert NamesUpTo(entries, key, keys, |keys|) == entries.Keys;
  }
}

/** How a mapping is split over per-letter shards, by the generator that writes
    them and by the resolver that reads them. */
module Sharding {
  import opened Text
  import opened Filing

  /** Hand-curated entries, applied last. */
  const OVERRIDES: Mapping := map["default-jdk" := "openjdk", "default-jre" := "openjdk"]

  const MISC: string := "_misc"

  function Letter(i: nat): string
    requires i < 26
  {
    ['a' + i as char]
  }

  function Letters(n: nat): (r: seq<string>)
    requires n <= 26
    ensures |r| == n && forall i :: 0 <= i < n ==> r[i] == Letter(i)
  {
    if n == 0 then [] else Letters(n - 1) + [Letter(n - 1)]
  }

  /** `a` to `z`, then `_misc`. */
  const SHARDS: seq<string> := Letters(26) + [MISC]

  /** U+0130 lowers to two characters, U+212A to the letter `k`. */
  const DOTTED_I: char := '\U{0130}'
  const KELVIN: char := '\U{212A}'

  predicate IsLetter(c: char) { 'a' <= c <= 'z' }

  /** `c.lower()` in Python, up to characters that lower to something starting
      above `z`, which are left alone here. */
  function Lower(c: char): string
  {
    if 'A' <= c <= 'Z' then [c - 'A' + 'a']
    else if c == KELVIN then "k"
    else if c == DOTTED_I then "i\U{0307}"
    else [c]
  }

  /** The generator's `shard_key`. */
  function ShardKey(name: string): string
  {
    if name == "" then MISC
    else
      var first := Lower(name[0]);
      if !Less(first, "a") && !Less("z", first) then first else MISC
  }

  /** The resolver's `shard_key`: only ASCII letters are lowered. */
  function ReaderKey(name: string): string
  {
    if name == "" then MISC
    else
      var first := if 'A' <= name[0] <= 'Z' then name[0] - 'A' + 'a' else name[0];
      if IsLetter(first) then [first] else MISC
  }

  predicate StartsWithChar(name: string, c: char)
  {
    name != "" && name[0] == c
  }

  /** The shard a name is filed under, case by case. */
  lemma ShardKeyCases(name: string)
    ensures StartsWithChar(name, DOTTED_I) ==> ShardKey(name) == "i\U{0307}"
    ensures StartsWithChar(name, KELVIN) ==> ShardKey(name) == "k"
    ensures !StartsWithChar(name, DOTTED_I) && !StartsWithChar(name, KELVIN) ==> ShardKey(name) == ReaderKey(name)
  {
    if name != "" {
      var first := Lower(name[0]);
      if |first| == 1 {
        assert Less(first, "a") <==> first[0] < 'a' by { assert first[1..] == "" && "a"[1..] == ""; }
        assert Less("z", first) <==> 'z' < first[0] by { assert first[1..] == "" && "z"[1..] == ""; }
      } else {
        assert first == "i\U{0307}" && first[0] == 'i';
      }
    }
  }

  lemma ShardsHold(s: string)
    ensures s in SHARDS <==> s == MISC || (|s| == 1 && IsLetter(s[0]))
  {
    if |s| == 1 && IsLetter(s[0]) {
      var i := s[0] as int - 'a' as int;
      assert SHARDS[i] == Letter(i) == s;
    }
    assert SHARDS[26] == MISC;
    if s in SHARDS {
      var i :| 0 <= i < |SHARDS| && SHARDS[i] == s;
      assert i < 26 ==> s == Letter(i);
    }
  }

  lemma ShardsDistinct()
    ensures |SHARDS| == 27
    ensures Distinct(SHARDS)
  {
    forall i, j | 0 <= i < j < |SHARDS| ensures SHARDS[i] != SHARDS[j] {
      assert SHARDS[i] == Letter(i);
      if j < 26 {
        assert SHARDS[j] == Letter(j);
        assert Letter(i)[0] != Letter(j)[0];
      } else {
        assert |Letter(i)| == 1;
      }
    }
  }

  /** Every name has a shard, unless it starts with U+0130. */
  lemma KeyIsShardIff(name: string)
    ensures ShardKey(name) in SHARDS <==> !StartsWithChar(name, DOTTED_I)
  {
    ShardKeyCases(name);
    ShardsHold(ShardKey(name));
    assert ReaderKey(name) == MISC || (|ReaderKey(name)| == 1 && IsLetter(ReaderKey(name)[0]));
    assert "k"[0] == 'k';
  }

  /** Generator and resolver file a name alike unless it starts with U+0130 or
      with the Kelvin sign U+212A, contrary to "keep them in sync". */
  lemma KeysAgreeIff(name: string)
    ensures ShardKey(name) == ReaderKey(name) <==>
            !StartsWithChar(name, DOTTED_I) && !StartsWithChar(name, KELVIN)
  {
    ShardKeyCases(name);
    if StartsWithChar(name, KELVIN) { assert ReaderKey(name) == MISC; }
    if StartsWithChar(name, DOTTED_I) { assert ReaderKey(name) == MISC; }
  }

  // ----------------------------------------------------------------- buckets

  /** The mapping as published: overrides replace or add entries. */
  function Flat(mapping: Mapping): Mapping
  {
    mapping + OVERRIDES
  }

  /** The entries of one shard. */
  function ShardOf(mapping: Mapping, s: string): Mapping
  {
    Under(Flat(mapping), ShardKey, s)
  }

  /** No name is without a shard. */
  predicate Shardable(mapping: Mapping)
  {
    forall name :: name in mapping ==> !StartsWithChar(name, DOTTED_I)
  }

  /** The bucket loops; a name without a shard is a `KeyError`. Otherwise a lookup
      by shard answers what the flat map does, and no name is filed twice. */
  method FillBuckets(mapping: Mapping) returns (r: Option<Buckets>)
    ensures r.None? <==> !Shardable(mapping)
    ensures r.Some? ==> forall s :: s in SHARDS ==> s in r.value && r.value[s] == ShardOf(mapping, s)
    ensures r.Some? ==> AnswersAs(r.value, mapping) && FiledOnce(r.value)
  {
    r := FileBoth(mapping);
    if r.Some? { LooksUp(r.value, mapping); }
  }

  method FileBoth(mapping: Mapping) returns (r: Option<Buckets>)
    ensures r.None? <==> !Shardable(mapping)
    ensures r.Some? ==> (forall s :: s in r.value <==> s in SHARDS) && Filed(r.value, Flat(mapping), ShardKey)
  {
    var empty := NoEntries();
    r := FileAll(empty, map[], mapping, ShardKey);
    ShardableIff(mapping);
    if r.Some? {
      assert map[] + mapping == mapping;
      ShardableIff(OVERRIDES);
      r := FileAll(r.value, mapping, OVERRIDES, ShardKey);
    }
  }

  /** What the shard of a name says about it. */
  function Lookup(buckets: Buckets, name: string): Option<string>
  {
    var s := ShardKey(name);
    if s in buckets && name in buckets[s] then Some(buckets[s][name]) else None
  }

  /** The override if there is one, else the mapping's entry, else nothing. */
  function FlatLookup(mapping: Mapping, name: string): Option<string>
  {
    if name in OVERRIDES then Some(OVERRIDES[name])
    else if name in mapping then Some(mapping[name])
    else None
  }

  ghost predicate AnswersAs(buckets: Buckets, mapping: Mapping)
  {
    forall name :: Lookup(buckets, name) == FlatLookup(mapping, name)
  }

  ghost predicate FiledOnce(buckets: Buckets)
  {
    forall s, t, name :: s in buckets && t in buckets && name in buckets[s] && name in buckets[t] ==> s == t
  }

  lemma LooksUp(buckets: Buckets, mapping: Mapping)
    requires Shardable(mapping) && Filed(buckets, Flat(mapping), ShardKey) && forall s :: s in buckets <==> s in SHARDS
    ensures AnswersAs(buckets, mapping) && FiledOnce(buckets)
  {
    forall name ensures Lookup(buckets, name) == FlatLookup(mapping, name) { LookupIsFlat(buckets, mapping, name); }
  }

  lemma LookupIsFlat(buckets: Buckets, mapping: Mapping, name: string)
    requires Shardable(mapping) && Filed(buckets, Flat(mapping), ShardKey) && forall s :: s in buckets <==> s in SHARDS
    ensures Lookup(buckets, name) == FlatLookup(mapping, name)
  {
    ShardableIff(OVERRIDES);
    KeyIsShardIff(name);
  }

  /** `{s: {} for s in SHARDS}`. */
  function NoEntries(): (r: Buckets)
    ensures forall s :: s in r <==> s in SHARDS
    ensures Filed(r, map[], ShardKey)
  {
    map s | s in SHARDS :: map[]
  }

  lemma ShardableIff(mapping: Mapping)
    ensures Shardable(mapping) <==> forall name :: name in mapping ==> ShardKey(name) in SHARDS
    ensures Shardable(OVERRIDES)
  {
    forall name | name in mapping { KeyIsShardIff(name); }
  }

  /** The entries of the first `k` shards. */
  function Total(mapping: Mapping, k: nat): nat
    requires k <= |SHARDS|
  {
    CountUpTo(Flat(mapping), ShardKey, SHARDS, k)
  }

  lemma TotalNext(mapping: Mapping, k: nat)
    requires k < |SHARDS|
    ensures Total(mapping, k + 1) == Total(mapping, k) + |ShardOf(mapping, SHARDS[k])|
  {
  }

  /** The shards together hold every entry once. */
  lemma TotalIsUnion(mapping: Mapping)
    requires Shardable(mapping)
    ensures Total(mapping, |SHARDS|) == |mapping.Keys + OVERRIDES.Keys|
  {
    ShardsDistinct();
    ShardableIff(mapping);
    ShardableIff(OVERRIDES);
    CountIsAll(Flat(mapping), ShardKey, SHARDS);
    assert Flat(mapping).Keys == mapping.Keys + OVERRIDES.Keys;
  }
}

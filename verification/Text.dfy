/** Strings as the map generator's Python uses them: code-point order, decimal
    digits, and the `@` that separates a formula's name from its version. */
module Text {

  datatype Option<+T> = None | Some(value: T)

  /** Linux names and the formulas they stand for. */
  type Mapping = map<string, string>

  /** The elements of a sequence. */
  ghost function Elements<T>(s: seq<T>): set<T>
  {
    set x | x in s
  }

  ghost predicate Distinct<T>(s: seq<T>)
  {
    forall i, j :: 0 <= i < j < |s| ==> s[i] != s[j]
  }

  /** How often `x` occurs. */
  function Count(s: seq<string>, x: string): nat
  {
    multiset(s)[x]
  }

  lemma {:induction false} DistinctLength(s: seq<string>)
    requires Distinct(s)
    ensures |Elements(s)| == |s|
  {
    if s != [] {
      var front, last := s[..|s| - 1], s[|s| - 1];
      DistinctLength(front);
      assert Elements(s) == Elements(front) + {last};
      assert last !in front;
    } else {
      assert Elements(s) == {};
    }
  }

  lemma SubsetSize<T>(a: set<T>, b: set<T>)
    requires a <= b
    ensures |a| <= |b|
  {
    assert b == a + (b - a);
  }

  // ---------------------------------------------------------------- ordering

  /** Python's `a < b` on strings: lexicographic by code point. */
  predicate Less(a: string, b: string)
  {
    b != [] && (a == [] || a[0] < b[0] || (a[0] == b[0] && Less(a[1..], b[1..])))
  }

  lemma LessIrreflexive(a: string)
    ensures !Less(a, a)
  {
    if a != [] { LessIrreflexive(a[1..]); }
  }

  lemma LessTransitive(a: string, b: string, c: string)
    requires Less(a, b) && Less(b, c)
    ensures Less(a, c)
  {
    if a != [] && a[0] == b[0] && b[0] == c[0] {
      LessTransitive(a[1..], b[1..], c[1..]);
    }
  }

  lemma LessTotal(a: string, b: string)
    ensures a == b || Less(a, b) || Less(b, a)
  {
    if a != [] && b != [] && a[0] == b[0] {
      LessTotal(a[1..], b[1..]);
      assert a == [a[0]] + a[1..] && b == [b[0]] + b[1..];
    }
  }

  // ------------------------------------------------------------------ digits

  predicate IsDigit(c: char) { '0' <= c <= '9' }

  function DigitOf(c: char): nat
    requires IsDigit(c)
  {
    c as int - '0' as int
  }

  /** `str.isdigit()` on ASCII text. */
  predicate AllDigits(s: string)
  {
    s != [] && forall i :: 0 <= i < |s| ==> IsDigit(s[i])
  }

  /** `int(s)` for a string of digits; leading zeros are accepted. */
  function DigitsValue(s: string): nat
    requires forall i :: 0 <= i < |s| ==> IsDigit(s[i])
  {
    if s == [] then 0
    else 10 * DigitsValue(s[..|s| - 1]) + DigitOf(s[|s| - 1])
  }

  /** The longest prefix of digits, what `^(\d+)` captures. */
  function LeadingDigits(s: string): (r: string)
    ensures |r| <= |s| && s[..|r|] == r
    ensures forall i :: 0 <= i < |r| ==> IsDigit(r[i])
    ensures |r| < |s| ==> !IsDigit(s[|r|])
  {
    if s == [] || !IsDigit(s[0]) then [] else [s[0]] + LeadingDigits(s[1..])
  }

  // ---------------------------------------------------------------- suffixes

  predicate EndsWith(s: string, suffix: string)
  {
    |suffix| <= |s| && s[|s| - |suffix|..] == suffix
  }

  predicate StartsWith(s: string, prefix: string)
  {
    |prefix| <= |s| && s[..|prefix|] == prefix
  }

  /** `s.rsplit("@", 1)[1]`: what follows the last `@`. */
  function AfterLastAt(s: string): (r: string)
    requires '@' in s
    ensures '@' !in r
  {
    if '@' in s[1..] then AfterLastAt(s[1..]) else s[1..]
  }

  /** The substring test `needle in hay`. */
  predicate Contains(hay: string, needle: string)
  {
    StartsWith(hay, needle) || (hay != [] && Contains(hay[1..], needle))
  }

  lemma {:induction false} ContainsMiddle(before: string, needle: string, after: string)
    ensures Contains(before + needle + after, needle)
  {
    var hay := before + needle + after;
    if before == [] {
      assert hay[..|needle|] == needle;
    } else {
      ContainsMiddle(before[1..], needle, after);
      assert hay[1..] == before[1..] + needle + after;
    }
  }

  // --------------------------------------------------------- split and join

  /** `s.split(sep)` for a one-character separator: at least one part. */
  function Split(s: string, sep: char): (r: seq<string>)
    ensures r != []
  {
    if s == [] then [""]
    else
      var rest := Split(s[1..], sep);
      if s[0] == sep then [""] + rest else Prepend(s[0], rest)
  }

  function Prepend(c: char, parts: seq<string>): seq<string>
    requires parts != []
  {
    [[c] + parts[0]] + parts[1..]
  }

  lemma PrependConcat(c: char, a: seq<string>, b: seq<string>)
    requires a != []
    ensures Prepend(c, a + b) == Prepend(c, a) + b
  {
  }

  /** `sep.join(parts)`. */
  function Join(parts: seq<string>, sep: char): string
  {
    if parts == [] then ""
    else if |parts| == 1 then parts[0]
    else parts[0] + [sep] + Join(parts[1..], sep)
  }

  lemma {:induction false} SplitWhole(s: string, sep: char)
    requires sep !in s
    ensures Split(s, sep) == [s]
  {
    if s != [] {
      SplitWhole(s[1..], sep);
      assert s == [s[0]] + s[1..];
    }
  }

  lemma {:induction false} SplitAt(a: string, b: string, sep: char)
    ensures Split(a + [sep] + b, sep) == Split(a, sep) + Split(b, sep)
  {
    SplitTail(a, b, sep);
    if a != [] {
      SplitAt(a[1..], b, sep);
      if a[0] != sep { PrependConcat(a[0], Split(a[1..], sep), Split(b, sep)); }
    }
  }

  lemma SplitTail(a: string, b: string, sep: char)
    ensures var s := a + [sep] + b;
            s[0] == (if a == [] then sep else a[0]) && s[1..] == if a == [] then b else a[1..] + [sep] + b
  {
    TailOfConcat(a, [sep] + b);
    Associate(a, [sep], b);
    if a != [] { Associate(a[1..], [sep], b); }
  }

  lemma TailOfConcat(a: string, b: string)
    requires a != [] || b != []
    ensures (a + b)[0] == if a == [] then b[0] else a[0]
    ensures (a + b)[1..] == if a == [] then b[1..] else a[1..] + b
    ensures a != [] ==> a + b == [a[0]] + (a[1..] + b)
  {
  }

  lemma Associate<T>(a: seq<T>, b: seq<T>, c: seq<T>)
    ensures (a + b) + c == a + (b + c)
  {
  }

  lemma {:induction false} SplitJoin(parts: seq<string>, sep: char)
    requires parts != [] && forall i :: 0 <= i < |parts| ==> sep !in parts[i]
    ensures Split(Join(parts, sep), sep) == parts
  {
    SplitWhole(parts[0], sep);
    if |parts| > 1 {
      SplitJoin(parts[1..], sep);
      SplitAt(parts[0], Join(parts[1..], sep), sep);
    }
  }

  lemma {:induction false} SplitHasNoSep(s: string, sep: char)
    ensures forall i :: 0 <= i < |Split(s, sep)| ==> sep !in Split(s, sep)[i]
  {
    if s != [] { SplitHasNoSep(s[1..], sep); }
  }

  lemma InPrefix(keys: seq<string>, k: nat, s: string)
    requires 0 < k <= |keys|
    ensures s in keys[..k] <==> s in keys[..k - 1] || s == keys[k - 1]
  {
    assert keys[..k] == keys[..k - 1] + [keys[k - 1]];
  }
}

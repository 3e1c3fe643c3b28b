/** `extract_mappings` after its query: parse the rows, group the formulas by
    Linux name, and let `pick_winner` choose. */
module Extraction {
  import opened Text
  import opened Formulas
  import opened Selection

  /** A Linux name and a formula it may stand for. */
  datatype Row = Row(linux: string, brew: string)

  type Buckets = map<string, seq<string>>

  // ------------------------------------------------------------ reading rows

  predicate IsSpace(c: char)
  {
    c == ' ' || '\t' <= c <= '\r' || '\U{1C}' <= c <= '\U{1F}'
  }

  function StripLeft(s: string): (r: string)
    ensures r != [] ==> !IsSpace(r[0])
  {
    if s != [] && IsSpace(s[0]) then StripLeft(s[1..]) else s
  }

  function StripRight(s: string): string
  {
    if s != [] && IsSpace(s[|s| - 1]) then StripRight(s[..|s| - 1]) else s
  }

  /** `s.strip()` on ASCII text. */
  function Strip(s: string): string
  {
    StripRight(StripLeft(s))
  }

  /** `line.split("|", 1)`, the row if it has two non-blank parts. */
  function ParseRow(line: string): Option<Row>
  {
    match FindBar(line, 0)
    case None => None
    case Some(i) =>
      var linux, brew := Strip(line[..i]), Strip(line[i + 1..]);
      if linux == "" || brew == "" then None else Some(Row(linux, brew))
  }

  function FindBar(line: string, from: nat): (r: Option<nat>)
    requires from <= |line|
    ensures r.Some? ==> r.value < |line|
    decreases |line| - from
  {
    if from == |line| then None
    else if line[from] == '|' then Some(from)
    else FindBar(line, from + 1)
  }

  /** The rows of the well-formed lines, in order. */
  function RowsOf(lines: seq<string>): seq<Row>
  {
    if lines == [] then []
    else
      match ParseRow(lines[|lines| - 1])
      case Some(row) => RowsOf(lines[..|lines| - 1]) + [row]
      case None => RowsOf(lines[..|lines| - 1])
  }

  /** No blank at either end. */
  ghost predicate Trimmed(s: string)
  {
    s != "" && !IsSpace(s[0]) && !IsSpace(s[|s| - 1])
  }

  lemma {:induction false} BarFound(front: string, back: string, from: nat)
    requires '|' !in front && from <= |front|
    ensures FindBar(front + "|" + back, from) == Some(|front|)
    decreases |front| - from
  {
    var line := front + "|" + back;
    if from < |front| {
      assert line[from] == front[from];
      BarFound(front, back, from + 1);
    }
  }

  /** A printed pair is read back as that pair. */
  lemma RowRoundTrip(row: Row)
    requires Trimmed(row.linux) && Trimmed(row.brew) && '|' !in row.linux
    ensures ParseRow(row.linux + "|" + row.brew) == Some(row)
  {
    var line := row.linux + "|" + row.brew;
    BarFound(row.linux, row.brew, 0);
    assert line[..|row.linux|] == row.linux && line[|row.linux| + 1..] == row.brew;
  }

  ghost predicate Blank(s: string, from: nat, to: nat)
    requires from <= to <= |s|
  {
    forall i :: from <= i < to ==> IsSpace(s[i])
  }

  /** `s` is `t` with nothing but blanks around it. */
  ghost predicate Padded(s: string, t: string)
  {
    exists i, j :: 0 <= i <= j <= |s| && PaddedAt(s, t, i, j)
  }

  ghost predicate PaddedAt(s: string, t: string, i: nat, j: nat)
    requires i <= j <= |s|
  {
    s[i..j] == t && Blank(s, 0, i) && Blank(s, j, |s|)
  }

  lemma {:induction false} StripLeftAt(s: string) returns (i: nat)
    ensures i <= |s| && StripLeft(s) == s[i..] && Blank(s, 0, i)
  {
    if s != [] && IsSpace(s[0]) {
      var k := StripLeftAt(s[1..]);
      i := k + 1;
      assert s[1..][k..] == s[i..];
      forall m | 0 < m < i ensures IsSpace(s[m]) { assert s[1..][m - 1] == s[m]; }
    } else {
      i := 0;
    }
  }

  lemma {:induction false} StripRightAt(s: string) returns (j: nat)
    ensures j <= |s| && StripRight(s) == s[..j] && Blank(s, j, |s|)
    ensures j > 0 ==> !IsSpace(s[j - 1])
  {
    if s != [] && IsSpace(s[|s| - 1]) {
      j := StripRightAt(s[..|s| - 1]);
      assert s[..|s| - 1][..j] == s[..j];
    } else {
      j := |s|;
    }
  }

  /** Stripping takes off the blanks at the ends, and no more. */
  lemma StripPads(s: string)
    ensures Padded(s, Strip(s)) && (Strip(s) != "" ==> Trimmed(Strip(s)))
  {
    var i := StripLeftAt(s);
    var j := StripRightAt(s[i..]);
    assert s[i..i + j] == s[i..][..j];
    forall m | i + j <= m < |s| ensures IsSpace(s[m]) { assert s[i..][m - i] == s[m]; }
    assert PaddedAt(s, Strip(s), i, i + j);
  }

  lemma PaddingIsUnique(s: string, t: string, u: string)
    requires Padded(s, t) && Trimmed(t) && Padded(s, u) && (u != "" ==> Trimmed(u))
    ensures t == u
  {
    var i, j :| 0 <= i <= j <= |s| && PaddedAt(s, t, i, j);
    var k, l :| 0 <= k <= l <= |s| && PaddedAt(s, u, k, l);
    NotInPadding(s, t, i, j, k, l);
    if u != "" {
      NotInPadding(s, u, k, l, i, j);
    }
  }

  /** The first and last character of a trimmed text lie outside all padding. */
  lemma NotInPadding(s: string, t: string, i: nat, j: nat, k: nat, l: nat)
    requires i <= j <= |s| && k <= l <= |s| && Trimmed(t) && s[i..j] == t
    requires Blank(s, 0, k) && Blank(s, l, |s|)
    ensures k <= i && j <= l
  {
    assert s[i] == t[0] && s[j - 1] == t[|t| - 1];
  }

  ghost predicate FirstBar(line: string, k: nat)
  {
    k < |line| && line[k] == '|' && forall i :: 0 <= i < k ==> line[i] != '|'
  }

  lemma {:induction false} FindBarIs(line: string, from: nat)
    requires from <= |line| && forall i :: 0 <= i < from ==> line[i] != '|'
    ensures match FindBar(line, from)
            case Some(k) => FirstBar(line, k)
            case None => forall i :: 0 <= i < |line| ==> line[i] != '|'
    decreases |line| - from
  {
    if from < |line| && line[from] != '|' { FindBarIs(line, from + 1); }
  }

  /** The row has the texts around the bar, without the blanks around them. */
  ghost predicate RowAt(line: string, k: nat, row: Row)
  {
    && FirstBar(line, k)
    && Padded(line[..k], row.linux) && Trimmed(row.linux)
    && Padded(line[k + 1..], row.brew) && Trimmed(row.brew)
  }

  /** Which lines are rows, and of what: those whose text before and after the
      first bar is not blank, each without the blanks around it. */
  lemma RowIff(line: string, row: Row)
    ensures ParseRow(line) == Some(row) <==> exists k :: RowAt(line, k, row)
  {
    FindBarIs(line, 0);
    match FindBar(line, 0) {
      case None =>
      case Some(k) =>
        assert forall i :: RowAt(line, i, row) ==> i == k;
        RowAtIff(line, k, row);
    }
  }

  lemma RowAtIff(line: string, k: nat, row: Row)
    requires FirstBar(line, k)
    ensures RowAt(line, k, row) <==>
            row == Row(Strip(line[..k]), Strip(line[k + 1..])) && row.linux != "" && row.brew != ""
  {
    StripPads(line[..k]);
    StripPads(line[k + 1..]);
    if RowAt(line, k, row) {
      PaddingIsUnique(line[..k], row.linux, Strip(line[..k]));
      PaddingIsUnique(line[k + 1..], row.brew, Strip(line[k + 1..]));
    }
  }

  // ---------------------------------------------------------------- grouping

  /** `candidates.setdefault(linux, [])`, then append if not yet there. */
  function AddRow(buckets: Buckets, row: Row): Buckets
  {
    var bucket := if row.linux in buckets then buckets[row.linux] else [];
    buckets[row.linux := if row.brew in bucket then bucket else bucket + [row.brew]]
  }

  function Group(rows: seq<Row>): (r: Buckets)
    ensures forall name :: name in r ==> r[name] != []
  {
    if rows == [] then map[] else AddRow(Group(rows[..|rows| - 1]), rows[|rows| - 1])
  }

  /** The formulas listed for one name. */
  function Bucket(rows: seq<Row>, name: string): seq<string>
  {
    var buckets := Group(rows);
    if name in buckets then buckets[name] else []
  }

  /** The mapping the rows give: one winner for every name. */
  function Mapping(rows: seq<Row>, index: AliasIndex): map<string, string>
  {
    var buckets := Group(rows);
    map name | name in buckets :: Winner(buckets[name], name, index).value
  }

  method InsertRow(buckets: Buckets, row: Row) returns (candidates: Buckets)
    ensures candidates == AddRow(buckets, row)
  {
    candidates := buckets;
    if row.linux !in candidates {
      candidates := candidates[row.linux := []];
    }
    var bucket := candidates[row.linux];
    if row.brew !in bucket {
      candidates := candidates[row.linux := bucket + [row.brew]];
    }
  }

  lemma GroupSnoc(rows: seq<Row>, row: Row)
    ensures Group(rows + [row]) == AddRow(Group(rows), row)
  {
    assert (rows + [row])[..|rows|] == rows;
  }

  method GroupRows(lines: seq<string>) returns (candidates: Buckets)
    ensures candidates == Group(RowsOf(lines))
  {
    candidates := map[];
    for i := 0 to |lines|
      invariant candidates == Group(RowsOf(lines[..i]))
    {
      assert lines[..i + 1][..i] == lines[..i];
      match ParseRow(lines[i])
      case None =>
      case Some(row) =>
        candidates := InsertRow(candidates, row);
        GroupSnoc(RowsOf(lines[..i]), row);
    }
    assert lines[..|lines|] == lines;
  }

  /** The dictionary comprehension visits the names in any order. */
  method ExtractMappings(lines: seq<string>, index: AliasIndex) returns (mapping: map<string, string>)
    ensures mapping == Mapping(RowsOf(lines), index)
  {
    var candidates := GroupRows(lines);
    mapping := map[];
    var todo := candidates.Keys;
    while todo != {}
      invariant todo <= candidates.Keys
      invariant forall n :: n in mapping <==> n in candidates && n !in todo
      invariant forall n :: n in mapping ==> mapping[n] == Winner(candidates[n], n, index).value
      decreases |todo|
    {
      var name :| name in todo;
      var winner := PickWinner(candidates[name], name, index);
      mapping := mapping[name := winner.value];
      todo := todo - {name};
    }
  }

  // ---------------------------------------------- what decides the mapping

  /** The formulas that some row pairs with the name. */
  ghost function Brews(rows: set<Row>, name: string): set<string>
  {
    set row | row in rows && row.linux == name :: row.brew
  }

  lemma {:induction false} BucketIsBrews(rows: seq<Row>, name: string)
    ensures Distinct(Bucket(rows, name))
    ensures Elements(Bucket(rows, name)) == Brews(Elements(rows), name)
    ensures name in Group(rows) <==> Brews(Elements(rows), name) != {}
    ensures name in Group(rows) ==> Bucket(rows, name) != []
  {
    if rows != [] {
      var front, row := rows[..|rows| - 1], rows[|rows| - 1];
      BucketIsBrews(front, name);
      assert Elements(rows) == Elements(front) + {row};
      var old_ := Bucket(front, name);
      assert Elements(old_ + [row.brew]) == Elements(old_) + {row.brew};
      if row.linux == name {
        assert Brews(Elements(rows), name) == Brews(Elements(front), name) + {row.brew};
        assert row.brew in Brews(Elements(rows), name);
      } else {
        assert Brews(Elements(rows), name) == Brews(Elements(front), name);
      }
    } else {
      assert Brews(Elements(rows), name) == {};
    }
  }

  /** No name's candidates leave two spellings of the same highest version. */
  ghost predicate NoTies(rows: set<Row>, index: AliasIndex)
  {
    forall name: string :: !TopTie(CanonicalSet(Brews(rows, name), index), name, index)
  }

  /** Row order and repeats are irrelevant: the set of pairs decides. */
  lemma SameRowsSameMapping(rows: seq<Row>, other: seq<Row>, index: AliasIndex)
    requires Elements(rows) == Elements(other) && NoTies(Elements(rows), index)
    ensures Mapping(rows, index) == Mapping(other, index)
  {
    forall name: string
      ensures name in Group(rows) <==> name in Group(other)
      ensures Winner(Bucket(rows, name), name, index) == Winner(Bucket(other, name), name, index)
    {
      BucketIsBrews(rows, name);
      BucketIsBrews(other, name);
      SameSetSameWinner(Bucket(rows, name), Bucket(other, name), name, index);
    }
    assert Mapping(rows, index).Keys == Mapping(other, index).Keys;
    forall name | name in Mapping(rows, index)
      ensures Mapping(rows, index)[name] == Mapping(other, index)[name]
    {
      assert Winner(Bucket(rows, name), name, index) == Winner(Bucket(other, name), name, index);
    }
  }

  lemma {:induction false} FirstRowLeads(rows: seq<Row>)
    requires rows != []
    ensures Bucket(rows, rows[0].linux) != [] && Bucket(rows, rows[0].linux)[0] == rows[0].brew
  {
    if |rows| > 1 {
      FirstRowLeads(rows[..|rows| - 1]);
    } else {
      assert rows[..|rows| - 1] == [];
      assert Group(rows) == AddRow(map[], rows[0]);
    }
  }

  lemma MoveToFront(rows: seq<Row>, i: nat) returns (other: seq<Row>)
    requires i < |rows|
    ensures multiset(other) == multiset(rows) && Elements(other) == Elements(rows)
    ensures other != [] && other[0] == rows[i]
  {
    other := [rows[i]] + rows[..i] + rows[i + 1..];
    assert rows == rows[..i] + [rows[i]] + rows[i + 1..];
    SameMultisetSameElements(other, rows);
  }

  lemma SameMultisetSameElements(a: seq<Row>, b: seq<Row>)
    requires multiset(a) == multiset(b)
    ensures Elements(a) == Elements(b)
  {
    forall row ensures row in a <==> row in b {
      assert row in a <==> row in multiset(a);
      assert row in b <==> row in multiset(b);
    }
  }

  /** The rows can be reordered so that a given formula leads its name's bucket. */
  lemma LeadWith(rows: seq<Row>, name: string, x: string) returns (other: seq<Row>)
    requires x in Bucket(rows, name)
    ensures multiset(other) == multiset(rows)
    ensures name in Group(other) && Bucket(other, name)[0] == x
    ensures Elements(Bucket(other, name)) == Elements(Bucket(rows, name))
    ensures |Bucket(other, name)| == |Elements(Bucket(rows, name))|
  {
    BucketIsBrews(rows, name);
    assert x in Elements(Bucket(rows, name));
    var row :| row in Elements(rows) && row.linux == name && row.brew == x;
    var i :| 0 <= i < |rows| && rows[i] == row;
    other := MoveToFront(rows, i);
    BucketIsBrews(other, name);
    FirstRowLeads(other);
    DistinctLength(Bucket(other, name));
  }

  /** A tie leaves a reordering of the rows with a different mapping. */
  lemma TieMakesRowOrderMatter(rows: seq<Row>, index: AliasIndex, name: string) returns (other: seq<Row>)
    requires TopTie(CanonicalSet(Brews(Elements(rows), name), index), name, index)
    ensures multiset(other) == multiset(rows) && Mapping(other, index) != Mapping(rows, index)
  {
    var bucket := Bucket(rows, name);
    BucketIsBrews(rows, name);
    var x := TieMakesOrderMatter(bucket, name, index);
    other := LeadWith(rows, name, x);
    assert Winner(Bucket(other, name), name, index) != Winner(bucket, name, index);
    WinnersShow(rows, other, name, index);
  }

  lemma WinnersShow(rows: seq<Row>, other: seq<Row>, name: string, index: AliasIndex)
    requires name in Group(other)
    requires Winner(Bucket(other, name), name, index) != Winner(Bucket(rows, name), name, index)
    ensures Mapping(other, index) != Mapping(rows, index)
  {
    if name in Group(rows) {
      assert Mapping(other, index)[name] != Mapping(rows, index)[name];
    } else {
      assert name in Mapping(other, index) && name !in Mapping(rows, index);
    }
  }

  /** The mapping is independent of the row order exactly when there is no tie. */
  lemma OrderIrrelevantIffNoTies(rows: seq<Row>, index: AliasIndex)
    ensures NoTies(Elements(rows), index) <==>
            forall other :: multiset(other) == multiset(rows) ==> Mapping(other, index) == Mapping(rows, index)
  {
    if NoTies(Elements(rows), index) {
      forall other | multiset(other) == multiset(rows)
        ensures Mapping(other, index) == Mapping(rows, index)
      {
        SameMultisetSameElements(other, rows);
        SameRowsSameMapping(rows, other, index);
      }
    } else {
      var name: string :| TopTie(CanonicalSet(Brews(Elements(rows), name), index), name, index);
      var other := TieMakesRowOrderMatter(rows, index, name);
    }
  }

  // ---------------------------------------------------------------- an example

  const NODE: AliasIndex := map["node" := "node"]

  lemma NodeMajors()
    ensures IsMajorOf("node@8", "node") && MajorNumber("node@8", "node") == 8
    ensures IsMajorOf("node@08", "node") && MajorNumber("node@08", "node") == 8
    ensures !IsMajorOf("node", "node") && !Versioned("node")
  {
    assert "node@8"[..5] == "node@" && "node@8"[5..] == "8" && "8"[..0] == "";
    assert "node@08"[..5] == "node@" && "node@08"[5..] == "08" && "08"[..1] == "0" && "0"[..0] == "";
    assert DigitsValue("8") == 8 && DigitsValue("0") == 0 && DigitsValue("08") == 8;
  }

  /** `node@8` and `node@08` tie for the Linux name `node`. */
  lemma NodesTie()
    ensures TopMajor({"node", "node@8", "node@08"}, "node", "node@8")
    ensures TopMajor({"node", "node@8", "node@08"}, "node", "node@08")
    ensures ResolvesTo("node", NODE, {"node", "node@8", "node@08"}, "node")
    ensures TopTie({"node", "node@8", "node@08"}, "node", NODE)
  {
    NodeMajors();
    assert |"node@8"| != |"node@08"|;
    TieOf({"node", "node@8", "node@08"}, "node", NODE, "node", "node@8", "node@08");
  }

  lemma TieOf(cs: set<string>, name: string, index: AliasIndex, base: string, a: string, b: string)
    requires ResolvesTo(name, index, cs, base) && !Versioned(base)
    requires TopMajor(cs, base, a) && TopMajor(cs, base, b) && a != b
    ensures TopTie(cs, name, index)
  {
  }

  /** So the same three rows in another order give another mapping. */
  lemma NodeRowsDiffer()
    ensures var rows := [Row("node", "node@8"), Row("node", "node@08"), Row("node", "node")];
            var other := [Row("node", "node@08"), Row("node", "node@8"), Row("node", "node")];
            && multiset(rows) == multiset(other)
            && Mapping(rows, NODE) == map["node" := "node@8"]
            && Mapping(other, NODE) == map["node" := "node@08"]
  {
    NodesTie();
    NodeMajors();
    var eight, other := "node@8", "node@08";
    assert |"node"| == 4 && |eight| == 6 && |other| == 7;
    ThreeRows("node", eight, other, NODE);
    assert {"node", eight, other} == {"node", other, eight};
    ThreeRows("node", other, eight, NODE);
    Swapped(Row("node", eight), Row("node", other), Row("node", "node"));
  }

  lemma Swapped(a: Row, b: Row, c: Row)
    ensures multiset([a, b, c]) == multiset([b, a, c])
  {
  }

  /** Of two majors that tie, the first listed wins. */
  lemma ThreeRows(name: string, x: string, y: string, index: AliasIndex)
    requires x != y && x != name && y != name
    requires Canonical(index, name) == name && Canonical(index, x) == x && Canonical(index, y) == y
    requires ResolvesTo(name, index, {name, x, y}, name) && !Versioned(name) && TopMajor({name, x, y}, name, x)
    ensures Mapping([Row(name, x), Row(name, y), Row(name, name)], index) == map[name := x]
  {
    var a, b := Row(name, x), Row(name, y);
    FirstRow(name, x);
    OneMoreRow([a], name, [x], y);
    assert [a] + [b] == [a, b] && [x] + [y] == [x, y];
    OneMoreRow([a, b], name, [x, y], name);
    assert [a, b] + [Row(name, name)] == [a, b, Row(name, name)] && [x, y] + [name] == [x, y, name];
    FirstOfThreeWins(name, x, y, index);
  }

  lemma FirstRow(name: string, x: string)
    ensures Group([Row(name, x)]) == map[name := [x]]
  {
    var none: seq<Row> := [];
    GroupSnoc(none, Row(name, x));
    assert none + [Row(name, x)] == [Row(name, x)];
    var empty: seq<string> := [];
    assert Group(none) == map[] && empty + [x] == [x];
  }

  lemma OneMoreRow(rows: seq<Row>, name: string, xs: seq<string>, y: string)
    requires Group(rows) == map[name := xs] && y !in xs
    ensures Group(rows + [Row(name, y)]) == map[name := xs + [y]]
  {
    GroupSnoc(rows, Row(name, y));
  }

  lemma FirstOfThreeWins(name: string, x: string, y: string, index: AliasIndex)
    requires Canonical(index, name) == name && Canonical(index, x) == x && Canonical(index, y) == y
    requires ResolvesTo(name, index, {name, x, y}, name) && !Versioned(name) && TopMajor({name, x, y}, name, x)
    ensures Winner([x, y, name], name, index) == Some(x)
  {
    ThreeElements(x, y, name);
    OwnCanonicals({name, x, y}, index);
    FirstTopMajorWins([x, y, name], name, index, name);
  }

  lemma ThreeElements(x: string, y: string, z: string)
    ensures Elements([x, y, z]) == {z, x, y}
  {
    var s := [x, y, z];
    assert s[0] == x && s[1] == y && s[2] == z;
  }

  lemma OwnCanonicals(cs: set<string>, index: AliasIndex)
    requires forall c :: c in cs ==> Canonical(index, c) == c
    ensures CanonicalSet(cs, index) == cs
  {
    forall c | c in cs ensures c in CanonicalSet(cs, index) { assert Canonical(index, c) == c; }
  }
}

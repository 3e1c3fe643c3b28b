/** Path templates of the generated Go client: placeholders replaced one after the
    other by percent-encoded parameters. */
module UrlTemplate {
  import opened Text

  /** A Go string: its characters stand for bytes. */
  type GoString = s: string | forall i :: 0 <= i < |s| ==> s[i] as int < 256

  // ---------------------------------------------------------- url.PathEscape

  /** Bytes that may stand for themselves in a path segment. */
  predicate Plain(c: char)
  {
    || 'a' <= c <= 'z' || 'A' <= c <= 'Z' || '0' <= c <= '9'
    || c == '-' || c == '_' || c == '.' || c == '~'
    || c == '$' || c == '&' || c == '+' || c == ':' || c == '=' || c == '@'
  }

  function HexDigit(n: nat): char
    requires n < 16
  {
    if n < 10 then '0' + n as char else 'A' + (n - 10) as char
  }

  function Escape(c: char): string
    requires c as int < 256
  {
    if Plain(c) then [c] else ['%', HexDigit(c as int / 16), HexDigit(c as int % 16)]
  }

  function PathEscape(s: GoString): string
  {
    if s == [] then [] else Escape(s[0]) + PathEscape(s[1..])
  }

  // ----------------------------------- decoding, section 2.1 of RFC 3986

  function HexValue(c: char): Option<nat>
  {
    if '0' <= c <= '9' then Some(c as int - '0' as int)
    else if 'A' <= c <= 'F' then Some(c as int - 'A' as int + 10)
    else if 'a' <= c <= 'f' then Some(c as int - 'a' as int + 10)
    else None
  }

  lemma HexRoundTrip(n: nat)
    requires n < 16
    ensures HexValue(HexDigit(n)) == Some(n)
  {
  }

  function Decode(s: string): Option<string>
  {
    if s == [] then Some("")
    else if s[0] != '%' then
      match Decode(s[1..])
      case None => None
      case Some(rest) => Some([s[0]] + rest)
    else if |s| < 3 then None
    else
      match (HexValue(s[1]), HexValue(s[2]), Decode(s[3..]))
      case (Some(hi), Some(lo), Some(rest)) => Some([(16 * hi + lo) as char] + rest)
      case _ => None
  }

  /** Decoding recovers every parameter. */
  lemma {:induction false} DecodeEscape(s: GoString)
    ensures Decode(PathEscape(s)) == Some(s)
  {
    if s != [] {
      DecodeEscape(s[1..]);
      var c, rest := s[0], PathEscape(s[1..]);
      var path := Escape(c) + rest;
      if Plain(c) {
        assert path[1..] == rest;
      } else {
        HexRoundTrip(c as int / 16);
        HexRoundTrip(c as int % 16);
        assert path[3..] == rest;
        assert (16 * (c as int / 16) + c as int % 16) as char == c;
      }
      assert s == [c] + s[1..];
    }
  }

  /** Neither a brace nor a slash survives the encoding. */
  lemma {:induction false} EscapeIsInert(s: GoString)
    ensures '{' !in PathEscape(s) && '}' !in PathEscape(s) && '/' !in PathEscape(s)
  {
    if s != [] {
      EscapeIsInert(s[1..]);
      assert '{' !in Escape(s[0]) && '}' !in Escape(s[0]) && '/' !in Escape(s[0]);
    }
  }

  // --------------------------------------------------------- strings.Replace

  /** `strings.Replace(s, old, new, -1)`: leftmost, not overlapping. */
  function ReplaceAll(s: string, what: string, text: string): string
    requires what != []
    decreases |s|
  {
    if |s| < |what| then s
    else if s[..|what|] == what then text + ReplaceAll(s[|what|..], what, text)
    else [s[0]] + ReplaceAll(s[1..], what, text)
  }

  function Placeholder(name: string): string
  {
    "{" + name + "}"
  }

  predicate BraceFree(s: string) { '{' !in s && '}' !in s }

  /** A template: fixed text and named holes. */
  datatype Part = Lit(text: string) | Hole(name: string)

  predicate Proper(parts: seq<Part>)
  {
    forall i :: 0 <= i < |parts| ==> match parts[i] case Lit(t) => BraceFree(t) case Hole(n) => BraceFree(n)
  }

  function RenderPart(p: Part): string
  {
    match p case Lit(t) => t case Hole(n) => Placeholder(n)
  }

  function Render(parts: seq<Part>): string
  {
    if parts == [] then "" else RenderPart(parts[0]) + Render(parts[1..])
  }

  /** Fill one hole everywhere. */
  function FillPart(p: Part, name: string, value: string): Part
  {
    if p == Hole(name) then Lit(value) else p
  }

  function Fill(parts: seq<Part>, name: string, value: string): (r: seq<Part>)
    ensures |r| == |parts| && forall i :: 0 <= i < |parts| ==> r[i] == FillPart(parts[i], name, value)
  {
    if parts == [] then [] else [FillPart(parts[0], name, value)] + Fill(parts[1..], name, value)
  }

  lemma {:induction false} ReplaceSkips(front: string, rest: string, name: string, text: string)
    requires '{' !in front
    ensures ReplaceAll(front + rest, Placeholder(name), text) == front + ReplaceAll(rest, Placeholder(name), text)
  {
    var what, s := Placeholder(name), front + rest;
    if front == [] {
      assert s == rest;
    } else {
      ReplaceSkips(front[1..], rest, name, text);
      TailOfConcat(front, rest);
      assert what[0] == '{';
      assert |s| >= |what| ==> s[..|what|][0] == s[0];
      NoMatchHere(s, what, text);
      TailOfConcat(front, ReplaceAll(rest, what, text));
    }
  }

  lemma ReplaceHit(rest: string, name: string, text: string)
    ensures ReplaceAll(Placeholder(name) + rest, Placeholder(name), text) ==
            text + ReplaceAll(rest, Placeholder(name), text)
  {
    var s, what := Placeholder(name) + rest, Placeholder(name);
    assert s[..|what|] == what && s[|what|..] == rest;
  }

  lemma DifferentHole(other: string, rest: string, name: string)
    requires BraceFree(other) && BraceFree(name) && other != name
    ensures var s, what := Placeholder(other) + rest, Placeholder(name);
            |s| < |what| || s[..|what|] != what
  {
    var s, what := Placeholder(other) + rest, Placeholder(name);
    if |s| >= |what| {
      var i := FirstDifference(other, name);
      assert s[i + 1] == (other + "}")[i] && what[i + 1] == (name + "}")[i];
      assert s[..|what|][i + 1] != what[i + 1];
    }
  }

  lemma FirstDifference(a: string, b: string) returns (i: nat)
    requires BraceFree(a) && BraceFree(b) && a != b
    ensures i < |a + "}"| && i < |b + "}"| && (a + "}")[i] != (b + "}")[i]
  {
    if |a| < |b| {
      i := |a|;
    } else if |b| < |a| {
      i := |b|;
    } else {
      i :| 0 <= i < |a| && a[i] != b[i];
    }
  }

  lemma ReplaceMiss(other: string, rest: string, name: string, text: string)
    requires BraceFree(other) && BraceFree(name) && other != name
    ensures ReplaceAll(Placeholder(other) + rest, Placeholder(name), text) ==
            Placeholder(other) + ReplaceAll(rest, Placeholder(name), text)
  {
    var s, what := Placeholder(other) + rest, Placeholder(name);
    DifferentHole(other, rest, name);
    NoMatchHere(s, what, text);
    var tail := other + "}";
    assert s[1..] == tail + rest;
    ReplaceSkips(tail, rest, name, text);
    assert Placeholder(other) == "{" + tail;
  }

  lemma NoMatchHere(s: string, what: string, text: string)
    requires s != [] && what != [] && (|s| < |what| || s[..|what|] != what)
    ensures ReplaceAll(s, what, text) == [s[0]] + ReplaceAll(s[1..], what, text)
  {
  }

  /** One textual replacement fills one hole of the template. */
  lemma {:induction false} ReplaceFills(parts: seq<Part>, name: string, value: string)
    requires Proper(parts) && BraceFree(name)
    ensures ReplaceAll(Render(parts), Placeholder(name), value) == Render(Fill(parts, name, value))
  {
    if parts != [] {
      var rest := Render(parts[1..]);
      ReplaceFills(parts[1..], name, value);
      match parts[0] {
        case Lit(t) => ReplaceSkips(t, rest, name, value);
        case Hole(n) =>
          if n == name { ReplaceHit(rest, name, value); } else { ReplaceMiss(n, rest, name, value); }
      }
    }
  }

  // -------------------------------------------------- many parameters

  /** A parameter as the client substitutes it. */
  datatype Param = Param(name: string, value: GoString)

  /** The successive assignments to `localVarPath`. */
  function Substitute(path: string, params: seq<Param>): string
  {
    if params == [] then path
    else
      var last := params[|params| - 1];
      ReplaceAll(Substitute(path, params[..|params| - 1]), Placeholder(last.name), PathEscape(last.value))
  }

  method SubstituteAll(template: string, params: seq<Param>) returns (localVarPath: string)
    ensures localVarPath == Substitute(template, params)
  {
    localVarPath := template;
    for i := 0 to |params|
      invariant localVarPath == Substitute(template, params[..i])
    {
      assert params[..i + 1][..i] == params[..i];
      localVarPath := ReplaceAll(localVarPath, Placeholder(params[i].name), PathEscape(params[i].value));
    }
    assert params[..|params|] == params;
  }

  ghost predicate DistinctNames(params: seq<Param>)
  {
    && (forall i, j :: 0 <= i < j < |params| ==> params[i].name != params[j].name)
    && (forall i :: 0 <= i < |params| ==> BraceFree(params[i].name))
  }

  /** All holes filled at once: each by the parameter of its name. */
  ghost predicate FilledBy(parts: seq<Part>, params: seq<Param>, r: seq<Part>)
  {
    && |r| == |parts|
    && forall i :: 0 <= i < |parts| ==> PartFilledBy(parts[i], params, r[i])
  }

  ghost predicate PartFilledBy(p: Part, params: seq<Param>, r: Part)
  {
    match p
    case Lit(_) => r == p
    case Hole(n) =>
      && (forall k :: 0 <= k < |params| && params[k].name == n ==> r == Lit(PathEscape(params[k].value)))
      && ((forall k :: 0 <= k < |params| ==> params[k].name != n) ==> r == p)
  }

  /** Substituting one parameter after the other is filling all holes at once, for
      any number of parameters: no substituted text is ever substituted again. */
  lemma {:induction false} SequentialIsSimultaneous(parts: seq<Part>, params: seq<Param>) returns (r: seq<Part>)
    requires Proper(parts) && DistinctNames(params)
    ensures Proper(r) && FilledBy(parts, params, r) && Substitute(Render(parts), params) == Render(r)
  {
    if params == [] {
      r := parts;
    } else {
      var front, last := params[..|params| - 1], params[|params| - 1];
      var before := SequentialIsSimultaneous(parts, front);
      ReplaceFills(before, last.name, PathEscape(last.value));
      r := Fill(before, last.name, PathEscape(last.value));
      FillProper(before, last);
      FilledOneMore(parts, front, last, before);
      assert params == front + [last];
    }
  }

  lemma FillProper(parts: seq<Part>, p: Param)
    requires Proper(parts)
    ensures Proper(Fill(parts, p.name, PathEscape(p.value)))
  {
    EscapeIsInert(p.value);
  }

  lemma FilledOneMore(parts: seq<Part>, front: seq<Param>, last: Param, before: seq<Part>)
    requires DistinctNames(front + [last]) && FilledBy(parts, front, before)
    ensures FilledBy(parts, front + [last], Fill(before, last.name, PathEscape(last.value)))
  {
    forall i | 0 <= i < |parts| { FilledMore(parts[i], front, last, before[i]); }
  }

  lemma FilledMore(p: Part, front: seq<Param>, last: Param, before: Part)
    requires DistinctNames(front + [last]) && PartFilledBy(p, front, before)
    ensures PartFilledBy(p, front + [last], FillPart(before, last.name, PathEscape(last.value)))
  {
    var params := front + [last];
    assert forall k :: 0 <= k < |front| ==> params[k] == front[k];
    assert params[|front|] == last;
    if p.Hole? {
      if k :| 0 <= k < |front| && front[k].name == p.name {
        assert before == Lit(PathEscape(front[k].value));
        assert params[k].name != params[|front|].name;
      } else {
        assert before == p;
      }
    }
  }

  lemma FilledByIsUnique(parts: seq<Part>, params: seq<Param>, other: seq<Param>, r: seq<Part>, q: seq<Part>)
    requires FilledBy(parts, params, r) && FilledBy(parts, other, q)
    requires forall p :: p in params <==> p in other
    ensures r == q
  {
    forall i | 0 <= i < |parts| ensures r[i] == q[i] {
      if parts[i].Hole? {
        var n := parts[i].name;
        if k :| 0 <= k < |params| && params[k].name == n {
          assert params[k] in other;
          var j :| 0 <= j < |other| && other[j] == params[k];
        } else {
          forall j | 0 <= j < |other| ensures other[j].name != n {
            assert other[j] in params;
          }
        }
      }
    }
  }

  /** The order of the replacements does not matter. */
  lemma OrderIrrelevant(parts: seq<Part>, params: seq<Param>, other: seq<Param>)
    requires Proper(parts) && DistinctNames(params) && DistinctNames(other)
    requires forall p :: p in params <==> p in other
    ensures Substitute(Render(parts), params) == Substitute(Render(parts), other)
  {
    var r := SequentialIsSimultaneous(parts, params);
    var q := SequentialIsSimultaneous(parts, other);
    FilledByIsUnique(parts, params, other, r, q);
  }

  // ------------------------------------------- the two-parameter end points

  /** `front/{a}/mid/{b}`. */
  function TwoHoles(front: string, a: string, mid: string, b: string): string
  {
    front + "/" + Placeholder(a) + "/" + mid + "/" + Placeholder(b)
  }

  function TwoSegments(front: string, x: string, mid: string, y: string): string
  {
    front + "/" + x + "/" + mid + "/" + y
  }

  /** A template's four parts, filled. */
  lemma FilledFour(front: string, a: string, mid: string, b: string, x: GoString, y: GoString)
    requires BraceFree(front) && BraceFree(mid) && BraceFree(a) && BraceFree(b) && a != b
    ensures Substitute(TwoHoles(front, a, mid, b), [Param(a, x), Param(b, y)]) ==
            TwoSegments(front, PathEscape(x), mid, PathEscape(y))
  {
    var first, third, params := Lit(front + "/"), Lit("/" + mid + "/"), [Param(a, x), Param(b, y)];
    RenderFour(first, Hole(a), third, Hole(b));
    SegmentsAre(front, Placeholder(a), mid, Placeholder(b));
    var r := SequentialIsSimultaneous([first, Hole(a), third, Hole(b)], params);
    FourParts([first, Hole(a), third, Hole(b)], params, r);
    RenderFourOf(r);
    SegmentsAre(front, PathEscape(x), mid, PathEscape(y));
  }

  lemma FourParts(parts: seq<Part>, params: seq<Param>, r: seq<Part>)
    requires |parts| == 4 && |params| == 2 && FilledBy(parts, params, r)
    requires parts[0].Lit? && parts[1] == Hole(params[0].name) && parts[2].Lit? && parts[3] == Hole(params[1].name)
    ensures |r| == 4 && r[0] == parts[0] && r[2] == parts[2]
    ensures r[1] == Lit(PathEscape(params[0].value)) && r[3] == Lit(PathEscape(params[1].value))
  {
    assert PartFilledBy(parts[0], params, r[0]) && PartFilledBy(parts[2], params, r[2]);
    assert PartFilledBy(parts[1], params, r[1]) && PartFilledBy(parts[3], params, r[3]);
  }

  lemma SegmentsAre(front: string, x: string, mid: string, y: string)
    ensures TwoSegments(front, x, mid, y) == (front + "/") + x + ("/" + mid + "/") + y
  {
    assert "/" + mid + "/" == "/" + (mid + "/");
  }

  lemma RenderFour(p: Part, q: Part, r: Part, t: Part)
    ensures Render([p, q, r, t]) == RenderPart(p) + RenderPart(q) + RenderPart(r) + RenderPart(t)
  {
    RenderNext(t, []);
    RenderNext(r, [t]);
    RenderNext(q, [r, t]);
    RenderNext(p, [q, r, t]);
    FourInARow(RenderPart(p), RenderPart(q), RenderPart(r), RenderPart(t));
  }

  lemma RenderFourOf(r: seq<Part>)
    requires |r| == 4
    ensures Render(r) == RenderPart(r[0]) + RenderPart(r[1]) + RenderPart(r[2]) + RenderPart(r[3])
  {
    assert r == [r[0], r[1], r[2], r[3]];
    RenderFour(r[0], r[1], r[2], r[3]);
  }

  lemma RenderNext(p: Part, rest: seq<Part>)
    ensures Render([p] + rest) == RenderPart(p) + Render(rest)
  {
  }

  lemma FourInARow(a: string, b: string, c: string, d: string)
    ensures a + (b + (c + (d + ""))) == a + b + c + d
  {
    assert d + "" == d;
  }

  // ------------------------------------------------------- any base path

  /** A placeholder has no slash, so what stands before and after one is replaced
      by itself. */
  lemma {:induction false} ReplaceAcross(front: string, rest: string, what: string, text: string)
    requires what != [] && '/' !in what
    ensures ReplaceAll(front + ("/" + rest), what, text) ==
            ReplaceAll(front, what, text) + ("/" + ReplaceAll(rest, what, text))
    decreases |front|
  {
    var s, tail := front + ("/" + rest), "/" + ReplaceAll(rest, what, text);
    MatchesAlike(front, rest, what);
    if front == [] {
      NoMatchHere(s, what, text);
      assert s == "/" + rest && s[1..] == rest;
    } else if |what| <= |front| && front[..|what|] == what {
      var more := front[|what|..];
      ReplaceAcross(more, rest, what, text);
      assert s[|what|..] == more + ("/" + rest);
      Associate(text, ReplaceAll(more, what, text), tail);
    } else {
      ReplaceAcross(front[1..], rest, what, text);
      TailOfConcat(front, "/" + rest);
      NoMatchHere(s, what, text);
      NoMatchHere(front, what, text);
      Associate([front[0]], ReplaceAll(front[1..], what, text), tail);
    }
  }

  lemma MatchesAlike(front: string, rest: string, what: string)
    requires what != [] && '/' !in what
    ensures var s := front + ("/" + rest);
            (|what| <= |s| && s[..|what|] == what) <==> (|what| <= |front| && front[..|what|] == what)
  {
    var s := front + ("/" + rest);
    if |what| <= |front| {
      assert s[..|what|] == front[..|what|];
    } else if |what| <= |s| {
      assert s[..|what|][|front|] == '/';
    }
  }

  lemma {:induction false} SubstituteAcross(front: string, rest: string, params: seq<Param>)
    requires forall i :: 0 <= i < |params| ==> '/' !in params[i].name
    ensures Substitute(front + ("/" + rest), params) == Substitute(front, params) + ("/" + Substitute(rest, params))
  {
    if params != [] {
      var last, before := params[|params| - 1], params[..|params| - 1];
      SubstituteAcross(front, rest, before);
      ReplaceAcross(Substitute(front, before), Substitute(rest, before),
                    Placeholder(last.name), PathEscape(last.value));
    }
  }

  /** The base with whatever placeholders it holds filled, and both parameters
      escaped in their segments. */
  ghost function PathFor(base: string, collection: string, a: string, mid: string, b: string, x: GoString, y: GoString)
    : string
  {
    Substitute(base, [Param(a, x), Param(b, y)]) + ("/" + TwoSegments(collection, PathEscape(x), mid, PathEscape(y)))
  }

  /** The two replacements build that path, for any base. */
  lemma BuiltPath(base: string, collection: string, a: string, mid: string, b: string, x: GoString, y: GoString)
    requires BraceFree(collection) && BraceFree(mid) && BraceFree(a) && BraceFree(b) && a != b && '/' !in a && '/' !in b
    ensures Substitute(base + ("/" + TwoHoles(collection, a, mid, b)), [Param(a, x), Param(b, y)]) ==
            PathFor(base, collection, a, mid, b, x, y)
  {
    SubstituteAcross(base, TwoHoles(collection, a, mid, b), [Param(a, x), Param(b, y)]);
    FilledFour(collection, a, mid, b, x, y);
  }

  lemma TwoSteps(path: string, p: Param, q: Param)
    ensures Substitute(path, [p, q]) ==
            ReplaceAll(ReplaceAll(path, Placeholder(p.name), PathEscape(p.value)),
                       Placeholder(q.name), PathEscape(q.value))
  {
    var both, one := [p, q], [p];
    assert both[..1] == one && one[..0] == [];
    assert Substitute(path, one) == ReplaceAll(path, Placeholder(p.name), PathEscape(p.value));
  }

  lemma RemoveMemberTemplate()
    ensures "/api/v1/groups/{id}/members/{user_id}" == "/" + TwoHoles("api/v1/groups", "id", "members", "user_id")
  {
    Prefixed("/", "api/v1/groups", Placeholder("id"), "members", Placeholder("user_id"));
    Halves("/api/v1/groups", Placeholder("id"), "members", Placeholder("user_id"));
    assert "/" + "api/v1/groups" == "/api/v1/groups";
    assert "/api/v1/groups" + "/" + Placeholder("id") == "/api/v1/groups/{id}";
    assert "/" + "members" + "/" + Placeholder("user_id") == "/members/{user_id}";
  }

  lemma GetServiceTemplate()
    ensures "/api/v1/deployments/{deployment}/services/{service}" ==
            "/" + TwoHoles("api/v1/deployments", "deployment", "services", "service")
  {
    Prefixed("/", "api/v1/deployments", Placeholder("deployment"), "services", Placeholder("service"));
    Halves("/api/v1/deployments", Placeholder("deployment"), "services", Placeholder("service"));
    GetServiceFront();
    GetServiceTail();
    GetServiceWhole();
  }

  lemma GetServiceFront()
    ensures "/" + "api/v1/deployments" == "/api/v1/deployments"
    ensures "/api/v1/deployments" + "/" + Placeholder("deployment") == "/api/v1/deployments/{deployment}"
  {
  }

  lemma GetServiceTail()
    ensures "/" + "services" + "/" + Placeholder("service") == "/services/{service}"
  {
  }

  lemma GetServiceWhole()
    ensures "/api/v1/deployments/{deployment}" + "/services/{service}" ==
            "/api/v1/deployments/{deployment}/services/{service}"
  {
  }

  lemma Halves(front: string, x: string, mid: string, y: string)
    ensures TwoSegments(front, x, mid, y) == (front + "/" + x) + ("/" + mid + "/" + y)
  {
    Associate(front + "/" + x, "/" + mid + "/", y);
    Associate(front + "/" + x, "/" + mid, "/");
    Associate(front + "/" + x, "/", mid);
  }

  lemma Prefixed(front: string, collection: string, x: string, mid: string, y: string)
    ensures front + TwoSegments(collection, x, mid, y) == TwoSegments(front + collection, x, mid, y)
  {
    Associate(front, collection + "/" + x + "/" + mid + "/", y);
    Associate(front, collection + "/" + x + "/" + mid, "/");
    Associate(front, collection + "/" + x + "/", mid);
    Associate(front, collection + "/" + x, "/");
    Associate(front, collection + "/", x);
    Associate(front, collection, "/");
  }

  /** The path of `DELETE /api/v1/groups/{id}/members/{user_id}`. */
  method RemoveMemberPath(localBasePath: string, id: GoString, userId: GoString) returns (localVarPath: string)
    ensures localVarPath == PathFor(localBasePath, "api/v1/groups", "id", "members", "user_id", id, userId)
  {
    localVarPath := localBasePath + "/api/v1/groups/{id}/members/{user_id}";
    RemoveMemberTemplate();
    TwoSteps(localVarPath, Param("id", id), Param("user_id", userId));
    BuiltPath(localBasePath, "api/v1/groups", "id", "members", "user_id", id, userId);
    localVarPath := ReplaceAll(localVarPath, Placeholder("id"), PathEscape(id));
    localVarPath := ReplaceAll(localVarPath, Placeholder("user_id"), PathEscape(userId));
  }

  /** The path of `GET /api/v1/deployments/{deployment}/services/{service}`. */
  method GetServicePath(localBasePath: string, deployment: GoString, service: GoString) returns (localVarPath: string)
    ensures localVarPath ==
            PathFor(localBasePath, "api/v1/deployments", "deployment", "services", "service", deployment, service)
  {
    localVarPath := localBasePath + "/api/v1/deployments/{deployment}/services/{service}";
    GetServiceTemplate();
    TwoSteps(localVarPath, Param("deployment", deployment), Param("service", service));
    BuiltPath(localBasePath, "api/v1/deployments", "deployment", "services", "service", deployment, service);
    localVarPath := ReplaceAll(localVarPath, Placeholder("deployment"), PathEscape(deployment));
    localVarPath := ReplaceAll(localVarPath, Placeholder("service"), PathEscape(service));
  }

  /** How many opening braces. */
  ghost function Braces(s: string): nat
  {
    multiset(s)['{']
  }

  lemma BracesConcat(a: string, b: string)
    ensures Braces(a + b) == Braces(a) + Braces(b)
  {
  }

  lemma {:induction false} ReplaceKeeps(s: string, what: string, text: string)
    requires what != [] && !Contains(s, what)
    ensures ReplaceAll(s, what, text) == s
    decreases |s|
  {
    if |s| >= |what| {
      ReplaceKeeps(s[1..], what, text);
      assert s == [s[0]] + s[1..];
    }
  }

  /** A replacement that finds its placeholder leaves fewer braces. */
  lemma {:induction false} ReplaceLoses(s: string, what: string, text: string)
    requires '{' in what && '{' !in text
    ensures Braces(ReplaceAll(s, what, text)) <= Braces(s)
    ensures Contains(s, what) ==> Braces(ReplaceAll(s, what, text)) < Braces(s)
    decreases |s|
  {
    if |s| < |what| {
      TooShort(s, what);
    } else if s[..|what|] == what {
      var rest := s[|what|..];
      ReplaceLoses(rest, what, text);
      TakenApart(s, |what|);
      BracesConcat(what, rest);
      BracesConcat(text, ReplaceAll(rest, what, text));
      assert Braces(text) == 0 < Braces(what);
    } else {
      ReplaceLoses(s[1..], what, text);
      TakenApart(s, 1);
      BracesConcat(s[..1], s[1..]);
      BracesConcat([s[0]], ReplaceAll(s[1..], what, text));
      assert s[..1] == [s[0]];
    }
  }

  lemma TakenApart(s: string, n: nat)
    requires n <= |s|
    ensures s == s[..n] + s[n..]
  {
  }

  lemma {:induction false} TooShort(hay: string, needle: string)
    requires |hay| < |needle|
    ensures !Contains(hay, needle)
  {
    if hay != [] { TooShort(hay[1..], needle); }
  }

  predicate Holds(base: string, p: Param)
  {
    Contains(base, Placeholder(p.name))
  }

  lemma {:induction false} NoneHeld(base: string, params: seq<Param>)
    requires forall i :: 0 <= i < |params| ==> !Holds(base, params[i])
    ensures Substitute(base, params) == base
  {
    if params != [] {
      var last := params[|params| - 1];
      NoneHeld(base, params[..|params| - 1]);
      ReplaceKeeps(base, Placeholder(last.name), PathEscape(last.value));
    }
  }

  lemma {:induction false} SomeHeld(base: string, params: seq<Param>, i: nat)
    requires i < |params| && Holds(base, params[i])
    ensures Braces(Substitute(base, params)) < Braces(base)
    decreases |params|
  {
    var last, before := params[|params| - 1], params[..|params| - 1];
    if k :| 0 <= k < |before| && Holds(base, before[k]) {
      SomeHeld(base, before, k);
    } else {
      NoneHeld(base, before);
      assert i == |before|;
    }
    StillFewer(base, Substitute(base, before), last);
  }

  lemma StillFewer(base: string, path: string, p: Param)
    requires Braces(path) < Braces(base) || (path == base && Holds(base, p))
    ensures Braces(ReplaceAll(path, Placeholder(p.name), PathEscape(p.value))) < Braces(base)
  {
    EscapeIsInert(p.value);
    assert Placeholder(p.name)[0] == '{';
    ReplaceLoses(path, Placeholder(p.name), PathEscape(p.value));
  }

  /** The base comes through unchanged exactly when it holds none of the
      placeholders. */
  lemma BaseKeptIff(base: string, params: seq<Param>)
    ensures Substitute(base, params) == base <==> forall i :: 0 <= i < |params| ==> !Holds(base, params[i])
  {
    if i :| 0 <= i < |params| && Holds(base, params[i]) {
      SomeHeld(base, params, i);
    } else {
      NoneHeld(base, params);
    }
  }

  /** A base that holds one of them does not come through. */
  lemma BaseIsReplaced(id: GoString, userId: GoString)
    ensures Substitute("{id}", [Param("id", id), Param("user_id", userId)]) != "{id}"
  {
    var params := [Param("id", id), Param("user_id", userId)];
    assert Placeholder("id") == "{id}" && "{id}"[..4] == "{id}";
    assert Holds("{id}", params[0]);
    BaseKeptIff("{id}", params);
  }

  // ------------------------------------------------------- the server's view

  ghost function Slashes(s: string): nat
  {
    multiset(s)['/']
  }

  lemma SlashesConcat(a: string, b: string)
    ensures Slashes(a + b) == Slashes(a) + Slashes(b)
  {
  }

  lemma {:induction false} SegmentCount(s: string)
    ensures |Split(s, '/')| == Slashes(s) + 1
  {
    if s != [] {
      SegmentCount(s[1..]);
      SlashesConcat([s[0]], s[1..]);
      assert s == [s[0]] + s[1..];
    }
  }

  lemma {:induction false} ReplaceKeepsSlashes(s: string, what: string, text: string)
    requires what != [] && '/' !in what && '/' !in text
    ensures Slashes(ReplaceAll(s, what, text)) == Slashes(s)
    decreases |s|
  {
    if |s| >= |what| {
      if s[..|what|] == what {
        var rest := s[|what|..];
        ReplaceKeepsSlashes(rest, what, text);
        SlashesConcat(what, rest);
        SlashesConcat(text, ReplaceAll(rest, what, text));
        assert s == what + rest;
      } else {
        ReplaceKeepsSlashes(s[1..], what, text);
        SlashesConcat([s[0]], s[1..]);
        SlashesConcat([s[0]], ReplaceAll(s[1..], what, text));
        assert s == [s[0]] + s[1..];
      }
    }
  }

  lemma {:induction false} SegmentsKept(base: string, params: seq<Param>)
    requires forall i :: 0 <= i < |params| ==> '/' !in params[i].name
    ensures |Split(Substitute(base, params), '/')| == |Split(base, '/')|
  {
    SegmentCount(Substitute(base, params));
    SegmentCount(base);
    if params != [] {
      var last, before := params[|params| - 1], params[..|params| - 1];
      SegmentsKept(base, before);
      SegmentCount(Substitute(base, before));
      EscapeIsInert(last.value);
      ReplaceKeepsSlashes(Substitute(base, before), Placeholder(last.name), PathEscape(last.value));
    }
  }

  /** Decoding the last segment and the last but two gives the parameters. */
  ghost predicate Recovers(path: string, mid: string, x: GoString, y: GoString)
  {
    var segments := Split(path, '/');
    var n := |segments|;
    n >= 3 && Decode(segments[n - 3]) == Some(x) && segments[n - 2] == mid && Decode(segments[n - 1]) == Some(y)
  }

  /** Whatever the base: the built path has as many segments as its template, and
      both parameters are recovered from it. */
  lemma PathRoundTrip(base: string, collection: string, a: string, mid: string, b: string, x: GoString, y: GoString)
    requires '/' !in mid && '/' !in a && '/' !in b
    ensures Recovers(PathFor(base, collection, a, mid, b, x, y), mid, x, y)
    ensures |Split(PathFor(base, collection, a, mid, b, x, y), '/')| ==
            |Split(base + ("/" + TwoHoles(collection, a, mid, b)), '/')|
  {
    EscapeIsInert(x);
    EscapeIsInert(y);
    DecodeEscape(x);
    DecodeEscape(y);
    var filled := Substitute(base, [Param(a, x), Param(b, y)]);
    SegmentsKept(base, [Param(a, x), Param(b, y)]);
    SegmentsBehind(filled, collection, PathEscape(x), mid, PathEscape(y));
    SegmentsBehind(base, collection, Placeholder(a), mid, Placeholder(b));
  }

  lemma SegmentsBehind(base: string, collection: string, x: string, mid: string, y: string)
    requires '/' !in x && '/' !in mid && '/' !in y
    ensures Split(base + ("/" + TwoSegments(collection, x, mid, y)), '/') ==
            Split(base, '/') + (Split(collection, '/') + [x, mid, y])
  {
    SegmentsOf(collection, x, mid, y);
    SplitAt(base, TwoSegments(collection, x, mid, y), '/');
    Associate(base, "/", TwoSegments(collection, x, mid, y));
  }

  lemma SegmentsOf(front: string, x: string, mid: string, y: string)
    requires '/' !in x && '/' !in mid && '/' !in y
    ensures Split(TwoSegments(front, x, mid, y), '/') == Split(front, '/') + [x, mid, y]
  {
    SplitAt(front + "/" + x + "/" + mid, y, '/');
    SplitAt(front + "/" + x, mid, '/');
    SplitAt(front, x, '/');
    SplitWhole(x, '/');
    SplitWhole(mid, '/');
    SplitWhole(y, '/');
  }

  /** Different parameters give different paths. */
  lemma PathsAreDistinct(base: string, collection: string, a: string, mid: string, b: string,
                         x: GoString, y: GoString, x': GoString, y': GoString)
    requires '/' !in mid && '/' !in a && '/' !in b
    requires PathFor(base, collection, a, mid, b, x, y) == PathFor(base, collection, a, mid, b, x', y')
    ensures x == x' && y == y'
  {
    PathRoundTrip(base, collection, a, mid, b, x, y);
    PathRoundTrip(base, collection, a, mid, b, x', y');
  }
}

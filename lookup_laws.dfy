/**
 * Consequences of `lookup` resolving exactly the stored routes: what a
 * single-route trie answers, how bindings are made and where they are
 * dropped, what lookup reports as a set, and the cases written out in the
 * repository's tests.
 */
module LookupLaws {
  import opened Edges
  import opened ParamTrie
  import opened RouteSemantics

  /** The tokens a literal-only pattern spells. */
  function Tokens(p: Path): (ts: seq<string>)
    ensures |ts| == |p|
    ensures forall i :: 0 <= i < |p| ==> ts[i] == p[i].data
  {
    seq(|p|, i requires 0 <= i < |p| => p[i].data)
  }

  /** Every segment of `p` is a literal. */
  predicate Literal(p: Path)
  {
    forall i :: 0 <= i < |p| ==> p[i].kind == Branch
  }

  // ---------------------------------------------------------------------
  // Routes of the constructions
  // ---------------------------------------------------------------------

  /** The routes of a one-child node are the child's routes behind that child's segment. */
  lemma NodeRoutes<V>(kind: Kind, data: string, child: Trie<V>)
    ensures Routes(Node(kind, data, child)) == Prefix(Segment(kind, data), Routes(child))
  {
    var n := Node(kind, data, child);
    var below := Prefix(Segment(kind, data), Routes(child));
    assert EdgeRoutes(n, n.Children(kind), kind) == below + [];
    match kind
    case Param =>
      assert Routes(n) == [] + [] + (below + []);
    case Branch =>
      assert Routes(n) == [] + (below + []) + [];
  }

  /** `t` moved below `path` stores the routes of `t` with `path` put in front of each. */
  lemma {:induction false} WrapRoutes<V>(path: Path, t: Trie<V>)
    ensures Routes(Wrap(path, t)) == PrefixPath(path, Routes(t))
    decreases |path|
  {
    if |path| == 0 {
      var rs := Routes(t);
      forall i | 0 <= i < |rs| ensures path + rs[i].pattern == rs[i].pattern {
      }
      assert PrefixPath(path, rs) == rs;
    } else {
      var s := path[0];
      WrapRoutes(path[1..], t);
      NodeRoutes(s.kind, s.data, Wrap(path[1..], t));
      assert path == [s] + path[1..];
      PrefixTwice(s, path[1..], Routes(t));
    }
  }

  lemma PrefixTwice<V>(s: Segment, q: Path, rs: seq<Route<V>>)
    ensures Prefix(s, PrefixPath(q, rs)) == PrefixPath([s] + q, rs)
  {
    forall i | 0 <= i < |rs| ensures [s] + (q + rs[i].pattern) == ([s] + q) + rs[i].pattern {
    }
  }

  /** `ofPath(p, v)` stores exactly one route: `v` under `p`. */
  lemma OfPathRoutes<V>(p: Path, v: V)
    ensures Routes(OfPath(p, v)) == [Route(p, v)]
  {
    WrapRoutes(p, Of(v));
    assert Routes(Of(v)) == [Route([], v)];
    assert p + [] == p;
  }

  // ---------------------------------------------------------------------
  // Lookup on a single route
  // ---------------------------------------------------------------------

  /**
   * `ofPath(p, v).lookup(path, ps)`: one result when `p` matches `path`,
   * carrying `v` and the bindings `p` makes; no result otherwise.
   */
  lemma LookupOfPath<V>(p: Path, v: V, path: seq<string>, ps: Bindings)
    ensures Lookup(OfPath(p, v), path, ps)
         == if Matches(p, path) then [LookupResult(v, Bind(p, path, ps))] else []
  {
    LookupSelect(OfPath(p, v), path, ps);
    OfPathRoutes(p, v);
  }

  /** A literal-only pattern binds nothing: after at least one literal the bindings are empty. */
  lemma {:induction false} BindLiteral(p: Path, path: seq<string>, ps: Bindings)
    requires |p| == |path| && |p| > 0 && Literal(p)
    ensures Bind(p, path, ps) == map[]
    decreases |p|
  {
    if |p| > 1 {
      BindLiteral(p[1..], path[1..], map[]);
    }
  }

  /** A literal-only pattern is found under its own tokens, with empty bindings. */
  lemma LiteralRoundTrip<V>(p: Path, v: V)
    requires Literal(p)
    ensures Lookup(OfPath(p, v), Tokens(p), map[]) == [LookupResult(v, map[])]
  {
    LookupOfPath(p, v, Tokens(p), map[]);
    MatchesPointwise(p, Tokens(p));
    if |p| > 0 {
      BindLiteral(p, Tokens(p), map[]);
    }
  }

  /** A single parameter segment matches any one token and binds its name to it. */
  lemma ParamRoundTrip<V>(name: string, token: string, v: V, ps: Bindings)
    ensures Lookup(OfPath([ParamSeg(name)], v), [token], ps) == [LookupResult(v, ps[name := token])]
  {
    LookupOfPath([ParamSeg(name)], v, [token], ps);
  }

  /**
   * Bindings are dropped at a literal edge: the bindings a pattern reports
   * are those made by the parameters after its last literal segment, from
   * empty bindings, whatever came before.
   */
  lemma {:induction false} BindAfterLiteral(p: Path, y: string, q: Path, path: seq<string>, ps: Bindings)
    requires |path| == |p| + 1 + |q|
    ensures Bind(p + [BranchSeg(y)] + q, path, ps) == Bind(q, path[|p| + 1..], map[])
    decreases |p|
  {
    var whole := p + [BranchSeg(y)] + q;
    if |p| == 0 {
      assert whole[1..] == q;
    } else {
      assert whole[0] == p[0];
      assert whole[1..] == p[1..] + [BranchSeg(y)] + q;
      assert path[1..][|p| - 1 + 1..] == path[|p| + 1..];
      var next := if p[0].kind == Branch then map[] else ps[p[0].data := path[0]];
      BindAfterLiteral(p[1..], y, q, path[1..], next);
    }
  }

  /** `ofPath([param x, branch y], v).lookup([a, y])` reports `v` with no bindings: `x` is dropped. */
  lemma DroppedAtLiteral<V>(x: string, y: string, a: string, v: V, ps: Bindings)
    ensures Lookup(OfPath([ParamSeg(x), BranchSeg(y)], v), [a, y], ps) == [LookupResult(v, map[])]
  {
    var p := [ParamSeg(x), BranchSeg(y)];
    LookupOfPath(p, v, [a, y], ps);
    assert p == [ParamSeg(x)] + [BranchSeg(y)] + [];
    BindAfterLiteral([ParamSeg(x)], y, [], [a, y], ps);
    assert Matches(p, [a, y]) by {
      assert p[1..] == [BranchSeg(y)];
      assert [a, y][1..] == [y];
    }
  }

  // ---------------------------------------------------------------------
  // Lookup, read as a set of matches
  // ---------------------------------------------------------------------

  /**
   * Soundness and completeness of `lookup`: a result is reported exactly when
   * some stored route matches the path and the result is that route's payload
   * with the bindings its pattern makes.
   */
  lemma LookupMembers<V>(t: Trie<V>, path: seq<string>, ps: Bindings, x: LookupResult<V>)
    requires Valid(t)
    ensures x in Lookup(t, path, ps) <==>
            exists i :: 0 <= i < |Routes(t)| && Matches(Routes(t)[i].pattern, path)
                        && x == LookupResult(Routes(t)[i].value, Bind(Routes(t)[i].pattern, path, ps))
  {
    LookupSelect(t, path, ps);
    SelectMembers(Routes(t), path, ps, x);
  }

  /** A trie that stores no route answers no lookup, however many nodes it has. */
  lemma LookupDead<V>(t: Trie<V>, path: seq<string>, ps: Bindings)
    requires Valid(t) && Routes(t) == []
    ensures Lookup(t, path, ps) == []
  {
    LookupSelect(t, path, ps);
  }

  // ---------------------------------------------------------------------
  // The cases written out in the tests
  // ---------------------------------------------------------------------

  /**
   * A literal child and two parameter children of one node: the literal
   * result first, then one result per parameter in key order, each binding
   * only its own name.
   */
  lemma LiteralBeforeParams()
    ensures Lookup(Trie([], [("bar", Of("b")), ("baz", Of("c"))], [("foo", Of("a"))]), ["foo"], map[])
         == [LookupResult("a", map[]), LookupResult("b", map["bar" := "foo"]), LookupResult("c", map["baz" := "foo"])]
  {
    var t := Trie([], [("bar", Of("b")), ("baz", Of("c"))], [("foo", Of("a"))]);
    var ra, rb, rc := LookupResult("a", map[]), LookupResult("b", map["bar" := "foo"]), LookupResult("c", map["baz" := "foo"]);
    assert LiteralResults(t, "foo", []) == [ra] by {
      assert Find(t.branch, "foo") == Some(Of("a"));
      LookupOf("a", map[]);
    }
    assert ReduceParams(t.param, "foo", [], map[], [ra]) == [ra, rb, rc] by {
      var es := t.param;
      LookupOf("b", map["bar" := "foo"]);
      LookupOf("c", map["baz" := "foo"]);
      assert ReduceParams(es, "foo", [], map[], [ra]) == ReduceParams(es[1..], "foo", [], map[], [ra] + [rb]);
      assert ReduceParams(es[1..], "foo", [], map[], [ra, rb]) == ReduceParams(es[2..], "foo", [], map[], [ra, rb] + [rc]);
      assert es[2..] == [];
    }
  }

  /** Looking up the empty path in `of(v)` reports `v` with the caller's bindings. */
  lemma LookupOf<V>(v: V, ps: Bindings)
    ensures Lookup(Of(v), [], ps) == [LookupResult(v, ps)]
  {
  }

  /** Parameter children that store nothing contribute nothing. */
  lemma EmptyParamsPruned()
    ensures Lookup(Trie([], [("foo", Empty()), ("bar", Of("b")), ("baz", Empty())], []), ["foo"], map[])
         == [LookupResult("b", map["bar" := "foo"])]
  {
    var t: Trie<string> := Trie([], [("foo", Empty()), ("bar", Of("b")), ("baz", Empty())], []);
    assert Find(t.branch, "foo") == None;
    assert t.param[1..][1..][1..] == [];
  }
}

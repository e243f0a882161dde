/**
 * What a trie stores, read back as a list of routes: every payload with the
 * pattern leading to it. `Select` resolves a concrete path against such a
 * list directly (a pattern matches when it has the path's length and every
 * literal segment equals its token); `lookup` is proved to return exactly
 * `Select` of the trie's routes, in the same order.
 */
module RouteSemantics {
  import opened Edges
  import opened ParamTrie

  /** A stored route: a pattern and the payload registered under it. */
  datatype Route<V> = Route(pattern: Path, value: V)

  /** The routes ending at the node itself: one per payload, with the empty pattern. */
  function ValueRoutes<V>(vs: seq<V>): (rs: seq<Route<V>>)
    ensures |rs| == |vs|
    ensures forall i :: 0 <= i < |vs| ==> rs[i] == Route([], vs[i])
  {
    seq(|vs|, i requires 0 <= i < |vs| => Route([], vs[i]))
  }

  /** `rs` with the segment `s` put in front of every pattern. */
  function Prefix<V>(s: Segment, rs: seq<Route<V>>): (r: seq<Route<V>>)
    ensures |r| == |rs|
    ensures forall i :: 0 <= i < |rs| ==> r[i] == Route([s] + rs[i].pattern, rs[i].value)
  {
    seq(|rs|, i requires 0 <= i < |rs| => Route([s] + rs[i].pattern, rs[i].value))
  }

  /** `rs` with the path `p` put in front of every pattern. */
  function PrefixPath<V>(p: Path, rs: seq<Route<V>>): (r: seq<Route<V>>)
    ensures |r| == |rs|
    ensures forall i :: 0 <= i < |rs| ==> r[i] == Route(p + rs[i].pattern, rs[i].value)
  {
    seq(|rs|, i requires 0 <= i < |rs| => Route(p + rs[i].pattern, rs[i].value))
  }

  /**
   * The routes of a trie, in the order `lookup` reports them: the node's own
   * payloads, then everything below its literal children, then everything
   * below its parameter children, each dictionary in key order.
   */
  function Routes<V>(t: Trie<V>): seq<Route<V>>
    decreases t, 1, 0
  {
    ValueRoutes(t.value) + EdgeRoutes(t, t.branch, Branch) + EdgeRoutes(t, t.param, Param)
  }

  /** The routes below the children `es` of `parent`, reached through segments of the given kind. */
  function EdgeRoutes<V>(ghost parent: Trie<V>, es: Assoc<Trie<V>>, kind: Kind): seq<Route<V>>
    requires forall i :: 0 <= i < |es| ==> es[i].1 < parent
    decreases parent, 0, |es|
  {
    if es == [] then []
    else Prefix(Segment(kind, es[0].0), Routes(es[0].1)) + EdgeRoutes(parent, es[1..], kind)
  }

  /** A pattern matches a path of the same length whose tokens equal its literal segments. */
  predicate Matches(p: Path, path: seq<string>)
    decreases |p|
  {
    && |p| == |path|
    && (|p| > 0 ==> (p[0].kind == Param || p[0].data == path[0]) && Matches(p[1..], path[1..]))
  }

  /**
   * The bindings a lookup reports for a matching pattern, starting from `ps`:
   * a parameter segment binds its name to the token; a literal segment starts
   * over from empty bindings.
   */
  function Bind(p: Path, path: seq<string>, ps: Bindings): Bindings
    requires |p| == |path|
    decreases |p|
  {
    if |p| == 0 then ps
    else Bind(p[1..], path[1..], if p[0].kind == Branch then map[] else ps[p[0].data := path[0]])
  }

  /** The results of resolving `path` against the routes `rs`, in route order. */
  function Select<V>(rs: seq<Route<V>>, path: seq<string>, ps: Bindings): seq<LookupResult<V>>
    decreases |rs|
  {
    if rs == [] then []
    else
      (if Matches(rs[0].pattern, path) then [LookupResult(rs[0].value, Bind(rs[0].pattern, path, ps))] else [])
      + Select(rs[1..], path, ps)
  }

  // ---------------------------------------------------------------------
  // Matching, stated pointwise
  // ---------------------------------------------------------------------

  /** `Matches` is: same length, and every literal segment equals the token at its position. */
  lemma {:induction false} MatchesPointwise(p: Path, path: seq<string>)
    ensures Matches(p, path) <==>
            |p| == |path| && forall i :: 0 <= i < |p| && p[i].kind == Branch ==> p[i].data == path[i]
    decreases |p|
  {
    if |p| > 0 && |p| == |path| {
      MatchesPointwise(p[1..], path[1..]);
      assert forall i :: 1 <= i < |p| ==> p[i] == p[1..][i - 1] && path[i] == path[1..][i - 1];
    }
  }

  /** A result of `Select` is exactly a matching route's payload with its bindings. */
  lemma {:induction false} SelectMembers<V>(rs: seq<Route<V>>, path: seq<string>, ps: Bindings, x: LookupResult<V>)
    ensures x in Select(rs, path, ps) <==>
            exists i :: 0 <= i < |rs| && Matches(rs[i].pattern, path)
                        && x == LookupResult(rs[i].value, Bind(rs[i].pattern, path, ps))
    decreases |rs|
  {
    if rs != [] {
      SelectMembers(rs[1..], path, ps, x);
      if x in Select(rs[1..], path, ps) {
        var i :| 0 <= i < |rs[1..]| && Matches(rs[1..][i].pattern, path)
                 && x == LookupResult(rs[1..][i].value, Bind(rs[1..][i].pattern, path, ps));
        assert rs[i + 1] == rs[1..][i];
      }
      forall i | 1 <= i < |rs| ensures rs[i] == rs[1..][i - 1] {}
    }
  }

  // ---------------------------------------------------------------------
  // Select over concatenated and prefixed route lists
  // ---------------------------------------------------------------------

  lemma {:induction false} SelectAppend<V>(rs: seq<Route<V>>, qs: seq<Route<V>>, path: seq<string>, ps: Bindings)
    ensures Select(rs + qs, path, ps) == Select(rs, path, ps) + Select(qs, path, ps)
    decreases |rs|
  {
    if rs != [] {
      assert (rs + qs)[1..] == rs[1..] + qs;
      SelectAppend(rs[1..], qs, path, ps);
    } else {
      assert rs + qs == qs;
    }
  }

  /**
   * Resolving a non-empty path against routes that all begin with `s`: a
   * literal `s` keeps them only when it equals the first token, and the rest
   * resolves from empty bindings; a parameter `s` binds its name to the first
   * token.
   */
  lemma {:induction false} SelectPrefix<V>(s: Segment, rs: seq<Route<V>>, first: string, rest: seq<string>, ps: Bindings)
    ensures Select(Prefix(s, rs), [first] + rest, ps)
         == if s.kind == Branch then (if s.data == first then Select(rs, rest, map[]) else [])
            else Select(rs, rest, ps[s.data := first])
    decreases |rs|
  {
    var path := [first] + rest;
    assert path[1..] == rest;
    if rs != [] {
      var p := [s] + rs[0].pattern;
      assert p[1..] == rs[0].pattern;
      assert Prefix(s, rs)[1..] == Prefix(s, rs[1..]);
      SelectPrefix(s, rs[1..], first, rest, ps);
    }
  }

  /** No route with a non-empty pattern matches the empty path. */
  lemma {:induction false} SelectPrefixNil<V>(s: Segment, rs: seq<Route<V>>, ps: Bindings)
    ensures Select(Prefix(s, rs), [], ps) == []
    decreases |rs|
  {
    if rs != [] {
      assert Prefix(s, rs)[1..] == Prefix(s, rs[1..]);
      SelectPrefixNil(s, rs[1..], ps);
    }
  }

  lemma {:induction false} SelectValuesNil<V>(vs: seq<V>, ps: Bindings)
    ensures Select(ValueRoutes(vs), [], ps) == seq(|vs|, i requires 0 <= i < |vs| => LookupResult(vs[i], ps))
    decreases |vs|
  {
    if vs != [] {
      assert ValueRoutes(vs)[1..] == ValueRoutes(vs[1..]);
      SelectValuesNil(vs[1..], ps);
    }
  }

  lemma {:induction false} SelectValuesCons<V>(vs: seq<V>, path: seq<string>, ps: Bindings)
    requires path != []
    ensures Select(ValueRoutes(vs), path, ps) == []
    decreases |vs|
  {
    if vs != [] {
      assert ValueRoutes(vs)[1..] == ValueRoutes(vs[1..]);
      SelectValuesCons(vs[1..], path, ps);
    }
  }

  /** Resolving against the routes below a list of children: the first child's, then the others'. */
  lemma SelectEdgesCons<V>(parent: Trie<V>, es: Assoc<Trie<V>>, kind: Kind, path: seq<string>, ps: Bindings)
    requires forall i :: 0 <= i < |es| ==> es[i].1 < parent
    requires es != []
    ensures Select(EdgeRoutes(parent, es, kind), path, ps)
         == Select(Prefix(Segment(kind, es[0].0), Routes(es[0].1)), path, ps)
            + Select(EdgeRoutes(parent, es[1..], kind), path, ps)
  {
    SelectAppend(Prefix(Segment(kind, es[0].0), Routes(es[0].1)), EdgeRoutes(parent, es[1..], kind), path, ps);
  }

  lemma {:induction false} SelectEdgesNil<V>(parent: Trie<V>, es: Assoc<Trie<V>>, kind: Kind, ps: Bindings)
    requires forall i :: 0 <= i < |es| ==> es[i].1 < parent
    ensures Select(EdgeRoutes(parent, es, kind), [], ps) == []
    decreases |es|
  {
    if es != [] {
      var s := Segment(kind, es[0].0);
      SelectEdgesCons(parent, es, kind, [], ps);
      SelectPrefixNil(s, Routes(es[0].1), ps);
      SelectEdgesNil(parent, es[1..], kind, ps);
    }
  }

  /** Literal children whose keys all differ from `first` contribute nothing to a path starting with `first`. */
  lemma {:induction false} SelectBranchAbsent<V>(parent: Trie<V>, es: Assoc<Trie<V>>, first: string, rest: seq<string>, ps: Bindings)
    requires forall i :: 0 <= i < |es| ==> es[i].1 < parent
    requires first !in Keys(es)
    ensures Select(EdgeRoutes(parent, es, Branch), [first] + rest, ps) == []
    decreases |es|
  {
    if es != [] {
      var s := Segment(Branch, es[0].0);
      SelectEdgesCons(parent, es, Branch, [first] + rest, ps);
      SelectPrefix(s, Routes(es[0].1), first, rest, ps);
      assert Keys(es)[0] == es[0].0;
      assert Keys(es[1..]) == Keys(es)[1..];
      SelectBranchAbsent(parent, es[1..], first, rest, ps);
    }
  }

  /** The literal children contribute exactly the routes of the child keyed by the first token, with bindings reset. */
  lemma {:induction false} SelectBranch<V>(parent: Trie<V>, es: Assoc<Trie<V>>, first: string, rest: seq<string>, ps: Bindings)
    requires forall i :: 0 <= i < |es| ==> es[i].1 < parent
    requires UniqueKeys(es)
    ensures Select(EdgeRoutes(parent, es, Branch), [first] + rest, ps)
         == match Find(es, first)
            case Some(child) => Select(Routes(child), rest, map[])
            case None => []
    decreases |es|
  {
    if es != [] {
      var s := Segment(Branch, es[0].0);
      SelectEdgesCons(parent, es, Branch, [first] + rest, ps);
      SelectPrefix(s, Routes(es[0].1), first, rest, ps);
      FindCons(es, first);
      if es[0].0 == first {
        SelectBranchHere(parent, es, first, rest, ps);
      } else {
        assert UniqueKeys(es[1..]);
        SelectBranch(parent, es[1..], first, rest, ps);
      }
    }
  }

  /** When the first literal child is keyed by the first token, no later child is. */
  lemma SelectBranchHere<V>(parent: Trie<V>, es: Assoc<Trie<V>>, first: string, rest: seq<string>, ps: Bindings)
    requires forall i :: 0 <= i < |es| ==> es[i].1 < parent
    requires UniqueKeys(es) && es != [] && es[0].0 == first
    ensures Select(EdgeRoutes(parent, es[1..], Branch), [first] + rest, ps) == []
  {
    assert first !in Keys(es[1..]) by {
      assert forall i :: 0 <= i < |es[1..]| ==> Keys(es[1..])[i] == es[i + 1].0;
    }
    SelectBranchAbsent(parent, es[1..], first, rest, ps);
  }

  // ---------------------------------------------------------------------
  // lookup resolves exactly the stored routes
  // ---------------------------------------------------------------------

  /**
   * `t.lookup(path, ps)` returns, in order, one result per route of `t` whose
   * pattern matches `path`: the route's payload with the bindings its pattern
   * makes from `ps`.
   */
  lemma {:induction false} LookupSelect<V>(t: Trie<V>, path: seq<string>, ps: Bindings)
    requires Valid(t)
    ensures Lookup(t, path, ps) == Select(Routes(t), path, ps)
    decreases |path|, 0
  {
    if |path| == 0 {
      LookupSelectNil(t, ps);
    } else {
      var first, rest := path[0], path[1..];
      assert path == [first] + rest;
      LiteralSelect(t, first, rest, ps);
      ReduceSelect(t, t.param, first, rest, ps, LiteralResults(t, first, rest));
      LookupSelectCons(t, first, rest, ps);
    }
  }

  /** The literal child keyed by the first token resolves the routes below the literal children. */
  lemma {:induction false} LiteralSelect<V>(t: Trie<V>, first: string, rest: seq<string>, ps: Bindings)
    requires Valid(t)
    ensures LiteralResults(t, first, rest) == Select(EdgeRoutes(t, t.branch, Branch), [first] + rest, ps)
    decreases |rest|, 1
  {
    SelectBranch(t, t.branch, first, rest, ps);
    match Find(t.branch, first)
    case Some(child) =>
      assert Valid(child) by {
        assert child == t.branch[IndexOf(t.branch, first)].1;
      }
      LookupSelect(child, rest, map[]);
    case None =>
  }

  /**
   * One level of the theorem for a non-empty path, given that the literal
   * child and the parameter children resolve their own routes.
   */
  lemma LookupSelectCons<V>(t: Trie<V>, first: string, rest: seq<string>, ps: Bindings)
    requires LiteralResults(t, first, rest) == Select(EdgeRoutes(t, t.branch, Branch), [first] + rest, ps)
    requires ReduceParams(t.param, first, rest, ps, LiteralResults(t, first, rest))
             == LiteralResults(t, first, rest) + Select(EdgeRoutes(t, t.param, Param), [first] + rest, ps)
    ensures Lookup(t, [first] + rest, ps) == Select(Routes(t), [first] + rest, ps)
  {
    var path := [first] + rest;
    var lit := Select(EdgeRoutes(t, t.branch, Branch), path, ps);
    var par := Select(EdgeRoutes(t, t.param, Param), path, ps);
    assert Lookup(t, path, ps) == ReduceParams(t.param, first, rest, ps, LiteralResults(t, first, rest)) by {
      assert path[0] == first && path[1..] == rest;
    }
    assert Select(Routes(t), path, ps) == lit + par by {
      SelectRoutes(t, path, ps);
      SelectValuesCons(t.value, path, ps);
      assert [] + lit == lit;
    }
  }

  lemma LookupSelectNil<V>(t: Trie<V>, ps: Bindings)
    ensures Lookup(t, [], ps) == Select(Routes(t), [], ps)
  {
    SelectRoutes(t, [], ps);
    var own := seq(|t.value|, i requires 0 <= i < |t.value| => LookupResult(t.value[i], ps));
    SelectValuesNil(t.value, ps);
    SelectEdgesNil(t, t.branch, Branch, ps);
    SelectEdgesNil(t, t.param, Param, ps);
    assert Select(Routes(t), [], ps) == own + [] + [];
    assert own + [] + [] == own;
  }

  /** Resolving against a trie's routes: its own payloads, then its literal children, then its parameter children. */
  lemma SelectRoutes<V>(t: Trie<V>, path: seq<string>, ps: Bindings)
    ensures Select(Routes(t), path, ps)
         == Select(ValueRoutes(t.value), path, ps) + Select(EdgeRoutes(t, t.branch, Branch), path, ps)
            + Select(EdgeRoutes(t, t.param, Param), path, ps)
  {
    var own, lit, par := ValueRoutes(t.value), EdgeRoutes(t, t.branch, Branch), EdgeRoutes(t, t.param, Param);
    SelectAppend(own + lit, par, path, ps);
    SelectAppend(own, lit, path, ps);
  }

  /** The first parameter child's share of the routes below the parameter children, given that it resolves its own. */
  lemma {:induction false} ParamSelect<V>(parent: Trie<V>, es: Assoc<Trie<V>>, first: string, rest: seq<string>, ps: Bindings)
    requires forall i :: 0 <= i < |es| ==> es[i].1 < parent && Valid(es[i].1)
    requires es != []
    ensures Select(EdgeRoutes(parent, es, Param), [first] + rest, ps)
         == Lookup(es[0].1, rest, ps[es[0].0 := first]) + Select(EdgeRoutes(parent, es[1..], Param), [first] + rest, ps)
    decreases |rest|, 2, |es|, 0
  {
    SelectEdgesCons(parent, es, Param, [first] + rest, ps);
    SelectPrefix(Segment(Param, es[0].0), Routes(es[0].1), first, rest, ps);
    LookupSelect(es[0].1, rest, ps[es[0].0 := first]);
  }

  /** The `reduce` over parameter children appends, child by child, the routes each one matches. */
  lemma {:induction false} ReduceSelect<V>(parent: Trie<V>, es: Assoc<Trie<V>>, first: string, rest: seq<string>,
                                           ps: Bindings, acc: seq<LookupResult<V>>)
    requires forall i :: 0 <= i < |es| ==> es[i].1 < parent && Valid(es[i].1)
    ensures ReduceParams(es, first, rest, ps, acc) == acc + Select(EdgeRoutes(parent, es, Param), [first] + rest, ps)
    decreases |rest|, 2, |es|, 1
  {
    if es == [] {
      assert acc + [] == acc;
    } else {
      var path := [first] + rest;
      var bound := ps[es[0].0 := first];
      var here := Lookup(es[0].1, rest, bound);
      var later := Select(EdgeRoutes(parent, es[1..], Param), path, ps);
      assert ReduceParams(es, first, rest, ps, acc) == ReduceParams(es[1..], first, rest, ps, acc + here);
      ParamSelect(parent, es, first, rest, ps);
      ReduceSelect(parent, es[1..], first, rest, ps, acc + here);
      Regroup(ReduceParams(es, first, rest, ps, acc), acc, here, later,
              Select(EdgeRoutes(parent, es, Param), path, ps));
    }
  }

  lemma Regroup<T>(r: seq<T>, acc: seq<T>, here: seq<T>, later: seq<T>, sel: seq<T>)
    requires r == (acc + here) + later && sel == here + later
    ensures r == acc + sel
  {
  }
}

/**
 * What `merge` does to the stored routes and therefore to `lookup`: the
 * routes of `merge(a, b)` are those of `a` together with those of `b`, so a
 * lookup in the merged trie finds exactly what the two lookups find. The
 * order may differ, which is why `merge` is commutative only up to the
 * order of the results.
 */
module MergeSemantics {
  import opened Edges
  import opened ParamTrie
  import opened MergeLaws
  import opened MergeLoop
  import opened RouteSemantics

  // ---------------------------------------------------------------------
  // Routes below a dictionary, whatever node owns it
  // ---------------------------------------------------------------------

  /** The routes below the children `es`, reached through segments of `kind`. */
  function ChildRoutes<V>(es: Assoc<Trie<V>>, kind: Kind): seq<Route<V>>
  {
    EdgeRoutes(Trie([], es, []), es, kind)
  }

  /** The owner passed to `EdgeRoutes` only bounds the recursion: the routes do not depend on it. */
  lemma {:induction false} ChildRoutesOwner<V>(p: Trie<V>, es: Assoc<Trie<V>>, kind: Kind)
    requires forall i :: 0 <= i < |es| ==> es[i].1 < p
    ensures EdgeRoutes(p, es, kind) == ChildRoutes(es, kind)
    decreases |es|
  {
    if es != [] {
      ChildRoutesOwner(p, es[1..], kind);
      ChildRoutesOwner(Trie([], es, []), es[1..], kind);
    }
  }

  /** The routes of a node: its payloads, then its literal children, then its parameter children. */
  lemma RoutesSplit<V>(t: Trie<V>)
    ensures Routes(t) == ValueRoutes(t.value) + ChildRoutes(t.branch, Branch) + ChildRoutes(t.param, Param)
  {
    ChildRoutesOwner(t, t.branch, Branch);
    ChildRoutesOwner(t, t.param, Param);
  }

  /** The routes below a single entry are the child's routes behind the entry's segment. */
  lemma ChildRoutesSingle<V>(e: (string, Trie<V>), kind: Kind)
    ensures ChildRoutes([e], kind) == Prefix(Segment(kind, e.0), Routes(e.1))
  {
    var es := [e];
    assert es[1..] == [];
    assert EdgeRoutes(Trie([], es, []), es[1..], kind) == [];
  }

  lemma {:induction false} ChildRoutesAppend<V>(u: Assoc<Trie<V>>, v: Assoc<Trie<V>>, kind: Kind)
    ensures ChildRoutes(u + v, kind) == ChildRoutes(u, kind) + ChildRoutes(v, kind)
    decreases |u|
  {
    if u == [] {
      assert u + v == v;
    } else {
      var w := u + v;
      assert w[0] == u[0] && w[1..] == u[1..] + v;
      ChildRoutesAppend(u[1..], v, kind);
      ChildRoutesOwner(Trie([], w, []), w[1..], kind);
      ChildRoutesOwner(Trie([], u, []), u[1..], kind);
    }
  }

  // ---------------------------------------------------------------------
  // Reordering routes
  // ---------------------------------------------------------------------

  lemma PrefixAppend<V>(s: Segment, r1: seq<Route<V>>, r2: seq<Route<V>>)
    ensures Prefix(s, r1 + r2) == Prefix(s, r1) + Prefix(s, r2)
  {
    assert |Prefix(s, r1 + r2)| == |Prefix(s, r1) + Prefix(s, r2)|;
    forall i | 0 <= i < |r1 + r2| ensures Prefix(s, r1 + r2)[i] == (Prefix(s, r1) + Prefix(s, r2))[i] {
      if i < |r1| {
        assert (r1 + r2)[i] == r1[i];
      } else {
        assert (r1 + r2)[i] == r2[i - |r1|];
      }
    }
  }

  /**
   * Two lists holding the same elements: the head of the first sits at some
   * position `k` of the second, and the rests hold the same elements.
   */
  lemma PermutationHead<T>(r1: seq<T>, r2: seq<T>) returns (k: nat)
    requires multiset(r1) == multiset(r2) && r1 != []
    ensures k < |r2| && r2[k] == r1[0]
    ensures r1 == [r1[0]] + r1[1..] && r2 == r2[..k] + [r1[0]] + r2[k + 1..]
    ensures multiset(r1[1..]) == multiset(r2[..k] + r2[k + 1..])
  {
    var x := r1[0];
    assert x in multiset(r2);
    k :| 0 <= k < |r2| && r2[k] == x;
    var front, back := r2[..k], r2[k + 1..];
    assert r2 == front + [x] + back;
    assert r1 == [x] + r1[1..];
    calc {
      multiset(r1[1..]);
      multiset(r1) - multiset{x};
      multiset(front) + multiset{x} + multiset(back) - multiset{x};
      multiset(front + back);
    }
  }

  /** Putting back one element in front of the first list and in the middle of the second. */
  lemma Reinsert<T>(p1: seq<T>, p2: seq<T>, h: seq<T>, tail: seq<T>, front: seq<T>, back: seq<T>)
    requires p1 == h + tail && p2 == front + h + back
    requires multiset(tail) == multiset(front + back)
    ensures multiset(p1) == multiset(p2)
  {
  }

  /** Putting a segment in front of every pattern commutes with reordering the routes. */
  lemma {:induction false} PrefixPermutation<V>(s: Segment, r1: seq<Route<V>>, r2: seq<Route<V>>)
    requires multiset(r1) == multiset(r2)
    ensures multiset(Prefix(s, r1)) == multiset(Prefix(s, r2))
    decreases |r1|
  {
    if r1 == [] {
      assert |r2| == |multiset(r2)| == 0;
    } else {
      var k := PermutationHead(r1, r2);
      var h, front, back := [r1[0]], r2[..k], r2[k + 1..];
      PrefixPermutation(s, r1[1..], front + back);
      PrefixAppend(s, h, r1[1..]);
      PrefixAppend(s, front + h, back);
      PrefixAppend(s, front, h);
      PrefixAppend(s, front, back);
      Reinsert(Prefix(s, r1), Prefix(s, r2), Prefix(s, h), Prefix(s, r1[1..]), Prefix(s, front), Prefix(s, back));
    }
  }

  /** Resolving a path commutes with reordering the routes. */
  lemma {:induction false} SelectPermutation<V>(r1: seq<Route<V>>, r2: seq<Route<V>>, path: seq<string>, ps: Bindings)
    requires multiset(r1) == multiset(r2)
    ensures multiset(Select(r1, path, ps)) == multiset(Select(r2, path, ps))
    decreases |r1|
  {
    if r1 == [] {
      assert |r2| == |multiset(r2)| == 0;
    } else {
      var k := PermutationHead(r1, r2);
      var h, front, back := [r1[0]], r2[..k], r2[k + 1..];
      SelectPermutation(r1[1..], front + back, path, ps);
      SelectAppend(h, r1[1..], path, ps);
      SelectAppend(front + h, back, path, ps);
      SelectAppend(front, h, path, ps);
      SelectAppend(front, back, path, ps);
      Reinsert(Select(r1, path, ps), Select(r2, path, ps), Select(h, path, ps), Select(r1[1..], path, ps),
               Select(front, path, ps), Select(back, path, ps));
    }
  }

  // ---------------------------------------------------------------------
  // Routes of a merge
  // ---------------------------------------------------------------------

  /**
   * `merge(a, b)` stores the routes of `a` and the routes of `b`, each as
   * often as there, and nothing else: `merge` loses and invents no route.
   */
  lemma {:induction false} MergeRoutes<V>(a: Trie<V>, b: Trie<V>)
    requires Valid(a) && Valid(b)
    ensures multiset(Routes(Merge(a, b))) == multiset(Routes(a)) + multiset(Routes(b))
    decreases a, 2
  {
    var m := Merge(a, b);
    RoutesSplit(m);
    RoutesSplit(a);
    RoutesSplit(b);
    MergeChildRoutes(a, b);
    ValueRoutesAppend(a.value, b.value);
    Regather(ValueRoutes(m.value), ChildRoutes(m.branch, Branch), ChildRoutes(m.param, Param),
             ValueRoutes(a.value), ChildRoutes(a.branch, Branch), ChildRoutes(a.param, Param),
             ValueRoutes(b.value), ChildRoutes(b.branch, Branch), ChildRoutes(b.param, Param));
  }

  /** The routes below each merged dictionary are those below the two dictionaries merged. */
  lemma MergeChildRoutes<V>(a: Trie<V>, b: Trie<V>)
    requires Valid(a) && Valid(b)
    ensures multiset(ChildRoutes(Merge(a, b).branch, Branch))
         == multiset(ChildRoutes(a.branch, Branch)) + multiset(ChildRoutes(b.branch, Branch))
    ensures multiset(ChildRoutes(Merge(a, b).param, Param))
         == multiset(ChildRoutes(a.param, Param)) + multiset(ChildRoutes(b.param, Param))
    decreases a, 1
  {
    ChildrenValid(a);
    ChildrenValid(b);
    MergeKindRoutes(a, b, Branch);
    MergeKindRoutes(a, b, Param);
  }

  lemma MergeKindRoutes<V>(a: Trie<V>, b: Trie<V>, kind: Kind)
    requires UniqueKeys(a.Children(kind)) && UniqueKeys(b.Children(kind))
    requires forall i :: 0 <= i < |a.Children(kind)| ==> Valid(a.Children(kind)[i].1)
    requires forall i :: 0 <= i < |b.Children(kind)| ==> Valid(b.Children(kind)[i].1)
    ensures multiset(ChildRoutes(Merge(a, b).Children(kind), kind))
         == multiset(ChildRoutes(a.Children(kind), kind)) + multiset(ChildRoutes(b.Children(kind), kind))
    decreases a, 0, |b.Children(kind)| + 1
  {
    var ys := b.Children(kind);
    ChildrenBelow(a, kind);
    assert ys[..|ys|] == ys;
    EdgeMergeRoutes(a, a.Children(kind), ys, |ys|, kind);
    MergeChildrenDef(a, b, kind);
  }

  lemma ValueRoutesAppend<V>(vs: seq<V>, ws: seq<V>)
    ensures ValueRoutes(vs + ws) == ValueRoutes(vs) + ValueRoutes(ws)
  {
  }

  /** Three parts each holding the union of two: the whole holds the union of the wholes. */
  lemma Regather<T>(v: seq<T>, x: seq<T>, y: seq<T>, va: seq<T>, xa: seq<T>, ya: seq<T>, vb: seq<T>, xb: seq<T>, yb: seq<T>)
    requires v == va + vb
    requires multiset(x) == multiset(xa) + multiset(xb)
    requires multiset(y) == multiset(ya) + multiset(yb)
    ensures multiset(v + x + y) == multiset(va + xa + ya) + multiset(vb + xb + yb)
  {
  }

  /** The children of a well-formed node are well-formed. */
  lemma ChildrenValid<V>(t: Trie<V>)
    requires Valid(t)
    ensures UniqueKeys(t.param) && UniqueKeys(t.branch)
    ensures forall i :: 0 <= i < |t.param| ==> Valid(t.param[i].1)
    ensures forall i :: 0 <= i < |t.branch| ==> Valid(t.branch[i].1)
  {
  }

  /**
   * The routes below a merged dictionary, after the first `n` entries of
   * `ys` have been merged into `xs`: those below `xs` and those below the
   * `n` entries, however the walk placed them.
   */
  lemma {:induction false} EdgeMergeRoutes<V>(a: Trie<V>, xs: Assoc<Trie<V>>, ys: Assoc<Trie<V>>, n: nat, kind: Kind)
    requires forall t :: 0 <= t < |xs| ==> xs[t].1 < a && Valid(xs[t].1)
    requires forall t :: 0 <= t < |ys| ==> Valid(ys[t].1)
    requires UniqueKeys(xs) && UniqueKeys(ys) && n <= |ys|
    ensures multiset(ChildRoutes(MergeEdges(a, xs, ys[..n]), kind))
         == multiset(ChildRoutes(xs, kind)) + multiset(ChildRoutes(ys[..n], kind))
    decreases a, 0, n
  {
    if n == 0 {
      MergeEdgesNil(a, xs, ys);
    } else {
      var i := n - 1;
      var r, e := MergeEdges(a, xs, ys[..i]), ys[i];
      EdgeMergeRoutes(a, xs, ys, i, kind);
      MergeEdgesStep(a, xs, ys, i);
      SliceSnoc(ys, i);
      var j := IndexOf(r, e.0);
      if j < |r| {
        MergeRoutes(xs[j].1, e.1);
        StepMergedRoutes(xs, ys[..i], r, j, Merge(xs[j].1, e.1), e, kind);
      } else {
        StepAppendedRoutes(xs, ys[..i], r, e, kind);
      }
    }
  }

  /** Taking one more element of a list. */
  lemma SliceSnoc<T>(ys: seq<T>, i: nat)
    requires i < |ys|
    ensures ys[..i + 1] == ys[..i] + [ys[i]]
  {
  }

  /** Merging nothing into `xs` leaves it as it is. */
  lemma MergeEdgesNil<V>(a: Trie<V>, xs: Assoc<Trie<V>>, ys: Assoc<Trie<V>>)
    requires forall t :: 0 <= t < |xs| ==> xs[t].1 < a
    ensures MergeEdges(a, xs, ys[..0]) == xs && ChildRoutes<V>(ys[..0], Param) == [] && ChildRoutes<V>(ys[..0], Branch) == []
  {
    assert ys[..0] == [];
    FreshNone(xs);
  }

  /** The walk appending an entry adds the routes below it. */
  lemma StepAppendedRoutes<V>(xs: Assoc<Trie<V>>, done: Assoc<Trie<V>>, r: Assoc<Trie<V>>, e: (string, Trie<V>), kind: Kind)
    requires multiset(ChildRoutes(r, kind)) == multiset(ChildRoutes(xs, kind)) + multiset(ChildRoutes(done, kind))
    ensures multiset(ChildRoutes(r + [e], kind)) == multiset(ChildRoutes(xs, kind)) + multiset(ChildRoutes(done + [e], kind))
  {
    ChildRoutesAppend(r, [e], kind);
    ChildRoutesAppend(done, [e], kind);
  }

  /** The walk merging an entry into the child at `j` adds the routes below the entry. */
  lemma StepMergedRoutes<V>(xs: Assoc<Trie<V>>, done: Assoc<Trie<V>>, r: Assoc<Trie<V>>, j: nat, m: Trie<V>,
                            e: (string, Trie<V>), kind: Kind)
    requires j < |r| && r[j].0 == e.0
    requires multiset(Routes(m)) == multiset(Routes(r[j].1)) + multiset(Routes(e.1))
    requires multiset(ChildRoutes(r, kind)) == multiset(ChildRoutes(xs, kind)) + multiset(ChildRoutes(done, kind))
    ensures multiset(ChildRoutes(r[j := (e.0, m)], kind)) == multiset(ChildRoutes(xs, kind)) + multiset(ChildRoutes(done + [e], kind))
  {
    StepMerged(r, j, m, e.1, kind);
    assert (r[j].0, e.1) == e;
    ChildRoutesAppend(done, [e], kind);
  }

  /** The routes below `r` are those below its part before `j`, below its entry at `j` and below the rest. */
  lemma ChildRoutesAt<V>(r: Assoc<Trie<V>>, j: nat, kind: Kind)
    requires j < |r|
    ensures ChildRoutes(r, kind)
         == ChildRoutes(r[..j], kind) + Prefix(Segment(kind, r[j].0), Routes(r[j].1)) + ChildRoutes(r[j + 1..], kind)
  {
    assert r == r[..j] + [r[j]] + r[j + 1..];
    ChildRoutesAppend(r[..j] + [r[j]], r[j + 1..], kind);
    ChildRoutesAppend(r[..j], [r[j]], kind);
    ChildRoutesSingle(r[j], kind);
  }

  /**
   * Replacing the child at `j` by one storing the routes of the old child and
   * of `c` adds exactly the routes of `c` behind the same key.
   */
  lemma StepMerged<V>(r: Assoc<Trie<V>>, j: nat, m: Trie<V>, c: Trie<V>, kind: Kind)
    requires j < |r|
    requires multiset(Routes(m)) == multiset(Routes(r[j].1)) + multiset(Routes(c))
    ensures multiset(ChildRoutes(r[j := (r[j].0, m)], kind))
         == multiset(ChildRoutes(r, kind)) + multiset(ChildRoutes([(r[j].0, c)], kind))
  {
    var r' := r[j := (r[j].0, m)];
    var s := Segment(kind, r[j].0);
    ChildRoutesAt(r, j, kind);
    ChildRoutesAt(r', j, kind);
    assert r'[..j] == r[..j] && r'[j + 1..] == r[j + 1..];
    ChildRoutesSingle((r[j].0, c), kind);
    PrefixPermutation(s, Routes(m), Routes(r[j].1) + Routes(c));
    PrefixAppend(s, Routes(r[j].1), Routes(c));
  }

  // ---------------------------------------------------------------------
  // Lookup in a merge
  // ---------------------------------------------------------------------

  /**
   * A lookup in `merge(a, b)` finds what the lookup in `a` finds and what the
   * lookup in `b` finds, each result as often as there, and nothing else.
   */
  lemma MergeLookup<V>(a: Trie<V>, b: Trie<V>, path: seq<string>, ps: Bindings)
    requires Valid(a) && Valid(b)
    ensures multiset(Lookup(Merge(a, b), path, ps))
         == multiset(Lookup(a, path, ps)) + multiset(Lookup(b, path, ps))
  {
    MergeValid(a, b);
    LookupSelect(Merge(a, b), path, ps);
    LookupSelect(a, path, ps);
    LookupSelect(b, path, ps);
    MergeRoutes(a, b);
    SelectPermutation(Routes(Merge(a, b)), Routes(a) + Routes(b), path, ps);
    SelectAppend(Routes(a), Routes(b), path, ps);
  }

  /** `merge` is commutative up to the order of what lookup returns. */
  lemma MergeCommutes<V>(a: Trie<V>, b: Trie<V>, path: seq<string>, ps: Bindings)
    requires Valid(a) && Valid(b)
    ensures multiset(Lookup(Merge(a, b), path, ps)) == multiset(Lookup(Merge(b, a), path, ps))
  {
    MergeLookup(a, b, path, ps);
    MergeLookup(b, a, path, ps);
  }

  /**
   * The order does differ: merging two one-parameter tries either way round
   * gives tries whose parameter dictionaries list the names in different orders.
   */
  lemma MergeOrderMatters()
    ensures Merge(OfPath([ParamSeg("x")], 1), OfPath([ParamSeg("y")], 2))
         != Merge(OfPath([ParamSeg("y")], 2), OfPath([ParamSeg("x")], 1))
  {
    var ab := Merge(OfPath([ParamSeg("x")], 1), OfPath([ParamSeg("y")], 2));
    assert ab.param[0].0 == "x";
    var ba := Merge(OfPath([ParamSeg("y")], 2), OfPath([ParamSeg("x")], 1));
    assert ba.param[0].0 == "y";
  }
}

/**
 * Algebraic laws of `merge`: how the child dictionaries of the result are
 * made, the empty trie as identity on both sides, well-formedness, and
 * associativity.
 */
module MergeLaws {
  import opened Edges
  import opened ParamTrie

  /** The child found under one key after merging, from the children found on either side. */
  function MergeOpt<V>(x: Option<Trie<V>>, y: Option<Trie<V>>): Option<Trie<V>>
  {
    match x
    case None => y
    case Some(p) =>
      match y
      case None => x
      case Some(q) => Some(Merge(p, q))
  }

  lemma MergeChildrenDef<V>(a: Trie<V>, b: Trie<V>, kind: Kind)
    ensures forall i :: 0 <= i < |a.Children(kind)| ==> a.Children(kind)[i].1 < a
    ensures Merge(a, b).Children(kind) == MergeEdges(a, a.Children(kind), b.Children(kind))
  {
  }

  lemma MergeEdgesKeys<V>(a: Trie<V>, xs: Assoc<Trie<V>>, ys: Assoc<Trie<V>>)
    requires forall i :: 0 <= i < |xs| ==> xs[i].1 < a
    ensures Keys(MergeEdges(a, xs, ys)) == Keys(xs) + Without(Keys(ys), Keys(xs))
  {
    KeysFresh(ys, Keys(xs));
    var r := MergeEdges(a, xs, ys);
    var front, back := r[..|xs|], r[|xs|..];
    assert r == front + back;
    KeysAppend(front, back);
    assert Keys(front) == Keys(xs);
  }

  lemma FindMergeEdges<V>(a: Trie<V>, xs: Assoc<Trie<V>>, ys: Assoc<Trie<V>>, k: string)
    requires forall i :: 0 <= i < |xs| ==> xs[i].1 < a
    ensures Find(MergeEdges(a, xs, ys), k) == MergeOpt(Find(xs, k), Find(ys, k))
  {
    var r := MergeEdges(a, xs, ys);
    var front, back := r[..|xs|], r[|xs|..];
    assert r == front + back;
    assert Keys(front) == Keys(xs);
    FindAppend(front, back, k);
    if k in Keys(xs) {
      IndexOfKeys(front, xs, k);
    } else {
      FindFresh(ys, Keys(xs), k);
    }
  }

  /**
   * The keys of either child dictionary of `merge(a, b)`: `a`'s keys in
   * their order followed by the keys of `b` that `a` lacks, in `b`'s order.
   */
  lemma MergeChildKeys<V>(a: Trie<V>, b: Trie<V>, kind: Kind)
    ensures Keys(Merge(a, b).Children(kind))
         == Keys(a.Children(kind)) + Without(Keys(b.Children(kind)), Keys(a.Children(kind)))
  {
    MergeChildrenDef(a, b, kind);
    MergeEdgesKeys(a, a.Children(kind), b.Children(kind));
  }

  /** The key set of either child dictionary of `merge(a, b)` is the union of both sides' key sets. */
  lemma MergeChildKeySet<V>(a: Trie<V>, b: Trie<V>, kind: Kind, k: string)
    ensures k in Keys(Merge(a, b).Children(kind)) <==> k in Keys(a.Children(kind)) || k in Keys(b.Children(kind))
  {
    MergeChildKeys(a, b, kind);
    WithoutMembers(Keys(b.Children(kind)), Keys(a.Children(kind)));
  }

  /**
   * The child of `merge(a, b)` under a key: the merge of both sides' children
   * when both have the key, the one side's child unchanged when only one has it.
   */
  lemma MergeChildFind<V>(a: Trie<V>, b: Trie<V>, kind: Kind, k: string)
    ensures Find(Merge(a, b).Children(kind), k) == MergeOpt(Find(a.Children(kind), k), Find(b.Children(kind), k))
  {
    MergeChildrenDef(a, b, kind);
    FindMergeEdges(a, a.Children(kind), b.Children(kind), k);
  }

  /** `empty` is a left and a right identity of `merge`. */
  lemma MergeIdentity<V>(t: Trie<V>)
    ensures Merge(Empty(), t) == t
    ensures Merge(t, Empty()) == t
  {
    var e: Trie<V> := Empty();
    FreshNone(t.param);
    FreshNone(t.branch);
    assert MergeEdges(e, [], t.param) == t.param;
    assert MergeEdges(e, [], t.branch) == t.branch;
    assert MergeEdges(t, t.param, []) == t.param;
    assert MergeEdges(t, t.branch, []) == t.branch;
  }

  lemma MergeEdgesUnique<V>(a: Trie<V>, xs: Assoc<Trie<V>>, ys: Assoc<Trie<V>>)
    requires forall i :: 0 <= i < |xs| ==> xs[i].1 < a
    requires UniqueKeys(xs) && UniqueKeys(ys)
    ensures UniqueKeys(MergeEdges(a, xs, ys))
  {
    var r := MergeEdges(a, xs, ys);
    var front, back := r[..|xs|], r[|xs|..];
    assert r == front + back;
    assert Keys(front) == Keys(xs);
    UniqueKeysByKeys(xs, front);
    FreshUnique(ys, Keys(xs));
    FreshMembers(ys, Keys(xs));
    UniqueAppend(front, back);
  }

  /** Merging well-formed tries gives a well-formed trie. */
  lemma {:induction false} MergeValid<V>(a: Trie<V>, b: Trie<V>)
    requires Valid(a) && Valid(b)
    ensures Valid(Merge(a, b))
    decreases a, 1
  {
    MergeEdgesValid(a, a.param, b.param);
    MergeEdgesValid(a, a.branch, b.branch);
  }

  lemma {:induction false} MergeEdgesValid<V>(a: Trie<V>, xs: Assoc<Trie<V>>, ys: Assoc<Trie<V>>)
    requires forall i :: 0 <= i < |xs| ==> xs[i].1 < a
    requires UniqueKeys(xs) && UniqueKeys(ys)
    requires forall i :: 0 <= i < |xs| ==> Valid(xs[i].1)
    requires forall i :: 0 <= i < |ys| ==> Valid(ys[i].1)
    ensures UniqueKeys(MergeEdges(a, xs, ys))
    ensures forall i :: 0 <= i < |MergeEdges(a, xs, ys)| ==> Valid(MergeEdges(a, xs, ys)[i].1)
    decreases a, 0
  {
    MergeEdgesUnique(a, xs, ys);
    FreshSubset(ys, Keys(xs));
    var r := MergeEdges(a, xs, ys);
    forall i | 0 <= i < |r| ensures Valid(r[i].1) {
      if i < |xs| {
        assert r[i].1 == MergeChild(xs[i].1, Find(ys, xs[i].0));
        match Find(ys, xs[i].0)
        case Some(y) =>
          MergeValid(xs[i].1, y);
        case None =>
      } else {
        assert r[i] in Fresh(ys, Keys(xs));
      }
    }
  }

  /** `merge` is associative on well-formed tries: values, key order and children all agree. */
  lemma {:induction false} MergeAssociative<V>(a: Trie<V>, b: Trie<V>, c: Trie<V>)
    requires Valid(a) && Valid(b) && Valid(c)
    ensures Merge(Merge(a, b), c) == Merge(a, Merge(b, c))
    decreases a, 2
  {
    var lhs, rhs := Merge(Merge(a, b), c), Merge(a, Merge(b, c));
    assert lhs.Children(Param) == rhs.Children(Param) by {
      AssociativeChildren(a, b, c, Param);
    }
    assert lhs.Children(Branch) == rhs.Children(Branch) by {
      AssociativeChildren(a, b, c, Branch);
    }
    SameParts(lhs, rhs);
  }

  /** Two nodes with the same payloads and the same children of both kinds are equal. */
  lemma SameParts<V>(l: Trie<V>, r: Trie<V>)
    requires l.value == r.value
    requires l.Children(Param) == r.Children(Param) && l.Children(Branch) == r.Children(Branch)
    ensures l == r
  {
  }

  lemma {:induction false} AssociativeChildren<V>(a: Trie<V>, b: Trie<V>, c: Trie<V>, kind: Kind)
    requires Valid(a) && Valid(b) && Valid(c)
    ensures Merge(Merge(a, b), c).Children(kind) == Merge(a, Merge(b, c)).Children(kind)
    decreases a, 1
  {
    var lhs, rhs := Merge(Merge(a, b), c).Children(kind), Merge(a, Merge(b, c)).Children(kind);
    AssociativeKeys(a, b, c, kind);
    forall k ensures Find(lhs, k) == Find(rhs, k) {
      AssociativeFind(a, b, c, kind, k);
    }
    MergeValid(a, b);
    MergeValid(Merge(a, b), c);
    assert UniqueKeys(lhs);
    Extensionality(lhs, rhs);
  }

  lemma AssociativeKeys<V>(a: Trie<V>, b: Trie<V>, c: Trie<V>, kind: Kind)
    ensures Keys(Merge(Merge(a, b), c).Children(kind)) == Keys(Merge(a, Merge(b, c)).Children(kind))
  {
    var ka, kb, kc := Keys(a.Children(kind)), Keys(b.Children(kind)), Keys(c.Children(kind));
    MergeChildKeys(a, b, kind);
    MergeChildKeys(Merge(a, b), c, kind);
    MergeChildKeys(b, c, kind);
    MergeChildKeys(a, Merge(b, c), kind);
    KeyOrderAssociative(ka, kb, kc);
  }

  lemma {:induction false} AssociativeFind<V>(a: Trie<V>, b: Trie<V>, c: Trie<V>, kind: Kind, k: string)
    requires Valid(a) && Valid(b) && Valid(c)
    ensures Find(Merge(Merge(a, b), c).Children(kind), k) == Find(Merge(a, Merge(b, c)).Children(kind), k)
    decreases a, 0
  {
    var ab, bc := Merge(a, b), Merge(b, c);
    var A, B, C := a.Children(kind), b.Children(kind), c.Children(kind);
    MergeChildFind(a, b, kind, k);
    MergeChildFind(ab, c, kind, k);
    MergeChildFind(b, c, kind, k);
    MergeChildFind(a, bc, kind, k);
    var x, y, z := Find(A, k), Find(B, k), Find(C, k);
    if x.Some? && y.Some? && z.Some? {
      MergeChildrenDef(a, b, kind);
      assert x.value < a;
      assert Valid(x.value) && Valid(y.value) && Valid(z.value) by {
        assert x.value == A[IndexOf(A, k)].1;
        assert y.value == B[IndexOf(B, k)].1;
        assert z.value == C[IndexOf(C, k)].1;
      }
      MergeAssociative(x.value, y.value, z.value);
    }
  }
}

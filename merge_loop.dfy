/**
 * `merge` as the source runs it: copy `a`'s dictionaries into a new node,
 * then walk the keys of `b`'s dictionary of each kind, merging into the
 * entry already present or adding a new one. Proved to build exactly `Merge`.
 */
module MergeLoop {
  import opened Edges
  import opened ParamTrie
  import opened MergeLaws

  /**
   * What one step of the walk does to the merged dictionary. With the
   * entries `ys[..i]` already merged into `xs`, the key of `ys[i]` is either
   * found at a position `j` of `xs` whose entry is still untouched, and the
   * next state replaces it by the merge of the two children; or it is absent,
   * and the next state appends `ys[i]`.
   */
  lemma MergeEdgesStep<V>(a: Trie<V>, xs: Assoc<Trie<V>>, ys: Assoc<Trie<V>>, i: nat)
    requires forall t :: 0 <= t < |xs| ==> xs[t].1 < a
    requires UniqueKeys(xs) && UniqueKeys(ys) && i < |ys|
    ensures var r, k := MergeEdges(a, xs, ys[..i]), ys[i].0;
            var j := IndexOf(r, k);
            && (j < |r| ==> j < |xs| && r[j] == xs[j]
                            && MergeEdges(a, xs, ys[..i + 1]) == r[j := (k, Merge(xs[j].1, ys[i].1))])
            && (j == |r| ==> MergeEdges(a, xs, ys[..i + 1]) == r + [ys[i]])
  {
    var done, e := ys[..i], ys[i];
    assert ys[..i + 1] == done + [e];
    assert forall t :: 0 <= t < |done| ==> Keys(done)[t] != e.0;
    StepPosition(a, xs, done, e.0);
    if e.0 in Keys(xs) {
      StepFound(a, xs, done, e);
    } else {
      StepAbsent(a, xs, done, e);
    }
  }

  /** Where the walk finds key `k` in the dictionary merged so far: at its place in `xs`, untouched. */
  lemma StepPosition<V>(a: Trie<V>, xs: Assoc<Trie<V>>, done: Assoc<Trie<V>>, k: string)
    requires forall t :: 0 <= t < |xs| ==> xs[t].1 < a
    requires k !in Keys(done)
    ensures var r := MergeEdges(a, xs, done);
            && IndexOf(r, k) == (if k in Keys(xs) then IndexOf(xs, k) else |r|)
            && (k in Keys(xs) ==> r[IndexOf(xs, k)] == xs[IndexOf(xs, k)])
  {
    var r := MergeEdges(a, xs, done);
    var front, back := r[..|xs|], r[|xs|..];
    assert r == front + back;
    assert Keys(front) == Keys(xs);
    FreshMembers(done, Keys(xs));
    IndexOfAppend(front, back, k);
    IndexOfKeys(front, xs, k);
    if k in Keys(xs) {
      var j := IndexOf(xs, k);
      assert Find(done, k) == None;
    }
  }

  lemma StepFound<V>(a: Trie<V>, xs: Assoc<Trie<V>>, done: Assoc<Trie<V>>, e: (string, Trie<V>))
    requires forall t :: 0 <= t < |xs| ==> xs[t].1 < a
    requires UniqueKeys(xs) && e.0 !in Keys(done) && e.0 in Keys(xs)
    ensures var j := IndexOf(xs, e.0);
            MergeEdges(a, xs, done + [e]) == MergeEdges(a, xs, done)[j := (e.0, Merge(xs[j].1, e.1))]
  {
    var j := IndexOf(xs, e.0);
    var r, r' := MergeEdges(a, xs, done), MergeEdges(a, xs, done + [e]);
    var m := r[j := (e.0, Merge(xs[j].1, e.1))];
    StepTail(a, xs, done, e);
    assert |r'| == |m|;
    forall t | 0 <= t < |m| ensures r'[t] == m[t] {
      if t < |xs| {
        StepEntry(a, xs, done, e, t);
      } else {
        assert r'[t] == r'[|xs|..][t - |xs|];
        assert r[t] == r[|xs|..][t - |xs|];
      }
    }
  }

  /** Past the entries of `xs`, adding an entry whose key `xs` has changes nothing. */
  lemma StepTail<V>(a: Trie<V>, xs: Assoc<Trie<V>>, done: Assoc<Trie<V>>, e: (string, Trie<V>))
    requires forall t :: 0 <= t < |xs| ==> xs[t].1 < a
    requires e.0 in Keys(xs)
    ensures |MergeEdges(a, xs, done + [e])| == |MergeEdges(a, xs, done)|
    ensures MergeEdges(a, xs, done + [e])[|xs|..] == MergeEdges(a, xs, done)[|xs|..]
  {
    FreshAppend(done, [e], Keys(xs));
    assert Fresh([e], Keys(xs)) == [];
    assert Fresh(done, Keys(xs)) + [] == Fresh(done, Keys(xs));
  }

  /** The entry of `xs` at `t` after the step: merged with `e`'s child when it has `e`'s key, unchanged otherwise. */
  lemma StepEntry<V>(a: Trie<V>, xs: Assoc<Trie<V>>, done: Assoc<Trie<V>>, e: (string, Trie<V>), t: nat)
    requires forall t :: 0 <= t < |xs| ==> xs[t].1 < a
    requires e.0 !in Keys(done) && t < |xs|
    ensures MergeEdges(a, xs, done + [e])[t]
         == if xs[t].0 == e.0 then (e.0, Merge(xs[t].1, e.1)) else MergeEdges(a, xs, done)[t]
  {
    FindAppend(done, [e], xs[t].0);
  }

  lemma StepAbsent<V>(a: Trie<V>, xs: Assoc<Trie<V>>, done: Assoc<Trie<V>>, e: (string, Trie<V>))
    requires forall t :: 0 <= t < |xs| ==> xs[t].1 < a
    requires e.0 !in Keys(done) && e.0 !in Keys(xs)
    ensures MergeEdges(a, xs, done + [e]) == MergeEdges(a, xs, done) + [e]
  {
    var r, r' := MergeEdges(a, xs, done), MergeEdges(a, xs, done + [e]);
    FreshAppend(done, [e], Keys(xs));
    assert Fresh([e], Keys(xs)) == [e];
    assert r'[|xs|..] == r[|xs|..] + [e];
    forall t | 0 <= t < |r'| ensures r'[t] == (r + [e])[t] {
      if t < |xs| {
        StepEntry(a, xs, done, e, t);
      } else {
        assert r'[t] == r'[|xs|..][t - |xs|];
      }
    }
  }

  /**
   * `out.mergeRecord(type, other)` where `out`'s dictionary of that kind is
   * still a copy of `a`'s: for every key of `other`'s dictionary, in order,
   * the entry already present is replaced by the merge of the two children,
   * or the child of `other` is added at the end.
   */
  method MergeRecord<V>(ghost a: Trie<V>, out: Trie<V>, kind: Kind, other: Trie<V>) returns (r: Trie<V>)
    requires Valid(a) && Valid(other)
    requires out.Children(kind) == a.Children(kind)
    ensures r == out.WithChildren(kind, MergeEdges(a, a.Children(kind), other.Children(kind)))
    decreases a, 0, 1
  {
    ChildrenBelow(a, kind);
    var src := other.Children(kind);
    var es := out.Children(kind);
    var i := 0;
    assert src[..0] == [];
    FreshNone(es);
    while i < |src|
      invariant 0 <= i <= |src|
      invariant es == MergeEdges(a, a.Children(kind), src[..i])
    {
      es := MergeEntry(a, kind, other, i, es);
      i := i + 1;
    }
    assert src[..i] == src;
    r := out.WithChildren(kind, es);
  }

  /**
   * One iteration of the loop of `mergeRecord`, for the `i`-th key of
   * `other`'s dictionary: the entry already present under that key is
   * replaced by the merge of the two children, or `other`'s child is added.
   */
  method MergeEntry<V>(ghost a: Trie<V>, kind: Kind, other: Trie<V>, i: nat, es: Assoc<Trie<V>>)
    returns (next: Assoc<Trie<V>>)
    requires Valid(a) && Valid(other) && i < |other.Children(kind)|
    requires forall t :: 0 <= t < |a.Children(kind)| ==> a.Children(kind)[t].1 < a
    requires es == MergeEdges(a, a.Children(kind), other.Children(kind)[..i])
    ensures next == MergeEdges(a, a.Children(kind), other.Children(kind)[..i + 1])
    decreases a, 0, 0
  {
    var data, child := other.Children(kind)[i].0, other.Children(kind)[i].1;
    RecordStep(a, kind, other, i, es);
    var j := IndexOf(es, data);
    if j < |es| {
      var merged := MergeNode(es[j].1, child);
      next := es[j := (data, merged)];
    } else {
      next := es + [(data, child)];
    }
  }

  /**
   * One iteration of `mergeRecord`, stated for the loop: where the key of
   * `other`'s `i`-th entry is found, the children to merge are well-formed
   * and smaller than `a`, and the next state is the merge over one more entry.
   */
  lemma RecordStep<V>(a: Trie<V>, kind: Kind, other: Trie<V>, i: nat, es: Assoc<Trie<V>>)
    requires Valid(a) && Valid(other) && i < |other.Children(kind)|
    requires forall t :: 0 <= t < |a.Children(kind)| ==> a.Children(kind)[t].1 < a
    requires es == MergeEdges(a, a.Children(kind), other.Children(kind)[..i])
    ensures var xs, e := a.Children(kind), other.Children(kind)[i];
            var j := IndexOf(es, e.0);
            && Valid(e.1)
            && (j < |es| ==> es[j].1 < a && Valid(es[j].1)
                             && MergeEdges(a, xs, other.Children(kind)[..i + 1]) == es[j := (e.0, Merge(es[j].1, e.1))])
            && (j == |es| ==> MergeEdges(a, xs, other.Children(kind)[..i + 1]) == es + [e])
  {
    var xs, ys := a.Children(kind), other.Children(kind);
    MergeEdgesStep(a, xs, ys, i);
    ChildOf(other, kind, i);
    var j := IndexOf(es, ys[i].0);
    if j < |es| {
      ChildOf(a, kind, j);
    }
  }

  /** Every child of a node is smaller than the node. */
  lemma ChildrenBelow<V>(t: Trie<V>, kind: Kind)
    ensures forall i :: 0 <= i < |t.Children(kind)| ==> t.Children(kind)[i].1 < t
  {
  }

  /** A child of a well-formed node is well-formed and smaller than the node. */
  lemma ChildOf<V>(t: Trie<V>, kind: Kind, i: nat)
    requires Valid(t) && i < |t.Children(kind)|
    ensures t.Children(kind)[i].1 < t && Valid(t.Children(kind)[i].1)
  {
  }

  /**
   * `a.merge(b)`: a new node holding the payloads of both and copies of
   * `a`'s dictionaries, into which `b`'s dictionaries are merged.
   */
  method MergeNode<V>(a: Trie<V>, b: Trie<V>) returns (out: Trie<V>)
    requires Valid(a) && Valid(b)
    ensures out == Merge(a, b)
    decreases a, 1
  {
    out := Trie(a.value + b.value, a.param, a.branch);
    out := MergeRecord(a, out, Param, b);
    out := MergeRecord(a, out, Branch, b);
  }
}

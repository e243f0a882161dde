/**
 * Laws of the constructors: the shape `ofPath` builds one segment at a
 * time, and `indent` as `ofPath` with a trie payload, composing along paths.
 */
module ConstructionLaws {
  import opened ParamTrie

  /** `ofPath([], v)` is `of(v)`. */
  lemma OfPathNil<V>(v: V)
    ensures OfPath([], v) == Of(v)
  {
  }

  /**
   * `ofPath(s :: rest, v)` has no payloads and a single child, `ofPath(rest, v)`,
   * under `s.data` in the dictionary named by `s`'s kind; the other dictionary
   * is empty.
   */
  lemma OfPathCons<V>(path: Path, v: V)
    requires |path| > 0
    ensures var r, s := OfPath(path, v), path[0];
            && r.value == []
            && r.Children(s.kind) == [(s.data, OfPath(path[1..], v))]
            && r.Children(if s.kind == Param then Branch else Param) == []
  {
  }

  /** Moving a trie below `q` and then below `p` is moving it below `p + q`. */
  lemma {:induction false} WrapAppend<V>(p: Path, q: Path, t: Trie<V>)
    ensures Wrap(p, Wrap(q, t)) == Wrap(p + q, t)
    decreases |p|
  {
    if |p| > 0 {
      assert (p + q)[0] == p[0];
      assert (p + q)[1..] == p[1..] + q;
      WrapAppend(p[1..], q, t);
    } else {
      assert p + q == q;
    }
  }

  /** Indenting by the empty path changes nothing. */
  lemma IndentNil<V>(t: Trie<V>)
    ensures Indent(t, []) == t
  {
  }

  /** Indenting a single-route trie extends its pattern at the front: `ofPath(q, v).indent(p) == ofPath(p + q, v)`. */
  lemma IndentOfPath<V>(q: Path, v: V, p: Path)
    ensures Indent(OfPath(q, v), p) == OfPath(p + q, v)
  {
    WrapAppend(p, q, Of(v));
  }

  /** Indenting twice is indenting once by the concatenated path, outer path first. */
  lemma IndentIndent<V>(t: Trie<V>, q: Path, p: Path)
    ensures Indent(Indent(t, q), p) == Indent(t, p + q)
  {
    WrapAppend(p, q, t);
  }
}

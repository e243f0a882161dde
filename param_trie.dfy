/**
 * The persistent parameter trie: route patterns mapped to payloads, and
 * concrete paths resolved against them, returning every match together with
 * the parameters it binds.
 */
module ParamTrie {
  import opened Edges

  /** The two kinds of pattern segment, and the two child dictionaries of a node. */
  datatype Kind = Param | Branch

  /** A pattern segment: the record `{type, data}`. */
  datatype Segment = Segment(kind: Kind, data: string)

  /** A route pattern. */
  type Path = seq<Segment>

  /** Parameter bindings collected during lookup. */
  type Bindings = map<string, string>

  /**
   * A node: the payloads ending here, the children reached through a
   * parameter (keyed by parameter name) and the children reached through a
   * literal token (keyed by the token).
   */
  datatype Trie<V> = Trie(value: seq<V>, param: Assoc<Trie<V>>, branch: Assoc<Trie<V>>)
  {
    /** The child dictionary of the given kind: `this[type]`. */
    function Children(kind: Kind): Assoc<Trie<V>>
    {
      match kind
      case Param => param
      case Branch => branch
    }

    /** This node with its child dictionary of the given kind replaced by `es`. */
    function WithChildren(kind: Kind, es: Assoc<Trie<V>>): (r: Trie<V>)
      ensures r.value == value && r.Children(kind) == es
      ensures r.Children(if kind == Param then Branch else Param) == Children(if kind == Param then Branch else Param)
    {
      match kind
      case Param => this.(param := es)
      case Branch => this.(branch := es)
    }
  }

  /** One lookup result: a payload and the parameters bound on the way to it. */
  datatype LookupResult<V> = LookupResult(value: V, params: Bindings)

  /** A parameter segment named `name`. */
  function ParamSeg(name: string): (s: Segment)
    ensures s.kind == Param && s.data == name
  {
    Segment(Param, name)
  }

  /** A literal segment matching `token`. */
  function BranchSeg(token: string): (s: Segment)
    ensures s.kind == Branch && s.data == token
  {
    Segment(Branch, token)
  }

  /**
   * Well-formedness: no dictionary of any node holds a key twice. Every trie
   * the source can build satisfies it, since its dictionaries are objects.
   */
  predicate Valid<V>(t: Trie<V>)
    decreases t
  {
    && UniqueKeys(t.param)
    && UniqueKeys(t.branch)
    && (forall i :: 0 <= i < |t.param| ==> Valid(t.param[i].1))
    && (forall i :: 0 <= i < |t.branch| ==> Valid(t.branch[i].1))
  }

  // ---------------------------------------------------------------------
  // Construction
  // ---------------------------------------------------------------------

  /** The trie with no payloads and no children. */
  function Empty<V>(): (r: Trie<V>)
    ensures Valid(r)
    ensures r.value == [] && r.Children(Param) == [] && r.Children(Branch) == []
  {
    Trie([], [], [])
  }

  /** The trie holding the single payload `v` at its root. */
  function Of<V>(v: V): (r: Trie<V>)
    ensures Valid(r)
    ensures r.value == [v] && r.Children(Param) == [] && r.Children(Branch) == []
  {
    Trie([v], [], [])
  }

  /** A node without payloads whose only child is `child`, under `data` in the dictionary of `kind`. */
  function Node<V>(kind: Kind, data: string, child: Trie<V>): (r: Trie<V>)
    ensures r.value == [] && r.Children(kind) == [(data, child)]
    ensures r.Children(if kind == Param then Branch else Param) == []
    ensures Valid(child) ==> Valid(r)
  {
    match kind
    case Param => Trie([], [(data, child)], [])
    case Branch => Trie([], [], [(data, child)])
  }

  /**
   * `ofPath(path, t)` when the payload is itself a trie: the chain of nodes
   * spelling `path`, ending in `t` unchanged.
   */
  function Wrap<V>(path: Path, t: Trie<V>): (r: Trie<V>)
    ensures Valid(t) ==> Valid(r)
    decreases |path|
  {
    if |path| == 0 then t
    else Node(path[0].kind, path[0].data, Wrap(path[1..], t))
  }

  /** `ofPath(path, v)` for a plain payload `v`. */
  function OfPath<V>(path: Path, v: V): (r: Trie<V>)
    ensures Valid(r)
  {
    Wrap(path, Of(v))
  }

  /** `t.indent(path)`: `t` moved below `path`. */
  function Indent<V>(t: Trie<V>, path: Path): (r: Trie<V>)
    ensures Valid(t) ==> Valid(r)
  {
    Wrap(path, t)
  }

  // ---------------------------------------------------------------------
  // Merge
  // ---------------------------------------------------------------------

  /**
   * `a.merge(b)`: payloads of `a` then of `b`; each child dictionary merged
   * key by key.
   */
  function Merge<V>(a: Trie<V>, b: Trie<V>): (r: Trie<V>)
    ensures r.value == a.value + b.value
    decreases a, 1
  {
    Trie(a.value + b.value, MergeEdges(a, a.param, b.param), MergeEdges(a, a.branch, b.branch))
  }

  /**
   * One merged child dictionary: every entry of `xs` in place, merged with
   * the entry of `ys` under the same key if there is one, followed by the
   * entries of `ys` whose key `xs` lacks. `a` is the node owning `xs`.
   */
  function MergeEdges<V>(ghost a: Trie<V>, xs: Assoc<Trie<V>>, ys: Assoc<Trie<V>>): (r: Assoc<Trie<V>>)
    requires forall i :: 0 <= i < |xs| ==> xs[i].1 < a
    ensures |r| == |xs| + |Fresh(ys, Keys(xs))|
    decreases a, 0
  {
    seq(|xs|, i requires 0 <= i < |xs| => (xs[i].0, MergeChild(xs[i].1, Find(ys, xs[i].0))))
    + Fresh(ys, Keys(xs))
  }

  /** A child of the first trie merged with the same-keyed child of the second, if there is one. */
  function MergeChild<V>(x: Trie<V>, y: Option<Trie<V>>): (r: Trie<V>)
    ensures y.None? ==> r == x
    ensures y.Some? ==> r.value == x.value + y.value.value
    decreases x, 2
  {
    match y
    case Some(c) => Merge(x, c)
    case None => x
  }

  // ---------------------------------------------------------------------
  // Lookup
  // ---------------------------------------------------------------------

  /**
   * `t.lookup(path, params)`: with the path used up, one result per payload
   * of the node; otherwise the results of the literal child for the first
   * token (looked up with fresh, empty bindings), followed, for every
   * parameter child in key order, by its results with that parameter bound
   * to the first token.
   */
  function Lookup<V>(t: Trie<V>, path: seq<string>, params: Bindings): (r: seq<LookupResult<V>>)
    ensures |path| == 0 ==> |r| == |t.value|
    ensures |path| == 0 ==> forall i :: 0 <= i < |r| ==> r[i].value == t.value[i] && r[i].params == params
    decreases |path|, 0
  {
    if |path| == 0 then
      if |t.value| == 0 then []
      else seq(|t.value|, i requires 0 <= i < |t.value| => LookupResult(t.value[i], params))
    else
      var first, rest := path[0], path[1..];
      ReduceParams(t.param, first, rest, params, LiteralResults(t, first, rest))
  }

  /** The results of the literal child keyed by `first`, if any, looked up from empty bindings. */
  function LiteralResults<V>(t: Trie<V>, first: string, rest: seq<string>): (r: seq<LookupResult<V>>)
    ensures first !in Keys(t.branch) ==> r == []
    decreases |rest|, 1
  {
    match Find(t.branch, first)
    case Some(child) => Lookup(child, rest, map[])
    case None => []
  }

  /** The `reduce` over the parameter children `es`, appending each child's results to `acc`. */
  function ReduceParams<V>(es: Assoc<Trie<V>>, first: string, rest: seq<string>, params: Bindings,
                           acc: seq<LookupResult<V>>): (r: seq<LookupResult<V>>)
    ensures |acc| <= |r|
    ensures r[..|acc|] == acc
    decreases |rest|, |es| + 1
  {
    if es == [] then acc
    else ReduceParams(es[1..], first, rest, params, acc + Lookup(es[0].1, rest, params[es[0].0 := first]))
  }
}

# ParamTrie in Dafny

This project models `ParamTrie` (index.js), a persistent trie used for routing. It maps route patterns to payloads. A pattern is a sequence of segments. Each segment is either a literal token (a `branch` record) or a named parameter (a `param` record). `lookup` resolves a concrete path of tokens against every stored pattern. It returns each matching payload together with the parameter bindings the match makes.

A node holds three things:
- `value`: its ordered list of payloads;
- `param`: a dictionary from parameter name to child;
- `branch`: a dictionary from literal token to child.

The JavaScript dictionaries are plain objects, and their key order (insertion order) decides the order of lookup results. They are therefore modelled as association lists `seq<(string, Trie<V>)>`. `Valid` says that no list holds a key twice, which every object satisfies.

Modules:
- `Edges`: association lists as JavaScript objects.
  - `Find` is the property access `obj[key]`.
  - `Keys` is `Object.keys` / `for…in` order.
  - `Fresh` picks the entries whose key is missing from a key list.
  - Also here: lemmas on keys, lookups and uniqueness.
- `ParamTrie`: the data model, the constructors (`Empty`, `Of`, `OfPath`, `Indent`), the pure `Merge`, and `Lookup` with its `reduce` (`ReduceParams`).
  - `ofPath(path, value)` has a special case at index.js:28-30 that returns `value` unchanged when it is itself a trie. It is split in two:
    - `Wrap(path, t)`, used by `indent`;
    - `OfPath(path, v) = Wrap(path, Of(v))` for plain payloads.
- `MergeLaws`: the shape of `merge(a, b)`.
  - Key order of each merged dictionary, key set, and the child found under each key.
  - `empty` as a two-sided identity.
  - Preservation of `Valid`.
  - Associativity.
- `MergeLoop`: `merge` and `mergeRecord` as the source runs them. A fresh node gets copies of `a`'s dictionaries. A loop then walks `b`'s keys, merging into an existing entry or adding a new one. The methods are proved to build exactly `Merge(a, b)`.
- `RouteSemantics`: an independent reading of a trie as its list of stored routes (`Routes`), and `Select`, which resolves a path against a route list directly. Main theorem: `LookupSelect`, which says `lookup` returns exactly `Select(Routes(t), path, ps)`, in the same order.
- `LookupLaws`: consequences of that theorem.
  - The single-route trie built by `ofPath`.
  - Round trips.
  - Bindings dropped at literal edges.
  - Soundness and completeness of lookup.
  - The multi-result cases from test.js.
- `MergeSemantics`: what `merge` does to the stored routes and so to `lookup`.
  - `merge(a, b)` stores the routes of `a` and of `b`, each as often as there, and nothing else.
  - A lookup in the merge finds what the two lookups find, in some order.
  - `merge` is therefore commutative up to the order of the results, and the order does differ.
- `ConstructionLaws`: `ofPath` one segment at a time, and `indent` composing along paths.

`merge` never changes its inputs. At index.js:57-58 the source copies `a`'s dictionaries before `mergeRecord` writes into them. In the model every trie is an immutable value, so this holds by construction.

One might expect the literal child to be searched with the bindings collected so far. The code at index.js:78 calls `this.branch[first].lookup(rest)` with none, so every binding made above a literal edge is dropped. The model keeps the code's behaviour, and `BindAfterLiteral` and `DroppedAtLiteral` state it.

## Model

| member | source | states |
|---|---|---|
| ParamTrie.ParamSeg | index.js:1-12 | a parameter segment is the record of kind `param` carrying the name |
| ParamTrie.BranchSeg | index.js:1-16 | a literal segment is the record of kind `branch` carrying the token |
| ParamTrie.Empty | index.js:4-8 | `empty()` has no payloads and empty `param` and `branch` dictionaries, and is well-formed |
| ParamTrie.Of | index.js:22-24 | `of(v)` holds exactly the payload `[v]` and has no children |
| ParamTrie.Wrap | index.js:26-41 | a trie put below a path stays well-formed |
| ParamTrie.OfPath | index.js:26-41 | `ofPath(path, v)` is always well-formed |
| ParamTrie.Indent | index.js:87-89 | indenting a well-formed trie gives a well-formed trie |
| ParamTrie.Merge | index.js:53-56 | the payloads of `merge(a, b)` are `a`'s followed by `b`'s, in order |
| ParamTrie.MergeEdges | index.js:44-49 | a merged dictionary holds one entry per key of `a`'s dictionary plus one per key of `b`'s that `a` lacks; its key order is stated by `MergeLaws.MergeChildKeys` and its children by `MergeLaws.MergeChildFind` |
| ParamTrie.MergeChild | index.js:45-48 | a key that only `a` has keeps `a`'s child unchanged; a key on both sides gets a child whose payloads are `a`'s child's followed by `b`'s child's |
| ParamTrie.Lookup | index.js:68-85 | with the path used up, one result per payload, in payload order, each with the caller's bindings; in full, `RouteSemantics.LookupSelect` characterises it |
| ParamTrie.LiteralResults | index.js:78 | with no literal child under the first token there are no literal results; in full, `RouteSemantics.LiteralSelect` characterises it |
| ParamTrie.Node | index.js:35-40 | one step of `ofPath`: a node without payloads whose only child sits under `data` in the dictionary of `kind`, the other dictionary empty |
| Edges.Find | index.js:45 | the property access `obj[key]` finds a child exactly when `key` is a key of the dictionary, and then it is the entry stored under that key |
| Edges.Keys | index.js:80 | `Object.keys` / `for…in` list the keys in entry order, one per entry |
| ParamTrie.ReduceParams | index.js:80-84 | the `reduce` over parameter children only appends: the results gathered before it stay as a prefix |
| ConstructionLaws.OfPathNil | index.js:27-33 | `ofPath([], v)` equals `of(v)` |
| ConstructionLaws.OfPathCons | index.js:35-40 | `ofPath(s :: rest, v)` has no payloads and one child, `ofPath(rest, v)`, under `s.data` in the dictionary of `s`'s kind; the other dictionary is empty |
| ConstructionLaws.IndentNil | index.js:28-30 | indenting by the empty path returns the trie itself |
| ConstructionLaws.IndentOfPath | index.js:87-89 | `ofPath(q, v).indent(p)` equals `ofPath(p ++ q, v)` (test.js:406-411) |
| ConstructionLaws.WrapAppend | index.js:26-41 | putting a trie below `q` and then below `p` is putting it below `p ++ q` |
| ConstructionLaws.IndentIndent | index.js:87-89 | indenting by `q` and then by `p` is indenting once by `p ++ q` |
| MergeLaws.MergeChildKeys | index.js:44-49 | in each merged dictionary, `a`'s keys keep their order and `b`'s new keys follow in `b`'s order |
| MergeLaws.MergeChildKeySet | index.js:44-49 | the key set of each merged dictionary is the union of both sides' key sets |
| MergeLaws.MergeChildFind | index.js:45-48 | a key on both sides maps to the merge of the two children; a key on one side keeps that child unchanged |
| MergeLaws.MergeIdentity | index.js:53-66 | `merge(empty, t) == t == merge(t, empty)` |
| MergeLaws.MergeValid | index.js:43-66 | merging well-formed tries gives a well-formed trie |
| MergeLaws.MergeAssociative | index.js:43-66 | `merge` is associative on well-formed tries, including key order at every node |
| MergeLoop.MergeEdgesStep | index.js:44-49 | one loop step: a key of `b` already present replaces that entry by the merge of the two children in place, and an absent key is appended |
| MergeLoop.MergeRecord | index.js:43-51 | `out.mergeRecord(type, other)` leaves `out`'s payloads and other dictionary alone and replaces its `type` dictionary by the merge of `a`'s and `other`'s |
| MergeLoop.MergeEntry | index.js:44-49 | one pass of the loop for the `i`-th key of `other`'s dictionary gives exactly the merge of `a`'s dictionary with `other`'s first `i + 1` entries |
| MergeLoop.MergeNode | index.js:53-66 | `a.merge(b)` as the source computes it equals `Merge(a, b)` |
| MergeSemantics.MergeRoutes | index.js:43-66 | `merge(a, b)` stores exactly the routes of `a` and of `b`, as a multiset: no route is lost or invented |
| MergeSemantics.MergeLookup | index.js:43-85 | a lookup in `merge(a, b)` returns exactly the results of the lookups in `a` and in `b`, as a multiset |
| MergeSemantics.MergeCommutes | index.js:43-66 | `merge` is commutative up to the order of the lookup results |
| MergeSemantics.MergeOrderMatters | index.js:44-49 | the order is not commutative: merging two one-parameter tries either way round lists the parameter names in different orders |
| MergeSemantics.EdgeMergeRoutes | index.js:44-49 | after any number of steps of the `mergeRecord` loop, the routes below the dictionary are those below `a`'s dictionary and below the entries of `b` walked so far |
| MergeSemantics.PrefixPermutation | index.js:35-40 | putting a segment in front of every pattern commutes with reordering the routes |
| MergeSemantics.SelectPermutation | index.js:68-85 | resolving a path commutes with reordering the routes |
| RouteSemantics.LookupSelect | index.js:68-85 | `t.lookup(path, ps)` returns, in order, one result per stored route whose pattern matches `path`, carrying the route's payload and the bindings its pattern makes |
| RouteSemantics.ReduceSelect | index.js:80-84 | the `reduce` appends, in key order, each parameter child's matches with that parameter bound to the first token |
| RouteSemantics.SelectBranch | index.js:78 | the literal children contribute only the child keyed by the first token, searched from empty bindings |
| RouteSemantics.LiteralSelect | index.js:78 | the results of the literal child under the first token are exactly the matches among the routes stored below the literal children |
| RouteSemantics.SelectPrefix | index.js:77-84 | routes behind a literal segment match only its own token and restart the bindings; routes behind a parameter bind its name to the token |
| RouteSemantics.LookupSelectNil | index.js:69-75 | with the path used up, lookup returns one result per payload in payload order, each with the caller's bindings; with no payloads it returns nothing |
| RouteSemantics.MatchesPointwise | index.js:77-84 | a pattern matches a path exactly when the lengths agree and every literal segment equals the token at its position |
| LookupLaws.OfPathRoutes | index.js:26-41 | `ofPath(p, v)` stores exactly one route, `v` under `p` |
| LookupLaws.WrapRoutes | index.js:28-40 | a trie put below a path stores its routes with the path in front of each pattern |
| LookupLaws.LookupOfPath | index.js:68-85 | `ofPath(p, v).lookup(path, ps)` gives one result exactly when `p` matches `path`, otherwise none |
| LookupLaws.LiteralRoundTrip | index.js:78 | a literal-only pattern is found under its own tokens with empty bindings (test.js:111-114) |
| LookupLaws.ParamRoundTrip | index.js:80-84 | `ofPath([param name], v).lookup([token], ps)` gives `v` with `name` bound to `token` (test.js:115-119) |
| LookupLaws.BindAfterLiteral | index.js:78 | the bindings reported for a pattern come only from parameters after its last literal segment |
| LookupLaws.DroppedAtLiteral | index.js:78 | `ofPath([param x, branch y], v).lookup([a, y])` gives `v` with no bindings: `x` is dropped |
| LookupLaws.LookupMembers | index.js:68-85 | a result is returned exactly when some stored route matches the path and the result is that route's payload and bindings |
| LookupLaws.LookupDead | index.js:80-84 | a trie that stores no payload anywhere returns no result for any path |
| LookupLaws.LiteralBeforeParams | test.js:122-142 | with a literal child and two parameter children, the literal result comes first, then one result per parameter in key order, each binding only its own name |
| LookupLaws.EmptyParamsPruned | test.js:145-161 | parameter children with nothing stored contribute no result |

## Left out

- Shared bindings object: the source mutates a single `params` object during the `reduce` (index.js:82). The base case stores that same object in every result (index.js:74), so later sibling parameter branches change bindings already returned. The model extends an immutable map per branch (`params[name := first]`). This gives the separate bindings test.js:137-141 expects, not the aliased ones the code produces.
- JavaScript object quirks are not modelled:
  - keys inherited from the prototype (such as `toString`) that make `this.branch[first]` or `this[type][data]` truthy (index.js:45, 78);
  - `for…in` also enumerating inherited properties (index.js:44);
  - integer-like keys that `Object.keys` moves ahead of other keys.
  Keys are plain strings kept in insertion order.
- The truthiness tests at index.js:45 and 78 are modelled as key presence. A stored child is always an object, so the two agree.
- Payloads are opaque single values. `[].concat(value)` flattening an array payload into several payloads, and `of()` with no argument giving no payload (index.js:4-5), are not modelled.
- The constructor's optional-argument forms (index.js:4-8) are used only through `Empty`, `Of` and the `Trie` datatype constructor.
- The `instanceof ParamTrie` test at index.js:28 is replaced by two functions: `Wrap` for trie payloads and `OfPath` for plain ones.
- `fromMap`, `insert` and `fromEntries` have no implementation in index.js, so they are not part of this model. The Map-keyed constructor forms used by some cases in test.js are not part of it either.
- ParamTrie.Wrap, ParamTrie.OfPath, ParamTrie.Indent: their own contracts state only well-formedness. Their shape and stored routes are stated by `ConstructionLaws.OfPathCons`, `LookupLaws.WrapRoutes` and `LookupLaws.OfPathRoutes`.

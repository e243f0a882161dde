/**
 * Association lists keyed by strings: the model of a plain JavaScript object
 * used as a dictionary, whose keys enumerate in insertion order.
 */
module Edges {

  datatype Option<T> = None | Some(value: T)

  /** A dictionary as its entries, in key-insertion order. */
  type Assoc<C> = seq<(string, C)>

  /** The keys of a dictionary, in enumeration order. */
  function Keys<C>(es: Assoc<C>): (ks: seq<string>)
    ensures |ks| == |es|
    ensures forall i :: 0 <= i < |es| ==> ks[i] == es[i].0
  {
    if es == [] then [] else [es[0].0] + Keys(es[1..])
  }

  /** No key occurs twice: true of every JavaScript object. */
  predicate UniqueKeys<C>(es: Assoc<C>)
  {
    forall i, j :: 0 <= i < j < |es| ==> es[i].0 != es[j].0
  }

  /** Position of the entry for `k`, or `|es|` when there is none. */
  function IndexOf<C>(es: Assoc<C>, k: string): (r: nat)
    ensures r <= |es|
    ensures r < |es| ==> es[r].0 == k
    ensures forall i :: 0 <= i < r ==> es[i].0 != k
    ensures r == |es| <==> k !in Keys(es)
  {
    if es == [] then 0
    else if es[0].0 == k then 0
    else 1 + IndexOf(es[1..], k)
  }

  /** Property access `obj[k]`: the value stored under `k`, if any. */
  function Find<C>(es: Assoc<C>, k: string): (r: Option<C>)
    ensures r.Some? <==> k in Keys(es)
    ensures r.Some? ==> IndexOf(es, k) < |es| && r.value == es[IndexOf(es, k)].1
  {
    var i := IndexOf(es, k);
    if i < |es| then Some(es[i].1) else None
  }

  /** The entries of `bs` whose key is not among `ks`, in the order of `bs`. */
  function Fresh<C>(bs: Assoc<C>, ks: seq<string>): (r: Assoc<C>)
    ensures |r| <= |bs|
  {
    if bs == [] then []
    else (if bs[0].0 in ks then [] else [bs[0]]) + Fresh(bs[1..], ks)
  }

  /** The keys kept by Fresh are exactly the keys of `bs` outside `ks`. */
  lemma {:induction false} FreshMembers<C>(bs: Assoc<C>, ks: seq<string>)
    ensures forall k :: k in Keys(Fresh(bs, ks)) <==> k in Keys(bs) && k !in ks
  {
    if bs != [] {
      var head: Assoc<C> := if bs[0].0 in ks then [] else [bs[0]];
      KeysAppend(head, Fresh(bs[1..], ks));
      FreshMembers(bs[1..], ks);
    }
  }

  /** Fresh keeps entries of `bs` only. */
  lemma {:induction false} FreshSubset<C>(bs: Assoc<C>, ks: seq<string>)
    ensures forall e :: e in Fresh(bs, ks) ==> e in bs
  {
    if bs != [] {
      FreshSubset(bs[1..], ks);
    }
  }

  lemma KeysCons<C>(es: Assoc<C>)
    requires es != []
    ensures Keys(es) == [es[0].0] + Keys(es[1..])
  {
  }

  lemma IndexOfKeys<C, D>(xs: Assoc<C>, ys: Assoc<D>, k: string)
    requires Keys(xs) == Keys(ys)
    ensures IndexOf(xs, k) == IndexOf(ys, k)
  {
  }

  /** In a dictionary without repeated keys every entry is found under its key. */
  lemma FindAt<C>(es: Assoc<C>, i: nat)
    requires UniqueKeys(es) && i < |es|
    ensures Find(es, es[i].0) == Some(es[i].1)
  {
    var j := IndexOf(es, es[i].0);
    assert j <= i;
    assert j == i;
  }

  /** Property access on a non-empty dictionary: the first entry if it has the key, otherwise the rest. */
  lemma FindCons<C>(es: Assoc<C>, k: string)
    requires es != []
    ensures Find(es, k) == if es[0].0 == k then Some(es[0].1) else Find(es[1..], k)
  {
    if es[0].0 != k {
      var j := IndexOf(es[1..], k);
      if j < |es| - 1 {
        assert es[1..][j] == es[j + 1];
      }
    }
  }

  lemma {:induction false} FindAppend<C>(xs: Assoc<C>, ys: Assoc<C>, k: string)
    ensures Find(xs + ys, k) == if k in Keys(xs) then Find(xs, k) else Find(ys, k)
  {
    IndexOfAppend(xs, ys, k);
    var i, j := IndexOf(xs, k), IndexOf(ys, k);
    if i < |xs| {
      assert (xs + ys)[i] == xs[i];
    } else if j < |ys| {
      assert (xs + ys)[|xs| + j] == ys[j];
    }
  }

  lemma {:induction false} IndexOfAppend<C>(xs: Assoc<C>, ys: Assoc<C>, k: string)
    ensures IndexOf(xs + ys, k) == if k in Keys(xs) then IndexOf(xs, k) else |xs| + IndexOf(ys, k)
  {
    if xs == [] {
      assert xs + ys == ys;
    } else if xs[0].0 != k {
      assert (xs + ys)[1..] == xs[1..] + ys;
      IndexOfAppend(xs[1..], ys, k);
    }
  }

  lemma {:induction false} FindFresh<C>(bs: Assoc<C>, ks: seq<string>, k: string)
    ensures Find(Fresh(bs, ks), k) == if k in ks then None else Find(bs, k)
  {
    if bs != [] {
      FindFresh(bs[1..], ks, k);
      var head: Assoc<C> := if bs[0].0 in ks then [] else [bs[0]];
      FindAppend(head, Fresh(bs[1..], ks), k);
      assert bs == [bs[0]] + bs[1..];
      FindAppend([bs[0]], bs[1..], k);
      assert Keys([bs[0]]) == [bs[0].0];
      if head != [] {
        assert Keys(head) == [bs[0].0];
      }
    }
  }

  lemma {:induction false} FreshUnique<C>(bs: Assoc<C>, ks: seq<string>)
    requires UniqueKeys(bs)
    ensures UniqueKeys(Fresh(bs, ks))
  {
    if bs != [] {
      FreshUnique(bs[1..], ks);
      var tail := Fresh(bs[1..], ks);
      FreshMembers(bs[1..], ks);
      if bs[0].0 !in ks {
        assert bs[0].0 !in Keys(tail);
        ConsUnique(bs[0], tail);
      }
    }
  }

  lemma ConsUnique<C>(e: (string, C), es: Assoc<C>)
    requires UniqueKeys(es) && e.0 !in Keys(es)
    ensures UniqueKeys([e] + es)
  {
    var r := [e] + es;
    forall i, j | 0 <= i < j < |r| ensures r[i].0 != r[j].0 {
      if i == 0 {
        assert Keys(es)[j - 1] == r[j].0;
      } else {
        assert r[i] == es[i - 1] && r[j] == es[j - 1];
      }
    }
  }

  lemma {:induction false} FreshAppend<C>(xs: Assoc<C>, ys: Assoc<C>, ks: seq<string>)
    ensures Fresh(xs + ys, ks) == Fresh(xs, ks) + Fresh(ys, ks)
  {
    if xs == [] {
      assert xs + ys == ys;
    } else {
      assert (xs + ys)[1..] == xs[1..] + ys;
      FreshAppend(xs[1..], ys, ks);
    }
  }

  lemma {:induction false} KeysAppend<C>(xs: Assoc<C>, ys: Assoc<C>)
    ensures Keys(xs + ys) == Keys(xs) + Keys(ys)
  {
    if xs == [] {
      assert xs + ys == ys;
    } else {
      assert (xs + ys)[1..] == xs[1..] + ys;
      KeysAppend(xs[1..], ys);
    }
  }

  /** Two dictionaries with the same keys in the same order and the same value under every key are equal. */
  lemma Extensionality<C>(xs: Assoc<C>, ys: Assoc<C>)
    requires UniqueKeys(xs) && Keys(xs) == Keys(ys)
    requires forall k :: Find(xs, k) == Find(ys, k)
    ensures xs == ys
  {
    assert |xs| == |ys|;
    assert UniqueKeys(ys) by {
      forall i, j | 0 <= i < j < |ys| ensures ys[i].0 != ys[j].0 {
        assert Keys(xs)[i] == ys[i].0 && Keys(xs)[j] == ys[j].0;
      }
    }
    forall i | 0 <= i < |xs| ensures xs[i] == ys[i] {
      assert Keys(xs)[i] == ys[i].0;
      FindAt(xs, i);
      FindAt(ys, i);
    }
  }

  /** Nothing is filtered out by an empty key list. */
  lemma {:induction false} FreshNone<C>(bs: Assoc<C>)
    ensures Fresh(bs, []) == bs
  {
    if bs != [] {
      FreshNone(bs[1..]);
      assert bs == [bs[0]] + bs[1..];
    }
  }

  /** Whether keys repeat depends on the key sequence alone. */
  lemma UniqueKeysByKeys<C, D>(xs: Assoc<C>, ys: Assoc<D>)
    requires Keys(xs) == Keys(ys) && UniqueKeys(xs)
    ensures UniqueKeys(ys)
  {
    forall i, j | 0 <= i < j < |ys| ensures ys[i].0 != ys[j].0 {
      assert Keys(ys)[i] == xs[i].0 && Keys(ys)[j] == xs[j].0;
    }
  }

  lemma UniqueAppend<C>(xs: Assoc<C>, ys: Assoc<C>)
    requires UniqueKeys(xs) && UniqueKeys(ys)
    requires forall k :: k in Keys(ys) ==> k !in Keys(xs)
    ensures UniqueKeys(xs + ys)
  {
    var r := xs + ys;
    forall i, j | 0 <= i < |xs| && 0 <= j < |ys| ensures xs[i].0 != ys[j].0 {
      var kx, ky := Keys(xs), Keys(ys);
      assert kx[i] == xs[i].0 && ky[j] == ys[j].0;
      assert ky[j] in ky;
    }
    forall i, j | 0 <= i < j < |r| ensures r[i].0 != r[j].0 {
      if j < |xs| {
        assert r[i] == xs[i] && r[j] == xs[j];
      } else if i < |xs| {
        assert r[i] == xs[i] && r[j] == ys[j - |xs|];
      } else {
        assert r[i] == ys[i - |xs|] && r[j] == ys[j - |xs|];
      }
    }
  }

  // ---------------------------------------------------------------------
  // Key order, on key sequences alone
  // ---------------------------------------------------------------------

  /** The keys of `ks` that `excl` lacks, in order. */
  function Without(ks: seq<string>, excl: seq<string>): (r: seq<string>)
    ensures |r| <= |ks|
  {
    if ks == [] then []
    else (if ks[0] in excl then [] else [ks[0]]) + Without(ks[1..], excl)
  }

  /** The keys of the entries `Fresh` keeps are the keys `Without` keeps. */
  lemma {:induction false} KeysFresh<C>(bs: Assoc<C>, ks: seq<string>)
    ensures Keys(Fresh(bs, ks)) == Without(Keys(bs), ks)
  {
    if bs != [] {
      KeysCons(bs);
      KeysFresh(bs[1..], ks);
      var head: Assoc<C> := if bs[0].0 in ks then [] else [bs[0]];
      KeysAppend(head, Fresh(bs[1..], ks));
    }
  }

  lemma {:induction false} WithoutMembers(ks: seq<string>, excl: seq<string>)
    ensures forall k :: k in Without(ks, excl) <==> k in ks && k !in excl
  {
    if ks != [] {
      WithoutMembers(ks[1..], excl);
      assert ks == [ks[0]] + ks[1..];
    }
  }

  lemma {:induction false} WithoutAppend(xs: seq<string>, ys: seq<string>, excl: seq<string>)
    ensures Without(xs + ys, excl) == Without(xs, excl) + Without(ys, excl)
  {
    if xs == [] {
      assert xs + ys == ys;
    } else {
      assert (xs + ys)[1..] == xs[1..] + ys;
      WithoutAppend(xs[1..], ys, excl);
    }
  }

  lemma {:induction false} WithoutWithout(ks: seq<string>, e1: seq<string>, e2: seq<string>)
    ensures Without(Without(ks, e1), e2) == Without(ks, e1 + e2)
  {
    if ks != [] {
      WithoutWithout(ks[1..], e1, e2);
      var head := if ks[0] in e1 then [] else [ks[0]];
      WithoutAppend(head, Without(ks[1..], e1), e2);
      if head != [] {
        assert head[1..] == [];
      }
    }
  }

  /** `Without` depends on `excl` only through which keys of `ks` it holds. */
  lemma {:induction false} WithoutSameMembers(ks: seq<string>, e1: seq<string>, e2: seq<string>)
    requires forall k :: k in ks ==> (k in e1 <==> k in e2)
    ensures Without(ks, e1) == Without(ks, e2)
  {
    if ks != [] {
      assert forall k :: k in ks[1..] ==> k in ks;
      WithoutSameMembers(ks[1..], e1, e2);
    }
  }

  /**
   * Extending `ka` by the new keys of `kb`, then by the new keys of `kc`,
   * gives the same order as extending `ka` by the new keys of
   * `kb` extended by the new keys of `kc`.
   */
  lemma KeyOrderAssociative(ka: seq<string>, kb: seq<string>, kc: seq<string>)
    ensures var kab := ka + Without(kb, ka);
            kab + Without(kc, kab) == ka + Without(kb + Without(kc, kb), ka)
  {
    var kab := ka + Without(kb, ka);
    assert Without(kb + Without(kc, kb), ka) == Without(kb, ka) + Without(kc, kab) by {
      WithoutAppend(kb, Without(kc, kb), ka);
      WithoutWithout(kc, kb, ka);
      WithoutMembers(kb, ka);
      WithoutSameMembers(kc, kb + ka, kab);
    }
  }
}

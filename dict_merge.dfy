/** util.ddl_merge and util.ddl_uniq_key_merge: merging one
    `defaultdict(list)` into another, in place. The dictionary merged in is
    given as its `items()`, a list of key/value pairs in dictionary order. */
module DictMerge {

  /** A value of the merged-in dictionary: a list is merged element by
      element, anything else is appended as one element. */
  datatype Value<E> = Many(items: seq<E>) | One(item: E)

  function Items<E>(v: Value<E>): seq<E>
  {
    match v
    case Many(items) => items
    case One(item) => [item]
  }

  /** A `defaultdict(list)`: reading a missing key gives (and stores) the
      empty list. */
  class ListDict<K(==), E> {
    var entries: map<K, seq<E>>

    constructor(m: map<K, seq<E>>)
      ensures entries == m
    {
      entries := m;
    }

    /** The list stored under `k`, the empty list when there is none. */
    function Get(k: K): seq<E>
      reads this
    {
      if k in entries then entries[k] else []
    }
  }

  function Lookup<K, E>(m: map<K, seq<E>>, k: K): seq<E>
  {
    if k in m then m[k] else []
  }

  /** Some pair of `items` has key `k`. */
  predicate HasKey<K(==), V>(items: seq<(K, V)>, k: K)
  {
    exists i :: 0 <= i < |items| && items[i].0 == k
  }

  // ---------------------------------------------------------------- ddl_merge

  /** The value ddl_merge leaves in `m1` after merging the pairs `items`. */
  function Merged<K, E>(m1: map<K, seq<E>>, items: seq<(K, Value<E>)>): map<K, seq<E>>
  {
    if |items| == 0 then m1
    else
      var m := Merged(m1, items[..|items| - 1]);
      var (k, v) := items[|items| - 1];
      m[k := Lookup(m, k) + Items(v)]
  }

  /** util.ddl_merge: `m1[k].extend(v)` for a list `v`, `m1[k].append(v)`
      otherwise. */
  method Merge<K, E>(m1: ListDict<K, E>, items: seq<(K, Value<E>)>)
    modifies m1
    ensures m1.entries == Merged(old(m1.entries), items)
  {
    ghost var m0 := m1.entries;
    for i := 0 to |items|
      invariant m1.entries == Merged(m0, items[..i])
    {
      assert items[..i + 1][..i] == items[..i];
      var (k, v) := items[i];
      var l := if k in m1.entries then m1.entries[k] else [];
      match v {
        case Many(vs) => l := l + vs;
        case One(item) => l := l + [item];
      }
      m1.entries := m1.entries[k := l];
    }
    assert items[..|items|] == items;
  }

  /** The items the pairs of `items` with key `k` contribute, in order. */
  function ItemsFor<K(==), E>(items: seq<(K, Value<E>)>, k: K): seq<E>
  {
    if |items| == 0 then []
    else
      var (k', v) := items[|items| - 1];
      if k' == k then ItemsFor(items[..|items| - 1], k) + Items(v)
      else ItemsFor(items[..|items| - 1], k)
  }

  /** Read through the default, every key holds its old list followed by the
      items merged in under it, in order. */
  lemma {:induction false} MergedLookup<K, E>(m1: map<K, seq<E>>, items: seq<(K, Value<E>)>, k: K)
    ensures Lookup(Merged(m1, items), k) == Lookup(m1, k) + ItemsFor(items, k)
  {
    if |items| > 0 {
      MergedLookup(m1, items[..|items| - 1], k);
    }
  }

  /** The stored keys are the old ones and every key of the merged-in
      dictionary, even one whose list was empty. */
  lemma {:induction false} MergedKeys<K, E>(m1: map<K, seq<E>>, items: seq<(K, Value<E>)>, k: K)
    ensures k in Merged(m1, items) <==> k in m1 || HasKey(items, k)
  {
    if |items| > 0 {
      var init := items[..|items| - 1];
      MergedKeys(m1, init, k);
      if HasKey(init, k) {
        var i :| 0 <= i < |init| && init[i].0 == k;
        assert items[i].0 == k;
      }
      if HasKey(items, k) && items[|items| - 1].0 != k {
        var i :| 0 <= i < |items| && items[i].0 == k;
        assert init[i].0 == k;
      }
    }
  }

  /** A key that the merged-in dictionary does not have keeps its list. */
  lemma {:induction false} ItemsForMissing<K, E>(items: seq<(K, Value<E>)>, k: K)
    requires !HasKey(items, k)
    ensures ItemsFor(items, k) == []
  {
    if |items| > 0 {
      var init := items[..|items| - 1];
      ItemsForMissing(init, k);
    }
  }

  /** In a dictionary each key occurs once: the list under a key of `m2`
      becomes its old list followed by that key's items. */
  lemma {:induction false} ItemsForUnique<K, E>(items: seq<(K, Value<E>)>, i: nat)
    requires i < |items|
    requires forall a, b :: 0 <= a < b < |items| ==> items[a].0 != items[b].0
    ensures ItemsFor(items, items[i].0) == Items(items[i].1)
  {
    var init := items[..|items| - 1];
    if i == |items| - 1 {
      ItemsForMissing(init, items[i].0);
    } else {
      assert init[i] == items[i];
      ItemsForUnique(init, i);
    }
  }

  // ------------------------------------------------------- ddl_uniq_key_merge

  /** Elements of the lists are dictionaries; `ukey` names their unique key. */
  type Record<F, U> = map<F, U>

  predicate Keyed<F, U>(l: seq<Record<F, U>>, ukey: F)
  {
    forall i :: 0 <= i < |l| ==> ukey in l[i]
  }

  /** `[e[ukey] for e in l]`. */
  function KeyValues<F, U>(l: seq<Record<F, U>>, ukey: F): seq<U>
    requires Keyed(l, ukey)
  {
    seq(|l|, i requires 0 <= i < |l| => l[i][ukey])
  }

  /** No two elements share a `ukey` value. */
  predicate UniqueKeys<F, U(==)>(l: seq<Record<F, U>>, ukey: F)
    requires Keyed(l, ukey)
  {
    forall i, j :: 0 <= i < j < |l| ==> l[i][ukey] != l[j][ukey]
  }

  /** `l` after each of `items` is appended unless an element with the same
      `ukey` value is already present, items appended earlier included. */
  function AppendNew<F, U(==)>(l: seq<Record<F, U>>, items: seq<Record<F, U>>, ukey: F): (r: seq<Record<F, U>>)
    requires Keyed(l, ukey) && Keyed(items, ukey)
    ensures Keyed(r, ukey)
    decreases |items|
  {
    if |items| == 0 then l
    else
      var l' := AppendNew(l, items[..|items| - 1], ukey);
      var e := items[|items| - 1];
      if e[ukey] in KeyValues(l', ukey) then l' else l' + [e]
  }

  /** Every list of `m` has only records carrying `ukey`. */
  predicate AllKeyed<K, F, U>(m: map<K, seq<Record<F, U>>>, ukey: F)
  {
    forall k :: k in m ==> Keyed(m[k], ukey)
  }

  /** Every record of every pair carries `ukey`. */
  predicate ItemsKeyed<K, F, U>(items: seq<(K, Value<Record<F, U>>)>, ukey: F)
  {
    forall i :: 0 <= i < |items| ==> Keyed(Items(items[i].1), ukey)
  }

  /** One pair merged in. An empty list value never reads `m1[k]`, so it
      stores nothing, not even the default. */
  function UniqStep<K, F, U(==)>(m: map<K, seq<Record<F, U>>>, k: K, v: Value<Record<F, U>>, ukey: F)
    : (r: map<K, seq<Record<F, U>>>)
    requires AllKeyed(m, ukey) && Keyed(Items(v), ukey)
    ensures AllKeyed(r, ukey)
  {
    if v == Many([]) then m
    else m[k := AppendNew(Lookup(m, k), Items(v), ukey)]
  }

  /** The value ddl_uniq_key_merge leaves in `m1`. */
  function UniqMerged<K, F, U(==)>(m1: map<K, seq<Record<F, U>>>, items: seq<(K, Value<Record<F, U>>)>, ukey: F)
    : (r: map<K, seq<Record<F, U>>>)
    requires AllKeyed(m1, ukey) && ItemsKeyed(items, ukey)
    ensures AllKeyed(r, ukey)
  {
    if |items| == 0 then m1
    else
      var (k, v) := items[|items| - 1];
      UniqStep(UniqMerged(m1, items[..|items| - 1], ukey), k, v, ukey)
  }

  /** The inner loop of util.ddl_uniq_key_merge for a list value: each
      element is appended unless its `ukey` value is already in the list. */
  method AppendUnseen<F, U(==)>(l: seq<Record<F, U>>, items: seq<Record<F, U>>, ukey: F)
    returns (r: seq<Record<F, U>>)
    requires Keyed(l, ukey) && Keyed(items, ukey)
    ensures r == AppendNew(l, items, ukey)
  {
    r := l;
    for i := 0 to |items|
      invariant Keyed(r, ukey)
      invariant r == AppendNew(l, items[..i], ukey)
    {
      var e1 := items[i];
      var seen := seq(|r|, j requires 0 <= j < |r| => r[j][ukey]);
      if e1[ukey] !in seen {
        r := r + [e1];
      }
      assert items[..i + 1][..i] == items[..i];
    }
    assert items[..|items|] == items;
  }

  /** util.ddl_uniq_key_merge. The records must all carry `ukey`: a record
      without it raises KeyError in the source, which is not modelled. */
  method UniqKeyMerge<K, F, U(==)>(m1: ListDict<K, Record<F, U>>, items: seq<(K, Value<Record<F, U>>)>, ukey: F)
    requires AllKeyed(m1.entries, ukey) && ItemsKeyed(items, ukey)
    modifies m1
    ensures m1.entries == UniqMerged(old(m1.entries), items, ukey)
  {
    ghost var m0 := m1.entries;
    for i := 0 to |items|
      invariant m1.entries == UniqMerged(m0, items[..i], ukey)
    {
      assert items[..i + 1][..i] == items[..i];
      ghost var before := m1.entries;
      var (k, v) := items[i];
      assert Keyed(Items(v), ukey);
      var l := if k in m1.entries then m1.entries[k] else [];
      match v {
        case Many(vs) =>
          if |vs| > 0 {
            l := AppendUnseen(l, vs, ukey);
            m1.entries := m1.entries[k := l];
          }
        case One(e) =>
          assert Items(v)[0] == e;
          var seen := seq(|l|, j requires 0 <= j < |l| => l[j][ukey]);
          assert seen == KeyValues(l, ukey);
          assert [e][..0] == [];
          assert AppendNew(l, [e], ukey) == if e[ukey] in KeyValues(l, ukey) then l else l + [e];
          if e[ukey] !in seen {
            l := l + [e];
          }
          m1.entries := m1.entries[k := l];
      }
      assert m1.entries == UniqStep(before, k, v, ukey);
    }
    assert items[..|items|] == items;
  }

  /** AppendNew keeps the old list as a prefix and adds only items, exactly
      the items whose key value was not present yet. */
  lemma {:induction false} AppendNewKeys<F, U>(l: seq<Record<F, U>>, items: seq<Record<F, U>>, ukey: F)
    requires Keyed(l, ukey) && Keyed(items, ukey)
    ensures var r := AppendNew(l, items, ukey);
      |l| <= |r| && r[..|l|] == l &&
      (forall i :: |l| <= i < |r| ==> r[i] in items) &&
      (forall u :: u in KeyValues(r, ukey) <==> u in KeyValues(l, ukey) || u in KeyValues(items, ukey))
    decreases |items|
  {
    if |items| > 0 {
      var init := items[..|items| - 1];
      AppendNewKeys(l, init, ukey);
      var l' := AppendNew(l, init, ukey);
      var e := items[|items| - 1];
      forall u
        ensures u in KeyValues(items, ukey) <==> u in KeyValues(init, ukey) || u == e[ukey]
      {
        if u in KeyValues(items, ukey) {
          var i :| 0 <= i < |items| && KeyValues(items, ukey)[i] == u;
          if i < |items| - 1 {
            assert KeyValues(init, ukey)[i] == u;
          }
        }
        if u in KeyValues(init, ukey) {
          var i :| 0 <= i < |init| && KeyValues(init, ukey)[i] == u;
          assert KeyValues(items, ukey)[i] == u;
        }
        if u == e[ukey] {
          assert KeyValues(items, ukey)[|items| - 1] == u;
        }
      }
      if e[ukey] !in KeyValues(l', ukey) {
        var r := l' + [e];
        assert KeyValues(r, ukey) == KeyValues(l', ukey) + [e[ukey]];
        assert r[..|l|] == l'[..|l|];
      }
    }
  }

  /** Appending only unseen key values keeps the list free of duplicates. */
  lemma {:induction false} AppendNewUnique<F, U>(l: seq<Record<F, U>>, items: seq<Record<F, U>>, ukey: F)
    requires Keyed(l, ukey) && Keyed(items, ukey) && UniqueKeys(l, ukey)
    ensures UniqueKeys(AppendNew(l, items, ukey), ukey)
    decreases |items|
  {
    if |items| > 0 {
      AppendNewUnique(l, items[..|items| - 1], ukey);
      var l' := AppendNew(l, items[..|items| - 1], ukey);
      var e := items[|items| - 1];
      if e[ukey] !in KeyValues(l', ukey) {
        forall i | 0 <= i < |l'|
          ensures l'[i][ukey] != e[ukey]
        {
          assert KeyValues(l', ukey)[i] == l'[i][ukey];
        }
      }
    }
  }

  predicate AllUnique<K, F, U(==)>(m: map<K, seq<Record<F, U>>>, ukey: F)
    requires AllKeyed(m, ukey)
  {
    forall k :: k in m ==> UniqueKeys(m[k], ukey)
  }

  /** ddl_uniq_key_merge keeps `ukey` values unique within each list: if
      every list is free of duplicates before the merge, every list is after
      it. */
  lemma {:induction false} UniqMergedUnique<K, F, U>(m1: map<K, seq<Record<F, U>>>, items: seq<(K, Value<Record<F, U>>)>, ukey: F)
    requires AllKeyed(m1, ukey) && ItemsKeyed(items, ukey)
    requires AllUnique(m1, ukey)
    ensures AllUnique(UniqMerged(m1, items, ukey), ukey)
  {
    if |items| > 0 {
      var init := items[..|items| - 1];
      UniqMergedUnique(m1, init, ukey);
      var m := UniqMerged(m1, init, ukey);
      var (k, v) := items[|items| - 1];
      if v != Many([]) {
        AppendNewUnique(Lookup(m, k), Items(v), ukey);
      }
    }
  }

  /** Keys: a key is stored after the merge iff it was stored before or
      some pair carries it with a value other than an empty list. */
  lemma {:induction false} UniqMergedKeys<K, F, U>(m1: map<K, seq<Record<F, U>>>, items: seq<(K, Value<Record<F, U>>)>, ukey: F, k: K)
    requires AllKeyed(m1, ukey) && ItemsKeyed(items, ukey)
    ensures k in UniqMerged(m1, items, ukey) <==>
      k in m1 || exists i :: 0 <= i < |items| && items[i].0 == k && items[i].1 != Many([])
  {
    if |items| > 0 {
      var init := items[..|items| - 1];
      UniqMergedKeys(m1, init, ukey, k);
      if exists i :: 0 <= i < |init| && init[i].0 == k && init[i].1 != Many([]) {
        var i :| 0 <= i < |init| && init[i].0 == k && init[i].1 != Many([]);
        assert items[i] == init[i];
      }
      if exists i :: 0 <= i < |items| && items[i].0 == k && items[i].1 != Many([]) {
        var i :| 0 <= i < |items| && items[i].0 == k && items[i].1 != Many([]);
        if i < |init| {
          assert init[i] == items[i];
        }
      }
    }
  }

  /** Every list starts with the list the key held before the merge. */
  lemma {:induction false} UniqMergedPrefix<K, F, U>(m1: map<K, seq<Record<F, U>>>, items: seq<(K, Value<Record<F, U>>)>, ukey: F, k: K)
    requires AllKeyed(m1, ukey) && ItemsKeyed(items, ukey)
    ensures var r := UniqMerged(m1, items, ukey);
      |Lookup(m1, k)| <= |Lookup(r, k)| && Lookup(r, k)[..|Lookup(m1, k)|] == Lookup(m1, k)
  {
    if |items| > 0 {
      var init := items[..|items| - 1];
      UniqMergedPrefix(m1, init, ukey, k);
      var m := UniqMerged(m1, init, ukey);
      var (k', v) := items[|items| - 1];
      if k' == k && v != Many([]) {
        AppendNewKeys(Lookup(m, k), Items(v), ukey);
        var l := Lookup(m, k);
        var r := AppendNew(l, Items(v), ukey);
        assert r[..|Lookup(m1, k)|] == r[..|l|][..|Lookup(m1, k)|];
      }
    }
  }

  /** A record whose key value is new to its list is appended, and one whose
      key value is present already is not: the merged list holds exactly
      the key values of the old list and of the merged-in items. */
  lemma {:induction false} UniqMergedKeyValues<K, F, U>(m: map<K, seq<Record<F, U>>>, k: K, v: Value<Record<F, U>>, ukey: F, u: U)
    requires AllKeyed(m, ukey) && Keyed(Items(v), ukey)
    ensures var r := UniqStep(m, k, v, ukey);
      u in KeyValues(Lookup(r, k), ukey) <==>
        u in KeyValues(Lookup(m, k), ukey) || u in KeyValues(Items(v), ukey)
  {
    if v != Many([]) {
      AppendNewKeys(Lookup(m, k), Items(v), ukey);
    }
  }
}

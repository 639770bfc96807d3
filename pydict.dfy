/**
 * A Python `dict` as the driver uses it: item assignment and iteration over
 * `items()`. A dict remembers the order in which its keys were first
 * inserted; assigning to a key that is already present replaces its value
 * and leaves the key where it was.
 */
module PyDict {

  /** Index of the first occurrence of `x` in `s`, or `|s|` when `x` does not occur. */
  function FirstIndex<T(==)>(s: seq<T>, x: T): (i: nat)
    ensures i <= |s|
    ensures i < |s| ==> s[i] == x
    ensures forall j :: 0 <= j < i ==> s[j] != x
  {
    if s == [] || s[0] == x then 0 else 1 + FirstIndex(s[1..], x)
  }

  /** Appending an element does not move the first occurrence of one already present. */
  lemma FirstIndexAppend<T>(s: seq<T>, y: T, x: T)
    requires x in s
    ensures FirstIndex(s + [y], x) == FirstIndex(s, x)
  {
    var i, t := FirstIndex(s, x), s + [y];
    assert t[i] == x;
    assert forall j :: 0 <= j < i ==> t[j] == s[j];
  }

  /** Every element of `ks` occurs earlier in `fs` than the elements after it in `ks`. */
  ghost predicate InFirstOccurrenceOrder<T>(ks: seq<T>, fs: seq<T>) {
    forall a, b :: 0 <= a < b < |ks| ==> FirstIndex(fs, ks[a]) < FirstIndex(fs, ks[b])
  }

  /** Appending `x` to `fs` keeps the order, and a new `x` may be appended to `ks`. */
  lemma FirstOccurrenceOrderAppend<T>(ks: seq<T>, fs: seq<T>, x: T)
    requires InFirstOccurrenceOrder(ks, fs)
    requires forall a :: 0 <= a < |ks| ==> ks[a] in fs
    ensures InFirstOccurrenceOrder(ks, fs + [x])
    ensures x !in fs ==> InFirstOccurrenceOrder(ks + [x], fs + [x])
  {
    forall a | 0 <= a < |ks|
      ensures FirstIndex(fs + [x], ks[a]) == FirstIndex(fs, ks[a]) < |fs|
    {
      FirstIndexAppend(fs, x, ks[a]);
    }
    if x !in fs {
      var t := fs + [x];
      assert t[|fs|] == x;
      assert forall j :: 0 <= j < |fs| ==> t[j] == fs[j];
    }
  }

  /** The first components of a sequence of pairs. */
  function Firsts<K, V>(es: seq<(K, V)>): (ks: seq<K>)
    ensures |ks| == |es|
    ensures forall i :: 0 <= i < |es| ==> ks[i] == es[i].0
  {
    seq(|es|, i requires 0 <= i < |es| => es[i].0)
  }

  /** The dict's keys in insertion order beside the mapping itself. */
  datatype Dict<K(==, !new), V> = Dict(keys: seq<K>, values: map<K, V>) {

    /** Every key is listed once, and the list holds exactly the mapped keys. */
    ghost predicate Valid() {
      && (forall i, j :: 0 <= i < j < |keys| ==> keys[i] != keys[j])
      && (forall k :: k in values <==> k in keys)
    }

    /**
     * `d[k] = v`: afterwards `k` maps to `v` and no other key changes; a key
     * already present keeps its place in the order, a new one is placed last.
     */
    function Put(k: K, v: V): (d: Dict<K, V>)
      requires Valid()
      ensures d.Valid()
      ensures d.values == values[k := v]
      ensures |keys| <= |d.keys| <= |keys| + 1 && d.keys[..|keys|] == keys
    {
      if k in values then Dict(keys, values[k := v]) else Dict(keys + [k], values[k := v])
    }

    /** `d.items()`: the key/value pairs in insertion order. */
    function Items(): (items: seq<(K, V)>)
      requires Valid()
      ensures |items| == |keys|
      ensures forall i :: 0 <= i < |keys| ==> items[i] == (keys[i], values[keys[i]])
    {
      seq(|keys|, i requires 0 <= i < |keys| => (keys[i], values[keys[i]]))
    }
  }

  /** The empty dict `{}`. */
  function Empty<K(==, !new), V>(): (d: Dict<K, V>)
    ensures d.Valid() && d.values == map[]
  {
    Dict([], map[])
  }

  /** The dict that results from assigning the pairs of `es` one after the other to `{}`. */
  function FromEntries<K(==, !new), V>(es: seq<(K, V)>): (d: Dict<K, V>)
    ensures d.Valid()
    ensures |d.keys| <= |es|
  {
    if es == [] then Empty()
    else FromEntries(es[..|es| - 1]).Put(es[|es| - 1].0, es[|es| - 1].1)
  }

  /** One more assignment extends the fold by one `Put`. */
  lemma FromEntriesAppend<K(!new), V>(es: seq<(K, V)>, k: K, v: V)
    ensures FromEntries(es + [(k, v)]) == FromEntries(es).Put(k, v)
  {
    assert (es + [(k, v)])[..|es|] == es;
  }

  /** The keys of the dict are exactly the keys assigned. */
  lemma {:induction false} FromEntriesKeys<K(!new), V>(es: seq<(K, V)>)
    ensures forall k :: k in FromEntries(es).values <==> k in Firsts(es)
  {
    if es != [] {
      var init := es[..|es| - 1];
      FromEntriesKeys(init);
      assert Firsts(es) == Firsts(init) + [es[|es| - 1].0];
    }
  }

  /** The keys are listed in the order of their first assignment. */
  lemma {:induction false} FromEntriesOrder<K(!new), V>(es: seq<(K, V)>)
    ensures InFirstOccurrenceOrder(FromEntries(es).keys, Firsts(es))
  {
    if es != [] {
      var init, last := es[..|es| - 1], es[|es| - 1];
      var d0 := FromEntries(init);
      FromEntriesOrder(init);
      FromEntriesKeys(init);
      assert Firsts(es) == Firsts(init) + [last.0];
      forall a | 0 <= a < |d0.keys| ensures d0.keys[a] in Firsts(init) {
        assert d0.keys[a] in d0.values;
      }
      FirstOccurrenceOrderAppend(d0.keys, Firsts(init), last.0);
    }
  }

  /** The key of an assignment that no later assignment repeats holds that assignment's value. */
  lemma {:induction false} FromEntriesLastWinsAt<K(!new), V>(es: seq<(K, V)>, p: nat)
    requires p < |es|
    requires forall q :: p < q < |es| ==> es[q].0 != es[p].0
    ensures es[p].0 in FromEntries(es).values && FromEntries(es).values[es[p].0] == es[p].1
  {
    var init, last := es[..|es| - 1], es[|es| - 1];
    assert FromEntries(es) == FromEntries(init).Put(last.0, last.1);
    if p < |es| - 1 {
      assert last.0 != es[p].0;
      assert init[p] == es[p];
      FromEntriesLastWinsAt(init, p);
    }
  }

  /** Each key holds the value of the last assignment to it. */
  lemma FromEntriesLastWins<K(!new), V>(es: seq<(K, V)>)
    ensures forall p :: 0 <= p < |es| && (forall q :: p < q < |es| ==> es[q].0 != es[p].0) ==>
      es[p].0 in FromEntries(es).values && FromEntries(es).values[es[p].0] == es[p].1
  {
    forall p | 0 <= p < |es| && (forall q :: p < q < |es| ==> es[q].0 != es[p].0)
      ensures es[p].0 in FromEntries(es).values && FromEntries(es).values[es[p].0] == es[p].1
    {
      FromEntriesLastWinsAt(es, p);
    }
  }

  /** Every key/value pair of the dict is one of the assignments made. */
  lemma {:induction false} FromEntriesValues<K(!new), V>(es: seq<(K, V)>)
    ensures forall k :: k in FromEntries(es).values ==> (k, FromEntries(es).values[k]) in es
  {
    if es != [] {
      var init, last := es[..|es| - 1], es[|es| - 1];
      var d0, d := FromEntries(init), FromEntries(es);
      FromEntriesValues(init);
      assert es == init + [last];
      forall k | k in d.values ensures (k, d.values[k]) in es {
        if k == last.0 {
          assert (k, d.values[k]) == last;
        } else {
          assert k in d0.values && d.values[k] == d0.values[k];
          assert (k, d0.values[k]) in init;
        }
      }
    }
  }

  /** Assigning twice to one key leaves only the second value. */
  lemma ReassignedKey<K(!new), V>(k: K, v0: V, v1: V)
    ensures FromEntries([(k, v0), (k, v1)]).values == map[k := v1]
  {
    var e0 := [(k, v0)];
    assert [(k, v0), (k, v1)] == e0 + [(k, v1)];
    assert e0 == e0[..0] + [(k, v0)];
    FromEntriesAppend(e0[..0], k, v0);
    FromEntriesAppend(e0, k, v1);
  }
}

/** Python dictionaries whose iteration order matters, as association lists in insertion order. */
module Dicts {
  import opened Wrappers

  /** One key/value entry of a dictionary. */
  datatype Item<V> = Item(key: string, value: V)

  /** The keys, in insertion order. */
  function Keys<V>(d: seq<Item<V>>): (ks: seq<string>)
    ensures |ks| == |d|
    ensures forall i :: 0 <= i < |d| ==> ks[i] == d[i].key
  {
    seq(|d|, i requires 0 <= i < |d| => d[i].key)
  }

  /** No key occurs twice, as in every Python dictionary. */
  ghost predicate DistinctKeys<V>(d: seq<Item<V>>)
  {
    forall i, j :: 0 <= i < j < |d| ==> d[i].key != d[j].key
  }

  /** `d[k]`: the value of the first entry with key `k`; `None` stands for the `KeyError`
      raised when there is none. */
  function Lookup<V>(d: seq<Item<V>>, k: string): (r: Option<V>)
    ensures r.None? <==> forall i :: 0 <= i < |d| ==> d[i].key != k
    ensures r.Some? ==> exists i :: 0 <= i < |d| && d[i] == Item(k, r.value)
  {
    if d == [] then None
    else if d[0].key == k then Some(d[0].value)
    else
      var r := Lookup(d[1..], k);
      assert forall i :: 1 <= i < |d| ==> d[i] == d[1..][i - 1];
      r
  }

  /** With distinct keys, looking up the key of an entry finds that entry's value. */
  lemma {:induction false} LookupEntry<V>(d: seq<Item<V>>, i: nat)
    requires DistinctKeys(d) && i < |d|
    ensures Lookup(d, d[i].key) == Some(d[i].value)
  {
    if i > 0 {
      assert d[1..][i - 1] == d[i];
      LookupEntry(d[1..], i - 1);
    }
  }

  /** Looking up in a concatenation looks in the first part, then in the second. */
  lemma {:induction false} LookupAppend<V>(a: seq<Item<V>>, b: seq<Item<V>>, k: string)
    ensures Lookup(a + b, k) == if Lookup(a, k).Some? then Lookup(a, k) else Lookup(b, k)
  {
    if a == [] {
      assert a + b == b;
    } else {
      assert (a + b)[1..] == a[1..] + b;
      LookupAppend(a[1..], b, k);
    }
  }

  /** `d[k] = v`: overwrites the value of an existing key in place, or appends a new entry. */
  function Assign<V>(d: seq<Item<V>>, k: string, v: V): (r: seq<Item<V>>)
    ensures Lookup(d, k).None? ==> r == d + [Item(k, v)]
    ensures Lookup(d, k).Some? ==> |r| == |d| && Keys(r) == Keys(d)
  {
    if d == [] then [Item(k, v)]
    else if d[0].key == k then [Item(k, v)] + d[1..]
    else
      assert Lookup(d, k) == Lookup(d[1..], k);
      [d[0]] + Assign(d[1..], k, v)
  }

  /** After `d[k] = v`, key `k` maps to `v` and every other key to what it mapped to before. */
  lemma {:induction false} AssignLookup<V>(d: seq<Item<V>>, k: string, v: V, k': string)
    ensures Lookup(Assign(d, k, v), k') == if k' == k then Some(v) else Lookup(d, k')
  {
    if d != [] && d[0].key != k {
      var r := Assign(d, k, v);
      assert r[1..] == Assign(d[1..], k, v);
      AssignLookup(d[1..], k, v, k');
    }
  }
}

/**
 * Python `dict` with string keys, as an association list in insertion order.
 *
 * Python dictionaries remember the order in which keys were first inserted;
 * assigning to an existing key replaces its value without moving it. That
 * order is observable here: it decides the order of the mapping's `items()`
 * and the column order of the exported CSV file.
 */
module Dicts {
  import opened Wrappers

  type Dict<V> = seq<(string, V)>

  /** The keys in insertion order (`list(d.keys())`). */
  function Keys<V>(d: Dict<V>): (ks: seq<string>)
    ensures |ks| == |d|
    ensures forall i :: 0 <= i < |d| ==> ks[i] == d[i].0
  {
    seq(|d|, i requires 0 <= i < |d| => d[i].0)
  }

  /** The values in insertion order (`list(d.values())`). */
  function Values<V>(d: Dict<V>): (vs: seq<V>)
    ensures |vs| == |d|
    ensures forall i :: 0 <= i < |d| ==> vs[i] == d[i].1
  {
    seq(|d|, i requires 0 <= i < |d| => d[i].1)
  }

  /** Every key occurs once, as in every Python dict. */
  ghost predicate UniqueKeys<V>(d: Dict<V>) {
    forall i, j :: 0 <= i < j < |d| ==> d[i].0 != d[j].0
  }

  /** The position of key `k`, if present. */
  function IndexOf<V>(d: Dict<V>, k: string): (r: Option<nat>)
    ensures r.Some? ==> r.value < |d| && d[r.value].0 == k
    ensures r.Some? ==> forall j :: 0 <= j < r.value ==> d[j].0 != k
    ensures r.None? <==> k !in Keys(d)
  {
    if d == [] then None
    else if d[0].0 == k then Some(0)
    else
      match IndexOf(d[1..], k)
      case None => None
      case Some(i) => Some(i + 1)
  }

  /** `d.get(k)`: the value stored under `k`, or `None` when `k` is not a key. */
  function Get<V>(d: Dict<V>, k: string): Option<V> {
    match IndexOf(d, k)
    case None => None
    case Some(i) => Some(d[i].1)
  }

  /** `d[k] = v`: replaces the value of an existing key in place, else appends. */
  function Set<V>(d: Dict<V>, k: string, v: V): (r: Dict<V>)
    ensures Keys(r) == if k in Keys(d) then Keys(d) else Keys(d) + [k]
    ensures Get(r, k) == Some(v)
    ensures forall k' :: k' != k ==> Get(r, k') == Get(d, k')
    ensures forall i :: 0 <= i < |r| ==> r[i] in d || r[i] == (k, v)
    ensures UniqueKeys(d) ==> UniqueKeys(r)
  {
    match IndexOf(d, k)
    case Some(i) =>
      var r := d[i := (k, v)];
      forall k' | k' != k ensures IndexOf(r, k') == IndexOf(d, k') {
        IndexOfAgree(d, r, k');
      }
      assert Keys(r) == Keys(d);
      r
    case None =>
      var r := d + [(k, v)];
      forall k' | k' != k ensures IndexOf(r, k') == IndexOf(d, k') {
        IndexOfAgree(d, r, k');
      }
      assert Keys(r) == Keys(d) + [k];
      r
  }

  /** Two lists on which key `k` sits at the same first position have the same `IndexOf(_, k)`. */
  lemma {:induction false} IndexOfAgree<V>(d: Dict<V>, e: Dict<V>, k: string)
    requires |d| <= |e|
    requires forall j :: 0 <= j < |d| ==> (d[j].0 == k <==> e[j].0 == k)
    requires forall j :: |d| <= j < |e| ==> e[j].0 != k
    ensures IndexOf(d, k) == IndexOf(e, k)
    decreases |e|
  {
    if e == [] {
    } else if d == [] {
      assert IndexOf(e, k).None? by {
        forall j | 0 <= j < |e| ensures Keys(e)[j] != k {
          assert e[j].0 != k;
        }
      }
    } else if d[0].0 != k {
      assert forall j :: 0 <= j < |d| - 1 ==> d[1..][j] == d[j + 1] && e[1..][j] == e[j + 1];
      assert forall j :: |d| - 1 <= j < |e| - 1 ==> e[1..][j] == e[j + 1];
      IndexOfAgree(d[1..], e[1..], k);
    }
  }

  /** The `map` view of a dictionary: same keys, same values, order forgotten. */
  function ToMap<V>(d: Dict<V>): (m: map<string, V>)
    ensures forall k :: k in m <==> k in Keys(d)
    ensures forall k :: k in m ==> Get(d, k) == Some(m[k])
  {
    map k | k in Keys(d) :: Get(d, k).value
  }

  /** Assignment into the association list is assignment into its `map` view. */
  lemma ToMapSet<V>(d: Dict<V>, k: string, v: V)
    ensures ToMap(Set(d, k, v)) == ToMap(d)[k := v]
  {
    var l, r := ToMap(Set(d, k, v)), ToMap(d)[k := v];
    forall k' ensures k' in l <==> k' in r {}
    forall k' | k' in l ensures l[k'] == r[k'] {}
  }

  /** For a dict, a key is present exactly when `Get` finds it, and `Get` returns its value. */
  lemma GetEntry<V>(d: Dict<V>, i: nat)
    requires UniqueKeys(d) && i < |d|
    ensures Get(d, d[i].0) == Some(d[i].1)
  {
    assert Keys(d)[i] == d[i].0;
  }

  /**
   * The elements of `s` without repetitions, each at its first occurrence:
   * the key order an insertion-ordered dict ends up with when the keys of
   * `s` are assigned in turn.
   */
  function Distinct(s: seq<string>): (r: seq<string>)
    ensures forall x :: x in r <==> x in s
    ensures forall i, j :: 0 <= i < j < |r| ==> r[i] != r[j]
    ensures |r| <= |s|
  {
    if s == [] then []
    else
      var p := Distinct(s[..|s| - 1]);
      assert s == s[..|s| - 1] + [s[|s| - 1]];
      if s[|s| - 1] in p then p else p + [s[|s| - 1]]
  }

  /** The first position of `x` in `s`. */
  function FirstIndex(s: seq<string>, x: string): (n: nat)
    requires x in s
    ensures n < |s| && s[n] == x
    ensures forall j :: 0 <= j < n ==> s[j] != x
  {
    if s[0] == x then 0 else 1 + FirstIndex(s[1..], x)
  }

  /** `Distinct` lists the elements in the order of their first occurrences in `s`. */
  lemma {:induction false} DistinctOrder(s: seq<string>, p: nat, q: nat)
    requires p < q < |Distinct(s)|
    ensures FirstIndex(s, Distinct(s)[p]) < FirstIndex(s, Distinct(s)[q])
  {
    var n := |s| - 1;
    var init := s[..n];
    var d := Distinct(init);
    assert s == init + [s[n]];
    var x, y := Distinct(s)[p], Distinct(s)[q];
    assert x == d[p] && x in init;
    FirstIndexPrefix(init, s[n], x);
    if q < |d| {
      assert y == d[q] && y in init;
      DistinctOrder(init, p, q);
      FirstIndexPrefix(init, s[n], y);
    } else {
      assert y == s[n] && y !in init;
      assert FirstIndex(s, y) == n;
    }
  }

  /** The first position of an element of `s` does not change when something is appended. */
  lemma FirstIndexPrefix(s: seq<string>, z: string, x: string)
    requires x in s
    ensures x in s + [z] && FirstIndex(s + [z], x) == FirstIndex(s, x)
  {
    var t := s + [z];
    assert forall j :: 0 <= j < |s| ==> t[j] == s[j];
  }
}

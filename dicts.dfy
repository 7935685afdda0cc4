// Python dictionaries from strings to strings, which keep their keys in
// insertion order: the filters a user picks are shown in the order they
// were picked.

module Dicts {
  import opened Wrappers

  /** A dictionary as the sequence of its items, oldest key first. */
  type Dict = seq<(string, string)>

  predicate UniqueKeys(d: Dict) {
    forall i, j | 0 <= i < j < |d| :: d[i].0 != d[j].0
  }

  /** `d.get(k)`. */
  function Get(d: Dict, k: string): (r: Option<string>)
    ensures r.None? <==> forall i | 0 <= i < |d| :: d[i].0 != k
    ensures r.Some? ==> (k, r.value) in d
  {
    if d == [] then None
    else if d[0].0 == k then Some(d[0].1)
    else
      assert forall i | 0 < i < |d| :: d[i] == d[1..][i - 1];
      Get(d[1..], k)
  }

  /** `d[k] = v`: an existing key keeps its place, a new one goes last. */
  function Set(d: Dict, k: string, v: string): (r: Dict)
  {
    if d == [] then [(k, v)]
    else if d[0].0 == k then [(k, v)] + d[1..]
    else [d[0]] + Set(d[1..], k, v)
  }

  /** After `d[k] = v`, `k` maps to `v` and every other key to what it mapped to. */
  lemma {:induction false} SetGet(d: Dict, k: string, v: string)
    ensures Get(Set(d, k, v), k) == Some(v)
    ensures forall k' | k' != k :: Get(Set(d, k, v), k') == Get(d, k')
  {
    if d != [] && d[0].0 != k {
      SetGet(d[1..], k, v);
      assert Set(d, k, v)[1..] == Set(d[1..], k, v);
    }
  }

  /** `d[k] = v` on a present key changes no key's place. */
  lemma {:induction false} SetPresent(d: Dict, k: string, v: string)
    requires Get(d, k).Some?
    ensures |Set(d, k, v)| == |d|
    ensures forall i | 0 <= i < |d| :: Set(d, k, v)[i].0 == d[i].0
  {
    if d[0].0 != k {
      SetPresent(d[1..], k, v);
      assert forall i | 0 < i < |d| :: Set(d, k, v)[i] == Set(d[1..], k, v)[i - 1];
    }
  }

  /** `d[k] = v` on a new key appends it. */
  lemma {:induction false} SetAbsent(d: Dict, k: string, v: string)
    requires Get(d, k).None?
    ensures Set(d, k, v) == d + [(k, v)]
  {
    if d != [] {
      SetAbsent(d[1..], k, v);
      assert [d[0]] + (d[1..] + [(k, v)]) == d + [(k, v)];
    }
  }

  /** `d[k] = v` keeps the keys distinct. */
  lemma SetUnique(d: Dict, k: string, v: string)
    requires UniqueKeys(d)
    ensures UniqueKeys(Set(d, k, v))
  {
    if Get(d, k).Some? {
      SetPresent(d, k, v);
    } else {
      SetAbsent(d, k, v);
      var r := Set(d, k, v);
      forall i, j | 0 <= i < j < |r| ensures r[i].0 != r[j].0 {
        if j == |d| {
          assert r[i] == d[i];
        }
      }
    }
  }
}

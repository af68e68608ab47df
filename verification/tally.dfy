/**
  The histograms of the statistics file: a Python dict from key to count,
  filled by `if key not in counts: counts[key] = 0` then `counts[key] += 1`,
  modelled as an association list in insertion order.
*/
module Tally {

  type Histogram<K> = seq<(K, nat)>

  predicate HasKey<K(==)>(h: Histogram<K>, k: K) {
    exists i :: 0 <= i < |h| && h[i].0 == k
  }

  /** Each key appears once. */
  predicate DistinctKeys<K(==)>(h: Histogram<K>) {
    forall i, j :: 0 <= i < j < |h| ==> h[i].0 != h[j].0
  }

  /** `counts.get(k, 0)`. */
  function CountOf<K(==)>(h: Histogram<K>, k: K): nat {
    if |h| == 0 then 0 else if h[0].0 == k then h[0].1 else CountOf(h[1..], k)
  }

  /** `sum(counts.values())`. */
  function Sum<K>(h: Histogram<K>): nat {
    if |h| == 0 then 0 else h[0].1 + Sum(h[1..])
  }

  /** One `counts[key] += 1`, creating the entry at the end when the key is new. */
  function Bump<K(==,!new)>(h: Histogram<K>, k: K): (r: Histogram<K>)
    requires DistinctKeys(h)
    ensures DistinctKeys(r)
    ensures CountOf(r, k) == CountOf(h, k) + 1
    ensures forall x :: x != k ==> CountOf(r, x) == CountOf(h, x)
    ensures forall x :: HasKey(r, x) <==> HasKey(h, x) || x == k
    ensures Sum(r) == Sum(h) + 1
  {
    if |h| == 0 then [(k, 1)]
    else if h[0].0 == k then
      HasKeyCons(h[0], h[1..]);
      HasKeyCons((k, h[0].1 + 1), h[1..]);
      assert [h[0]] + h[1..] == h;
      [(k, h[0].1 + 1)] + h[1..]
    else
      var rest := Bump(h[1..], k);
      HasKeyCons(h[0], h[1..]);
      HasKeyCons(h[0], rest);
      assert [h[0]] + h[1..] == h;
      DistinctCons(h[0], rest);
      [h[0]] + rest
  }

  /** Prepending an entry whose key is new keeps the keys distinct. */
  lemma DistinctCons<K>(e: (K, nat), t: Histogram<K>)
    requires DistinctKeys(t) && !HasKey(t, e.0)
    ensures DistinctKeys([e] + t)
  {
    forall i, j | 0 <= i < j < |[e] + t|
      ensures ([e] + t)[i].0 != ([e] + t)[j].0
    {
      assert ([e] + t)[j] == t[j - 1];
      if i > 0 {
        assert ([e] + t)[i] == t[i - 1];
      }
    }
  }

  /** A key is in `[e] + t` exactly when it is `e`'s key or a key of `t`. */
  lemma HasKeyCons<K(!new)>(e: (K, nat), t: Histogram<K>)
    ensures forall x :: HasKey([e] + t, x) <==> x == e.0 || HasKey(t, x)
  {
    assert ([e] + t)[0] == e;
    forall x | HasKey(t, x)
      ensures HasKey([e] + t, x)
    {
      var i :| 0 <= i < |t| && t[i].0 == x;
      assert ([e] + t)[i + 1] == t[i];
    }
    forall x | HasKey([e] + t, x) && x != e.0
      ensures HasKey(t, x)
    {
      var i :| 0 <= i < |[e] + t| && ([e] + t)[i].0 == x;
      assert t[i - 1] == ([e] + t)[i];
    }
  }

  /**
    The histogram of a sequence of keys, filled front to back: every key
    that occurs has one entry, whose count is the key's multiplicity, and the
    counts add up to the length of the sequence.
  */
  function TallyOf<K(==,!new)>(xs: seq<K>): (h: Histogram<K>)
    ensures DistinctKeys(h)
    ensures forall k :: CountOf(h, k) == multiset(xs)[k]
    ensures forall k :: HasKey(h, k) <==> k in xs
    ensures Sum(h) == |xs|
  {
    if |xs| == 0 then []
    else
      var init := xs[..|xs| - 1];
      var last := xs[|xs| - 1];
      assert xs == init + [last];
      assert forall k :: k in xs <==> k in init || k == last;
      Bump(TallyOf(init), last)
  }
}

/**
 * `histogram`: a fold over the classification results that counts each
 * distinct result in a map, inserting a key with count 0 the first time it is
 * seen and adding one per occurrence.
 */
module Aggregator {
  import opened Fields

  /** A classification result, the histogram's key. */
  type Key = Option<Field>

  /** The closed set of keys: null and the four field types. */
  const Keys: seq<Key> := [None, Some(Unknown), Some(String), Some(Integer), Some(Float)]

  /** The count stored for a key, or 0 when the key has no entry. */
  function CountOf(h: map<Key, int>, k: Key): int {
    if k in h then h[k] else 0
  }

  /** `*acc.entry(f).or_default() += 1`: only `f`'s entry changes, and it goes up by one. */
  function Bump(acc: map<Key, int>, f: Key): (r: map<Key, int>)
    ensures r.Keys == acc.Keys + {f}
    ensures forall k :: CountOf(r, k) == CountOf(acc, k) + (if k == f then 1 else 0)
  {
    acc[f := CountOf(acc, f) + 1]
  }

  /**
   * The fold in `histogram`, left to right, from the accumulator `acc`. It
   * adds an entry for each key that occurs and no other; counts are only
   * ever incremented, and every key that occurs gains at least one.
   */
  function FoldFrom(acc: map<Key, int>, fields: seq<Key>): (r: map<Key, int>)
    ensures forall k :: k in r <==> k in acc || k in fields
    ensures forall k :: CountOf(acc, k) <= CountOf(r, k)
    ensures forall k :: k in fields ==> CountOf(acc, k) < CountOf(r, k)
    decreases |fields|
  {
    if fields == [] then acc else FoldFrom(Bump(acc, fields[0]), fields[1..])
  }

  /** What `histogram` returns: the fold from the empty map, with an entry of at least 1 for exactly the keys that occur. */
  function HistogramOf(fields: seq<Key>): (r: map<Key, int>)
    ensures forall k :: k in r <==> k in fields
    ensures forall k :: k in r ==> r[k] >= 1
  {
    FoldFrom(map[], fields)
  }

  /** The fold adds, to what the accumulator held, one per occurrence of each key. */
  lemma {:induction false} FoldFromCounts(acc: map<Key, int>, fields: seq<Key>)
    ensures forall k :: k in FoldFrom(acc, fields) <==> k in acc || k in multiset(fields)
    ensures forall k :: CountOf(FoldFrom(acc, fields), k) == CountOf(acc, k) + multiset(fields)[k]
    decreases |fields|
  {
    if fields != [] {
      var f, rest := fields[0], fields[1..];
      FoldFromCounts(Bump(acc, f), rest);
      assert fields == [f] + rest;
      assert multiset(fields) == multiset{f} + multiset(rest);
      forall k
        ensures CountOf(FoldFrom(acc, fields), k) == CountOf(acc, k) + multiset(fields)[k]
      {
        assert CountOf(FoldFrom(acc, fields), k) == CountOf(Bump(acc, f), k) + multiset(rest)[k];
      }
    }
  }

  /**
   * Each key's count is its number of occurrences; keys that never occur have
   * no entry, and every entry present is at least 1.
   */
  lemma HistogramCounts(fields: seq<Key>)
    ensures forall k :: k in HistogramOf(fields) <==> k in fields
    ensures forall k :: CountOf(HistogramOf(fields), k) == multiset(fields)[k]
    ensures forall k :: k in HistogramOf(fields) ==> HistogramOf(fields)[k] >= 1
  {
    FoldFromCounts(map[], fields);
  }

  /** The sum of the counts over the closed key set. */
  function Total(h: map<Key, int>): int {
    CountOf(h, Keys[0]) + CountOf(h, Keys[1]) + CountOf(h, Keys[2]) + CountOf(h, Keys[3]) + CountOf(h, Keys[4])
  }

  /** Every result is one of the five keys. */
  lemma KeyInKeys(k: Key)
    ensures k == Keys[0] || k == Keys[1] || k == Keys[2] || k == Keys[3] || k == Keys[4]
  {
    match k
    case None =>
    case Some(f) =>
      match f
      case Unknown =>
      case String =>
      case Integer =>
      case Float =>
  }

  /** The five keys' occurrence counts add up to the length: every result is one of them. */
  lemma {:induction false} OccurrencesAddUp(fields: seq<Key>)
    ensures var m := multiset(fields);
      m[Keys[0]] + m[Keys[1]] + m[Keys[2]] + m[Keys[3]] + m[Keys[4]] == |fields|
  {
    if fields != [] {
      OccurrencesAddUp(fields[1..]);
      assert fields == [fields[0]] + fields[1..];
      assert multiset(fields) == multiset{fields[0]} + multiset(fields[1..]);
      KeyInKeys(fields[0]);
    }
  }

  /** Totality: no result is dropped or counted twice; the counts sum to the input length. */
  lemma HistogramTotal(fields: seq<Key>)
    ensures Total(HistogramOf(fields)) == |fields|
  {
    HistogramCounts(fields);
    OccurrencesAddUp(fields);
  }

  /** Order independence: permuting the input gives the same map. */
  lemma HistogramPermutation(a: seq<Key>, b: seq<Key>)
    requires multiset(a) == multiset(b)
    ensures HistogramOf(a) == HistogramOf(b)
  {
    var ha, hb := HistogramOf(a), HistogramOf(b);
    HistogramCounts(a);
    HistogramCounts(b);
    forall k
      ensures k in ha <==> k in hb
      ensures k in ha ==> ha[k] == hb[k]
    {
      assert k in a <==> k in multiset(a);
      assert k in b <==> k in multiset(b);
      assert CountOf(ha, k) == CountOf(hb, k);
    }
  }

  /** `histogram`: one pass over the results, updating the map in place. */
  method Histogram(fields: seq<Key>) returns (h: map<Key, int>)
    ensures forall k :: k in h <==> k in fields
    ensures forall k :: k in h ==> h[k] == multiset(fields)[k]
    ensures h == HistogramOf(fields)
  {
    h := map[];
    for i := 0 to |fields|
      invariant forall k :: k in h <==> k in multiset(fields[..i])
      invariant forall k :: CountOf(h, k) == multiset(fields[..i])[k]
    {
      var f := fields[i];
      h := h[f := (if f in h then h[f] else 0) + 1];
      assert fields[..i + 1] == fields[..i] + [f];
    }
    assert fields[..|fields|] == fields;
    HistogramCounts(fields);
  }
}

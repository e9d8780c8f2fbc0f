/**
 * Occurrence counts, as `collections.Counter(items)` builds them in
 * src/vexy_markliff/vexy_markliff.py and as the `groups[code] += 1` loop of
 * scripts/quality_metrics.py does: one key per distinct item, mapped to
 * the number of times it occurs.
 */
module Counting {
  /** The counts after reading `items` from left to right. */
  function Frequencies<T(==)>(items: seq<T>): map<T, nat> {
    if items == [] then map[]
    else
      var f := Frequencies(items[..|items| - 1]);
      var x := items[|items| - 1];
      f[x := (if x in f then f[x] else 0) + 1]
  }

  /** The sum of the counts of a map. */
  ghost function SumValues<T>(m: map<T, nat>): nat
    decreases |m.Keys|
  {
    if m == map[] then 0
    else
      var k :| k in m;
      m[k] + SumValues(m - {k})
  }

  lemma FrequenciesAppend<T>(items: seq<T>, x: T)
    ensures var f := Frequencies(items);
      Frequencies(items + [x]) == f[x := (if x in f then f[x] else 0) + 1]
  {
    assert (items + [x])[..|items|] == items;
  }

  /** The keys are exactly the distinct items. */
  lemma {:induction false} FrequenciesKeys<T>(items: seq<T>)
    ensures Frequencies(items).Keys == set x | x in items
  {
    if items != [] {
      var init, x := items[..|items| - 1], items[|items| - 1];
      FrequenciesKeys(init);
      assert items == init + [x];
      FrequenciesAppend(init, x);
      assert (set y | y in items) == (set y | y in init) + {x};
    }
  }

  /** Each count is the number of occurrences of its key, so at least 1. */
  lemma {:induction false} FrequenciesCount<T>(items: seq<T>, x: T)
    ensures x in Frequencies(items) <==> x in items
    ensures x in Frequencies(items) ==> Frequencies(items)[x] == multiset(items)[x] >= 1
  {
    if items != [] {
      var init, y := items[..|items| - 1], items[|items| - 1];
      FrequenciesCount(init, x);
      assert items == init + [y];
      FrequenciesAppend(init, y);
      assert multiset(items) == multiset(init) + multiset{y};
    }
  }

  /** Removing one key takes its count off the sum. */
  lemma SumValuesRemove<T>(m: map<T, nat>, k: T)
    requires k in m
    ensures SumValues(m) == m[k] + SumValues(m - {k})
    decreases |m.Keys|
  {
    var j :| j in m && SumValues(m) == m[j] + SumValues(m - {j});
    if j != k {
      assert |(m - {j}).Keys| < |m.Keys| by {
        assert m.Keys == (m - {j}).Keys + {j};
      }
      assert |(m - {k}).Keys| < |m.Keys| by {
        assert m.Keys == (m - {k}).Keys + {k};
      }
      SumValuesRemove(m - {j}, k);
      SumValuesRemove(m - {k}, j);
      assert m - {j} - {k} == m - {k} - {j};
    }
  }

  /** The counts add up to the number of items. */
  lemma {:induction false} FrequenciesSum<T>(items: seq<T>)
    ensures SumValues(Frequencies(items)) == |items|
  {
    if items != [] {
      var init, x := items[..|items| - 1], items[|items| - 1];
      var f := Frequencies(init);
      var g := Frequencies(items);
      FrequenciesSum(init);
      assert items == init + [x];
      FrequenciesAppend(init, x);
      SumValuesRemove(g, x);
      assert g - {x} == f - {x};
      if x in f {
        SumValuesRemove(f, x);
      } else {
        assert f - {x} == f;
      }
    }
  }
}

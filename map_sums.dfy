/**
 Counters keyed by name, as Python dictionaries of ints read with `d.get(k, 0)`,
 and the sum of all values of such a counter.
 */
module MapSums {

  type Counts = map<string, int>

  /** `counts.get(key, 0)`: an absent key reads as zero. */
  function Get(counts: Counts, key: string): int
  {
    if key in counts then counts[key] else 0
  }

  /** `counts[key] = counts.get(key, 0) + 1` */
  function Bump(counts: Counts, key: string): (r: Counts)
    ensures r.Keys == counts.Keys + {key}
    ensures r[key] == Get(counts, key) + 1
    ensures forall k :: k != key ==> Get(r, k) == Get(counts, k)
  {
    counts[key := Get(counts, key) + 1]
  }

  /** The sum of all values of a counter (an arbitrary key is taken off first). */
  ghost function Sum(counts: Counts): int
    decreases |counts|
  {
    if counts == map[] then 0
    else
      var k :| k in counts;
      counts[k] + Sum(counts - {k})
  }

  /** The sum does not depend on which key is taken off first. */
  lemma {:induction false} SumRemove(counts: Counts, key: string)
    requires key in counts
    ensures Sum(counts) == counts[key] + Sum(counts - {key})
    decreases |counts|
  {
    var k :| k in counts && Sum(counts) == counts[k] + Sum(counts - {k});
    if k != key {
      var rest := counts - {k} - {key};
      assert (counts - {k}).Keys == counts.Keys - {k};
      assert (counts - {key}).Keys == counts.Keys - {key};
      SumRemove(counts - {k}, key);
      SumRemove(counts - {key}, k);
      assert counts - {k} - {key} == rest;
      assert counts - {key} - {k} == rest;
    }
  }

  /** Overwriting one entry changes the sum by the difference of the two values. */
  lemma SumUpdate(counts: Counts, key: string, v: int)
    ensures Sum(counts[key := v]) == Sum(counts) - Get(counts, key) + v
  {
    var updated := counts[key := v];
    SumRemove(updated, key);
    assert updated - {key} == counts - {key};
    if key in counts {
      SumRemove(counts, key);
    } else {
      assert counts - {key} == counts;
    }
  }
}

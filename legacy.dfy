/** src/kdtree.rs, the older copy of the tree: the same datatypes and operations as
  * src/kiddo.rs, except that `new` returns a `Result` and that `within` and
  * `within_unsorted` check the query point before looking at the tree's size. */
module Legacy {
  import opened Floats
  import opened Tree
  import opened Insert
  import opened Nearest
  import opened Frontier
  import opened BestN

  /** `new`: `with_capacity(2^4)`, returned as a `Result` that is always `Ok`. */
  function New<T(==)>(k: nat): (r: Result<KdTree<T>>)
    ensures r.Ok? && Valid(r.value, k) && r.value.size == 0 && Entries(r.value) == multiset{}
    ensures r.value.content.Leaf? && r.value.content.capacity == 16
  {
    WithCapacity(16, k)
  }

  /** The trees a run of successful `add` calls goes through: each holds one entry more
    * than the one before and obeys the leaf/split rule of `add_to_bucket`. */
  ghost predicate AddRun<T>(ts: seq<KdTree<T>>) {
    forall i | 0 <= i < |ts| - 1 :: ts[i + 1].size == ts[i].size + 1 && LeafSplitRule(ts[i], ts[i + 1])
  }

  /** A tree made by `new` stays a leaf of capacity 16 through its first 16 insertions,
    * and the 17th makes it a stem unless the 17 points all coincide. */
  lemma {:induction false} DefaultCapacityLeaf<T>(ts: seq<KdTree<T>>, k: nat)
    requires |ts| > 0 && ts[0] == New<T>(k).value && AddRun(ts)
    ensures forall i | 0 <= i < |ts| :: ts[i].size == i
    ensures forall i | 0 <= i < |ts| && i <= 16 :: ts[i].content.Leaf? && ts[i].content.capacity == 16
    ensures |ts| > 17 && ts[17].minBounds != ts[17].maxBounds ==> ts[17].content.Stem?
    decreases |ts|
  {
    var n := |ts| - 1;
    if n > 0 {
      var ts' := ts[..n];
      assert AddRun(ts') by {
        forall i | 0 <= i < |ts'| - 1
          ensures ts'[i + 1].size == ts'[i].size + 1 && LeafSplitRule(ts'[i], ts'[i + 1])
        {
          assert ts'[i] == ts[i] && ts'[i + 1] == ts[i + 1];
        }
      }
      DefaultCapacityLeaf(ts', k);
      assert ts[n - 1] == ts'[n - 1];
      assert ts[n].size == ts[n - 1].size + 1 && LeafSplitRule(ts[n - 1], ts[n]);
    }
  }

  /** `within`: the point is checked first, so a non-finite point is refused even on an
    * empty tree; then an empty tree answers at once, and any other the heap of the
    * search drained nearest first. */
  method Within<T(==)>(t: KdTree<T>, p: seq<Float>, radius: Float, ghost k: nat)
      returns (r: Result<seq<(real, T)>>, ghost picked: seq<Entry<T>>)
    requires Valid(t, k) && |p| == k
    ensures r.Err? <==> !AllFinite(p)
    ensures r.Err? ==> r.error == NonFiniteCoordinate
    ensures r.Ok? && t.size == 0 ==> r.value == []
    ensures r.Ok? ==> WithinResult(t, Reals(p), radius, r.value, picked)
    ensures r.Ok? ==> forall i, j | 0 <= i < j < |r.value| :: r.value[i].0 <= r.value[j].0
  {
    var checked := CheckPoint(p);
    if checked.Err? {
      return Err(checked.error), [];
    }
    if t.size == 0 {
      EmptyTreeWithin(t, Reals(p), radius, k);
      return Ok([]), [];
    }
    var w := WithinImpl(t, p, radius, k);
    var sorted := SortByDistance(w.value);
    WithinPairs(t, Reals(p), radius, w.value, sorted);
    r, picked := Ok(ToPairs(sorted)), EntriesOf(sorted);
  }

  /** `within_unsorted`: as `within`, in the heap's own order. */
  method WithinUnsorted<T(==)>(t: KdTree<T>, p: seq<Float>, radius: Float, ghost k: nat)
      returns (r: Result<seq<(real, T)>>, ghost picked: seq<Entry<T>>)
    requires Valid(t, k) && |p| == k
    ensures r.Err? <==> !AllFinite(p)
    ensures r.Err? ==> r.error == NonFiniteCoordinate
    ensures r.Ok? && t.size == 0 ==> r.value == []
    ensures r.Ok? ==> WithinResult(t, Reals(p), radius, r.value, picked)
  {
    var checked := CheckPoint(p);
    if checked.Err? {
      return Err(checked.error), [];
    }
    if t.size == 0 {
      EmptyTreeWithin(t, Reals(p), radius, k);
      return Ok([]), [];
    }
    var w := WithinImpl(t, p, radius, k);
    WithinPairs(t, Reals(p), radius, w.value, w.value);
    r, picked := Ok(ToPairs(w.value)), EntriesOf(w.value);
  }

  /** The debug assertion at the head of this copy's `best_n_within_step`: the value heap
    * never holds more values than the tree holds entries. */
  lemma StepHeapWithinSize(t: KdTree<int>, q: seq<real>, k: nat, maxQty: nat, radius: Float,
                           pending: seq<Pending<int>>, ev: seq<int>, picked: seq<Entry<int>>,
                           seen: multiset<Entry<int>>, pruned: multiset<Entry<int>>)
    requires Valid(t, k)
    requires BestInv(t, q, k, maxQty, radius, pending, ev, picked, seen, pruned)
    ensures |ev| <= t.size
  {
    var rest := PendingEntries(pending) + pruned;
    assert Entries(t) == seen + rest;
    assert |Entries(t)| == |seen| + |rest|;
    assert multiset(picked) <= seen;
    SubCard(multiset(picked), seen);
    assert |ev| == |picked|;
    assert |Entries(t)| == |EntrySeq(t)| == t.size;
  }

  lemma SubCard<X>(a: multiset<X>, b: multiset<X>)
    requires a <= b
    ensures |a| <= |b|
  {
    assert b == a + (b - a);
  }
}

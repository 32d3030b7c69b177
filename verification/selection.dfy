/** Counting and selecting by a boolean mask: the numpy idioms
    `np.where(mask)[0]`, `np.cumsum(mask)` and fancy row indexing `a[idx, :]`
    that vertex compaction is built from. */
module Selection {
  import opened MeshTypes

  /** Number of `true` entries. */
  function CountTrue(s: seq<bool>): (c: nat)
    ensures c <= |s|
  {
    if |s| == 0 then 0
    else CountTrue(s[..|s| - 1]) + (if s[|s| - 1] then 1 else 0)
  }

  /** A mask with a `false` entry has fewer `true` entries than it has entries. */
  lemma {:induction false} CountTrueBelowLength(s: seq<bool>, i: nat)
    requires i < |s| && !s[i]
    ensures CountTrue(s) < |s|
  {
    var init := s[..|s| - 1];
    if i == |s| - 1 {
      assert CountTrue(s) == CountTrue(init);
    } else {
      assert init[i] == s[i];
      CountTrueBelowLength(init, i);
    }
  }

  predicate StrictlyIncreasing(idx: seq<nat>) {
    forall k, l :: 0 <= k < l < |idx| ==> idx[k] < idx[l]
  }

  /** `np.where(mask)[0]`: the positions of the `true` entries, ascending. */
  function SelectIndices(marks: seq<bool>): (idx: seq<nat>)
    ensures |idx| == CountTrue(marks)
    ensures StrictlyIncreasing(idx)
    ensures forall k :: 0 <= k < |idx| ==> idx[k] < |marks| && marks[idx[k]]
  {
    if |marks| == 0 then []
    else
      var init := SelectIndices(marks[..|marks| - 1]);
      if marks[|marks| - 1] then init + [|marks| - 1] else init
  }

  /** The `k`-th selected position has exactly `k` selected positions before it. */
  lemma {:induction false} RankOfSelected(marks: seq<bool>, k: nat)
    requires k < |SelectIndices(marks)|
    ensures CountTrue(marks[..SelectIndices(marks)[k]]) == k
  {
    var n := |marks|;
    var init := marks[..n - 1];
    var prev := SelectIndices(init);
    var i := SelectIndices(marks)[k];
    if k < |prev| {
      assert i == prev[k];
      assert marks[..i] == init[..i];
      RankOfSelected(init, k);
    } else {
      assert i == n - 1;
      assert marks[..i] == init;
    }
  }

  /** A marked position `i` is selected, at rank "number of marks before `i`". */
  lemma {:induction false} SelectedAtRank(marks: seq<bool>, i: nat)
    requires i < |marks| && marks[i]
    ensures CountTrue(marks[..i]) < |SelectIndices(marks)|
    ensures SelectIndices(marks)[CountTrue(marks[..i])] == i
  {
    var n := |marks|;
    var init := marks[..n - 1];
    var prev := SelectIndices(init);
    if i == n - 1 {
      assert marks[..i] == init;
    } else {
      assert marks[..i] == init[..i];
      assert init[i] == marks[i];
      SelectedAtRank(init, i);
    }
  }

  /** Every marked position occurs in the selection. */
  lemma SelectIndicesComplete(marks: seq<bool>)
    ensures forall i :: 0 <= i < |marks| && marks[i] ==> i in SelectIndices(marks)
  {
    forall i | 0 <= i < |marks| && marks[i]
      ensures i in SelectIndices(marks)
    {
      SelectedAtRank(marks, i);
    }
  }

  /** `a[idx]` for indices already known to be in range. */
  function Gather<T>(a: seq<T>, idx: seq<nat>): seq<T>
    requires forall k :: 0 <= k < |idx| ==> idx[k] < |a|
  {
    seq(|idx|, k requires 0 <= k < |idx| => a[idx[k]])
  }

  /** `np.array(a)[idx, :]` for a list `a` of triples: `None` when numpy
      raises `IndexError`, which it does for an index past the end and also
      for an empty `a`, because an empty list becomes a one-dimensional array
      that cannot take two indices. */
  function Rows<T>(a: seq<T>, idx: seq<nat>): (r: Option<seq<T>>)
    ensures r.Some? <==> |a| > 0 && forall k :: 0 <= k < |idx| ==> idx[k] < |a|
    ensures r.Some? ==> |r.value| == |idx| && forall k :: 0 <= k < |idx| ==> r.value[k] == a[idx[k]]
  {
    if |a| == 0 || exists k :: 0 <= k < |idx| && idx[k] >= |a| then None
    else Some(Gather(a, idx))
  }

  /** The entries of `a` whose mark is set, in order: the boolean-mask
      selection `a[mask]`, stated element by element from the end. */
  function Filter<T>(a: seq<T>, marks: seq<bool>): (r: seq<T>)
    requires |a| == |marks|
    ensures |r| == CountTrue(marks)
  {
    if |a| == 0 then []
    else
      var init := Filter(a[..|a| - 1], marks[..|marks| - 1]);
      if marks[|marks| - 1] then init + [a[|a| - 1]] else init
  }

  /** Gathering the rows at `np.where(mask)[0]` keeps exactly the marked
      rows, in order. */
  lemma {:induction false} GatherSelectIsFilter<T>(a: seq<T>, marks: seq<bool>)
    requires |a| == |marks|
    ensures Gather(a, SelectIndices(marks)) == Filter(a, marks)
  {
    if |a| > 0 {
      var n := |a|;
      var prev := SelectIndices(marks[..n - 1]);
      GatherSelectIsFilter(a[..n - 1], marks[..n - 1]);
      assert Gather(a, prev) == Gather(a[..n - 1], prev);
      if marks[n - 1] {
        assert Gather(a, prev + [n - 1]) == Gather(a, prev) + [a[n - 1]];
      }
    }
  }

  /** `a[np.where(mask)[0], :]` for a mask with one entry per row: the
      marked rows in order, unless `a` is empty, where numpy raises. */
  lemma RowsSelectsMarked<T>(a: seq<T>, marks: seq<bool>)
    requires |a| == |marks|
    ensures Rows(a, SelectIndices(marks)) == if |a| == 0 then None else Some(Filter(a, marks))
  {
    GatherSelectIsFilter(a, marks);
  }
}

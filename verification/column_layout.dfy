/** The day view's `layoutEvents`: segments are sorted by start (longest first on a tie),
    cut into clusters of transitively overlapping segments, and inside each cluster packed
    greedily into columns, first fit. A laid-out segment is drawn at `leftPct = col * 100 /
    cols` with `widthPct = 100 / cols`; the model keeps the integer pair. */
module ColumnLayout {
  import opened Prelude
  import opened Sorting
  import opened Segmentation

  /** The comparator `a.startMin - b.startMin`, then `b.duration - a.duration`. */
  function ByStartThenLongest(s: Segment): Key {
    Key(s.startMin, -s.duration)
  }

  predicate StartsSorted(s: seq<Segment>) {
    forall i, j :: 0 <= i < j < |s| ==> s[i].startMin <= s[j].startMin
  }

  predicate NoNegativeDuration(s: seq<Segment>) {
    forall i :: 0 <= i < |s| ==> s[i].duration >= 0
  }

  // ---------------------------------------------------------------------------
  // Greedy column packing. Only the end of each column's last segment is ever read,
  // so a column is kept as that end.

  /** The first column whose last segment ends by `s`'s start, or a new column. */
  function FirstFit(ends: seq<int>, s: Segment): (c: nat)
    ensures c <= |ends|
    ensures forall i :: 0 <= i < c ==> s.startMin < ends[i]
    ensures c < |ends| ==> ends[c] <= s.startMin
  {
    if |ends| == 0 || ends[0] <= s.startMin then 0
    else
      var c := 1 + FirstFit(ends[1..], s);
      assert forall i :: 1 <= i < c ==> ends[i] == ends[1..][i - 1];
      c
  }

  /** Pushing `s` on the column first fit chooses. */
  function Place(ends: seq<int>, s: Segment): (r: seq<int>)
    ensures |r| == if FirstFit(ends, s) < |ends| then |ends| else |ends| + 1
    ensures r[FirstFit(ends, s)] == End(s)
    ensures forall i :: 0 <= i < |ends| && i != FirstFit(ends, s) ==> r[i] == ends[i]
  {
    var c := FirstFit(ends, s);
    if c < |ends| then ends[c := End(s)] else ends + [End(s)]
  }

  /** The columns, as the ends of their last segments, after packing the first `k`
      segments in order. */
  function Ends(segs: seq<Segment>, k: nat): (r: seq<int>)
    requires k <= |segs|
    ensures |r| <= k
    ensures k > 0 ==> |r| > 0
  {
    if k == 0 then [] else Place(Ends(segs, k - 1), segs[k - 1])
  }

  /** The column segment `j` is pushed on. */
  function Column(segs: seq<Segment>, j: nat): nat
    requires j < |segs|
  {
    FirstFit(Ends(segs, j), segs[j])
  }

  /** `clusterCols.length`. */
  function ColumnCount(segs: seq<Segment>): nat {
    |Ends(segs, |segs|)|
  }

  /** Columns are never removed. */
  lemma {:induction false} EndsGrow(segs: seq<Segment>, j: nat, k: nat)
    requires j <= k <= |segs|
    ensures |Ends(segs, j)| <= |Ends(segs, k)|
    decreases k - j
  {
    if j < k {
      EndsGrow(segs, j, k - 1);
    }
  }

  /** Every segment gets an existing column: `colIndex < totalCols`. */
  lemma ColumnInRange(segs: seq<Segment>, j: nat)
    requires j < |segs|
    ensures Column(segs, j) < ColumnCount(segs)
  {
    EndsGrow(segs, j + 1, |segs|);
  }

  /** With no negative durations, the end kept for a column never decreases. */
  lemma {:induction false} EndsRise(segs: seq<Segment>, i: nat, k: nat, c: nat)
    requires NoNegativeDuration(segs)
    requires i <= k <= |segs|
    requires c < |Ends(segs, i)|
    ensures c < |Ends(segs, k)|
    ensures Ends(segs, i)[c] <= Ends(segs, k)[c]
    decreases k - i
  {
    if i < k {
      EndsRise(segs, i, k - 1, c);
      var s := segs[k - 1];
      if FirstFit(Ends(segs, k - 1), s) == c {
        assert s.duration >= 0;
      }
    }
  }

  /** A column is a chain: a segment in it ends by the start of every later segment in
      the same column, so two segments in one column never overlap. */
  lemma ColumnChain(segs: seq<Segment>, i: nat, j: nat)
    requires NoNegativeDuration(segs)
    requires i < j < |segs|
    requires Column(segs, i) == Column(segs, j)
    ensures End(segs[i]) <= segs[j].startMin
    ensures !Overlap(segs[i], segs[j])
  {
    EndsRise(segs, i + 1, j, Column(segs, i));
  }

  /** The end kept for a column is the end of a segment packed in that column. */
  lemma {:induction false} EndsWitness(segs: seq<Segment>, k: nat, c: nat)
    requires k <= |segs|
    requires c < |Ends(segs, k)|
    ensures exists i :: 0 <= i < k && Column(segs, i) == c && Ends(segs, k)[c] == End(segs[i])
    decreases k
  {
    if c != Column(segs, k - 1) {
      EndsWitness(segs, k - 1, c);
    }
  }

  /** First fit opens or skips a column only when needed: a segment in column `c`
      starts before the end of some earlier segment in each column left of `c`. */
  lemma ColumnIsFirstFit(segs: seq<Segment>, j: nat, c: nat)
    requires j < |segs|
    requires c < Column(segs, j)
    ensures exists i :: 0 <= i < j && Column(segs, i) == c && segs[j].startMin < End(segs[i])
  {
    EndsWitness(segs, j, c);
  }

  // ---------------------------------------------------------------------------
  // Clusters

  /** The latest end in a non-empty run of segments. */
  function MaxEnd(c: seq<Segment>): (m: int)
    requires |c| > 0
    ensures forall i :: 0 <= i < |c| ==> End(c[i]) <= m
    ensures exists i :: 0 <= i < |c| && End(c[i]) == m
  {
    if |c| == 1 then End(c[0])
    else
      var m := Max(MaxEnd(c[..|c| - 1]), End(c[|c| - 1]));
      assert forall i :: 0 <= i < |c| - 1 ==> c[i] == c[..|c| - 1][i];
      m
  }

  /** The cluster loop from its current state: the open cluster `current` (whose latest
      end is `clusterEnd`) and the segments still to scan. */
  function ClustersFrom(current: seq<Segment>, clusterEnd: int, rest: seq<Segment>): (cl: seq<seq<Segment>>)
    decreases |rest|
  {
    if |rest| == 0 then [current]
    else if rest[0].startMin < clusterEnd then
      ClustersFrom(current + [rest[0]], Max(clusterEnd, End(rest[0])), rest[1..])
    else
      [current] + ClustersFrom([rest[0]], End(rest[0]), rest[1..])
  }

  function Clusters(sorted: seq<Segment>): seq<seq<Segment>> {
    if |sorted| == 0 then [] else ClustersFrom([sorted[0]], End(sorted[0]), sorted[1..])
  }

  /** Each segment of a cluster after its first starts before the latest end of those
      ahead of it: the cluster is held together by overlaps. */
  predicate Chained(c: seq<Segment>) {
    forall i :: 0 < i < |c| ==> c[i].startMin < MaxEnd(c[..i])
  }

  predicate AllChained(cl: seq<seq<Segment>>) {
    forall k :: 0 <= k < |cl| ==> Chained(cl[k])
  }

  /** Every segment of a cluster ends by the start of every segment of a later cluster. */
  predicate Apart(cl: seq<seq<Segment>>) {
    forall k, k' :: 0 <= k < k' < |cl| ==>
      forall x: Segment, y: Segment :: x in cl[k] && y in cl[k'] ==> End(x) <= y.startMin
  }

  predicate NonEmpty(cl: seq<seq<Segment>>) {
    forall k :: 0 <= k < |cl| ==> |cl[k]| > 0
  }

  lemma {:induction false} InFlatten<T>(cl: seq<seq<T>>, k: nat, x: T)
    requires k < |cl| && x in cl[k]
    ensures x in Flatten(cl)
  {
    if k > 0 {
      InFlatten(cl[1..], k - 1, x);
    }
  }

  lemma ChainedAppend(current: seq<Segment>, s: Segment)
    requires |current| > 0 && Chained(current)
    requires s.startMin < MaxEnd(current)
    ensures Chained(current + [s])
  {
    var c := current + [s];
    forall i | 0 < i < |c| ensures c[i].startMin < MaxEnd(c[..i]) {
      assert c[..i] == current[..i] || i == |current|;
      if i == |current| {
        assert c[..i] == current;
      }
    }
  }

  /** The cluster loop cuts what it scans into non-empty runs, in order, the first of
      which extends the open cluster. */
  lemma {:induction false} ClustersFromShape(current: seq<Segment>, clusterEnd: int, rest: seq<Segment>)
    requires |current| > 0
    ensures var cl := ClustersFrom(current, clusterEnd, rest);
            && |cl| > 0 && |cl[0]| >= |current| && cl[0][..|current|] == current
            && Flatten(cl) == current + rest
            && NonEmpty(cl)
    decreases |rest|
  {
    var cl := ClustersFrom(current, clusterEnd, rest);
    if |rest| == 0 {
      assert Flatten(cl) == current;
    } else if rest[0].startMin < clusterEnd {
      var current' := current + [rest[0]];
      ClustersFromShape(current', Max(clusterEnd, End(rest[0])), rest[1..]);
      assert cl[0][..|current'|][..|current|] == current;
      assert current' + rest[1..] == current + rest;
    } else {
      var tail := ClustersFrom([rest[0]], End(rest[0]), rest[1..]);
      ClustersFromShape([rest[0]], End(rest[0]), rest[1..]);
      assert cl[1..] == tail;
      assert [rest[0]] + rest[1..] == rest;
      assert forall k :: 1 <= k < |cl| ==> cl[k] == tail[k - 1];
    }
  }

  /** Every cluster the loop closes is held together by overlaps. */
  lemma {:induction false} ClustersFromChained(current: seq<Segment>, clusterEnd: int, rest: seq<Segment>)
    requires |current| > 0 && clusterEnd == MaxEnd(current) && Chained(current)
    ensures AllChained(ClustersFrom(current, clusterEnd, rest))
    decreases |rest|
  {
    var cl := ClustersFrom(current, clusterEnd, rest);
    if |rest| > 0 {
      if rest[0].startMin < clusterEnd {
        var current' := current + [rest[0]];
        assert current'[..|current'| - 1] == current;
        assert MaxEnd(current') == Max(clusterEnd, End(rest[0]));
        ChainedAppend(current, rest[0]);
        ClustersFromChained(current', Max(clusterEnd, End(rest[0])), rest[1..]);
        assert cl == ClustersFrom(current', Max(clusterEnd, End(rest[0])), rest[1..]);
      } else {
        var tail := ClustersFrom([rest[0]], End(rest[0]), rest[1..]);
        ClustersFromChained([rest[0]], End(rest[0]), rest[1..]);
        assert cl == [current] + tail;
        forall k | 0 <= k < |cl| ensures Chained(cl[k]) {
          if k > 0 {
            assert cl[k] == tail[k - 1];
          }
        }
      }
    }
  }

  /** Closing the open cluster in front of clusters built from later segments. */
  lemma ApartPrepend(current: seq<Segment>, clusterEnd: int, rest: seq<Segment>, tail: seq<seq<Segment>>)
    requires forall x :: x in current ==> End(x) <= clusterEnd
    requires forall y :: y in rest ==> clusterEnd <= y.startMin
    requires Flatten(tail) == rest
    requires Apart(tail)
    ensures Apart([current] + tail)
  {
    var cl := [current] + tail;
    forall k, k' | 0 <= k < k' < |cl|
      ensures forall x: Segment, y: Segment :: x in cl[k] && y in cl[k'] ==> End(x) <= y.startMin
    {
      if k == 0 {
        forall x: Segment, y: Segment | x in cl[k] && y in cl[k'] ensures End(x) <= y.startMin {
          InFlatten(tail, k' - 1, y);
        }
      } else {
        assert cl[k] == tail[k - 1] && cl[k'] == tail[k' - 1];
      }
    }
  }

  /** With the segments scanned in start order, nothing in a cluster overlaps anything in
      a later one. */
  lemma {:induction false} ClustersFromApart(current: seq<Segment>, clusterEnd: int, rest: seq<Segment>)
    requires |current| > 0
    requires forall x :: x in current ==> End(x) <= clusterEnd
    requires StartsSorted(rest)
    ensures Apart(ClustersFrom(current, clusterEnd, rest))
    decreases |rest|
  {
    if |rest| > 0 {
      if rest[0].startMin < clusterEnd {
        ClustersFromApart(current + [rest[0]], Max(clusterEnd, End(rest[0])), rest[1..]);
      } else {
        var tail := ClustersFrom([rest[0]], End(rest[0]), rest[1..]);
        ClustersFromApart([rest[0]], End(rest[0]), rest[1..]);
        ClustersFromShape([rest[0]], End(rest[0]), rest[1..]);
        assert [rest[0]] + rest[1..] == rest;
        ApartPrepend(current, clusterEnd, rest, tail);
      }
    }
  }

  /** The clusters of a start-sorted list cut it into consecutive, non-empty, overlap-
      connected runs, and nothing in one cluster overlaps anything in another. */
  lemma ClustersSound(sorted: seq<Segment>)
    requires StartsSorted(sorted)
    ensures var cl := Clusters(sorted);
            && Flatten(cl) == sorted
            && NonEmpty(cl)
            && AllChained(cl)
            && Apart(cl)
  {
    if |sorted| > 0 {
      assert [sorted[0]][..0] == [];
      ClustersFromShape([sorted[0]], End(sorted[0]), sorted[1..]);
      ClustersFromChained([sorted[0]], End(sorted[0]), sorted[1..]);
      ClustersFromApart([sorted[0]], End(sorted[0]), sorted[1..]);
      assert [sorted[0]] + sorted[1..] == sorted;
    }
  }

  // ---------------------------------------------------------------------------
  // The layout

  /** A laid-out segment: column `col` of `cols`, i.e. `leftPct = col * widthPct` and
      `widthPct = 100 / cols`. */
  datatype Placed = Placed(seg: Segment, col: nat, cols: nat)

  /** The packing of one cluster. */
  function LayoutCluster(c: seq<Segment>): (r: seq<Placed>)
    ensures |r| == |c|
    ensures forall j :: 0 <= j < |c| ==> r[j].seg == c[j] && r[j].col < r[j].cols
    ensures forall j :: 0 <= j < |c| ==> r[j].cols == ColumnCount(c)
  {
    assert forall j :: 0 <= j < |c| ==> Column(c, j) < ColumnCount(c) by {
      forall j | 0 <= j < |c| ensures Column(c, j) < ColumnCount(c) {
        ColumnInRange(c, j);
      }
    }
    seq(|c|, j requires 0 <= j < |c| => Placed(c[j], Column(c, j), ColumnCount(c)))
  }

  function LayoutAll(cl: seq<seq<Segment>>): (r: seq<seq<Placed>>)
    ensures |r| == |cl|
    ensures forall k :: 0 <= k < |cl| ==> r[k] == LayoutCluster(cl[k])
  {
    if |cl| == 0 then [] else [LayoutCluster(cl[0])] + LayoutAll(cl[1..])
  }

  /** `layoutEvents`, cluster by cluster: one entry per cluster, every column index below
      the column count of its cluster, and a segment alone in its cluster on the whole
      width. */
  function LayoutEvents(segs: seq<Segment>): (r: seq<seq<Placed>>)
    ensures |r| == |Clusters(SortBy(segs, ByStartThenLongest))|
    ensures forall k, j :: 0 <= k < |r| && 0 <= j < |r[k]| ==> r[k][j].col < r[k][j].cols
    ensures forall k :: 0 <= k < |r| && |r[k]| == 1 ==> r[k][0].cols == 1
  {
    LayoutAll(Clusters(SortBy(segs, ByStartThenLongest)))
  }

  function Segs(r: seq<Placed>): (s: seq<Segment>)
    ensures |s| == |r|
    ensures forall i :: 0 <= i < |r| ==> s[i] == r[i].seg
  {
    seq(|r|, i requires 0 <= i < |r| => r[i].seg)
  }

  lemma SortedByStart(s: seq<Segment>)
    requires Sorted(s, ByStartThenLongest)
    ensures StartsSorted(s)
  {
    forall i, j | 0 <= i < j < |s| ensures s[i].startMin <= s[j].startMin {
      assert KeyLe(ByStartThenLongest(s[i]), ByStartThenLongest(s[j]));
    }
  }

  /** What `layoutEvents` promises: the clusters, read in order, are the segments sorted by
      start (each input segment exactly once); every column index is below its cluster's
      column count, a lone segment takes the whole width, segments of different clusters
      never overlap, and two overlapping segments of one cluster never share a column. */
  lemma LayoutEventsSound(segs: seq<Segment>)
    requires NoNegativeDuration(segs)
    ensures var sorted := SortBy(segs, ByStartThenLongest);
            var cl := Clusters(sorted);
            var lay := LayoutEvents(segs);
            && multiset(Flatten(cl)) == multiset(segs)
            && StartsSorted(Flatten(cl))
            && |lay| == |cl|
            && (forall k :: 0 <= k < |cl| ==> Segs(lay[k]) == cl[k])
            && (forall k, j :: 0 <= k < |lay| && 0 <= j < |lay[k]| ==> lay[k][j].col < lay[k][j].cols)
            && (forall k :: 0 <= k < |lay| && |lay[k]| == 1 ==> lay[k][0].cols == 1)
            && Apart(cl)
            && (forall k, i, j :: 0 <= k < |lay| && 0 <= i < j < |lay[k]| && Overlap(lay[k][i].seg, lay[k][j].seg)
                  ==> lay[k][i].col != lay[k][j].col)
  {
    var sorted := SortBy(segs, ByStartThenLongest);
    var cl := Clusters(sorted);
    var lay := LayoutEvents(segs);
    SortedByStart(sorted);
    ClustersSound(sorted);
    forall k | 0 <= k < |cl| ensures Segs(lay[k]) == cl[k] {
    }
    forall k | 0 <= k < |lay| && |lay[k]| == 1 ensures lay[k][0].cols == 1 {

    }
    forall k, i, j | 0 <= k < |lay| && 0 <= i < j < |lay[k]| && Overlap(lay[k][i].seg, lay[k][j].seg)
      ensures lay[k][i].col != lay[k][j].col
    {
      var c := cl[k];
      assert NoNegativeDuration(c) by {
        forall n | 0 <= n < |c| ensures c[n].duration >= 0 {
          InFlatten(cl, k, c[n]);
          assert c[n] in multiset(segs);
        }
      }
      if lay[k][i].col == lay[k][j].col {
        ColumnChain(c, i, j);
      }
    }
  }
}

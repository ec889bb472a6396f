/**
 * The edge list `connect` builds: one edge `(a, b, weight[d])` for every pair
 * of stored Taxa at Hamming distance 1, d being the column they differ in and
 * a, b their `Index`es (position in the store plus one).
 */
module Edges {
  import opened Wrappers
  import opened Taxa
  import opened NodeSet

  /** An entry of `edges`, with the endpoints given by their `Index`. */
  datatype Edge = Edge(a: nat, b: nat, weight: nat)

  /** The numbering `connect` gives: `Index` is the position in set order plus one. */
  ghost predicate Numbered(ns: seq<Node>)
  {
    forall i :: 0 <= i < |ns| ==> ns[i].index == i + 1
  }

  /** The Taxa at positions i and j differ in exactly one column. */
  ghost predicate Adjacent(ns: seq<Node>, i: nat, j: nat)
    requires i < |ns| && j < |ns|
  {
    Distance(ns[i].bits, ns[j].bits) == Ok(1)
  }

  /** `weight[difference]` for an adjacent pair. */
  function EdgeWeight(ns: seq<Node>, weight: seq<nat>, i: nat, j: nat): nat
    requires i < |ns| && j < |ns| && Uniform(ns, |weight|) && Adjacent(ns, i, j)
  {
    DistanceOneDifference(ns[i].bits, ns[j].bits);
    weight[Difference(ns[i].bits, ns[j].bits).value]
  }

  /** The edges found for the Taxon at position i against positions i+1 .. j-1, in that order. */
  function RowEdges(ns: seq<Node>, weight: seq<nat>, i: nat, j: nat): seq<Edge>
    requires i < j <= |ns| && Uniform(ns, |weight|)
    decreases j
  {
    if j == i + 1 then []
    else
      RowEdges(ns, weight, i, j - 1) +
      if Distance(ns[i].bits, ns[j - 1].bits) == Ok(1) then [Edge(i + 1, j, EdgeWeight(ns, weight, i, j - 1))] else []
  }

  /** The edges found for the Taxa at positions 0 .. i-1, in the order `connect` appends them. */
  function AllEdges(ns: seq<Node>, weight: seq<nat>, i: nat): seq<Edge>
    requires i <= |ns| && Uniform(ns, |weight|)
  {
    if i == 0 then [] else AllEdges(ns, weight, i - 1) + RowEdges(ns, weight, i - 1, |ns|)
  }

  /** The edge for positions i < j. */
  ghost predicate IsEdgeOf(ns: seq<Node>, weight: seq<nat>, e: Edge, i: nat, j: nat)
    requires Uniform(ns, |weight|)
  {
    i < j < |ns| && Adjacent(ns, i, j) && e == Edge(i + 1, j + 1, EdgeWeight(ns, weight, i, j))
  }

  /** `e` is the edge of a pair whose first position is below i. */
  ghost predicate EdgeBelow(ns: seq<Node>, weight: seq<nat>, e: Edge, i: nat)
    requires Uniform(ns, |weight|)
  {
    exists a: nat, b: nat :: a < i && IsEdgeOf(ns, weight, e, a, b)
  }

  /** Lexicographic order on the endpoints. */
  predicate EdgeBefore(e: Edge, f: Edge)
  {
    e.a < f.a || (e.a == f.a && e.b < f.b)
  }

  ghost predicate Increasing(es: seq<Edge>)
  {
    forall s, t :: 0 <= s < t < |es| ==> EdgeBefore(es[s], es[t])
  }

  /** Each edge of row i starts at i and ends at a later position below j. */
  lemma {:induction false} RowEdgesEnds(ns: seq<Node>, weight: seq<nat>, i: nat, j: nat)
    requires i < j <= |ns| && Uniform(ns, |weight|)
    ensures forall e :: e in RowEdges(ns, weight, i, j) ==> e.a == i + 1 && i + 1 < e.b <= j
    decreases j
  {
    if j > i + 1 {
      RowEdgesEnds(ns, weight, i, j - 1);
    }
  }

  /** Each edge of row i joins i to a later adjacent position below j. */
  lemma {:induction false} RowEdgesSound(ns: seq<Node>, weight: seq<nat>, i: nat, j: nat)
    requires i < j <= |ns| && Uniform(ns, |weight|)
    ensures forall e :: e in RowEdges(ns, weight, i, j) ==> exists b: nat :: i < b < j && IsEdgeOf(ns, weight, e, i, b)
    decreases j
  {
    if j > i + 1 {
      RowEdgesSound(ns, weight, i, j - 1);
      var es := RowEdges(ns, weight, i, j - 1);
      forall e | e in RowEdges(ns, weight, i, j) ensures exists b: nat :: i < b < j && IsEdgeOf(ns, weight, e, i, b) {
        if e in es {
          var b: nat :| i < b < j - 1 && IsEdgeOf(ns, weight, e, i, b);
        } else {
          assert IsEdgeOf(ns, weight, e, i, j - 1);
        }
      }
    }
  }

  /** Every later position adjacent to i, below j, has its edge in row i. */
  lemma {:induction false} RowEdgesComplete(ns: seq<Node>, weight: seq<nat>, i: nat, j: nat)
    requires i < j <= |ns| && Uniform(ns, |weight|)
    ensures forall b: nat :: i < b < j && Adjacent(ns, i, b) ==> Edge(i + 1, b + 1, EdgeWeight(ns, weight, i, b)) in RowEdges(ns, weight, i, j)
    decreases j
  {
    if j > i + 1 {
      RowEdgesComplete(ns, weight, i, j - 1);
      assert RowEdges(ns, weight, i, j - 1) <= RowEdges(ns, weight, i, j);
    }
  }

  /** Row i lists its edges in increasing order of the second endpoint, at most one per later position. */
  lemma {:induction false} RowEdgesIncreasing(ns: seq<Node>, weight: seq<nat>, i: nat, j: nat)
    requires i < j <= |ns| && Uniform(ns, |weight|)
    ensures Increasing(RowEdges(ns, weight, i, j))
    ensures |RowEdges(ns, weight, i, j)| <= j - i - 1
    decreases j
  {
    if j > i + 1 {
      RowEdgesIncreasing(ns, weight, i, j - 1);
      RowEdgesEnds(ns, weight, i, j - 1);
      var es := RowEdges(ns, weight, i, j - 1);
      if Distance(ns[i].bits, ns[j - 1].bits) == Ok(1) {
        IncreasingSnoc(es, Edge(i + 1, j, EdgeWeight(ns, weight, i, j - 1)));
      }
    }
  }

  lemma IncreasingSnoc(es: seq<Edge>, e: Edge)
    requires Increasing(es) && forall f :: f in es ==> EdgeBefore(f, e)
    ensures Increasing(es + [e])
  {
    var all := es + [e];
    forall s, t | 0 <= s < t < |all| ensures EdgeBefore(all[s], all[t]) {
      assert all[s] == es[s] && es[s] in es;
      if t < |es| {
        assert all[t] == es[t];
      }
    }
  }

  /** Every listed edge starts at one of the first i positions. */
  lemma {:induction false} EdgesEnds(ns: seq<Node>, weight: seq<nat>, i: nat)
    requires i <= |ns| && Uniform(ns, |weight|)
    ensures forall e :: e in AllEdges(ns, weight, i) ==> 0 < e.a <= i
    decreases i
  {
    if i > 0 {
      EdgesEnds(ns, weight, i - 1);
      RowEdgesEnds(ns, weight, i - 1, |ns|);
    }
  }

  /** Every listed edge joins an adjacent pair i < j and carries the weight of their differing column. */
  lemma {:induction false} EdgesSound(ns: seq<Node>, weight: seq<nat>, i: nat)
    requires i <= |ns| && Uniform(ns, |weight|)
    ensures forall e :: e in AllEdges(ns, weight, i) ==> EdgeBelow(ns, weight, e, i)
    decreases i
  {
    if i > 0 {
      EdgesSound(ns, weight, i - 1);
      RowEdgesSound(ns, weight, i - 1, |ns|);
      forall e | e in AllEdges(ns, weight, i) ensures EdgeBelow(ns, weight, e, i) {
        if e in AllEdges(ns, weight, i - 1) {
          var a: nat, b: nat :| a < i - 1 && IsEdgeOf(ns, weight, e, a, b);
        } else {
          var b: nat :| i - 1 < b < |ns| && IsEdgeOf(ns, weight, e, i - 1, b);
        }
      }
    }
  }

  /** Every adjacent pair with first position below i has its edge listed. */
  lemma {:induction false} EdgesComplete(ns: seq<Node>, weight: seq<nat>, i: nat)
    requires i <= |ns| && Uniform(ns, |weight|)
    ensures forall a: nat, b: nat :: a < i && a < b < |ns| && Adjacent(ns, a, b) ==> Edge(a + 1, b + 1, EdgeWeight(ns, weight, a, b)) in AllEdges(ns, weight, i)
    decreases i
  {
    if i > 0 {
      EdgesComplete(ns, weight, i - 1);
      RowEdgesComplete(ns, weight, i - 1, |ns|);
      var front := AllEdges(ns, weight, i - 1);
      var row := RowEdges(ns, weight, i - 1, |ns|);
      assert AllEdges(ns, weight, i) == front + row;
      forall a: nat, b: nat | a < i && a < b < |ns| && Adjacent(ns, a, b)
        ensures Edge(a + 1, b + 1, EdgeWeight(ns, weight, a, b)) in front + row
      {
        if a < i - 1 {
          assert Edge(a + 1, b + 1, EdgeWeight(ns, weight, a, b)) in front;
        } else {
          assert Edge(a + 1, b + 1, EdgeWeight(ns, weight, a, b)) in row;
        }
      }
    }
  }

  /** The list is strictly increasing in the endpoints, so no edge appears twice. */
  lemma {:induction false} EdgesIncreasing(ns: seq<Node>, weight: seq<nat>, i: nat)
    requires i <= |ns| && Uniform(ns, |weight|)
    ensures Increasing(AllEdges(ns, weight, i))
    decreases i
  {
    if i > 0 {
      EdgesIncreasing(ns, weight, i - 1);
      EdgesEnds(ns, weight, i - 1);
      RowEdgesEnds(ns, weight, i - 1, |ns|);
      RowEdgesIncreasing(ns, weight, i - 1, |ns|);
      IncreasingConcat(AllEdges(ns, weight, i - 1), RowEdges(ns, weight, i - 1, |ns|), i);
    }
  }

  lemma IncreasingConcat(front: seq<Edge>, row: seq<Edge>, a: nat)
    requires Increasing(front) && Increasing(row)
    requires forall e :: e in front ==> e.a < a
    requires forall e :: e in row ==> e.a == a
    ensures Increasing(front + row)
  {
    var es := front + row;
    forall s, t | 0 <= s < t < |es| ensures EdgeBefore(es[s], es[t]) {
      if s < |front| {
        assert es[s] == front[s] && front[s] in front;
        if t >= |front| {
          assert es[t] == row[t - |front|] && row[t - |front|] in row;
        }
      } else {
        assert es[s] == row[s - |front|] && es[t] == row[t - |front|];
      }
    }
  }

  /** At most one edge per unordered pair: 2 |edges| <= i (2V - i - 1), which is V (V - 1) at i = V. */
  lemma {:induction false} EdgesCount(ns: seq<Node>, weight: seq<nat>, i: nat)
    requires i <= |ns| && Uniform(ns, |weight|)
    ensures 2 * |AllEdges(ns, weight, i)| <= i * (2 * |ns| - i - 1)
    decreases i
  {
    if i > 0 {
      EdgesCount(ns, weight, i - 1);
      RowEdgesIncreasing(ns, weight, i - 1, |ns|);
      var n := |ns|;
      assert (i - 1) * (2 * n - i) + 2 * (n - i) == i * (2 * n - i - 1);
    }
  }

  /** The bound for the whole store: V (V - 1) / 2 edges at most. */
  lemma EdgesBound(ns: seq<Node>, weight: seq<nat>)
    requires Uniform(ns, |weight|)
    ensures |AllEdges(ns, weight, |ns|)| <= |ns| * (|ns| - 1) / 2
  {
    EdgesCount(ns, weight, |ns|);
  }
}

/**
 * Column reduction of `preprocess`: every column gets an action code, -2 for a
 * constant column (dropped), -1 for a surviving column and i >= 0 for a column
 * that splits the Taxa like the earlier column i (merged into i, whose weight
 * grows by one).
 */
module Reduction {
  import opened Taxa
  import opened Seqs
  import opened Partitions
  import opened NodeSet

  /** Column c takes one value on every Taxon: `partitions0[c].none()` or `partitions1[c].none()`. */
  predicate Constant(p0: seq<Bitset>, p1: seq<Bitset>, c: nat)
    requires c < |p0| && c < |p1|
  {
    None(p0[c]) || None(p1[c])
  }

  /** Column j splits the Taxa like column i: equal to it or to its complement. */
  predicate Matches(p0: seq<Bitset>, p1: seq<Bitset>, i: nat, j: nat)
    requires i < |p0| && j < |p0| && j < |p1|
  {
    p0[i] == p0[j] || p0[i] == p1[j]
  }

  /**
   * The action vector `preprocess` computes: -2 exactly for constant columns;
   * every other column either survives (-1) and matches no earlier survivor,
   * or names an earlier surviving column it matches.
   */
  ghost predicate ActionsValid(p0: seq<Bitset>, p1: seq<Bitset>, action: seq<int>)
  {
    && |p0| == |action| && |p1| == |action|
    && (forall c :: 0 <= c < |action| ==> -2 <= action[c] < c)
    && (forall c :: 0 <= c < |action| ==> (action[c] == -2 <==> Constant(p0, p1, c)))
    && (forall c :: 0 <= c < |action| && action[c] >= 0 ==> action[action[c]] == -1 && Matches(p0, p1, action[c], c))
    && (forall c, i :: 0 <= i < c < |action| && action[c] == -1 && action[i] == -1 ==> !Matches(p0, p1, i, c))
  }

  /** The surviving columns (action -1), in increasing order. */
  function Kept(action: seq<int>): (k: seq<nat>)
    ensures forall t :: 0 <= t < |k| ==> k[t] < |action| && action[k[t]] == -1
  {
    if |action| == 0 then []
    else Kept(action[..|action| - 1]) + if action[|action| - 1] == -1 then [|action| - 1] else []
  }

  /** Every surviving column is listed. */
  lemma {:induction false} KeptComplete(action: seq<int>)
    ensures forall c :: 0 <= c < |action| && action[c] == -1 ==> c in Kept(action)
    decreases |action|
  {
    if |action| > 0 {
      KeptComplete(action[..|action| - 1]);
    }
  }

  /** The surviving columns are listed in increasing order. */
  lemma {:induction false} KeptIncreasing(action: seq<int>)
    ensures forall s, t :: 0 <= s < t < |Kept(action)| ==> Kept(action)[s] < Kept(action)[t]
    decreases |action|
  {
    if |action| > 0 {
      KeptIncreasing(action[..|action| - 1]);
    }
  }

  /** The entries of `s` at the positions `k`, in that order. */
  function Restrict<T>(s: seq<T>, k: seq<nat>): (r: seq<T>)
    requires forall t :: 0 <= t < |k| ==> k[t] < |s|
    ensures |r| == |k| && forall t :: 0 <= t < |k| ==> r[t] == s[k[t]]
  {
    seq(|k|, t requires 0 <= t < |k| => s[k[t]])
  }

  /** Every Taxon restricted to the columns `k`; `Terminal` and `Index` stay. */
  function RestrictNodes(ns: seq<Node>, k: seq<nat>, m: nat): (r: seq<Node>)
    requires Uniform(ns, m) && forall t :: 0 <= t < |k| ==> k[t] < m
    ensures |r| == |ns| && Uniform(r, |k|)
    ensures forall i :: 0 <= i < |ns| ==> r[i] == ns[i].(bits := Restrict(ns[i].bits, k))
  {
    seq(|ns|, i requires 0 <= i < |ns| => ns[i].(bits := Restrict(ns[i].bits, k)))
  }

  /** Every row restricted to the columns `k`. */
  function RestrictRows(rows: seq<Bits>, k: seq<nat>, m: nat): (r: seq<Bits>)
    requires (forall i :: 0 <= i < |rows| ==> |rows[i]| == m) && forall t :: 0 <= t < |k| ==> k[t] < m
    ensures |r| == |rows| && forall i :: 0 <= i < |rows| ==> r[i] == Restrict(rows[i], k)
  {
    seq(|rows|, i requires 0 <= i < |rows| => Restrict(rows[i], k))
  }

  /** Number of entries equal to `x`. */
  function Count(action: seq<int>, x: int): nat
  {
    if |action| == 0 then 0
    else Count(action[..|action| - 1], x) + if action[|action| - 1] == x then 1 else 0
  }

  /** Number of merged columns (entries >= 0). */
  function Merged(action: seq<int>): nat
  {
    if |action| == 0 then 0
    else Merged(action[..|action| - 1]) + if action[|action| - 1] >= 0 then 1 else 0
  }

  /** The weights `preprocess` leaves: each surviving column's weight plus one per column merged into it. */
  function Reweighted(w: seq<nat>, action: seq<int>): (r: seq<nat>)
    requires |w| == |action|
    ensures |r| == |Kept(action)|
  {
    var k := Kept(action);
    seq(|k|, t requires 0 <= t < |k| => w[k[t]] + Count(action, k[t]))
  }

  /** Total weight of the columns the second erase pass deletes. */
  function DroppedWeight(w: seq<nat>, action: seq<int>): nat
    requires |action| <= |w|
  {
    if |action| == 0 then 0
    else DroppedWeight(w, action[..|action| - 1]) + if action[|action| - 1] != -1 then w[|action| - 1] else 0
  }

  /** `m = count_if(action == -1)` is the number of surviving columns. */
  lemma {:induction false} KeptCount(action: seq<int>)
    ensures |Kept(action)| == Count(action, -1)
    decreases |action|
  {
    if |action| > 0 {
      KeptCount(action[..|action| - 1]);
    }
  }

  /** Each column is dropped, kept or merged. */
  lemma {:induction false} CountsAddUp(action: seq<int>)
    requires forall c :: 0 <= c < |action| ==> action[c] >= -2
    ensures Count(action, -2) + Count(action, -1) + Merged(action) == |action|
    decreases |action|
  {
    if |action| > 0 {
      CountsAddUp(action[..|action| - 1]);
    }
  }

  /** Surviving columns receive no merge target. */
  lemma {:induction false} NoMergeIntoDropped(action: seq<int>, prefix: nat, c: nat)
    requires prefix <= |action| && c < |action| && action[c] != -1
    requires forall x :: 0 <= x < |action| && action[x] >= 0 ==> action[x] < |action| && action[action[x]] == -1
    ensures Count(action[..prefix], c) == 0
    decreases prefix
  {
    if prefix > 0 {
      assert action[..prefix][..prefix - 1] == action[..prefix - 1];
      NoMergeIntoDropped(action, prefix - 1, c);
    }
  }

  /**
   * With weights 1 before the merges, the deleted columns weigh one each, so
   * they weigh the number of dropped and merged columns together.
   */
  lemma {:induction false} DroppedWeightIsCount(w: seq<nat>, action: seq<int>, prefix: nat)
    requires prefix <= |action| <= |w|
    requires forall c :: 0 <= c < |action| && action[c] != -1 ==> w[c] == 1
    ensures DroppedWeight(w, action[..prefix]) == prefix - Count(action[..prefix], -1)
    decreases prefix
  {
    if prefix > 0 {
      assert action[..prefix][..prefix - 1] == action[..prefix - 1];
      DroppedWeightIsCount(w, action, prefix - 1);
    }
  }

  /** One step of the erase loops: column `c` is either kept or deleted at position |k|. */
  lemma RestrictStep<T>(s: seq<T>, k: seq<nat>, c: nat)
    requires c < |s| && forall t :: 0 <= t < |k| ==> k[t] < c
    ensures Restrict(s, k) + s[c..] == Restrict(s, k + [c]) + s[c + 1..]
    ensures |k| < |Restrict(s, k) + s[c..]|
    ensures RemoveAt(Restrict(s, k) + s[c..], |k|) == Restrict(s, k) + s[c + 1..]
  {
    var a := Restrict(s, k) + s[c..];
    var b := Restrict(s, k + [c]) + s[c + 1..];
    assert |a| == |b|;
    forall i | 0 <= i < |a| ensures a[i] == b[i] {
      if i < |k| {
        assert a[i] == s[k[i]] == b[i];
      } else if i == |k| {
        assert a[i] == s[c] == b[i];
      } else {
        assert a[i] == s[c + i - |k|] == b[i];
      }
    }
  }

  lemma KeptStep(action: seq<int>, c: nat)
    requires c < |action|
    ensures Kept(action[..c + 1]) == Kept(action[..c]) + if action[c] == -1 then [c] else []
    ensures Count(action[..c + 1], -1) == Count(action[..c], -1) + if action[c] == -1 then 1 else 0
    ensures Merged(action[..c + 1]) == Merged(action[..c]) + if action[c] >= 0 then 1 else 0
  {
    assert action[..c + 1][..c] == action[..c];
  }

  lemma CountStep(action: seq<int>, c: nat)
    requires c < |action|
    ensures forall x :: Count(action[..c + 1], x) == Count(action[..c], x) + if action[c] == x then 1 else 0
  {
    assert action[..c + 1][..c] == action[..c];
  }

  /**
   * The first difference of two tabulated Taxa is never in a constant column
   * nor in a column matching an earlier one, so it survives: deleting the
   * other columns keeps `operator<` between them.
   */
  lemma RestrictKeepsOrder(p0: seq<Bitset>, p1: seq<Bitset>, rows: seq<Bits>, action: seq<int>, a: Bits, b: Bits)
    requires Tabulates(p0, p1, rows, |action|) && ActionsValid(p0, p1, action)
    requires a in rows && b in rows && Less(a, b)
    ensures Less(Restrict(a, Kept(action)), Restrict(b, Kept(action)))
  {
    var d: nat :| IsFirstDifference(a, b, d) && a[d];
    var ra :| 0 <= ra < |rows| && rows[ra] == a;
    var rb :| 0 <= rb < |rows| && rows[rb] == b;
    DifferenceSurvives(p0, p1, rows, action, ra, rb, d);
    RestrictFirstDifference(a, b, action, d);
  }

  /** The first difference of two tabulated Taxa is in a column `preprocess` keeps. */
  lemma DifferenceSurvives(p0: seq<Bitset>, p1: seq<Bitset>, rows: seq<Bits>, action: seq<int>, ra: nat, rb: nat, d: nat)
    requires Tabulates(p0, p1, rows, |action|) && ActionsValid(p0, p1, action)
    requires ra < |rows| && rb < |rows| && IsFirstDifference(rows[ra], rows[rb], d)
    ensures d < |action| && action[d] == -1
  {
    assert p0[d][ra] != p0[d][rb] && p1[d][ra] != p1[d][rb];
    assert !Constant(p0, p1, d) by {
      if rows[ra][d] {
        assert p1[d][ra] && p0[d][rb];
      } else {
        assert p0[d][ra] && p1[d][rb];
      }
    }
    forall i | 0 <= i < d ensures !Matches(p0, p1, i, d) {
      assert p0[i][ra] == p0[i][rb];
    }
  }

  /** A first difference in a kept column is, after the restriction, a first difference at its new place. */
  lemma RestrictFirstDifference(a: Bits, b: Bits, action: seq<int>, d: nat)
    requires |a| == |b| == |action| && IsFirstDifference(a, b, d) && a[d] && action[d] == -1
    ensures Less(Restrict(a, Kept(action)), Restrict(b, Kept(action)))
  {
    var k := Kept(action);
    KeptIncreasing(action);
    KeptComplete(action);
    assert d in k;
    var t :| 0 <= t < |k| && k[t] == d;
    var ka, kb := Restrict(a, k), Restrict(b, k);
    forall s | 0 <= s < t ensures ka[s] == kb[s] {
      assert k[s] < d;
    }
    assert IsFirstDifference(ka, kb, t) && ka[t];
  }

  /** Preprocessing keeps the node store sorted. */
  lemma RestrictKeepsSorted(p0: seq<Bitset>, p1: seq<Bitset>, rows: seq<Bits>, action: seq<int>, ns: seq<Node>)
    requires Tabulates(p0, p1, rows, |action|) && ActionsValid(p0, p1, action)
    requires Sorted(ns) && Uniform(ns, |action|) && forall x :: x in ns ==> x.bits in rows
    ensures Sorted(RestrictNodes(ns, Kept(action), |action|))
  {
    var r := RestrictNodes(ns, Kept(action), |action|);
    forall i, j | 0 <= i < j < |r| ensures Less(r[i].bits, r[j].bits) {
      assert ns[i] in ns && ns[j] in ns;
      RestrictKeepsOrder(p0, p1, rows, action, ns[i].bits, ns[j].bits);
    }
  }

  /** Deleting the same columns from the table and from the rows keeps the table describing them. */
  lemma RestrictTabulates(p0: seq<Bitset>, p1: seq<Bitset>, rows: seq<Bits>, m: nat, k: seq<nat>)
    requires Tabulates(p0, p1, rows, m) && forall t :: 0 <= t < |k| ==> k[t] < m
    ensures Tabulates(Restrict(p0, k), Restrict(p1, k), RestrictRows(rows, k, m), |k|)
  {
  }

  // ---------------------------------------------------------------------------
  // The erase passes of `preprocess`, one column at a time
  // ---------------------------------------------------------------------------

  /** The store while the erase pass is at column c: columns before c restricted to `k`, the rest untouched. */
  function PartialNodes(ns: seq<Node>, k: seq<nat>, c: nat, m: nat): (r: seq<Node>)
    requires Uniform(ns, m) && c <= m && forall t :: 0 <= t < |k| ==> k[t] < c
    ensures |r| == |ns| && Uniform(r, |k| + m - c)
    ensures forall i :: 0 <= i < |ns| ==> r[i].terminal == ns[i].terminal && r[i].index == ns[i].index
  {
    seq(|ns|, i requires 0 <= i < |ns| => ns[i].(bits := Restrict(ns[i].bits, k) + ns[i].bits[c..]))
  }

  /** The rows while the erase pass is at column c. */
  function PartialRows(rows: seq<Bits>, k: seq<nat>, c: nat, m: nat): (r: seq<Bits>)
    requires (forall i :: 0 <= i < |rows| ==> |rows[i]| == m) && c <= m && forall t :: 0 <= t < |k| ==> k[t] < c
    ensures |r| == |rows| && forall i :: 0 <= i < |rows| ==> |r[i]| == |k| + m - c
  {
    seq(|rows|, i requires 0 <= i < |rows| => Restrict(rows[i], k) + rows[i][c..])
  }

  /** Before the pass nothing has changed. */
  lemma PartialStart(ns: seq<Node>, rows: seq<Bits>, m: nat)
    requires Uniform(ns, m) && forall i :: 0 <= i < |rows| ==> |rows[i]| == m
    ensures PartialNodes(ns, [], 0, m) == ns && PartialRows(rows, [], 0, m) == rows
  {
    forall i | 0 <= i < |ns| ensures PartialNodes(ns, [], 0, m)[i] == ns[i] {
      assert Restrict(ns[i].bits, []) + ns[i].bits[0..] == ns[i].bits;
    }
    forall i | 0 <= i < |rows| ensures PartialRows(rows, [], 0, m)[i] == rows[i] {
      assert Restrict(rows[i], []) + rows[i][0..] == rows[i];
    }
  }

  /** `it0++`: column c is kept, nothing moves. */
  lemma PartialKeep(ns: seq<Node>, rows: seq<Bits>, k: seq<nat>, c: nat, m: nat)
    requires Uniform(ns, m) && (forall i :: 0 <= i < |rows| ==> |rows[i]| == m)
    requires c < m && forall t :: 0 <= t < |k| ==> k[t] < c
    ensures PartialNodes(ns, k, c, m) == PartialNodes(ns, k + [c], c + 1, m)
    ensures PartialRows(rows, k, c, m) == PartialRows(rows, k + [c], c + 1, m)
  {
    forall i | 0 <= i < |ns| ensures PartialNodes(ns, k, c, m)[i] == PartialNodes(ns, k + [c], c + 1, m)[i] {
      RestrictStep(ns[i].bits, k, c);
    }
    forall i | 0 <= i < |rows| ensures PartialRows(rows, k, c, m)[i] == PartialRows(rows, k + [c], c + 1, m)[i] {
      RestrictStep(rows[i], k, c);
    }
  }

  /** `n->remove(c - rem)` on every node: column c is deleted at position |k|. */
  lemma PartialDropNodes(ns: seq<Node>, k: seq<nat>, c: nat, m: nat, after: seq<Node>)
    requires Uniform(ns, m) && c < m && forall t :: 0 <= t < |k| ==> k[t] < c
    requires |after| == |ns|
    requires forall i :: 0 <= i < |ns| ==> (|k| < |PartialNodes(ns, k, c, m)[i].bits| &&
      after[i] == PartialNodes(ns, k, c, m)[i].(bits := RemoveAt(PartialNodes(ns, k, c, m)[i].bits, |k|)))
    ensures after == PartialNodes(ns, k, c + 1, m)
  {
    forall i | 0 <= i < |ns| ensures after[i] == PartialNodes(ns, k, c + 1, m)[i] {
      RestrictStep(ns[i].bits, k, c);
    }
  }

  lemma PartialDropRows(rows: seq<Bits>, k: seq<nat>, c: nat, m: nat, after: seq<Bits>)
    requires (forall i :: 0 <= i < |rows| ==> |rows[i]| == m) && c < m && forall t :: 0 <= t < |k| ==> k[t] < c
    requires |after| == |rows|
    requires forall i :: 0 <= i < |rows| ==> (|k| < |PartialRows(rows, k, c, m)[i]| &&
      after[i] == RemoveAt(PartialRows(rows, k, c, m)[i], |k|))
    ensures after == PartialRows(rows, k, c + 1, m)
  {
    forall i | 0 <= i < |rows| ensures after[i] == PartialRows(rows, k, c + 1, m)[i] {
      RestrictStep(rows[i], k, c);
    }
  }

  /** At the end of the pass every column has been visited. */
  lemma PartialDone(ns: seq<Node>, rows: seq<Bits>, k: seq<nat>, m: nat)
    requires Uniform(ns, m) && (forall i :: 0 <= i < |rows| ==> |rows[i]| == m) && forall t :: 0 <= t < |k| ==> k[t] < m
    ensures PartialNodes(ns, k, m, m) == RestrictNodes(ns, k, m)
    ensures PartialRows(rows, k, m, m) == RestrictRows(rows, k, m)
  {
    forall i | 0 <= i < |ns| ensures PartialNodes(ns, k, m, m)[i] == RestrictNodes(ns, k, m)[i] {
      assert Restrict(ns[i].bits, k) + ns[i].bits[m..] == Restrict(ns[i].bits, k);
    }
    forall i | 0 <= i < |rows| ensures PartialRows(rows, k, m, m)[i] == RestrictRows(rows, k, m)[i] {
      assert Restrict(rows[i], k) + rows[i][m..] == Restrict(rows[i], k);
    }
  }

  lemma DroppedStep(w: seq<nat>, action: seq<int>, c: nat)
    requires c < |action| <= |w|
    ensures DroppedWeight(w, action[..c + 1]) == DroppedWeight(w, action[..c]) + if action[c] != -1 then w[c] else 0
  {
    assert action[..c + 1][..c] == action[..c];
  }

  /** The two erase passes together: the first adds the merge counts, the second keeps the surviving columns. */
  lemma WeightsAfterErase(w: seq<nat>, w1: seq<nat>, w2: seq<nat>, action: seq<int>)
    requires |w| == |action| && |w1| == |action|
    requires forall x :: 0 <= x < |action| ==> w1[x] == w[x] + Count(action, x)
    requires w2 == Restrict(w1, Kept(action))
    ensures w2 == Reweighted(w, action)
  {
  }

  /** Total of all-ones weights. */
  lemma {:induction false} SumOnes(w: seq<nat>)
    requires forall c :: 0 <= c < |w| ==> w[c] == 1
    ensures Sum(w) == |w|
    decreases |w|
  {
    if |w| > 0 {
      SumOnes(w[..|w| - 1]);
    }
  }

  /**
   * Starting from weights 1 and adding one per merged column, the weights
   * left on the surviving columns total the number of non-constant columns.
   */
  lemma MergedWeightTotal(w: seq<nat>, w1: seq<nat>, action: seq<int>)
    requires |w| == |action| && |w1| == |action|
    requires forall c :: 0 <= c < |action| ==> w[c] == 1 && action[c] >= -2
    requires forall x :: 0 <= x < |action| && action[x] >= 0 ==> action[x] < |action| && action[action[x]] == -1
    requires forall x :: 0 <= x < |action| ==> w1[x] == w[x] + Count(action, x)
    requires Sum(w1) == Sum(w) + Merged(action)
    ensures DroppedWeight(w1, action) <= Sum(w1)
    ensures Sum(w1) - DroppedWeight(w1, action) == |action| - Count(action, -2)
  {
    SumOnes(w);
    assert action[..|action|] == action;
    forall c | 0 <= c < |action| && action[c] != -1 ensures w1[c] == 1 {
      NoMergeIntoDropped(action, |action|, c);
    }
    DroppedWeightIsCount(w1, action, |action|);
    CountsAddUp(action);
  }

  /**
   * Both erase passes on the weights: each surviving column ends with its
   * own weight plus the number of columns merged into it, and from all-ones
   * weights the survivors total the non-constant columns.
   */
  lemma WeightOutcome(w: seq<nat>, w1: seq<nat>, w2: seq<nat>, action: seq<int>)
    requires |w| == |action| && |w1| == |action|
    requires forall c :: 0 <= c < |action| ==> action[c] >= -2
    requires forall x :: 0 <= x < |action| && action[x] >= 0 ==> action[x] < |action| && action[action[x]] == -1
    requires forall x :: 0 <= x < |action| ==> w1[x] == w[x] + Count(action, x)
    requires Sum(w1) == Sum(w) + Merged(action)
    requires w2 == Restrict(w1, Kept(action)) && Sum(w2) == Sum(w1) - DroppedWeight(w1, action)
    ensures w2 == Reweighted(w, action)
    ensures (forall c :: 0 <= c < |action| ==> w[c] == 1) ==> Sum(w2) == |action| - Count(action, -2)
  {
    WeightsAfterErase(w, w1, w2, action);
    if forall c :: 0 <= c < |action| ==> w[c] == 1 {
      MergedWeightTotal(w, w1, action);
    }
  }
}

/**
 * The partition table `partitions0`/`partitions1`: for every column j two
 * `dynamic_bitset`s with one bit per inserted Taxon, `partitions1[j]` marking
 * the Taxa whose bit j is set and `partitions0[j]` those whose bit j is clear.
 * The Buneman test of `isBuneman` works on it.
 */
module Partitions {
  import opened Taxa

  /** A `boost::dynamic_bitset`: bit r belongs to the r-th inserted Taxon. */
  type Bitset = seq<bool>

  /** `dynamic_bitset::none`. */
  predicate None(b: Bitset)
  {
    forall r :: 0 <= r < |b| ==> !b[r]
  }

  /** `dynamic_bitset::intersects`: a position set in both. */
  predicate Intersects(a: Bitset, b: Bitset)
  {
    exists r :: 0 <= r < |a| && r < |b| && a[r] && b[r]
  }

  /**
   * The table describes `rows` (the Taxa in insertion order) over `m` columns:
   * column j of `p1` is bit j of every row, column j of `p0` its complement.
   */
  ghost predicate Tabulates(p0: seq<Bitset>, p1: seq<Bitset>, rows: seq<Bits>, m: nat)
  {
    && |p0| == m && |p1| == m
    && (forall r :: 0 <= r < |rows| ==> |rows[r]| == m)
    && (forall j :: 0 <= j < m ==> |p0[j]| == |rows| && |p1[j]| == |rows|)
    && (forall j, r :: 0 <= j < m && 0 <= r < |rows| ==> p1[j][r] == rows[r][j] && p0[j][r] == !rows[r][j])
  }

  /** The bitset of column `l` that holds the rows agreeing with `v` on bit `l`. */
  function Side(p0: seq<Bitset>, p1: seq<Bitset>, v: Bits, l: nat): Bitset
    requires l < |v| && l < |p0| && l < |p1|
  {
    if v[l] then p1[l] else p0[l]
  }

  /** What `isBuneman(v, j)` decides: column j's side of `v` meets every other column's side of `v`. */
  predicate Buneman(p0: seq<Bitset>, p1: seq<Bitset>, v: Bits, j: nat)
    requires |p0| == |v| && |p1| == |v| && j < |v|
  {
    forall l :: 0 <= l < |v| && l != j ==> Intersects(Side(p0, p1, v, j), Side(p0, p1, v, l))
  }

  /** Some row agrees with `v` on both bit `j` and bit `l`. */
  ghost predicate Witnessed(rows: seq<Bits>, v: Bits, j: nat, l: nat)
    requires j < |v| && l < |v|
  {
    exists r :: 0 <= r < |rows| && j < |rows[r]| && l < |rows[r]| && rows[r][j] == v[j] && rows[r][l] == v[l]
  }

  /** The Buneman condition on the rows themselves, pairing column j with every other column. */
  ghost predicate Admissible(rows: seq<Bits>, v: Bits, j: nat)
    requires j < |v|
  {
    forall l :: 0 <= l < |v| && l != j ==> Witnessed(rows, v, j, l)
  }

  /** The full pairwise Buneman condition (the commented-out double loop of `isBuneman`). */
  ghost predicate Pairwise(rows: seq<Bits>, v: Bits)
  {
    forall j, l :: 0 <= j < |v| && 0 <= l < |v| && j != l ==> Witnessed(rows, v, j, l)
  }

  /** The table test decides the condition on the rows it tabulates. */
  lemma BunemanMeaning(p0: seq<Bitset>, p1: seq<Bitset>, rows: seq<Bits>, v: Bits, j: nat)
    requires Tabulates(p0, p1, rows, |v|) && j < |v|
    ensures Buneman(p0, p1, v, j) <==> Admissible(rows, v, j)
  {
    forall l | 0 <= l < |v| && l != j
      ensures Intersects(Side(p0, p1, v, j), Side(p0, p1, v, l)) <==> Witnessed(rows, v, j, l)
    {
      var a, b := Side(p0, p1, v, j), Side(p0, p1, v, l);
      assert |a| == |rows| && |b| == |rows|;
      forall r | 0 <= r < |rows| ensures (a[r] && b[r]) <==> (rows[r][j] == v[j] && rows[r][l] == v[l]) {
        assert a[r] == (rows[r][j] == v[j]);
        assert b[r] == (rows[r][l] == v[l]);
      }
    }
  }

  /**
   * Checking only column j suffices for a one-bit flip of a tabulated row: on
   * the other pairs of columns that row itself is the witness.
   */
  lemma FlipCheckIsPairwise(rows: seq<Bits>, v: Bits, j: nat)
    requires v in rows && j < |v|
    ensures Admissible(rows, Flipped(v, j), j) <==> Pairwise(rows, Flipped(v, j))
  {
    var u := Flipped(v, j);
    var r0 :| 0 <= r0 < |rows| && rows[r0] == v;
    if Admissible(rows, u, j) {
      forall a, b | 0 <= a < |u| && 0 <= b < |u| && a != b ensures Witnessed(rows, u, a, b) {
        if a == j {
          assert Witnessed(rows, u, j, b);
        } else if b == j {
          assert Witnessed(rows, u, j, a);
          var r :| 0 <= r < |rows| && j < |rows[r]| && a < |rows[r]| && rows[r][j] == u[j] && rows[r][a] == u[a];
        } else {
          assert rows[r0][a] == u[a] && rows[r0][b] == u[b];
        }
      }
    }
  }

  /** More rows only add witnesses: a Taxon rejected later is rejected earlier too. */
  lemma AdmissibleMonotone(rows: seq<Bits>, more: seq<Bits>, v: Bits, j: nat)
    requires j < |v| && Admissible(rows, v, j)
    ensures Admissible(rows + more, v, j)
  {
    forall l | 0 <= l < |v| && l != j ensures Witnessed(rows + more, v, j, l) {
      assert Witnessed(rows, v, j, l);
      var r :| 0 <= r < |rows| && j < |rows[r]| && l < |rows[r]| && rows[r][j] == v[j] && rows[r][l] == v[l];
      assert (rows + more)[r] == rows[r];
    }
  }

  /** The columns `insertBuneman(v)` produces: bit j of `v` appended to column j of `p1`, its complement to `p0`. */
  ghost predicate AppendedRow(p0: seq<Bitset>, p1: seq<Bitset>, q0: seq<Bitset>, q1: seq<Bitset>, v: Bits)
  {
    && |q0| == |p0| == |v| && |q1| == |p1| == |v|
    && (forall j :: 0 <= j < |v| ==> q1[j] == p1[j] + [v[j]] && q0[j] == p0[j] + [!v[j]])
  }

  /** `insertBuneman` keeps the table describing the rows, with `v` as the newest row. */
  lemma AppendRowTabulates(p0: seq<Bitset>, p1: seq<Bitset>, q0: seq<Bitset>, q1: seq<Bitset>, rows: seq<Bits>, v: Bits)
    requires Tabulates(p0, p1, rows, |v|) && AppendedRow(p0, p1, q0, q1, v)
    ensures Tabulates(q0, q1, rows + [v], |v|)
  {
    var rs := rows + [v];
    forall j, r | 0 <= j < |v| && 0 <= r < |rs| ensures q1[j][r] == rs[r][j] && q0[j][r] == !rs[r][j] {
      if r < |rows| {
        assert q1[j][r] == p1[j][r] && q0[j][r] == p0[j][r];
      }
    }
  }
}

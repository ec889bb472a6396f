/**
 * The loader's state invariant (the partition table describes exactly the
 * stored Taxa) and the history `generate` leaves: which one-bit flips were
 * handled, and how each latent Taxon came to be.
 */
module Generation {
  import opened Taxa
  import opened NodeSet
  import opened Partitions
  import opened Reduction

  /**
   * The table tabulates `rows`, the store holds each row's bits exactly
   * once, sorted, all of width `m`.
   */
  ghost predicate Consistent(p0: seq<Bitset>, p1: seq<Bitset>, rows: seq<Bits>, ns: seq<Node>, m: nat)
  {
    && Tabulates(p0, p1, rows, m)
    && Sorted(ns) && Uniform(ns, m)
    && |rows| == |ns|
    && (forall r :: 0 <= r < |rows| ==> rows[r] in Contents(ns))
    && (forall x :: x in ns ==> x.bits in rows)
  }

  /** The stored Taxa are exactly the rows. */
  lemma ConsistentRowSet(p0: seq<Bitset>, p1: seq<Bitset>, rows: seq<Bits>, ns: seq<Node>, m: nat)
    requires Consistent(p0, p1, rows, ns, m)
    ensures Contents(ns) == set v | v in rows
  {
    forall v | v in rows ensures v in Contents(ns) {
      var r :| 0 <= r < |rows| && rows[r] == v;
    }
  }

  /** `nodes.insert(x)` that adds a node, followed by `insertBuneman(x)`. */
  lemma ConsistentInsert(p0: seq<Bitset>, p1: seq<Bitset>, rows: seq<Bits>, ns: seq<Node>, m: nat, x: Node, q0: seq<Bitset>, q1: seq<Bitset>)
    requires Consistent(p0, p1, rows, ns, m) && |x.bits| == m
    requires Insert(ns, x).1 && AppendedRow(p0, p1, q0, q1, x.bits)
    ensures Consistent(q0, q1, rows + [x.bits], Insert(ns, x).0, m)
  {
    InsertSpec(ns, x);
    AppendRowTabulates(p0, p1, q0, q1, rows, x.bits);
    var rs := rows + [x.bits];
    var ns2 := Insert(ns, x).0;
    forall r | 0 <= r < |rs| ensures rs[r] in Contents(ns2) {
      if r < |rows| { assert rs[r] == rows[r]; }
    }
    forall y | y in ns2 ensures y.bits in rs {
      if y != x { assert y in ns; }
    }
  }

  /** `nodes.insert(x)` that finds an equivalent node: nothing else happens. */
  lemma ConsistentDuplicate(p0: seq<Bitset>, p1: seq<Bitset>, rows: seq<Bits>, ns: seq<Node>, m: nat, x: Node)
    requires Consistent(p0, p1, rows, ns, m) && |x.bits| == m && !Insert(ns, x).1
    ensures Consistent(p0, p1, rows, Insert(ns, x).0, m)
  {
    InsertSpec(ns, x);
  }

  /** Renumbering `Index`es keeps the invariant: it only reads the bits. */
  lemma ConsistentSameBits(p0: seq<Bitset>, p1: seq<Bitset>, rows: seq<Bits>, ns: seq<Node>, ns2: seq<Node>, m: nat)
    requires Consistent(p0, p1, rows, ns, m)
    requires |ns2| == |ns| && forall i :: 0 <= i < |ns| ==> ns2[i].bits == ns[i].bits
    ensures Consistent(p0, p1, rows, ns2, m)
    ensures Contents(ns2) == Contents(ns)
  {
    forall b | b in Contents(ns) ensures b in Contents(ns2) {
      var y :| y in ns && y.bits == b;
      var i :| 0 <= i < |ns| && ns[i] == y;
      assert ns2[i] in ns2;
    }
    forall b | b in Contents(ns2) ensures b in Contents(ns) {
      var y :| y in ns2 && y.bits == b;
      var i :| 0 <= i < |ns2| && ns2[i] == y;
      assert ns[i] in ns;
    }
    forall y | y in ns2 ensures y.bits in rows {
      var i :| 0 <= i < |ns2| && ns2[i] == y;
      assert ns[i] in ns;
    }
  }

  /** Deleting the constant and the merged columns from everything keeps the invariant. */
  lemma ConsistentRestrict(p0: seq<Bitset>, p1: seq<Bitset>, rows: seq<Bits>, ns: seq<Node>, action: seq<int>)
    requires Consistent(p0, p1, rows, ns, |action|) && ActionsValid(p0, p1, action)
    ensures Consistent(Restrict(p0, Kept(action)), Restrict(p1, Kept(action)),
      RestrictRows(rows, Kept(action), |action|), RestrictNodes(ns, Kept(action), |action|), |Kept(action)|)
  {
    var k := Kept(action);
    var rs := RestrictRows(rows, k, |action|);
    var ms := RestrictNodes(ns, k, |action|);
    RestrictTabulates(p0, p1, rows, |action|, k);
    RestrictKeepsSorted(p0, p1, rows, action, ns);
    RowsStillStored(rows, ns, k, |action|);
    StoredStillRows(rows, ns, k, |action|);
  }

  /** Every restricted row is the bits of a restricted node. */
  lemma RowsStillStored(rows: seq<Bits>, ns: seq<Node>, k: seq<nat>, m: nat)
    requires (forall i :: 0 <= i < |rows| ==> |rows[i]| == m) && Uniform(ns, m) && forall t :: 0 <= t < |k| ==> k[t] < m
    requires forall r :: 0 <= r < |rows| ==> rows[r] in Contents(ns)
    ensures forall r :: 0 <= r < |rows| ==> RestrictRows(rows, k, m)[r] in Contents(RestrictNodes(ns, k, m))
  {
    var rs := RestrictRows(rows, k, m);
    var ms := RestrictNodes(ns, k, m);
    forall r | 0 <= r < |rs| ensures rs[r] in Contents(ms) {
      assert rows[r] in Contents(ns);
      var y :| y in ns && y.bits == rows[r];
      var i :| 0 <= i < |ns| && ns[i] == y;
      assert ms[i] in ms;
    }
  }

  /** The bits of every restricted node are a restricted row. */
  lemma StoredStillRows(rows: seq<Bits>, ns: seq<Node>, k: seq<nat>, m: nat)
    requires (forall i :: 0 <= i < |rows| ==> |rows[i]| == m) && Uniform(ns, m) && forall t :: 0 <= t < |k| ==> k[t] < m
    requires forall x :: x in ns ==> x.bits in rows
    ensures forall y :: y in RestrictNodes(ns, k, m) ==> y.bits in RestrictRows(rows, k, m)
  {
    var rs := RestrictRows(rows, k, m);
    var ms := RestrictNodes(ns, k, m);
    forall y | y in ms ensures y.bits in rs {
      var i :| 0 <= i < |ms| && ms[i] == y;
      assert ns[i] in ns;
      var r :| 0 <= r < |rows| && rows[r] == ns[i].bits;
      assert rs[r] == y.bits;
    }
  }

  /** A sorted store holds as many nodes as distinct bit vectors. */
  lemma {:induction false} SortedContentsSize(ns: seq<Node>)
    requires Sorted(ns)
    ensures |Contents(ns)| == |ns|
    decreases |ns|
  {
    if |ns| > 0 {
      var tail := ns[1..];
      assert Sorted(tail);
      SortedContentsSize(tail);
      assert ns == [ns[0]] + tail;
      ContentsCons(ns[0], tail);
      forall y | y in tail ensures y.bits != ns[0].bits {
        var j :| 0 <= j < |tail| && tail[j] == y;
        assert Less(ns[0].bits, ns[j + 1].bits);
        LessIrreflexive(y.bits);
      }
    }
  }

  // ---------------------------------------------------------------------------
  // The history of `generate`
  // ---------------------------------------------------------------------------

  /**
   * The flip of bit j of `v` failed the Buneman test against the rows present
   * at some point t after row `base` was inserted and after `v` itself was.
   */
  ghost predicate RejectedBy(rows: seq<Bits>, base: nat, v: Bits, j: nat)
    requires j < |v|
  {
    exists t :: base <= t <= |rows| && v in rows[..t] && !Admissible(rows[..t], Flipped(v, j), j)
  }

  /** The flip of bit j of `v` is stored, or was rejected after row `base`. */
  ghost predicate FlipHandled(rows: seq<Bits>, base: nat, ns: seq<Node>, v: Bits, j: nat)
    requires j < |v|
  {
    Flipped(v, j) in Contents(ns) || RejectedBy(rows, base, v, j)
  }

  /** `expand(v)` has run after row `base` was inserted: every one-bit flip of `v` is handled. */
  ghost predicate Expanded(rows: seq<Bits>, base: nat, ns: seq<Node>, v: Bits)
  {
    forall j :: 0 <= j < |v| ==> FlipHandled(rows, base, ns, v, j)
  }

  /** `expand` has run on every stored Taxon after row `base` was inserted. */
  ghost predicate AllExpanded(rows: seq<Bits>, base: nat, ns: seq<Node>)
  {
    forall u :: u in Contents(ns) ==> Expanded(rows, base, ns, u)
  }

  /** Every row from `base` on is a latent Taxon. */
  ghost predicate AllSpawned(rows: seq<Bits>, base: nat)
  {
    forall r :: base <= r < |rows| ==> Spawned(rows, r)
  }

  /**
   * What a rejection means without the history: a flip that was rejected
   * after row `base` already fails the Buneman test against the first `base`
   * rows, since admissibility only weakens as rows are added.
   */
  lemma RejectedAtBase(rows: seq<Bits>, base: nat, v: Bits, j: nat)
    requires j < |v| && base <= |rows| && RejectedBy(rows, base, v, j)
    ensures !Admissible(rows[..base], Flipped(v, j), j)
  {
    var t :| base <= t <= |rows| && v in rows[..t] && !Admissible(rows[..t], Flipped(v, j), j);
    assert rows[..t] == rows[..base] + rows[base..t];
    if Admissible(rows[..base], Flipped(v, j), j) {
      AdmissibleMonotone(rows[..base], rows[base..t], Flipped(v, j), j);
    }
  }

  /** A stored Taxon that was expanded has every one-bit flip stored or failing against the first `base` rows. */
  lemma ExpandedMeaning(rows: seq<Bits>, base: nat, ns: seq<Node>, v: Bits, j: nat)
    requires base <= |rows| && Expanded(rows, base, ns, v) && j < |v|
    ensures Flipped(v, j) in Contents(ns) || !Admissible(rows[..base], Flipped(v, j), j)
  {
    assert FlipHandled(rows, base, ns, v, j);
    if Flipped(v, j) !in Contents(ns) {
      RejectedAtBase(rows, base, v, j);
    }
  }

  /** Expansion after a later row is expansion after an earlier one. */
  lemma ExpandedEarlier(rows: seq<Bits>, base: nat, base2: nat, ns: seq<Node>, v: Bits)
    requires base2 <= base && Expanded(rows, base, ns, v)
    ensures Expanded(rows, base2, ns, v)
  {
    forall j | 0 <= j < |v| ensures FlipHandled(rows, base2, ns, v, j) {
      assert FlipHandled(rows, base, ns, v, j);
      if Flipped(v, j) !in Contents(ns) {
        var t :| base <= t <= |rows| && v in rows[..t] && !Admissible(rows[..t], Flipped(v, j), j);
      }
    }
  }

  /**
   * Row r is a latent Taxon: a one-bit flip of an earlier row that passed the
   * Buneman test against the rows inserted before it.
   */
  ghost predicate Spawned(rows: seq<Bits>, r: nat)
    requires r < |rows|
  {
    exists p, j :: 0 <= p < r && 0 <= j < |rows[p]| && rows[r] == Flipped(rows[p], j) && Admissible(rows[..r], rows[r], j)
  }

  /** `rows2` extends `rows`. */
  ghost predicate Extends(rows2: seq<Bits>, rows: seq<Bits>)
  {
    |rows| <= |rows2| && rows2[..|rows|] == rows
  }

  lemma HandledGrows(rows: seq<Bits>, base: nat, ns: seq<Node>, rows2: seq<Bits>, ns2: seq<Node>, v: Bits, j: nat)
    requires Extends(rows2, rows) && Contents(ns) <= Contents(ns2) && j < |v|
    requires FlipHandled(rows, base, ns, v, j)
    ensures FlipHandled(rows2, base, ns2, v, j)
  {
    if Flipped(v, j) !in Contents(ns) {
      var t :| base <= t <= |rows| && v in rows[..t] && !Admissible(rows[..t], Flipped(v, j), j);
      assert rows2[..t] == rows[..t];
    }
  }

  /** Later insertions keep what `expand` established. */
  lemma ExpandedGrows(rows: seq<Bits>, base: nat, ns: seq<Node>, rows2: seq<Bits>, ns2: seq<Node>)
    requires Extends(rows2, rows) && Contents(ns) <= Contents(ns2)
    ensures forall v :: Expanded(rows, base, ns, v) ==> Expanded(rows2, base, ns2, v)
  {
    forall v, j | Expanded(rows, base, ns, v) && 0 <= j < |v| ensures FlipHandled(rows2, base, ns2, v, j) {
      HandledGrows(rows, base, ns, rows2, ns2, v, j);
    }
  }

  lemma SpawnedGrows(rows: seq<Bits>, rows2: seq<Bits>)
    requires Extends(rows2, rows)
    ensures forall r :: 0 <= r < |rows| && Spawned(rows, r) ==> Spawned(rows2, r)
  {
    forall r | 0 <= r < |rows| && Spawned(rows, r) ensures Spawned(rows2, r) {
      var p, j :| 0 <= p < r && 0 <= j < |rows[p]| && rows[r] == Flipped(rows[p], j) && Admissible(rows[..r], rows[r], j);
      assert rows2[..r] == rows[..r] && rows2[p] == rows[p] && rows2[r] == rows[r];
    }
  }

  /** A newly inserted flip of row p is `Spawned`. */
  lemma SpawnNew(rows: seq<Bits>, p: nat, j: nat)
    requires p < |rows| && j < |rows[p]| && Admissible(rows, Flipped(rows[p], j), j)
    ensures Spawned(rows + [Flipped(rows[p], j)], |rows|)
  {
    var rs := rows + [Flipped(rows[p], j)];
    assert rs[..|rows|] == rows && rs[p] == rows[p] && rs[|rows|] == Flipped(rs[p], j);
    assert Admissible(rs[..|rows|], rs[|rows|], j);
  }

  /**
   * Every latent Taxon passes the full pairwise Buneman condition against the
   * rows before it, not only the check on its flipped column.
   */
  lemma SpawnedIsPairwise(rows: seq<Bits>, r: nat)
    requires r < |rows| && Spawned(rows, r)
    ensures Pairwise(rows[..r], rows[r])
  {
    var p, j :| 0 <= p < r && 0 <= j < |rows[p]| && rows[r] == Flipped(rows[p], j) && Admissible(rows[..r], rows[r], j);
    assert rows[..r][p] == rows[p];
    FlipCheckIsPairwise(rows[..r], rows[p], j);
  }

  /**
   * A pair of columns that some row shows with `u`'s values is already shown
   * by one of the first `base` rows when every later row is latent: a latent
   * row agrees with an earlier row except at its flipped column, and at that
   * column its pairs were witnessed before it was added.
   */
  lemma {:induction false} WitnessedEarly(rows: seq<Bits>, base: nat, u: Bits, a: nat, b: nat, t: nat)
    requires base <= t <= |rows| && AllSpawned(rows, base)
    requires a < |u| && b < |u| && a != b && Witnessed(rows[..t], u, a, b)
    ensures Witnessed(rows[..base], u, a, b)
    decreases t
  {
    if t > base {
      var r :| 0 <= r < t && a < |rows[..t][r]| && b < |rows[..t][r]| && rows[..t][r][a] == u[a] && rows[..t][r][b] == u[b];
      if r < t - 1 {
        assert rows[..t - 1][r] == rows[..t][r];
        WitnessedEarly(rows, base, u, a, b, t - 1);
      } else {
        assert rows[r] == rows[..t][r];
        assert Spawned(rows, r);
        SpawnedIsPairwise(rows, r);
        assert Witnessed(rows[..r], rows[r], a, b);
        var q :| 0 <= q < r && a < |rows[..r][q]| && b < |rows[..r][q]| && rows[..r][q][a] == rows[r][a] && rows[..r][q][b] == rows[r][b];
        assert Witnessed(rows[..r], u, a, b);
        WitnessedEarly(rows, base, u, a, b, r);
      }
    }
  }

  /** When every row from `base` on is latent, a flip that passes against all the rows passes against the first `base`. */
  lemma AdmissibleAtBase(rows: seq<Bits>, base: nat, u: Bits, j: nat)
    requires base <= |rows| && AllSpawned(rows, base) && j < |u| && Admissible(rows, u, j)
    ensures Admissible(rows[..base], u, j)
  {
    assert rows[..|rows|] == rows;
    forall l | 0 <= l < |u| && l != j ensures Witnessed(rows[..base], u, j, l) {
      WitnessedEarly(rows, base, u, j, l, |rows|);
    }
  }

  /**
   * The store is closed under the test against the final table: every
   * one-bit flip of a stored Taxon is stored or fails `isBuneman` against
   * the rows the table tabulates, so another run of `generate` adds nothing.
   */
  ghost predicate Closed(rows: seq<Bits>, ns: seq<Node>)
  {
    forall u, j :: u in Contents(ns) && 0 <= j < |u| ==> Flipped(u, j) in Contents(ns) || !Admissible(rows, Flipped(u, j), j)
  }

  /** Expansion of every stored Taxon with latent rows from `base` on closes the store against the final table. */
  lemma FinalFixedPoint(rows: seq<Bits>, base: nat, ns: seq<Node>)
    requires base <= |rows| && AllSpawned(rows, base) && AllExpanded(rows, base, ns)
    ensures Closed(rows, ns)
  {
    forall u, j | u in Contents(ns) && 0 <= j < |u|
      ensures Flipped(u, j) in Contents(ns) || !Admissible(rows, Flipped(u, j), j)
    {
      assert Expanded(rows, base, ns, u);
      ExpandedMeaning(rows, base, ns, u, j);
      if Admissible(rows, Flipped(u, j), j) {
        AdmissibleAtBase(rows, base, Flipped(u, j), j);
      }
    }
  }

  /** Every Taxon of `us` is a one-bit flip of `v`. */
  ghost predicate FlipsOf(us: seq<Bits>, v: Bits)
  {
    forall u :: u in us ==> exists j :: 0 <= j < |v| && u == Flipped(v, j)
  }

  /** The nodes of `ns0` are kept; the others were added by `generate`: not terminal, `Index` 0. */
  ghost predicate Latent(ns0: seq<Node>, ns: seq<Node>)
  {
    && (forall y :: y in ns0 ==> y in ns)
    && (forall y :: y in ns && y !in ns0 ==> !y.terminal && y.index == 0)
    && TerminalCount(ns) == TerminalCount(ns0)
  }

  /** `generate` adds no terminal Taxon. */
  lemma LatentTerminalTaxa(ns0: seq<Node>, ns: seq<Node>)
    requires Latent(ns0, ns)
    ensures TerminalTaxa(ns) == TerminalTaxa(ns0)
  {
  }

  /** From (`rows0`, `ns0`) to (`rows`, `ns`) by `generate`: one latent node per new row. */
  ghost predicate Grown(rows0: seq<Bits>, ns0: seq<Node>, rows: seq<Bits>, ns: seq<Node>)
  {
    && Extends(rows, rows0) && Latent(ns0, ns)
    && |ns| == |ns0| + (|rows| - |rows0|)
    && (forall r :: |rows0| <= r < |rows| ==> Spawned(rows, r))
  }

  lemma GrownTrans(rows0: seq<Bits>, ns0: seq<Node>, rows1: seq<Bits>, ns1: seq<Node>, rows2: seq<Bits>, ns2: seq<Node>)
    requires Grown(rows0, ns0, rows1, ns1) && Grown(rows1, ns1, rows2, ns2)
    ensures Grown(rows0, ns0, rows2, ns2)
  {
    SpawnedGrows(rows1, rows2);
    assert rows2[..|rows0|] == rows1[..|rows1|][..|rows0|];
  }

  /** `expand(v)` up to column j: the flips of bits 0 .. j-1 are handled and `pushed` were queued. */
  ghost predicate ExpandedTo(rows0: seq<Bits>, ns0: seq<Node>, rows: seq<Bits>, ns: seq<Node>, v: Bits, j: nat, pushed: seq<Bits>)
  {
    && j <= |v| && rows == rows0 + pushed
    && Grown(rows0, ns0, rows, ns)
    && Contents(ns) == Contents(ns0) + (set u | u in pushed)
    && (forall l :: 0 <= l < j ==> FlipHandled(rows, |rows0|, ns, v, l))
    && FlipsOf(pushed, v)
  }

  /** One more flip of row p handled by `expand`, with `ns1`/`rows1` the state before it. */
  lemma ExpandedStep(rows0: seq<Bits>, ns0: seq<Node>, rows1: seq<Bits>, ns1: seq<Node>, rows2: seq<Bits>, ns2: seq<Node>,
                     v: Bits, j: nat, p: nat, pushed: seq<Bits>, added: bool)
    requires ExpandedTo(rows0, ns0, rows1, ns1, v, j, pushed) && j < |v| && p < |rows0| && rows0[p] == v
    requires added ==> Admissible(rows1, Flipped(v, j), j)
    requires rows2 == if added then rows1 + [Flipped(v, j)] else rows1
    requires Contents(ns2) == Contents(ns1) + (if added then {Flipped(v, j)} else {})
    requires Latent(ns1, ns2) && |ns2| == |ns1| + (if added then 1 else 0)
    requires FlipHandled(rows2, |rows0|, ns2, v, j)
    ensures ExpandedTo(rows0, ns0, rows2, ns2, v, j + 1, if added then pushed + [Flipped(v, j)] else pushed)
  {
    GrownByFlip(rows1, ns1, rows2, ns2, v, j, p, added);
    GrownTrans(rows0, ns0, rows1, ns1, rows2, ns2);
    HandledStep(rows1, |rows0|, ns1, rows2, ns2, v, j);
    if added {
      var u := Flipped(v, j);
      assert rows2 == rows0 + (pushed + [u]);
      assert (set x | x in pushed + [u]) == (set x | x in pushed) + {u};
      FlipsOfSnoc(pushed, v, j);
    }
  }

  lemma FlipsOfSnoc(us: seq<Bits>, v: Bits, j: nat)
    requires FlipsOf(us, v) && j < |v|
    ensures FlipsOf(us + [Flipped(v, j)], v)
  {
    forall u | u in us + [Flipped(v, j)] ensures exists l :: 0 <= l < |v| && u == Flipped(v, l) {
      if u !in us {
        assert u == Flipped(v, j);
      }
    }
  }

  /** The flip of bit j of row p, stored when `added`, is a latent Taxon. */
  lemma GrownByFlip(rows1: seq<Bits>, ns1: seq<Node>, rows2: seq<Bits>, ns2: seq<Node>, v: Bits, j: nat, p: nat, added: bool)
    requires p < |rows1| && rows1[p] == v && j < |v|
    requires added ==> Admissible(rows1, Flipped(v, j), j)
    requires rows2 == if added then rows1 + [Flipped(v, j)] else rows1
    requires Latent(ns1, ns2) && |ns2| == |ns1| + (if added then 1 else 0)
    ensures Grown(rows1, ns1, rows2, ns2)
  {
    if added {
      SpawnNew(rows1, p, j);
    }
    assert rows2[..|rows1|] == rows1;
  }

  /** Handled flips stay handled, and flip j is now handled too. */
  lemma HandledStep(rows1: seq<Bits>, base: nat, ns1: seq<Node>, rows2: seq<Bits>, ns2: seq<Node>, v: Bits, j: nat)
    requires j < |v| && Extends(rows2, rows1) && Contents(ns1) <= Contents(ns2)
    requires forall l :: 0 <= l < j ==> FlipHandled(rows1, base, ns1, v, l)
    requires FlipHandled(rows2, base, ns2, v, j)
    ensures forall l :: 0 <= l < j + 1 ==> FlipHandled(rows2, base, ns2, v, l)
  {
    forall l | 0 <= l < j + 1 ensures FlipHandled(rows2, base, ns2, v, l) {
      if l < j {
        HandledGrows(rows1, base, ns1, rows2, ns2, v, l);
      }
    }
  }

  /** The worklist of `generate`: queued Taxa are stored, and every stored Taxon is queued or expanded. */
  ghost predicate Pending(queue: seq<Bits>, rows: seq<Bits>, base: nat, ns: seq<Node>)
  {
    && (forall u :: u in queue ==> u in Contents(ns))
    && (forall u :: u in Contents(ns) ==> u in queue || Expanded(rows, base, ns, u))
  }

  /** Dequeuing and expanding the front Taxon, then queueing what it produced, keeps the worklist right. */
  lemma PendingStep(queue: seq<Bits>, rows: seq<Bits>, base: nat, ns: seq<Node>, rows2: seq<Bits>, ns2: seq<Node>, pushed: seq<Bits>)
    requires |queue| > 0 && Pending(queue, rows, base, ns)
    requires Extends(rows2, rows) && Contents(ns2) == Contents(ns) + (set u | u in pushed)
    requires Expanded(rows2, base, ns2, queue[0])
    ensures Pending(queue[1..] + pushed, rows2, base, ns2)
  {
    ExpandedGrows(rows, base, ns, rows2, ns2);
    assert queue == [queue[0]] + queue[1..];
  }
}

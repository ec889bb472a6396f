/**
 * The node store: a `btree_set` of Taxon pointers ordered by `Taxon::operator<`
 * (through the `less` comparator), modelled as a strictly sorted sequence of
 * node values.
 */
module NodeSet {
  import opened Taxa

  /** A stored Taxon: its bits, `Terminal` and `Index`. */
  datatype Node = Node(bits: Bits, terminal: bool, index: nat)

  /** Strictly increasing under `operator<`: ordered and free of duplicates. */
  ghost predicate Sorted(ns: seq<Node>)
  {
    forall i, j {:trigger Less(ns[i].bits, ns[j].bits)} :: 0 <= i < j < |ns| ==> Less(ns[i].bits, ns[j].bits)
  }

  /** Every stored Taxon has `m` bits. */
  ghost predicate Uniform(ns: seq<Node>, m: nat)
  {
    forall i :: 0 <= i < |ns| ==> |ns[i].bits| == m
  }

  /** The bit vectors in the store. */
  ghost function Contents(ns: seq<Node>): set<Bits>
  {
    set x | x in ns :: x.bits
  }

  /** `nodes.count(v) > 0`: some stored Taxon is equivalent to `v` under the comparator. */
  predicate Contains(ns: seq<Node>, v: Bits)
  {
    exists i :: 0 <= i < |ns| && !Less(ns[i].bits, v) && !Less(v, ns[i].bits)
  }

  /**
   * `nodes.insert(x)`: the store with `x` added at its place in the order, and
   * whether it was added (false when an equivalent Taxon is already stored).
   */
  function Insert(ns: seq<Node>, x: Node): (seq<Node>, bool)
  {
    if |ns| == 0 then ([x], true)
    else if Less(x.bits, ns[0].bits) then ([x] + ns, true)
    else if !Less(ns[0].bits, x.bits) then (ns, false)
    else
      var t := Insert(ns[1..], x);
      ([ns[0]] + t.0, t.1)
  }

  /** For vectors of the store's length, the comparator lookup is membership by content. */
  lemma ContainsIsMembership(ns: seq<Node>, v: Bits)
    requires Uniform(ns, |v|)
    ensures Contains(ns, v) <==> v in Contents(ns)
  {
    if Contains(ns, v) {
      var i :| 0 <= i < |ns| && !Less(ns[i].bits, v) && !Less(v, ns[i].bits);
      EquivalentIffEqual(ns[i].bits, v);
      assert ns[i] in ns;
    }
    if v in Contents(ns) {
      var x :| x in ns && x.bits == v;
      var i :| 0 <= i < |ns| && ns[i] == x;
      LessIrreflexive(v);
    }
  }

  lemma ContentsCons(x: Node, ns: seq<Node>)
    ensures Contents([x] + ns) == {x.bits} + Contents(ns)
  {
    forall b | b in Contents([x] + ns) ensures b in {x.bits} + Contents(ns) {
      var y :| y in [x] + ns && y.bits == b;
    }
    forall b | b in {x.bits} + Contents(ns) ensures b in Contents([x] + ns) {
      if b != x.bits {
        var y :| y in ns && y.bits == b;
        assert y in [x] + ns;
      }
    }
  }

  /** The facts `InsertSpec` states, for a given result. */
  ghost predicate Inserted(ns: seq<Node>, x: Node, r: seq<Node>, inserted: bool)
  {
    && Sorted(r) && Uniform(r, |x.bits|)
    && (inserted <==> x.bits !in Contents(ns))
    && Contents(r) == Contents(ns) + {x.bits}
    && (forall y :: y in r <==> y in ns || (inserted && y == x))
    && |r| == |ns| + if inserted then 1 else 0
  }

  /** Insertion keeps the store sorted, adds exactly `x`'s contents and touches no other node. */
  lemma {:induction false} InsertSpec(ns: seq<Node>, x: Node)
    requires Sorted(ns) && Uniform(ns, |x.bits|)
    ensures Sorted(Insert(ns, x).0) && Uniform(Insert(ns, x).0, |x.bits|)
    ensures Insert(ns, x).1 <==> x.bits !in Contents(ns)
    ensures Contents(Insert(ns, x).0) == Contents(ns) + {x.bits}
    ensures forall y :: y in Insert(ns, x).0 <==> y in ns || (Insert(ns, x).1 && y == x)
    ensures |Insert(ns, x).0| == |ns| + if Insert(ns, x).1 then 1 else 0
    decreases |ns|
  {
    if |ns| == 0 {
      ContentsCons(x, []);
      assert Inserted(ns, x, [x], true);
    } else if Less(x.bits, ns[0].bits) {
      InsertAtFront(ns, x);
    } else if !Less(ns[0].bits, x.bits) {
      EquivalentIffEqual(ns[0].bits, x.bits);
      assert ns[0] in ns;
      assert Inserted(ns, x, ns, false);
    } else {
      InsertSpec(ns[1..], x);
      var t := Insert(ns[1..], x);
      LessAsymmetric(ns[0].bits, x.bits);
      assert Insert(ns, x) == ([ns[0]] + t.0, t.1);
      LessIrreflexive(x.bits);
      InsertBehind(ns, x, t.0, t.1);
    }
  }

  lemma InsertAtFront(ns: seq<Node>, x: Node)
    requires Sorted(ns) && Uniform(ns, |x.bits|)
    requires |ns| > 0 && Less(x.bits, ns[0].bits)
    ensures Inserted(ns, x, [x] + ns, true)
  {
    var r := [x] + ns;
    forall j | 0 <= j < |ns| ensures Less(x.bits, ns[j].bits) {
      if j > 0 { LessTransitive(x.bits, ns[0].bits, ns[j].bits); }
    }
    forall i, j | 0 <= i < j < |r| ensures Less(r[i].bits, r[j].bits) {
      if i > 0 { assert r[i] == ns[i - 1] && r[j] == ns[j - 1]; }
      else { assert r[j] == ns[j - 1]; }
    }
    forall y | y in ns ensures y.bits != x.bits {
      var j :| 0 <= j < |ns| && ns[j] == y;
      LessIrreflexive(x.bits);
    }
    ContentsCons(x, ns);
  }

  lemma InsertBehind(ns: seq<Node>, x: Node, rest: seq<Node>, ins: bool)
    requires Sorted(ns) && Uniform(ns, |x.bits|)
    requires |ns| > 0 && Less(ns[0].bits, x.bits)
    requires Inserted(ns[1..], x, rest, ins)
    ensures Inserted(ns, x, [ns[0]] + rest, ins)
  {
    BehindSorted(ns, x, rest, ins);
    BehindContents(ns, x, rest, ins);
  }

  lemma BehindSorted(ns: seq<Node>, x: Node, rest: seq<Node>, ins: bool)
    requires Sorted(ns) && |ns| > 0 && Less(ns[0].bits, x.bits)
    requires Sorted(rest) && forall y :: y in rest <==> y in ns[1..] || (ins && y == x)
    ensures Sorted([ns[0]] + rest)
  {
    var tail := ns[1..];
    forall y | y in rest ensures Less(ns[0].bits, y.bits) {
      if y != x {
        var j :| 0 <= j < |tail| && tail[j] == y;
        assert tail[j] == ns[j + 1];
      }
    }
    ConsSorted(ns[0], rest);
  }

  lemma BehindContents(ns: seq<Node>, x: Node, rest: seq<Node>, ins: bool)
    requires Uniform(ns, |x.bits|)
    requires |ns| > 0 && x.bits != ns[0].bits
    requires Uniform(rest, |x.bits|)
    requires ins <==> x.bits !in Contents(ns[1..])
    requires Contents(rest) == Contents(ns[1..]) + {x.bits}
    requires forall y :: y in rest <==> y in ns[1..] || (ins && y == x)
    requires |rest| == |ns| - 1 + if ins then 1 else 0
    ensures Uniform([ns[0]] + rest, |x.bits|)
    ensures ins <==> x.bits !in Contents(ns)
    ensures Contents([ns[0]] + rest) == Contents(ns) + {x.bits}
    ensures forall y :: y in [ns[0]] + rest <==> y in ns || (ins && y == x)
    ensures |[ns[0]] + rest| == |ns| + if ins then 1 else 0
  {
    var tail := ns[1..];
    var r := [ns[0]] + rest;
    assert ns == [ns[0]] + tail;
    ContentsCons(ns[0], tail);
    ContentsCons(ns[0], rest);
    forall i | 0 <= i < |r| ensures |r[i].bits| == |x.bits| {
      if i > 0 { assert r[i] == rest[i - 1]; }
    }
    forall y ensures y in r <==> y in ns || (ins && y == x) {
      assert y in r <==> y == ns[0] || y in rest;
      assert y in ns <==> y == ns[0] || y in tail;
    }
  }

  /** A head below every element of a sorted store extends it to a sorted store. */
  lemma ConsSorted(h: Node, rest: seq<Node>)
    requires Sorted(rest)
    requires forall y :: y in rest ==> Less(h.bits, y.bits)
    ensures Sorted([h] + rest)
    ensures forall i :: 0 <= i < |rest| ==> ([h] + rest)[i + 1] == rest[i]
  {
    var r := [h] + rest;
    forall i, j | 0 <= i < j < |r| ensures Less(r[i].bits, r[j].bits) {
      assert r[j] == rest[j - 1];
      if i == 0 {
        assert rest[j - 1] in rest;
      } else {
        assert r[i] == rest[i - 1];
      }
    }
  }

  /** Number of stored Taxa flagged `Terminal`. */
  function TerminalCount(ns: seq<Node>): nat
  {
    if |ns| == 0 then 0 else (if ns[0].terminal then 1 else 0) + TerminalCount(ns[1..])
  }

  /** Inserting counts the new node's flag exactly when it is added. */
  lemma {:induction false} InsertTerminalCount(ns: seq<Node>, x: Node)
    ensures TerminalCount(Insert(ns, x).0) == TerminalCount(ns) + if Insert(ns, x).1 && x.terminal then 1 else 0
    decreases |ns|
  {
    if |ns| == 0 {
      assert [x][1..] == [];
    } else if Less(x.bits, ns[0].bits) {
      assert ([x] + ns)[1..] == ns;
    } else if Less(ns[0].bits, x.bits) {
      InsertTerminalCount(ns[1..], x);
      var t := Insert(ns[1..], x);
      assert ([ns[0]] + t.0)[1..] == t.0;
    }
  }

  /** Stores with the same flags position by position count the same terminals. */
  lemma {:induction false} SameFlagsSameCount(a: seq<Node>, b: seq<Node>)
    requires |a| == |b| && forall i :: 0 <= i < |a| ==> a[i].terminal == b[i].terminal
    ensures TerminalCount(a) == TerminalCount(b)
    decreases |a|
  {
    if |a| > 0 {
      SameFlagsSameCount(a[1..], b[1..]);
    }
  }

  /** A store whose nodes are all terminal counts them all. */
  lemma {:induction false} AllTerminalCount(ns: seq<Node>)
    requires forall x :: x in ns ==> x.terminal
    ensures TerminalCount(ns) == |ns|
    decreases |ns|
  {
    if |ns| > 0 {
      assert forall x :: x in ns[1..] ==> x in ns;
      AllTerminalCount(ns[1..]);
    }
  }

  /** A store counts all its nodes as terminal only when every node is. */
  lemma {:induction false} FullCountAllTerminal(ns: seq<Node>)
    ensures TerminalCount(ns) <= |ns|
    ensures TerminalCount(ns) == |ns| ==> forall x :: x in ns ==> x.terminal
    decreases |ns|
  {
    if |ns| > 0 {
      FullCountAllTerminal(ns[1..]);
      assert forall x :: x in ns ==> x == ns[0] || x in ns[1..];
    }
  }

  /** The Taxa of the nodes flagged `Terminal`: those read, as opposed to the latent ones. */
  ghost function TerminalTaxa(ns: seq<Node>): set<Bits>
  {
    set x | x in ns && x.terminal :: x.bits
  }

  /** With every node terminal, the terminal Taxa are the whole store. */
  lemma AllTerminalTaxa(ns: seq<Node>)
    requires TerminalCount(ns) == |ns|
    ensures TerminalTaxa(ns) == Contents(ns)
  {
    FullCountAllTerminal(ns);
  }

  /** Stores with the same Taxa and flags position by position have the same terminal Taxa. */
  lemma SameFlagsSameTaxa(a: seq<Node>, b: seq<Node>)
    requires |a| == |b| && forall i :: 0 <= i < |a| ==> a[i].bits == b[i].bits && a[i].terminal == b[i].terminal
    ensures TerminalTaxa(a) == TerminalTaxa(b)
  {
    forall v | v in TerminalTaxa(a) ensures v in TerminalTaxa(b) {
      var x :| x in a && x.terminal && x.bits == v;
      var i :| 0 <= i < |a| && a[i] == x;
      assert b[i] in b;
    }
    forall v | v in TerminalTaxa(b) ensures v in TerminalTaxa(a) {
      var x :| x in b && x.terminal && x.bits == v;
      var i :| 0 <= i < |b| && b[i] == x;
      assert a[i] in a;
    }
  }

  // ---------------------------------------------------------------------------
  // Size bound: a store of m-bit Taxa holds at most 2^m of them
  // ---------------------------------------------------------------------------

  function Pow2(e: nat): (r: nat)
    ensures r >= 1
  {
    if e == 0 then 1 else 2 * Pow2(e - 1)
  }

  /** Position of a vector in the order: bit 0 most significant, `true` counting as 0. */
  function Rank(a: Bits): nat
  {
    if |a| == 0 then 0 else (if a[0] then 0 else Pow2(|a| - 1)) + Rank(a[1..])
  }

  lemma {:induction false} RankBound(a: Bits)
    ensures Rank(a) < Pow2(|a|)
    decreases |a|
  {
    if |a| > 0 {
      RankBound(a[1..]);
    }
  }

  lemma {:induction false} RankOrdersFirstDifference(a: Bits, b: Bits, d: nat)
    requires |a| == |b| && IsFirstDifference(a, b, d) && a[d]
    ensures Rank(a) < Rank(b)
    decreases d
  {
    if d == 0 {
      RankBound(a[1..]);
    } else {
      assert IsFirstDifference(a[1..], b[1..], d - 1);
      RankOrdersFirstDifference(a[1..], b[1..], d - 1);
    }
  }

  /** `operator<` agrees with the rank. */
  lemma LessRank(a: Bits, b: Bits)
    requires Less(a, b)
    ensures Rank(a) < Rank(b)
  {
    var d: nat :| IsFirstDifference(a, b, d) && a[d];
    RankOrdersFirstDifference(a, b, d);
  }

  lemma {:induction false} RankAtLeastPosition(ns: seq<Node>, i: nat)
    requires Sorted(ns) && i < |ns|
    ensures Rank(ns[i].bits) >= i
    decreases i
  {
    if i > 0 {
      RankAtLeastPosition(ns, i - 1);
      LessRank(ns[i - 1].bits, ns[i].bits);
    }
  }

  /** A sorted store of m-bit Taxa holds at most 2^m of them; `generate`'s loop is bounded by it. */
  lemma SortedSizeBound(ns: seq<Node>, m: nat)
    requires Sorted(ns) && Uniform(ns, m)
    ensures |ns| <= Pow2(m)
  {
    if |ns| > 0 {
      RankAtLeastPosition(ns, |ns| - 1);
      RankBound(ns[|ns| - 1].bits);
    }
  }
}

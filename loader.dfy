/**
 * `PhylogeneticLoader`: reads the Taxa, reduces the columns, generates the
 * latent Taxa of the Buneman graph and connects Taxa at distance one.
 */
module Loader {
  import opened Wrappers
  import opened Seqs
  import opened Taxa
  import opened NodeSet
  import opened Partitions
  import opened Reduction
  import opened Reading
  import opened Edges
  import opened Generation

  class PhylogeneticLoader {
    /** Number of Taxa, of columns (haplotypes) and of marker values, as read from the header. */
    var n: nat
    var m: nat
    var k: nat
    /** Column weights: 1 plus the number of columns merged into it. */
    var weight: seq<nat>
    /** Number of input (terminal) Taxa after deduplication. */
    var terminals: nat
    /** The node store, sorted by `operator<`. */
    var nodes: seq<Node>
    var edges: seq<Edge>
    /** The partition table, one bitset per column. */
    var partitions0: seq<Bitset>
    var partitions1: seq<Bitset>
    /** The Taxa the table describes, in insertion order. */
    ghost var rows: seq<Bits>

    ghost predicate Valid()
      reads this
    {
      Consistent(partitions0, partitions1, rows, nodes, m)
    }

    constructor ()
      ensures n == 0 && m == 0 && k == 0 && terminals == 0
      ensures weight == [] && nodes == [] && edges == [] && partitions0 == [] && partitions1 == [] && rows == []
      ensures Valid()
    {
      n, m, k, terminals := 0, 0, 0, 0;
      weight, nodes, edges := [], [], [];
      partitions0, partitions1 := [], [];
      rows := [];
    }

    /** `insertBuneman(v)`: one more row in the table, bit j of `v` in column j. */
    method InsertBuneman(v: Bits)
      requires |v| == m && |partitions0| == m && |partitions1| == m
      modifies this`partitions0, this`partitions1, this`rows
      ensures AppendedRow(old(partitions0), old(partitions1), partitions0, partitions1, v)
      ensures rows == old(rows) + [v]
    {
      for j := 0 to m
        invariant |partitions0| == m && |partitions1| == m && rows == old(rows)
        invariant forall l :: 0 <= l < j ==> partitions1[l] == old(partitions1[l]) + [v[l]] && partitions0[l] == old(partitions0[l]) + [!v[l]]
        invariant forall l :: j <= l < m ==> partitions1[l] == old(partitions1[l]) && partitions0[l] == old(partitions0[l])
      {
        if v[j] {
          partitions1 := partitions1[j := partitions1[j] + [true]];
          partitions0 := partitions0[j := partitions0[j] + [false]];
        } else {
          partitions1 := partitions1[j := partitions1[j] + [false]];
          partitions0 := partitions0[j := partitions0[j] + [true]];
        }
      }
      rows := rows + [v];
    }

    /** `isBuneman(v, j)`: the side of column j that `v` lies on meets `v`'s side of every other column. */
    method IsBuneman(v: Bits, j: nat) returns (b: bool)
      requires |v| == m && j < m && |partitions0| == m && |partitions1| == m
      ensures b == Buneman(partitions0, partitions1, v, j)
    {
      var p := if v[j] then partitions1[j] else partitions0[j];
      for l := 0 to m
        invariant forall l' :: 0 <= l' < l && l' != j ==> Intersects(p, Side(partitions0, partitions1, v, l'))
      {
        if l == j {
          continue;
        } else if !Intersects(p, if v[l] then partitions1[l] else partitions0[l]) {
          assert !Intersects(Side(partitions0, partitions1, v, j), Side(partitions0, partitions1, v, l));
          return false;
        }
      }
      return true;
    }

    /** `nodes.insert(x)` and, when `x` was new, `insertBuneman(x)`. */
    method Store(x: Node) returns (inserted: bool)
      requires Valid() && |x.bits| == m
      modifies this`nodes, this`partitions0, this`partitions1, this`rows
      ensures Valid()
      ensures inserted <==> x.bits !in Contents(old(nodes))
      ensures Contents(nodes) == Contents(old(nodes)) + {x.bits}
      ensures forall y :: y in nodes <==> y in old(nodes) || (inserted && y == x)
      ensures |nodes| == |old(nodes)| + if inserted then 1 else 0
      ensures rows == if inserted then old(rows) + [x.bits] else old(rows)
      ensures TerminalCount(nodes) == TerminalCount(old(nodes)) + if inserted && x.terminal then 1 else 0
    {
      InsertSpec(nodes, x);
      InsertTerminalCount(nodes, x);
      var t := Insert(nodes, x);
      inserted := t.1;
      if inserted {
        ghost var p0, p1, ns, rs := partitions0, partitions1, nodes, rows;
        nodes := t.0;
        InsertBuneman(x.bits);
        ConsistentInsert(p0, p1, rs, ns, m, x, partitions0, partitions1);
      } else {
        ConsistentDuplicate(partitions0, partitions1, rows, nodes, m, x);
        nodes := t.0;
      }
    }

    /**
     * `parse`, after the header: `n`, `m` and `k` as read, non-binary markers
     * refused before anything else, then the Taxa loaded from `text`, the
     * file after `k`. `rule` and `ends` choose the line rules of `read`.
     * Ghost: the table `read` built and the action vector of `preprocess`.
     */
    method Parse(n0: nat, m0: nat, k0: nat, text: string, rule: LengthRule, ends: EndRule)
      returns (r: Outcome<LoadError>, ghost before: Table, ghost action: seq<int>)
      requires nodes == [] && rows == [] && edges == [] && weight == []
      modifies this
      ensures n == n0 && k == k0 && m <= m0
      ensures k0 != 2 ==> r == Fail(NonBinary) && m == m0 && nodes == [] && edges == [] && weight == []
      ensures k0 == 2 ==> r == Verdict(ReadFile(text, n0, m0, rule, ends))
      ensures r.Pass? ==> Loaded(before, action, m0)
      ensures r.Pass? ==> (set v | v in before.rows) == set v | v in ReadFile(text, n0, m0, rule, ends).value
      ensures r.Pass? ==> terminals == |set v | v in ReadFile(text, n0, m0, rule, ends).value|
    {
      n, m, k := n0, m0, k0;
      if k0 != 2 {
        return Fail(NonBinary), Snapshot(), [];
      }
      r, before, action := Load(text, rule, ends);
    }

    /**
     * What `parse` leaves once it gets through, given the table `before` that
     * `read` built over `m0` columns and the actions of `preprocess`: the
     * surviving columns with their weights; the Taxa read, cut down to those
     * columns, leading the rows and making up the terminal Taxa; every later
     * row a latent Taxon; every stored Taxon expanded since the Taxa read,
     * so that the store is closed under the test; and the numbered Taxa
     * connected.
     */
    ghost predicate Loaded(before: Table, action: seq<int>, m0: nat)
      reads this
    {
      && Consistent(before.p0, before.p1, before.rows, before.ns, m0) && TerminalCount(before.ns) == |before.ns|
      && Settled(before, action, m0, partitions0, partitions1, rows, nodes, terminals, m, weight, edges)
    }

    /** The body of `parse` after the `k` check: table sized to `m`, `read`, then the later passes. */
    method Load(text: string, rule: LengthRule, ends: EndRule) returns (r: Outcome<LoadError>, ghost before: Table, ghost action: seq<int>)
      requires nodes == [] && rows == [] && edges == [] && weight == []
      modifies this`weight, this`m, this`nodes, this`partitions0, this`partitions1, this`rows, this`terminals, this`edges
      ensures m <= old(m)
      ensures r == Verdict(ReadFile(text, n, old(m), rule, ends))
      ensures r.Pass? ==> Loaded(before, action, old(m))
      ensures r.Pass? ==> (set v | v in before.rows) == set v | v in ReadFile(text, n, old(m), rule, ends).value
      ensures r.Pass? ==> terminals == |set v | v in ReadFile(text, n, old(m), rule, ends).value|
    {
      r := Populate(text, rule, ends);
      before, action := Snapshot(), [];
      if r.Fail? {
        return;
      }
      ConsistentRowSet(partitions0, partitions1, rows, nodes, m);
      action := Conclude(before);
    }

    /** `parse` after `read`: `Prepare`, then `Finish`, from the table `before` that `read` built. */
    method Conclude(ghost before: Table) returns (ghost action: seq<int>)
      requires Valid() && TerminalCount(nodes) == |nodes| && edges == [] && before == Snapshot()
      modifies this`weight, this`m, this`nodes, this`partitions0, this`partitions1, this`rows, this`terminals, this`edges
      ensures m <= old(m) && terminals == |old(nodes)|
      ensures Loaded(before, action, old(m))
    {
      action := Prepare(before);
      Finish(before, action, old(m));
    }

    /** `Complete`, with what `read` and `preprocess` did, when given, carried over to the loaded state. */
    method Finish(ghost before: Table, ghost action: seq<int>, ghost m0: nat)
      requires Valid() && |weight| == m && edges == [] && TerminalCount(nodes) == terminals == |nodes|
      modifies this`nodes, this`partitions0, this`partitions1, this`rows, this`edges
      ensures Valid() && Finished(old(rows), rows, nodes, terminals, weight, edges)
      ensures Reduced(before, m0, action, m, weight, old(rows)) ==>
                Settled(before, action, m0, partitions0, partitions1, rows, nodes, terminals, m, weight, edges)
    {
      ghost var read := rows;
      Complete();
      if Reduced(before, m0, action, m, weight, read) {
        Concluded(before, m0, action, partitions0, partitions1, rows, nodes, terminals, m, weight, edges, read);
      }
    }

    /** The table sized to `m` columns, then `read`. */
    method Populate(text: string, rule: LengthRule, ends: EndRule) returns (r: Outcome<LoadError>)
      requires nodes == [] && rows == []
      modifies this`nodes, this`partitions0, this`partitions1, this`rows
      ensures r == Verdict(ReadFile(text, n, m, rule, ends))
      ensures r.Pass? ==> Valid() && Contents(nodes) == set v | v in ReadFile(text, n, m, rule, ends).value
      ensures r.Pass? ==> TerminalCount(nodes) == |nodes| == |set v | v in ReadFile(text, n, m, rule, ends).value|
    {
      partitions0, partitions1 := seq(m, _ => []), seq(m, _ => []);
      assert Contents(nodes) == {} && TerminalCount(nodes) == 0;
      r := Read(text, rule, ends);
      if r.Pass? {
        assert Contents(nodes) == set v | v in ReadFile(text, n, m, rule, ends).value;
        SortedContentsSize(nodes);
      }
    }

    /**
     * The middle of `parse`: unit weights, `preprocess`, and `terminals` set
     * to the number of Taxa read, from the table `before` on entry. Returns
     * the action vector of `preprocess`.
     */
    method Prepare(ghost before: Table) returns (ghost action: seq<int>)
      requires Valid() && TerminalCount(nodes) == |nodes| && before == Snapshot()
      modifies this`weight, this`m, this`nodes, this`partitions0, this`partitions1, this`rows, this`terminals
      ensures Reduced(before, old(m), action, m, weight, rows) && m <= old(m)
      ensures partitions0 == Restrict(old(partitions0), Kept(action)) && partitions1 == Restrict(old(partitions1), Kept(action))
      ensures nodes == RestrictNodes(old(nodes), Kept(action), old(m))
      ensures Valid() && |weight| == m
      ensures terminals == |old(nodes)| == |nodes| == TerminalCount(nodes)
    {
      ghost var read := nodes;
      weight := seq(m, _ => 1);
      action := Preprocess();
      SameFlagsSameCount(read, nodes);
      terminals := |nodes|;
    }

    /**
     * The end of `parse`: `generate`, then `connect`. The Taxa present before
     * lead the rows and are the terminal Taxa; the rows after them are latent.
     */
    method Complete()
      requires Valid() && |weight| == m && edges == [] && TerminalCount(nodes) == terminals == |nodes|
      modifies this`nodes, this`partitions0, this`partitions1, this`rows, this`edges
      ensures Valid() && Finished(old(rows), rows, nodes, terminals, weight, edges)
    {
      Grow();
      ghost var ns1 := nodes;
      Connect();
      Relabelled(old(rows), rows, ns1, nodes, terminals);
    }

    /** `generate` on the Taxa read, with what it leaves stated against them. */
    method Grow()
      requires Valid() && TerminalCount(nodes) == terminals == |nodes|
      modifies this`nodes, this`partitions0, this`partitions1, this`rows
      ensures Valid() && Grew(old(rows), rows, nodes, terminals)
    {
      ghost var p0, p1, rs0, ns0 := partitions0, partitions1, rows, nodes;
      var generated := Generate();
      Generated(p0, p1, rs0, ns0, m, terminals, rows, nodes);
    }

    /**
     * One pass of `expand`'s loop: the flip of bit j of `v` (a copy, so
     * `Terminal` false and `Index` 0) is stored when it is new and passes
     * `isBuneman`. A rejection is against rows that include `v` and the
     * first `base` rows.
     */
    method TryFlip(v: Bits, j: nat, ghost base: nat) returns (added: bool)
      requires Valid() && v in Contents(nodes) && |v| == m && j < m && base <= |rows|
      modifies this`nodes, this`partitions0, this`partitions1, this`rows
      ensures Valid()
      ensures added <==> Flipped(v, j) !in Contents(old(nodes)) && Admissible(old(rows), Flipped(v, j), j)
      ensures rows == if added then old(rows) + [Flipped(v, j)] else old(rows)
      ensures Contents(nodes) == Contents(old(nodes)) + (if added then {Flipped(v, j)} else {})
      ensures Latent(old(nodes), nodes) && |nodes| == |old(nodes)| + (if added then 1 else 0)
      ensures FlipHandled(rows, base, nodes, v, j)
    {
      var v1 := Flipped(v, j);
      ContainsIsMembership(nodes, v1);
      if Contains(nodes, v1) {
        return false;
      }
      var b := IsBuneman(v1, j);
      BunemanMeaning(partitions0, partitions1, rows, v1, j);
      if !b {
        ghost var y :| y in nodes && y.bits == v;
        assert rows[..|rows|] == rows && v in rows;
        return false;
      }
      var inserted := Store(Node(v1, false, 0));
      return true;
    }

    /**
     * `expand(v)`: every one-bit flip of `v` is tried, each rejection against
     * rows that include those present at the call; the stored ones come back
     * in the order they are queued.
     */
    method Expand(v: Bits) returns (pushed: seq<Bits>)
      requires Valid() && v in Contents(nodes)
      modifies this`nodes, this`partitions0, this`partitions1, this`rows
      ensures Valid()
      ensures Grown(old(rows), old(nodes), rows, nodes) && rows == old(rows) + pushed
      ensures Contents(nodes) == Contents(old(nodes)) + (set u | u in pushed)
      ensures Expanded(rows, |old(rows)|, nodes, v) && FlipsOf(pushed, v)
      ensures Closed(old(rows), old(nodes)) ==> pushed == []
    {
      ghost var rs0, ns0 := rows, nodes;
      ghost var y :| y in nodes && y.bits == v;
      ghost var p :| 0 <= p < |rows| && rows[p] == v;
      assert rows + [] == rows;
      pushed := [];
      for j := 0 to m
        invariant Valid() && ExpandedTo(rs0, ns0, rows, nodes, v, j, pushed)
        invariant Closed(rs0, ns0) ==> pushed == []
      {
        ghost var rs1, ns1 := rows, nodes;
        if Closed(rs0, ns0) {
          assert Flipped(v, j) in Contents(ns0) || !Admissible(rs0, Flipped(v, j), j);
          assert rs1 == rs0 + [] == rs0;
        }
        var added := TryFlip(v, j, |rs0|);
        ExpandedStep(rs0, ns0, rs1, ns1, rows, nodes, v, j, p, pushed, added);
        if added {
          pushed := pushed + [Flipped(v, j)];
        }
      }
    }

    /**
     * `generate`, run sequentially: a FIFO worklist seeded with the stored
     * Taxa; each dequeued Taxon is expanded and the Taxa it adds are queued.
     * Returns the `generated` counter.
     */
    method Generate() returns (generated: nat)
      requires Valid()
      modifies this`nodes, this`partitions0, this`partitions1, this`rows
      ensures Valid()
      ensures Grown(old(rows), old(nodes), rows, nodes)
      ensures generated == |nodes| - |old(nodes)| == |rows| - |old(rows)|
      ensures AllExpanded(rows, |old(rows)|, nodes) && Closed(rows, nodes)
      ensures Closed(old(rows), old(nodes)) ==> generated == 0 && rows == old(rows)
    {
      var queue := SeedQueue();
      generated := 0;
      ghost var rs0, ns0 := rows, nodes;
      assert rows[..|rows|] == rows;
      SortedSizeBound(nodes, m);
      while |queue| > 0
        invariant Valid() && Grown(rs0, ns0, rows, nodes) && generated == |nodes| - |ns0|
        invariant Pending(queue, rows, |rs0|, nodes) && |nodes| <= Pow2(m)
        invariant Closed(rs0, ns0) ==> rows == rs0 && Contents(nodes) == Contents(ns0)
        decreases Pow2(m) - |nodes|, |queue|
      {
        var v := queue[0];
        ghost var rs1, ns1 := rows, nodes;
        var pushed := Expand(v);
        ExpandedEarlier(rows, |rs1|, |rs0|, nodes, v);
        PendingStep(queue, rs1, |rs0|, ns1, rows, nodes, pushed);
        GrownTrans(rs0, ns0, rs1, ns1, rows, nodes);
        queue := queue[1..] + pushed;
        generated := generated + |pushed|;
        SortedSizeBound(nodes, m);
      }
      FinalFixedPoint(rows, |rs0|, nodes);
    }

    /** The queue `generate` starts from: the stored Taxa in set order. */
    method SeedQueue() returns (queue: seq<Bits>)
      ensures |queue| == |nodes| && forall s :: 0 <= s < |nodes| ==> queue[s] == nodes[s].bits
      ensures forall u :: u in queue <==> u in Contents(nodes)
    {
      queue := [];
      for t := 0 to |nodes|
        invariant |queue| == t && forall s :: 0 <= s < t ==> queue[s] == nodes[s].bits
      {
        queue := queue + [nodes[t].bits];
      }
      forall u | u in Contents(nodes) ensures u in queue {
        var x :| x in nodes && x.bits == u;
        var s :| 0 <= s < |nodes| && nodes[s] == x;
        assert queue[s] == u;
      }
    }

    /** The inner loop of `connect` for the Taxon at position i: an edge to every later Taxon at distance one. */
    method ConnectRow(i: nat)
      requires i < |nodes| && Uniform(nodes, |weight|) && Numbered(nodes)
      modifies this`edges
      ensures edges == old(edges) + RowEdges(nodes, weight, i, |nodes|)
    {
      for j := i + 1 to |nodes|
        invariant edges == old(edges) + RowEdges(nodes, weight, i, j)
      {
        if Distance(nodes[i].bits, nodes[j].bits) == Ok(1) {
          DistanceOneDifference(nodes[i].bits, nodes[j].bits);
          var d := Difference(nodes[i].bits, nodes[j].bits).value;
          edges := edges + [Edge(nodes[i].index, nodes[j].index, weight[d])];
        }
      }
    }

    /** `connect`: `Index` 1 .. V in set order, then the edges of every Taxon to the later ones. */
    method Connect()
      requires Valid() && |weight| == m
      modifies this`nodes, this`edges
      ensures Valid() && Numbered(nodes) && Contents(nodes) == Contents(old(nodes))
      ensures |nodes| == |old(nodes)| && forall i :: 0 <= i < |nodes| ==> nodes[i] == old(nodes)[i].(index := i + 1)
      ensures TerminalCount(nodes) == TerminalCount(old(nodes))
      ensures edges == old(edges) + AllEdges(nodes, weight, |nodes|)
    {
      ghost var ns0 := nodes;
      Number();
      ConsistentSameBits(partitions0, partitions1, rows, ns0, nodes, m);
      SameFlagsSameCount(ns0, nodes);
      ConnectAll();
    }

    /** The numbering loop of `connect`. */
    method Number()
      modifies this`nodes
      ensures Numbered(nodes)
      ensures |nodes| == |old(nodes)| && forall i :: 0 <= i < |nodes| ==> nodes[i] == old(nodes)[i].(index := i + 1)
    {
      var index: nat := 1;
      for i := 0 to |nodes|
        invariant |nodes| == |old(nodes)| && index == i + 1
        invariant forall l :: 0 <= l < |nodes| ==> nodes[l] == if l < i then old(nodes)[l].(index := l + 1) else old(nodes)[l]
      {
        nodes := nodes[i := nodes[i].(index := index)];
        index := index + 1;
      }
    }

    /** The outer loop of `connect`, over the numbered Taxa in set order. */
    method ConnectAll()
      requires Uniform(nodes, |weight|) && Numbered(nodes)
      modifies this`edges
      ensures edges == old(edges) + AllEdges(nodes, weight, |nodes|)
    {
      var ns, ws := nodes, weight;
      ghost var es0 := edges;
      assert es0 + [] == es0;
      for i := 0 to |ns|
        invariant ns == nodes && ws == weight
        invariant edges == es0 + AllEdges(ns, ws, i)
      {
        ConnectRow(i);
        AppendRow(es0, ns, ws, i);
      }
    }

    /**
     * `read`: the Taxa of `text`, the file after the header, each inserted
     * into the store and, when new, into the table.
     */
    method Read(text: string, rule: LengthRule, ends: EndRule) returns (r: Outcome<LoadError>)
      requires Valid()
      modifies this`nodes, this`partitions0, this`partitions1, this`rows
      ensures Valid() && Enlarged(old(nodes), nodes)
      ensures r == Verdict(ReadFile(text, n, m, rule, ends))
      ensures r.Pass? ==> Contents(nodes) == Contents(old(nodes)) + set v | v in ReadFile(text, n, m, rule, ends).value
    {
      var rest, atEnd, last := text, |text| == 0, "";
      var left, line, width := n, 3, m;
      ghost var acc: seq<Bits> := [];
      ghost var goal := ReadFile(text, n, m, rule, ends);
      PrependEmpty(goal);
      r := Pass;
      while left > 0
        invariant width == m && r == Pass && Valid()
        invariant Prepend(acc, ReadTaxa(Seen(rest, atEnd, last, width, ends), left, width, line, rule)) == goal
        invariant Enlarged(old(nodes), nodes) && Contents(nodes) == Contents(old(nodes)) + set u | u in acc
        decreases |rest|, if atEnd then 0 else 1
      {
        var got, s, rest2, atEnd2 := NextChunk(rest, atEnd, last, width, ends);
        if !got {
          return Fail(UnexpectedEnd(line + 1));
        }
        r, left, line, acc := ReadLine(s, Seen(rest2, atEnd2, s, width, ends), left, line, width, rule, acc, goal, old(nodes));
        if r.Fail? {
          return;
        }
        rest, atEnd, last := rest2, atEnd2, s;
      }
      assert ReadTaxa(Seen(rest, atEnd, last, width, ends), 0, width, line, rule) == Ok([]);
      assert acc + [] == acc;
    }

    /**
     * The head of `read`'s loop: the `feof` test, then `fgets`, which leaves
     * the buffer `last` as it was when it finds nothing more. Returns whether
     * the loop body gets a chunk, the chunk, and the new file state.
     */
    method NextChunk(rest: string, atEnd: bool, last: string, width: nat, ends: EndRule)
      returns (got: bool, s: string, rest2: string, atEnd2: bool)
      ensures !got <==> Seen(rest, atEnd, last, width, ends) == []
      ensures got ==> Seen(rest, atEnd, last, width, ends) == [s] + Seen(rest2, atEnd2, s, width, ends)
      ensures got ==> |rest2| < |rest| || (rest2 == rest && atEnd2 && !atEnd)
    {
      if atEnd {
        return false, last, rest, atEnd;
      }
      if |rest| == 0 {
        if ends == NullIsEnd {
          return false, last, rest, atEnd;
        }
        return true, last, rest, true;
      }
      var l := ChunkLength(rest, Room(width));
      return true, rest[..l], rest[l..], HitsEnd(rest, Room(width));
    }

    /**
     * The line rules of `read` for the chunk `s`, with `left` Taxa still to
     * read and `tail` the chunks after it: a short line or one that is not a
     * bitstring stops `read`, blank lines and comments are skipped, and a
     * Taxon is stored. Returns the updated counters.
     */
    method ReadLine(s: string, ghost tail: seq<string>, left: nat, line: nat, width: nat, rule: LengthRule,
                    ghost acc: seq<Bits>, ghost goal: Result<seq<Bits>, LoadError>, ghost ns0: seq<Node>)
      returns (r: Outcome<LoadError>, left2: nat, line2: nat, ghost acc2: seq<Bits>)
      requires Valid() && left > 0 && width == m
      requires Prepend(acc, ReadTaxa([s] + tail, left, width, line, rule)) == goal
      requires Enlarged(ns0, nodes) && Contents(nodes) == Contents(ns0) + set u | u in acc
      modifies this`nodes, this`partitions0, this`partitions1, this`rows
      ensures Valid() && Enlarged(ns0, nodes)
      ensures r.Fail? ==> r == Verdict(goal)
      ensures r.Pass? ==> Prepend(acc2, ReadTaxa(tail, left2, width, line2, rule)) == goal
      ensures r.Pass? ==> Contents(nodes) == Contents(ns0) + set u | u in acc2
    {
      assert ([s] + tail)[0] == s && ([s] + tail)[1..] == tail;
      if Skipped(s) {
        return Pass, left, line + 1, acc;
      }
      var len := Measured(rule, s);
      if len < width {
        return Fail(BadLength(len, line + 1)), left, line, acc;
      }
      var parsed := ParseBits(s[..width]);
      if parsed.Err? {
        return Fail(NotBitstring), left, line, acc;
      }
      ReadAccept([s] + tail, left, width, line, acc, rule);
      acc2 := StoreTaxon(parsed.value, acc, ns0);
      return Pass, left - 1, line + 1, acc2;
    }

    /** The end of `read`'s loop body: the Taxon is inserted, and into the table when new. */
    method StoreTaxon(v: Bits, ghost acc: seq<Bits>, ghost ns0: seq<Node>) returns (ghost acc2: seq<Bits>)
      requires Valid() && |v| == m
      requires Enlarged(ns0, nodes) && Contents(nodes) == Contents(ns0) + set u | u in acc
      modifies this`nodes, this`partitions0, this`partitions1, this`rows
      ensures Valid() && Enlarged(ns0, nodes)
      ensures acc2 == acc + [v] && Contents(nodes) == Contents(ns0) + set u | u in acc2
    {
      var inserted := Store(Node(v, true, 0));
      GrownStep(ns0, old(nodes), nodes, acc, Node(v, true, 0), inserted);
      acc2 := acc + [v];
    }

    /**
     * The first loop of `preprocess`: -2 for every constant column, and for
     * every surviving column i the later columns matching it are set to i.
     */
    method ComputeActions() returns (action: seq<int>)
      requires |partitions0| == m && |partitions1| == m
      ensures ActionsValid(partitions0, partitions1, action)
    {
      var p0, p1 := partitions0, partitions1;
      action := seq(m, _ => -1);
      for i := 0 to m
        invariant |action| == m && forall c :: 0 <= c < m ==> action[c] >= -2
        invariant forall c :: 0 <= c < i ==> (action[c] == -2 <==> Constant(p0, p1, c))
        invariant forall c :: i <= c < m ==> action[c] >= -1
        invariant forall c :: 0 <= c < m && action[c] >= 0 ==>
          action[c] < i && action[c] < c && action[action[c]] == -1 && Matches(p0, p1, action[c], c)
        invariant forall c, l :: 0 <= l < c < m && l < i && action[c] == -1 && action[l] == -1 ==> !Matches(p0, p1, l, c)
      {
        if None(p0[i]) || None(p1[i]) {
          action := action[i := -2];
          continue;
        }
        if action[i] == -1 {
          action := MergeInto(p0, p1, action, i);
        }
      }
    }

    /** `preprocess`'s erase of one column at position `pos`: both bitsets, bit `pos` of every node and of every row. */
    method EraseColumn(pos: nat)
      requires Erasable(Snapshot(), pos)
      modifies this`partitions0, this`partitions1, this`nodes, this`rows
      ensures Snapshot() == EraseAt(old(Snapshot()), pos)
    {
      for i := 0 to |nodes|
        invariant |nodes| == |old(nodes)| && partitions0 == old(partitions0) && partitions1 == old(partitions1) && rows == old(rows)
        invariant forall l :: 0 <= l < i ==> nodes[l] == old(nodes[l]).(bits := RemoveAt(old(nodes[l]).bits, pos))
        invariant forall l :: i <= l < |nodes| ==> nodes[l] == old(nodes[l])
      {
        nodes := nodes[i := nodes[i].(bits := RemoveAt(nodes[i].bits, pos))];
      }
      partitions0 := RemoveAt(partitions0, pos);
      partitions1 := RemoveAt(partitions1, pos);
      ghost var rs := rows;
      rows := seq(|rs|, r requires 0 <= r < |rs| => RemoveAt(rs[r], pos));
    }

    /**
     * `preprocess`: constant columns are deleted, columns matching an earlier
     * surviving column are deleted and add one to its weight, and `m` becomes
     * the number of surviving columns.
     */
    method Preprocess() returns (ghost action: seq<int>)
      requires Valid() && |weight| == m
      modifies this`m, this`weight, this`nodes, this`partitions0, this`partitions1, this`rows
      ensures ActionsValid(old(partitions0), old(partitions1), action)
      ensures m == |Kept(action)| == Count(action, -1) <= old(m)
      ensures partitions0 == Restrict(old(partitions0), Kept(action)) && partitions1 == Restrict(old(partitions1), Kept(action))
      ensures nodes == RestrictNodes(old(nodes), Kept(action), old(m))
      ensures rows == RestrictRows(old(rows), Kept(action), old(m))
      ensures weight == Reweighted(old(weight), action)
      ensures (forall c :: 0 <= c < old(m) ==> old(weight)[c] == 1) ==> Sum(weight) == old(m) - Count(action, -2)
      ensures Valid()
    {
      var act := ComputeActions();
      action := act;
      CountsAddUp(act);
      ghost var p0, p1, ns, rs := partitions0, partitions1, nodes, rows;
      Reduce(act);
      ConsistentRestrict(p0, p1, rs, ns, act);
    }

    /** The erase passes of `preprocess` and the new `m`, for a computed action vector. */
    method Reduce(act: seq<int>)
      requires |act| == m && |partitions0| == m && |partitions1| == m && |weight| == m
      requires Uniform(nodes, m) && forall r :: 0 <= r < |rows| ==> |rows[r]| == m
      requires forall c :: 0 <= c < m ==> -2 <= act[c] < c
      requires forall x :: 0 <= x < m && act[x] >= 0 ==> act[act[x]] == -1
      modifies this`m, this`weight, this`nodes, this`partitions0, this`partitions1, this`rows
      ensures m == |Kept(act)| == Count(act, -1)
      ensures partitions0 == Restrict(old(partitions0), Kept(act)) && partitions1 == Restrict(old(partitions1), Kept(act))
      ensures nodes == RestrictNodes(old(nodes), Kept(act), old(m))
      ensures rows == RestrictRows(old(rows), Kept(act), old(m))
      ensures weight == Reweighted(old(weight), act)
      ensures (forall c :: 0 <= c < old(m) ==> old(weight)[c] == 1) ==> Sum(weight) == old(m) - Count(act, -2)
    {
      ghost var w := weight;
      EraseColumns(act);
      ghost var w1 := weight;
      EraseWeights(act);
      WeightOutcome(w, w1, weight, act);
      KeptCount(act);
      m := Count(act, -1);
    }

    /** The fields `preprocess`'s erase passes change, as one value. */
    ghost function Snapshot(): Table
      reads this
    {
      Table(partitions0, partitions1, nodes, rows, weight)
    }

    /**
     * The first erase pass of `preprocess`: the columns with action -2 or
     * >= 0 leave the table, the nodes and the rows; a merged column adds one
     * to the weight of its target.
     */
    method EraseColumns(act: seq<int>)
      requires |act| == m && |partitions0| == m && |partitions1| == m && |weight| == m
      requires Uniform(nodes, m) && forall r :: 0 <= r < |rows| ==> |rows[r]| == m
      requires forall c :: 0 <= c < m ==> -2 <= act[c] < m
      modifies this`weight, this`nodes, this`partitions0, this`partitions1, this`rows
      ensures partitions0 == Restrict(old(partitions0), Kept(act)) && partitions1 == Restrict(old(partitions1), Kept(act))
      ensures nodes == RestrictNodes(old(nodes), Kept(act), m)
      ensures rows == RestrictRows(old(rows), Kept(act), m)
      ensures |weight| == m && forall x :: 0 <= x < m ==> weight[x] == old(weight)[x] + Count(act, x)
      ensures Sum(weight) == Sum(old(weight)) + Merged(act)
    {
      var width := m;
      ghost var s := Snapshot();
      ErasedStart(s, act);
      var rem: nat := 0;
      ghost var k: seq<nat> := [];
      for c := 0 to width
        invariant m == width && rem + |k| == c
        invariant ErasedTo(s, Snapshot(), act, c, k)
      {
        k := EraseStep(act, c, c - rem, s, k);
        if act[c] != -1 {
          rem := rem + 1;
        }
      }
      ErasedDone(s, Snapshot(), act, k);
    }

    /** One column of the first erase pass; `pos` is its position after the earlier erasures. */
    method EraseStep(act: seq<int>, c: nat, pos: nat, ghost s: Table, ghost k: seq<nat>) returns (ghost k2: seq<nat>)
      requires c < |act| && pos == |k| && ErasedTo(s, Snapshot(), act, c, k)
      modifies this`weight, this`nodes, this`partitions0, this`partitions1, this`rows
      ensures ErasedTo(s, Snapshot(), act, c + 1, k2)
      ensures k2 == if act[c] == -1 then k + [c] else k
    {
      ghost var t := Snapshot();
      ErasedWidth(s, t, act, c, k);
      if act[c] == -2 {
        EraseColumn(pos);
        ErasedDrop(s, t, Snapshot(), act, c, k);
        k2 := k;
      } else if act[c] >= 0 {
        weight := weight[act[c] := weight[act[c]] + 1];
        assert Snapshot() == Bump(t, act[c]);
        EraseColumn(pos);
        ErasedDrop(s, t, Snapshot(), act, c, k);
        k2 := k;
      } else {
        ErasedKeep(s, t, act, c, k);
        k2 := k + [c];
      }
    }

    /** The second erase pass of `preprocess`: the weights of the deleted columns go. */
    method EraseWeights(act: seq<int>)
      requires |act| == |weight| && forall c :: 0 <= c < |act| ==> act[c] >= -2
      modifies this`weight
      ensures weight == Restrict(old(weight), Kept(act))
      ensures DroppedWeight(old(weight), act) <= Sum(old(weight))
      ensures Sum(weight) == Sum(old(weight)) - DroppedWeight(old(weight), act)
    {
      var w0 := weight;
      var ws := w0;
      var pos: nat := 0;
      assert act[..0] == [];
      for c := 0 to |w0|
        invariant WeightsTo(w0, act, c, pos, ws)
      {
        pos, ws := WeightErase(w0, act, c, pos, ws);
      }
      WeightsDone(w0, act, pos, ws);
      weight := ws;
    }
  }

  /** The inner loop of `preprocess`'s first pass: every later column matching column i is set to i. */
  method MergeInto(p0: seq<Bitset>, p1: seq<Bitset>, action: seq<int>, i: nat) returns (a: seq<int>)
    requires |p0| == |action| && |p1| == |action| && i < |action|
    ensures |a| == |action|
    ensures forall c :: 0 <= c < |action| ==> a[c] == if i < c && Matches(p0, p1, i, c) then i else action[c]
  {
    a := action;
    for j := i + 1 to |action|
      invariant |a| == |action|
      invariant forall c :: 0 <= c < |action| ==> a[c] == if i < c < j && Matches(p0, p1, i, c) then i else action[c]
    {
      if p0[i] == p0[j] || p0[i] == p1[j] {
        a := a[j := i];
      }
    }
  }

  /**
   * What `preprocess` did to the table `before` of `m0` columns, with unit
   * weights to start from: `action` is the action vector it computed, `m`
   * the number of surviving columns, `weight` their weights and `read` the
   * rows of `before` cut down to the surviving columns.
   */
  ghost predicate Reduced(before: Table, m0: nat, action: seq<int>, m: nat, weight: seq<nat>, read: seq<Bits>)
  {
    && Tabulates(before.p0, before.p1, before.rows, m0)
    && ActionsValid(before.p0, before.p1, action)
    && m == |Kept(action)| == Count(action, -1)
    && weight == Reweighted(seq(m0, _ => 1), action) && Sum(weight) == m0 - Count(action, -2)
    && read == RestrictRows(before.rows, Kept(action), m0)
  }

  /** The edges after row i are those before it followed by row i's. */
  lemma AppendRow(es0: seq<Edge>, ns: seq<Node>, ws: seq<nat>, i: nat)
    requires i < |ns| && Uniform(ns, |ws|)
    ensures es0 + AllEdges(ns, ws, i + 1) == (es0 + AllEdges(ns, ws, i)) + RowEdges(ns, ws, i, |ns|)
  {
    assert AllEdges(ns, ws, i + 1) == AllEdges(ns, ws, i) + RowEdges(ns, ws, i, |ns|);
  }

  /**
   * `Loaded` after the table `before` itself, on the loader's fields passed
   * as values: what `preprocess` and `generate` leave, over the Taxa read.
   */
  ghost predicate Settled(before: Table, action: seq<int>, m0: nat, p0: seq<Bitset>, p1: seq<Bitset>, rows: seq<Bits>,
                          ns: seq<Node>, terminals: nat, m: nat, weight: seq<nat>, edges: seq<Edge>)
  {
    && Consistent(p0, p1, rows, ns, m) && terminals == |before.rows| <= |rows|
    && Reduced(before, m0, action, m, weight, rows[..terminals])
    && Finished(rows[..terminals], rows, ns, terminals, weight, edges)
  }

  /** What `preprocess`, then `generate` and `connect`, leave is settled. */
  lemma Concluded(before: Table, m0: nat, action: seq<int>, p0: seq<Bitset>, p1: seq<Bitset>, rows: seq<Bits>,
                  ns: seq<Node>, terminals: nat, m: nat, weight: seq<nat>, edges: seq<Edge>, read: seq<Bits>)
    requires Reduced(before, m0, action, m, weight, read)
    requires Consistent(p0, p1, rows, ns, m) && Finished(read, rows, ns, terminals, weight, edges)
    ensures Settled(before, action, m0, p0, p1, rows, ns, terminals, m, weight, edges)
  {
  }

  /** The state `preprocess`'s erase passes work on. */
  datatype Table = Table(p0: seq<Bitset>, p1: seq<Bitset>, ns: seq<Node>, rows: seq<Bits>, weight: seq<nat>)

  /** The start state of the erase pass: everything of width |act|, actions in range. */
  ghost predicate EraseReady(s: Table, act: seq<int>)
  {
    && |s.p0| == |act| && |s.p1| == |act| && |s.weight| == |act|
    && Uniform(s.ns, |act|) && (forall r :: 0 <= r < |s.rows| ==> |s.rows[r]| == |act|)
    && (forall c :: 0 <= c < |act| ==> -2 <= act[c] < |act|)
  }

  /**
   * The first erase pass has handled columns 0 .. c-1 of `s`, keeping those
   * in `k`: `t` is `s` with the dropped columns gone and the merges counted.
   */
  ghost predicate ErasedTo(s: Table, t: Table, act: seq<int>, c: nat, k: seq<nat>)
  {
    && EraseReady(s, act) && c <= |act|
    && k == Kept(act[..c]) && (forall i :: 0 <= i < |k| ==> k[i] < c)
    && t.p0 == Restrict(s.p0, k) + s.p0[c..]
    && t.p1 == Restrict(s.p1, k) + s.p1[c..]
    && t.ns == PartialNodes(s.ns, k, c, |act|)
    && t.rows == PartialRows(s.rows, k, c, |act|)
    && |t.weight| == |act| && (forall x :: 0 <= x < |act| ==> t.weight[x] == s.weight[x] + Count(act[..c], x))
    && Sum(t.weight) == Sum(s.weight) + Merged(act[..c])
  }

  lemma ErasedStart(s: Table, act: seq<int>)
    requires EraseReady(s, act)
    ensures ErasedTo(s, s, act, 0, [])
  {
    assert act[..0] == [];
    PartialStart(s.ns, s.rows, |act|);
  }

  /** A kept column: nothing changes but the position. */
  lemma ErasedKeep(s: Table, t: Table, act: seq<int>, c: nat, k: seq<nat>)
    requires ErasedTo(s, t, act, c, k) && c < |act| && act[c] == -1
    ensures ErasedTo(s, t, act, c + 1, k + [c])
  {
    KeptStep(act, c);
    CountStep(act, c);
    RestrictStep(s.p0, k, c);
    RestrictStep(s.p1, k, c);
    PartialKeep(s.ns, s.rows, k, c, |act|);
  }

  /** Column `pos` exists in both bitset vectors, in every node and in every row. */
  ghost predicate Erasable(t: Table, pos: nat)
  {
    && pos < |t.p0| && pos < |t.p1|
    && (forall i :: 0 <= i < |t.ns| ==> pos < |t.ns[i].bits|)
    && (forall r :: 0 <= r < |t.rows| ==> pos < |t.rows[r]|)
  }

  /** `t` with column `pos` erased from the bitset vectors, the nodes and the rows. */
  ghost function EraseAt(t: Table, pos: nat): (u: Table)
    requires Erasable(t, pos)
    ensures u.p0 == RemoveAt(t.p0, pos) && u.p1 == RemoveAt(t.p1, pos) && u.weight == t.weight
    ensures |u.ns| == |t.ns| && forall i :: 0 <= i < |t.ns| ==> u.ns[i] == t.ns[i].(bits := RemoveAt(t.ns[i].bits, pos))
    ensures |u.rows| == |t.rows| && forall r :: 0 <= r < |t.rows| ==> u.rows[r] == RemoveAt(t.rows[r], pos)
  {
    Table(RemoveAt(t.p0, pos), RemoveAt(t.p1, pos),
      seq(|t.ns|, i requires 0 <= i < |t.ns| => t.ns[i].(bits := RemoveAt(t.ns[i].bits, pos))),
      seq(|t.rows|, r requires 0 <= r < |t.rows| => RemoveAt(t.rows[r], pos)),
      t.weight)
  }

  /** `t` with one added to the weight of column `d`, when `d` is a column. */
  ghost function Bump(t: Table, d: int): Table
  {
    if 0 <= d < |t.weight| then t.(weight := t.weight[d := t.weight[d] + 1]) else t
  }

  /** Where a dropped column sits in the state after the earlier columns are handled. */
  lemma ErasedWidth(s: Table, t: Table, act: seq<int>, c: nat, k: seq<nat>)
    requires ErasedTo(s, t, act, c, k) && c < |act|
    ensures Erasable(t, |k|) && Erasable(Bump(t, act[c]), |k|)
    ensures act[c] >= 0 ==> act[c] < |t.weight|
  {
  }

  /**
   * A dropped column: column |k| erased everywhere and, for a merged column,
   * one added to the weight of its target.
   */
  lemma ErasedDrop(s: Table, t: Table, u: Table, act: seq<int>, c: nat, k: seq<nat>)
    requires ErasedTo(s, t, act, c, k) && c < |act| && act[c] != -1
    requires Erasable(Bump(t, act[c]), |k|) && u == EraseAt(Bump(t, act[c]), |k|)
    ensures ErasedTo(s, u, act, c + 1, k)
  {
    KeptStep(act, c);
    CountStep(act, c);
    RestrictStep(s.p0, k, c);
    RestrictStep(s.p1, k, c);
    PartialDropNodes(s.ns, k, c, |act|, u.ns);
    PartialDropRows(s.rows, k, c, |act|, u.rows);
    if act[c] >= 0 {
      SumIncrement(t.weight, act[c]);
    }
  }

  /** After the last column the state is the restriction of the start state to the kept columns. */
  lemma ErasedDone(s: Table, t: Table, act: seq<int>, k: seq<nat>)
    requires ErasedTo(s, t, act, |act|, k)
    ensures k == Kept(act)
    ensures t.p0 == Restrict(s.p0, k) && t.p1 == Restrict(s.p1, k)
    ensures t.ns == RestrictNodes(s.ns, k, |act|) && t.rows == RestrictRows(s.rows, k, |act|)
    ensures |t.weight| == |act| && forall x :: 0 <= x < |act| ==> t.weight[x] == s.weight[x] + Count(act, x)
    ensures Sum(t.weight) == Sum(s.weight) + Merged(act)
  {
    assert act[..|act|] == act;
    PartialDone(s.ns, s.rows, k, |act|);
    assert Restrict(s.p0, k) + s.p0[|act|..] == Restrict(s.p0, k);
    assert Restrict(s.p1, k) + s.p1[|act|..] == Restrict(s.p1, k);
  }

  /**
   * The store `ns` is `ns0` with terminal nodes of index 0 added: nothing of
   * `ns0` is lost and the terminal count grows with the number of new nodes.
   */
  ghost predicate Enlarged(ns0: seq<Node>, ns: seq<Node>)
  {
    && (forall x :: x in ns0 ==> x in ns)
    && (forall x :: x in ns ==> x in ns0 || (x.terminal && x.index == 0))
    && TerminalCount(ns) == TerminalCount(ns0) + |ns| - |ns0|
  }

  lemma GrownStep(ns0: seq<Node>, ns: seq<Node>, ns2: seq<Node>, acc: seq<Bits>, x: Node, inserted: bool)
    requires Enlarged(ns0, ns) && Contents(ns) == Contents(ns0) + (set u | u in acc) && x.terminal && x.index == 0
    requires Contents(ns2) == Contents(ns) + {x.bits}
    requires forall y :: y in ns2 <==> y in ns || (inserted && y == x)
    requires TerminalCount(ns2) == TerminalCount(ns) + (if inserted && x.terminal then 1 else 0)
    requires |ns2| == |ns| + if inserted then 1 else 0
    ensures Enlarged(ns0, ns2) && Contents(ns2) == Contents(ns0) + (set u | u in acc + [x.bits])
  {
    assert (set u | u in acc + [x.bits]) == (set u | u in acc) + {x.bits};
  }

  /** One column of `preprocess`'s second erase pass: the weight at the current position is that of column c. */
  lemma WeightStep(w0: seq<nat>, act: seq<int>, c: nat, ws: seq<nat>)
    requires c < |w0| == |act| && forall c :: 0 <= c < |act| ==> act[c] >= -2
    requires ws == Restrict(w0, Kept(act[..c])) + w0[c..]
    requires Sum(ws) + DroppedWeight(w0, act[..c]) == Sum(w0)
    ensures |Kept(act[..c])| < |ws| && ws[|Kept(act[..c])|] == w0[c]
    ensures act[c] == -1 ==> (|Kept(act[..c + 1])| == |Kept(act[..c])| + 1 &&
      ws == Restrict(w0, Kept(act[..c + 1])) + w0[c + 1..] && Sum(ws) + DroppedWeight(w0, act[..c + 1]) == Sum(w0))
    ensures act[c] != -1 ==> (|Kept(act[..c + 1])| == |Kept(act[..c])| &&
      RemoveAt(ws, |Kept(act[..c])|) == Restrict(w0, Kept(act[..c + 1])) + w0[c + 1..] &&
      Sum(ws) - w0[c] + DroppedWeight(w0, act[..c + 1]) == Sum(w0))
  {
    var k := Kept(act[..c]);
    KeptStep(act, c);
    DroppedStep(w0, act, c);
    RestrictStep(w0, k, c);
  }

  /** The weights after columns 0 .. c-1 of the second erase pass; `pos` is the position of column c. */
  ghost predicate WeightsTo(w0: seq<nat>, act: seq<int>, c: nat, pos: nat, ws: seq<nat>)
  {
    && |w0| == |act| && c <= |act| && (forall c :: 0 <= c < |act| ==> act[c] >= -2)
    && pos == |Kept(act[..c])|
    && ws == Restrict(w0, Kept(act[..c])) + w0[c..]
    && Sum(ws) + DroppedWeight(w0, act[..c]) == Sum(w0)
  }

  /** One column of the second erase pass: its weight goes unless the column is kept. */
  method WeightErase(w0: seq<nat>, act: seq<int>, c: nat, pos: nat, ws: seq<nat>) returns (pos2: nat, ws2: seq<nat>)
    requires c < |act| && WeightsTo(w0, act, c, pos, ws)
    ensures WeightsTo(w0, act, c + 1, pos2, ws2)
  {
    WeightStep(w0, act, c, ws);
    if act[c] == -2 || act[c] >= 0 {
      SumRemoveAt(ws, pos);
      pos2, ws2 := pos, RemoveAt(ws, pos);
    } else {
      pos2, ws2 := pos + 1, ws;
    }
  }

  lemma WeightsDone(w0: seq<nat>, act: seq<int>, pos: nat, ws: seq<nat>)
    requires WeightsTo(w0, act, |act|, pos, ws)
    ensures ws == Restrict(w0, Kept(act))
    ensures DroppedWeight(w0, act) <= Sum(w0) && Sum(ws) == Sum(w0) - DroppedWeight(w0, act)
  {
    assert act[..|act|] == act;
    var r := Restrict(w0, Kept(act));
    assert w0[|act|..] == [];
    assert r + [] == r;
  }

  /** Results of the earlier Taxa ahead of those of the rest. */
  function Prepend(acc: seq<Bits>, r: Result<seq<Bits>, LoadError>): Result<seq<Bits>, LoadError>
  {
    match r
    case Ok(vs) => Ok(acc + vs)
    case Err(e) => Err(e)
  }

  lemma PrependEmpty(r: Result<seq<Bits>, LoadError>)
    ensures Prepend([], r) == r
  {
    match r
    case Ok(vs) => assert [] + vs == vs;
    case Err(_) =>
  }

  /**
   * What `generate` leaves, `read` being the rows before it: the Taxa of
   * `read` lead the rows and make up the terminal Taxa, every later row is
   * latent, every stored Taxon is expanded since `read`, and the store is
   * closed under the test against the final table.
   */
  ghost predicate Grew(read: seq<Bits>, rows: seq<Bits>, ns: seq<Node>, terminals: nat)
  {
    && TerminalCount(ns) == terminals == |read| <= |rows| && rows[..terminals] == read
    && TerminalTaxa(ns) == (set v | v in read)
    && AllSpawned(rows, terminals) && AllExpanded(rows, terminals, ns) && Closed(rows, ns)
  }

  /** `Grew` from the history `generate` leaves, starting from the Taxa read, all terminal. */
  lemma Generated(p0: seq<Bitset>, p1: seq<Bitset>, rows0: seq<Bits>, ns0: seq<Node>, m: nat, terminals: nat,
                  rows: seq<Bits>, ns: seq<Node>)
    requires Consistent(p0, p1, rows0, ns0, m) && TerminalCount(ns0) == |ns0| == terminals
    requires Grown(rows0, ns0, rows, ns) && AllExpanded(rows, terminals, ns)
    ensures Grew(rows0, rows, ns, terminals)
  {
    ConsistentRowSet(p0, p1, rows0, ns0, m);
    AllTerminalTaxa(ns0);
    LatentTerminalTaxa(ns0, ns);
    FinalFixedPoint(rows, terminals, ns);
  }

  /** The numbering of `connect` keeps `Grew`. */
  lemma Relabelled(read: seq<Bits>, rows: seq<Bits>, ns1: seq<Node>, ns2: seq<Node>, terminals: nat)
    requires Grew(read, rows, ns1, terminals)
    requires |ns2| == |ns1| && forall i :: 0 <= i < |ns2| ==> ns2[i] == ns1[i].(index := i + 1)
    requires Contents(ns2) == Contents(ns1) && TerminalCount(ns2) == TerminalCount(ns1)
    ensures Grew(read, rows, ns2, terminals)
  {
    SameFlagsSameTaxa(ns1, ns2);
    assert rows[..|rows|] == rows;
    ExpandedGrows(rows, terminals, ns1, rows, ns2);
  }

  /**
   * What `generate` and `connect` leave, `read` being the rows before them:
   * `Grew`, the Taxa numbered, and the edges those of `connect`.
   */
  ghost predicate Finished(read: seq<Bits>, rows: seq<Bits>, ns: seq<Node>, terminals: nat, weight: seq<nat>, edges: seq<Edge>)
  {
    && Grew(read, rows, ns, terminals) && Numbered(ns)
    && Uniform(ns, |weight|) && edges == AllEdges(ns, weight, |ns|)
  }

  /** An accepted chunk: its Taxon goes after the earlier ones. */
  lemma ReadAccept(chunks: seq<string>, want: nat, m: nat, line: nat, acc: seq<Bits>, rule: LengthRule)
    requires |chunks| > 0 && want > 0 && !Skipped(chunks[0]) && Measured(rule, chunks[0]) >= m
    requires ParseBits(chunks[0][..m]).Ok?
    ensures Prepend(acc, ReadTaxa(chunks, want, m, line, rule)) ==
      Prepend(acc + [ParseBits(chunks[0][..m]).value], ReadTaxa(chunks[1..], want - 1, m, line + 1, rule))
  {
    var rest := ReadTaxa(chunks[1..], want - 1, m, line + 1, rule);
    if rest.Ok? {
      assert acc + ([ParseBits(chunks[0][..m]).value] + rest.value) == (acc + [ParseBits(chunks[0][..m]).value]) + rest.value;
    }
  }
}

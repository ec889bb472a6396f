# mppep-gen in Dafny

mppep-gen turns a maximum-parsimony phylogeny problem into a Steiner tree
instance. The input is a matrix of `n` binary Taxa with `m` characters each.
`PhylogeneticLoader::parse` works in four steps:

1. It reads the Taxa into a sorted, duplicate-free store.
2. It drops constant columns. It merges each column that equals, or is the
   complement of, an earlier surviving column into that column's weight.
3. It closes the store under one-bit flips that pass the Buneman test.
4. It connects every two stored Taxa at Hamming distance one with an edge.
   The edge's weight is the weight of the column where they differ.

A separate tool, `ConvertFASTA`, turns a FASTA file of nucleotide records
into lines of bits, four per nucleotide, padded to a fixed record length.

The model is sequential. It follows the code's structure, one module per
concern:

- `Wrappers` (wrappers.dfy): `Result`/`Outcome` for the exceptions the C++
  throws, plus a few sequence helpers.
- `Taxa` (taxon.dfy): the `Taxon` bit vector.
  - A class over an `array<bool>` for `remove`, `flip` and the constructors.
  - Pure functions on `seq<bool>` for `difference`, `distance`, `operator<`
    and `operator==`.
- `NodeSet` (nodeset.dfy): the `btree_set` of nodes as a strictly sorted
  sequence under `Taxon::operator<`, with `count` and `insert`.
- `Partitions` (partitions.dfy): the column bitsets `partitions0` and
  `partitions1`, and what the Buneman test decides about the Taxa they
  tabulate.
- `Reduction` (reduction.dfy): the specification of `preprocess`.
  - Which columns survive.
  - How the Taxa, the table and the weights are restricted.
  - Why the store stays sorted.
- `Reading` (reading.dfy): the chunks that `feof` and `fgets` hand to
  `read`'s loop body from the file text, and the line rules applied to them.
- `Edges` (edges.dfy): the edge list `connect` builds, and its soundness,
  completeness and order.
- `Generation` (generation.dfy): the invariants of `generate`.
  - The table tabulates exactly the stored Taxa.
  - Every generated Taxon is an admissible flip of an earlier one.
  - At the end, every stored Taxon is expanded, so every one-bit flip of a
    stored Taxon is stored or fails the test against the final table.
- `Loader` (loader.dfy): the class `PhylogeneticLoader`, with its fields and
  the methods `parse`, `read`, `preprocess`, `generate`, `connect`,
  `insertBuneman` and `isBuneman`. Each method is proved against the
  functions above.
- `ConvertFasta` (fasta.dfy): `parse_identifier`, `parse_line` and the
  record loop of `main`.

Nodes are modelled as values `Node(bits, terminal, index)` rather than
shared pointers. `Index` is assigned once, by `connect`, over the final
store.

A constant column gives its weight to no surviving column: the first pass
of `preprocess` adds to a survivor only the columns merged into it, and the
second pass erases every other weight. The weights left therefore sum to the
column count minus the number of constant columns, not to the column count,
and the model proves that sum (`Loader.PhylogeneticLoader.Preprocess`).

`read` is modelled on the text of the file after `k`. Each `fgets` call takes
at most `m + 3` characters and stops after a newline. The end-of-file
indicator is set only when the text runs out before either, and `feof` is
checked before `fgets`. The class's `Read`, `Populate`, `Load` and `Parse`
take two parameters that choose the line rules:

- `rule`: `AsWritten` measures a line with `strlen`, the code's check;
  `Intended` measures it without its line terminator.
- `ends`: `Reread` processes the buffer once more when `fgets` finds nothing
  left, as the code does; `NullIsEnd` ends the input there.

The code as written is `AsWritten` with `Reread`. Every contract of the class
holds for all four choices. The two Findings below contrast them.

## Model

| member | source | states |
|---|---|---|
| Taxa.Equal | src/Taxon.cpp:92-103 | `operator==` holds exactly when the two Taxa have the same length and the same bits |
| Taxa.Less | src/Taxon.cpp:75-85 | `operator<` holds exactly when the lengths agree and `a` has the 1 at the first position where the two differ; Taxa of different lengths are never less |
| Taxa.Difference | src/Taxon.cpp:50-59 | `difference` throws `logic_error` exactly when the lengths differ; it is `(size_t)-1` for equal Taxa and otherwise the first position where they differ |
| Taxa.Distance | src/Taxon.cpp:61-73 | `distance` throws `logic_error` exactly when the lengths differ; otherwise it is the number of positions where the Taxa differ |
| Taxa.HammingCountsDifferences | src/Taxon.cpp:66-71 | the counting loop of `distance` yields the size of the set of differing positions |
| Taxa.ParseBits | src/Taxon.cpp:158-172 | decoding a bitstring succeeds exactly when every character is '0' or '1' (`out_of_range` otherwise), and bit j is set exactly when character j is '1' |
| Taxa.Show | src/Taxon.cpp:125-131 | `operator<<` prints one character per bit, '1' for a set bit and '0' otherwise |
| Taxa.ShowParseRoundTrip | src/Taxon.cpp:125-131 | the bitstring constructor decodes what `operator<<` prints back to the same bits |
| Taxa.DistanceSymmetric | src/Taxon.cpp:61-73 | `distance(a, b)` and `distance(b, a)` agree, error included |
| Taxa.DistanceZeroIffEqual | src/Taxon.cpp:61-73 | for Taxa of equal length, distance 0 holds exactly when `operator==` holds |
| Taxa.DistanceOneDifference | src/Taxon.cpp:50-73 | at distance 1, `difference` is a valid position and `b` is `a` with that bit flipped, so `connect`'s `weight[d]` is in range |
| Taxa.FlipDistance | src/Taxon.cpp:87-90 | a Taxon and its flip at `pos` are at distance 1 and differ first at `pos` |
| Taxa.FlipInvolution | src/Taxon.cpp:87-90 | flipping the same bit twice restores the Taxon |
| Taxa.LessIrreflexive | src/Taxon.cpp:75-85 | no Taxon is less than itself |
| Taxa.LessAsymmetric | src/Taxon.cpp:75-85 | `a < b` excludes `b < a` |
| Taxa.LessTransitive | src/Taxon.cpp:75-85 | `operator<` is transitive |
| Taxa.LessTotal | src/Taxon.cpp:75-85 | two distinct Taxa of the same length are ordered one way or the other |
| Taxa.EquivalentIffEqual | src/Taxon.cpp:75-103 | for equal lengths, neither being less than the other holds exactly when `operator==` holds, so the set's equivalence is content equality |
| Taxa.DifferentLengthsUnordered | src/Taxon.cpp:75-103 | Taxa of different lengths are neither ordered nor equal |
| Taxa.Taxon.Length | src/Taxon.cpp:36-39 | `length()` is the number of bits held |
| Taxa.Taxon.Zero | src/Taxon.cpp:147-156 | the size constructor yields `n` cleared bits in a fresh buffer, not terminal, `Index` 0 |
| Taxa.Taxon.Copy | src/Taxon.cpp:133-145 | the copy constructor copies the bits into a fresh buffer but resets `Terminal` to false and `Index` to 0 |
| Taxa.Taxon.FromBitstring | src/Taxon.cpp:158-172 | the bitstring constructor succeeds exactly when the first `len` characters are bits, throws `out_of_range` otherwise, and yields their decoding marked terminal |
| Taxa.Taxon.Remove | src/Taxon.cpp:21-28 | `remove` throws `logic_error` exactly when `pos >= size`, leaving the Taxon unchanged; otherwise it deletes bit `pos` and shifts the rest down |
| Taxa.Taxon.Flip | src/Taxon.cpp:87-90 | `flip` negates bit `pos` and leaves every other bit unchanged |
| NodeSet.ContainsIsMembership | src/PhylogeneticLoader.cpp:364-367 | `nodes.count(v1) > 0` holds exactly when a stored node has the bits of `v1` |
| NodeSet.InsertSpec | src/PhylogeneticLoader.cpp:666-668 | insertion keeps the store sorted; it reports an insertion exactly when the bits are new; the contents grow by those bits and the size by one exactly when inserted |
| NodeSet.InsertTerminalCount | src/PhylogeneticLoader.cpp:666-668 | the number of terminal nodes grows by one exactly when a new terminal node is inserted |
| NodeSet.FullCountAllTerminal | src/PhylogeneticLoader.cpp:183 | the terminal count is at most the store's size, and equals it only when every node is terminal, so `terminals = nodes.size()` counts terminal nodes |
| NodeSet.AllTerminalTaxa | src/PhylogeneticLoader.cpp:183 | when every node is terminal, the terminal Taxa are all the stored Taxa |
| NodeSet.SameFlagsSameTaxa | src/PhylogeneticLoader.cpp:435-437 | renumbering, which keeps every node's bits and `Terminal` flag, keeps the terminal Taxa |
| NodeSet.SortedSizeBound | src/PhylogeneticLoader.cpp:354-389 | a sorted store of `m`-bit Taxa holds at most 2^m nodes, which bounds how far `generate` can grow |
| Generation.SortedContentsSize | src/PhylogeneticLoader.cpp:171-183 | the number of nodes equals the number of distinct Taxa stored, so `terminals = nodes.size()` counts distinct Taxa |
| Generation.ConsistentRowSet | src/PhylogeneticLoader.cpp:518-531 | when table and store are consistent, the stored Taxa are exactly the Taxa the table tabulates |
| Partitions.BunemanMeaning | src/PhylogeneticLoader.cpp:533-547 | the bitset test of `isBuneman` holds exactly when, for every other column `l`, some tabulated Taxon agrees with `v` on both column `j` and column `l` |
| Partitions.FlipCheckIsPairwise | src/PhylogeneticLoader.cpp:533-547 | for the flip at `j` of a tabulated Taxon, testing only the pairs through `j` equals the full pairwise test of the commented-out double loop |
| Partitions.AdmissibleMonotone | src/PhylogeneticLoader.cpp:533-547 | a flip that passes the test keeps passing when more Taxa are tabulated |
| Partitions.AppendRowTabulates | src/PhylogeneticLoader.cpp:518-531 | after `insertBuneman(v)` the table tabulates the previous Taxa followed by `v` |
| Loader.PhylogeneticLoader.InsertBuneman | src/PhylogeneticLoader.cpp:518-531 | every column pushes one bit: `v[j]` onto `partitions1[j]` and its negation onto `partitions0[j]` |
| Loader.PhylogeneticLoader.IsBuneman | src/PhylogeneticLoader.cpp:533-547 | the loop over columns returns the bitset test, whose meaning `Partitions.BunemanMeaning` gives |
| Generation.ConsistentInsert | src/PhylogeneticLoader.cpp:666-668 | storing a new Taxon and appending it to the table keeps table and store describing the same Taxa |
| Generation.ConsistentDuplicate | src/PhylogeneticLoader.cpp:666-668 | a rejected duplicate insert leaves table and store consistent |
| Loader.PhylogeneticLoader.Store | src/PhylogeneticLoader.cpp:666-668 | stores the node, extends the table exactly when it was new, and keeps table and store consistent with the right terminal count |
| Loader.PhylogeneticLoader.constructor | src/PhylogeneticLoader.cpp:682-688 | a new loader has `n`, `m`, `k` and `terminals` 0 and empty collections |
| Reading.StrLen | src/PhylogeneticLoader.cpp:640 | `strlen` counts the characters before the first NUL |
| Reading.ContentLength | src/PhylogeneticLoader.cpp:640-659 | the length of the chunk without its `\n` or `\r\n` terminator |
| Reading.ReadTaxaSucceeds | src/PhylogeneticLoader.cpp:629-669 | over the chunks the loop body sees, `read` succeeds exactly when there are at least `n` data lines and the first `n` of them pass the length check and are made of bits; blank and comment lines do not count |
| Reading.ReadTaxaYields | src/PhylogeneticLoader.cpp:629-669 | over the chunks the loop body sees, success yields exactly `n` Taxa, the i-th being the decoding of the first `m` characters of the i-th data line |
| Reading.BadLengthLater | src/PhylogeneticLoader.cpp:628-658 | a length error reports a line after the header lines already read |
| Reading.AcceptsAgree | src/PhylogeneticLoader.cpp:640-661 | the length check as written and as intended accept the same lines |
| Reading.RulesAgreeOnSuccess | src/PhylogeneticLoader.cpp:622-670 | both length checks lead to the same successful result; they differ only in which error is reported |
| Reading.ShortLineAsWritten | src/PhylogeneticLoader.cpp:639-661 | as written, the file text "\n01\n" with `n` 1 and `m` 3 fails in the bitstring constructor: the Taxon line one character short passes the `strlen` check |
| Reading.ShortLineIntended | src/PhylogeneticLoader.cpp:639-659 | under the intended check the same text is reported as a taxon of length 2 on line 5 |
| Reading.IntendedLengthCheck | src/PhylogeneticLoader.cpp:654-659 | a data line is reported too short exactly when its characters without the line terminator number fewer than `m` |
| Reading.ChunkLength | src/PhylogeneticLoader.cpp:639 | one `fgets(taxon, m + 4, fp)` call takes at most `m + 3` characters and at least one while text remains; only its last character can be a newline, and it stops at a newline, a full buffer or the end of the text |
| Reading.ChunksJoin | src/PhylogeneticLoader.cpp:639 | the successive `fgets` results put back together are the whole text; each holds 1 to `m + 3` characters with a newline at most at its end, and every one but the last stopped at a newline or a full buffer |
| Reading.SeenWithoutReread | src/PhylogeneticLoader.cpp:633-639 | when the failed `fgets` ends the input, the loop body sees exactly the successive `fgets` results |
| Reading.SeenWithReread | src/PhylogeneticLoader.cpp:633-639 | with `feof` checked before `fgets`, the loop body sees the successive `fgets` results and then the last one again when it stopped at a newline or a full buffer |
| Reading.ReadFileChunks | src/PhylogeneticLoader.cpp:622-639 | from the file text after `k`: the chunks, once more the stale last chunk under the code's end rule, and nothing at all when `fscanf` has already hit the end |
| Reading.ReadFileSucceeds | src/PhylogeneticLoader.cpp:622-670 | `read` of the file text succeeds, under either end rule, exactly when the first `n` data lines of the chunks it sees exist and are all accepted |
| Reading.ReadFileYields | src/PhylogeneticLoader.cpp:622-670 | when the failed read ends the input, the Taxa read are the decodings of the first `n` data lines of the text, in order |
| Reading.StaleRereadAsWritten | src/PhylogeneticLoader.cpp:633-668 | as written, the file text "\n01\n" with `n` 2 and `m` 2 yields two Taxa: its one Taxon line is read twice |
| Reading.StaleRereadIntended | src/PhylogeneticLoader.cpp:633-637 | when the failed read ends the input, the same text fails with an unexpected end of file on line 6 |
| Loader.PhylogeneticLoader.Read | src/PhylogeneticLoader.cpp:622-670 | the method's outcome is that of the line rules on the chunks the loop sees from the file text; on success the store holds the previous Taxa plus those read, with table and store consistent |
| Loader.PhylogeneticLoader.NextChunk | src/PhylogeneticLoader.cpp:633-639 | the `feof` test and the `fgets` call: the loop stops exactly when no chunk is left to see; otherwise the chunk returned is the next one seen, the rest follow from the new file state, and the file state advances |
| Loader.PhylogeneticLoader.ReadLine | src/PhylogeneticLoader.cpp:640-669 | one turn of `read`'s loop body on a chunk: a failure is the final outcome of the line rules; otherwise the remaining chunks with the updated counters yield that same final result, and the store grows by the Taxa accepted |
| Loader.PhylogeneticLoader.StoreTaxon | src/PhylogeneticLoader.cpp:661-668 | a decoded Taxon is inserted as a terminal node and the stored contents grow by it |
| Loader.MergeInto | src/PhylogeneticLoader.cpp:220-231 | the inner loop sets `action[c]` to `i` exactly for the later columns equal or complementary to column `i` |
| Loader.PhylogeneticLoader.ComputeActions | src/PhylogeneticLoader.cpp:198-232 | the action vector is -2 exactly for constant columns; a surviving column (-1) matches no earlier survivor; any other column names an earlier survivor it equals or complements |
| Reduction.KeptCount | src/PhylogeneticLoader.cpp:287-290 | the new `m`, the number of -1 actions, is the number of surviving columns |
| Reduction.KeptComplete | src/PhylogeneticLoader.cpp:234-266 | every column with action -1 survives |
| Reduction.KeptIncreasing | src/PhylogeneticLoader.cpp:234-266 | surviving columns keep their order |
| Reduction.CountsAddUp | src/PhylogeneticLoader.cpp:198-232 | dropped, surviving and merged columns together are all `m` columns |
| Reduction.NoMergeIntoDropped | src/PhylogeneticLoader.cpp:250-252 | no column's weight is incremented on behalf of a column that does not survive |
| Reduction.RestrictKeepsOrder | src/PhylogeneticLoader.cpp:196-294 | deleting the columns that `preprocess` deletes keeps two tabulated Taxa in the same `operator<` order, so distinct Taxa stay distinct |
| Reduction.DifferenceSurvives | src/PhylogeneticLoader.cpp:196-294 | the first column where two tabulated Taxa differ is neither constant nor a copy of an earlier column, so `preprocess` keeps it |
| Reduction.RestrictFirstDifference | src/PhylogeneticLoader.cpp:196-294 | a first difference in a kept column stays the first difference after the other columns are deleted, so `operator<` is kept |
| Reduction.RestrictKeepsSorted | src/PhylogeneticLoader.cpp:234-266 | the store is still sorted, and so still a valid set, after its Taxa lose the deleted columns |
| Reduction.RestrictTabulates | src/PhylogeneticLoader.cpp:234-266 | after erasing the same columns from the table and from the Taxa, the table still tabulates them |
| Reduction.MergedWeightTotal | src/PhylogeneticLoader.cpp:250-280 | starting from weights of 1, the weights left after both passes sum to `m` minus the number of constant columns |
| Reduction.WeightOutcome | src/PhylogeneticLoader.cpp:250-280 | the final weights are the old weights of the surviving columns plus the number of columns merged into each |
| Generation.ConsistentRestrict | src/PhylogeneticLoader.cpp:196-294 | `preprocess` keeps table and store describing the same Taxa over the surviving columns |
| Loader.PhylogeneticLoader.EraseColumn | src/PhylogeneticLoader.cpp:240-259 | one deletion removes the column from both bitset vectors and from every stored Taxon |
| Loader.PhylogeneticLoader.EraseColumns | src/PhylogeneticLoader.cpp:234-266 | the first pass leaves the table and the Taxa restricted to the surviving columns, and adds to each weight the number of columns merged into it |
| Loader.PhylogeneticLoader.EraseWeights | src/PhylogeneticLoader.cpp:268-280 | the second pass keeps the weights of the surviving columns only; the sum drops by the weights erased |
| Loader.PhylogeneticLoader.Reduce | src/PhylogeneticLoader.cpp:234-290 | both passes plus the new `m`: table, Taxa and weights restricted to the surviving columns, with merged weight added |
| Loader.PhylogeneticLoader.Preprocess | src/PhylogeneticLoader.cpp:196-294 | the whole of `preprocess`: valid actions, restricted table, Taxa and weights, table and store still consistent, and the weight total |
| Generation.SpawnNew | src/PhylogeneticLoader.cpp:369-388 | a flip that passes the test and is appended becomes a generated Taxon |
| Generation.SpawnedIsPairwise | src/PhylogeneticLoader.cpp:369-388 | every generated Taxon passes the full pairwise Buneman test against the Taxa present when it was added |
| Generation.ExpandedGrows | src/PhylogeneticLoader.cpp:354-391 | a Taxon expanded after row `base` stays expanded as the store and table grow: a stored flip stays stored, and a rejection keeps its point in the history |
| Generation.RejectedAtBase | src/PhylogeneticLoader.cpp:369-372 | a flip rejected at any point after row `base` fails the Buneman test against the first `base` rows |
| Generation.ExpandedMeaning | src/PhylogeneticLoader.cpp:354-391 | every one-bit flip of an expanded Taxon is stored, or fails the Buneman test against the Taxa present before `generate` |
| Generation.ExpandedEarlier | src/PhylogeneticLoader.cpp:354-391 | an expansion after a later row counts as an expansion after an earlier one |
| Generation.WitnessedEarly | src/PhylogeneticLoader.cpp:369-388 | when every row from `base` on was added by `generate`, a pair of columns that some row shows with a Taxon's values is already shown by one of the first `base` rows |
| Generation.AdmissibleAtBase | src/PhylogeneticLoader.cpp:369-388 | so a flip that passes `isBuneman` against the final table already passes against the Taxa present before `generate` |
| Generation.FinalFixedPoint | src/PhylogeneticLoader.cpp:354-417 | with every row after the first `base` latent and every stored Taxon expanded, every one-bit flip of a stored Taxon is stored or fails `isBuneman` against the final table, so another run of `generate` adds nothing |
| Generation.PendingStep | src/PhylogeneticLoader.cpp:393-417 | taking the front of the queue, expanding it and queueing what it produced keeps the worklist invariant: queued Taxa are stored, and every stored Taxon is queued or expanded after the rows `generate` started with |
| Loader.PhylogeneticLoader.TryFlip | src/PhylogeneticLoader.cpp:359-388 | the flip at `j` is added exactly when it is new and passes the test against the current table; afterwards it is stored, or rejected against rows that contain `v` and at least the first `base` rows; table and store stay consistent |
| Loader.PhylogeneticLoader.Expand | src/PhylogeneticLoader.cpp:354-391 | `expand(v)` adds only admissible one-bit flips of `v` and returns them in queue order; every flip of `v` is stored or rejected against rows that include all those present at the call; on a store already closed under the test it adds nothing |
| Loader.PhylogeneticLoader.Generate | src/PhylogeneticLoader.cpp:296-431 | the result counts the latent Taxa added; each one is an admissible flip of an earlier Taxon; at the end every stored Taxon is expanded and the store is closed under the test against the final table; started on a closed store it adds nothing and returns 0 |
| Loader.PhylogeneticLoader.SeedQueue | src/PhylogeneticLoader.cpp:316-320 | the queue starts as the stored Taxa in set order, so it holds exactly the stored Taxa |
| Edges.RowEdgesEnds | src/PhylogeneticLoader.cpp:485-504 | the inner loop for node `i` emits only edges from `i` to later nodes |
| Edges.RowEdgesSound | src/PhylogeneticLoader.cpp:485-504 | every edge that loop emits joins `i` to a later node at distance 1 and carries the weight of the differing column |
| Edges.RowEdgesComplete | src/PhylogeneticLoader.cpp:485-504 | every later node at distance 1 from `i` gets its edge |
| Edges.RowEdgesIncreasing | src/PhylogeneticLoader.cpp:485-504 | the edges of one row are strictly increasing and at most one per later node |
| Edges.EdgesEnds | src/PhylogeneticLoader.cpp:483-506 | edges from the first `i` rows start at one of the first `i` nodes |
| Edges.EdgesSound | src/PhylogeneticLoader.cpp:483-506 | every edge joins two nodes at distance 1, in store order, weighted by `weight[difference]`, with 1-based indices |
| Edges.EdgesComplete | src/PhylogeneticLoader.cpp:483-506 | every pair of nodes at distance 1 has its edge |
| Edges.EdgesIncreasing | src/PhylogeneticLoader.cpp:483-506 | the edge list is strictly increasing, so no pair appears twice and there are no self-loops |
| Edges.EdgesCount | src/PhylogeneticLoader.cpp:483-506 | the first `i` rows emit at most `i(2V-i-1)/2` edges |
| Edges.EdgesBound | src/PhylogeneticLoader.cpp:483-506 | at most `V(V-1)/2` edges in all |
| Loader.PhylogeneticLoader.Number | src/PhylogeneticLoader.cpp:435-437 | nodes are numbered 1..V in set order, nothing else changes |
| Loader.PhylogeneticLoader.ConnectRow | src/PhylogeneticLoader.cpp:485-504 | appends exactly the edges of node `i`'s row |
| Loader.PhylogeneticLoader.ConnectAll | src/PhylogeneticLoader.cpp:483-506 | appends the edges of all rows in store order |
| Loader.PhylogeneticLoader.Connect | src/PhylogeneticLoader.cpp:433-516 | numbering plus all edges; the store keeps its contents and terminal count |
| Loader.PhylogeneticLoader.Populate | src/PhylogeneticLoader.cpp:160-169 | resizing the table and reading gives the outcome of the line rules on the file text; on success the stored Taxa are those read, every node is terminal, and their number is the number of distinct Taxa read |
| Loader.PhylogeneticLoader.Prepare | src/PhylogeneticLoader.cpp:174-183 | weights of 1 and `preprocess`: the actions are valid, the new `m` counts the surviving columns, the table and the Taxa are restricted to them, the weights are the unit weights plus the merged columns with the total of `Preprocess`; `terminals` is the number of Taxa read, all terminal |
| Loader.PhylogeneticLoader.Complete | src/PhylogeneticLoader.cpp:185-189 | `generate` then `connect`: the previous rows lead and are the terminal Taxa, every later row is a latent admissible flip, every Taxon is expanded and the store is closed under the test, the nodes are numbered 1..V and the edge list is that of `connect` |
| Loader.PhylogeneticLoader.Grow | src/PhylogeneticLoader.cpp:185 | `generate` on the Taxa read: they lead the rows and are the terminal Taxa, every later row is latent, every stored Taxon is expanded after them, and the store is closed under the test against the final table |
| Loader.Generated | src/PhylogeneticLoader.cpp:296-431 | the history `generate` leaves, started from a consistent store of terminal Taxa, has the Taxa read leading the rows and making up the terminal Taxa, and a store closed under the test |
| Loader.Relabelled | src/PhylogeneticLoader.cpp:435-437 | the numbering of `connect` keeps what `generate` established |
| Loader.PhylogeneticLoader.Conclude | src/PhylogeneticLoader.cpp:171-189 | `parse` after `read`: from the table `read` built, the loaded state of `Loaded`, with `terminals` the number of Taxa read |
| Loader.PhylogeneticLoader.Finish | src/PhylogeneticLoader.cpp:185-189 | `generate` and `connect` after `preprocess`: the state of `Complete`, and, when the rows are the Taxa read reduced by `preprocess`, the rest of the loaded state of `Loaded` |
| Loader.Concluded | src/PhylogeneticLoader.cpp:171-189 | what `preprocess`, then `generate` and `connect`, leave is settled: the reduced Taxa read lead the final rows, with the weights and actions of `preprocess` |
| Loader.PhylogeneticLoader.Load | src/PhylogeneticLoader.cpp:160-189 | the part of `parse` after the marker check succeeds exactly when `read` of the file text does; success leaves the state of `Loaded`: the surviving columns with their weights, the distinct Taxa read cut down to them as terminals leading the rows, every later row latent, every Taxon expanded, the store closed under the test, and the edges of `connect` |
| Loader.PhylogeneticLoader.Parse | src/PhylogeneticLoader.cpp:120-194 | `k != 2` fails as non-binary with nothing loaded; otherwise the outcome is that of `read` of the file text, and success leaves the state of `Loaded` over the distinct Taxa read |
| ConvertFasta.Find | src/ConvertFASTA.cpp:20-23 | `find` returns the first position at or after `from` holding `c`, or `npos` when there is none |
| ConvertFasta.Substr | src/ConvertFASTA.cpp:21-23 | `substr` throws `out_of_range` exactly when `pos > size()`; otherwise it is the slice from `pos` of length at most `n`, reaching the end when shorter |
| ConvertFasta.ParseIdentifier | src/ConvertFASTA.cpp:18-26 | an empty header line throws |
| ConvertFasta.IdentifierTotal | src/ConvertFASTA.cpp:18-26 | on lines shorter than 2^31 characters, `parse_identifier` throws exactly when the line is empty |
| ConvertFasta.HeaderFields | src/ConvertFASTA.cpp:18-26 | with bars at `p` and `q` and the first space at `d`, the fields are the text between '>' and the first bar, the text between the two bars, and the text after the first space |
| ConvertFasta.NoBarFields | src/ConvertFASTA.cpp:20-23 | without a '\|', `i` is -2: the id is the line after its first character and the number is the whole line |
| ConvertFasta.OffsetAt | src/ConvertFASTA.cpp:20 | `i` is one less than the first bar's position |
| ConvertFasta.OffsetNone | src/ConvertFASTA.cpp:20 | `npos - 1` converted to `int` is -2 |
| ConvertFasta.NumAt | src/ConvertFASTA.cpp:22 | the number is the text between the first bar and the next bar or the end |
| ConvertFasta.DescAt | src/ConvertFASTA.cpp:23 | the description is the text after the first space, or the whole line when there is no space |
| ConvertFasta.Code | src/ConvertFASTA.cpp:33-50 | each nucleotide becomes four bit characters |
| ConvertFasta.Encode | src/ConvertFASTA.cpp:31-52 | the encoding of a line has four characters per input character |
| ConvertFasta.EncodeBits | src/ConvertFASTA.cpp:33-50 | the encoding consists of '0' and '1' only |
| ConvertFasta.ParseLine | src/ConvertFASTA.cpp:28-55 | `parse_line` appends the encoding of the line to `out` and returns the number of characters |
| ConvertFasta.EncodeConcat | src/ConvertFASTA.cpp:31-52 | encoding is a homomorphism over concatenation |
| ConvertFasta.EncodeBlock | src/ConvertFASTA.cpp:31-52 | character `i` is encoded at positions `4i` to `4i+3` |
| ConvertFasta.DecodeEncode | src/ConvertFASTA.cpp:33-50 | decoding an encoding recovers the line with every character other than T, G, C read as A |
| ConvertFasta.EncodeNormalize | src/ConvertFASTA.cpp:44-49 | A and every unknown character encode alike |
| ConvertFasta.EncodeSame | src/ConvertFASTA.cpp:33-50 | two lines encode alike exactly when they agree after reading unknown characters as A |
| ConvertFasta.ZerosBits | src/ConvertFASTA.cpp:104-107 | the padding contains '0' characters only |
| ConvertFasta.Padding | src/ConvertFASTA.cpp:100-108 | a record of `t < 16578` nucleotides is padded with `4(16578 - t)` characters, a longer one not at all |
| ConvertFasta.Pad | src/ConvertFASTA.cpp:100-108 | the padding loop appends exactly the padding |
| ConvertFasta.RecordsCover | src/ConvertFASTA.cpp:94-122 | the lines after the first split into one record more than there are header lines, and the records together are all the sequence lines |
| ConvertFasta.RecordsCount | src/ConvertFASTA.cpp:94-122 | every header line closes exactly one record: the closed records number the header lines |
| ConvertFasta.RecordsJoin | src/ConvertFASTA.cpp:94-122 | the closed records, then the open one, joined are the sequence lines in their order |
| ConvertFasta.RenderedShape | src/ConvertFASTA.cpp:98-137 | each output line has `4·max(t, 16578)` bit characters followed by a newline, and begins with the encoding of its record |
| ConvertFasta.MaxLenIsMax | src/ConvertFASTA.cpp:109-135 | `max_len` is at least every record's length and equal to one of them |
| ConvertFasta.HeaderStep | src/ConvertFASTA.cpp:98-117 | a header line closes the current record: padding, newline, `max_len` update, `t` reset |
| ConvertFasta.SequenceStep | src/ConvertFASTA.cpp:118-121 | a sequence line appends its encoding to the current record |
| ConvertFasta.ConvertLine | src/ConvertFASTA.cpp:96-121 | one turn of the loop keeps the output equal to the rendering of the records so far |
| ConvertFasta.ConvertRecords | src/ConvertFASTA.cpp:90-137 | the output is the rendering of every record and `max_len` is the longest record's length |
| ConvertFasta.Convert | src/ConvertFASTA.cpp:74-140 | a first line without '>' is refused; otherwise the output file is named `id-num.txt` from the parsed header, and its contents and `max_len` are those of the records after it |

## Left out

- The thread pool, the locks and the condition variables of `generate` and `connect`. The model runs sequentially, one task at a time in queue order. The race between the `count` check and the insert under separate locks is not modelled. Two results of the concurrent code differ from the sequential run:
  - With an empty store (`n` = 0) the queue starts empty. The driver then waits on `locks.empty` (src/PhylogeneticLoader.cpp:399-401) and no task exists to notify it, so `generate` never returns. The model's `Generate` returns 0.
  - `p.queued()` (src/PhylogeneticLoader.cpp:402) counts only tasks no worker has taken yet. The driver can stop while a running task is still pushing flips, and those are then never expanded. The closure the model proves holds only for the sequential run.
- The progress threads, `printf` reporting, timers and `write_timer`. They produce output only.
- `write` and `writemap`, which serialize the result to the STP and map files. They are output formats over the state the model computes.
- `main` of the loader: option handling and file names.
- The file I/O of `parse`: `fopen` failures and the `fscanf` of `n`, `m` and `k`. The three numbers are parameters of `Parse`, and the file after them is a string.
- `Taxon::resize`, `hash`, `operator[]` and `at`. `resize` only reallocates, `hash` is unused by the core, and the accessors are sequence indexing.
- Aliasing of the `shared_ptr<Taxon>` values shared between the store, the queue and the edges. Nodes are values, and edges hold 1-based indices instead of pointers.
- The `pow` estimates that `parse` prints. They are floating point output only.
- Loader.PhylogeneticLoader.Parse: requires a freshly constructed loader (empty store, table and edges). The model does not cover calling `parse` twice on one object.
- Loader.PhylogeneticLoader.Generate: returns the number of generated Taxa instead of printing it.
- Loader.PhylogeneticLoader.Store: does not model `insert`'s returned iterator; only the inserted flag is used by the code.
- Loader.PhylogeneticLoader.EraseWeights: requires every action to be at least -2. `ComputeActions` guarantees this, and the code relies on it without checking.
- Loader.PhylogeneticLoader.Reduce: requires the actions to be those of the first loop (each points back to a surviving column). `ComputeActions` guarantees this.
- Loader.PhylogeneticLoader.Generate: a rejection is placed at some point of the history after the start of `generate` and after its Taxon was stored, not at the exact moment of the test. `Generation.FinalFixedPoint` proves from it that the final store is closed under the test. It does not prove that the final store is the least set closed under the test: which flips pass depends on the Taxa already stored, and the model states no definition of that least set to compare against.
- `main` of `ConvertFASTA`: the argument count check, the failure to open the input or the output file, and the printing to `cout`. The input file is a sequence of lines (what successive `getline` calls return). The output file's contents are a string.
- ConvertFasta.ParseLine: `count` is an unbounded integer. The C++ `int` could wrap for a line of more than 2^31 characters.
- ConvertFasta.IdentifierTotal: assumes header lines shorter than 2^31 characters, so that `int i` holds the bar position exactly. `ParseIdentifier` itself models the 32-bit conversion for every length.
- ConvertFasta.Convert: an empty line is not a header, since its `s[0]` is the terminating NUL. A trailing `\r` from CRLF files is encoded as an unknown nucleotide, as in the code.

## Findings

| source | as written | input that shows it | evidently intended | confidence | as-written member | corrected member |
|---|---|---|---|---|---|---|
| src/PhylogeneticLoader.cpp:640-659 | `len = strlen(taxon)` counts the `\n` that `fgets` keeps, so `len < m` lets a line one character short (two with `\r\n`) through to the bitstring constructor, which throws `out_of_range` on the newline | the file text "\n01\n" after `k`, with `n` = 1 and `m` = 3 | the check measures the Taxon's own characters, and reports "Unexpected length of taxon, length: 2, line: 5" | not executed | Reading.ShortLineAsWritten | Reading.ShortLineIntended |
| src/PhylogeneticLoader.cpp:633-640 | `feof` is checked before `fgets`; when the file ends in a newline, the last `fgets` returns NULL and leaves the buffer unchanged, and the loop body processes the last Taxon line a second time | the file text "\n01\n" after `k`, with `n` = 2 and `m` = 2 | the failed `fgets` ends the input, and "Unexpected end of file, line: 6" is reported | not executed | Reading.StaleRereadAsWritten | Reading.StaleRereadIntended |

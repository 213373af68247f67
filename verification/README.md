# lucivy: verified core

A Dafny model of the parts of lucivy whose correctness is hard to see from the code: the DAG
scheduler and executor of `luciole`, the bit packing of `bitpacker`, the bit sets and codecs of
`common`, the CRC-32C tables of `lucivy-fst`, the sorted tables of `sstable`, and the smaller state
machines on top of them.
`dafny verify dfyconfig.toml` checks the whole project.

## What is proved

**Graphs and their execution.** `Graphs` defines walks, cycles and longest-walk levels on node
indices. `Dags` models `Dag`: every operation keeps the edges resolvable, and Kahn's algorithm is
exact, that is, it reports a cycle if and only if one exists and otherwise puts every node at the
length of the longest walk that reaches it, in the order in which the nodes become ready. `FanOut` shows that wiring workers into a merge node
keeps all old levels, also when it stops half way. `Dataflow` states what an execution should
compute: each node's outputs follow from the values that reach its inputs, and an acyclic graph
has exactly one solution. `PortTables` and `DagExecution` model the executor, which runs a level
either node by node or as parallel tasks that all read before any publishes, and drops a value as
soon as its last consumer has read it. Every run gives what evaluating the nodes one after the
other in level order gives: the solution of the equations and exactly the values some consumer has
not read, or the error of the first node in that order that fails. Parallel and sequential
execution get equally far exactly when every task that is reached has its triggers, and then return
the same result, errors included. `ConsumerReads` gives the exact condition under which the consumer
counts last. `MergeRuns` adds that an executed merge node sees every worker's output once, in worker
order.

**Packed numbers.** `Bits` treats machine words as natural numbers and defines shifts, masks and
the bitwise operators by halving; `Bits.ShiftMeaning`, `BitOr`, `BitAnd` and `BitXor` tie them to
multiplication by powers of two and to single bits. A packed byte buffer is read as one
little-endian number, so that field `i` is `(N / 2^(i*b)) mod 2^b`. `BitPacking` proves the writer
and both read paths against that, `RangeScan` the three-phase batch decoder and the range scans,
`BlockedPacking` the growable block-compressed array, including what a read returns at an index
where no value was added, and `BlockedShapes` which block lengths can be read back.

**Sets, codecs, checksums.** `WordSets`, `BitSets` and `ReadOnlyBitSets` relate word arrays,
cached cardinalities and serialized bytes to mathematical sets. `VInts` proves the unrolled 32-bit
varint encoder equal to the generic loop and both decoders inverse to it. `Serialization` proves
every nesting of vectors, pairs, strings and integers uniquely decodable, and that whatever bytes
decoding accepts, it returns a value of the type and reads no fewer bytes than its encoding has;
`Utf8` proves that strings are exactly the encodings of sequences of Unicode scalar values.
`Crc` proves the 16-way tables and the 16-bytes-at-a-time checksum equal to a bit-at-a-time shift
register (CRC32C of section 12.1 of RFC 3720).

**State machines.** `Checkpoints` gives the exact condition under which replaying the text log
agrees with the in-memory store at every point of a run. `GroupBy` covers every interleaving of
the iterators that share a cursor. `BlockAccess` covers the column block cache. `SortedTables`
models tables of sorted keys: a writer that stores each key as a change to the one before it and
puts a short separator behind each block, and a search that finds a key's ordinal from the
separators and the changes without rebuilding any key. `Dictionaries` uses them for the dictionary
remapping.

## Where the code does less than it promises

- `BitSet::clear` empties the words but keeps `len`: the set stays well-formed exactly when it was
  already empty (`BitSets.BitSet.Clear`).
- `BitSet::insert` accepts numbers in the padding of the last word, after which the set holds bits
  above its bound (`BitSets.BitSet.Insert`). `BitSet::intersect_update` with fewer words keeps the
  words behind them but does not count them, so the size stays right exactly when no element lies
  there (`BitSets.BitSet.IntersectUpdate`).
- A partial `BlockedBitpacker::flush` followed by more values breaks indexing. Every index reads the
  value added there, whatever the values are, exactly when only the last block is short and nothing
  is buffered behind it (`BlockedShapes.ReadsAgreeIffAligned`). Behind a short block some values are
  misread, and others come out right by chance: after `add(x); flush(); add(y)`, reading index 1 gives
  `x` (`BlockedShapes.FlushThenAdd`).
- The text log differs from memory when a node name contains a colon, when a name or an error
  contains a newline, or when a DAG's first record is about the whole DAG. If node types have no
  newline and no text ends in a carriage return, these are the only cases (`Checkpoints.StoresAgree`,
  with `ColonDiverges`, `NewlineDiverges` and `UnopenedDagDiverges` as instances).
- `find_missing_docs` returns "all docs that are not in `hits`" exactly when no document occurs
  more often than its hits (`BlockAccess.ReportedAsDocumented`).
- Dictionary ids are 32-bit: numbering stays dense exactly up to 2^32 terms
  (`Dictionaries.DictionaryBuilder.GetOrAllocateId`).
- Two nodes of one name share the consumer counts. In any order of the nodes, no count goes below
  zero exactly when every name that an edge leads to belongs to one node only
  (`ConsumerReads.CountsLast`, with `ConsumerReads.TwinStarves` as an instance); execution is proved
  for unique names.
- A node without its required trigger is skipped when its level runs as parallel tasks and executed
  when it runs inline. Both ways get equally far exactly when no such node is reached before a
  failure (`DagExecution.ParallelMatchesSequential`, with `Dataflow.GateSkips` as an instance).
- The table writer is documented to panic on keys out of order. It accepts one case: an empty key
  behind an empty key of the same block (`SortedTables.OnlyEmptyKeyRepeats`, with `SortedTables.InsertEmptyTwice` as an instance).
- The comment above the entrance ramp of the batch decoder says "closest multiple" of eight; on an
  aligned start the ramp is a full eight values. The result is not affected (`RangeScan.HighwayStart`).
- A group iterator that is kept while a later one is drained can take items of a later run with its
  key (`GroupBy.OldGroupStillDraws`). Every group draws only from the run it was opened on exactly when
  no group is drawn from once an item of another key has been drawn since it was opened
  (`GroupBy.GroupsStay`), and every group draws from one run exactly when none is drawn from once an
  item of another key has been drawn since its first draw (`GroupBy.DrawsShareRun`). Calling only the
  group opened last is enough (`GroupBy.LatestInRun`).

## Model

| member | source | states |
|---|---|---|
| `Dags.Dag.AddNode` | luciole/src/dag.rs:89-94 | appends the node, leaves the edges, and keeps every edge resolvable |
| `Dags.Dag.Connect` | luciole/src/dag.rs:127-168 | adds the edge exactly when both nodes and ports exist and the port types are compatible, checked in that order; a rejected edge changes nothing |
| `Dags.TypeAnswers` | luciole/src/dag.rs:127-168 | between the first ports of the first nodes of these names, an edge is made if and only if the two types are equal or one of them is `Any` |
| `Dags.EdgeAnswers` | luciole/src/dag.rs:134-137 | a missing source node is reported before a missing target node |
| `Dags.PortAnswers` | luciole/src/dag.rs:138-146 | a missing output port is reported before a missing input port |
| `Dags.Dag.Chain` | luciole/src/dag.rs:266-271 | connects consecutive names through trigger ports, or stops at the first edge that is refused and keeps the ones before it |
| `Dags.BuildAdjacency` | luciole/src/dag.rs:182-201 | fails exactly on edges with an unknown name; otherwise in-degrees count distinct predecessors, however many ports connect two nodes |
| `Dags.Release` | luciole/src/dag.rs:212-220 | a finished node takes one unit from each dependent without underflow, and exactly those that reach zero become ready |
| `Dags.KahnLevels` | luciole/src/dag.rs:203-223 | visits all nodes exactly when the graph has no cycle, and then the levels are the longest-walk layering; the first level is in order of insertion and every other one in the order its nodes become ready |
| `Dags.Dag.TopologicalLevels` | luciole/src/dag.rs:176-230 | for graphs built by the operations: an error if and only if there is a cycle, never an unknown node; on success every node once, in the level given by its longest incoming walk, and in that order inside it |
| `Dags.Dag.Validate` | luciole/src/dag.rs:233-255 | succeeds exactly on acyclic graphs whose required inputs are all connected; the error names a required input that is not |
| `Graphs.StuckIsCyclic` | luciole/src/dag.rs:225-227 | if every remaining node waits for another one, the graph has a cycle (pigeonhole on a backward walk) |
| `Graphs.LevelIsDepth` | luciole/src/dag.rs:203-223 | in a layering where every node past the first level has a predecessor in the level just before, the level is the length of the longest walk |
| `FanOut.NamesDistinct` | luciole/src/fan_out.rs:105-121 | generated worker names, merge name and merge ports never collide |
| `FanOut.DecimalSpells` | luciole/src/fan_out.rs:105-121 | the numbers in generated names are decimal, without leading zeros |
| `FanOut.FanOutMerge` | luciole/src/fan_out.rs:95-128 | on fresh names: workers `prefix_0`, `prefix_1` and so on, then `prefix_merge` with one optional input `in_i` per worker and a `merged` output of the merged type; succeeds exactly when every worker has a compatible output port; even after a failure part way worker `i` is wired to `in_i` for the ones before it, the graph is cyclic only if it was, old nodes keep their level, workers are in the first level and the merge in the next; the merged output can be connected to every port that takes its type |
| `FanOut.MergedConnects` | luciole/src/fan_out.rs:61-63 | `connect` accepts an edge from the merged output to any port of an old node that takes its type |
| `FanOut.WiringFansOut` | luciole/src/fan_out.rs:114-125 | the same for any number of wired workers: acyclicity and old levels are unchanged |
| `PortTables.ConsumerCounts` | luciole/src/runtime.rs:268-274 | the count of an output port is the number of edges leaving it |
| `PortTables.TakeDirect` | luciole/src/runtime.rs:942-953 | a node takes exactly its preset values on ports that no edge feeds |
| `PortTables.ReadEdges` | luciole/src/runtime.rs:956-972 | reading with removal by the last consumer gives the same inputs as reading a table nothing is removed from, and no count underflows |
| `PortTables.CollectInputs` | luciole/src/runtime.rs:933-974 | both steps together: the inputs, the counts and the table afterwards |
| `PortTables.EnoughLeft` | luciole/src/runtime.rs:961-962 | at every point of a run the counts cover all reads still to come, so the decrement never underflows |
| `PortTables.InputsRead` | luciole/src/runtime.rs:933-974 | the inputs collected from the shrinking table are those of the dataflow equations |
| `PortTables.CollectStep` | luciole/src/runtime.rs:933-974 | collecting keeps the table invariant: a value is there until its last consumer has read it |
| `PortTables.PublishStep` | luciole/src/runtime.rs:700-710 | publishing outputs keeps the table invariant |
| `Dataflow.PresetsOnly` | luciole/src/runtime.rs:942-953 | a node that no edge enters gets exactly its preset values |
| `Dataflow.EdgeDelivers` | luciole/src/runtime.rs:956-972 | the last edge into a port hands it what its source has put out |
| `Dataflow.SilentPort` | luciole/src/runtime.rs:956-972 | a port whose sources have run without output there gets nothing |
| `ConsumerReads.CountsLast` | luciole/src/runtime.rs:268-274 | for reads in any order that includes every edge target: no count goes below zero if and only if every edge target is the name of exactly one node |
| `ConsumerReads.CollectAll` | luciole/src/runtime.rs:933-974 | then all nodes collect their inputs and every count ends at zero |
| `ConsumerReads.TwinStarves` | luciole/src/runtime.rs:955-963 | an instance: where all edges of a port lead to one name, the second node of that name would take the count below zero |
| `Dataflow.SolutionUnique` | luciole/src/runtime.rs:260-378 | the equations of an acyclic graph have one solution, so the outcome does not depend on the order in which ready nodes run |
| `Dataflow.SolutionIsEval` | luciole/src/runtime.rs:291-340 | evaluating the nodes one after the other, in any order where sources come first, gives the solution of the equations |
| `Dataflow.GatesMatter` | luciole/src/runtime.rs:765-790 | skipping tasks without triggers gives the same outcome as running everything if and only if, in the latter, every node of a parallel level has its required triggers |
| `Dataflow.GateSkips` | luciole/src/runtime.rs:765-790 | an instance where the two outcomes differ |
| `Dataflow.SilentEdgeSkips` | luciole/src/runtime.rs:765-790 | the same with an edge to the trigger that carries no value |
| `Dataflow.EvalAgrees` | luciole/src/runtime.rs:765-790 | two choices of nodes that may be skipped get equally far, including the node that fails and its error, if and only if no node that is reached without its triggers may be skipped under one choice only |
| `Dataflow.GatingIsInvisible` | luciole/src/runtime.rs:765-790 | skipping changes nothing if and only if every node that may be skipped and is reached has its triggers |
| `DagExecution.TriggerUnsatisfied` | luciole/src/runtime.rs:765-776 | holds exactly when some required trigger port has no incoming edge whose source has a value in the table |
| `DagExecution.ExecuteNode` | luciole/src/runtime.rs:659-735 | runs a node on its equation inputs and publishes its outputs, or reports its error |
| `DagExecution.TakeLevel` | luciole/src/runtime.rs:762-797 | every task of a level gets its equation inputs or is skipped, although values disappear while the level reads |
| `DagExecution.PublishLevel` | luciole/src/runtime.rs:840-892 | all tasks are received; the failure reported is the first in level order, on its equation inputs and with the tasks before it published; without one every task's outputs are published |
| `DagExecution.RunParallel` | luciole/src/runtime.rs:749-892 | a parallel level leaves the run where the equations are solved for its nodes too, or for the nodes before the first that fails |
| `DagExecution.LevelFollows` | luciole/src/runtime.rs:291-340 | no node of a level depends on another one of it, and all sources lie in earlier levels |
| `DagExecution.PlanOf` | luciole/src/runtime.rs:276-278 | what is executed: the graph's edges, the preset values, the behaviour, and for each node the input ports it declares |
| `DagExecution.ExecuteDag` | luciole/src/runtime.rs:260-378 | on the graph's edges, the preset values and the declared ports, for every choice of levels to run inline: fails on exactly the cyclic graphs before running anything; otherwise the levels are the longest-walk layering, a node may be skipped exactly when its level is not run inline and has several nodes, and the result is that of evaluating all nodes in level order, skipping exactly those without triggers: the values not consumed of the solution, or the error of the first node in that order that fails |
| `DagExecution.ExecuteSequential` | luciole/src/runtime.rs:391-437 | the same with no node skipped |
| `DagExecution.OutputsLeft` | luciole/src/runtime.rs:360-378 | an output that no edge takes is handed out, one whose consumers have all run is not |
| `DagExecution.ExecuteSingle` | luciole/src/runtime.rs:391-437 | a graph of one node runs it on its preset values and hands out its outputs in their place, or reports its error |
| `DagExecution.ParallelMatchesSequential` | luciole/src/runtime.rs:260-437 | on the same levels the two executors get equally far if and only if every task that is reached has its triggers, and then return the same values or the same error |
| `DagExecution.ChoicesMatch` | luciole/src/runtime.rs:291-340 | the same for any two choices of levels to run inline |
| `DagExecution.ExecuteBothWays` | luciole/src/runtime.rs:260-437 | runs both executors on one graph: with every reached task triggered their results are equal, errors included |
| `MergeRuns.MergeNode.Execute` | luciole/src/fan_out.rs:65-83 | merges the items of the inputs once, outputs `merged` and nothing else, and fails on a second execution |
| `MergeRuns.ItemsInPortOrder` | luciole/src/fan_out.rs:69-77 | the items merged are those of exactly the ports that have a value of the type, from the lowest port to the highest |
| `MergeRuns.AllItems` | luciole/src/fan_out.rs:69-77 | with a value on every port, item `i` is the one of port `in_i` |
| `MergeRuns.PortReceives` | luciole/src/fan_out.rs:114-125 | after a run, merge port `in_i` holds exactly what worker `i` put on its output port |
| `MergeRuns.MergeSeesWorkers` | luciole/src/fan_out.rs:65-83 | after a run the merged items are those of exactly the workers that put out a value of the type, from the first worker to the last |
| `MergeRuns.OutputsDeclared` | luciole/src/fan_out.rs:61-81 | what the merge node outputs is a port of the node found under its name |
| `BitPacking.BitPacker.Write` | bitpacker/src/bitpacker.rs:25-47 | appends the value at the next bit position of the stream, across word boundaries, and never rewrites emitted bytes |
| `BitPacking.BitPacker.Flush` | bitpacker/src/bitpacker.rs:49-58 | emits the remaining bits: the output has ceil(bits / 8) bytes and spells the whole stream |
| `BitPacking.Pack` | bitpacker/src/bitpacker.rs:25-58 | writing n values of b bits and flushing appends exactly ceil(n*b/8) bytes that spell the packed number |
| `BitPacking.NewBitUnpacker` | bitpacker/src/bitpacker.rs:78-89 | builds a reader for widths 0..56 and 64 with the mask of that width |
| `BitPacking.BitUnpacker.Get` | bitpacker/src/bitpacker.rs:96-111 | both the 8-byte read and the zero-padded slow path return field `idx` of the little-endian number |
| `BitPacking.FastPathIsField` | bitpacker/src/bitpacker.rs:103-110 | eight bytes always contain a whole field of an allowed width |
| `BitPacking.SlowPathIsField` | bitpacker/src/bitpacker.rs:114-123 | zero-padding the tail does not change the field |
| `BitPacking.RoundTrip` | bitpacker/src/bitpacker.rs:25-123 | every packed value is read back, alone or with arbitrary bytes behind it |
| `RangeScan.HighwayStart` | bitpacker/src/bitpacker.rs:163-164 | the block part starts at a multiple of 8 in (start, start + 8] |
| `RangeScan.GetBatchU32s` | bitpacker/src/bitpacker.rs:131-194 | entrance ramp, 32-value blocks and exit ramp together fill the output with the pointwise reads, all slices in bounds |
| `RangeScan.FilterVecInPlace` | bitpacker/src/filter_vec/scalar.rs:3-13 | overwriting in place keeps exactly the ids whose value is in the range |
| `RangeScan.MatchingIsExact` | bitpacker/src/bitpacker.rs:196-243 | the scan result is strictly ascending and holds exactly the ids whose value is in the range |
| `RangeScan.IdsSlow` | bitpacker/src/bitpacker.rs:215-231 | the value-by-value scan computes that list |
| `RangeScan.IdsFast` | bitpacker/src/bitpacker.rs:233-243 | decoding in a batch and filtering in place computes the same list |
| `RangeScan.GetIdsForValueRange` | bitpacker/src/bitpacker.rs:196-213 | on either path: strictly ascending, exactly the ids in the id range whose value is in the value range, also for empty ranges and ranges beyond 32 bits |
| `RangeScan.PackThenScan` | bitpacker/src/bitpacker.rs:196-213 | packing values and scanning for a range gives, ascending, exactly the ids in the id range whose value is in it |
| `BlockedPacking.NumBitsIsLeast` | bitpacker/src/lib.rs:34-37 | the least width the reader allows that holds the number |
| `BlockedPacking.MinMax` | bitpacker/src/lib.rs:48-69 | returns members of the input that bound it, and nothing exactly for empty input |
| `BlockedPacking.MetadataRoundTrip` | bitpacker/src/blocked_bitpacker.rs:35-52 | offset in the low 56 bits and width above them are read back for every offset below 2^56 |
| `BlockedPacking.CompressBlock` | bitpacker/src/blocked_bitpacker.rs:90-124 | replaces the padding by the packed block and eight zero bytes; earlier bytes stay, the block can be read at its offset, the base is the minimum and the width the least that holds the range |
| `BlockedPacking.BlockedBitpacker.Add` | bitpacker/src/blocked_bitpacker.rs:83-88 | appends the value to the contents, across block boundaries |
| `BlockedPacking.BlockedBitpacker.Flush` | bitpacker/src/blocked_bitpacker.rs:90-124 | keeps the contents; blocks stay full exactly when the buffer held a whole block or nothing |
| `BlockedPacking.BlockedBitpacker.Get` | bitpacker/src/blocked_bitpacker.rs:126-138 | at any index: what the stored bytes and metadata give there, nothing where the source panics, and the added value where one is addressed |
| `BlockedPacking.ReadInBlock` | bitpacker/src/blocked_bitpacker.rs:126-135 | at any index of a block: the field at its position plus the base, wherever that lies, or a panic |
| `BlockedPacking.ReadBehind` | bitpacker/src/blocked_bitpacker.rs:135-137 | behind the blocks: the buffered value at the position within a block, or a panic |
| `BlockedPacking.BlockedBitpacker.ReadsWholeWords` | bitpacker/src/blocked_bitpacker.rs:126-138 | thanks to the padding no block read takes the slow path |
| `BlockedShapes.ReadsAgreeIffAligned` | bitpacker/src/blocked_bitpacker.rs:126-138 | for block lengths and a buffer length: every read agrees with the added values, for all values of those lengths and however they are stored, if and only if only the last block may be short with nothing buffered behind it |
| `BlockedShapes.TelltaleMisread` | bitpacker/src/blocked_bitpacker.rs:126-138 | zeros up to a short block and a one behind it are misread |
| `BlockedShapes.Build` | bitpacker/src/blocked_bitpacker.rs:83-124 | adds and flushes reach every combination of block lengths and buffer length |
| `BlockedShapes.FlushThenAdd` | bitpacker/src/blocked_bitpacker.rs:83-138 | after adding a value, flushing and adding another, index 1 reads the first |
| `BlockedPacking.BlockedBitpacker.Iter` | bitpacker/src/blocked_bitpacker.rs:140-147 | lists all added values in order if and only if all blocks are full |
| `WordSets.PopcountIsCardinality` | common/src/bitset.rs:83-85 | the population count is the number of members |
| `WordSets.TinyContainsIsBit` | common/src/bitset.rs:77-79 | membership by masking is the bit at that position |
| `WordSets.PopLowest` | common/src/bitset.rs:151-159 | returns the least member and removes exactly it, or nothing exactly for the empty set |
| `BitSets.BitSet.WithMaxValue` | common/src/bitset.rs:210-218 | the empty set |
| `BitSets.BitSet.WithMaxValueAndFull` | common/src/bitset.rs:222-236 | all elements below the bound, padding bits zero |
| `BitSets.BitSet.Insert` | common/src/bitset.rs:267-272 | for any element of the words: adds exactly that bit and keeps `len` the number of set bits; padding stays zero if and only if the element is below the bound |
| `BitSets.BitSet.Remove` | common/src/bitset.rs:276-281 | for any element of the words: removes exactly that bit and keeps `len` the number of set bits, and padding zero |
| `BitSets.BitSet.Contains` | common/src/bitset.rs:285-287 | decides whether the bit is set, that is, membership below the bound |
| `BitSets.BitSet.LenIsCardinality` | common/src/bitset.rs:261-263 | the cached length is the cardinality after every run of operations |
| `BitSets.BitSet.IntersectUpdate` | common/src/bitset.rs:246-257 | keeps the elements that the other side has or has no word for; the cached size is right if and only if there are none of the latter |
| `BitSets.BitSet.Clear` | common/src/bitset.rs:239-243 | membership becomes empty, `len` is kept, so the invariant holds exactly if the set was empty |
| `BitSets.BitSet.Serialize` | common/src/bitset.rs:199-206 | the bound as four bytes, then the words in little-endian order |
| `ReadOnlyBitSets.ReadOnlyBitSet.ContainsIsMember` | common/src/bitset.rs:379-384 | the bytewise test decides membership of the wordwise set |
| `ReadOnlyBitSets.Len` | common/src/bitset.rs:349-353 | counts the elements |
| `ReadOnlyBitSets.Iter` | common/src/bitset.rs:365-375 | lists exactly the elements below the bound, strictly ascending |
| `ReadOnlyBitSets.IntersectBitsets` | common/src/bitset.rs:322-337 | is set intersection |
| `ReadOnlyBitSets.SerializeThenOpen` | common/src/bitset.rs:199-206 | opening a serialized set gives the same set with the same cardinality and membership answers |
| `VInts.SerializeInto` | common/src/vint.rs:177-190 | writes the stop-bit encoding and touches nothing behind it |
| `VInts.SerializeVIntU128` | common/src/vint.rs:7-18 | appends the same encoding for numbers of any size |
| `VInts.SerializeVIntU32` | common/src/vint.rs:64-112 | the unrolled encoder emits byte for byte what the generic loop emits |
| `VInts.EncodeDigit` | common/src/vint.rs:177-190 | byte `i` is the 7-bit digit `i` of the number, and only the last byte has the stop bit |
| `VInts.EncodeIsShortest` | common/src/vint.rs:64-112 | no bytes that decode to the value are fewer than its encoding |
| `VInts.Deserialize` | common/src/vint.rs:201-223 | value, missing stop byte and shift overflow, each exactly when the bytes say so |
| `VInts.RoundTrip` | common/src/vint.rs:177-223 | decoding inverts encoding and leaves the following bytes |
| `VInts.VIntLen` | common/src/vint.rs:123-130 | the position of the stop byte among the first five, or a panic |
| `VInts.ReadU32VInt` | common/src/vint.rs:139-154 | returns the low 32 bits of the payload and the bytes after it |
| `VInts.ReadU32Inverts` | common/src/vint.rs:139-154 | the 32-bit reader inverts the encoder |
| `Serialization.Serialize` | common/src/serialize.rs:62-287 | appends the encoding of the value |
| `Serialization.Deserialize` | common/src/serialize.rs:62-287 | the reader-advancing loops compute the decoding function, including every failure and the panic on an overlong number |
| `Serialization.RoundTrip` | common/src/serialize.rs:75-102 | for every nesting: decoding returns the value and consumes exactly its bytes, whatever follows |
| `Serialization.TextRoundTrip` | common/src/serialize.rs:236-251 | every text of scalar values comes back, whatever follows it |
| `Serialization.CutShort` | common/src/serialize.rs:243-250 | a text cut short by the end of the input is accepted if what is there is text; a byte string is not |
| `Serialization.SignedBytes` | common/src/serialize.rs:176-187 | a signed number is written as its residue modulo 2^64, low byte first |
| `Serialization.SignedMeans` | common/src/serialize.rs:176-187 | and read as the number in range with that residue |
| `Serialization.BoolMeans` | common/src/serialize.rs:215-230 | truth values are the bytes 1 and 0, and nothing else is accepted |
| `Serialization.KnownPair` | common/src/serialize.rs:94-107 | an example: the first of a pair comes first, low byte first |
| `Serialization.KnownItems` | common/src/serialize.rs:75-92 | an example: the count comes before the elements, from the first |
| `Serialization.KnownText` | common/src/serialize.rs:236-251 | an example: a text of one two-byte character |
| `Serialization.UniquelyDecodable` | common/src/serialize.rs:75-102 | concatenated streams split in one way only |
| `Serialization.DecodeSound` | common/src/serialize.rs:62-287 | whatever bytes are accepted, the value has the type, what is left is a suffix, and no fewer bytes were read than its encoding has |
| `Serialization.FixedSize` | common/src/serialize.rs:56-60 | types with a declared size encode to exactly that many bytes |
| `Utf8.ValidIffEncoded` | common/src/serialize.rs:243-250 | the bytes accepted as text are exactly the UTF-8 encodings of sequences of Unicode scalar values |
| `Utf8.TextUnique` | common/src/serialize.rs:243-250 | different texts have different encodings |
| `Crc.TableStep` | lucivy-fst/build.rs:97-108 | one table step equals eight clocks of the shift register on any state |
| `Crc.StepBits` | lucivy-fst/build.rs:114-119 | one clock moves every bit one place down and, when a one falls out, adds the polynomial bit by bit |
| `Crc.PolynomialReversed` | lucivy-fst/build.rs:110-124 | bit `i` of the constant is bit `31 - i` of the polynomial 0x1EDC6F41 of RFC 3720 |
| `Crc.MakeTable` | lucivy-fst/build.rs:110-124 | entry i is the register clocked 8 times from i |
| `Crc.MakeTable16` | lucivy-fst/build.rs:97-108 | entry [j][i] is the register clocked 8*(j+1) times from i |
| `Crc.RunIsDivision` | lucivy-fst/src/raw/crc32.rs:33-59 | feeding bytes one by one equals clocking the whole little-endian number through |
| `Crc.Crc32cSlice16` | lucivy-fst/src/raw/crc32.rs:33-59 | 16 bytes at a time plus the byte loop give the complement of: the complement of the old checksum, plus the message as one number, clocked once per message bit |
| `Crc.ChecksumIs` | lucivy-fst/src/raw/crc32.rs:33-59 | the reference checksum is that formula, with both complements |
| `Crc.ChecksumConcat` | lucivy-fst/src/raw/crc32.rs:27-29 | updating piece by piece equals the checksum of the concatenation |
| `Crc.CheckSummer.Update` | lucivy-fst/src/raw/crc32.rs:27-29 | the object holds that checksum of everything fed so far, for the constant 0x82F63B78 |
| `Crc.MaskedIs` | lucivy-fst/src/raw/crc32.rs:21-24 | the mask is the checksum rotated right by 15 bits plus 0xA282EAD8, modulo 2^32 |
| `Crc.MaskedInjective` | lucivy-fst/src/raw/crc32.rs:21-24 | masking loses nothing: different checksums have different masks |
| `Checkpoints.MemoryStore.SaveNodeCompleted` | luciole/src/checkpoint.rs:82-91 | appends to the DAG's entry, creating it if missing; other DAGs are untouched |
| `Checkpoints.MemoryStore.SaveNodeFailed` | luciole/src/checkpoint.rs:93-104 | records node, error and failed status, creating the entry if missing |
| `Checkpoints.MemoryStore.MarkCompleted` | luciole/src/checkpoint.rs:106-111 | sets the status of a known DAG and ignores an unknown one |
| `Checkpoints.MemoryStore.MarkFailed` | luciole/src/checkpoint.rs:113-119 | sets status and error of a known DAG and ignores an unknown one |
| `Checkpoints.MemoryStore.Load` | luciole/src/checkpoint.rs:121-131 | the entry as a checkpoint, field by field, node names in order |
| `Checkpoints.FileStore.SaveNodeCompleted` | luciole/src/checkpoint.rs:169-173 | rewrites the DAG's file with the line `COMPLETED:name:type` behind its lines |
| `Checkpoints.FileStore.SaveNodeFailed` | luciole/src/checkpoint.rs:175-179 | rewrites the DAG's file with the line `FAILED:name:error` behind its lines |
| `Checkpoints.FileStore.MarkCompleted` | luciole/src/checkpoint.rs:181-185 | rewrites the DAG's file with the line `STATUS:COMPLETED` behind its lines, also for an unknown DAG |
| `Checkpoints.FileStore.MarkFailed` | luciole/src/checkpoint.rs:187-191 | rewrites the DAG's file with the line `STATUS:FAILED:error` behind its lines, also for an unknown DAG |
| `Checkpoints.FileStore.Load` | luciole/src/checkpoint.rs:193-224 | replays the lines in order |
| `Checkpoints.JoinMeans` | luciole/src/checkpoint.rs:155-165 | lines are joined by newlines |
| `Checkpoints.LinesMeans` | luciole/src/checkpoint.rs:155-165 | a line ends at the first newline and loses a return before it |
| `Checkpoints.ReplayBare` | luciole/src/checkpoint.rs:204-208 | a failure line without a colon behind the name has no error |
| `Checkpoints.ReplayOther` | luciole/src/checkpoint.rs:200-215 | a line without a known prefix is ignored |
| `Checkpoints.LinesOfJoin` | luciole/src/checkpoint.rs:155-165 | joining and splitting lines is lossless for non-empty lines without newlines and without a return at the end |
| `Checkpoints.FilesHoldLines` | luciole/src/checkpoint.rs:155-191 | after any run a DAG's file holds one line per record of that DAG, in order, and exists exactly if there is one |
| `Checkpoints.StoresAgree` | luciole/src/checkpoint.rs:81-224 | both stores agree at every point of a run exactly when node names have no colon, names and errors no newline, and no DAG starts with a record about the whole DAG |
| `Checkpoints.Drive` | luciole/src/checkpoint.rs:81-224 | records a run through both store objects and loads a DAG from each: the answers are the ones compared above, and equal under that condition |
| `Checkpoints.ColonDiverges` | luciole/src/checkpoint.rs:204-206 | a colon in a node name makes the stores differ |
| `Checkpoints.NewlineDiverges` | luciole/src/checkpoint.rs:175-179 | a newline in an error makes the stores differ |
| `Checkpoints.UnopenedDagDiverges` | luciole/src/checkpoint.rs:106-111 | marking an unknown DAG creates a file but no entry |
| `Checkpoints.Recovery` | luciole/src/checkpoint.rs:193-224 | after such a run the file names exactly the completed nodes, in order |
| `GroupBy.GroupByIterator.Next` | common/src/group_by.rs:89-103 | opens a group for the item at the cursor without moving it; ends exactly at the end of the input |
| `GroupBy.GroupIterator.Next` | common/src/group_by.rs:121-130 | draws the item at the cursor if it has the group's key, and otherwise leaves it there |
| `GroupBy.CollectGroups` | common/src/group_by.rs:89-130 | draining every group gives non-empty maximal runs of equal keys that concatenate to the input |
| `GroupBy.RunsUnique` | common/src/group_by.rs:6-8 | there is only one way to cut an input into such runs |
| `GroupBy.Drive` | common/src/group_by.rs:89-130 | the iterators take the steps of the call-by-call specification, for any interleaving of outer and group calls |
| `GroupBy.DrawsArePrefix` | common/src/group_by.rs:89-130 | under any interleaving the drawn items are a prefix of the input in order, and each group only draws its own key |
| `GroupBy.GroupsStay` | common/src/group_by.rs:43-49 | over all interleavings: every draw is in the run its group was opened on if and only if no group is drawn from once an item of another key has been drawn since it was opened |
| `GroupBy.DrawsShareRun` | common/src/group_by.rs:43-49 | over all interleavings: the draws of every group are in one run if and only if no group is drawn from once an item of another key has been drawn since its first draw |
| `GroupBy.LatestInRun` | common/src/group_by.rs:43-49 | calling only the group opened last keeps every group in its run |
| `GroupBy.OldGroupStillDraws` | common/src/group_by.rs:43-49 | an instance: a group left open takes an item of a later run |
| `BlockAccess.DocidsToRowids` | columnar/src/column_index/mod.rs:97-126 | for every document asked for, lists exactly the rows it reads: its own number, its rank if it has one, or its range; ordered by document, then by row |
| `BlockAccess.GetVals` | columnar/src/column_values/mod.rs:65-83 | four at a time plus the remainder fills every output slot with the value at its index |
| `BlockAccess.FlatPairs` | columnar/src/column/mod.rs:136-140 | documents and values gathered row by row are each document with its own values |
| `BlockAccess.MergeIsDifference` | columnar/src/block_accessor.rs:91-119 | the two-cursor merge of sorted lists is multiset difference, duplicates included |
| `BlockAccess.FindMissingDocs` | columnar/src/block_accessor.rs:91-119 | reports that difference in sorted order |
| `BlockAccess.ReportedAsDocumented` | columnar/src/block_accessor.rs:88-89 | the documented reading holds exactly when no document occurs more often than its hits |
| `BlockAccess.ScanFindsMissing` | columnar/src/block_accessor.rs:49-55 | on a column's hits the scan reports exactly the documents without values |
| `BlockAccess.EqualLengths` | columnar/src/block_accessor.rs:45-48 | with at most one value per document, hits and missing documents add up, so equal lengths mean nothing is missing |
| `BlockAccess.ColumnBlockAccessor.FetchBlock` | columnar/src/block_accessor.rs:17-30 | aligned caches listing every document with each of its values |
| `BlockAccess.ColumnBlockAccessor.FetchBlockWithMissing` | columnar/src/block_accessor.rs:32-59 | the same followed by exactly one default pair per document without values |
| `BlockAccess.ColumnBlockAccessor.IterDocidVals` | columnar/src/block_accessor.rs:73-86 | the documents and the values of the caches in step, as many as the shorter side has, for full and sparse columns |
| `BlockAccess.ColumnBlockAccessor.FetchThenIterate` | columnar/src/block_accessor.rs:32-86 | fetching a block and iterating over it yields each document with each of its values, then one default pair per document without values |
| `Dictionaries.DictionaryBuilder.GetOrAllocateId` | columnar/src/dictionary.rs:40-53 | known terms keep their id, a new term gets the next one, and ids stay dense exactly up to 2^32 terms |
| `Dictionaries.DictionaryBuilder.Serialize` | columnar/src/dictionary.rs:56-77 | wherever blocks end, the table holds all terms in strictly increasing order and the mapping sends each id to its term's place |
| `Dictionaries.WriteSorted` | columnar/src/dictionary.rs:67-75 | the table accepts every key and no place is overwritten |
| `Dictionaries.OrderPreserved` | columnar/src/dictionary.rs:11-13 | a term precedes another byte-wise exactly when its ordinal is smaller |
| `Dictionaries.RemapIsBijection` | columnar/src/dictionary.rs:11-13 | the mapping is a bijection onto 0..n |
| `Dictionaries.LookUp` | columnar/src/dictionary.rs:11-13 | the table gives for each term the ordinal its id is mapped to, and nothing for other terms |
| `Dictionaries.SortsByKey` | columnar/src/dictionary.rs:66-66 | sorting by key orders the entries and keeps them |
| `SortedTables.IncreasingIsLess` | sstable/src/lib.rs:298-302 | the writer's test holds exactly for keys above the previous one and after an empty key, and is out of range exactly when the key is a prefix of a non-empty previous one |
| `SortedTables.ReadsBack` | sstable/src/lib.rs:189-199 | a reader of the changes gets every key back, whatever their order |
| `SortedTables.FindShorterStrInBetween` | sstable/src/sstable_index_v3.rs:325-343 | asserts the order, and returns something no longer than `left` with `left <= r < right`: `left` cut and raised at the first byte behind the common prefix and one more that can be raised, or all of it |
| `SortedTables.TableWriter.Insert` | sstable/src/lib.rs:276-336 | accepts a key exactly if it is above the last one, across blocks too, or the last one is empty and in the same block; then the contents grow by it and every separator stays between the keys of its block and the keys behind it |
| `SortedTables.TableWriter.FlushBlock` | sstable/src/lib.rs:325-346 | closes the block with its last key as separator; the contents stay |
| `SortedTables.OnlyEmptyKeyRepeats` | sstable/src/lib.rs:269-302 | nothing is accepted out of order but an empty key behind an empty key |
| `SortedTables.InsertEmptyTwice` | sstable/src/lib.rs:298-302 | an instance: the empty key is accepted twice exactly when the first one does not fill a block |
| `SortedTables.SeparatorsAscend` | sstable/src/sstable_index_v3.rs:370-380 | the separators ascend strictly, as the index builder demands |
| `SortedTables.PlaceKey` | sstable/src/dictionary.rs:424-457 | one step of the search: from the matched bytes and the change alone, whether the key written there is below, at or above the searched one |
| `SortedTables.DecodeUpToOrNext` | sstable/src/dictionary.rs:416-461 | finds the first key that is not below the searched one, and whether it is that one, without rebuilding keys |
| `SortedTables.LocatedHolds` | sstable/src/sstable_index_v3.rs:138-145 | the first block whose separator is not below a stored key is the block that holds it |
| `SortedTables.TermOrd` | sstable/src/dictionary.rs:464-475 | the ordinal of a key is its place among all keys written, and there is none exactly for keys not written |

## Left out

- Input/output errors: writers and readers are byte sequences, so failing writes do not occur.
- Asynchronous and checkpointed DAG execution, undo on failure, taps, events, metrics and services.
- Thread interleavings inside a level: the tasks of a level share nothing, so they are run and received in order.
- Node internals: a node is an arbitrary function from its inputs to outputs or an error; panics are not modelled.
- `take_node`/`put_node` and `TakenNode`: moving a node out of its slot and back while a task runs.
- DagExecution.ExecuteDag: requires unique node names; `ConsumerReads.CountsLast` says what happens to the counts without them.
- DagExecution.ExecuteSequential: requires unique node names, as above.
- FanOut.FanOutMerge: requires generated names that no node has yet; with a clash, edges lead to whichever node a name resolves to.
- MergeRuns.MergeNode.Execute: does not model the panic of `PortValue::take` on a value that other nodes still share; taking is a typed read.
- BitPacking.BitPacker.Write: states nothing for a value that does not fit its width, since the source leaves the excess bits in the buffer.
- RangeScan.GetBatchU32s: requires index sums below 2^32, because the source adds them as `u32`.
- RangeScan.FilterVecInPlace: models the portable filter only, not its AVX2 twin.
- `BitPacker1x::decompress`: modelled as decoding 32 consecutive fields (`RangeScan.Decompress`); the SIMD library is not part of the repository.
- BlockedPacking.BlockedBitpacker.Add: requires fewer than 2^53 values, so that block offsets stay below 2^56.
- BitSets.BitSet.Insert: requires an element of the words; the source fails on an index beyond them.
- `BitSet::first_non_empty_bucket`, `TinySet::range_greater_or_equal`: easy members on the same representation.
- VInts.Deserialize: a shift past the word is the panic of checked builds; without the checks the shift wraps.
- Serialization.Deserialize: models in-memory readers; the pre-allocation by the announced length is not modelled, and neither are floats, `Cow<str>` and `VIntU128::deserialize`.
- Checkpoints.StoresAgree: node types, which are constants in the source, have no newline, and no text ends in a carriage return, which a later rewrite would drop; file names and file system errors are not modelled, a file is its content under the DAG's id.
- Dictionaries.DictionaryBuilder.Iter: the arena hash map is a map listed in arbitrary order.
- SortedTables.TableWriter.Insert: a block is a sequence of changes; its bytes, compression and values are not modelled, and the size test that ends a block is an arbitrary function of its changes.
- SortedTables.TermOrd: the index automaton is the list of separators in order.
- BlockAccess.DocidsToRowids: rank and range lookups of sparse indexes are functions of the column.
- The search engine itself (suffix FST, scoring, sharding, snapshots), the actor system, floating-point columns and date formatting.

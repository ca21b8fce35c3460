# Verified models of the database topics

Each topic of this repository ships an oracle, a simulator or a codec against which the
exercises are compared. This project models those in Dafny and proves that they do what their
documentation says: the references are right on every input, not only on the ones listed in
the unit tests.

- **Overload** (`Overload`, `OverloadRuns`, `OverloadCollapse`, `OverloadTrigger`,
  `OverloadRecovery`): the queueing simulator as a state machine over pops. Every complete run is
  explained by its records. At or above hidden capacity, for any number of retries, a long outage
  tips it and the collapse is permanent; below it the backlog drains.
- **Crash safety** (`SimFs`, `Kv`, `KvModel`, `CrashSafety`, `KvMeaning`): a write-ahead log over
  a file that tears at any byte. Recovery refines the two-map oracle over every run and every
  tear, so the store reads what the last durable writes wrote.
- **Streaming** (`ZSets`, `DeltaJoin`): canonical Z-sets, and the bilinear delta identity of the
  weighted hash join.
- **Codecs** (`BitMath`, `BitFields`, `Postings`, `PostingLayout`, `PostingBlocks`, `Alp`,
  `AlpCodec`): bit-packed postings and ALP, with the layout of the bytes and the round trips. A
  buffer is read as one number whose digits are the packed fields, which turns shifts and masks
  into sums and remainders.
- **Graphs** (`Graphs`, `GraphBuilder`, `PathCounts`, `BfsSigma`, `Betweenness`, `Triangles`,
  `DegreeOrdered`, `StreamTriangles`, `Dijkstra`, `Components`, `Reachability`, `ChokePoints`,
  `Postorder`, `Temporal`): the loop forms against declarative meanings: paths, walks, triples,
  dominated users, contact trips.
- **Sparse matrices** (`TripleLists`, `Sparse`, `SparseTranspose`, `SparseProduct`): counting-sort
  construction and transpose, and the hash product.
- **On-chain analytics** (`Ledger`, `LedgerRuns`, `Taint`, `TaintShares`, `Connectivity`,
  `UnionFinds`, `Quality`): the chain generator for all draws, haircut taint, clustering.
- **Rewriting** (`Rewriter`) and **page replacement** (`Replacement`, `FifoCapacity`,
  `ClockPolicy`).

`Common` and `Sorting` hold what the models share. Code that loops over arrays, heaps and maps is a
method proved against a specification function or predicate; what the specification means is
then stated by lemmas.

## Where code and documentation differ

The models follow the code.

- `topics/24-graph-algorithms/experiments/src/graph.rs` says that of parallel edges the first
  weight is kept. The edges are sorted by (u, v, w) first, so the lightest is kept
  (`GraphBuilder.FirstWeightLost`), and the first one only if no parallel one is lighter
  (`GraphBuilder.FirstKeptWhen`).
- `topics/21-formal/experiments/src/hand.rs` presents trying the division rules first as the way
  around the (a*2)/2 trap. The pass rewrites children before their parent, and the division rules
  and the rules they pass match different constructors, so the flag never changes a result
  (`Rewriter.OrderIsIrrelevant`, `Rewriter.TrapInBothOrders`).
- `topics/24-graph-algorithms/experiments/src/sssp.rs` bounds the pop counter below by the number
  of vertices. It is bounded below by the number of reached vertices (`Dijkstra.Run`), which is
  enough when all are reached, and two vertices without an edge take one pop
  (`Dijkstra.TwoIslands`).
- `topics/41-onchain-analytics/experiments/src/taint.rs` says that haircut conserves the total.
  With exact fractions a payment conserves it unless both shares are exact halves, and then gains
  one unit (`Taint.ConservedWhen`): the flagged value can exceed the stolen value
  (`Taint.HaircutGains`).

## Model

| member | source | states |
|---|---|---|
| `OverloadCollapse.MetastableCollapse` | topics/35-overload/experiments/src/sim.rs:20-23 | At or above hidden capacity (the g + 1 tries of a request fill an arrival interval with service, for any g up to max_retries; no policy): once one attempt finds the server g/2 + 1 timeouts and an interval behind, it and every later attempt arriving while load is offered misses its timeout, however far the run goes. |
| `OverloadCollapse.TwoTimeoutsTrigger` | topics/35-overload/experiments/src/sim.rs:20-23 | Counting one retry, two timeouts behind are enough when a timeout is worth two arrival intervals. |
| `OverloadCollapse.GoodputStaysZero` | topics/35-overload/experiments/src/sim.rs:189-203 | From that attempt on, every later second of the report shows goodput zero, to the end of the run. |
| `OverloadTrigger.LargeTriggerTips` | topics/35-overload/experiments/src/sim.rs:20-23 | An outage of g/2 + 1 timeouts and three intervals tips every run: the second request to arrive in it finds the server that far behind. |
| `OverloadTrigger.LargeTriggerCollapses` | topics/35-overload/experiments/src/sim.rs:20-23 | From the configuration alone: at or above hidden capacity and with such an outage, that request and everything tried after it while load is offered times out, to the end of the run. |
| `OverloadRecovery.HealsBelowHiddenCapacity` | topics/35-overload/experiments/src/sim.rs:205-213 | Below hidden capacity, under any policy, every served attempt that comes after spare capacity has worked off the backlog left by the outage is answered in time. |
| `OverloadRecovery.RunRated` | topics/35-overload/experiments/src/sim.rs:136-156 | In every run, under any policy and at any load, originals and retries from one pop to another arrive at most max_retries + 1 to an interval. |
| `Overload.EventsInOrder` | topics/35-overload/experiments/src/sim.rs:121-156 | Pops come in non-decreasing arrival order, and the intervals in which the server works never overlap, under any policy. |
| `Overload.BudgetDrops` | topics/35-overload/experiments/src/sim.rs:121-156 | Each turn uses up budget (tries left in the heap), so the event loop ends whatever the policy decides. |
| `Overload.MinIndexIsLeast` | topics/35-overload/experiments/src/sim.rs:106-109 | The popped event is least in (arrival, seq) order among all pending ones. |
| `OverloadRuns.Run` | topics/35-overload/experiments/src/sim.rs:98-159 | The whole simulation ends, after a complete run of the requests offered, and reports exactly that run: per second what was offered, rejected and answered in time, per priority attempts and successes, and the latencies in the order served. |
| `OverloadRuns.RunExplained` | topics/35-overload/experiments/src/sim.rs:98-159 | Of every complete run, from its records alone: requests are offered one per interval while load is offered; each is tried once and again after exactly those misses with tries left that the policy lets retry; tries come by arrival and number; an attempt is rejected exactly when the policy refuses it, and otherwise the server starts as soon as it may: when it is free and the request there, or at the end of the outage if that falls in it. |
| `OverloadRuns.LevelsTried` | topics/35-overload/experiments/src/sim.rs:114-119 | A complete run tries as many requests of each priority level as taking turns gives. |
| `Overload.Record` | topics/35-overload/experiments/src/sim.rs:122-150 | One attempt moves each counter by what that attempt is worth (offered, rejected, goodput, attempts, successes, latency) and no other. |
| `SimFs.SimFile.Append` | topics/16-testing-correctness/experiments/src/sim_fs.rs:30-32 | Appended bytes are buffered only. |
| `SimFs.SimFile.Sync` | topics/16-testing-correctness/experiments/src/sim_fs.rs:34-38 | Sync moves the buffered bytes behind the durable ones. |
| `SimFs.SimFile.Crash` | topics/16-testing-correctness/experiments/src/sim_fs.rs:43-50 | A crash keeps the durable bytes and any prefix of the buffered ones. |
| `SimFs.SimFile.Truncate` | topics/16-testing-correctness/experiments/src/sim_fs.rs:60-62 | Truncation cuts the durable bytes only. |
| `Kv.RecordRoundTrip` | topics/16-testing-correctness/experiments/src/kv.rs:37-44 | A record passes its checksum and decodes to the operation it was made from, for all 32-bit keys and values. |
| `KvMeaning.RecordSays` | topics/16-testing-correctness/experiments/src/kv.rs:37-44 | The ten bytes are the type, the four digits of the key to the base 256 lowest first, those of the value, and a byte that makes the exclusive or of all ten 0xA5. |
| `KvMeaning.IntactIsSealed` | topics/16-testing-correctness/experiments/src/kv.rs:82-85 | A chunk passes the check of its reader exactly if it has ten bytes whose exclusive or is 0xA5. |
| `KvMeaning.StepWrites` | topics/16-testing-correctness/experiments/src/kv.rs:51-74 | What each operation appends, in every bug setting: ten bytes that say put, delete or commit, which only a commit with sync makes durable together with all buffered before. |
| `Kv.KvStore.Apply` | topics/16-testing-correctness/experiments/src/kv.rs:51-74 | Each operation, in all five bug settings, takes log and map to exactly the specified next store. |
| `Kv.KvStore.Recover` | topics/16-testing-correctness/experiments/src/kv.rs:76-125 | Recovery leaves the map and the log that scanning the readable records gives, tail repair included. |
| `Kv.KvStore.ReplayLog` | topics/16-testing-correctness/experiments/src/kv.rs:82-111 | The chunk loop finds exactly the batches closed by a readable commit marker, the open batch, and the repair point. |
| `KvModel.Model.Apply` | topics/16-testing-correctness/experiments/src/lib.rs:35-53 | The oracle: operations pend until commit, a crash drops the pending ones. |
| `KvMeaning.OracleReads` | topics/16-testing-correctness/experiments/src/lib.rs:35-58 | The expected state holds under each key what the last write of it wrote of those that a commit followed before any crash, and nothing if that deleted it or there is none. |
| `KvMeaning.StoreReads` | topics/16-testing-correctness/experiments/src/lib.rs:34-58 | Without a bug, for every run and every tear, the store itself reads under each key what the last write not lost to a crash wrote; right after a crash, what the last durable one wrote. |
| `CrashSafety.CrashRefinement` | topics/16-testing-correctness/experiments/src/lib.rs:34-58 | Without a bug, for every sequence of operations and every tear at every crash, the map is the committed state with the open batch on top, right after a crash it is the expected state, and the disk holds exactly the encoded committed batches. |
| `CrashSafety.AtomicWithoutDurability` | topics/16-testing-correctness/experiments/src/kv.rs:63-67 | Without sync on commit, for every run and every tear, each recovery yields the map of the previous recovery (or the empty start) plus the first j of the batches committed since, j being as many as survived whole: no batch is split, nothing uncommitted leaks, leftovers never join a later batch. |
| `CrashSafety.AtomicFromRest` | topics/16-testing-correctness/experiments/src/kv.rs:63-67 | The same from any store at rest, which every recovery leads to. |
| `CrashSafety.EveryPrefixPossible` | topics/16-testing-correctness/experiments/src/sim_fs.rs:43-50 | Every such j does occur for some tear, zero included. |
| `CrashSafety.ParseTorn` | topics/16-testing-correctness/experiments/src/kv.rs:82-85 | A log torn at any byte parses as its closed part and the records that survived whole. |
| `CrashSafety.ScanAppends` | topics/16-testing-correctness/experiments/src/kv.rs:88-105 | Replaying a closed log followed by more records applies exactly the whole batches of the rest. |
| `CrashSafety.RecoverTorn` | topics/16-testing-correctness/experiments/src/kv.rs:68-125 | What one crash and recovery do to log and map, for every torn length. |
| `ZSets.Consolidate` | topics/27-streaming/experiments/src/zset.rs:21-35 | In place, the vector becomes the sorted, summed, zero-free list of what it held. |
| `ZSets.CanonicalUnique` | topics/27-streaming/experiments/src/zset.rs:12-19 | Two canonical lists that weigh every element alike are the same list. |
| `ZSets.IsCanonicalOf` | topics/27-streaming/experiments/src/zset.rs:42-45 | A canonical list with the weights of some updates is what building from the updates gives. |
| `ZSets.MergeCommutes` | topics/27-streaming/experiments/src/zset.rs:53-57 | Merging is commutative, entry list for entry list. |
| `ZSets.MergeAssociates` | topics/27-streaming/experiments/src/zset.rs:53-57 | Merging is associative. |
| `ZSets.MergeCancels` | topics/27-streaming/experiments/src/zset.rs:59-61 | Merging with the negation leaves no entries at all. |
| `ZSets.WeightOf` | topics/27-streaming/experiments/src/zset.rs:63-68 | The binary search returns the weight, zero for absent elements. |
| `ZSets.DistinctWeight` | topics/27-streaming/experiments/src/zset.rs:87-101 | Of a canonical Z-set distinct keeps exactly the elements of positive weight, once. |
| `ZSets.DistinctAddsWhen` | topics/27-streaming/experiments/src/zset.rs:87-101 | distinct(a) merged with distinct(b) is distinct of the merge if and only if nowhere both weights are positive and no positive one is cancelled. |
| `ZSets.DistinctDeltaWhen` | topics/27-streaming/experiments/src/zset.rs:124-141 | The delta of the result is the result of the delta under exactly the same condition on the state and the delta. |
| `ZSets.DistinctIsNotLinear` | topics/27-streaming/experiments/src/zset.rs:124-141 | So distinct is not linear: deleting the last copy of an element is the counterexample. |
| `DeltaJoin.JoinOracle` | topics/27-streaming/experiments/src/djoin.rs:22-41 | The hash join in its two loops returns the canonical list of the matching pairs. |
| `DeltaJoin.JoinWeight` | topics/27-streaming/experiments/src/djoin.rs:19-41 | The weight of an output row is the product of the weights of its two sides. |
| `DeltaJoin.Bilinear` | topics/27-streaming/experiments/src/djoin.rs:112-112 | (A + dA) join (B + dB) minus A join B is dA join B + A join dB + dA join dB as equal entry lists, for all Z-sets. |
| `DeltaJoin.StreamedIsJoin` | topics/27-streaming/experiments/src/djoin.rs:115-129 | Over any number of batches the delta rows add up to the join of everything so far. |
| `BfsSigma.Bfs` | topics/24-graph-algorithms/experiments/src/bc.rs:16-35 | Depth is the hop distance (-1 exactly when unreachable) and sigma the exact number of shortest paths. |
| `PathCounts.PathsAreWalks` | topics/24-graph-algorithms/experiments/src/bc.rs:14-15 | The counted paths are exactly the vertex sequences along edges with these ends and this length. |
| `PathCounts.SplitAtVertex` | topics/24-graph-algorithms/experiments/src/bc.rs:37-39 | The shortest s-t paths through v number sigma_sv * sigma_vt if d(s,v) + d(v,t) = d(s,t), and zero otherwise. |
| `PathCounts.NotThrough` | topics/24-graph-algorithms/experiments/src/bc.rs:48-50 | A vertex not reachable from s, or not reaching t, lies on no shortest s-t path. |
| `Betweenness.Brute` | topics/24-graph-algorithms/experiments/src/bc.rs:40-63 | The triple loop computes, for every vertex, the sum over pairs of the share of shortest paths through it, over exact arithmetic. |
| `Betweenness.AddPair` | topics/24-graph-algorithms/experiments/src/bc.rs:50-58 | One pair adds to each vertex the share of the shortest s-t paths that pass through it. |
| `Triangles.MetAll` | topics/24-graph-algorithms/experiments/src/analytics.rs:36-40 | For any injective ranking, the edges going up in rank meet exactly the triangles. |
| `Triangles.MetGrows` | topics/24-graph-algorithms/experiments/src/analytics.rs:60-77 | Each further upward edge meets as many new triangles as it has closing vertices: none is counted twice. |
| `Triangles.MatchesAreShared` | topics/24-graph-algorithms/experiments/src/analytics.rs:62-75 | The two-pointer walk over two rank-sorted lists matches exactly their common elements. |
| `DegreeOrdered.Ranks` | topics/24-graph-algorithms/experiments/src/analytics.rs:42-47 | Ranks order the vertices by degree and id, are below n, and are distinct: a permutation. |
| `DegreeOrdered.Forward` | topics/24-graph-algorithms/experiments/src/analytics.rs:48-57 | The forward list of u holds exactly its neighbours of higher rank, ascending in rank. |
| `DegreeOrdered.TriangleCount` | topics/24-graph-algorithms/experiments/src/analytics.rs:41-79 | On a symmetric loop-free graph the count is the number of unordered mutually adjacent triples. |
| `StreamTriangles.Adjacency` | topics/27-streaming/experiments/src/graph.rs:78-89 | The lists are sorted, without repetition, and hold each edge both ways. |
| `StreamTriangles.CountTriangles` | topics/27-streaming/experiments/src/graph.rs:94-116 | The id-ordered oracle counts the unordered mutually adjacent triples of the stored edges. |
| `StreamTriangles.CountBoth` | topics/27-streaming/experiments/src/graph.rs:91-93 | On a graph with the same edges the rank-ordered and the id-ordered count agree. |
| `GraphBuilder.FromEdges` | topics/24-graph-algorithms/experiments/src/graph.rs:32-58 | The graph is well-formed and holds the given edges without loops, each ordered pair once, with the least weight given for it. |
| `GraphBuilder.BuiltSymmetric` | topics/24-graph-algorithms/experiments/src/graph.rs:29-31 | Built both ways, edges and weights are symmetric. |
| `GraphBuilder.FirstKeptWhen` | topics/24-graph-algorithms/experiments/src/graph.rs:29-31 | The weight first listed for a pair is kept if and only if no parallel listing is lighter. |
| `GraphBuilder.FirstWeightLost` | topics/24-graph-algorithms/experiments/src/graph.rs:29-31 | Of parallel edges the lightest is kept, not the first: listing weight 9 before weight 5 keeps 5. |
| `BitMath.OrDisjoint` | topics/23-fulltext/experiments/src/compress.rs:76-91 | Or-ing a shifted field above the bits in use adds it. |
| `BitMath.AndMask` | topics/23-fulltext/experiments/src/compress.rs:101-105 | Masking with 2^w - 1 is the remainder modulo 2^w. |
| `BitMath.FieldsInjective` | topics/23-fulltext/experiments/src/compress.rs:76-108 | Fields of one width can be told apart in the number they make up. |
| `Postings.PutVarint` | topics/23-fulltext/experiments/src/compress.rs:25-31 | The byte loop writes the base-128 form of the number. |
| `Postings.ReadVarintBack` | topics/23-fulltext/experiments/src/compress.rs:33-45 | Reading that form back yields the number and its length, whatever follows. |
| `Postings.GetVarint` | topics/23-fulltext/experiments/src/compress.rs:33-45 | The shifting loop reads a number of at most five bytes modulo 2^32 and stops right behind it: bits past the 32nd are lost, no other. |
| `Postings.Accumulate` | topics/23-fulltext/experiments/src/compress.rs:76-91 | The 64-bit accumulator never loses a bit when the next field is or-ed in. |
| `Postings.Pack` | topics/23-fulltext/experiments/src/compress.rs:76-91 | The output is the little-endian number whose fields are the values, in ceil(w * n / 8) bytes. |
| `Postings.Unpack` | topics/23-fulltext/experiments/src/compress.rs:93-108 | The fields read make up the low w * n bits of the buffer, and the bytes used are the packed length. |
| `Postings.UnpackPacked` | topics/23-fulltext/experiments/src/compress.rs:93-108 | What is unpacked from a packed array is the array, whatever follows it. |
| `PostingBlocks.BitpackEncode` | topics/23-fulltext/experiments/src/compress.rs:113-145 | The output is the encoding of the list, laid out as the next row says. |
| `PostingBlocks.EncodingLaidOut` | topics/23-fulltext/experiments/src/compress.rs:113-145 | Read off the bytes: full blocks of 128 stand one after another from the start. Each begins with a byte w, the bits of the largest gap, and its i-th field of w bits is the distance from the document before less one (the first document as it is); after those 16 * w bytes come the width and fields of tf - 1 likewise. Then, to the end, per posting the distance and the tf as varints. |
| `PostingLayout.VarintDigit` | topics/23-fulltext/experiments/src/compress.rs:25-31 | The i-th byte of a varint is the i-th digit to the base 128, with 128 added but for the last. |
| `PostingBlocks.BitpackDecode` | topics/23-fulltext/experiments/src/compress.rs:147-180 | Decoding any buffer that starts with the encoding of n postings yields those postings. |
| `PostingBlocks.RoundTrip` | topics/23-fulltext/experiments/src/compress.rs:113-180 | decode(encode(p), len(p)) = p for every strictly increasing list of 32-bit documents with tf of at least one, of any length. |
| `PostingBlocks.BlockSize` | topics/23-fulltext/experiments/src/compress.rs:110-112 | Each column of a full block takes one width byte and width * 16 bytes, width at most 32. |
| `Alp.SearchEf` | topics/30-timeseries/experiments/src/alp.rs:132-162 | The search returns the cheapest eligible (e, f); of equals the larger exponent, then the larger factor; (0, 0) when none is eligible. |
| `Alp.CostIs` | topics/30-timeseries/experiments/src/alp.rs:143-156 | A pair is eligible if it brings back two sampled values; it then costs the bits of the range of their integers for each sample and 80 for each value missed. |
| `Alp.SampleIs` | topics/30-timeseries/experiments/src/alp.rs:133-134 | The sample is every value of a vector below 64 values, and otherwise every (n/32)-th. |
| `Alp.StoredNumber` | topics/30-timeseries/experiments/src/alp.rs:208-224 | A 16-byte read-modify-write adds the shifted value to the buffer as one number: nothing overlaps, nothing is shifted out. |
| `Alp.LoadedField` | topics/30-timeseries/experiments/src/alp.rs:232-245 | A 16-byte load, shift and mask returns the field, whatever lies below and above it. |
| `AlpCodec.PackInts` | topics/30-timeseries/experiments/src/alp.rs:208-224 | The packed buffer is the number whose fields are the offsets; each of its windows is in bounds. |
| `AlpCodec.OffsetsFit` | topics/30-timeseries/experiments/src/alp.rs:187-189 | Offsets from the minimum fit the width of the range, in wrapping 64-bit arithmetic. |
| `AlpCodec.Placeholder` | topics/30-timeseries/experiments/src/alp.rs:176-181 | The placeholder is the first integer that decodes exactly, zero when there is none. |
| `AlpCodec.IntBack` | topics/30-timeseries/experiments/src/alp.rs:226-251 | Unpacking position i returns the integer packed there. |
| `AlpCodec.DecodeVector` | topics/30-timeseries/experiments/src/alp.rs:226-251 | Decoding appends the values of the vector with its exceptions patched in. |
| `AlpCodec.VectorLossless` | topics/30-timeseries/experiments/src/alp.rs:164-251 | Whatever encode_value and decode_value do, a vector with its exceptions decodes to the same bit patterns, at every width from 0 to 64. |
| `AlpCodec.EncodeVector` | topics/30-timeseries/experiments/src/alp.rs:164-204 | The vector decodes to the input. For the pair (e, f) searched, w the bits of the range of the integers that decode exactly and x the number of values that do not, its decimal size is ceil(n * w / 8) + 10 * x + 13: it is stored in decimals with this pair, base, width and size if that is below 8n + 1, and raw otherwise. |
| `AlpCodec.PackedField` | topics/30-timeseries/experiments/src/alp.rs:172-224 | The i-th field of w bits is the distance of the i-th integer from the least one kept; a value that does not decode exactly stands with its place among the exceptions. |
| `AlpCodec.AlpEncode` | topics/30-timeseries/experiments/src/alp.rs:259-274 | A column makes ceil(n/1024) vectors, each the encoding of its 1024 values, that decode to it, in at most 8n + ceil(n/1024) bytes. |
| `AlpCodec.RoundTrip` | topics/30-timeseries/experiments/src/alp.rs:259-269 | Every column comes back bit for bit under any float arithmetic. |
| `Sparse.FromEdges` | topics/20-graphblas/experiments/src/csr.rs:18-38 | A valid matrix, rows sorted, storing exactly the given places, each with the sum of the values given there. |
| `Sparse.SameMatrix` | topics/20-graphblas/experiments/src/csr.rs:9-14 | Valid matrices of one size with the same entries are equal, arrays and all. |
| `SparseTranspose.Transpose` | topics/20-graphblas/experiments/src/csr.rs:49-71 | The counting sort yields a valid matrix holding (c, r, v) exactly when (r, c, v) was held. |
| `SparseTranspose.SlotOrder` | topics/20-graphblas/experiments/src/csr.rs:60-69 | Slots keep rows in order and, within a row, the order of reading: the scatter is stable. |
| `SparseTranspose.Involution` | topics/20-graphblas/experiments/src/csr.rs:49-71 | Transposing twice gives the matrix back, arrays and all. |
| `SparseTranspose.TransposeUnique` | topics/20-graphblas/experiments/src/csr.rs:49-71 | A matrix has one transpose. |
| `SparseProduct.Product` | topics/20-graphblas/experiments/src/spgemm.rs:11-35 | The hash product is the matrix product over exact arithmetic, rows sorted, storing what some pair of entries meets in, with no more entries than the flop count. |
| `SparseProduct.MultiplyRow` | topics/20-graphblas/experiments/src/spgemm.rs:18-33 | One row, sorted, without repetition, no longer than the multiplications it took. |
| `SparseProduct.Flopcount` | topics/20-graphblas/experiments/src/spgemm.rs:39-44 | The multiplications of the product. |
| `SparseProduct.ProductTransposed` | topics/20-graphblas/experiments/src/spgemm.rs:11-35 | transpose(A * B) = transpose(B) * transpose(A), structure, stored zeros and values. |
| `Dijkstra.Run` | topics/24-graph-algorithms/experiments/src/sssp.rs:14-35 | Distances are the least walk weights (the maximal u64 exactly when unreachable) without overflow; every reached vertex is scanned once; reached <= pops <= edges + 1. |
| `Dijkstra.ReachedAllPops` | topics/24-graph-algorithms/experiments/src/sssp.rs:11-13 | If every vertex is reached there are at least as many pops as vertices. |
| `Dijkstra.TwoIslands` | topics/24-graph-algorithms/experiments/src/sssp.rs:11-13 | Otherwise there can be fewer: two vertices without an edge take one pop. |
| `Dijkstra.NoLighterWalk` | topics/24-graph-algorithms/experiments/src/sssp.rs:22-33 | When the heap is empty no walk is lighter than the label of its end. |
| `Reachability.Search` | topics/40-security-attack-graphs/experiments/src/ad_graph.rs:364-378 | The reverse search sees exactly the nodes with a path to the target. |
| `ChokePoints.ReverseAdj` | topics/40-security-attack-graphs/experiments/src/ad_graph.rs:194-200 | The reversed lists hold each edge turned round. |
| `ChokePoints.Exposure` | topics/40-security-attack-graphs/experiments/src/chokepoint.rs:30-43 | The number of users with an attack path to tier zero in the graph without the removed node. |
| `ChokePoints.CutSize` | topics/40-security-attack-graphs/experiments/src/chokepoint.rs:123-137 | Exposure lost by removing d is the number of exposed users all of whose attack paths pass d. |
| `ChokePoints.BlastRadiusNaive` | topics/40-security-attack-graphs/experiments/src/chokepoint.rs:126-137 | Every node is priced at the number of exposed users it dominates, tier zero included. |
| `Postorder.ReversePostorder` | topics/40-security-attack-graphs/experiments/src/chokepoint.rs:48-74 | The iterative search lists exactly the reachable nodes, once each, with the inverse index; every node but the root has a predecessor earlier in the order; an edge goes backward only to a node that reaches its tail. |
| `Postorder.Topological` | topics/40-security-attack-graphs/experiments/src/chokepoint.rs:46-74 | On an acyclic reachable part every edge goes forward. |
| `Temporal.EarliestArrival` | topics/33-temporal-graphs/experiments/src/events.rs:59-79 | The fixpoint loop ends with the least arrival over time-respecting contact paths, the maximal u64 exactly when none arrives before it, after at most n sweeps; on sorted contacts without an instantaneous return after at most two. |
| `Temporal.SweepFinishes` | topics/33-temporal-graphs/experiments/src/events.rs:59-62 | Until all labels are final, every sweep makes one more final, whatever the order of the contacts. |
| `Temporal.SweepDrops` | topics/33-temporal-graphs/experiments/src/events.rs:66-77 | A sweep that changes something lowers the total, and one that does not has settled every contact. |
| `Temporal.OneSweepSuffices` | topics/33-temporal-graphs/experiments/src/events.rs:59-79 | On contacts sorted by departure the first sweep reaches the fixpoint from any labels, if no instantaneous contact leads back to where an earlier listed one leaves at the same time; so always with positive durations. |
| `Temporal.SweepInOrder` | topics/33-temporal-graphs/experiments/src/events.rs:66-77 | One sweep from the start finds the earliest arrival over trips that take contacts in list order. |
| `Temporal.OneSweepExactly` | topics/33-temporal-graphs/experiments/src/events.rs:59-79 | The first sweep finds the answer if and only if every trip that arrives before the maximal u64 is matched by one in list order that is no later. |
| `Temporal.InstantNeedsMore` | topics/33-temporal-graphs/experiments/src/events.rs:59-79 | Sorting alone is not enough: for the contacts 1 to 2 and 0 to 1 at one instant, the first sweep of the loop from its start labels misses the arrival at 2. |
| `Temporal.StaticReachable` | topics/33-temporal-graphs/experiments/src/events.rs:40-57 | The search sees exactly the nodes reachable with timestamps forgotten. |
| `Temporal.FiniteIsStatic` | topics/33-temporal-graphs/experiments/src/events.rs:142-152 | A finite arrival implies static reachability. |
| `UnionFinds.UnionFind.Find` | topics/41-onchain-analytics/experiments/src/clustering.rs:60-67 | Returns the representative in at most log2(n) steps; path halving changes no representative. |
| `UnionFinds.UnionFind.Union` | topics/41-onchain-analytics/experiments/src/clustering.rs:68-78 | Adds one link to what is connected and keeps sizes at least doubling towards the root. |
| `UnionFinds.UnionFind.Labels` | topics/41-onchain-analytics/experiments/src/clustering.rs:80-90 | Equal ids exactly for connected addresses, contiguous in order of first appearance. |
| `UnionFinds.Halve` | topics/41-onchain-analytics/experiments/src/clustering.rs:60-67 | Pointing at the grandparent keeps the forest and the representatives. |
| `UnionFinds.Cluster` | topics/41-onchain-analytics/experiments/src/clustering.rs:53-91 | Any list of unions, in order, yields labels that partition by what the unions connect. |
| `UnionFinds.OrderIndependent` | topics/41-onchain-analytics/experiments/src/clustering.rs:266-272 | The label vector is identical for any order of the same unions. |
| `Connectivity.AddLink` | topics/41-onchain-analytics/experiments/src/clustering.rs:68-78 | Two nodes are connected after one more link exactly if they were, or the link bridges their parts. |
| `Connectivity.LabelsUnique` | topics/41-onchain-analytics/experiments/src/clustering.rs:80-90 | A partition has one labelling in order of first appearance. |
| `Quality.SumPairs` | topics/41-onchain-analytics/experiments/src/clustering.rs:107-135 | Summing n(n-1)/2 over the counts gives the number of pairs with equal keys. |
| `Quality.Measure` | topics/41-onchain-analytics/experiments/src/clustering.rs:107-135 | Precision and recall are the shares of pairs agreeing on label and owner among those agreeing on one of them; cluster count and largest cluster are exact; one if there is no pair. |
| `Components.CcUnionFind` | topics/24-graph-algorithms/experiments/src/cc.rs:8-27 | Labels are equal exactly for connected vertices and each label is its component's least vertex. |
| `Components.LeastIsLeast` | topics/24-graph-algorithms/experiments/src/cc.rs:8-27 | No vertex connected to v is below its label, and the label is connected to v. |
| `Components.Canonical` | topics/24-graph-algorithms/experiments/src/cc.rs:31-37 | The canonical form replaces each label by the least vertex bearing it. |
| `Components.CanonicalCompares` | topics/24-graph-algorithms/experiments/src/cc.rs:29-37 | Canonical forms are equal exactly when the two labellings partition alike. |
| `Components.LeastAreCanonical` | topics/24-graph-algorithms/experiments/src/cc.rs:8-37 | The union-find's labels are their own canonical form. |
| `Rewriter.RuleDecreases` | topics/21-formal/experiments/src/hand.rs:52-133 | Every rule lowers (node count, products, sizes of numerators) lexicographically. |
| `Rewriter.FiringDecreases` | topics/21-formal/experiments/src/hand.rs:32-48 | So does a rule fired anywhere inside a term. |
| `Rewriter.NormalMeansNoFiring` | topics/21-formal/experiments/src/hand.rs:32-48 | A term is normal exactly when no rule fires anywhere in it. |
| `Rewriter.PassDecreases` | topics/21-formal/experiments/src/hand.rs:32-48 | A pass that fired makes the term smaller; one that did not leaves it and finds it normal. |
| `Rewriter.HandOptimizeOrdered` | topics/21-formal/experiments/src/hand.rs:20-30 | For both orders the loop ends in a term of no larger cost without a reducible subterm, reached by rewriting as many subterms as are counted. |
| `Rewriter.RulesByShape` | topics/21-formal/experiments/src/hand.rs:52-133 | A rule applies to exactly these shapes, in either order: numerals added, multiplied or divided by another than 0; a sum with an operand 0; a product with an operand 0, 1 or 2; a quotient of a product, by 1, or of equal sides. What each becomes is stated shape by shape. |
| `Rewriter.NormalBySubterms` | topics/21-formal/experiments/src/hand.rs:20-133 | A term is normal exactly when no subterm has one of these shapes. |
| `Rewriter.FiresBySteps` | topics/21-formal/experiments/src/hand.rs:32-133 | One term comes from another by one firing exactly when one subterm is rewritten as its shape says. |
| `Rewriter.PassLeads` | topics/21-formal/experiments/src/hand.rs:32-48 | A pass rewrites exactly as many subterms, one after another, as it counts. |
| `Rewriter.MeaningPreserved` | topics/21-formal/experiments/src/hand.rs:20-133 | On division-free terms the result has the same integer value in every environment. |
| `Rewriter.DivisionPreserved` | topics/21-formal/experiments/src/hand.rs:20-133 | With division, a term without products in its numerators keeps its value wherever no divisor is zero and division truncates. |
| `Rewriter.DivisionLosesMeaning` | topics/21-formal/experiments/src/hand.rs:122-133 | With a product in a numerator it need not: (a*b)/2 at a = 2, b = 1 goes from 1 to 0. |
| `Rewriter.OrderIsIrrelevant` | topics/21-formal/experiments/src/hand.rs:14-30 | Trying the division rules first changes no result and no step count, on any term. |
| `Rewriter.TrapInBothOrders` | topics/21-formal/experiments/src/hand.rs:147-160 | (a*2)/2 ends as (a<<1)/2 in both orders. |
| `Ledger.UtxoSet` | topics/41-onchain-analytics/experiments/src/chain.rs:126-130 | Exactly the outputs not spent, ascending. |
| `Ledger.TotalValue` | topics/41-onchain-analytics/experiments/src/chain.rs:131-133 | The value of the unspent outputs. |
| `LedgerRuns.Transfer` | topics/41-onchain-analytics/experiments/src/chain.rs:184-255 | For all draws a turn keeps total value, the partition of the unspent outputs and sound transactions. It makes no transaction only if the sender drawn has nothing to spend, or its drawn inputs total less than two, and then changes at most the order of the sender's list. Otherwise it adds exactly one transaction, which spends one to max_inputs of the sender's unspent outputs and creates two outputs of at least one: one for another entity, if there is one, and one for the sender; all earlier outputs and transactions stay. |
| `LedgerRuns.ChainInstance` | topics/41-onchain-analytics/experiments/src/chain.rs:136-265 | For all draws the chain comes from n_entities coinbases of initial_value, one per entity, by n_txs such turns: the first n transactions are those coinbases, every later one such a payment, two outputs each. It holds exactly n_entities * initial_value unspent, partitioned by entity. |
| `Ledger.PaidSum` | topics/41-onchain-analytics/experiments/src/chain.rs:199-254 | A payment leaves the value of the UTXO set unchanged. |
| `Ledger.PaidPartition` | topics/41-onchain-analytics/experiments/src/chain.rs:244-254 | A payment leaves every unspent output in exactly one entity's list. |
| `Ledger.CoSpent` | topics/41-onchain-analytics/experiments/src/chain.rs:194-199 | All inputs of a transaction belong to one entity. |
| `Taint.SharesAddUp` | topics/41-onchain-analytics/experiments/src/taint.rs:103-106 | The two half-up rounded shares of a payment add up to exactly its dirty value, or to one more if and only if they are exact halves. |
| `Taint.Haircut` | topics/41-onchain-analytics/experiments/src/taint.rs:89-109 | Taint never exceeds an output's value, reaches only descendants of the origin, and what is unspent of it is the stolen value plus the number of payments whose shares are exact halves. |
| `TaintShares.HaircutSettles` | topics/41-onchain-analytics/experiments/src/taint.rs:89-109 | In the final taints the stolen output has its whole value; any other output has its value's share of the taint its transaction spends, rounded half up, and none if that spends none. |
| `TaintShares.SettledIsOne` | topics/41-onchain-analytics/experiments/src/taint.rs:89-109 | No other list of taints is so. |
| `Taint.FlaggedAfterHaircut` | topics/41-onchain-analytics/experiments/src/taint.rs:76-109 | The flagged value in the UTXO set is the stolen value plus one unit for each payment that splits in exact halves. |
| `Taint.ConservedWhen` | topics/41-onchain-analytics/experiments/src/taint.rs:85-88 | The flagged value is the stolen value if and only if no payment splits its dirty inputs in exact halves. |
| `Taint.OddTotalsConserve` | topics/41-onchain-analytics/experiments/src/taint.rs:85-88 | Seen on the chain alone: it is, if every payment that spends a descendant of the theft moves an odd total. |
| `Taint.GainsAreFew` | topics/41-onchain-analytics/experiments/src/taint.rs:89-109 | The gain is at most one unit a payment. |
| `Taint.HaircutGains` | topics/41-onchain-analytics/experiments/src/taint.rs:85-88 | On a chain with all the invariants of the generator, 3 stolen units are flagged as 4. |
| `Taint.FlaggedValue` | topics/41-onchain-analytics/experiments/src/taint.rs:76-83 | The taint on unspent outputs. |
| `Taint.Descendants` | topics/41-onchain-analytics/experiments/src/chain.rs:271-285 | The stack search returns exactly the outputs reached along spending transactions. |
| `Replacement.Lru.Access` | topics/06-buffer-pool/experiments/benches/eviction.rs:76-91 | One access is one step of the queue specification, and reports whether the page was there. |
| `Replacement.Lru.Hits` | topics/06-buffer-pool/experiments/benches/eviction.rs:125-129 | The hits of a whole trace on an empty cache. |
| `Replacement.RecencyIs` | topics/06-buffer-pool/experiments/benches/eviction.rs:63-91 | The recency list of a trace is its distinct pages by last access. |
| `Replacement.LruIsRecent` | topics/06-buffer-pool/experiments/benches/eviction.rs:76-91 | After any trace the queue is the cap most recently used distinct pages, in order. |
| `Replacement.LruInclusion` | topics/06-buffer-pool/experiments/benches/eviction.rs:76-91 | A larger cache holds all a smaller one does. |
| `Replacement.LruHitsMonotone` | topics/06-buffer-pool/experiments/benches/eviction.rs:76-91 | A larger cache hits at least as often, on every trace. |
| `Replacement.Fifo.Access` | topics/06-buffer-pool/experiments/benches/eviction.rs:105-116 | One access is one step of the FIFO specification, and reports whether the page was there. |
| `FifoCapacity.FifoMonotoneExactly` | topics/06-buffer-pool/experiments/benches/eviction.rs:105-116 | For capacities n <= m: m frames hit at least as often as n on every trace if and only if m = n or m >= 2n - 1. |
| `FifoCapacity.CreditBound` | topics/06-buffer-pool/experiments/benches/eviction.rs:105-116 | With m >= 2n - 1 every hit of the small cache alone is paid for by an earlier hit of the large cache alone, on every trace. |
| `FifoCapacity.FifoAnomaly` | topics/06-buffer-pool/experiments/benches/eviction.rs:105-116 | With n < m < 2n - 1 the trace 1..m, 1..n-1, 0, 1..m, 0 hits exactly once less with m frames (Belady). |
| `FifoCapacity.FifoFits` | topics/06-buffer-pool/experiments/benches/eviction.rs:105-116 | A cache with room for every page of a trace hits at least as often as any other on it. |
| `FifoCapacity.HoldsLastLoads` | topics/06-buffer-pool/experiments/benches/eviction.rs:105-116 | FIFO holds exactly the last pages loaded, up to the capacity. |
| `ClockPolicy.Clock.Access` | topics/06-buffer-pool/experiments/benches/eviction.rs:38-61 | Map and frames stay inverse with usage at most 5; the victim is the first frame of least usage from the hand on, found within the sum of usages and one step. |
| `ClockPolicy.Clock.Sweep` | topics/06-buffer-pool/experiments/benches/eviction.rs:50-60 | The victim loop, and what it leaves in every frame. |
| `ClockPolicy.SweepEnds` | topics/06-buffer-pool/experiments/benches/eviction.rs:50-60 | Where the first usage becomes zero is the first frame of least usage, and every other usage has dropped by the rounds that passed it. |
| `ClockPolicy.SecondChance` | topics/06-buffer-pool/experiments/benches/eviction.rs:50-60 | No usage grows in a sweep, and a frame of usage zero is spared only if the victim has usage zero and comes before it. |

## Left out

- Integer widths: counters, clocks, values and ids that are u32, u64, usize or i64 in the source are unbounded here, under the assumption that they do not overflow. Where width is part of the behaviour it is modelled: key and value bytes of the log, 32-bit varint shifts, the 64-bit and 128-bit codec words, wrapping i64 offsets, the u64 infinities.
- Randomness: every draw (tear length, coin, sender, shuffle, payment, address reuse) is an arbitrary choice or a parameter; distributions and seeds are not modelled.
- Floating point: sigma is a natural number, matrix values are integers, centrality and cluster quality are exact reals, and ALP's float arithmetic is a pair of arbitrary functions on bit patterns.
- Taint.Haircut: the fraction is exact and rounded half up; rounding of the fraction to a double, which could move a share by more, is not modelled.
- LedgerRuns.Transfer: the payment may be any amount from 1 to the input total less 1, which includes the 10 to 70 percent the source draws.
- Postings.GetVarint: the buffer must hold the whole number, in at most five bytes; on other buffers the source panics or shifts by more than the word. The bit-packing decoder is stated for buffers that start with an encoding.
- AlpCodec.EncodeVector: vectors have at most 65536 values, since exception positions are u16; `alp_encode` cuts columns into vectors of 1024.
- Dijkstra.Run: at most 2^32 vertices and weights below 2^32, the source's u32 types, so that no distance reaches the u64 infinity.
- Betweenness.Brute: at most 512 vertices, as the source asserts.
- OverloadCollapse.MetastableCollapse: is about attempts that arrive while load is offered. Policies are functions of the history, which covers stateful ones.
- OverloadTrigger.LargeTriggerTips: the stated length of the outage is enough; the least one that tips a given load is not computed.
- Rewriter.MeaningPreserved: is for division-free terms over unbounded integers, `Rewriter.DivisionPreserved` for terms without products in numerators. Beyond them it can fail (`Rewriter.DivisionLosesMeaning`); constant folding that overflows i64 is not modelled.
- Temporal.EarliestArrival: a trip that arrives at exactly the maximal u64 shows as that value, like no trip, as in the source.
- Triangles on graphs with loops or unsymmetric edges: the counters are specified for the graphs their builders make.
- Binary heaps, hash maps and the library's sorts are multisets or sequences with extract-min, maps, and sorted permutations.
- Key-value bug settings other than NoSyncOnCommit: their steps are modelled, their failures are not stated, since one short trace shows each.
- Exercise stubs (Brandes, delta-stepping, Afforest, dominators, incremental join, poison and FIFO taint and the like) have no body to model.
- Generators of graphs, contacts, chains' configurations and churn, `replay_at_time`, `rank_chokepoints`, PageRank and percentiles: easy or without an exact property.

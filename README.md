# gcd-clique-solver, modelled in Dafny

This project models the core of gcd-clique-solver. The repository is a set of small, single-threaded search routines over integer graphs and boolean formulas, with the helpers they rest on:

- **k-clique finders.**
  - The level-wise growth finder (`src/algos/clique2.py`, module `Clique2`).
  - Its older enumerator without pruning (`clique2.py`, module `CliqueUnpruned`).
  - The prime-encoding finder (`src/algos/clique1.py`, module `Clique1`). Every vertex gets a prime. Its signature is that prime times the primes of its neighbours. A clique is a product of primes dividing the signatures of all its members.
- **Prime utilities** (`prime_util.py`, module `PrimeUtil`): the sieve, divisor enumeration from prime factors, and trial-division factorisation.
- **Graphs** (`src/util/graphs.py`, module `Graphs`): the weighted `Graph` object, the uniform-cost search `dfs`, the weighted file format and `add_clique`.
- **Older graph helpers.** The unweighted format (`graphio.py`, module `GraphIO`). The random-graph helpers (`graph_util.py`, module `GraphUtil`).
- **Brute-force travelling-salesman solver** (`src/algos/tsp1.py`, module `Tsp`).
- **Boolean satisfiability.**
  - Literals, clauses, evaluation, variable names, the random generator and the file format (`src/util/sats.py`, module `Sats`).
  - The three incremental 3-SAT solvers (`src/algos/three_sat.py`, `three_sat1.py`, `three_sat2.py`, modules `ThreeSat`, `ThreeSat1`, `ThreeSat2`).
- **Line cleaning** of data files (`src/util/fileio.py`, module `FileIO`).

Shared pieces:
- `Wrappers`: Option, Result and the Python exceptions the code can raise.
- `Arith`: products, divisibility, primes, Euclid's lemma.
- `Text`: the `str` built-ins the readers and writers use.
- `LineParse`: the reading and writing shape common to both graph formats.

Each imperative routine is a Dafny `method` with its loops and invariants. It is proved against a specification function, and the properties the source promises are proved as lemmas about that function:

- The clique finders return cliques, and lose none to pruning.
- The 3-SAT solvers are sound and complete, and `None` comes back exactly when the problem is unsatisfiable.
- The sieve returns the first n primes.
- Divisor enumeration lists every divisor once, and factorisation round-trips.
- `dfs` returns shortest distances.
- The TSP solver returns the first cheapest tour.
- The readers and writers round-trip.

Objects whose fields the source updates are classes:
- `Graphs.Graph`: neighbour lists and weight table.
- `Clique1.PrimeGraph`: prime maps, signatures and neighbour lists, with `append` in place.

Exceptions become `Result` values. Random picks, iteration order over Python sets and file contents are parameters.

`clique1.py` imports `prime_list` and `divisors_from_prime_factors` from `util.primes`. That module is not part of this model. `prime_util.py` has the same names and signatures and stands in for it.

## Model

| member | source | states |
|---|---|---|
| FileIO.CutComment | src/util/fileio.py:17-18 | the cut line is a prefix of the line without '#'; when the line holds a '#', the cut stops exactly at one |
| FileIO.CutCommentFind | src/util/fileio.py:17-18 | the cut is `line[:line.find("#")]` when a '#' occurs and the whole line otherwise |
| FileIO.CleanLineIsDataLine | src/util/fileio.py:17-24 | a cleaned line that is kept is nonempty, holds no '#' and has no surrounding whitespace |
| FileIO.DataLineUnchanged | src/util/fileio.py:17-24 | a nonempty, '#'-free, already stripped line passes through unchanged |
| FileIO.CleanLinesAppend | src/util/fileio.py:15-24 | cleaning works line by line: the data lines of `a + b` are those of `a` followed by those of `b`, so input order is kept |
| FileIO.CleanLinesAreDataLines | src/util/fileio.py:15-24 | every output line is nonempty, '#'-free and stripped |
| FileIO.CleanDataLines | src/util/fileio.py:15-24 | cleaning lines that are already data lines returns them unchanged (idempotence) |
| FileIO.ReadDataLines | src/util/fileio.py:13-25 | the cleaning loop returns exactly the data lines of the raw lines, in order, each a data line |
| GraphIO.ParsePair | graphio.py:39-40 | an edge line parses only when split() gives exactly two tokens that are both integers; any other token count is ValueError |
| GraphIO.ReadFromFile | graphio.py:15-43 | reading is the cleaning loop followed by the header, vertex and edge loops over the cleaned lines |
| GraphIO.WriteToFile | graphio.py:55-61 | the file has 2 + vertices + edges lines: the two counts, one vertex per line, one "v0 v1" per edge, each ended by a newline |
| GraphIO.EdgeTextParses | graphio.py:39-40 | a written "v0 v1" text is a data line and parses back to the same edge |
| GraphIO.RoundTrip | graphio.py:15-61 | reading back what write_to_file wrote gives the same vertices and edges |
| GraphIO.WrittenTexts | graphio.py:17-26 | cleaning the written lines only drops their newlines |
| GraphIO.ReadTexts | graphio.py:28-43 | the written texts parse back to the graph |
| LineParse.ParseEachOk | graphio.py:33-41 | a successful run of a reading loop stays within the lines and yields one value per line, each the parse of the line at the running index |
| LineParse.ParseEachErr | graphio.py:33-41 | once a loop iteration raises, the loop's result is that first error whatever the remaining count |
| LineParse.ParseEachEncoded | graphio.py:33-41 | lines that parse to given items, in order, are read back as exactly those items |
| LineParse.ParseGraphOf | graphio.py:28-43 | a header giving the two lengths followed by lines reading as the vertices and then the edges reads as that graph |
| LineParse.ParseGraphParts | graphio.py:28-43 | a successful read has both header lines and is the result of the vertex loop and then the edge loop |
| LineParse.ParseGraphShape | graphio.py:28-43 | a successful read has exactly as many vertices and edges as the header counts (none for a negative count), each read from its own line after the header |
| LineParse.LoopsShape | graphio.py:33-41 | the two loops read consecutive lines from index 2 on, the edges right after the vertices |
| LineParse.ReadEach | graphio.py:33-41 | the loop over `range(count)` with a running index returns the specified reading: IndexError past the last line, or the first parse error |
| LineParse.ReadGraph | src/util/graphs.py:110-131 | the body after cleaning: IndexError or ValueError from the two header lines, then the vertex loop, then the edge loop |
| LineParse.GraphTexts | src/util/graphs.py:143-149 | the written texts are the two counts, then one per vertex, then one per edge, in order |
| LineParse.CleanWrittenLine | src/util/fileio.py:17-24 | a written data line (text plus newline) cleans back to its text |
| LineParse.CleanWritten | src/util/fileio.py:15-24 | cleaning written data lines gives the texts back |
| LineParse.CleanWrittenGraph | src/util/graphs.py:143-149 | the written lines of a graph clean back to its texts when every edge text is a data line |
| LineParse.ReadGraphTexts | src/util/graphs.py:110-131 | the written texts of a graph read back as the graph whenever every edge text reads back as its edge |
| LineParse.ReadLaidOut | graphio.py:28-43 | lines laid out as counts, vertex texts and edge texts read back as the graph |
| LineParse.HeaderReadBack | graphio.py:28-29 | two written counts read back as the counts |
| LineParse.GraphTextsAreDataLines | src/util/graphs.py:143-149 | every written count and vertex text is a data line, and so is every edge text when its writer gives data lines |
| LineParse.IntsReadBack | graphio.py:34-37 | written vertex ids read back as the same ids |
| LineParse.JoinedInts | src/util/graphs.py:149 | integers joined by spaces form a data line whose split() gives back their texts |
| Text.StripBounds | src/util/fileio.py:21 | strip() removes exactly a leading and a trailing run of whitespace and leaves a text that starts and ends with non-whitespace |
| Text.StripTrimmed | src/util/fileio.py:21 | strip() leaves an already stripped text unchanged |
| Text.Find | src/util/fileio.py:18 | find() is -1 exactly when the character is absent; otherwise it is the first index holding it |
| Text.SplitTokens | src/util/graphs.py:121 | every token split() produces is nonempty and free of whitespace |
| Text.SplitJoin | src/util/graphs.py:121 | split() of tokens joined by single spaces gives the tokens back |
| Text.IntToStringShape | src/util/graphs.py:144-149 | a formatted integer is nonempty and holds no whitespace and no '#' |
| Text.ParseIntToString | src/util/graphs.py:110-117 | int(str(n)) == n for every integer n |
| Graphs.IncidentSymmetric | src/util/graphs.py:29-31 | `(b, w)` is in a's neighbour list exactly when `(a, w)` is in b's, and each list has one entry per edge end at its vertex (a self-loop counts twice) |
| Graphs.IncidentEndpoints | src/util/graphs.py:29-31 | every listed neighbour is an endpoint of an edge, hence a vertex |
| Graphs.WeightTableSpec | src/util/graphs.py:34-37 | the weight table has an entry for (a, b) exactly when some edge joins a and b; the entry is the weight of the last such edge, and it is the same both ways |
| Graphs.LastWeightSome | src/util/graphs.py:34-37 | a last joining edge is found exactly when some edge joins the two vertices, in either direction |
| Graphs.TableStep | src/util/graphs.py:29-31 | one iteration (append to v0's list, then to v1's) keeps every list equal to the incident pairs of the edges seen so far |
| Graphs.IncidentStep | src/util/graphs.py:29-31 | the incident pairs of one vertex after one more edge: v0's list gains (v1, w), then v1's list gains (v0, w), both for a self-loop |
| Graphs.Graph.constructor | src/util/graphs.py:20-37 | the graph keeps its vertices and edges, its neighbour table is one list per vertex of the incident (node, weight) pairs in edge order, and its weight table is the last-edge-wins symmetric table |
| Graphs.ParseEdge | src/util/graphs.py:121-127 | an edge line with two integer tokens has weight 1, one with three takes the third as weight, any other token count is ValueError |
| Graphs.ReadFromFile | src/util/graphs.py:108-131 | reading is read_data_lines followed by the header, vertex and edge loops |
| Graphs.WriteToFile | src/util/graphs.py:143-149 | the file has the two counts, one vertex per line and one "v0 v1 weight" per edge, each ended by a newline |
| Graphs.EdgeTextParses | src/util/graphs.py:121-125 | a written "v0 v1 weight" text is a data line and parses back to the same edge |
| Graphs.RoundTrip | src/util/graphs.py:108-149 | reading back what write_to_file wrote gives the same vertices and weighted edges |
| Graphs.WrittenTexts | src/util/graphs.py:143-149 | cleaning the written lines only drops their newlines |
| Graphs.ReadTexts | src/util/graphs.py:110-131 | the written texts parse back to the graph |
| Graphs.AddClique | src/util/graphs.py:71-85 | IndexError exactly when k > 0 draws are made from no vertices; otherwise the edge list is the old list followed by each offered (c_i, c_j, 1), i < j, that was absent: the old edges stay in place, every pair of chosen vertices is joined, and no appended tuple repeats an earlier one |
| Graphs.MinEntry | src/util/graphs.py:170 | a non-empty priority queue has a least (distance, node) entry in lexicographic order, the one `q.get()` returns |
| Graphs.WalkExtend | src/util/graphs.py:184-187 | following one more neighbour entry from a walk's end extends it, adding that entry's weight to the cost |
| Graphs.WalkToExtend | src/util/graphs.py:184-187 | a node reachable at cost d makes each of its neighbours reachable at d plus the edge weight |
| Graphs.CostNonNeg | src/util/graphs.py:184-187 | with nonnegative weights every walk costs at least 0 |
| Graphs.FirstUnsettled | src/util/graphs.py:169-187 | a walk from the start to a node not yet recorded passes a queued entry no more expensive than the walk, when weights are nonnegative |
| Graphs.PushedHas | src/util/graphs.py:185-187 | every neighbour not yet recorded is queued at the current distance plus its weight |
| Graphs.PushedFrom | src/util/graphs.py:185-187 | every queued entry comes from a neighbour not yet recorded |
| Graphs.PushedStep | src/util/graphs.py:185-187 | the entries queued for one more neighbour are added to those queued before |
| Graphs.PushNeighbors | src/util/graphs.py:184-187 | the inner loop adds exactly the entries of the unrecorded neighbours to the queue |
| Graphs.SettleMinimal | src/util/graphs.py:170-178 | recording the least queued entry's node keeps every recorded distance no greater than any walk to that node, when weights are nonnegative |
| Graphs.SettleExpanded | src/util/graphs.py:178-187 | after recording a node and queueing its neighbours, each neighbour of a recorded node is recorded or queued |
| Graphs.SettleQueue | src/util/graphs.py:170-187 | every queued entry stays the cost of a walk to its node, and no queued entry is cheaper than the one just taken, when weights are nonnegative |
| Graphs.PushedEntry | src/util/graphs.py:184-187 | an entry pushed from the settled node is the cost of a walk through it, to a node with a neighbour list, and no cheaper than the settled node when weights are nonnegative |
| Graphs.SettleOrdered | src/util/graphs.py:170-187 | recorded distances stay no greater than any queued one, with the new distance as the new bound |
| Graphs.SettleDist | src/util/graphs.py:173-178 | each recorded distance is the cost of a walk to its node, and the start is recorded at 0 |
| Graphs.PushedExactly | src/util/graphs.py:185-187 | the entries pushed are exactly those of the unrecorded neighbours |
| Graphs.Settle | src/util/graphs.py:170-187 | one recording iteration of the while loop preserves the search invariant |
| Graphs.Skip | src/util/graphs.py:173-174 | popping an entry whose node is already recorded preserves the invariant |
| Graphs.Exhausted | src/util/graphs.py:169-189 | when the queue runs empty every node reachable from the start is recorded, and the result satisfies dfs's contract |
| Graphs.AtTarget | src/util/graphs.py:179-180 | recording the target stops the search with a result that satisfies dfs's contract, the target at the greatest distance |
| Graphs.AtMissing | src/util/graphs.py:184 | looking up the neighbours of a node without a list (only the start can be one) raises KeyError |
| Graphs.Fewer | src/util/graphs.py:178 | recording a new node shrinks the set of nodes still unrecorded |
| Graphs.Visit | src/util/graphs.py:170-187 | one pass of the while loop either stops with a result meeting dfs's contract or keeps the invariant while the queue or the unrecorded set shrinks |
| Graphs.Dfs | src/util/graphs.py:152-189 | KeyError exactly when the start has no neighbour list and is not the target; otherwise the start is at 0, every distance is the cost of a walk, every distance is a shortest one when weights are nonnegative, every reachable node is recorded unless the target stopped the search, and a reached target has the greatest distance |
| Graphs.NeighborTableSymmetric | src/util/graphs.py:24-31 | every neighbour the constructor lists has its own list, which lists the node back at the same weight |
| Graphs.WalkPrepend | src/util/graphs.py:184-187 | a step from x to u put in front of a walk from u is a walk from x, ending where it ended, costing the step's weight more |
| Graphs.WalkReverse | src/util/graphs.py:24-31 | over symmetric lists every walk from s has a walk back to s from its end, of the same cost |
| Graphs.WalkToSymmetric | src/util/graphs.py:24-31 | over symmetric lists y is reachable from x at cost d exactly when x is reachable from y at cost d |
| Graphs.DfsSymmetric | src/test/test_graphs.py:54-57 | complete searches from a and from b over symmetric lists with nonnegative weights agree: b is reached from a exactly when a is reached from b, and `distances_a[b] == distances_b[a]` |
| GraphUtil.Pick | graph_util.py:21 | the drawn items are the population entries at the given draw indices |
| GraphUtil.Choices | graph_util.py:34 | `random.choices(pop, k=k)` gives max(k, 0) items of the population, and IndexError when k > 0 draws are made from an empty population |
| GraphUtil.Range | graph_util.py:19 | `[i for i in range(n)]` is 0, 1, ..., n - 1 (empty for n <= 0) |
| GraphUtil.RowShape | graph_util.py:20 | the pairs for vertex i are (i, i+1), ..., (i, v-1) |
| GraphUtil.RowsMembers | graph_util.py:20 | the rows from i on hold exactly the pairs (a, b) with i <= a < b < v |
| GraphUtil.RowsSorted | graph_util.py:20 | the rows from i on are in strictly increasing lexicographic order |
| GraphUtil.PoolMembers | graph_util.py:19-20 | the candidate pool holds every pair (i, j) with 0 <= i < j < v, each exactly once |
| GraphUtil.RowsSize | graph_util.py:20 | twice the number of pairs from row i on is (v - i)(v - i - 1) |
| GraphUtil.PoolSize | graph_util.py:19-20 | the pool has v(v - 1)/2 pairs and is empty exactly when v <= 1 |
| GraphUtil.GenerateRandomGraph | graph_util.py:11-22 | the vertices are 0..v-1 and the edges are max(e, 0) picks from the pool, each (i, j) with 0 <= i < j < v; IndexError exactly when e > 0 picks are made from an empty pool |
| GraphUtil.PairRowShape | graph_util.py:36-37 | the inner loop for row i offers (c_i, c_(i+1)), ..., in order |
| GraphUtil.PairRowsHas | graph_util.py:35-37 | the first i rows offer every pair (c_a, c_b) with a < i and a < b |
| GraphUtil.PairRowsFrom | graph_util.py:35-37 | every pair the first i rows offer is some (c_a, c_b) with a < b and a < i |
| GraphUtil.CliquePairsMembers | graph_util.py:35-37 | every (c_i, c_j) with i < j is offered |
| GraphUtil.CliquePairsFrom | graph_util.py:35-37 | every offered edge is some (c_a, c_b) with a < b |
| GraphUtil.AppendAbsentSpec | graph_util.py:38-39 | appending only absent items keeps the old list as a prefix, the result holds exactly the old items and the offered ones, and no appended item repeats an earlier one |
| GraphUtil.AppendAbsentDistinct | graph_util.py:38-39 | a duplicate-free edge list stays duplicate-free |
| GraphUtil.AddCliqueEdges | graph_util.py:35-39 | the nested loops leave the old list followed by each offered pair that was absent, in offer order |
| GraphUtil.OfferRow | graph_util.py:36-39 | the inner loop for row i appends each absent (c_i, c_j), j > i, in order |
| GraphUtil.OfferStep | graph_util.py:37-39 | offering one more edge appends it exactly when it is absent |
| GraphUtil.AddCliqueEdgesSpec | graph_util.py:35-39 | after the loops the old edges are a prefix, every (c_i, c_j) with i < j is present, and no appended edge repeats an earlier one |
| GraphUtil.AddClique | graph_util.py:25-39 | IndexError exactly when k > 0 draws are made from no vertices; otherwise the old edges stay in place and every pair of chosen vertices, in draw order, is present |
| Tsp.TailCovered | src/algos/tsp1.py:22-25 | every row before i keeps a distance for each later vertex, and row i has one for each vertex after it |
| Tsp.RowLinks | src/algos/tsp1.py:24-25 | one row's edges join v0 only to the vertices after it, and v0 to such a vertex y at the distance the search found for y |
| Tsp.LastWeightAppend | src/util/graphs.py:34-37 | when the weight table is built from two edge lists in turn, the later list's edge for a pair wins |
| Tsp.PairEdgesIn | src/algos/tsp1.py:20-26 | every reduced edge joins two of the listed vertices, so the reduced graph is well formed |
| Tsp.RowIn | src/algos/tsp1.py:24-25 | one row's edges join listed vertices only |
| Tsp.PairWeight | src/algos/tsp1.py:22-25 | for distinct vertices, the last reduced edge between vs[i] and a later vs[j] carries the distance found by the search from vs[i] |
| Tsp.ReducedWeights | src/algos/tsp1.py:20-26 | the reduced graph has the weight for vs[i] and a later vs[j] in both directions, and it is the search distance from vs[i] to vs[j] |
| Tsp.ReduceRow | src/algos/tsp1.py:24-25 | one row fails with KeyError exactly when some later vertex has no distance; otherwise it yields that row's edges in order |
| Tsp.SearchedReaches | src/util/graphs.py:152-189 | a complete search from s has a distance for x exactly when some walk from s ends at x |
| Tsp.RowDone | src/algos/tsp1.py:22-25 | a row whose search reaches every later vertex does not fail, and it appends exactly that row's edges |
| Tsp.SearchedSnoc | src/algos/tsp1.py:23 | appending another completed search keeps every row a search result from its vertex |
| Tsp.Reduce | src/algos/tsp1.py:20-26 | the reduction fails with KeyError exactly when some vertex has no neighbour list or cannot reach a later vertex; otherwise the edges are the pairwise search distances in order |
| Tsp.GrowSound | src/algos/tsp1.py:34-37 | every extension of a partial tour adds one vertex of the list that it did not visit yet |
| Tsp.GrowComplete | src/algos/tsp1.py:34-37 | every unvisited vertex of the list gives an extension |
| Tsp.ExtendMembers | src/algos/tsp1.py:31-38 | a pass yields exactly the extensions of the partial tours it starts from |
| Tsp.LevelSound | src/algos/tsp1.py:29-38 | after i passes every partial tour visits i distinct listed vertices |
| Tsp.GrowStep | src/algos/tsp1.py:31-38 | one pass turns arrangements of n vertices into arrangements of n + 1 |
| Tsp.LevelComplete | src/algos/tsp1.py:29-38 | every arrangement of i distinct listed vertices is among the partial tours after i passes, so every ordering is enumerated |
| Tsp.GrowInto | src/algos/tsp1.py:34-37 | the innermost loop appends the extensions of one partial tour |
| Tsp.ExtendAll | src/algos/tsp1.py:31-38 | one pass computes the extensions of all partial tours, in order |
| Tsp.Orderings | src/algos/tsp1.py:29-38 | the loop computes the partial tours after one pass per vertex |
| Tsp.Score | src/algos/tsp1.py:44-48 | a tour's score is the sum of the reduced weights of its closing hop and its consecutive hops, or KeyError when a hop is missing |
| Tsp.ErrStays | src/algos/tsp1.py:45-48 | once a hop is missing the score fails with KeyError whatever follows |
| Tsp.ErrIsKey | src/algos/tsp1.py:48 | the only failure of scoring is KeyError |
| Tsp.CostOk | src/algos/tsp1.py:45-48 | a tour has a score exactly when the reduced table has every hop |
| Tsp.CostAppend | src/algos/tsp1.py:45-48 | the score of a split hop list is the sum of the parts' scores, and fails when either fails |
| Tsp.RotationSameScore | src/algos/tsp1.py:45-48 | a closed tour scores the same from whichever vertex it starts |
| Tsp.HopsRotate | src/algos/tsp1.py:45-47 | starting a closed tour k places later rotates its hop list by k |
| Tsp.Scores | src/algos/tsp1.py:43-48 | a list of scores has one entry per tour |
| Tsp.PickSpec | src/algos/tsp1.py:41-51 | the kept score is at most 9999999 and at most every score; no tour is kept exactly when no score is below 9999999; a kept tour has the kept score and is the first one that does |
| Tsp.Best | src/algos/tsp1.py:41-53 | the selection loop fails as soon as a tour has no score, and otherwise keeps the cheapest tour as the selection function does |
| Tsp.BestFails | src/algos/tsp1.py:43-48 | a tour without a score makes the whole selection fail with its error |
| Tsp.BestStep | src/algos/tsp1.py:49-51 | one more scored tour replaces the kept one exactly when its score is strictly lower |
| Tsp.ScoresErr | src/algos/tsp1.py:43-48 | a failure among the first tours is the failure of the whole list |
| Tsp.ScoresOk | src/algos/tsp1.py:43-48 | when every tour has a score, the list holds exactly those scores |
| Tsp.ReducedShortest | src/algos/tsp1.py:20-26 | each reduced weight is the cost of a walk between its two vertices, and with nonnegative weights no walk between them costs less |
| Tsp.HopsPresent | src/algos/tsp1.py:43-48 | every ordering of two or more distinct vertices has a score in the reduced graph |
| Tsp.SelectionBest | src/algos/tsp1.py:41-53 | over a list of exactly the orderings, all scored, the selection keeps a tour no other ordering beats, the first with that score, and none only when all cost at least 9999999 |
| Tsp.PickBest | src/algos/tsp1.py:41-51 | the kept result is the best tour over all orderings |
| Tsp.PickKept | src/algos/tsp1.py:49-51 | a kept tour is an ordering, scores the kept score below 9999999, and every tour enumerated before it scores strictly more |
| Tsp.OutcomeBest | src/algos/tsp1.py:9-53 | for two or more distinct vertices that all reach each other, the solver returns the best tour over all orderings with its score |
| Tsp.OutcomeEmpty | src/algos/tsp1.py:29-53 | an empty vertex list gives the empty tour with score 0 |
| Tsp.OutcomeSingle | src/algos/tsp1.py:20-48 | a single vertex has no reduced edge, so scoring its only tour fails with KeyError |
| Tsp.Solve | src/algos/tsp1.py:9-53 | the solver fails with KeyError whenever some vertex has no neighbour list or cannot reach a later vertex; otherwise its result is the selection over all orderings of the reduced graph built from the searches |
| Clique2.DistinctCount | src/algos/clique2.py:21-24 | in a list without repeats each vertex occurs once or not at all |
| Clique2.EqIff | src/algos/clique2.py:21-24 | for candidates without repeated vertices, equality (same product and same vertex set) holds exactly when the vertex sets agree; the product check only rules pairs out |
| Clique2.Add | src/algos/clique2.py:56-60 | adding to the set of candidates leaves it unchanged when an equal candidate is present, and appends the new one otherwise |
| Clique2.AddSets | src/algos/clique2.py:80-82 | adding a candidate adds its vertex set to the sets present, keeps each vertex set once, and brings in nothing else |
| Clique2.ClosedIff | src/algos/clique2.py:47-52 | a vertex's neighbour set holds the vertex itself and exactly the vertices an edge joins to it, in either direction |
| Clique2.NbrMapOk | src/algos/clique2.py:47-52 | when every edge joins listed vertices, every neighbour set contains its own vertex, holds only listed vertices, and the relation is symmetric |
| Clique2.ClosedNeighbors | src/algos/clique2.py:47-52 | building the neighbour sets fails with KeyError exactly when an edge has an unlisted endpoint, and otherwise yields each vertex's closed neighbourhood |
| Clique2.EmptySets | src/algos/clique2.py:47 | one empty set per listed vertex |
| Clique2.AddSelves | src/algos/clique2.py:48-49 | each vertex's set becomes the vertex itself |
| Clique2.AddEdges | src/algos/clique2.py:50-52 | adding both ends of every edge fails with KeyError exactly when an edge has an unlisted endpoint, and otherwise completes the closed neighbourhoods |
| Clique2.NotEndpointsIn | src/algos/clique2.py:51-52 | an edge with an unlisted endpoint makes the edge list ill formed |
| Clique2.CommonIff | src/algos/clique2.py:76 | a vertex is seen by every member exactly when it is in each member's neighbour set |
| Clique2.SubsetCard | src/algos/clique2.py:78 | a subset has no more elements than its superset |
| Clique2.DistinctCard | src/algos/clique2.py:56-60 | a list without repeats has as many members as entries |
| Clique2.NbrIn | src/algos/clique2.py:47-52 | a vertex's neighbour set holds the vertex and only listed vertices |
| Clique2.Seeds | src/algos/clique2.py:56-60 | the initial candidates are exactly the single vertices with at least k closed neighbours, and every part of size 1 of a k-clique is among them |
| Clique2.CandidateExtend | src/algos/clique2.py:68-82 | adding a vertex that every member sees and that keeps k vertices reachable yields a candidate one larger |
| Clique2.Extend | src/algos/clique2.py:64-83 | one iteration turns candidates covering every L-vertex part of every k-clique into candidates covering every (L+1)-vertex part, each vertex set once |
| Clique2.GrowAll | src/algos/clique2.py:67-82 | processing one candidate adds exactly its valid extensions, keeps the vertex sets unique, and loses none already present |
| Clique2.ReachableIn | src/algos/clique2.py:68 | every vertex a candidate can still reach is a listed vertex |
| Clique2.AddGrown | src/algos/clique2.py:80-82 | adding one extension keeps every candidate valid and unique, and adds exactly its vertex set |
| Clique2.ExtendComplete | src/algos/clique2.py:64-83 | when every valid extension is present, every (L+1)-vertex part of a k-clique is among the new candidates |
| Clique2.PartGrown | src/algos/clique2.py:68-82 | every (L+1)-vertex part of a k-clique is a valid extension of some L-vertex candidate |
| Clique2.KCliqueIff | src/algos/clique2.py:47-52 | a k-clique of the neighbour sets is exactly a set of k listed vertices pairwise joined by an edge |
| Clique2.Solve | src/algos/clique2.py:38-88 | KeyError exactly when an edge has an unlisted endpoint; a returned list has k distinct pairwise joined vertices (one vertex when k < 2); none is returned exactly when the graph has no k-clique, and for k < 1 exactly when there are no vertices |
| Clique2.Outcome | src/algos/clique2.py:83-88 | after the last level every candidate is a clique of max(k, 1) vertices, and there is none exactly when the graph has no k-clique (for k < 1: no vertex) |
| Clique2.FoundClique | src/algos/clique2.py:85-87 | a surviving candidate is a clique of the graph, and one of size k shows that a k-clique exists |
| Clique2.NoneFound | src/algos/clique2.py:85-88 | when the graph has a k-clique some candidate survives, so `None` is returned only when there is none |
| CliqueUnpruned.OpenNbrsAppend | clique2.py:42-44 | one more edge appends to a vertex's list what that edge contributes |
| CliqueUnpruned.OpenNbrsIff | clique2.py:42-44 | a vertex's neighbour list holds exactly the vertices an edge joins to it |
| CliqueUnpruned.Neighbors | clique2.py:41-44 | building the lists fails with KeyError exactly when an edge has an unlisted endpoint, and otherwise yields each vertex's open neighbour list |
| CliqueUnpruned.ListsStep | clique2.py:42-44 | one iteration of the edge loop keeps every list equal to the neighbours of the edges seen so far |
| CliqueUnpruned.ListStep | clique2.py:43-44 | the two appends of one edge add exactly that edge's ends to a vertex's list, twice for a self-loop |
| CliqueUnpruned.Within | clique2.py:68 | the filtered list holds exactly the reachable vertices that are neighbours, and is no longer than the reachable list |
| CliqueUnpruned.NbrMapSymmetric | clique2.py:41-44 | when every edge joins listed vertices the neighbour lists are symmetric and mention only listed vertices |
| CliqueUnpruned.LinkedEnds | clique2.py:42-44 | the two ends of an edge are listed vertices and each is joined to the other |
| CliqueUnpruned.SymmetricIn | clique2.py:42-44 | a neighbour of v is a vertex that has v among its neighbours |
| CliqueUnpruned.GrownClique | clique2.py:55-70 | every candidate's vertex set is an L-clique of the neighbour lists |
| CliqueUnpruned.Seeds | clique2.py:48 | the initial candidates are exactly the single vertices, each with its neighbour list as reachable |
| CliqueUnpruned.Extend | clique2.py:52-71 | one iteration turns the set of all L-cliques into the set of all (L+1)-cliques, each vertex set once |
| CliqueUnpruned.GrowAll | clique2.py:55-70 | processing one candidate adds an (L+1)-clique for every reachable vertex outside it, keeps vertex sets unique, and adds nothing that is not a clique |
| CliqueUnpruned.GrowOne | clique2.py:59-70 | extending a candidate by a reachable vertex outside it yields a candidate one larger whose reachable list is what every member sees |
| CliqueUnpruned.ExtendComplete | clique2.py:52-71 | when every extension is present and only cliques are, the new candidates are exactly the (L+1)-cliques |
| CliqueUnpruned.LCliqueIff | clique2.py:41-44 | a clique of the neighbour lists is exactly a set of listed vertices pairwise joined by an edge |
| CliqueUnpruned.FindCliques | clique2.py:32-73 | KeyError exactly when an edge has an unlisted endpoint; otherwise the result holds each k-clique of the graph once (single vertices when k < 2), and nothing else |
| PrimeUtil.PrimesBelowSpec | prime_util.py:30-38 | the primes the sieve keeps below m are all prime, strictly increasing and below m, and every prime below m is among them |
| PrimeUtil.PrimesBelowPrefix | prime_util.py:32-38 | the primes below a are a prefix of the primes below any larger b, so stopping early yields the first ones |
| PrimeUtil.NoFactorInAppend | prime_util.py:40-42 | after crossing out the multiples of one more prime p, a number stays uncrossed exactly when it was and p does not divide it |
| PrimeUtil.PrimeFactorAtMost | prime_util.py:32-42 | a number above 0 with a divisor d >= 2 has a prime divisor no larger than d |
| PrimeUtil.SieveCellIsPrimality | prime_util.py:32-42 | a cell p is still marked when the sweep reaches it exactly when p is prime |
| PrimeUtil.CrossStep | prime_util.py:41-42 | one more step of the crossing loop crosses out exactly the next multiple of p |
| PrimeUtil.CrossOutMultiples | prime_util.py:41-42 | the crossing loop clears exactly the cells holding multiples of p from p on, and leaves every other cell as it was |
| PrimeUtil.PrimeList | prime_util.py:16-47 | for n > 0 the result is the first n primes when the sieve bound holds that many, and MathIsBroken otherwise; for n = 0 the whole list of primes up to the bound |
| PrimeUtil.FirstPrimes | prime_util.py:16-47 | the first n primes are n primes in increasing order with no prime skipped below the last |
| PrimeUtil.PrimeCounts | prime_util.py:83-86 | the counting loop builds the tally of the factors, each prime once in order of first appearance |
| PrimeUtil.BumpKeys | prime_util.py:84-85 | counting one more x adds x to the keys only when new and raises x's count by one, leaving the others |
| PrimeUtil.TallySpec | prime_util.py:83-86 | the tally's keys are the factors without repeats in order of first appearance, and each count is the number of occurrences |
| PrimeUtil.TallyDistinct | prime_util.py:83-86 | distinct factors are tallied once each in their own order |
| PrimeUtil.BumpNew | prime_util.py:85 | a new key is appended with count 1 |
| PrimeUtil.TallyKeysPrefix | prime_util.py:84-86 | counting more factors never reorders or removes a key |
| PrimeUtil.DedupPrefix | prime_util.py:84-86 | removing repeats from a longer list keeps the repeat-free prefix |
| PrimeUtil.CountEntry | prime_util.py:86 | with distinct keys, each entry's count is the key's count, and a positive count means the key is present |
| PrimeUtil.CountAbsent | prime_util.py:86 | a key that is not present has count 0 |
| PrimeUtil.GenerateDivisors | prime_util.py:59-81 | the recursive helper returns the divisor list defined by the remaining prime counts and the current divisor |
| PrimeUtil.KeysCons | prime_util.py:86 | the keys of a nonempty tally start with the first entry's key |
| PrimeUtil.PrimeKeysTail | prime_util.py:86 | the rest of a tally of distinct primes is one too, and does not hold the first prime |
| PrimeUtil.PowProdPositive | prime_util.py:59-81 | a product of powers of positive numbers is positive |
| PrimeUtil.PrimeKeysPositive | prime_util.py:86 | every key of a tally of primes is positive |
| PrimeUtil.PrimeNotKey | prime_util.py:59-81 | a prime that is not among the keys does not divide their product of powers |
| PrimeUtil.DivsLength | prime_util.py:59-81 | the helper returns the product of (exponent + 1) over the prime counts divisors |
| PrimeUtil.BlocksLength | prime_util.py:77-79 | m passes of the exponent loop each contribute the divisors of the remaining primes |
| PrimeUtil.BlockOf | prime_util.py:77-79 | every value produced by the exponent loop comes from one pass t, with the divisor times p to the t |
| PrimeUtil.BlockIncluded | prime_util.py:77-79 | every value of every pass is produced by the exponent loop |
| PrimeUtil.DivsHead | prime_util.py:74-79 | the first value the helper returns is the current divisor |
| PrimeUtil.BlocksPrefix | prime_util.py:77-79 | the first pass's values come first |
| PrimeUtil.DivsSound | prime_util.py:59-81 | every returned value is a multiple of the current divisor and divides it times the product of the prime powers |
| PrimeUtil.PrimePowerSplit | prime_util.py:77-79 | a divisor of p^e * R for a prime p is p^a times a divisor of R, with a <= e |
| PrimeUtil.DivsComplete | prime_util.py:59-81 | for distinct prime keys, the current divisor times every divisor of the product of prime powers is returned |
| PrimeUtil.PowerLayersDisjoint | prime_util.py:77-79 | different passes of the exponent loop produce different values |
| PrimeUtil.DivsDistinct | prime_util.py:59-81 | for distinct prime keys the helper returns no value twice |
| PrimeUtil.BlocksDistinct | prime_util.py:77-79 | the values of all passes of the exponent loop are pairwise different |
| PrimeUtil.PowProdBump | prime_util.py:84-85 | counting one more factor x multiplies the product of prime powers by x |
| PrimeUtil.PowProdTally | prime_util.py:83-86 | the product of the prime powers of the tally is the product of the factors |
| PrimeUtil.TallyPrimeKeys | prime_util.py:83-86 | tallying primes yields distinct prime keys |
| PrimeUtil.DivisorsFromPrimeFactors | prime_util.py:50-88 | the divisors come first with 1, one per combination of exponents; for a prime factorization they are distinct, all divide the product, every divisor of the product is there, and so is the product |
| PrimeUtil.DivisorsOfPrimes | prime_util.py:50-88 | for a prime factorization the result holds exactly the divisors of the product, each once |
| PrimeUtil.SmallestFactorPrime | prime_util.py:99-104 | the smallest divisor i >= 2 of a positive number is prime |
| PrimeUtil.DivideOut | prime_util.py:101-103 | dividing out i keeps the product of factors times the remainder unchanged, shrinks the remainder, and leaves no divisor below i |
| PrimeUtil.PrimeFactorization | prime_util.py:91-105 | for num <= 1 no factors; otherwise primes in nondecreasing order whose product is num, and the only such list |
| PrimeUtil.FactorizationUnique | prime_util.py:91-105 | two nondecreasing lists of primes with the same product are equal |
| PrimeUtil.PrimeProdPositive | prime_util.py:91-105 | a product of primes is at least 1 |
| PrimeUtil.PrimeProdAtLeastTwo | prime_util.py:91-105 | a nonempty product of primes is at least 2 |
| Clique1.ZipSpec | src/algos/clique1.py:45-46 | for distinct keys the dictionary built from two parallel lists has exactly the keys, each mapped to the value at its position |
| Clique1.ZipInverse | src/algos/clique1.py:45-46 | `p2v` undoes `v2p`: each vertex maps to a prime that maps back to it |
| Clique1.MapAll | src/algos/clique1.py:49 | renaming a list keeps its length and renames each entry through the dictionary |
| Clique1.PrimeEdges | src/algos/clique1.py:50 | the prime edge list has one pair per edge, both ends renamed, weight dropped |
| Clique1.SetupKeys | src/algos/clique1.py:45-50 | every vertex and every edge end has a prime, and every prime names its vertex |
| Clique1.LinkedRenamed | src/algos/clique1.py:50 | two primes are joined in the prime edge list exactly when their vertices are joined in the original edge list |
| Clique1.ProdEnds | src/algos/clique1.py:55-57 | an edge multiplies p's signature by the far end of each of its ends at p |
| Clique1.SigAppend | src/algos/clique1.py:55-57 | one more edge multiplies a signature by what the two multiplications of the loop contribute |
| Clique1.SigFactors | src/algos/clique1.py:107-111 | the product of a vertex's neighbour list with the vertex appended is its signature, so the source's assertion holds |
| Clique1.ProdSnoc | src/algos/clique1.py:108-110 | appending p to a list multiplies its product by p |
| Clique1.SelectedIn | src/algos/clique1.py:80-85 | a list of prime vertices has signatures and a positive product |
| Clique1.SetupShape | src/algos/clique1.py:41-50 | with distinct vertices and distinct primes, the prime vertices are distinct primes and every prime edge joins two of them |
| Clique1.FactorsPrime | src/algos/clique1.py:107-108 | a vertex's neighbour list with the vertex appended holds primes only |
| Clique1.SigPositive | src/algos/clique1.py:54-57 | every signature is positive |
| Clique1.PrimeIn | src/algos/clique1.py:41 | every member of a list of primes is prime |
| Clique1.ElemDividesProd | src/algos/clique1.py:81 | each positive entry of a list divides the list's product |
| Clique1.SeesIff | src/algos/clique1.py:54-57 | a prime vertex divides its own signature, and divides another vertex's signature exactly when an edge joins the two |
| Clique1.CliqueTestIff | src/algos/clique1.py:73-87 | for distinct prime vertices the divisibility test holds exactly when every two of them are joined by an edge |
| Clique1.DivListsAppend | src/algos/clique1.py:104-118 | one more vertex appends its divisors to the counted list |
| Clique1.DivListsHas | src/algos/clique1.py:104-118 | every divisor of every vertex's signature is counted |
| Clique1.DivListsPositive | src/algos/clique1.py:104-118 | every counted divisor is positive |
| Clique1.CountsKeys | src/algos/clique1.py:103-118 | the count table has each counted divisor once, all positive, and nothing else |
| Clique1.SeeingSpec | src/algos/clique1.py:152 | the gathered list holds exactly the vertices whose signature the divisor divides, in vertex order, each once |
| Clique1.MembersSpec | src/algos/clique1.py:132-140 | the vertices counted as members are exactly those whose signature the divisor divides and which divide the divisor |
| Clique1.MembersAppend | src/algos/clique1.py:132-140 | one more vertex is counted exactly when both divisibility tests hold for it |
| Clique1.DistinctMultiset | src/algos/clique1.py:114-118 | a divisor list without repeats holds each divisor once |
| Clique1.DivListsSeeing | src/algos/clique1.py:104-118 | a divisor is counted once for every vertex whose signature it divides |
| Clique1.CountIsSeeing | src/algos/clique1.py:103-118 | each count in the table is the number of vertices whose signature the divisor divides |
| Clique1.FirstQualifyingSpec | src/algos/clique1.py:128-143 | the scan yields -1 exactly when no divisor has count and members both at least k, and otherwise the first divisor in table order that has |
| Clique1.Take | src/algos/clique1.py:156 | `[:k]` keeps a prefix: k entries when there are that many, all otherwise |
| Clique1.PrimeGraph.ValidShaped | src/algos/clique1.py:31-63 | a constructed prime graph has distinct prime vertices, edges between them, and their signatures |
| Clique1.PrimeGraph.constructor | src/algos/clique1.py:31-63 | the prime graph keeps its inputs, renames vertices and edges through the primes, builds every signature and every neighbour list |
| Clique1.PrimeGraph.IsClique | src/algos/clique1.py:73-87 | the test is true exactly when the product of the given primes divides each of their signatures |
| Clique1.PrimeGraph.CountDivisors | src/algos/clique1.py:102-118 | the count table tallies the divisors of every signature in vertex order; as a side effect every neighbour list gets its own vertex appended |
| Clique1.PrimeGraph.CountStep | src/algos/clique1.py:105-118 | one vertex's iteration appends it to its list and adds the divisors of its signature to the table |
| Clique1.PrimeGraph.CountOwn | src/algos/clique1.py:106-118 | the divisors counted for one vertex are those of its signature |
| Clique1.PrimeGraph.AppendSelf | src/algos/clique1.py:107-108 | appending the vertex to its own neighbour list changes that list only |
| Clique1.PrimeGraph.BestDivisor | src/algos/clique1.py:128-143 | the scan returns the first divisor in table order with count and member count at least k, or -1 |
| Clique1.PrimeGraph.MemberCount | src/algos/clique1.py:131-140 | the member count is the number of vertices whose signature the divisor divides and which divide it |
| Clique1.NbrsDone | src/algos/clique1.py:104-108 | when every vertex has had itself appended, every list is the vertex's neighbours followed by the vertex |
| Clique1.OwnStep | src/algos/clique1.py:106-114 | a vertex's factor list multiplies to its signature, and its divisors extend the counted list |
| Clique1.CountVertex | src/algos/clique1.py:114-118 | counting one vertex's divisors extends the tally by them |
| Clique1.CountAll | src/algos/clique1.py:117-118 | the counting loop extends the tally by each divisor in turn |
| Clique1.Signatures | src/algos/clique1.py:54-57 | the signature loop yields, for every prime vertex, the vertex times the far end of every edge at it |
| Clique1.SigStep | src/algos/clique1.py:55-57 | multiplying in both ends of one more edge keeps every entry the signature over the edges seen so far |
| Clique1.Keep | src/algos/clique1.py:152 | filtering keeps exactly the vertices in the set, in order |
| Clique1.KeepDistinct | src/algos/clique1.py:152 | filtering a list without repeats leaves none |
| Clique1.DistinctShorter | src/algos/clique1.py:153 | a repeat-free list inside another repeat-free list is no longer |
| Clique1.CliquePrimes | src/algos/clique1.py:45-50 | a k-clique of the original graph renames to k distinct primes, pairwise joined |
| Clique1.CliqueProduct | src/algos/clique1.py:102-143 | a k-clique of the original graph gives a counted divisor with at least k members and count at least k |
| Clique1.LinkedProduct | src/algos/clique1.py:102-143 | the product of pairwise joined distinct primes is a counted divisor with at least as many members and as large a count |
| Clique1.ProductListed | src/algos/clique1.py:104-118 | the product of primes that pass the divisibility test is a divisor of a signature, so it is counted |
| Clique1.ProductMembers | src/algos/clique1.py:132-140 | every prime of such a product is counted as its member |
| Clique1.ProductSeen | src/algos/clique1.py:103-140 | such a product has at least as many members, and as large a count, as it has primes |
| Clique1.CliqueQualifies | src/algos/clique1.py:128-143 | when the graph has a k-clique (k >= 1) some divisor in the table qualifies |
| Clique1.CountsNonEmpty | src/algos/clique1.py:103-118 | with any vertex the count table is not empty, since 1 divides every signature |
| Clique1.NoDivisorNoClique | src/algos/clique1.py:128-147 | when the scan finds no divisor there is no k-clique (k >= 1), or no vertex at all (k < 1) |
| Clique1.RenamedClique | src/algos/clique1.py:159 | renaming pairwise joined distinct primes back gives a clique of the original graph |
| Clique1.CliqueFromPairs | src/algos/clique1.py:159 | distinct listed vertices joined two by two form a clique |
| Clique1.RenamedMember | src/algos/clique1.py:159 | each renamed prime is a vertex |
| Clique1.RenamedPair | src/algos/clique1.py:159 | two different joined primes rename to two different joined vertices |
| Clique1.ListedClique | src/algos/clique1.py:152-159 | a listed clique shows that a clique of its size exists |
| Clique1.TakeMembersClique | src/algos/clique1.py:152-157 | the first k members of a divisor are distinct prime vertices, pairwise joined, and pass the divisibility test |
| Clique1.GatheredEnough | src/algos/clique1.py:128-153 | the scan's divisor is counted for at least k vertices, so the list gathered at line 152 always passes the length assertion at line 153 |
| Clique1.GatheredClique | src/algos/clique1.py:152-157 | the first k vertices whose signature a divisor divides are distinct prime vertices, and pass the clique test exactly when they are pairwise joined |
| Clique1.AsWrittenAgrees | src/algos/clique1.py:128-157 | the as-written selection fails only with AssertionError, and exactly when the gathered list fails the clique test; when it succeeds, the corrected selection returns the same list |
| Clique1.SelectClique | src/algos/clique1.py:128-157 | a corrected selection is k distinct prime vertices (for k >= 0) joined pairwise |
| Clique1.FoundAsWrittenAgrees | src/algos/clique1.py:128-159 | where the source returns, the corrected solver returns the same renamed list; where the source fails, it fails with AssertionError and the corrected solver returns a clique |
| Clique1.DivisorGivesClique | src/algos/clique1.py:145-159 | a returned list is a clique of the original graph, of k vertices when k >= 0 |
| Clique1.FoundSpec | src/algos/clique1.py:91-159 | a returned list is a clique of k vertices (for k >= 0); for k >= 1 None is returned exactly when the graph has no k-clique, for k < 1 exactly when it has no vertex |
| Clique1.PreparedSetup | src/algos/clique1.py:41-46 | when the prime list is long enough, distinct vertices get distinct primes |
| Clique1.NewPrimeGraph | src/algos/clique1.py:31-63 | construction fails with MathIsBroken when the sieve yields too few primes, with AssertionError when the prime count differs from the vertex count, with KeyError when an edge end is not a vertex, and otherwise yields a valid prime graph over the first primes |
| Clique1.SolveAsWritten | src/algos/clique1.py:91-159 | fails with the constructor's error when building the prime graph fails; otherwise returns None when no divisor qualifies, fails with AssertionError when the first k vertices whose signature the divisor divides are not a clique, and returns them renamed back otherwise |
| Clique1.Solve | src/algos/clique1.py:91-159 | fails exactly when building the prime graph fails, with the same error; otherwise returns None when no divisor qualifies, and else the source's gathered list when it is a clique and the divisor members' selection when it is not, renamed back; it differs from the source only where the source's assertion at line 157 fails |
| Clique1.ZipKeys | src/algos/clique1.py:159 | every selected prime has an entry in `p2v` |
| Clique1.SolveSpec | src/algos/clique1.py:91-159 | the solver's answer is a clique of k vertices when it is a list, and None exactly when the graph has no k-clique (k >= 1) or no vertex (k < 1) |
| Clique1Example.ExampleExists | src/algos/clique1.py:45-50 | the instance (vertices 0..4 renamed to 2, 3, 5, 7, 11, every pair joined except 3 and 5) exists |
| Clique1Example.SmallPrimes | src/algos/clique1.py:41 | the instance's vertex labels are primes |
| Clique1Example.EdgeProdIsProd | src/algos/clique1.py:55-57 | the product of a vertex's neighbours is the product of what each edge contributes |
| Clique1Example.SigNine | src/algos/clique1.py:54-57 | a signature in the instance is the vertex times the contribution of each of the nine edges |
| Clique1Example.SigMapFrom | src/algos/clique1.py:54-57 | signatures agreeing entry by entry give the signature map |
| Clique1Example.ExampleShape | src/algos/clique1.py:54-57 | the instance's signatures are 2310, 462, 770, 2310 and 2310 |
| Clique1Example.ExampleEnds | src/algos/clique1.py:45-50 | the instance's vertices are distinct and its edges join them |
| Clique1Example.Factors2 | src/algos/clique1.py:107-108 | vertex 2's factor list is 3, 5, 7, 11 followed by 2 |
| Clique1Example.DivsOnce | prime_util.py:77-79 | a prime with exponent 1 contributes two passes: without it and with it |
| Clique1Example.DivsOf154 | prime_util.py:59-81 | the divisors generated from 7, 11, 2 are 1, 2, 11, 22, 7, 14, 77, 154 |
| Clique1Example.HeadOfDivs | prime_util.py:59-81 | vertex 2's divisor list starts with those eight |
| Clique1Example.TallyFive | prime_util.py:83-86 | five distinct factors are tallied in order with count 1 |
| Clique1Example.HeadFromFactors | src/algos/clique1.py:104-118 | the first vertex's divisors come first in the counted list |
| Clique1Example.HeadOfDivLists | src/algos/clique1.py:104-118 | the counted list of the instance starts with those eight divisors |
| Clique1Example.DistinctKeysFirst | src/algos/clique1.py:117-118 | distinct values counted first are the first keys of the table |
| Clique1Example.HeadCounted | src/algos/clique1.py:117-118 | the table's first eight keys are those eight divisors |
| Clique1Example.HeadOfCounts | src/algos/clique1.py:103-118 | the instance's table starts with keys 1, 2, 11, 22, 7, 14, 77, 154 |
| Clique1Example.FewMembers | src/algos/clique1.py:132-140 | a divisor with at most two vertex primes among its factors has fewer than three members |
| Clique1Example.Members154 | src/algos/clique1.py:132-152 | for 154 the first three vertices whose signature it divides are 2, 3, 5, while its first three members are 2, 7, 11 |
| Clique1Example.FirstQualifyingAt | src/algos/clique1.py:128-143 | the scan returns the first qualifying key |
| Clique1Example.EarlyKeysFail | src/algos/clique1.py:129-143 | none of the first seven keys qualifies for k = 3 |
| Clique1Example.Key154Qualifies | src/algos/clique1.py:129-143 | the eighth key, 154, qualifies for k = 3 |
| Clique1Example.ScanPicks154 | src/algos/clique1.py:128-143 | with k = 3 the scan picks 154 |
| Clique1Example.AsWrittenSelectsNonClique | src/algos/clique1.py:152-157 | the source's first three vertices divisible by 154 are 2, 3, 5, which fail the clique test, so its assertion fails; the first three members of 154, 2, 7, 11, pass it |
| Clique1Example.AsWrittenFails | src/algos/clique1.py:128-157 | on the instance with k = 3 the as-written selection fails with AssertionError, while the corrected one returns the clique 2, 7, 11 |
| Clique1Example.AsWrittenTests | src/algos/clique1.py:73-87 | the clique test rejects 2, 3, 5 and accepts 2, 7, 11 |
| Sats.Eval | src/util/sats.py:15-16 | a literal is true exactly when the value differs from its inversion flag |
| Sats.LStripBang | src/util/sats.py:158 | stripping leading '!' leaves a name that does not start with '!' |
| Sats.TokenRoundTrip | src/util/sats.py:18-20 | a literal whose name does not start with '!' reads back from its text unchanged |
| Sats.StrShape | src/util/sats.py:18-20 | a literal with a nonempty, whitespace-free name has a nonempty, whitespace-free text |
| Sats.Name | src/util/sats.py:33-48 | a generated name is nonempty and lower-case; it is one letter exactly when n < 26 |
| Sats.NameInjective | src/util/sats.py:33-48 | different numbers get different names, so generated variables are unique |
| Sats.VariableName | src/util/sats.py:33-48 | AssertionError exactly when n is negative; otherwise the name whose letters are n's base-26 digits, least significant first |
| Sats.EvaluateExpression | src/util/sats.py:51-66 | a clause is true exactly when some literal whose variable has an answer evaluates to true |
| Sats.Evaluate | src/util/sats.py:69-84 | a problem is true exactly when every clause is |
| Sats.PickedProblem | src/util/sats.py:109-122 | one clause per set of picks |
| Sats.PickedProblemSatisfied | src/util/sats.py:109-122 | forcing one literal per clause to agree with the key makes the key satisfy every clause |
| Sats.Names | src/util/sats.py:104 | the variable list holds the names of 0 to n - 1 in order |
| Sats.VariableNames | src/util/sats.py:104 | the comprehension yields that list |
| Sats.KeyMapSpec | src/util/sats.py:107 | the answer key has a value for the name of n exactly when n is below the number of variables, and it is the n-th pick |
| Sats.KeyMapNames | src/util/sats.py:107 | every key of the answer key is a generated name |
| Sats.AnswerKeyOf | src/util/sats.py:107 | the comprehension builds that key |
| Sats.BuildProblem | src/util/sats.py:109-122 | the clause loop builds the clauses the picks describe, each with its forced literal agreeing with the key |
| Sats.GenerateRandomSat | src/util/sats.py:87-123 | IndexError exactly when a clause must be drawn without variables or with a nonpositive length; otherwise the picked problem and key, and the key satisfies the problem |
| Sats.ParseExpression | src/util/sats.py:155-160 | a clause line always parses, to one literal per token |
| Sats.ParseTokens | src/util/sats.py:157-160 | each token becomes the literal it spells, in order |
| Sats.PyBool | src/util/sats.py:165 | `bool` of a string is true exactly when the string is nonempty |
| Sats.ParseAnswerAsWritten | src/util/sats.py:164-165 | an answer line fails with IndexError exactly when it has fewer than two tokens |
| Sats.ParseBool | src/util/sats.py:137-139 | the corrected reading is true exactly for "True" or "true" |
| Sats.ParseAnswer | src/util/sats.py:164-165 | with the corrected reading, an answer line fails with IndexError exactly when it has fewer than two tokens, and otherwise gives the first token and the truth of the second |
| Sats.KeyFromSpec | src/util/sats.py:163-166 | the answer key has exactly the names read, each with the value of its last line |
| Sats.ReadFromFile | src/util/sats.py:126-168 | reading a file gives the parse of its cleaned data lines: the header, the clauses, then the answers (each value read with the corrected `ParseBool` rather than the `bool(toks[1])` of line 165), or the first error |
| Sats.AnswerKeyFrom | src/util/sats.py:163-166 | the answer loop builds that key, later lines overriding earlier ones |
| Sats.ParseSatShape | src/util/sats.py:147-162 | a parsed problem has as many clauses as the header says, each with one literal per token of its line |
| Sats.Texts | src/util/sats.py:185 | one text per literal, in order |
| Sats.ExpressionRoundTrip | src/util/sats.py:155-160 | a written clause line whose names are plain reads back as the same clause |
| Sats.AnswerRoundTrip | src/util/sats.py:164-165 | with the corrected reading, a written answer line gives back its name and value |
| Sats.AnswerAsWrittenFlips | src/util/sats.py:165 | as written, the line "a False" reads back as a true answer |
| Sats.SatTexts | src/util/sats.py:181-187 | the written file holds the clause count, the answer count, one line per clause and one "name value" line per answer |
| Sats.WriteToFile | src/util/sats.py:171-187 | one line per text, ended by a newline |
| Sats.ExpressionDataLine | src/util/sats.py:185 | a writable clause's line survives the reader's cleaning unchanged |
| Sats.AnswerDataLine | src/util/sats.py:187 | an answer line with a writable name survives the cleaning unchanged |
| Sats.RoundTrip | src/util/sats.py:126-187 | with the corrected truth values, reading back a written file gives the same clauses and answer key, for nonempty clauses and names without whitespace, '#' or a leading '!' |
| Sats.WrittenSatTexts | src/util/fileio.py:15-24 | cleaning the written lines leaves the written texts |
| Sats.ReadSatTexts | src/util/sats.py:145-168 | the written texts parse to the clauses and the answer key |
| Sats.ReadLaidOut | src/util/sats.py:145-168 | lines with a readable header followed by clause and answer texts laid out as the writer lays them out parse to those clauses and that answer key |
| Sats.ClausesReadBack | src/util/sats.py:154-162 | the clause lines read back as the clauses |
| Sats.AnswersReadBack | src/util/sats.py:163-166 | the answer lines read back as the answers |
| Sats.ParseSatOf | src/util/sats.py:145-168 | lines whose header and sections read as given parse to those clauses and the key of those answers |
| ThreeSat.VarsContains | src/algos/three_sat.py:22 | the names of any one clause are among the names of the problem |
| ThreeSat.VarsPrefix | src/algos/three_sat.py:43 | the names of the clauses handled so far are among the names of the whole problem |
| ThreeSat.VarsWitness | src/algos/three_sat.py:22 | every name of the problem occurs in some clause, and the returned index names that clause |
| ThreeSat.Restrict | src/algos/three_sat.py:65-67 | a key cut down to a set of names answers exactly the names it shares with the set |
| ThreeSat.Fill | src/util/sats.py:51-66 | the completed key answers exactly the given names |
| ThreeSat.SatisfiedAgree | src/util/sats.py:51-66 | two keys that agree on a clause's names give the clause the same value |
| ThreeSat.AllSatisfiedAgree | src/util/sats.py:69-84 | two keys that agree on a problem's names give the problem the same value |
| ThreeSat.SatisfiedMonotone | src/util/sats.py:51-66 | a key that extends a key satisfying a clause also satisfies it |
| ThreeSat.AllSatisfiedMonotone | src/util/sats.py:69-84 | a key that extends a key satisfying a problem also satisfies it |
| ThreeSat.FillSatisfies | src/util/sats.py:69-84 | a satisfying key, cut down to the problem's names and completed with False, still satisfies the problem |
| ThreeSat.AllSatisfiedAppend | src/util/sats.py:69-84 | a key satisfies the problem plus one clause exactly when it satisfies the problem and the clause |
| ThreeSat.Pow2 | src/algos/three_sat.py:24 | the number of candidate keys, 2 to the number of names, is positive |
| ThreeSat.KeyOf | src/algos/three_sat.py:27 | the key built from a number answers exactly the listed names |
| ThreeSat.KeyOfBit | src/algos/three_sat.py:27 | with distinct names, name i is answered by bit i of the number |
| ThreeSat.EncodeBound | src/algos/three_sat.py:24-25 | the number a key's answers spell out is below 2 to the number of names, so the range covers it |
| ThreeSat.EncodeAgree | src/algos/three_sat.py:27 | two keys agreeing on the names spell out the same number |
| ThreeSat.KeyOfEncode | src/algos/three_sat.py:27 | building the key of the number a key spells out gives back that key's answers for the names |
| ThreeSat.KeyOfEncodeSelf | src/algos/three_sat.py:25-27 | a key over exactly the names is the key of its own number |
| ThreeSat.EncodeKeyOf | src/algos/three_sat.py:25-27 | for a number below 2 to the number of distinct names, building its key and reading the number back gives the number, so distinct numbers give distinct keys |
| ThreeSat.CombosUpToSound | src/algos/three_sat.py:25-29 | every key yielded for numbers below n answers exactly the names, satisfies the clause and spells out a number below n |
| ThreeSat.CombosUpToComplete | src/algos/three_sat.py:25-29 | every key over the names that satisfies the clause and spells out a number below n is yielded |
| ThreeSat.KeyOfNotEarlier | src/algos/three_sat.py:25-27 | the key of number n is not among those yielded for smaller numbers |
| ThreeSat.CombosUpToDistinct | src/algos/three_sat.py:25-29 | no key is yielded twice |
| ThreeSat.CombosStepDistinct | src/algos/three_sat.py:25-29 | yielding for one more number keeps the keys distinct |
| ThreeSat.SetOrder | src/algos/three_sat.py:22 | iterating over the set of names lists each name exactly once |
| ThreeSat.ExpressionCombos | src/algos/three_sat.py:12-29 | the yielded keys answer exactly the clause's names and satisfy it; every such key is yielded, each once |
| ThreeSat.CheckCompatible | src/algos/three_sat.py:55-60 | the key stays valid exactly when it agrees with the local key on every name they share |
| ThreeSat.MergeKey | src/algos/three_sat.py:65-67 | the copy with the local answers written over it is the key merged with the local key, local answers winning |
| ThreeSat.MergeDone | src/algos/three_sat.py:66-67 | once no local answer is left to write, the copy equals the merge |
| ThreeSat.RowSound | src/algos/three_sat.py:51-68 | every key one local key appends is a compatible existing key merged with it |
| ThreeSat.RowComplete | src/algos/three_sat.py:51-68 | every existing key compatible with the local key is appended merged with it |
| ThreeSat.StepSound | src/algos/three_sat.py:44-68 | every new key is some local key merged into a compatible existing key |
| ThreeSat.StepComplete | src/algos/three_sat.py:44-68 | every local key merged into every compatible existing key is a new key |
| ThreeSat.StepEmpty | src/algos/three_sat.py:47-51 | once the key list is empty it stays empty |
| ThreeSat.MergeAll | src/algos/three_sat.py:44-68 | the two nested loops produce exactly the merges of the step, in order |
| ThreeSat.MergeRow | src/algos/three_sat.py:51-68 | the inner loop appends exactly the row of merges for one local key |
| ThreeSat.MergeGood | src/algos/three_sat.py:64-68 | merging a compatible satisfying local key into a key good for the clauses so far gives a key good for one more clause |
| ThreeSat.VarsAppend | src/algos/three_sat.py:43 | the names of the problem plus one clause are the old names plus the clause's |
| ThreeSat.RestrictSatisfies | src/algos/three_sat.py:43-71 | an assignment satisfying the problem plus one clause, cut down to each part's names, satisfies each part |
| ThreeSat.MergeHalves | src/algos/three_sat.py:64-68 | the two cut-down halves of an assignment are compatible and merge back, with the seed, into the seeded assignment |
| ThreeSat.MergeComplete | src/algos/three_sat.py:43-71 | every assignment of the names so far that satisfies the clauses so far is among the new keys |
| ThreeSat.StepGood | src/algos/three_sat.py:43-71 | one pass of the loop keeps every key good: extends the seed, answers exactly the names so far and satisfies the clauses so far |
| ThreeSat.SearchStep | src/algos/three_sat.py:43-71 | one pass of the loop keeps every satisfying assignment of the names so far among the keys |
| ThreeSat.Search | src/algos/three_sat.py:41-71 | every key left extends the seed, answers exactly the seed's and the problem's names and satisfies every clause; when the seed shares no name with the problem, every satisfying assignment merged with the seed is among them; with no clauses only the seed is left |
| ThreeSat.ThreeSat | src/algos/three_sat.py:32-72 | the returned keys answer exactly the problem's names and satisfy every clause, and every such assignment is returned |
| ThreeSat.NoneMerged | src/algos/three_sat.py:41 | merging into the empty starting key gives the merged key unchanged |
| ThreeSat.SearchEmptyIff | src/algos/three_sat.py:32-72 | the key list is empty exactly when the problem has no satisfying key |
| ThreeSat1.Solve | src/algos/three_sat1.py:31-75 | the result is None exactly when no key satisfies the problem; a returned key answers exactly the problem's names and satisfies every clause |
| ThreeSat2.FlattenMember | src/algos/three_sat2.py:41-42 | every literal of every clause is visited by the polarity loop |
| ThreeSat2.PolarityOfSpec | src/algos/three_sat2.py:40-48 | a name has a record exactly when it occurs, and the record says whether it occurs plain and whether inverted |
| ThreeSat2.Polarities | src/algos/three_sat2.py:40-48 | the map built by the loop records exactly the occurring names with their two polarity flags, and records every literal of the problem |
| ThreeSat2.PolaritySnoc | src/algos/three_sat2.py:43-48 | one more literal sets its own polarity flag on its name's record, starting from both flags false |
| ThreeSat2.FlattenSnoc | src/algos/three_sat2.py:41-42 | the literals visited through clause j are those visited before it followed by clause j's |
| ThreeSat2.PolarityMeaning | src/algos/three_sat2.py:40-48 | the polarity map of a problem records exactly its names with both flags, and every literal is recorded |
| ThreeSat2.FirstPureFrom | src/algos/three_sat2.py:58-61 | the index found is the first literal from i on whose name occurs in only one polarity, or there is none |
| ThreeSat2.FindIndependent | src/algos/three_sat2.py:55-61 | the loop stops at the first literal whose name occurs in only one polarity, or finds none |
| ThreeSat2.KeptSpec | src/algos/three_sat2.py:54-72 | the kept clauses are clauses of the problem with no single-polarity literal, and every such clause is kept |
| ThreeSat2.PrunedKeySpec | src/algos/three_sat2.py:63-68 | every name of the pruned key occurs in one polarity and is set to its plain-polarity flag, and every dropped clause has its first such name in the key |
| ThreeSat2.PureLiteralTrue | src/algos/three_sat2.py:64-68 | a literal of a single-polarity name is made true by the value the key gives that name |
| ThreeSat2.PruneIndependentExpressions | src/algos/three_sat2.py:31-79 | the kept clauses are the problem's, in order; every dropped clause is satisfied by the pruned key; every literal of a pruned name is true under it; the key shares no name with the kept clauses |
| ThreeSat2.PruneFacts | src/algos/three_sat2.py:31-79 | from a map recording every literal: kept clauses come from the problem, dropped ones are satisfied by the key, pruned names make their literals true, and the key shares no name with the kept clauses |
| ThreeSat2.Solve | src/algos/three_sat2.py:83-130 | a returned key satisfies the whole original problem, and None is returned exactly when no key satisfies it |
| ThreeSat2.SolvedOriginal | src/algos/three_sat2.py:89-130 | a key extending the pruned key and satisfying the kept clauses satisfies every clause of the original problem |
| ThreeSat2.SatisfiableKeeps | src/algos/three_sat2.py:89-130 | when the original problem has a solution, the search from the pruned key leaves at least one key |
| ThreeSat2.KeptSatisfied | src/algos/three_sat2.py:54-72 | a key satisfying the problem satisfies every clause kept from it |
| Arith.Prod | src/algos/clique1.py:81 | the product of non-negative factors is non-negative, and of positive factors positive (1 for no factors) |
| Arith.ProdAppend | src/algos/clique1.py:108-110 | the product of two lists joined is the product of their products |
| Arith.ProdRemove | src/algos/clique1.py:81-86 | removing one factor divides it out of the product |
| Arith.ProdPermutation | src/algos/clique2.py:21-24 | the product depends only on the multiset of factors, so two cliques with the same vertices have the same product |
| Arith.MatchHead | src/algos/clique2.py:24 | the first element of a list sits at some index of any permutation of it, and the rests are permutations of each other |
| Arith.EuclidLemma | prime_util.py:72-79 | a prime dividing a product divides one of the two factors |
| Arith.PrimeDividesProdOfPrimes | src/algos/clique1.py:81-86 | a prime dividing a product of primes is one of them |
| Arith.DistinctPrimesDivide | src/algos/clique1.py:81-86 | distinct primes that each divide a number divide it together |
| Arith.PrimeDividesPow | prime_util.py:72-79 | a prime dividing a power of a prime is that prime |
| Arith.CoprimeDivides | prime_util.py:72-79 | a number not divisible by a prime p that divides p times b divides b |
| Arith.DedupSpec | prime_util.py:84-86 | keeping the first occurrence of each value keeps exactly the values of the list, each once |

## Left out

**Outside the model:**

- File handles (`open`, `readlines`, `write`). Readers take the lines `readlines()` would return. Writers return the lines they would write.
- `print` calls and the JSON `__str__`/`__repr__` of the graph and clique objects. They have no effect on results.
- The `@profile.timer` decorators and `src/util/profile.py`. They only measure wall-clock time.
- `src/main.py` (command-line dispatch) and `src/algos/__init__.py` (a registry dict). Neither computes anything.

**Randomness and iteration order:**

- `random.choices`, `random.choice` and `random.randint` in `src/util/graphs.py`, `graph_util.py` and `src/util/sats.py`. The drawn indices and values are parameters, constrained only to be in range.
- Python's hash order. It decides iteration over sets (`expression_combos`'s names, clique candidate sets) and the element `set.pop()` returns.
  - These are an arbitrary order or an arbitrary choice (a `:|` choice in `Clique2.GrowAll`, `ThreeSat.SetOrder`).
  - The results are proved whatever the order. Which key or clique is returned first is therefore not pinned down.
- Dict insertion order. It is kept where it matters: the divisor counts in `clique1.py` are an ordered sequence of pairs.

**Data structures:**

- `queue.PriorityQueue` becomes a multiset of (distance, node) pairs whose minimum is popped. Thread safety is not modelled.
  - As in Python, where the queue compares the tuples, the least pair is popped: equal distances are broken by node id.
- Python list aliasing is not modelled.
  - `add_clique` in `src/util/graphs.py` and `graph_util.py` extends the caller's list in place. `Graphs.AddClique` and `GraphUtil.AddClique` return the extended list instead.
  - `clique1.py`'s `append` to `m_neighbors[v]` is an update of the `PrimeGraph` field `mNeighbors`.

**Other limits:**

- The float sieve bound `n*log(n)+n*log(log(n))+7` in `prime_util.py`. `PrimeUtil.PrimeList` takes the bound `max` as a parameter. The domain error `log` raises for n <= 1 is therefore not modelled. With n = 0 the early exit never fires, and all primes up to `max` are returned, as the loop does.
- Text.ParseInt: accepts only ASCII decimal digits after an optional sign. Python's `int()` also accepts single underscores between digits ("1_000") and decimal digits of other scripts, such as Arabic-Indic digits; the model returns ValueError for those. Files written by the repository's own writers, which format numbers with `str()`, contain neither.
- The test properties of `test_add_clique` and `test_subgraph` in `src/test/test_graphs.py`. They call an API the repository no longer has: `add_clique` returns None and `Graph.subgraph` does not exist.

**Narrower requires clauses:**

- Graphs.Graph.constructor: requires every edge endpoint to be a vertex. The source raises KeyError otherwise, and a constructor cannot return an error value. `Clique1.NewPrimeGraph` and the clique finders' `Solve` methods check the same condition first and return `Err(KeyError)`.
- Clique1.Solve: requires distinct vertex ids. With repeated ids the source's `v2p` and `p2v` dicts collapse entries, and its prime numbering no longer matches its vertex list.
- Clique1.SolveAsWritten: requires distinct vertex ids, for the same reason as `Clique1.Solve`.
- Clique1.PrimeGraph.IsClique: requires every listed prime to have a signature and the product of the listed primes to be positive. The source would raise KeyError or divide by zero, and `solve` only calls it on such lists.
- Tsp.Solve: the distance rows `dfs` computed for each vertex come back as a ghost sequence `ds` beside the result. The result is stated in terms of those rows, which `Searched` ties to `Graphs.SearchResult`. They are not recomputed by a function, because `dfs` is a method over a priority queue.
- Sats.RoundTrip: requires every clause to be nonempty and every name to be a plain token without '#'.
  - An empty clause is written as a blank line, which the reader drops.
  - A name with whitespace or '#' does not survive `split()` or comment cutting.
  - The answer key is written from a list of (name, value) items. Dafny's `map` has no insertion order for `dict.items()`.

## Findings

| source | as written | input that shows it | evidently intended | confidence | as-written member | corrected member |
|---|---|---|---|---|---|---|
| src/util/sats.py:165 | the answer value is read as `bool(toks[1])`, which is True for every nonempty token | a file written by `write_to_file` with the answer `a = False` holds the line "a False", which reads back as `a = True` | parse the written "True"/"False" back to the value written, so that reading a written file gives back its answer key | not executed | Sats.AnswerAsWrittenFlips | Sats.RoundTrip |
| src/algos/clique1.py:152-157 | after choosing the divisor, the clique is the first k vertices whose signature the divisor divides | the complete graph on vertices 0..4 without edge (1, 2), k = 3: the chosen divisor 154 = 2·7·11 also divides the signatures of primes 3 and 5, so [2, 3, 5] is kept, it is not a clique, and `assert graph.is_clique(clique)` fails | return a k-clique whenever the chosen divisor shows one exists; the correction keeps the gathered list whenever it is a clique and otherwise takes the first k vertices whose prime is a factor of the divisor, which always form a clique, so it changes the answer only where the assertion fails | not executed | Clique1Example.AsWrittenFails | Clique1.FoundSpec |

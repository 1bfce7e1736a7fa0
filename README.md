# Word counting and breadth-first search, modelled in Dafny

This project models the two computational parts of a small Rust program.

- **`find_occurrence`** (src/search.rs) splits a text into whitespace-separated
  tokens. It then sizes a partition of the token list from the machine's
  parallelism `P`: `chunk = ceil(N / P)` tokens per worker, `count =
  ceil(N / chunk)` workers. Each worker scans the half-open range
  `[i * chunk, min(i * chunk + chunk, N))` and bumps a shared counter once per
  token exactly equal to the searched word. `Search.FindOccurrence` is the
  same computation done in sequence: one loop over the partitions, one loop
  over each range, one counter. `P >= 1` is a parameter.
- **`Graph`** (src/graph.rs) is a graph of `i32` vertices with adjacency sets
  and the colour / distance / predecessor maps of textbook breadth-first
  search. `Graphs.Graph` is a class with the same five fields (`set` and `map`
  values that the methods reassign). `bfs` keeps its FIFO queue as a `seq`.
  Neighbours are visited in an unspecified order (a choice from the remaining
  set), as hash-set iteration is.

Quirks of the source that the model keeps:

- `add_edge` makes only `to` a vertex, never `from`.
- `bfs(s)` needs `s` to be an adjacency key; the source indexes `adjacent[&v]`,
  which panics otherwise.
- `bleach` resets colour and distance but leaves `pred` as it was, so a vertex
  the search does not reach keeps its predecessor from an earlier search.
- The colour enum comes from a `color` module that is not part of this model.
  It is declared as `White | Gray | Black`.
- With no tokens at all, `find_occurrence` divides by zero at src/search.rs:26
  (see Findings).

`Search.IsWhitespace` is Unicode's `White_Space` property, which Rust's
`char::is_whitespace` and `str::split_whitespace` use. Tokens are the maximal
runs of other characters.

## Model

| member | source | states |
|---|---|---|
| Search.IsWhitespace | src/search.rs:20 | `char::is_whitespace`: the characters with the Unicode `White_Space` property |
| Search.LeadingRun | src/search.rs:19-20 | the length of the longest whitespace-free prefix: every character before it is not whitespace, and the one at it (if any) is |
| Search.SplitWhitespace | src/search.rs:19-22 | `split_whitespace().collect()`: every token is non-empty and holds no whitespace |
| Search.SplitJoin | src/search.rs:19-22 | splitting tokens joined by single spaces gives back exactly those tokens (round trip) |
| Search.SplitAtWhitespace | src/search.rs:19-22 | a whitespace character separates: splitting `a + [c] + b` is splitting `a` followed by splitting `b` |
| Search.SplitKeepsNonWhitespace | src/search.rs:19-22 | the tokens, concatenated, are exactly the text's non-whitespace characters in order: nothing is lost, added or reordered |
| Search.CountMatches | src/search.rs:43-50 | the number of tokens exactly equal to the word is at most the number of tokens |
| Search.CountAppend | src/search.rs:34-50 | counts over consecutive ranges add up to the count over their concatenation |
| Search.CountIsMultiplicity | src/search.rs:43-50 | the count is the word's multiplicity in the multiset of tokens: exact equality only, independent of order |
| Search.CountPositiveIffPresent | src/search.rs:43-50 | the count is positive if and only if the word is one of the tokens |
| Search.DivCeil | src/search.rs:25-26 | `usize::div_ceil`: `a <= r * b < a + b` |
| Search.DivCeilLeast | src/search.rs:25-26 | `div_ceil(a, b)` is the least `c` with `c * b >= a` |
| Search.PartitionPlan | src/search.rs:24-26 | the plan fails with a division by zero exactly when there are no tokens |
| Search.PlanBounds | src/search.rs:24-26 | with `N > 0`: the chunk is between 1 and `N`; `count` is at least 1 and at most both `P` and `N`; `(count - 1) * chunk < N <= count * chunk` |
| Search.ChunkBounds | src/search.rs:25 | `ceil(N / P)` is between 1 and `N` |
| Search.CountBounds | src/search.rs:26 | `ceil(N / chunk)` is between 1 and `min(P, N)` and its last chunk is the one that reaches `N` |
| Search.RangeFrom | src/search.rs:35 | partition `i` starts at the multiple of `chunk` whose quotient by `chunk` is `i` |
| Search.RangeTo | src/search.rs:36 | partition `i` ends at the smaller of its full chunk's end and the token count |
| Search.RangeInBounds | src/search.rs:35-36 | each range is non-empty and ends at or before `N` |
| Search.RangesApart | src/search.rs:35-36 | a range ends at or before the start of every later one |
| Search.OwnerRange | src/search.rs:34-36 | every index below `N` lies in the range of an existing worker |
| Search.RangesAdjacent | src/search.rs:34-36 | each range ends where the next begins, and the last ends at `N` |
| Search.RangesPartition | src/search.rs:34-36 | the ranges of workers `0..count` are non-empty, within `[0, N)`, pairwise disjoint, and cover every index of `[0, N)` |
| Search.FindOccurrence | src/search.rs:14-68 | fails with a division by zero if and only if the text has no tokens; otherwise returns the number of tokens exactly equal to the word, for every `P >= 1`; every index read is in bounds |
| Search.WhitespaceOnlyHasNoPlan | src/search.rs:24-26 | a text made only of whitespace (the empty text included) has no tokens, and its partition plan is a division by zero |
| Search.FindOccurrenceOrZero | src/search.rs:14-68 | the evidently intended count: the number of tokens equal to the word (its multiplicity), 0 for a text without tokens |
| Search.SampleSplit | src/main.rs:29-38 | the sample sentence splits into its seventeen words |
| Search.SampleCountSono | src/main.rs:29-32 | "sono" occurs 3 times in the sample sentence |
| Search.SampleCountNapoli | src/main.rs:35-38 | "Napoli" occurs once in the sample sentence |
| Graphs.ClosedHoldsWalks | src/graph.rs:74-92 | a vertex set closed under the edges contains every vertex a walk from it reaches |
| Graphs.PathSnoc | src/graph.rs:77-85 | a walk extended by one edge is a walk |
| Graphs.PredecessorWalk | src/graph.rs:80-82 | following predecessors back from a discovered vertex traces a walk from the source whose length is the vertex's distance |
| Graphs.StartPreserves | src/graph.rs:66-72 | after `bleach` and colouring `s` Gray at distance 0, the search invariant holds with `s` alone in the queue |
| Graphs.DiscoverPreserves | src/graph.rs:78-85 | making a White neighbour Gray, one further than its parent, with that parent as predecessor, and queueing it keeps the search invariant |
| Graphs.FinishPreserves | src/graph.rs:91 | blackening a dequeued vertex whose neighbours are all seen keeps the search invariant |
| Graphs.FinishedSearch | src/graph.rs:74-92 | when the queue is empty: nothing is Gray; Black are exactly the dequeued vertices; these are exactly the vertices reachable from `s`; each one except `s` has a Black predecessor along an edge, one closer to `s` |
| Graphs.Graph.BuildGraph | src/graph.rs:27-36 | all five fields are empty |
| Graphs.Graph.Bleach | src/graph.rs:38-43 | every vertex is White at distance 0; `pred`, the vertices, the adjacency and every other key keep their values |
| Graphs.Graph.AddNode | src/graph.rs:45-49 | `i` becomes a vertex; the vertex set is unchanged if it already was one (idempotent) |
| Graphs.Graph.AddEdge | src/graph.rs:51-63 | `to` joins the neighbours of `from` (old neighbours kept) and the vertices; `from` does not become a vertex; `from` and `to` become adjacency keys, with `to` given an empty set if it had none; every other entry is unchanged |
| Graphs.Graph.Bfs | src/graph.rs:65-93 | `s` ends Black at distance 0; no vertex is dequeued twice; no vertex stays Gray; Black vertices are exactly the dequeued ones, which are exactly the vertices reachable from `s`; each except `s` has a dequeued predecessor along an edge with distance one less; White vertices keep distance 0 and their old predecessor; `s` keeps its old predecessor too (it is never discovered, and `bleach` does not clear `pred`); other keys are untouched |
| Graphs.Graph.Explore | src/graph.rs:74-92 | the queue loop: from the invariant with any queue, it ends with an empty queue and the invariant |
| Graphs.Graph.ProcessHead | src/graph.rs:75-91 | one round of the queue loop: the head joins the dequeued vertices and ends Black; the White set loses exactly its neighbours; the new queue is the rest of the old one followed only by neighbours of the head that were White (FIFO); the discovered neighbours get the head's distance plus 1 and the head as predecessor, and every other colour, distance and predecessor entry is unchanged (`ScannedFrom`, with the head's colour other than Black); the invariant is kept and either fewer vertices are White or the queue is shorter |
| Graphs.Graph.ScanNeighbours | src/graph.rs:77-89 | after the neighbour loop, no neighbour of `v` is White; the White vertices lose exactly the neighbours of `v`; exactly those that were White turn Gray with `distance[v] + 1` and predecessor `v` (`ScannedFrom`), and they are appended after the old queue, which stays its prefix (`AppendedTo`); every other colour, distance and predecessor entry is unchanged |
| Graphs.Graph.ScanNext | src/graph.rs:77-87 | one round of the neighbour loop extends `ScannedFrom` and `AppendedTo` from the neighbours scanned so far to one more |
| Graphs.ScanStep | src/graph.rs:78-85 | scanning one more neighbour keeps `ScannedFrom` and `AppendedTo`: a White one is discovered and appended at the back, any other changes nothing |
| Graphs.Graph.ScanNeighbour | src/graph.rs:78-87 | a White `w` becomes Gray, gets `distance[v] + 1` and predecessor `v`, is queued and leaves the White set; otherwise nothing changes; `w` was White exactly when it was in the White set |
| Graphs.Graph.FinishVertex | src/graph.rs:91 | the Gray head of the queue turns Black and joins the dequeued vertices |

## Left out

- Threads, `spawn`/`join`, `Arc`, `Mutex`, and the lock and join panics (src/search.rs:28-61). The workers run one after another, which gives the same sum.
- The per-match locking: the model adds 1 to one counter per match, as the code does.
- `available_parallelism()` (src/search.rs:15-17) is an operating-system query. `P` is a parameter with `P >= 1`, which is what the fallback to 1 guarantees.
- Integer widths: `usize` overflow in the partition arithmetic and `i32` overflow of `distance[v] + 1` are not modelled; counts and distances are unbounded integers.
- Graphs.Graph.Bfs: minimality of `distance` (that it is the length of a shortest path) is not proved. Proved instead: each distance is its predecessor's plus one along an edge, and it is the length of the predecessor walk from `s`.
- Hash iteration order in `bleach` and `bfs`: neighbours are taken in an unspecified order, and nothing proved depends on it.
- The order in which `Bfs` dequeues vertices is a ghost result, not a value of the source.
- src/main.rs: only the word counts of `main_search` are stated, as lemmas. `main_graph` calls `Graph::new` and `print`, which are not in src/graph.rs. Printing is output only.
- The sample sentence is written as its seventeen words joined by single spaces, which is how src/main.rs:30 spells it.

## Findings

| source | as written | input that shows it | evidently intended | confidence | as-written member | corrected member |
|---|---|---|---|---|---|---|
| src/search.rs:24-26 | with no tokens, `words_for_processor` is `0.div_ceil(P) == 0`, and `words_count.div_ceil(0)` divides by zero, so `find_occurrence` panics | `find_occurrence("", w)`, or any text made only of whitespace | a text without tokens contains the word 0 times | not executed | Search.WhitespaceOnlyHasNoPlan | Search.FindOccurrenceOrZero |

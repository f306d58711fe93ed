# Quine–McCluskey two-level minimisation, modelled in Dafny

The modelled program minimises a Boolean function given as a list of minterms
and a list of don't-care terms. It follows the tabular (Quine–McCluskey)
method:

1. `Tabular::getPI` buckets every term by its number of one bits. It then
   repeatedly merges implicants of adjacent buckets that differ in exactly one
   unmasked bit, drops merges whose rendered pattern repeats, and flags every
   implicant that took part in a merge. The unflagged implicants of all levels
   are the prime implicants.
2. `Tabular::getEPI` compresses the minterms to ranks. It counts how many prime
   implicants hold each minterm and flags as essential every prime implicant
   that is the only holder of some minterm.
3. `Tabular::buildGraph` builds a bipartite graph. Its left vertices are the
   non-essential prime implicants. Its right vertices are the minterms no
   essential prime implicant holds.
4. The graph is covered by one of two solvers:
   - `trueSolver` runs `bruteForce`, an exact search that prunes branches;
   - `approximationSolver` runs `greedy`, which uses a max segment tree
     (`MaxSegment` in `MaxSegmentTree.h`) to pick the row with the most
     uncovered minterms each time.
5. `solve` appends the essential prime implicants and sorts the indices;
   `solveTest` returns their number.

`main.cpp` holds an earlier copy of the class. Its `solve` does the essential
search, the re-compression, the graph and the exact search inline.

## How the model is built

- **Terms.** Machine words are natural numbers. Bit `i` of `x` is
  `(x / 2^i) % 2`.
- **Input width.** `(int)log2(m) + 1` becomes `BitLength(m)`, the number of
  binary digits of `m`. The model takes 0 for the term 0, so adding 0 leaves
  the width as it is; the source converts `log2(0)`, which is minus infinity,
  to `int`, and that is undefined behaviour in C++.
- **`ImcntBits` and `Impcnt`.** Both are values (`Ternary.ImcntBits`,
  `Implicants.Impcnt`). The source copies them by value everywhere.
  - `setCheck` becomes a functional update of the implicant in its bucket.
  - `setEPI` becomes a functional update of the implicant in `PIs`.
- **Working vectors.** `lists`, `selected`, `nowCase`, `minCase`, `cnt`, `last`
  and `comp` are sequences and maps. Each method takes them in and returns
  their new values.
- **The `Tabular` object.** It is a `class` with the source's fields, and its
  methods state the new value of every field, including the fields they leave
  unchanged (the earlier `solve` in `main.cpp` counts essentials in a local
  variable and leaves `totNumberOfEPI` as it was).
- **The segment tree.** It keeps its `seg` vector as an `array` and is updated
  in place.
- **Specifications.** Every loop or recursion is proved against a
  specification function; what the source promises is then proved about that
  function:
  - `Levels.Raw` is the level sequence of `getPI`;
  - `Exact.Search` is the best cover `bruteForce` can reach;
  - `Greedy.Best` and `Greedy.Choices` describe greedy's picks;
  - `Segment.Holds` and `Segment.Peak` describe the tree.

Where the code and the usual description of the method disagree, the model
follows the code:

- **Merge symmetry.** `Impcnt::returnCombined` keeps the receiver's bits, so
  merging `a` with `b` is not the same value as merging `b` with `a`. The two
  agree on the mask and on the rendered pattern (`Ternary.CombinedSymmetric`).
  The model does not claim full symmetry.
- **Duplicate detection.** Duplicates inside a bucket are detected by the
  rendered string of the pattern. `Ternary.RenderInjective` shows this is the
  same as comparing bits and mask for canonical patterns.
- **`totNumberOfEPI`.** The constructors leave it uninitialised. `getEPI` sets
  it before anything reads it, so the model starts it at 0.

## Model

| member | source | states |
|---|---|---|
| `Bits.CountBit` | test/headers/TabularMethodSolver.h:223-227 | the loop returns the number of one bits of `b` |
| `Bits.PopcountIsBitSum` | test/headers/TabularMethodSolver.h:223-227 | for a term below 2^n, the one-bit count equals the sum of its n lowest bits, which is how the rest of the model reasons about buckets |
| `Bits.BitLengthBounds` | test/headers/TabularMethodSolver.h:215-218 | the width `log2(m) + 1` used for a term is the least w with m < 2^w (and 2^(w-1) <= m for m > 0) |
| `Bits.BitsDetermine` | test/headers/TabularMethodSolver.h:108-112 | two terms below 2^n with the same n low bits are equal, so an `ImcntBits` of width n determines its term |
| `Ternary.HammingDist` | test/headers/TabularMethodSolver.h:129-139 | the loop returns -1 exactly when the masks differ at some position, and otherwise the number of unmasked positions where the bits differ; the result is symmetric and between -1 and the width |
| `Ternary.ReturnCombined` | test/headers/TabularMethodSolver.h:140-149 | the result keeps the receiver's bits and masks exactly the positions masked in the receiver or where the two bit patterns differ |
| `Ternary.ToString` | test/headers/TabularMethodSolver.h:113-128 | the string has one character per input, most significant first; each is '-' for a masked position and the bit's digit otherwise |
| `Ternary.DistanceOneAt` | test/headers/TabularMethodSolver.h:129-139 | distance 1 means equal masks and exactly one unmasked position where the bits differ, which the lemma returns |
| `Ternary.DistanceSymmetric` | test/headers/TabularMethodSolver.h:129-139 | `a.hammingDist(b) == b.hammingDist(a)` |
| `Ternary.CombinedMatches` | test/headers/TabularMethodSolver.h:140-149 | the merge of two patterns at distance 1 matches a term exactly when one of the two patterns does |
| `Ternary.CombinedShape` | test/headers/TabularMethodSolver.h:140-149 | merging two patterns that differ at position k masks k and nothing else, adding one masked position |
| `Ternary.CombinedCanonical` | test/headers/TabularMethodSolver.h:258-267 | merging a pattern with its distance-1 partner from the next bucket gives a canonical pattern with one more masked position and the lower bucket's one-bit count |
| `Ternary.AdjacentPopcount` | test/headers/TabularMethodSolver.h:258-263 | two canonical patterns at distance 1 have one-bit counts that differ by exactly one, so only adjacent buckets need comparing |
| `Ternary.CombinedSymmetric` | test/headers/TabularMethodSolver.h:140-149 | merging in either order gives the same mask and the same rendered pattern (the raw bits may differ) |
| `Ternary.RenderInjective` | test/headers/TabularMethodSolver.h:268-270 | for canonical patterns of one width, equal rendered strings mean equal patterns and conversely, so the duplicate set keyed by strings drops exactly repeated patterns |
| `Ternary.RenderMatches` | test/headers/TabularMethodSolver.h:113-128 | a term matches a pattern exactly when every character of the rendered string is '-' or the term's digit at that position |
| `Implicants.Merge` | test/headers/TabularMethodSolver.h:197-207 | the merged term list has the combined length and exactly the combined contents (as a multiset) |
| `Implicants.ReturnCombined` | test/headers/TabularMethodSolver.h:195-210 | the two-pointer loop builds the merge of the two term lists (contents and length preserved, sorted if both inputs are) and the combined pattern |
| `Implicants.MergeSorted` | test/headers/TabularMethodSolver.h:197-207 | merging two sorted term lists gives a sorted list |
| `Implicants.MergeIncreasing` | test/headers/TabularMethodSolver.h:197-207 | merging two strictly increasing lists with no common term gives a strictly increasing list |
| `Implicants.IncreasingUnique` | test/headers/TabularMethodSolver.h:197-207 | two strictly increasing lists with the same members are equal |
| `Implicants.SingleWellFormed` | test/headers/TabularMethodSolver.h:156-162 | a single-term implicant of a term that fits the width is well formed at level 0 in the bucket of its one-bit count |
| `Implicants.CombineWellFormed` | test/headers/TabularMethodSolver.h:262-267 | merging well-formed implicants of buckets j and j+1 at distance 1 gives a well-formed implicant of the next level in bucket j, whose terms are exactly those of both |
| `Implicants.SamePatternSameTerms` | test/headers/TabularMethodSolver.h:268-274 | two well-formed implicants with the same pattern hold the same terms, so dropping a duplicate loses no term |
| `Primes.BucketByPopcount` | test/headers/TabularMethodSolver.h:246-250 | bucket j of the first level lists the single-term implicants of the minterms, then of the don't-cares, whose one-bit count is j, in input order |
| `Primes.SinglesComplete` | test/headers/TabularMethodSolver.h:247-250 | every input term has its single-term implicant in the bucket of its one-bit count |
| `Primes.SinglesDistinct` | test/headers/TabularMethodSolver.h:247-250 | distinct inputs give bucket entries with distinct rendered patterns |
| `Primes.DedupProperties` | test/headers/TabularMethodSolver.h:268-274 | keeping the first merge of each rendered pattern keeps only merges, with distinct renderings and the same set of renderings |
| `Levels.LevelDistinct` | test/headers/TabularMethodSolver.h:258-274 | every bucket of every level after the first holds no two implicants with the same rendered pattern |
| `PrimeImplicants.ListsDistinct` | test/headers/TabularMethodSolver.h:252-280 | in the lists getPI builds, every bucket after the first list holds each pattern once |
| `Primes.AddUnique` | test/headers/TabularMethodSolver.h:268-274 | a merge is appended and its string recorded exactly when its string is not yet in the duplicate set |
| `Primes.PairsSource` | test/headers/TabularMethodSolver.h:260-267 | every merge built from two buckets comes from an adjacent pair, one from each bucket |
| `Primes.PairsComplete` | test/headers/TabularMethodSolver.h:260-267 | every adjacent pair of the two buckets contributes its merge |
| `Primes.MergeRow` | test/headers/TabularMethodSolver.h:261-276 | one row of the double loop flags the left implicant iff it has a partner in the right bucket, flags exactly the right implicants adjacent to it, and extends the deduplicated merges by that row's pairs |
| `Primes.MergeStep` | test/headers/TabularMethodSolver.h:262-275 | one comparison keeps the row invariant: flags and merges so far are those of the first n right implicants |
| `Primes.MergeBuckets` | test/headers/TabularMethodSolver.h:259-277 | merging bucket j with bucket j+1 flags exactly the implicants with a partner in the other bucket and yields the deduplicated merges of all adjacent pairs |
| `Primes.MergeLeft` | test/headers/TabularMethodSolver.h:260-277 | one row of the left bucket advances the flags and merges from the first l rows to the first l+1 |
| `Primes.NextLevel` | test/headers/TabularMethodSolver.h:253-278 | one round returns the flagged current level and the next level, and `changed` holds exactly when some bucket of the next level is non-empty |
| `Primes.Round` | test/headers/TabularMethodSolver.h:258-278 | one bucket pass advances the round invariant from j to j+1 |
| `Primes.RoundEnd` | test/headers/TabularMethodSolver.h:279-281 | after the last pass the state is the flagged level and the next level, and `changed` reports a non-empty next level |
| `Primes.LevelsTop` | test/headers/TabularMethodSolver.h:253-258 | a round keeps the number of buckets and its top bucket stays empty (there is no bucket above to merge with) |
| `Levels.BuildLevels` | test/headers/TabularMethodSolver.h:251-282 | the outer loop stores every level of the reference sequence, each flagged by the round after it, stopping at the first round that merges nothing |
| `Levels.RoundsGrow` | test/headers/TabularMethodSolver.h:279-281 | a round that merges something leaves at most w levels before it, so the loop ends after at most w+1 rounds |
| `Levels.RoundsStop` | test/headers/TabularMethodSolver.h:279-280 | a round that merges nothing flags the last level and ends the sequence |
| `Levels.MergedShape` | test/headers/TabularMethodSolver.h:253-278 | the next level of a well-formed level is well formed: every implicant in bucket j of level i masks i positions and has j one bits |
| `Levels.NonEmptyRoom` | test/headers/TabularMethodSolver.h:252-282 | a non-empty level i has i <= w, which bounds the number of levels |
| `Collect.Unchecked` | test/headers/TabularMethodSolver.h:286-288 | the kept implicants of a bucket are exactly its unflagged ones |
| `Collect.CollectBucket` | test/headers/TabularMethodSolver.h:286-288 | the inner loop appends the unflagged implicants of one bucket in order |
| `Collect.CollectLevel` | test/headers/TabularMethodSolver.h:285-288 | the middle loop appends the unflagged implicants of buckets 0..n-1 of a level |
| `Collect.CollectPIs` | test/headers/TabularMethodSolver.h:283-288 | the collection loop gives the unflagged implicants of bucket j <= w - i of every level i, in that order |
| `Collect.LevelPIsMember` | test/headers/TabularMethodSolver.h:285-288 | an implicant is collected from a level exactly when it is unflagged and in one of the scanned buckets |
| `Collect.AllPIsSource` | test/headers/TabularMethodSolver.h:283-288 | every collected implicant is an unflagged entry of some level within the scanned range |
| `Collect.AllPIsComplete` | test/headers/TabularMethodSolver.h:283-288 | every unflagged entry in the scanned range is collected |
| `PrimeImplicants.GetPI` | test/headers/TabularMethodSolver.h:244-289 | getPI returns the unflagged implicants of every level the reference process builds |
| `PrimeImplicants.PIsPrime` | test/headers/TabularMethodSolver.h:258-288 | every prime implicant is well formed, unflagged, and at distance other than 1 from every implicant of its level: no merge can extend it |
| `PrimeImplicants.PIsImplicant` | test/headers/TabularMethodSolver.h:244-289 | every prime implicant is well formed and holds only minterms and don't-cares |
| `PrimeImplicants.PIsCover` | test/headers/TabularMethodSolver.h:244-289 | every minterm and every don't-care is a term of some prime implicant |
| `PrimeImplicants.Cover` | test/headers/TabularMethodSolver.h:252-288 | a term held by any implicant of any level is held by some collected prime implicant (a flagged implicant passes its terms to a merge of the next level) |
| `PrimeImplicants.ElementAt` | test/headers/TabularMethodSolver.h:258-288 | the stored level entry is the reference entry with its flag set exactly when it has a distance-1 partner in an adjacent bucket |
| `PrimeImplicants.Promote` | test/headers/TabularMethodSolver.h:262-274 | a term of an implicant that has a partner reappears in some implicant of the next level |
| `Compression.Compress` | test/headers/TabularMethodSolver.h:349-351 | the compression map sends each distinct minterm to its rank among them and has as many entries as there are distinct minterms |
| `Compression.RankMonotone` | test/headers/TabularMethodSolver.h:349-351 | compression preserves order strictly |
| `Compression.RankOnto` | test/headers/TabularMethodSolver.h:349-351 | every index below the number of distinct minterms is the rank of one of them |
| `Essential.MintermSet` | test/headers/TabularMethodSolver.h:345-348 | the position set holds exactly the minterms |
| `Essential.CountCovers` | test/headers/TabularMethodSolver.h:355-364 | for every compressed minterm, cnt is the number of prime implicants holding it and last the index of the last one (-1 if none) |
| `Essential.CountRow` | test/headers/TabularMethodSolver.h:357-363 | scanning prime implicant i extends both counts from the first i prime implicants to the first i+1 |
| `Essential.OccLast` | test/headers/TabularMethodSolver.h:355-364 | the count is 0 exactly when last stays -1; otherwise last is a prime implicant that holds the minterm |
| `Essential.SoleCoverer` | test/headers/TabularMethodSolver.h:367-374 | for prime implicants with increasing term lists, count 1 with last i means i is the only prime implicant holding the minterm |
| `Essential.SoleForMeaning` | test/headers/TabularMethodSolver.h:367-374 | the flagging condition holds for i exactly when some minterm is held by prime implicant i alone |
| `Essential.MarkEssential` | test/headers/TabularMethodSolver.h:366-375 | every prime implicant is flagged afterwards iff it was flagged before or is the sole holder of some minterm; the count grows by the number of new flags |
| `Essential.CountEPISet` | test/headers/TabularMethodSolver.h:370-373 | flagging an unflagged prime implicant raises the flagged count by one, which the already-EPI test guarantees |
| `Essential.GetEPI` | test/headers/TabularMethodSolver.h:343-376 | getEPI flags exactly the sole holders of some minterm, keeps everything else, and counts the new flags |
| `Graph.EPITerms` | test/headers/TabularMethodSolver.h:385-391 | the satisfied set holds exactly the terms of essential prime implicants |
| `Graph.EraseAll` | test/headers/TabularMethodSolver.h:392-395 | the erase loop removes exactly the satisfied terms from the positions |
| `Graph.NonEPIMeaning` | test/headers/TabularMethodSolver.h:405-408 | rev lists the indices of the non-essential prime implicants in increasing order, and their number plus the essential count is the number of prime implicants |
| `Graph.RowOfMeaning` | test/headers/TabularMethodSolver.h:409-414 | a vertex is in a prime implicant's row exactly when it is the compressed rank of one of its remaining minterms |
| `Graph.GraphMeaning` | test/headers/TabularMethodSolver.h:413-414 | v is listed under right vertex u exactly when u is listed in row v |
| `Graph.AddRow` | test/headers/TabularMethodSolver.h:409-415 | one row appends its vertices to GL[v] and adds v under each of them in GR, leaving other rows unchanged |
| `Graph.BuildRows` | test/headers/TabularMethodSolver.h:401-417 | the loop builds one row per non-essential prime implicant and the columns as the transpose of the rows |
| `Graph.BuildGraph` | test/headers/TabularMethodSolver.h:377-418 | buildGraph returns the bipartite graph of non-essential prime implicants against minterms no essential one holds, with rev mapping rows back |
| `Graph.ColumnsNonEmpty` | test/headers/TabularMethodSolver.h:404-415 | when every minterm is held by some prime implicant, every right vertex has a neighbour |
| `Exact.Better` | test/headers/TabularMethodSolver.h:303-308 | the better of two outcomes is one of them, is a cover whenever either is, and is no larger than either |
| `Exact.Include` | test/headers/TabularMethodSolver.h:294-299 | taking a row bumps each of its vertices, the covered set grows by the row's vertices, and cnt counts the newly covered ones (positive iff the row adds something) |
| `Exact.Exclude` | test/headers/TabularMethodSolver.h:313-316 | the undo loop restores `selected` to its value before the row was taken |
| `Exact.CoveredBump` | test/headers/TabularMethodSolver.h:296-298 | bumping a vertex covers it, and raises the covered count iff it was uncovered |
| `Exact.FullCount` | test/headers/TabularMethodSolver.h:302 | `selCnt + cnt == selected.size()` holds exactly when every vertex is covered |
| `Exact.BruteForce` | test/headers/TabularMethodSolver.h:290-318 | bruteForce restores `selected` and `nowCase`, lowers minCost to the best cover reachable from idx (if better), and records a matching cover in minCase |
| `Exact.TakeRow` | test/headers/TabularMethodSolver.h:294-317 | the branch that takes row idx does the same for covers that contain row idx |
| `Exact.SearchOptimal` | test/headers/TabularMethodSolver.h:290-318 | any set of rows from idx on that completes the cover bounds the best outcome of the search: the search finds a cover no larger |
| `Exact.ImproveTwice` | test/headers/TabularMethodSolver.h:291-311 | improving minCost by both branches in turn equals improving it by the better of the two |
| `Greedy.FillLeaves` | test/headers/TabularMethodSolver.h:322-323 | after the set-up loop, leaf v of the tree holds (row size of v, v) |
| `Greedy.Choose` | test/headers/TabularMethodSolver.h:327 | the query returns a row that covers the most uncovered vertices (the last such row on ties) and covers at least one |
| `Greedy.CoverColumn` | test/headers/TabularMethodSolver.h:335-339 | covering a vertex lowers each row's leaf by the number of times the vertex appears in that row |
| `Greedy.Select` | test/headers/TabularMethodSolver.h:332-339 | selecting an uncovered vertex keeps the tree, `selected` and the count in step with the covered set |
| `Greedy.TakeRow` | test/headers/TabularMethodSolver.h:329-340 | taking a row covers its vertices and raises the count when the row adds something |
| `Greedy.Pick` | test/headers/TabularMethodSolver.h:326-341 | one step of the loop appends the row it picks, a row with the most uncovered columns that adds at least one, covers exactly that row's columns besides those covered before, and strictly increases the covered count |
| `Greedy.Greedy` | test/headers/TabularMethodSolver.h:319-342 | greedy covers every right vertex, each pick being a best row given the earlier picks, with distinct picks and no more picks than vertices |
| `Greedy.SomeLive` | test/headers/TabularMethodSolver.h:326-327 | while a vertex is uncovered and every vertex has a neighbour, some row still covers an uncovered vertex, so the loop makes progress |
| `Greedy.LiveCover` | test/headers/TabularMethodSolver.h:335-338 | covering u reduces a row's uncovered count by the number of occurrences of u in the row |
| `Segment.Max` | headers/MaxSegmentTree.h:25-28 | the maximum is one of its arguments, no smaller than either, and the second one on ties |
| `Segment.LeftChild` | headers/MaxSegmentTree.h:14-16 | the left child is above its parent and has it as parent |
| `Segment.RightChild` | headers/MaxSegmentTree.h:17-19 | the right child follows the left child and has the same parent |
| `Segment.IsRangeMeaning` | headers/MaxSegmentTree.h:20-24 | the two ranges overlap exactly when the larger start is at most the smaller end |
| `Segment.ShapeFits` | headers/MaxSegmentTree.h:30-32 | a vector of 4·size entries holds every node of the tree over [0, size-1] |
| `Segment.MaxSegment.constructor` | headers/MaxSegmentTree.h:30-32 | a fresh tree of 4·size default nodes represents size default leaves |
| `Segment.MaxSegment.SetValue` | headers/MaxSegmentTree.h:33-44 | setValue stores v at leaf s (no change when s is out of the node's range), keeps every node the maximum of its children, and touches no node outside the subtree |
| `Segment.MaxSegment.SetValueInner` | headers/MaxSegmentTree.h:40-43 | the internal-node case: both recursive calls then the maximum of the children |
| `Segment.MaxSegment.Update` | headers/MaxSegmentTree.h:45-56 | update adds v to leaf s and keeps the tree's invariant, touching nothing outside the subtree |
| `Segment.MaxSegment.UpdateInner` | headers/MaxSegmentTree.h:52-55 | the internal-node case of update |
| `Segment.MaxSegment.QueryMax` | headers/MaxSegmentTree.h:57-73 | query returns the leaf of largest value in [s, e] within the node's range (the last one on ties) |
| `Segment.MaxSegment.QueryBoth` | headers/MaxSegmentTree.h:63-71 | when the query range meets both halves, the answer is the maximum of the two halves' answers |
| `Segment.MaxSegment.Relink` | headers/MaxSegmentTree.h:43 | recomputing a node as the maximum of its children restores the invariant at that node |
| `Segment.PeakJoin` | headers/MaxSegmentTree.h:69 | the maximum of two adjacent ranges' peaks is the peak of their union |
| `Sorting.Sort` | test/headers/TabularMethodSolver.h:474 | the answer is sorted, a permutation of its input, and strictly increasing when the input has no repeats |
| `Answers.MapBack` | test/headers/TabularMethodSolver.h:428-429 | the answer is `rev[solCase[i]]` for each pick, in order |
| `Answers.TranslateProperties` | test/headers/TabularMethodSolver.h:428-429 | mapped picks are non-essential prime implicants, and stay increasing and distinct when the picks are |
| `Answers.AddEssentials` | test/headers/TabularMethodSolver.h:471-473 | the loop appends the indices of the essential prime implicants in increasing order |
| `Answers.EPIListMeaning` | test/headers/TabularMethodSolver.h:471-473 | the appended list is increasing and holds exactly the essential indices |
| `Answers.ExactCover` | test/headers/TabularMethodSolver.h:433-447 | the exact search's picks, mapped back, are increasing non-essential prime implicants that complete the cover whenever one exists, and are no more than any other completing set |
| `Answers.ExactSome` | test/headers/TabularMethodSolver.h:439-441 | with uncovered minterms left, the recorded cover completes the cover and is minimal |
| `Answers.ExactNone` | test/headers/TabularMethodSolver.h:439-441 | with every minterm held by an essential prime implicant, the search finds nothing and the empty answer completes the cover |
| `Answers.SearchBound` | test/headers/TabularMethodSolver.h:439-441 | any completing set gives the search a cover of at most its size |
| `Answers.ApproxCover` | test/headers/TabularMethodSolver.h:419-432 | greedy's picks, mapped back, are distinct non-essential prime implicants that complete the cover, no more than the uncovered minterms |
| `Answers.GraphBipartite` | test/headers/TabularMethodSolver.h:413-414 | the graph built is bipartite in the sense greedy relies on |
| `Answers.WholeCover` | test/headers/TabularMethodSolver.h:471-473 | the essential prime implicants together with a completing set hold every minterm |
| `Answers.EssentialInEveryCover` | test/headers/TabularMethodSolver.h:367-374 | every essential prime implicant is in every set of prime implicants that holds all minterms |
| `Answers.MinimumCover` | test/headers/TabularMethodSolver.h:463-477 | essential plus exact answers are no more than any set of prime implicants holding every minterm |
| `Solver.InputWidthFits` | test/headers/TabularMethodSolver.h:231-237 | every term added fits in the computed number of inputs |
| `Solver.InputWidthLeast` | test/headers/TabularMethodSolver.h:231-237 | the computed number of inputs is the least width every term fits in |
| `Solver.FreshPIs` | test/headers/TabularMethodSolver.h:244-289 | fresh prime implicants are unflagged, have strictly increasing term lists, and hold every minterm |
| `Solver.FlagsMeaning` | test/headers/TabularMethodSolver.h:343-376 | after getEPI a prime implicant is flagged exactly when it is the only one holding some minterm |
| `Solver.AppendEssentials` | test/headers/TabularMethodSolver.h:471-473 | a solver's answer plus the essential indices is a solution: distinct, every essential one present, covering every minterm, minimal for the exact solver |
| `Solver.SortedSolution` | test/headers/TabularMethodSolver.h:474 | sorting a solution keeps it a solution |
| `Solver.ExactNoLarger` | test/headers/TabularMethodSolver.h:463-490 | the exact answer is never longer than the approximate one |
| `Solver.Tabular.constructor` | test/headers/TabularMethodSolver.h:228-230 | an empty solver has no terms and zero inputs |
| `Solver.Tabular.FromInputs` | test/headers/TabularMethodSolver.h:231-237 | the solver holds the given minterms and don't-cares and the least width that fits them all |
| `Solver.Tabular.AddMin` | test/headers/TabularMethodSolver.h:215-218 | addMin appends the minterm and widens the number of inputs to its bit length when needed |
| `Solver.Tabular.AddDon` | test/headers/TabularMethodSolver.h:219-222 | addDon appends the don't-care and widens the number of inputs to its bit length when needed |
| `Solver.Tabular.GetPI` | test/headers/TabularMethodSolver.h:244-289 | PIs becomes the prime implicants of the current terms; nothing else changes |
| `Solver.Tabular.GetEPI` | test/headers/TabularMethodSolver.h:343-376 | PIs gains exactly the essential flags and totNumberOfEPI their number |
| `Solver.Tabular.TrueSolver` | test/headers/TabularMethodSolver.h:433-447 | trueSolver returns a minimal completing set of non-essential prime implicants |
| `Solver.Tabular.ApproximationSolver` | test/headers/TabularMethodSolver.h:419-432 | approximationSolver returns greedy picks that complete the cover |
| `Solver.Tabular.Pipeline` | test/headers/TabularMethodSolver.h:463-473 | getPI, getEPI, a solver and the essential indices give a solution |
| `Solver.Tabular.Solve` | test/headers/TabularMethodSolver.h:463-477 | solve's answer is increasing, covers every minterm, contains every essential prime implicant and is minimal with the exact solver; `PIs` are the prime implicants getPI collects from the levels it builds, with exactly the essential ones flagged |
| `Solver.Tabular.SolveTest` | test/headers/TabularMethodSolver.h:478-490 | solveTest returns the size of such a solution; `PIs` are getPI's prime implicants with exactly the essential ones flagged, and `totNumberOfEPI` is their number |
| `InlineSolve.InsertTerms` | main.cpp:323-324 | the satisfied set gains exactly the terms given |
| `InlineSolve.NewlyAll` | main.cpp:315-330 | the terms collected while flagging are exactly the terms of the flagged prime implicants |
| `InlineSolve.MarkCollect` | main.cpp:314-326 | the loop flags exactly the sole holders of some minterm, counts them and collects their terms |
| `InlineSolve.MarkOne` | main.cpp:316-325 | one minterm's pass keeps the flagging invariant |
| `InlineSolve.LeftRow` | main.cpp:351-357 | the inner loop builds the row of compressed remaining minterms of one prime implicant |
| `InlineSolve.BiGraph` | main.cpp:336-359 | the loop builds the rows, rev and the essential indices in increasing order |
| `InlineSolve.Eliminate` | main.cpp:292-334 | the essential search and re-compression flag the sole holders and leave the minterms no essential prime implicant holds |
| `InlineSolve.GraphSearch` | main.cpp:336-368 | the graph and the exact search give the essential indices followed by a minimal completing set |
| `Solver.Tabular.SolveInline` | main.cpp:291-368 | the earlier solve flags the essential prime implicants and answers them followed by a minimal completing set, leaving `totNumberOfEPI` unchanged |

## Left out

- Output: `ansToString`, `printTerms`, the `cout` lines in `main.cpp` and the
  string `solve` returns. The model's `Solve` returns the sorted index list
  that the string is printed from.
- The test driver, `BiMatch.h` and `DinicWithLRFlow.h` are not part of this
  model.
- `addMinterm` and `addDontcare` only forward to `addMin` and `addDon`. They
  are the same members here.
- The template parameter of `MaxSegment` is fixed to `segNode`, the only type
  the solver uses.
- Floating point: `(int)log2(m) + 1` is `BitLength(m)`. Rounding of `log2`
  near powers of two for terms above 2^53 is not modelled.
- Bits.BitLength: the width of the term 0 is taken as 0. In the source it
  comes from `(int)log2(0)`, which is undefined behaviour.
- Fixed width: terms are unbounded naturals. The 64-input limit and the
  wrap-around of `ull` shifts are not modelled.
- Integer width: `int` counters are unbounded. Overflow of vertex counts is
  not modelled.
- Segment.MaxSegment.QueryMax: requires `s <= e` and an overlapping range.
  With no overlap the source returns a default `segNode()`, value -1 and
  index -1; greedy only queries the whole range, so that case is not
  modelled.
- Solver.Tabular.ApproximationSolver: requires every minterm to be held by
  some prime implicant. That is what getPI leaves (`Solver.FreshPIs`).
  Without it the source misbehaves: with no rows left (`nL == 0`) the query
  reads `seg[0]` of an empty vector, which is undefined behaviour, and with
  rows left the loop keeps picking rows that cover nothing and never ends.
- Solver.Tabular.SolveInline: requires all prime implicants unflagged, as
  getPI leaves them. The earlier `solve` does not reset flags before
  searching.
- Sorting.Sort: `std::sort` is specified by its result (sorted, a
  permutation). Its algorithm is not modelled.
- Calling `getEPI` a second time on already-flagged prime implicants is
  modelled (flags are kept). The count it reports then is only the new flags,
  as in the source, not the total.

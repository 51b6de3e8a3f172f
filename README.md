# BK-tree for approximate string matching

A model of the header `bktree/bktree.hpp` of the bk-tree library. The header provides two pieces:

- **Two string metrics.**
  - `hamming_distance` counts differing positions. For strings of different lengths it returns the `ui` (32-bit unsigned) maximum as a sentinel.
  - `edit_distance` is the Levenshtein dynamic program. It runs over a scratch matrix that the metric object keeps between calls and replaces with an (m+1)×(n+1) matrix when it is too small.
- **A BK-tree over a metric.**
  - Each `tree_node` holds a word and a `std::map` from distance key to child.
  - `insert` files a word under the child keyed by its distance from the node's word.
  - `find` reports each node it visits whose distance from the query is within `limit`. It visits only children whose key lies in `[d - limit, d + limit]`, where d is the query's distance to the node's word.
  - `bk_tree` owns the optional root and a node counter.

The project has seven files:

- `metrics.dfy` (module `Metrics`):
  - the `ui` type and the two conversions the header performs implicitly: `size_t` to `ui` (keep the low 32 bits) and `ui` to `int` (32-bit two's complement);
  - the recursive definitions `Hamming` and `Lev`;
  - the loop `HammingDistance`;
  - the class `EditDistanceMetric` with its matrix as an `array2`, filled in place by `FillTable` and `FillColumn`.
- `metric_properties.dfy` (module `MetricProperties`): what the two metrics promise.
  - Hamming counts mismatched positions and is a metric on strings of one length.
  - Edit distance is 0 exactly on equal strings, is symmetric, satisfies the triangle inequality, and lies between the length difference and the longer length.
- `tree_model.dfy` (module `TreeModel`):
  - the value-level tree `Tree = Node(word, children: map<int, Tree>)`;
  - `Insert` and `Find` on it;
  - `Bag`, the multiset of stored words;
  - the BK invariant `Partitioned`;
  - `Ascending`, the key order of a `std::map`.
- `tree_properties.dfy` (module `TreeProperties`):
  - insert adds exactly one copy of a word when it reports success, and keeps the invariant;
  - find is sound and prunes by key;
  - when the metric is symmetric and satisfies the triangle inequality among the stored words and the query, find is complete, so its result is exactly the range filter over the stored words.
- `metric_trees.dfy` (module `MetricTrees`): the tree with each shipped metric.
  - With Hamming distance, the `ui` sentinel read as `int` is -1. Insert refuses a word of another length. To a query of another length and any `limit >= -1`, find reports the root and possibly more words, all with distance -1 (for `limit < -1` it reports nothing); which words it reports depends on their keys, since a child is visited only when its key lies in [-1 - limit, -1 + limit]. To a query of the root's length (below 2^31), find returns exactly the stored words within the limit.
  - With either metric, on words shorter than 2^31, insert succeeds exactly on a word not yet stored (for Hamming, one of the root's length), and the tree holds each word at most once. With edit distance on such words, find returns exactly the stored words within the limit.
- `hamming_fixture.dfy` (module `HammingFixture`): the library's Hamming test fixture (tests/bktree_hamming.cpp:10-14), run through this header's insert rules.
  - Ten words are inserted into an empty tree. The four whose length differs from the root's are refused, so six nodes remain, which is the size the test expects at line 31.
  - The test itself is written against a later class name; the words, their order and the metric are what the lemmas use.
- `bk_tree.dfy` (module `BkTrees`): the classes `TreeNode` and `BkTree`.
  - They are updated in place, and each carries its value-level `Model`.
  - Every method is proved to change the nodes as `TreeModel.Insert` says, or to append what `TreeModel.Find` says.
  - `BkTree.Valid` keeps the BK invariant and `treeSize == Count(Model)`.

The metric is a parameter of type `(string, string) -> ui`, as the template parameter `Metric` is in the header. The tree stores `ToInt32(metric(value, word))`, exactly as the `const int` locals at lines 124 and 152 do.

Two behaviours of the header are worth knowing before reading the model:

- **`bk_tree::find` on an empty tree.** `bk_tree::find` dereferences `m_root` unconditionally (bktree/bktree.hpp:180), so `BkTree.Find` requires a non-empty tree.
- **The Hamming sentinel in `find`.** The sentinel stored in an `int` is -1 (bktree/bktree.hpp:152), which passes `distance <= limit` for every `limit >= -1`. `MetricTrees.HammingFindOtherLength` and `MetricTrees.HammingFindDependsOnKeys` state what follows.

## Model

| member | source | states |
|---|---|---|
| Metrics.ToU32 | bktree/bktree.hpp:23-24 | a length stored in `ui` is congruent to it modulo 2^32, unchanged below 2^32, and never larger than the length |
| Metrics.ToInt32 | bktree/bktree.hpp:124 | a `ui` read as `int` lies in [-2^31, 2^31), is congruent to it modulo 2^32, and equals it below 2^31 |
| Metrics.Mismatches | bktree/bktree.hpp:30-32 | the mismatch count over the first n positions is at most n |
| Metrics.Hamming | bktree/bktree.hpp:23-33 | the value `hamming_distance` returns: the sentinel when the stored lengths differ, otherwise a count no larger than the length (its meaning as a mismatch count is `MetricProperties.HammingEqualLengths`) |
| Metrics.HammingDistance | bktree/bktree.hpp:19-35 | the loop returns `Hamming(s, t)`: the sentinel when the stored lengths differ, otherwise a count no larger than the length |
| MetricProperties.MismatchesCountsPositions | bktree/bktree.hpp:28-33 | the counter equals the number of positions i < n with s[i] != t[i] |
| MetricProperties.HammingDifferentLengths | bktree/bktree.hpp:25-27 | strings of different lengths get `U32_MAX` |
| MetricProperties.HammingEqualLengths | bktree/bktree.hpp:28-33 | equal-length strings get the size of their set of mismatched positions, between 0 and the length; two empty strings get 0 |
| MetricProperties.MismatchesZero | bktree/bktree.hpp:30-32 | no mismatch among the first n positions exactly when those prefixes are equal |
| MetricProperties.MismatchesSymmetric | bktree/bktree.hpp:30-32 | the mismatch count does not depend on the argument order |
| MetricProperties.MismatchesTriangle | bktree/bktree.hpp:30-32 | mismatch counts satisfy the triangle inequality |
| MetricProperties.HammingIsMetricOnOneLength | bktree/bktree.hpp:19-35 | on strings of one length, Hamming distance is 0 exactly on equal strings, symmetric, and satisfies the triangle inequality |
| Metrics.Lev | bktree/bktree.hpp:56-69 | definition with no ensures: the recurrence the matrix holds, i in column 0 and j in row 0 (lines 56-61), `LevStep` elsewhere; its properties are `LevBounds`, `LevSymmetric`, `LevZeroOnlyOnEqual` and `LevTriangle` |
| Metrics.LevStep | bktree/bktree.hpp:64-69 | definition with no ensures: the cell update, the cheapest of insertion, deletion and substitution; `FillColumn` is proved to store it |
| Metrics.LevAtMostLonger | bktree/bktree.hpp:62-71 | the Levenshtein recurrence is at most the larger prefix length |
| Metrics.LevAtLeastDifference | bktree/bktree.hpp:62-71 | the Levenshtein recurrence is at least the difference of the prefix lengths |
| Metrics.LevBounds | bktree/bktree.hpp:62-71 | the recurrence lies between the length difference and the larger length, so it fits in `ui` |
| Metrics.EditDistance | bktree/bktree.hpp:46-73 | the value `edit_distance` returns: at most the larger stored length, and the other length when one side is empty (its metric properties are `MetricProperties.EditDistanceProperties` and `EditDistanceTriangle`) |
| Metrics.EditDistanceMetric.constructor | bktree/bktree.hpp:44-45 | the metric starts with a zero square matrix of the requested size, 1 by default (`BK_ED_MATRIX_INITIAL_SIZE`, line 4) |
| Metrics.EditDistanceMetric.Distance | bktree/bktree.hpp:46-73 | returns the Levenshtein distance of the two (length-truncated) strings; returns the other length when one is empty; the matrix invariant (cell [0,0] is 0) is kept across calls, whether the matrix is grown or reused |
| Metrics.FillTable | bktree/bktree.hpp:56-71 | after the three loops, every cell [i, j] with i <= m and j <= n holds the Levenshtein distance of the first i and first j characters |
| Metrics.FillColumn | bktree/bktree.hpp:63-70 | the inner loop extends the filled columns by column j and keeps row 0 of the columns after it |
| MetricProperties.LevSelf | bktree/bktree.hpp:62-71 | a prefix is at edit distance 0 from itself |
| MetricProperties.LevZeroOnlyOnEqual | bktree/bktree.hpp:62-71 | edit distance 0 implies equal prefixes of equal length |
| MetricProperties.LevSymmetric | bktree/bktree.hpp:62-71 | swapping the strings does not change the recurrence |
| MetricProperties.LevTriangle | bktree/bktree.hpp:62-71 | the recurrence satisfies the triangle inequality on all prefixes |
| MetricProperties.EditDistanceTriangle | bktree/bktree.hpp:46-73 | edit distance satisfies the triangle inequality |
| MetricProperties.EditDistanceProperties | bktree/bktree.hpp:46-73 | edit distance is 0 exactly on equal strings, symmetric, the other length when one string is empty, and at most the longer length |
| TreeModel.MinKey | bktree/bktree.hpp:156 | the first key a `std::map` visits is in the key set and no larger than any other key |
| TreeModel.Ascending | bktree/bktree.hpp:156 | the map's iteration visits exactly its keys |
| TreeModel.AscendingSorted | bktree/bktree.hpp:156 | the map's iteration order is strictly increasing |
| TreeModel.Insert | bktree/bktree.hpp:121-137 | node insert keeps the node's word; a refused word leaves the tree unchanged; a word is added only at positive distance |
| TreeProperties.BagAttach | bktree/bktree.hpp:129-130 | attaching a new child under a fresh key adds exactly the child's words |
| TreeProperties.BagReplace | bktree/bktree.hpp:133 | replacing the child under a key trades its words for the new child's words |
| TreeProperties.BagMembers | bktree/bktree.hpp:90-91 | a word is stored in a tree exactly when it is the node's word or stored under some child |
| TreeProperties.InsertBag | bktree/bktree.hpp:121-137 | insert adds exactly one copy of the word when it returns true, and nothing otherwise |
| TreeProperties.InsertKeepsPartitioned | bktree/bktree.hpp:124-134 | insert keeps every key positive and equal to the distance of every word below it from the parent's word |
| TreeProperties.ChildKeyIsDistance | bktree/bktree.hpp:124-130 | in a partitioned tree, each child's key is the distance of the child's word from the parent's word |
| TreeProperties.StoredWordRefused | bktree/bktree.hpp:124-126 | a stored word at non-positive distance from itself is refused and the tree is unchanged |
| TreeProperties.NewWordInserted | bktree/bktree.hpp:124-134 | a word at positive distance from every stored word is always added |
| TreeProperties.InsertAddsExactlyNewWords | bktree/bktree.hpp:121-137 | when the distance from the new word to each stored word is non-positive exactly on equal words, insert succeeds exactly when the word is not stored |
| TreeProperties.BagOverOnce | bktree/bktree.hpp:124-134 | in a partitioned tree, a word held at most once by each child is held at most once by all children together |
| TreeProperties.PartitionedHoldsEachWordOnce | bktree/bktree.hpp:121-137 | a partitioned tree whose words are at non-positive distance from themselves holds each word at most once |
| TreeModel.TreeInsert | bktree/bktree.hpp:163-175 | tree insert always leaves a root, keeps an existing root's word, and changes nothing when it reports false (counting is `TreeProperties.TreeInsertCount`) |
| TreeModel.Find | bktree/bktree.hpp:148-161 | definition with no ensures: the node's own hit when d <= limit, then the children loop; its properties are `TreeProperties.FindSound`, `FindPrunesByKey` and `FindIsRangeFilter` |
| TreeModel.FindAlong | bktree/bktree.hpp:156-160 | definition with no ensures: the hits of the children at keys ks[i..] whose key lies in the window, in order; its properties are `TreeProperties.FindAlongSound`, `FindAlongWindow` and `FindAlongIncludes` |
| TreeProperties.TreeInsertCount | bktree/bktree.hpp:163-175 | tree insert on an empty tree yields a leaf root and true; the result is partitioned and its node count grows by one exactly when it reports true |
| TreeProperties.FindSound | bktree/bktree.hpp:148-161 | every hit (w, d) has w stored, d equal to the query's distance to w, and d <= limit |
| TreeProperties.FindAlongSound | bktree/bktree.hpp:156-160 | every hit from the children loop is sound in the same way |
| TreeProperties.FindAlongWindow | bktree/bktree.hpp:156-160 | a hit from the children loop comes from a child whose key lies in [d - limit, d + limit] |
| TreeProperties.FindPrunesByKey | bktree/bktree.hpp:152-160 | a hit is the node itself at distance <= limit, or comes from a child whose key lies in the window |
| TreeProperties.FindAlongNegativeLimit | bktree/bktree.hpp:156-160 | with a negative limit the window is empty and the children loop reports nothing |
| TreeProperties.FindAlongIncludes | bktree/bktree.hpp:156-160 | every hit of a child in the window, at or after the loop position, is reported |
| TreeProperties.WindowHolds | bktree/bktree.hpp:157 | when the metric is symmetric and triangular among the query, the node's word x and a word w within the limit, w's distance from x lies in the window [d - limit, d + limit] that find visits |
| TreeProperties.FindComplete | bktree/bktree.hpp:148-161 | when the metric is symmetric and triangular among the stored words and the query, every stored word within the limit is reported with its distance |
| TreeProperties.FindIsRangeFilter | bktree/bktree.hpp:148-161 | under the same hypothesis, the set of hits equals the brute-force filter of the stored words by distance <= limit |
| MetricTrees.SentinelIsMinusOne | bktree/bktree.hpp:124 | the Hamming sentinel stored in an `int` is -1 |
| MetricTrees.HammingRefusesOtherLengths | bktree/bktree.hpp:124-126 | with Hamming distance, a word whose length differs from the node's is refused and the tree is unchanged |
| MetricTrees.HammingTreeOneLength | bktree/bktree.hpp:124-126 | every word in a Hamming tree has the root's stored length |
| MetricTrees.HammingFindOtherLength | bktree/bktree.hpp:152-155 | for any `limit >= -1`, a query of another length gets the root as first hit with distance -1, and every hit has distance -1 |
| MetricTrees.HammingFindOtherLengthBelowMinusOne | bktree/bktree.hpp:152-160 | for `limit < -1`, a query of another length gets no hit at all |
| MetricTrees.HammingFindDependsOnKeys | bktree/bktree.hpp:152-160 | in the partitioned tree "aaa" with child "bbb" at key 3, the query "x" with limit 1 gets only ("aaa", -1), although "bbb" is also at distance -1 |
| MetricTrees.HammingFindIsRangeFilter | bktree/bktree.hpp:148-161 | for a query of the root's stored length below 2^31, the hits of a Hamming tree are exactly the stored words within the limit, with their distances |
| MetricTrees.EditFindIsRangeFilter | bktree/bktree.hpp:148-161 | for a query and stored words shorter than 2^31, the hits of an edit-distance tree are exactly the stored words within the limit, with their distances |
| MetricTrees.HammingTreeDeduplicates | bktree/bktree.hpp:121-137 | in a Hamming tree, insert succeeds exactly when the word has the root's length and is not stored |
| MetricTrees.EditTreeDeduplicates | bktree/bktree.hpp:121-137 | in an edit-distance tree, insert succeeds exactly when the word is not stored |
| MetricTrees.HammingTreeHoldsEachWordOnce | bktree/bktree.hpp:121-137 | a Hamming tree of words shorter than 2^31 holds each word at most once |
| MetricTrees.EditTreeHoldsEachWordOnce | bktree/bktree.hpp:121-137 | an edit-distance tree of words shorter than 2^31 holds each word at most once |
| HammingFixture.InsertAll | tests/bktree_hamming.cpp:12-14 | inserting words one by one reports true at most once per word, and leaves a tree once any word was inserted |
| HammingFixture.InsertAllCount | tests/bktree_hamming.cpp:12-14 | after a run of inserts the node count has grown by the number of inserts that reported true, and the BK invariant still holds |
| HammingFixture.InsertAllAppend | tests/bktree_hamming.cpp:12-14 | inserting a + b is inserting a, then b into the result, and the successes add up |
| HammingFixture.InsertAllStep | tests/bktree_hamming.cpp:12-14 | a run of inserts is its first insert followed by the rest |
| HammingFixture.HammingOfFour | bktree/bktree.hpp:28-33 | the Hamming distance of two four-letter words is the number of positions where they differ |
| HammingFixture.FixtureDistances | tests/bktree_hamming.cpp:10-11 | the distances the fixture's inserts compute; the four words of length other than 4 get -1 |
| HammingFixture.HeadSteps | tests/bktree_hamming.cpp:10-14 | "tall" becomes the root; "tell", "teel", "feel" become its children at keys 1, 2, 3 |
| HammingFixture.TailSteps | tests/bktree_hamming.cpp:10-14 | "tally", "belly", "kelly", "tal" are refused with the tree unchanged; "tuck" goes under "feel" at key 4 and "kill" under "teel" at key 3 |
| HammingFixture.FixtureHead | tests/bktree_hamming.cpp:10-14 | the first four words build the tree T4 with four successes |
| HammingFixture.FixtureMiddle | tests/bktree_hamming.cpp:10-14 | the next three words take T4 to T6 with one success |
| HammingFixture.FixtureLast | tests/bktree_hamming.cpp:10-14 | the last three words take T6 to T9 with one success |
| HammingFixture.HammingFixtureTree | tests/bktree_hamming.cpp:10-14 | the ten inserts build T9 and exactly six of them report true |
| HammingFixture.HammingFixtureSize | tests/bktree_hamming.cpp:31 | the fixture's tree has six nodes, the size the test expects |
| BkTrees.TreeNode.constructor | bktree/bktree.hpp:93 | a new node is a leaf holding the word |
| BkTrees.TreeNode.Insert | bktree/bktree.hpp:121-137 | the nodes change and the result is returned as `TreeModel.Insert` says; only nodes of the tree and new nodes are touched |
| BkTrees.TreeNode.AttachLeaf | bktree/bktree.hpp:128-131 | a missing key gets a new leaf holding the word, and nothing else changes |
| BkTrees.TreeNode.InsertBelow | bktree/bktree.hpp:132-134 | an existing key passes the word to its child, and only that child's subtree changes |
| BkTrees.TreeNode.Find | bktree/bktree.hpp:148-161 | appends to the output exactly `TreeModel.Find`, visiting children in ascending key order |
| BkTrees.TreeNode.VisitChild | bktree/bktree.hpp:157-159 | the child under a key inside [d - limit, d + limit] appends exactly its subtree's hits; a child outside the window adds nothing |
| BkTrees.FindStart | bktree/bktree.hpp:152-156 | once the node's own hit (if within the limit) is appended, the output plus what the children add is the whole result |
| BkTrees.FindStep | bktree/bktree.hpp:156-160 | one turn of the children loop keeps "output so far plus what the remaining keys add" equal to the whole result |
| BkTrees.TreeNode.FindWrapper | bktree/bktree.hpp:139-146 | returns `TreeModel.Find` of the node, starting from empty output |
| BkTrees.BkTree.constructor | bktree/bktree.hpp:116-118 | a new tree has no root and size 0 |
| BkTrees.BkTree.Insert | bktree/bktree.hpp:163-175 | the tree changes as `TreeModel.TreeInsert` says, keeps the BK invariant, and its size grows by one exactly when insert returns true |
| BkTrees.BkTree.Find | bktree/bktree.hpp:177-181 | on a non-empty tree, returns `TreeModel.Find` of the root |
| BkTrees.BkTree.Size | bktree/bktree.hpp:183-185 | the stored size is the number of nodes |

## Left out

- Metrics.EditDistanceMetric.Distance: the matrix cells are `int` in the header. With a string of 2^31 − 1 characters or more, the `+ 1` of lines 65-66 overflows: cell [m][0] already holds `INT_MAX` when cell [m][1] is computed. The model keeps the cells unbounded, so its result is the true recurrence for every length. The edit-distance lemmas of `MetricTrees` (`EditDistOnShortWords`, `EditTreeDeduplicates`, `EditTreeHoldsEachWordOnce`, `EditFindIsRangeFilter`) take words shorter than 2^31, so they also cover length 2^31 − 1, where the header overflows. At a stored length of 2^32 − 1 the header fails further: `m + 1` or `n + 1` wraps to 0 in the allocation at line 53, and the `ui` loops `i <= m` / `j <= n` (lines 56, 59, 62-63) never end. None of this is modelled.
- TreeModel.Find: `distance - limit` and `distance + limit` (bktree/bktree.hpp:157) are `int` arithmetic in the header and overflow for extreme `limit` values. The model computes them without bounds.
- BkTrees.BkTree.Size: `m_tree_size` is a `size_t`. The model's counter is unbounded, since 2^64 insertions cannot happen.
- BkTrees.BkTree.Find: requires a non-empty tree, because the header dereferences the null root of an empty tree (bktree/bktree.hpp:180).
- TreeProperties.FindComplete: completeness needs the metric, read as `int`, to be symmetric and triangular only among the stored words and the query. Over all strings neither shipped metric is: the Hamming sentinel reads as -1, and an edit distance of 2^31 or more wraps to a negative `int`. A Hamming count of 2^31 or more wraps negative too. So completeness is stated for a Hamming query of the root's stored length when that length is below 2^31, and for edit-distance words shorter than 2^31 (MetricTrees.HammingFindIsRangeFilter, MetricTrees.EditFindIsRangeFilter), and not beyond.
- Strings: a Dafny `string` here stands for the bytes of a `std::string`, one `char` per byte, as `size()` (lines 23-24, 47-48) and `s[i]` (lines 31, 68) see them. Character encodings are not modelled: a non-ASCII character is as many `char`s as its encoding has bytes.
- The `find` output vector is modelled as a sequence value passed in and returned, not as a reference the callee appends to.
- `tree_node` and `bk_tree` hold their children and root through `unique_ptr` and `std::map`. The model uses object references and a Dafny `map`, with ownership expressed by disjoint `Repr` sets; memory release is not modelled.
- The later API that the test and example files are written against (`BKTree`, `erase`, `empty`, iterators, copy and move, and the Damerau-Levenshtein, Lee, LCS, Length and Uniform metrics) is not part of this model. Neither is its test of size 9 for nine words with one repeat (tests/bktree_edit.cpp:32). Against this header, `MetricTrees.EditTreeDeduplicates` shows the repeated word would not be added.
- Console examples and the benchmark harness are I/O demonstrations and are not modelled.
- Thread safety of the shared scratch matrix is not modelled. The model is sequential.

# Two-mode affiliation networks in Dafny

This project models the `Network` class of `network.py`, an analysis engine
for two-mode (person-to-group) affiliation networks, and proves properties
of the model. From a list of `[person, group]` edges a network derives:

- the sorted, duplicate-free person and group lists;
- the 0/1 person-to-group incidence matrix;
- the co-membership matrix M·Mᵀ and its binary form;
- the one-mode person-to-person projection, a graph in which two distinct
  persons are joined when they share a group.

On that projection it computes mean co-enrollments, mean unique
co-enrollments, the unique edge count and the density. One pass over all
unordered pairs of persons yields the characteristic path length, the
diameter and the k-step reach. On the bipartite person-plus-group graph it
finds the largest connected component, the shares of persons and groups
inside it, and rebuilds that component as a fresh network.

Modules, in dependency order:

- `StringOrder`: Python's `<` on strings, and sorted lists built from a set (`list(S); l.sort()`).
- `Matrices`: lists of rows, `m · mᵀ`, thresholding, off-diagonal sums, exact ratio bounds.
- `Graphs`: adjacency maps, `add_edge`, and distance defined as the first level of an iterated neighbourhood. It also holds breadth-first search proved against that definition, walks, connected components and the first largest component.
- `Links`: raw links, the person and group sets, the incidence matrix and the loop of `_getBipartiteGraph`.
- `Networks`: the `Network` value, the constructor `Build`, the matrices and the projection.
- `Statistics`: the whole-network statistics.
- `PairStatistics`: pure summaries of the list of pair distances (sum, maximum, counts within `x` steps, sentinels).
- `PathData`: `_getData` and its three selectors as loops over an all-pairs distance table.
- `Components`: the bipartite graph, the largest component, `getLargestProportion` and `largestComponentToNetwork`.
- `Equality`: `__eq__` as written and as intended.
- `Samples`: worked values: closed forms for the statistics of `ChainRows(r)`, the pair-distance list a chain of `r + 1` persons would give, the six-person chain of the test suite, and every matrix and statistic of the three-person chain `[[A,G1],[B,G1],[B,G2],[C,G2]]`.

Every ratio is an exact `real`.

A division by zero or an `IndexError` that Python would raise is an `Err` result.

A `Network` is an immutable value, because the source writes its fields only in `__init__`.

The projection is keyed by each person's position in the sorted person list. Names are distinct, so this is a bijection with the names networkx uses.

In three places the code behaves differently from what its names or comments suggest; the model follows the code:

- **Projection nodes.** They are only the persons with at least one neighbour, because nodes enter `_network` only through `add_edge`. Consequences:
  - density and mean unique co-enrollments divide by that node count, not by the person count;
  - when there are at least two persons, a person who shares no group with anyone makes `_getData` return the -1 sentinels.
- **`__eq__`.** It compares the persons of both networks. The groups and the matrix are each compared with themselves (see Findings).
- **`largestComponentToNetwork`.** It keeps only links that are exactly `[p, g]`, where `p` is a person of the component and `g` a node of it that is not a person. A name used both as a person and as a group is one node of the bipartite graph, as in networkx.

## Model

| member | source | states |
|---|---|---|
| Networks.Build | network.py:28-78 | an empty edge list gives `NoEdges`. Otherwise the first link without a group field gives `MissingField` at its index, and every earlier link has both fields. If neither error occurs, the result is a valid network: persons and groups are the strictly sorted lists of exactly the first and second fields, and the projection joins exactly the persons who share a group |
| Networks.ProjectedGraph | network.py:71-78 | the nested loop adds edge `{i, k}` exactly for `i != k` with binary entry 1, and creates no node without an edge |
| StringOrder.SortedList | network.py:61-69 | the list is strictly sorted and holds exactly the elements of the set |
| StringOrder.SortedUnique | network.py:66-69 | two strictly sorted lists with the same elements are equal, so the person and group lists are determined by the links |
| StringOrder.LessTotal | network.py:68-69 | Python's string order compares any two distinct strings |
| StringOrder.LessTransitive | network.py:68-69 | Python's string order is transitive |
| Links.IndexOf | network.py:107-108 | `list.index` returns the first position holding the name |
| Links.BipartiteMatrix | network.py:96-112 | the loop yields a persons-by-groups matrix where cell `(i, j)` is 1 exactly when some link puts `persons[i]` in `groups[j]` (duplicates collapse) |
| Links.Incidence | network.py:102-112 | the incidence matrix has `|persons|` rows of `|groups|` 0/1 entries, 1 exactly at the recorded memberships |
| Networks.PersonToGroup | network.py:115-116 | a persons-by-groups 0/1 matrix, 1 exactly at the recorded memberships (`Links.Incidence`) |
| Networks.PersonToPerson | network.py:201-203 | a square matrix over the persons whose entry `(i, k)` counts the groups `i` and `k` share (`Networks.CoMembershipCountsShared`) |
| Networks.BinPersonToPerson | network.py:207-209 | a square 0/1 matrix over the persons, 1 exactly when two persons share a group (`Networks.BinaryMeansShared`) |
| Networks.NotEmpty | network.py:42-69 | a network has at least one person and one group |
| Networks.CoMembershipSymmetric | network.py:201-203 | M·Mᵀ is symmetric |
| Networks.CoMembershipCountsShared | network.py:201-203 | entry `(i, k)` of M·Mᵀ is the number of groups persons `i` and `k` share |
| Networks.DiagonalCountsGroups | network.py:201-203 | diagonal entry `(i, i)` is the number of groups of person `i` |
| Networks.EveryPersonInAGroup | network.py:201-203 | every diagonal entry is at least 1 |
| Networks.BinaryMeansShared | network.py:207-209 | a binary entry is 1 exactly when the two persons share a group |
| Networks.BinarySymmetricDiagonal | network.py:207-209 | the binary matrix is symmetric with an all-1 diagonal |
| Networks.ProjectionMeaning | network.py:71-78 | two positions are adjacent in the projection exactly when they are distinct persons sharing a group |
| Networks.ProjectionUndirected | network.py:73-78 | the projection is undirected, every neighbour is a node, and every node is a person's position |
| Networks.ProjectionNodes | network.py:73-78 | a person is a node of the projection exactly when they share a group with some other person |
| Networks.SameLinksSameNetwork | network.py:60-78 | networks built from the same set of links, in any order and with any repeats, have the same persons, groups, matrices and projection |
| Graphs.AddEdge | network.py:78 | `add_edge` adds both endpoints as nodes and the edge in both directions, and keeps every other edge |
| Graphs.ShortestPathLengths | network.py:276 | breadth-first search from a node maps exactly the reachable nodes, each to its distance |
| Graphs.DistanceIsShortestWalk | network.py:276 | a distance is the length of a shortest walk, and no distance means no walk |
| Graphs.ComponentOf | network.py:156 | the search returns exactly the connected component of its source |
| Graphs.FirstLargest | network.py:156 | `max(..., key=len)` returns the first set of greatest size |
| Graphs.LargestComponent | network.py:156 | the result is the component of some node in the given order, no component is larger, and every component met before it is smaller |
| Graphs.SameComponent | network.py:156 | in an undirected graph every node of a component has that same component |
| Statistics.OffDiagonalTotal | network.py:214-219 | the nested loop sums exactly the off-diagonal entries |
| Statistics.MeanCoEnrollments | network.py:213-221 | the result is the off-diagonal sum of M·Mᵀ over the number of persons, which is positive |
| Statistics.CoEnrollmentsBothWays | network.py:213-221 | the ordered-pair sum is twice the sum above the diagonal |
| Statistics.Handshake | network.py:237-238 | the summed degrees of the projection are twice the unique edge count, which equals the number of 1s above the diagonal of the binary matrix |
| Statistics.CoEnrollmentsAtLeastUnique | network.py:213-238 | the co-enrollment sum is at least twice the unique edge count |
| Statistics.MeanUniqueCoEnrollments | network.py:225-234 | a projection without nodes gives `ZeroDivision`. Otherwise the result is the summed degrees over the node count, and the result times the node count is twice the unique edge count |
| Statistics.UniqueEdges | network.py:237-238 | `Graph.size()` of the projection: by `Statistics.Handshake`, half the summed degrees and the number of linked pairs above the diagonal of the binary matrix |
| Statistics.Density | network.py:241-242 | `nx.density` of the projection: by `Statistics.DensityBounds`, a value in [0, 1] |
| Statistics.DensityBounds | network.py:241-242 | the density of the projection lies in [0, 1] |
| PathData.AllPairsShortestPaths | network.py:276 | the table holds, for every node, the distances of exactly the nodes it reaches |
| PathData.LookupIsDistance | network.py:290-303 | reading `path[n][m]` for distinct persons gives their distance, and the `KeyError` case is exactly an unreachable pair, including a person who is not a node |
| PathData.AddToReach | network.py:298-300 | every step count `x` from 1 to `k` with `len <= x` gains one pair, and the others are unchanged |
| PathData.Rescale | network.py:306-307 | every count is divided by the number of pairs |
| PathData.TallyStep | network.py:288-303 | one pair keeps the tally invariant. `totalLen` and the diameter become -1 for an unreachable pair and are frozen once -1, while the reach counts still grow |
| PathData.TallyPair | network.py:288-303 | one pair's update of `numPairs`, `totalLen`, the diameter and the counts |
| PathData.TallyRow | network.py:285-303 | the inner loop takes the tally from the pairs of rows below `i` to those of rows up to `i` |
| PathData.TallyPairs | network.py:284-303 | after the nested loops the tally covers every pair `i < j` of persons in row order |
| PathData.TalliedSummary | network.py:305-313 | dividing the final tally by the number of pairs gives the reach vector, the path length (or -1.0) and the diameter of the pair distances |
| PathData.GetData | network.py:275-315 | fewer than two persons gives `ZeroDivision`. Otherwise the result is the summary of the distances of all pairs `i < j` |
| PathData.DistancesSeparated | network.py:284-287 | two distinct persons are never zero steps apart |
| PathData.UnreachableIffSplit | network.py:301-303 | some pair is unreachable exactly when two persons lie in different components of the projection |
| PathData.LonerDisconnects | network.py:301-303 | with two or more persons, one who is not a node of the projection makes some pair unreachable |
| PathData.CharPathLength | network.py:251-252 | fewer than two persons gives `ZeroDivision`. The result is -1.0 exactly when some pair is unreachable, and otherwise lies between 1 and the largest distance |
| PathData.NetworkDiameter | network.py:257-258 | fewer than two persons gives `ZeroDivision`. The result is -1 exactly when some pair is unreachable. Otherwise it is at least 1, bounds every pair distance and is attained by some pair |
| PathData.KStepReach | network.py:263-268 | with `multiple` the result is the whole reach vector: `k + 1` shares in [0, 1], non-decreasing. Without it the result is the share at `k`, in [0, 1]. Fewer than two persons gives `ZeroDivision` |
| PairStatistics.PairsMembers | network.py:284-285 | the row-by-row enumeration lists exactly the pairs `i < j < n` |
| PairStatistics.PairsDistinct | network.py:284-285 | no pair is listed twice |
| PairStatistics.PairsCount | network.py:284-288 | `numPairs` is `n(n-1)/2` |
| PairStatistics.MaxDistIsMaximum | network.py:295-296 | the running maximum bounds every known distance and is attained when positive |
| PairStatistics.CountWithinMonotone | network.py:298-300 | allowing more steps never reaches fewer pairs |
| PairStatistics.CountWithinReachable | network.py:298-303 | unreachable pairs never count, and all pairs are reachable exactly when none is unreachable |
| PairStatistics.CountWithinDiameter | network.py:298-300 | with every pair reachable, all pairs lie within the largest distance |
| PairStatistics.CountWithinZero | network.py:298 | no pair of distinct persons is within 0 steps |
| PairStatistics.ShareBounds | network.py:306-308 | a k-step share lies in [0, 1] |
| PairStatistics.ShareMonotone | network.py:306-308 | a k-step share never decreases as `k` grows |
| PairStatistics.ShareAtDiameter | network.py:306-308 | in a connected projection the share within the diameter is 1 |
| PairStatistics.Summary | network.py:305-313 | the reach vector, path length and diameter of a list of pair distances, with the -1 sentinels once a pair is unreachable: the value `_getData` returns by `PathData.TalliedSummary`, whose sentinels `PairStatistics.SentinelsTogether` relates |
| PairStatistics.SentinelsTogether | network.py:301-313 | the path length is -1.0 exactly when the diameter is -1, exactly when some pair is unreachable |
| PairStatistics.PathWithinDiameter | network.py:309-313 | when every pair is reachable, the path length lies between 1 and the diameter, and the diameter is at least 1 |
| PairStatistics.ReachProperties | network.py:279-308 | the reach vector has `k + 1` entries and starts at 0. Its entries lie in [0, 1], never decrease, and never exceed the reachable share |
| PairStatistics.ReachIsShare | network.py:298-308 | entry `x` of the reach vector is the share of pairs within `x` steps |
| PairStatistics.ReachCompleteAtDiameter | network.py:298-308 | in a connected projection with `k` at least the diameter, the last entry is 1 |
| Components.LinkGraph | network.py:147-153 | the graph with one edge per two-field link: by `Components.LinkGraphMeaning` it joins exactly the linked persons and groups, and `Components.BipartiteGraph` builds it |
| Components.BipartiteGraph | network.py:145-153 | one edge per 1-cell of the incidence matrix gives the graph joining exactly the linked persons and groups |
| Components.LinkGraphUnique | network.py:147-153 | the links determine the bipartite graph |
| Components.LinkGraphNodes | network.py:147-153 | every node of the bipartite graph is a person or a group |
| Components.LargestComp | network.py:144-157 | the result is the first largest component in person order. No component is larger, it contains that person, and it holds only persons and groups |
| Components.LargestUnique | network.py:156 | the chosen component is unique |
| Components.NodeNearPerson | network.py:147-156 | every node shares its component with some person, so scanning persons meets every component |
| Components.CountSplit | network.py:185-192 | `countP` counts the component's persons, and `countG` its nodes that are groups but not persons |
| Components.LargestProportion | network.py:182-196 | both shares are the counts over the person and group totals. The person share is in (0, 1] and the group share in [0, 1]. The result is `[1.0, 1.0]` exactly when the component holds every node and no name is both a person and a group |
| Components.SplitNodes | network.py:163-169 | the component's nodes are split into the persons and the rest |
| Components.PairLinks | network.py:172-176 | the kept edges are exactly the two-field links whose person and group are in the two lists |
| Components.LargestComponentToNetwork | network.py:160-177 | the edges kept are exactly the `[p, g]` links inside the largest component, and the result is the valid network built from them. `NoEdges` is returned exactly when no link is kept |
| Components.ConnectedRoundTrip | network.py:160-177 | in a connected network of bare pairs where no group is named like a person, the rebuilt network has the same persons, groups, matrices and projection |
| Equality.EqualAsWritten | network.py:368-374 | `__eq__` as written, whose second and third tests compare a network with itself: by `Equality.AsWrittenComparesPersons`, equality of the person lists |
| Equality.Equal | network.py:365-374 | `__eq__` as its comment describes it: by `Equality.EqualIffSameMemberships`, the two networks record the same memberships |
| Equality.AsWrittenComparesPersons | network.py:368-374 | `__eq__` as written holds exactly when the person lists are equal |
| Equality.AsWrittenIgnoresGroups | network.py:371-372 | the networks of `[A, G1]` and `[A, G2]` are equal as written, although their groups differ |
| Equality.EqualIffSameMemberships | network.py:365-374 | two networks have the same persons, groups and incidence matrix exactly when their links record the same memberships |
| Equality.MembershipCell | network.py:365-372 | a membership of a network is exactly a 1-cell of its matrix |
| Equality.EqualSameProjection | network.py:365-374 | equal networks have the same binary matrix and projection |
| Samples.ChainRowsPairs | network.py:284-288 | the distance list `ChainRows(r)` (a chain's pair distances in `_getData` order) has `r(r+1)/2` entries, all reachable |
| Samples.ChainRowsSum | network.py:292-294 | the distances in the list `ChainRows(r)` (a chain's pair distances in `_getData` order) sum to `r(r+1)(r+2)/6` |
| Samples.ChainRowsMax | network.py:295-296 | the largest distance in the list `ChainRows(r)` (a chain's pair distances in `_getData` order) is `r` |
| Samples.ChainRowsCount | network.py:298-300 | in the list `ChainRows(r)` (a chain's pair distances in `_getData` order), `x` steps reach all entries once `x >= r`, and otherwise `x(x+1)/2 + (r-x)x` of them |
| Samples.ChainPathLength | network.py:305-313 | the summary of the list `ChainRows(r)` (a chain's pair distances in `_getData` order) has path length `(r + 2) / 3` and diameter `r` |
| Samples.SixChainSummary | tester-example/networkTester.py:153-191 | six persons in a chain: path length 35/15, diameter 5, reach `[0, 5/15, 9/15, 12/15, 14/15, 15/15]` |
| Samples.TrioIsBuilt | network.py:28-78 | the only valid network on the links `[[A,G1],[B,G1],[B,G2],[C,G2]]` is the trio: persons `[A, B, C]`, groups `[G1, G2]`, projection `A - B - C` |
| Samples.TrioValid | network.py:28-78 | the trio is a valid network |
| Samples.TrioIncidence | network.py:96-116 | the trio's person-to-group matrix is `[[1,0],[1,1],[0,1]]` |
| Samples.TrioCoMembership | network.py:201-203 | the trio's co-membership matrix is `[[1,1,0],[1,2,1],[0,1,1]]` |
| Samples.TrioBinary | network.py:207-209 | the trio's binary matrix is 0 only between `A` and `C` |
| Samples.TrioProjection | network.py:71-78 | the projection of that matrix joins `B` to `A` and to `C` |
| Samples.TrioDistances | network.py:284-296 | the trio's pair distances in `_getData` order are `[1, 2, 1]` |
| Samples.TrioSummary | network.py:275-315 | `_getData` on the trio: path length 4/3, diameter 2, reach `[0, 2/3, 1]` |
| Samples.TrioCoEnrollments | network.py:213-221 | the trio has 4 co-enrollments over ordered pairs of its 3 persons, so a mean of 4/3 |
| Samples.TrioEdges | network.py:225-242 | the trio's projection has 3 nodes, summed degrees 4, 2 edges and density 2/3 |

## Left out

- File ingestion: the single-file and list-of-files branches of the constructor read files (network.py:33-39, 47-54). The model starts from edges already parsed.
- Constructor argument types: a `str` argument takes the single-file branch (network.py:33-39), and a list whose first item is a string is read as a list of files (network.py:47-54). A non-empty list whose first item is neither a list nor a string raises at network.py:55-56, and only an argument that is neither a list nor a string reaches the raise at network.py:57-58. Edges are typed `seq<seq<string>>`, so none of these cases can arise. An empty list also raises at network.py:55-56; `Networks.Build` reports it as `NoEdges`.
- `getPersons` and `getGroups` return copies of fields, which are the datatype's fields. `getPersonToGroupMatrix` rebuilds the matrix through `_getBipartiteGraph` (network.py:95-116), which is `Networks.PersonToGroup`.
- Samples.ChainRowsPairs: it is proved about the hand-written list `ChainRows(r)`. That this list is the `Distances` of a network is proved only for r = 2 (`Samples.TrioDistances`). No chain network is defined for general r.
- Samples.ChainRowsSum: it is proved about the hand-written list `ChainRows(r)`. That this list is the `Distances` of a network is proved only for r = 2 (`Samples.TrioDistances`). No chain network is defined for general r.
- Samples.ChainRowsMax: it is proved about the hand-written list `ChainRows(r)`. That this list is the `Distances` of a network is proved only for r = 2 (`Samples.TrioDistances`). No chain network is defined for general r.
- Samples.ChainRowsCount: it is proved about the hand-written list `ChainRows(r)`. That this list is the `Distances` of a network is proved only for r = 2 (`Samples.TrioDistances`). No chain network is defined for general r.
- Samples.ChainPathLength: it is proved about the hand-written list `ChainRows(r)`. That this list is the `Distances` of a network is proved only for r = 2 (`Samples.TrioDistances`). No chain network is defined for general r.
- Samples.SixChainSummary: it evaluates the summary of the distance list of a six-person chain, in `_getData`'s pair order, against the test suite's expected values. That this list is what `_getData` computes on the suite's six-person network is proved only for the three-person chain (`Samples.TrioDistances`). Networks read from the suite's CSV files are not modelled.
- `getBetweennessCentrality` (network.py:131-141): a networkx call producing a floating-point mean.
- `getAverageClusterCoeff` (network.py:245-246): a wrapper over `nx.average_clustering`, whose code is not part of this model.
- `getBinPersonToPersonNetworkX` and `getPersonToGroupNetworkX` (network.py:91-92, 120-126): they only hand graphs to a drawing library.
- `printNetworkData` (network.py:319-362): formatting and printing. The `print` branch of `getLargestProportion` (network.py:194) cannot be reached in a valid network, because every node is a person or a group (`Components.LinkGraphNodes`).
- createVisual.py: plotting and layout.
- Floating point: every ratio is an exact `real`. `assertAlmostEqual` tolerances have no counterpart.
- `nx.all_pairs_shortest_path_length` and `nx.connected_components` are not part of this model. They are replaced by breadth-first search proved against a level-based distance and a reachability-based component.
- `nx.density` is taken to be the standard formula: 0 without edges or with at most one node, otherwise `2m / (n(n-1))` for `m` edges on `n` nodes.
- Components.LargestComp: networkx yields components in its own iteration order, and `max` keeps the first of equal size. The model fixes that order as the order of each component's first person (`Graphs.LargestComponent` over the person list). Every component contains a person.
- Components.SplitNodes: the order in which `for n in largest` visits a set is not modelled. The lists are specified by their elements, so the link order of the rebuilt network is unspecified too.
- PathData.KStepReach: `k` is a natural number. A negative `k` (an empty reach list and an `IndexError`) is not modelled.
- PathData.TallyPair: `totalLen` is an `int` with the sentinel -1 where Python sets the float -1.0. `CharPathLength` returns -1.0 as a `real`.
- `__eq__`: the `isinstance` test is enforced by the types, and comparing with a non-network is not modelled.

## Findings

| source | as written | input that shows it | evidently intended | confidence | as-written member | corrected member |
|---|---|---|---|---|---|---|
| network.py:371-372 | `__eq__` compares `self.getGroups()` and `self.getPersonToGroupMatrix()` with themselves, so only the person lists are compared | `Network([['A','G1']]) == Network([['A','G2']])` is true although the groups differ | compare `other`'s groups and person-to-group matrix, as the comment at network.py:365-366 says | not executed; proved about the model | Equality.AsWrittenIgnoresGroups | Equality.EqualIffSameMemberships |

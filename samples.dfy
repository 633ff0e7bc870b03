/** Worked values: the pair distances of a chain of persons, and the whole
    analysis of the three-person chain
    `Network([['A','G1'],['B','G1'],['B','G2'],['C','G2']])`. */
module Samples {
  import opened StringOrder
  import opened Matrices
  import opened Graphs
  import opened Links
  import opened Networks
  import opened PairStatistics
  import opened PathData
  import opened Statistics

  // ---- the summaries of a concatenation ----

  lemma {:induction false} SumDistConcat(a: seq<Option<nat>>, b: seq<Option<nat>>)
    ensures SumDist(a + b) == SumDist(a) + SumDist(b)
    decreases |b|
  {
    if |b| > 0 {
      var b' := b[..|b| - 1];
      assert (a + b)[..|a + b| - 1] == a + b';
      SumDistConcat(a, b');
    } else {
      assert a + b == a;
    }
  }

  lemma {:induction false} MaxDistConcat(a: seq<Option<nat>>, b: seq<Option<nat>>)
    ensures MaxDist(a + b) == if MaxDist(b) > MaxDist(a) then MaxDist(b) else MaxDist(a)
    decreases |b|
  {
    if |b| > 0 {
      var b' := b[..|b| - 1];
      assert (a + b)[..|a + b| - 1] == a + b';
      MaxDistConcat(a, b');
    } else {
      assert a + b == a;
    }
  }

  lemma {:induction false} CountWithinConcat(a: seq<Option<nat>>, b: seq<Option<nat>>, x: nat)
    ensures CountWithin(a + b, x) == CountWithin(a, x) + CountWithin(b, x)
    decreases |b|
  {
    if |b| > 0 {
      var b' := b[..|b| - 1];
      assert (a + b)[..|a + b| - 1] == a + b';
      CountWithinConcat(a, b', x);
    } else {
      assert a + b == a;
    }
  }

  // ---- a chain of persons ----

  /** The distances from one person of a chain to the `n` persons after it. */
  function Steps(n: nat): seq<Option<nat>>
  {
    seq(n, t requires 0 <= t < n => Some(t + 1))
  }

  lemma {:induction false} StepsFacts(n: nat, x: nat)
    ensures forall t :: 0 <= t < n ==> Steps(n)[t].Some?
    ensures SumDist(Steps(n)) * 2 == n * (n + 1)
    ensures MaxDist(Steps(n)) == n
    ensures CountWithin(Steps(n), x) == if x < n then x else n
  {
    if n > 0 {
      assert Steps(n)[..n - 1] == Steps(n - 1);
      StepsFacts(n - 1, x);
    }
  }

  /** A hand-written distance list: the pair distances that `r + 1`
      persons in a chain, each sharing a group with the next, would have in
      the order `_getData` visits the pairs. The row of person `i` holds
      `1, ..., r - i`. Only `r = 2` is tied to a network (`TrioSummary`). */
  function ChainRows(r: nat): seq<Option<nat>>
  {
    if r == 0 then [] else Steps(r) + ChainRows(r - 1)
  }

  /** `ChainRows(r)` has `r(r+1)/2` entries, all reachable. */
  lemma {:induction false} ChainRowsPairs(r: nat)
    ensures |ChainRows(r)| * 2 == r * (r + 1)
    ensures !AnyUnreachable(ChainRows(r))
  {
    if r > 0 {
      var a: seq<Option<nat>>, b: seq<Option<nat>> := Steps(r), ChainRows(r - 1);
      ChainRowsPairs(r - 1);
      StepsFacts(r, 0);
      forall t | 0 <= t < |a + b| ensures (a + b)[t].Some? {
        if t >= |a| {
          assert (a + b)[t] == b[t - |a|];
        }
      }
    }
  }

  /** Their distances sum to `r(r+1)(r+2)/6`. */
  lemma {:induction false} ChainRowsSum(r: nat)
    ensures SumDist(ChainRows(r)) * 6 == r * (r + 1) * (r + 2)
  {
    if r > 0 {
      ChainRowsSum(r - 1);
      StepsFacts(r, 0);
      SumDistConcat(Steps(r), ChainRows(r - 1));
      CubeStep(r);
    }
  }

  lemma CubeStep(r: nat)
    requires r > 0
    ensures (r - 1) * r * (r + 1) + 3 * (r * (r + 1)) == r * (r + 1) * (r + 2)
  {
    var q := r * (r + 1);
    assert (r - 1) * r * (r + 1) == (r - 1) * q;
    assert r * (r + 1) * (r + 2) == q * (r + 2);
  }

  /** The largest of their distances is `r`. */
  lemma {:induction false} ChainRowsMax(r: nat)
    ensures MaxDist(ChainRows(r)) == r
  {
    if r > 0 {
      ChainRowsMax(r - 1);
      StepsFacts(r, 0);
      MaxDistConcat(Steps(r), ChainRows(r - 1));
    }
  }

  /** `x` steps reach all `r(r+1)/2` entries once `x >= r`, and otherwise
      `x(x+1)/2 + (r - x)x` of them. */
  lemma {:induction false} ChainRowsCount(r: nat, x: nat)
    ensures CountWithin(ChainRows(r), x) * 2 == ChainReached(r, x)
  {
    if r > 0 {
      ChainRowsCount(r - 1, x);
      StepsFacts(r, x);
      CountWithinConcat(Steps(r), ChainRows(r - 1), x);
      ReachedStep(r, x);
    }
  }

  /** Twice the number of entries of `ChainRows(r)` within `x` steps. */
  function ChainReached(r: nat, x: nat): nat
  {
    if x >= r then r * (r + 1) else x * (x + 1) + 2 * (r - x) * x
  }

  lemma ReachedStep(r: nat, x: nat)
    requires r > 0
    ensures ChainReached(r, x) == ChainReached(r - 1, x) + 2 * (if x < r then x else r)
  {
    if x >= r {
      assert r * (r + 1) == (r - 1) * r + 2 * r;
    } else if x == r - 1 {
      assert ChainReached(r - 1, x) == x * (x + 1);
    } else {
      assert 2 * (r - x) * x == 2 * (r - 1 - x) * x + 2 * x;
    }
  }

  /** The summary of `ChainRows(r)` has characteristic path length
      `(r + 2) / 3` and diameter `r`. */
  lemma ChainPathLength(r: nat, k: nat)
    requires r > 0
    ensures |ChainRows(r)| > 0
    ensures Summary(ChainRows(r), k).path == (r + 2) as real / 3.0
    ensures Summary(ChainRows(r), k).diameter == r
  {
    ChainRowsPairs(r);
    ChainRowsSum(r);
    ChainRowsMax(r);
    PathRatio(r, |ChainRows(r)|, SumDist(ChainRows(r)));
  }

  lemma PathRatio(r: nat, n: nat, s: nat)
    requires r > 0 && n * 2 == r * (r + 1) && s * 6 == r * (r + 1) * (r + 2)
    ensures n > 0 && s as real / n as real == (r + 2) as real / 3.0
  {
    var q := r * (r + 1);
    assert q > 0;
    assert s * 6 == q * (r + 2);
    assert s * 3 == n * (r + 2);
    assert (s as real) * 3.0 == (n as real) * ((r + 2) as real);
  }

  /** Six persons in a chain: path length 35/15, diameter 5 and reach
      0, 5/15, 9/15, 12/15, 14/15, 15/15 for 0 to 5 steps. */
  lemma SixChainSummary()
    ensures |ChainRows(5)| == 15
    ensures Summary(ChainRows(5), 5) ==
      Data([0.0, 5.0 / 15.0, 9.0 / 15.0, 12.0 / 15.0, 14.0 / 15.0, 1.0], 35.0 / 15.0, 5)
  {
    var ds := ChainRows(5);
    ChainRowsPairs(5);
    ChainRowsSum(5);
    ChainRowsMax(5);
    ChainRowsCount(5, 1);
    assert CountWithin(ds, 1) == 5;
    ChainRowsCount(5, 2);
    assert CountWithin(ds, 2) == 9;
    ChainRowsCount(5, 3);
    assert CountWithin(ds, 3) == 12;
    ChainRowsCount(5, 4);
    assert CountWithin(ds, 4) == 14;
    ChainRowsCount(5, 5);
    assert CountWithin(ds, 5) == 15;
    var reach := Reach(ds, 5);
    assert reach == [0.0, 5.0 / 15.0, 9.0 / 15.0, 12.0 / 15.0, 14.0 / 15.0, 1.0];
  }

  // ---- the three-person chain ----

  /** A-G1, B-G1, B-G2, C-G2: `B` shares a group with each of `A` and `C`. */
  function TrioLinks(): seq<Link>
  {
    [["A", "G1"], ["B", "G1"], ["B", "G2"], ["C", "G2"]]
  }

  /** The network `__init__` builds from `TrioLinks()` (see `TrioIsBuilt`). */
  function Trio(): Network
  {
    Network(TrioLinks(), ["A", "B", "C"], ["G1", "G2"], map[0 := {1}, 1 := {0, 2}, 2 := {1}])
  }

  lemma TrioMemberships(p: string, g: string)
    ensures HasLink(TrioLinks(), p, g) <==>
      (p == "A" && g == "G1") || (p == "B" && g == "G1") || (p == "B" && g == "G2") || (p == "C" && g == "G2")
  {
    var ls := TrioLinks();
    assert ls[0] in ls && ls[1] in ls && ls[2] in ls && ls[3] in ls;
  }

  /** The person-to-group matrix: rows `A`, `B`, `C` are `[1, 0]`, `[1, 1]`, `[0, 1]`. */
  lemma TrioIncidence()
    ensures var m := PersonToGroup(Trio());
      m[0][0] == 1 && m[0][1] == 0 && m[1][0] == 1 && m[1][1] == 1 && m[2][0] == 0 && m[2][1] == 1
  {
    var n := Trio();
    var P, G := n.persons, n.groups;
    TrioMemberships(P[0], G[0]);
    TrioMemberships(P[0], G[1]);
    TrioMemberships(P[1], G[0]);
    TrioMemberships(P[1], G[1]);
    TrioMemberships(P[2], G[0]);
    TrioMemberships(P[2], G[1]);
  }

  lemma DotOfPairs(a: seq<int>, b: seq<int>)
    requires |a| == 2 && |b| == 2
    ensures Dot(a, b) == a[0] * b[0] + a[1] * b[1]
  {
    var a1, b1 := a[..1], b[..1];
    assert a1[..0] == [] && b1[..0] == [];
    assert Dot(a1, b1) == a[0] * b[0];
    assert Dot(a, b) == Dot(a1, b1) + a[1] * b[1];
  }

  /** The product of the trio's incidence matrix with its transpose. */
  lemma ChainProducts(m: seq<seq<int>>)
    requires IsMatrix(m, 3, 2)
    requires m[0][0] == 1 && m[0][1] == 0 && m[1][0] == 1 && m[1][1] == 1 && m[2][0] == 0 && m[2][1] == 1
    ensures var p := TimesTranspose(m, 2);
      p[0][0] == 1 && p[0][1] == 1 && p[0][2] == 0 &&
      p[1][0] == 1 && p[1][1] == 2 && p[1][2] == 1 &&
      p[2][0] == 0 && p[2][1] == 1 && p[2][2] == 1
  {
    DotOfPairs(m[0], m[0]); DotOfPairs(m[0], m[1]); DotOfPairs(m[0], m[2]);
    DotOfPairs(m[1], m[0]); DotOfPairs(m[1], m[1]); DotOfPairs(m[1], m[2]);
    DotOfPairs(m[2], m[0]); DotOfPairs(m[2], m[1]); DotOfPairs(m[2], m[2]);
  }

  /** The co-membership matrix has rows `[1, 1, 0]`, `[1, 2, 1]`, `[0, 1, 1]`. */
  lemma TrioCoMembership()
    ensures var p := PersonToPerson(Trio());
      |p| == 3 &&
      p[0][0] == 1 && p[0][1] == 1 && p[0][2] == 0 &&
      p[1][0] == 1 && p[1][1] == 2 && p[1][2] == 1 &&
      p[2][0] == 0 && p[2][1] == 1 && p[2][2] == 1
  {
    TrioIncidence();
    ChainProducts(PersonToGroup(Trio()));
  }

  lemma ChainThreshold(p: seq<seq<int>>)
    requires IsSquare(p) && |p| == 3
    requires p[0][0] == 1 && p[0][1] == 1 && p[0][2] == 0
    requires p[1][0] == 1 && p[1][1] == 2 && p[1][2] == 1
    requires p[2][0] == 0 && p[2][1] == 1 && p[2][2] == 1
    ensures |Threshold(p)| == 3 && ChainShape(Threshold(p))
  {
  }

  /** The binary matrix is 1 everywhere except between `A` and `C`. */
  lemma TrioBinary()
    ensures |BinPersonToPerson(Trio())| == 3 && ChainShape(BinPersonToPerson(Trio()))
  {
    TrioCoMembership();
    ChainThreshold(PersonToPerson(Trio()));
  }

  lemma TrioNames()
    ensures PersonSet(Trio().links) == {"A", "B", "C"} && GroupSet(Trio().links) == {"G1", "G2"}
    ensures Elements(Trio().persons) == {"A", "B", "C"} && Elements(Trio().groups) == {"G1", "G2"}
    ensures HasFields(Trio().links)
  {
    var ls := Trio().links;
    assert ls[0] in ls && ls[1] in ls && ls[2] in ls && ls[3] in ls;
    assert Trio().persons[0] == "A";
  }

  lemma TrioSorted()
    ensures StrictlySorted(Trio().persons) && StrictlySorted(Trio().groups)
  {
    assert Less("A", "B") && Less("B", "C") && Less("A", "C") && Less("G1", "G2");
  }

  /** A 3-by-3 matrix that links every pair but the first and the last. */
  predicate ChainShape(b: seq<seq<int>>)
    requires IsSquare(b) && |b| == 3
  {
    forall i, k :: 0 <= i < 3 && 0 <= k < 3 ==> (b[i][k] == 0 <==> (i == 0 && k == 2) || (i == 2 && k == 0))
  }

  lemma ChainShapeProjection(b: seq<seq<int>>)
    requires IsSquare(b) && |b| == 3 && IsBinary(b) && ChainShape(b)
    ensures IsProjection(map[0 := {1}, 1 := {0, 2}, 2 := {1}], b)
  {
    var g: Graph<nat> := map[0 := {1}, 1 := {0, 2}, 2 := {1}];
    assert g.Keys == {0, 1, 2} && g[0] == {1} && g[1] == {0, 2} && g[2] == {1};
    forall i: nat, k: nat ensures Adjacent(g, i, k) <==> Linked(b, i, k) || Linked(b, k, i) {
      if i < 3 && k < 3 {
        assert b[i][k] == 0 <==> (i == 0 && k == 2) || (i == 2 && k == 0);
        assert b[k][i] == 0 <==> (i == 0 && k == 2) || (i == 2 && k == 0);
      }
    }
  }

  /** The projection joins `A` and `C` to `B` only. */
  lemma TrioProjection()
    ensures IsProjection(Trio().projection, BinPersonToPerson(Trio()))
  {
    TrioBinary();
    ChainShapeProjection(BinPersonToPerson(Trio()));
  }

  lemma TrioValid()
    ensures Valid(Trio())
  {
    TrioNames();
    TrioSorted();
    TrioProjection();
  }

  /** Any network `__init__` builds from the trio's links is `Trio()`. */
  lemma TrioIsBuilt(n: Network)
    requires Valid(n) && n.links == TrioLinks()
    ensures n == Trio()
  {
    TrioValid();
    SameLinksSameNetwork(n, Trio());
  }

  // ---- the distances between the trio ----

  /** The pairs `_getData` visits for three persons. */
  lemma ThreePairs()
    ensures Pairs(3, 3) == [(0, 1), (0, 2), (1, 2)]
  {
    assert Row(0, 3) == [(0, 1), (0, 2)];
    assert Row(1, 3) == [(1, 2)];
    assert Row(2, 3) == [];
    assert Pairs(1, 3) == Row(0, 3);
  }

  /** In the graph `A - B - C`, neighbours are one step and the ends two. */
  lemma ChainDistances3(g: Graph<nat>)
    requires g == map[0 := {1}, 1 := {0, 2}, 2 := {1}]
    ensures Distance<nat>(g, 0, 1) == Some(1)
    ensures Distance<nat>(g, 0, 2) == Some(2)
    ensures Distance<nat>(g, 1, 2) == Some(1)
  {
    assert g.Keys == {0, 1, 2} && g[0] == {1} && g[1] == {0, 2} && g[2] == {1};
    assert Closed(g);
    NeighbourIntro(g, {0}, 0, 1);
    assert Ball<nat>(g, 0, 1) == {0} + Neighbours(g, {0});
    DistanceOfLevel<nat>(g, 0, 1, 1);
    forall v | v in Neighbours(g, {0}) ensures v == 1 {
      var x := NeighbourWitness(g, {0}, v);
    }
    NeighbourIntro(g, Ball<nat>(g, 0, 1), 1, 2);
    assert 2 in Ball<nat>(g, 0, 2);
    DistanceOfLevel<nat>(g, 0, 2, 2);
    NeighbourIntro(g, {1}, 1, 2);
    assert Ball<nat>(g, 1, 1) == {1} + Neighbours(g, {1});
    DistanceOfLevel<nat>(g, 1, 2, 1);
  }

  /** The trio's pair distances, in the order `_getData` reads them. */
  lemma TrioDistances()
    ensures Distances(Trio()) == [Some(1), Some(2), Some(1)]
  {
    ThreePairs();
    ChainDistances3(Trio().projection);
  }

  /** `_getData` on the trio: path length 4/3, diameter 2, and reach 0,
      2/3 and 3/3 for 0, 1 and 2 steps. */
  lemma TrioSummary()
    ensures |Distances(Trio())| == 3
    ensures Summary(Distances(Trio()), 2) == Data([0.0, 2.0 / 3.0, 1.0], 4.0 / 3.0, 2)
  {
    TrioDistances();
    assert Steps(2) == [Some(1), Some(2)] && Steps(1) == [Some(1)];
    assert Distances(Trio()) == ChainRows(2);
    ChainPathLength(2, 2);
    ChainRowsCount(2, 1);
    ChainRowsCount(2, 2);
    var reach := Reach(ChainRows(2), 2);
    assert reach == [0.0, 2.0 / 3.0, 1.0];
  }

  lemma ChainOffDiagonal(p: seq<seq<int>>)
    requires IsSquare(p) && |p| == 3
    requires p[0][1] == 1 && p[0][2] == 0
    requires p[1][0] == 1 && p[1][2] == 1
    requires p[2][0] == 0 && p[2][1] == 1
    ensures OffDiagonalSum(p) == 4
  {
    assert RowOffDiagonal(p, 0, 1) == 0;
    assert RowOffDiagonal(p, 0, 2) == 1;
    assert RowOffDiagonal(p, 0, 3) == 1;
    assert RowOffDiagonal(p, 1, 1) == 1;
    assert RowOffDiagonal(p, 1, 2) == 1;
    assert RowOffDiagonal(p, 1, 3) == 2;
    assert RowOffDiagonal(p, 2, 1) == 0;
    assert RowOffDiagonal(p, 2, 2) == 1;
    assert RowOffDiagonal(p, 2, 3) == 1;
    assert OffDiagonalRows(p, 1, 3) == 1;
    assert OffDiagonalRows(p, 2, 3) == 3;
  }

  /** `getMeanCoEnrollments` on the trio: 4 co-enrollments over ordered
      pairs of its 3 persons. */
  lemma TrioCoEnrollments()
    ensures |Trio().persons| == 3
    ensures OffDiagonalSum(PersonToPerson(Trio())) == 4
  {
    TrioCoMembership();
    ChainOffDiagonal(PersonToPerson(Trio()));
  }

  /** `getUniqueEdges`, `getMeanUniqueCoEnrollments` and `nx.density` on
      the trio: summed degrees 4 over 3 nodes, 2 edges, density 2/3. */
  lemma TrioEdges()
    ensures |Trio().projection| == 3
    ensures DegreeSum(Trio().projection, 3) == 4
    ensures UniqueEdges(Trio()) == 2
    ensures Density(Trio()) == 2.0 / 3.0
  {
    var g := Trio().projection;
    assert g.Keys == {0, 1, 2} && g[0] == {1} && g[1] == {0, 2} && g[2] == {1};
    assert |g.Keys| == 3;
    assert DegreeSum(g, 1) == 1;
    assert DegreeSum(g, 2) == 3;
  }
}

/** The whole-network statistics of the person-to-person projection:
    mean co-enrollments, mean unique co-enrollments, unique edges and
    density. */
module Statistics {
  import opened Matrices
  import opened Graphs
  import opened Networks

  /** The loop of `getMeanCoEnrollments`: every entry off the diagonal. */
  method OffDiagonalTotal(p: seq<seq<int>>) returns (total: int)
    requires IsSquare(p)
    ensures total == OffDiagonalSum(p)
  {
    total := 0;
    for i := 0 to |p|
      invariant total == OffDiagonalRows(p, i, |p|)
    {
      for k := 0 to |p|
        invariant total == OffDiagonalRows(p, i, |p|) + RowOffDiagonal(p, i, k)
      {
        if i != k {
          total := total + p[i][k];
        }
      }
    }
  }

  /** `getMeanCoEnrollments`: the off-diagonal entries of the co-membership
      matrix, summed over ordered pairs, per person. */
  method MeanCoEnrollments(n: Network) returns (r: real)
    requires Valid(n)
    ensures |n.persons| > 0
    ensures r == OffDiagonalSum(PersonToPerson(n)) as real / |n.persons| as real
  {
    var p := PersonToPerson(n);
    var total := OffDiagonalTotal(p);
    NotEmpty(n);
    r := total as real / |p| as real;
  }

  /** Each co-enrollment of an unordered pair is counted from both sides. */
  lemma CoEnrollmentsBothWays(n: Network)
    ensures OffDiagonalSum(PersonToPerson(n)) == 2 * AboveDiagonalSum(PersonToPerson(n))
  {
    CoMembershipSymmetric(n);
    OffDiagonalIsTwiceAbove(PersonToPerson(n));
  }

  // ---- degrees ----

  /** The summed degrees of the nodes below `m`. */
  function DegreeSum(g: Graph<nat>, m: nat): nat
  {
    if m == 0 then 0 else DegreeSum(g, m - 1) + (if m - 1 in g then |g[m - 1]| else 0)
  }

  /** `getUniqueEdges`: `Graph.size()`, half the summed degrees. */
  function UniqueEdges(n: Network): nat
  {
    DegreeSum(n.projection, |n.persons|) / 2
  }

  /** The off-diagonal 1s of row `i` below column `m`. */
  function RowSet(b: seq<seq<int>>, i: nat, m: nat): set<nat>
    requires IsSquare(b) && i < |b| && m <= |b|
  {
    set k: nat | k < m && k != i && b[i][k] == 1
  }

  lemma {:induction false} RowSetCount(b: seq<seq<int>>, i: nat, m: nat)
    requires IsSquare(b) && IsBinary(b) && i < |b| && m <= |b|
    ensures |RowSet(b, i, m)| == RowOffDiagonal(b, i, m)
  {
    if m > 0 {
      RowSetCount(b, i, m - 1);
      var S, S' := RowSet(b, i, m - 1), RowSet(b, i, m);
      if m - 1 != i && b[i][m - 1] == 1 {
        assert S' == S + {m - 1};
      } else {
        assert S' == S;
      }
    }
  }

  /** The degree of node `i` is the number of 1s off the diagonal in row `i`. */
  lemma DegreeIsRow(g: Graph<nat>, b: seq<seq<int>>, i: nat)
    requires IsSquare(b) && IsBinary(b) && Symmetric(b) && IsProjection(g, b) && i < |b|
    ensures (if i in g then |g[i]| else 0) == RowOffDiagonal(b, i, |b|)
  {
    var R := RowSet(b, i, |b|);
    RowSetCount(b, i, |b|);
    forall k: nat | k in R ensures Adjacent(g, i, k) {
      assert Linked(b, i, k);
    }
    if i in g {
      forall k: nat ensures k in g[i] <==> k in R {
        assert Adjacent(g, i, k) <==> Linked(b, i, k) || Linked(b, k, i);
        if k < |b| { assert b[i][k] == b[k][i]; }
      }
      assert g[i] == R;
    } else {
      assert R == {};
    }
  }

  lemma {:induction false} DegreeRows(g: Graph<nat>, b: seq<seq<int>>, m: nat)
    requires IsSquare(b) && IsBinary(b) && Symmetric(b) && IsProjection(g, b) && m <= |b|
    ensures DegreeSum(g, m) == OffDiagonalRows(b, m, |b|)
  {
    if m > 0 {
      DegreeRows(g, b, m - 1);
      DegreeIsRow(g, b, m - 1);
    }
  }

  /** The handshake lemma: the summed degrees are twice the number of
      unordered pairs of persons sharing a group, so `getUniqueEdges`
      counts exactly those pairs. */
  lemma Handshake(n: Network)
    requires Valid(n)
    ensures DegreeSum(n.projection, |n.persons|) == 2 * UniqueEdges(n)
    ensures UniqueEdges(n) == AboveDiagonalSum(BinPersonToPerson(n))
  {
    var g, b := ProjectionFacts(n);
    HandshakeOf(g, b);
    var d, a := DegreeSum(g, |b|), AboveDiagonalSum(b);
    assert d == 2 * a;
    assert d / 2 == a;
  }

  lemma HandshakeOf(g: Graph<nat>, b: seq<seq<int>>)
    requires IsSquare(b) && IsBinary(b) && Symmetric(b) && IsProjection(g, b)
    ensures DegreeSum(g, |b|) == 2 * AboveDiagonalSum(b)
  {
    DegreeRows(g, b, |b|);
    OffDiagonalIsTwiceAbove(b);
  }

  /** Co-enrollments count a pair once per shared group, unique edges once per
      pair: the summed co-enrollments are at least twice the unique edges. */
  lemma CoEnrollmentsAtLeastUnique(n: Network)
    requires Valid(n)
    ensures OffDiagonalSum(PersonToPerson(n)) >= 2 * UniqueEdges(n)
  {
    var m, p := PersonToGroup(n), PersonToPerson(n);
    var g, b := ProjectionFacts(n);
    forall x, y | 0 <= x < |p| && 0 <= y < |p| ensures b[x][y] <= p[x][y] {
      DotPositiveIff(m[x], m[y]);
    }
    OffDiagonalSumMonotone(b, p);
    Handshake(n);
    DegreeRows(g, b, |b|);
  }

  /** `getMeanUniqueCoEnrollments`: the summed degrees per node of the
      projection; no nodes means a division by zero. */
  method MeanUniqueCoEnrollments(n: Network) returns (r: Result<real>)
    requires Valid(n)
    ensures r.Err? <==> |n.projection| == 0
    ensures r.Err? ==> r.error == ZeroDivision
    ensures r.Ok? ==> r.value == DegreeSum(n.projection, |n.persons|) as real / |n.projection| as real
    ensures r.Ok? ==> r.value * |n.projection| as real == (2 * UniqueEdges(n)) as real
  {
    var g := n.projection;
    var total := 0;
    for i := 0 to |n.persons|
      invariant total == DegreeSum(g, i)
    {
      if i in g {
        total := total + |g[i]|;
      }
    }
    if |g| == 0 {
      return Err(ZeroDivision);
    }
    Handshake(n);
    r := Ok(total as real / |g| as real);
  }

  // ---- density ----

  /** `nx.density` of the projection: 0 without edges or with at most one
      node, otherwise the edges over the `c(c-1)/2` possible ones. */
  function Density(n: Network): real
  {
    var m, c := UniqueEdges(n), |n.projection|;
    if m == 0 || c <= 1 then 0.0 else (2 * m) as real / (c * (c - 1)) as real
  }

  function KeysBelow(g: Graph<nat>, m: nat): set<nat>
  {
    set i: nat | i < m && i in g
  }

  lemma MulSucc(a: nat, z: nat)
    ensures (a + 1) * z == a * z + z
  {
  }

  lemma {:induction false} DegreeSumBound(g: Graph<nat>, m: nat, z: nat)
    requires forall i :: i in g ==> |g[i]| <= z
    ensures DegreeSum(g, m) <= |KeysBelow(g, m)| * z
  {
    if m > 0 {
      DegreeSumBound(g, m - 1, z);
      var S, S' := KeysBelow(g, m - 1), KeysBelow(g, m);
      if m - 1 in g {
        assert m - 1 !in S && S' == S + {m - 1};
        assert |S'| == |S| + 1;
        MulSucc(|S|, z);
      } else {
        assert S' == S;
      }
    }
  }

  /** In a graph without self-loops a node has at most `|g| - 1` neighbours. */
  lemma DegreeBound(g: Graph<nat>, b: seq<seq<int>>, i: nat)
    requires IsSquare(b) && IsProjection(g, b) && Closed(g) && i in g
    ensures |g[i]| <= |g| - 1
  {
    forall k | k in g[i] ensures k in g.Keys - {i} {
      assert Adjacent(g, i, k);
      assert Linked(b, i, k) || Linked(b, k, i);
    }
    CardinalityOfSubset(g[i], g.Keys - {i});
  }

  /** The summed degrees of a graph without self-loops are at most `c(c-1)`
      for `c` nodes. */
  lemma DegreeSumAtMost(g: Graph<nat>, b: seq<seq<int>>)
    requires IsSquare(b) && IsProjection(g, b) && Closed(g) && |g| > 0
    requires forall i :: i in g ==> i < |b|
    ensures DegreeSum(g, |b|) <= |g| * (|g| - 1)
  {
    forall i | i in g ensures |g[i]| <= |g| - 1 {
      DegreeBound(g, b, i);
    }
    DegreeSumBound(g, |b|, |g| - 1);
    assert KeysBelow(g, |b|) == g.Keys;
  }

  /** Density is a proportion. */
  lemma DensityBounds(n: Network)
    requires Valid(n)
    ensures 0.0 <= Density(n) <= 1.0
  {
    var g, b := ProjectionFacts(n);
    var m, c := UniqueEdges(n), |g|;
    if m > 0 && c > 1 {
      DegreeSumAtMost(g, b);
      Handshake(n);
      RatioAtMostOne(2 * m, c * (c - 1));
    }
  }
}

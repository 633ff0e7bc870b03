/** `_getData` and the three statistics read from it: the characteristic
    path length, the diameter and the k-step reach of the projected
    person network. */
module PathData {
  import opened Graphs
  import opened Networks
  import opened PairStatistics

  // ---- the distance table `nx.all_pairs_shortest_path_length` returns ----

  /** For every node `u` of `g`, the `DistancesFrom` map of `u`. */
  ghost predicate AllDistances<T(!new)>(g: Graph<T>, paths: map<T, map<T, nat>>)
  {
    paths.Keys == g.Keys && forall u :: u in paths ==> DistancesFrom(g, u, paths[u])
  }

  /** One breadth-first search per node. */
  method AllPairsShortestPaths<T(!new)>(g: Graph<T>) returns (paths: map<T, map<T, nat>>)
    requires Closed(g)
    ensures AllDistances(g, paths)
  {
    paths := map[];
    var todo := g.Keys;
    while todo != {}
      invariant todo <= g.Keys && paths.Keys == g.Keys - todo
      invariant forall u :: u in paths ==> DistancesFrom(g, u, paths[u])
      decreases |todo|
    {
      var u :| u in todo;
      var dist := ShortestPathLengths(g, u);
      paths := paths[u := dist];
      todo := todo - {u};
    }
  }

  /** `path[n][m]`, with the `KeyError` of a missing entry as `None`. */
  function Lookup<T>(paths: map<T, map<T, nat>>, u: T, v: T): Option<nat>
  {
    if u in paths && v in paths[u] then Some(paths[u][v]) else None
  }

  /** Reading the table between two distinct nodes gives their distance,
      also when the first is not a node of the graph at all. */
  lemma LookupIsDistance<T(!new)>(g: Graph<T>, paths: map<T, map<T, nat>>, u: T, v: T)
    requires Closed(g) && AllDistances(g, paths) && u != v
    ensures Lookup(paths, u, v) == Distance(g, u, v)
  {
    if u !in g {
      DistanceFromOutsider(g, u, v);
    }
  }

  /** The distances of a list of index pairs, in list order. */
  function PairDistances(g: Graph<nat>, ps: seq<(nat, nat)>): seq<Option<nat>>
  {
    seq(|ps|, t requires 0 <= t < |ps| => Distance(g, ps[t].0, ps[t].1))
  }

  /** The distances `_getData` reads: one per pair `i < j` of persons. */
  function Distances(n: Network): seq<Option<nat>>
  {
    PairDistances(n.projection, Pairs(|n.persons|, |n.persons|))
  }

  // ---- the accumulators of `_getData` ----

  /** After the pairs with distances `ds`: `numPairs` counts them,
      `totalLen` and `diameter` hold the sum and the largest distance or
      their sentinel, and `counts[x]` the pairs within `x` steps. */
  ghost predicate Tallied(ds: seq<Option<nat>>, numPairs: nat, totalLen: int, diameter: int,
                          counts: seq<real>, k: nat)
  {
    numPairs == |ds|
    && totalLen == (if AnyUnreachable(ds) then -1 else SumDist(ds))
    && diameter == (if AnyUnreachable(ds) then -1 else MaxDist(ds))
    && |counts| == k + 1 && counts[0] == 0.0
    && forall x :: 1 <= x <= k ==> counts[x] == CountWithin(ds, x) as real
  }

  /** The summaries of one more distance. */
  lemma Appended(ds: seq<Option<nat>>, d: Option<nat>)
    ensures SumDist(ds + [d]) == SumDist(ds) + (if d.Some? then d.value else 0)
    ensures MaxDist(ds + [d]) == if d.Some? && d.value > MaxDist(ds) then d.value else MaxDist(ds)
    ensures forall x: nat ::
      CountWithin(ds + [d], x) == CountWithin(ds, x) + (if d.Some? && d.value <= x then 1 else 0)
    ensures AnyUnreachable(ds + [d]) <==> AnyUnreachable(ds) || d.None?
  {
    assert (ds + [d])[..|ds|] == ds;
    AnyUnreachableAppend(ds, d);
  }

  /** The `for x in range(1, k+1)` loop: every step count from the
      pair's distance `len` up to `k` gains the pair. */
  method AddToReach(counts: array<real>, len: nat, k: nat)
    requires counts.Length == k + 1
    modifies counts
    ensures forall x :: 0 <= x <= k ==>
      counts[x] == old(counts[x]) + (if 1 <= x && len <= x then 1.0 else 0.0)
  {
    for x := 1 to k + 1
      invariant forall y :: 0 <= y <= k ==>
        counts[y] == old(counts[y]) + (if 1 <= y < x && len <= y then 1.0 else 0.0)
    {
      if len <= x {
        counts[x] := counts[x] + 1.0;
      }
    }
  }

  /** `count[i] = count[i] / numPairs` for every entry. */
  method Rescale(counts: array<real>, numPairs: nat)
    requires numPairs > 0
    modifies counts
    ensures forall x :: 0 <= x < counts.Length ==> counts[x] == old(counts[x]) / numPairs as real
  {
    for x := 0 to counts.Length
      invariant forall y :: 0 <= y < counts.Length ==>
        counts[y] == if y < x then old(counts[y]) / numPairs as real else old(counts[y])
    {
      counts[x] := counts[x] / numPairs as real;
    }
  }

  /** Accounting for one pair keeps `Tallied`. */
  lemma TallyStep(ds: seq<Option<nat>>, d: Option<nat>, numPairs: nat, totalLen: int, diameter: int,
                  counts: seq<real>, k: nat, counts': seq<real>)
    requires Tallied(ds, numPairs, totalLen, diameter, counts, k)
    requires |counts'| == k + 1
    requires forall x :: 0 <= x <= k ==>
      counts'[x] == counts[x] + (if 1 <= x && d.Some? && d.value <= x then 1.0 else 0.0)
    ensures Tallied(ds + [d], numPairs + 1,
                    if d.None? then -1 else if totalLen >= 0 then totalLen + d.value else totalLen,
                    if d.None? then -1 else if diameter >= 0 && d.value > diameter then d.value else diameter,
                    counts', k)
  {
    Appended(ds, d);
  }

  /** The body of the inner loop for one pair at distance `d`: the
      `try` block, or the `except` branch when the table has no entry. */
  method TallyPair(d: Option<nat>, k: nat, counts: array<real>,
                   numPairs0: nat, totalLen0: int, diameter0: int)
    returns (numPairs: nat, totalLen: int, diameter: int)
    requires counts.Length == k + 1
    modifies counts
    ensures numPairs == numPairs0 + 1
    ensures totalLen == if d.None? then -1 else if totalLen0 >= 0 then totalLen0 + d.value else totalLen0
    ensures diameter ==
      if d.None? then -1 else if diameter0 >= 0 && d.value > diameter0 then d.value else diameter0
    ensures forall x :: 0 <= x <= k ==>
      counts[x] == old(counts[x]) + (if 1 <= x && d.Some? && d.value <= x then 1.0 else 0.0)
  {
    numPairs, totalLen, diameter := numPairs0 + 1, totalLen0, diameter0;
    match d {
      case None =>
        totalLen := -1;
        diameter := -1;
      case Some(len) =>
        if totalLen >= 0 {
          totalLen := totalLen + len;
        }
        if diameter >= 0 && len > diameter {
          diameter := len;
        }
        AddToReach(counts, len, k);
    }
  }

  /** The distances of the pairs `(i, i + 1)`, ..., `(i, j - 1)`. */
  function RowDistances(g: Graph<nat>, i: nat, j: nat): seq<Option<nat>>
    requires i < j
  {
    seq(j - i - 1, t requires 0 <= t < j - i - 1 => Distance<nat>(g, i, i + 1 + t))
  }

  lemma RowDistancesStep(g: Graph<nat>, i: nat, j: nat)
    requires i < j
    ensures RowDistances(g, i, j + 1) == RowDistances(g, i, j) + [Distance(g, i, j)]
  {
    var r, r' := RowDistances(g, i, j), RowDistances(g, i, j + 1);
    var s := r + [Distance(g, i, j)];
    assert |r'| == |s|;
    forall t | 0 <= t < |r'| ensures r'[t] == s[t] {
      if t < |r| {
        assert r'[t] == Distance<nat>(g, i, i + 1 + t) == r[t] == s[t];
      } else {
        assert i + 1 + t == j;
        assert r'[t] == Distance(g, i, j) == s[t];
      }
    }
    assert r' == s;
  }

  lemma PairDistancesConcat(g: Graph<nat>, a: seq<(nat, nat)>, b: seq<(nat, nat)>)
    ensures PairDistances(g, a + b) == PairDistances(g, a) + PairDistances(g, b)
  {
    var l, r := PairDistances(g, a), PairDistances(g, b);
    forall t | 0 <= t < |a| + |b| ensures PairDistances(g, a + b)[t] == (l + r)[t] {
      if t >= |a| {
        assert (a + b)[t] == b[t - |a|];
      }
    }
  }

  lemma RowDistancesComplete(g: Graph<nat>, i: nat, N: nat)
    requires i < N
    ensures PairDistances(g, Pairs(i + 1, N)) == PairDistances(g, Pairs(i, N)) + RowDistances(g, i, N)
  {
    var a, b := Pairs(i, N), Row(i, N);
    assert Pairs(i + 1, N) == a + b;
    PairDistancesConcat(g, a, b);
    var c, d := PairDistances(g, b), RowDistances(g, i, N);
    forall t | 0 <= t < |b| ensures c[t] == d[t] {
      assert b[t] == (i, i + 1 + t);
      assert c[t] == Distance(g, b[t].0, b[t].1) == Distance<nat>(g, i, i + 1 + t) == d[t];
    }
    assert c == d;
  }

  /** The inner loop of `_getData` for row `i`: the pairs `(i, j)` with
      `i < j < N`. */
  method TallyRow(g: Graph<nat>, paths: map<nat, map<nat, nat>>, i: nat, N: nat, k: nat,
                  counts: array<real>, numPairs0: nat, totalLen0: int, diameter0: int)
    returns (numPairs: nat, totalLen: int, diameter: int)
    requires Closed(g) && AllDistances(g, paths) && i < N
    requires Tallied(PairDistances(g, Pairs(i, N)), numPairs0, totalLen0, diameter0, counts[..], k)
    modifies counts
    ensures Tallied(PairDistances(g, Pairs(i + 1, N)), numPairs, totalLen, diameter, counts[..], k)
  {
    numPairs, totalLen, diameter := numPairs0, totalLen0, diameter0;
    ghost var prefix := PairDistances(g, Pairs(i, N));
    ghost var ds := prefix;
    assert RowDistances(g, i, i + 1) == [];
    for j := i + 1 to N
      invariant ds == prefix + RowDistances(g, i, j)
      invariant Tallied(ds, numPairs, totalLen, diameter, counts[..], k)
    {
      var d := Lookup<nat>(paths, i, j);
      LookupIsDistance<nat>(g, paths, i, j);
      ghost var before, total0, longest0 := counts[..], totalLen, diameter;
      numPairs, totalLen, diameter := TallyPair(d, k, counts, numPairs, totalLen, diameter);
      TallyStep(ds, d, numPairs - 1, total0, longest0, before, k, counts[..]);
      RowDistancesStep(g, i, j);
      ds := ds + [d];
    }
    RowDistancesComplete(g, i, N);
  }

  /** The outer loop of `_getData`: every row of pairs in turn. */
  method TallyPairs(g: Graph<nat>, paths: map<nat, map<nat, nat>>, N: nat, k: nat)
    returns (numPairs: nat, totalLen: int, diameter: int, counts: array<real>)
    requires Closed(g) && AllDistances(g, paths)
    ensures fresh(counts)
    ensures Tallied(PairDistances(g, Pairs(N, N)), numPairs, totalLen, diameter, counts[..], k)
  {
    totalLen, numPairs, diameter := 0, 0, 0;
    counts := new real[k + 1](_ => 0.0);
    for i := 0 to N
      invariant Tallied(PairDistances(g, Pairs(i, N)), numPairs, totalLen, diameter, counts[..], k)
    {
      numPairs, totalLen, diameter := TallyRow(g, paths, i, N, k, counts, numPairs, totalLen, diameter);
    }
  }

  /** Dividing the tallies of a nonempty list of pairs by their number
      gives its summary. */
  lemma TalliedSummary(ds: seq<Option<nat>>, numPairs: nat, totalLen: int, diameter: int,
                       counts: seq<real>, k: nat, shares: seq<real>)
    requires Tallied(ds, numPairs, totalLen, diameter, counts, k) && numPairs > 0
    requires |shares| == k + 1
    requires forall x :: 0 <= x <= k ==> shares[x] == counts[x] / numPairs as real
    ensures Data(shares, if totalLen >= 0 then totalLen as real / numPairs as real else -1.0, diameter)
      == Summary(ds, k)
  {
    assert shares == Reach(ds, k);
  }

  lemma ProjectionClosed(n: Network)
    requires Valid(n)
    ensures Closed(n.projection)
  {
    var g, b := ProjectionFacts(n);
  }

  /** `_getData(k)`: walk the pairs `i < j` of persons, adding up their
      distances, keeping the largest and counting those within each step
      count; with every pair visited, divide by the number of pairs. There
      are none with fewer than two persons, and the division fails. */
  method GetData(n: Network, k: nat) returns (r: Result<Data>)
    requires Valid(n)
    ensures r.Err? <==> |n.persons| <= 1
    ensures r.Err? ==> r.error == ZeroDivision
    ensures r.Ok? ==> |Distances(n)| > 0 && r.value == Summary(Distances(n), k)
  {
    ProjectionClosed(n);
    var paths := AllPairsShortestPaths(n.projection);
    var N := |n.persons|;
    var numPairs, totalLen, diameter, counts := TallyPairs(n.projection, paths, N, k);
    PairsCount(N);
    if numPairs == 0 {
      return Err(ZeroDivision);
    }
    ghost var tallies := counts[..];
    Rescale(counts, numPairs);
    var path := if totalLen >= 0 then totalLen as real / numPairs as real else -1.0;
    TalliedSummary(Distances(n), numPairs, totalLen, diameter, tallies, k, counts[..]);
    r := Ok(Data(counts[..], path, diameter));
  }

  // ---- what the pair distances of a network say ----

  /** Distinct persons are at least one step apart in the projection. */
  lemma DistancesSeparated(n: Network)
    requires Valid(n)
    ensures Separated(Distances(n))
  {
    ProjectionClosed(n);
    var N := |n.persons|;
    var ps, ds := Pairs(N, N), Distances(n);
    PairsMembers(N, N);
    forall t | 0 <= t < |ds| && ds[t].Some? ensures ds[t].value >= 1 {
      assert ps[t] in ps;
      DistanceOfDistinct<nat>(n.projection, ps[t].0, ps[t].1);
    }
  }

  /** Some pair is unreachable exactly when two persons lie in different
      connected components of the projection. */
  lemma UnreachableIffSplit(n: Network)
    requires Valid(n)
    ensures AnyUnreachable(Distances(n)) <==>
      exists i: nat, j: nat :: i < j < |n.persons| && j !in Component(n.projection, i)
  {
    ProjectionClosed(n);
    var g, N := n.projection, |n.persons|;
    var ps, ds := Pairs(N, N), Distances(n);
    PairsMembers(N, N);
    if AnyUnreachable(ds) {
      var t :| 0 <= t < |ds| && ds[t].None?;
      assert ps[t] in ps;
      var i, j := ps[t].0, ps[t].1;
      assert i < j < N;
      assert ds[t] == Distance<nat>(g, i, j);
      UnreachableIffOutsideComponent<nat>(g, i, j);
      assert j !in Component<nat>(g, i);
    }
    if exists i: nat, j: nat :: i < j < N && j !in Component(g, i) {
      var i: nat, j: nat :| i < j < N && j !in Component(g, i);
      assert (i, j) in ps;
      var t :| 0 <= t < |ps| && ps[t] == (i, j);
      UnreachableIffOutsideComponent<nat>(g, i, j);
      assert ds[t].None?;
    }
  }

  /** A person who shares no group with anyone is not a node of the
      projection, so once there are two persons some pair is unreachable. */
  lemma LonerDisconnects(n: Network, i: nat)
    requires Valid(n) && i < |n.persons| && i !in n.projection && |n.persons| >= 2
    ensures AnyUnreachable(Distances(n))
  {
    ProjectionClosed(n);
    var g, N := n.projection, |n.persons|;
    var ps := Pairs(N, N);
    PairsMembers(N, N);
    var p: (nat, nat) := if i == 0 then (0, 1) else (0, i);
    assert p in ps;
    var t :| 0 <= t < |ps| && ps[t] == p;
    if i == 0 {
      DistanceFromOutsider<nat>(g, 0, 1);
    } else {
      DistanceMeaning<nat>(g, 0, i);
      if Distance<nat>(g, 0, i).Some? {
        BallWithinNodes<nat>(g, 0, Distance<nat>(g, 0, i).value);
      }
    }
    assert Distances(n)[t].None?;
  }

  // ---- the statistics read from `_getData` ----

  /** `getCharPathLength`: the mean distance over all pairs of persons, or
      -1.0 when some pair is unreachable. */
  method CharPathLength(n: Network) returns (r: Result<real>)
    requires Valid(n)
    ensures r.Err? <==> |n.persons| <= 1
    ensures r.Err? ==> r.error == ZeroDivision
    ensures r.Ok? ==> |Distances(n)| > 0 && r.value == Summary(Distances(n), 0).path
    ensures r.Ok? ==> (r.value == -1.0 <==> AnyUnreachable(Distances(n)))
    ensures r.Ok? && !AnyUnreachable(Distances(n)) ==>
      1.0 <= r.value <= MaxDist(Distances(n)) as real
  {
    var data := GetData(n, 0);
    match data {
      case Err(e) => r := Err(e);
      case Ok(d) =>
        r := Ok(d.path);
        DistancesSeparated(n);
        if !AnyUnreachable(Distances(n)) {
          PathWithinDiameter(Distances(n), 0);
        }
    }
  }

  /** `getNetworkDiameter`: the largest distance between two persons, or -1
      when some pair is unreachable. */
  method NetworkDiameter(n: Network) returns (r: Result<int>)
    requires Valid(n)
    ensures r.Err? <==> |n.persons| <= 1
    ensures r.Err? ==> r.error == ZeroDivision
    ensures r.Ok? ==> |Distances(n)| > 0 && r.value == Summary(Distances(n), 0).diameter
    ensures r.Ok? ==> (r.value == -1 <==> AnyUnreachable(Distances(n)))
    ensures r.Ok? && !AnyUnreachable(Distances(n)) ==>
      r.value >= 1
      && (forall t :: 0 <= t < |Distances(n)| ==> Distances(n)[t].value <= r.value)
      && exists t :: 0 <= t < |Distances(n)| && Distances(n)[t] == Some(r.value as nat)
  {
    var data := GetData(n, 0);
    match data {
      case Err(e) => r := Err(e);
      case Ok(d) =>
        r := Ok(d.diameter);
        DistancesSeparated(n);
        MaxDistIsMaximum(Distances(n));
        if !AnyUnreachable(Distances(n)) {
          PathWithinDiameter(Distances(n), 0);
          assert forall t :: 0 <= t < |Distances(n)| ==> Distances(n)[t].Some?;
        }
    }
  }

  /** What `getKStepReach` returns: the whole list or one entry. */
  datatype ReachValue = AllSteps(shares: seq<real>) | Step(share: real)

  /** `getKStepReach(k, multiple)`: the share of pairs of persons joined by
      a path of at most `k` steps, or the shares for 0, 1, ..., `k`. */
  method KStepReach(n: Network, k: nat, multiple: bool) returns (r: Result<ReachValue>)
    requires Valid(n)
    ensures r.Err? <==> |n.persons| <= 1
    ensures r.Err? ==> r.error == ZeroDivision
    ensures r.Ok? && multiple ==> |Distances(n)| > 0 && r.value == AllSteps(Reach(Distances(n), k))
    ensures r.Ok? && !multiple ==> |Distances(n)| > 0 && r.value == Step(Share(Distances(n), k))
    ensures r.Ok? && !multiple ==> 0.0 <= r.value.share <= 1.0
    ensures r.Ok? && multiple ==>
      |r.value.shares| == k + 1
      && (forall x :: 0 <= x <= k ==> 0.0 <= r.value.shares[x] <= 1.0)
      && (forall x, y :: 0 <= x <= y <= k ==> r.value.shares[x] <= r.value.shares[y])
  {
    var data := GetData(n, k);
    match data {
      case Err(e) => r := Err(e);
      case Ok(d) =>
        DistancesSeparated(n);
        ReachIsShare(Distances(n), k);
        ReachProperties(Distances(n), k);
        if multiple {
          r := Ok(AllSteps(d.reach));
        } else {
          r := Ok(Step(d.reach[k]));
        }
    }
  }
}

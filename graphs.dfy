/** Undirected graphs in the form networkx keeps them (each node mapped to
    the set of its neighbours), shortest-path lengths by breadth-first
    search and connected components. */
module Graphs {

  datatype Option<T> = None | Some(value: T)

  /** Adjacency: node -> neighbours. A node is present once an edge touches it. */
  type Graph<T> = map<T, set<T>>

  predicate Adjacent<T(!new)>(g: Graph<T>, u: T, v: T)
  {
    u in g && v in g[u]
  }

  /** Every edge is recorded at both ends. */
  ghost predicate Undirected<T(!new)>(g: Graph<T>)
  {
    forall u, v :: Adjacent(g, u, v) ==> Adjacent(g, v, u)
  }

  /** `G.add_edge(u, v)` on an undirected graph. */
  function AddEdge<T(!new)>(g: Graph<T>, u: T, v: T): (h: Graph<T>)
    ensures h.Keys == g.Keys + {u, v}
    ensures forall x :: x in g ==> g[x] <= h[x]
    ensures forall x, y :: Adjacent(h, x, y) <==>
      Adjacent(g, x, y) || (x == u && y == v) || (x == v && y == u)
  {
    var g1 := g[u := (if u in g then g[u] else {}) + {v}];
    g1[v := (if v in g1 then g1[v] else {}) + {u}]
  }

  /** Every node some edge leads to. */
  function Targets<T(!new)>(g: Graph<T>): set<T>
  {
    set u, v | u in g && v in g[u] :: v
  }

  /** The nodes adjacent to some node of `S`. */
  function Neighbours<T(!new)>(g: Graph<T>, S: set<T>): set<T>
  {
    set v | v in Targets(g) && exists u {:trigger Adjacent(g, u, v)} :: u in S && Adjacent(g, u, v)
  }

  lemma NeighbourWitness<T(!new)>(g: Graph<T>, S: set<T>, v: T) returns (x: T)
    requires v in Neighbours(g, S)
    ensures x in S && Adjacent(g, x, v)
  {
    x :| x in S && Adjacent(g, x, v);
  }

  lemma NeighbourIntro<T(!new)>(g: Graph<T>, S: set<T>, x: T, v: T)
    requires x in S && Adjacent(g, x, v)
    ensures v in Neighbours(g, S)
  {
    assert v in Targets(g);
  }

  /** Every neighbour is itself a node, as in a networkx graph. */
  ghost predicate Closed<T(!new)>(g: Graph<T>)
  {
    forall u, v :: Adjacent(g, u, v) ==> v in g
  }

  lemma UndirectedIsClosed<T(!new)>(g: Graph<T>)
    requires Undirected(g)
    ensures Closed(g)
  {
    forall u, v | Adjacent(g, u, v) ensures v in g {
      assert Adjacent(g, v, u);
    }
  }

  /** The nodes at most `k` steps from `u`. */
  function Ball<T(!new)>(g: Graph<T>, u: T, k: nat): set<T>
  {
    if k == 0 then {u} else Ball(g, u, k - 1) + Neighbours(g, Ball(g, u, k - 1))
  }

  /** How many levels a breadth-first search from `u` can have at most
      (at most one node of a closed graph besides `u` joins per level). */
  function Horizon<T(!new)>(g: Graph<T>, u: T): nat
  {
    |g| + 1
  }

  function Search<T(!new)>(g: Graph<T>, u: T, v: T, k: nat, bound: nat): Option<nat>
    decreases bound - k
  {
    if v in Ball(g, u, k) then Some(k)
    else if k >= bound then None
    else Search(g, u, v, k + 1, bound)
  }

  /** The length of a shortest path from `u` to `v`; `None` when there is none. */
  function Distance<T(!new)>(g: Graph<T>, u: T, v: T): Option<nat>
  {
    Search(g, u, v, 0, Horizon(g, u))
  }

  /** The nodes reachable from `u`: its connected component. */
  function Component<T(!new)>(g: Graph<T>, u: T): set<T>
  {
    Ball(g, u, Horizon(g, u))
  }

  /** A walk: consecutive nodes are adjacent. Its length is `|w| - 1`. */
  predicate IsWalk<T(!new)>(g: Graph<T>, w: seq<T>)
  {
    |w| > 0 && forall i :: 0 <= i < |w| - 1 ==> Adjacent(g, w[i], w[i + 1])
  }

  // ---- balls ----

  lemma {:induction false} BallGrows<T(!new)>(g: Graph<T>, u: T, j: nat, k: nat)
    requires j <= k
    ensures Ball(g, u, j) <= Ball(g, u, k)
    decreases k - j
  {
    if j < k {
      BallGrows(g, u, j, k - 1);
    }
  }

  lemma {:induction false} BallWithinNodes<T(!new)>(g: Graph<T>, u: T, k: nat)
    requires Closed(g)
    ensures Ball(g, u, k) <= g.Keys + {u}
  {
    if k > 0 {
      BallWithinNodes(g, u, k - 1);
      forall v | v in Neighbours(g, Ball(g, u, k - 1)) ensures v in g {
        var x := NeighbourWitness(g, Ball(g, u, k - 1), v);
      }
    }
  }

  lemma BallBounded<T(!new)>(g: Graph<T>, u: T, k: nat)
    requires Closed(g)
    ensures |Ball(g, u, k)| <= Horizon(g, u)
  {
    BallWithinNodes(g, u, k);
    CardinalityOfSubset(Ball(g, u, k), g.Keys + {u});
    assert |g.Keys + {u}| <= |g.Keys| + 1;
  }

  lemma {:induction false} BallStaysStable<T(!new)>(g: Graph<T>, u: T, k: nat, m: nat)
    requires Ball(g, u, k + 1) == Ball(g, u, k) && k <= m
    ensures Ball(g, u, m) == Ball(g, u, k)
    decreases m - k
  {
    if k < m {
      BallStaysStable(g, u, k, m - 1);
    }
  }

  /** A level that reaches no new node leaves the ball as it was. */
  lemma FrontierEmpty<T(!new)>(g: Graph<T>, u: T, level: nat)
    requires level > 0 && Frontier(g, u, level) == {}
    ensures Ball(g, u, level) == Ball(g, u, level - 1)
  {
    BallGrows(g, u, level - 1, level);
    NoDifference(Ball(g, u, level), Ball(g, u, level - 1));
  }

  lemma NoDifference<T(!new)>(A: set<T>, B: set<T>)
    requires B <= A && A - B == {}
    ensures A == B
  {
    forall x | x in A ensures x in B {
      assert x !in A - B;
    }
  }

  /** While each level still reaches a new node, the ball keeps growing. */
  lemma {:induction false} FrontierGrows<T(!new)>(g: Graph<T>, u: T, k: nat)
    requires Frontier(g, u, k) != {}
    ensures |Ball(g, u, k)| >= k + 1
  {
    if k > 0 {
      if k > 1 && Frontier(g, u, k - 1) == {} {
        FrontierEmpty(g, u, k - 1);
        assert false;
      }
      FrontierGrows(g, u, k - 1);
      BallGrows(g, u, k - 1, k);
      ProperSubsetSmaller(Ball(g, u, k - 1), Ball(g, u, k));
    }
  }

  /** A level that still reaches new nodes lies below the horizon. */
  lemma LevelBelowHorizon<T(!new)>(g: Graph<T>, u: T, level: nat)
    requires Closed(g)
    requires Frontier(g, u, level) != {}
    ensures level < Horizon(g, u)
  {
    FrontierGrows(g, u, level);
    BallBounded(g, u, level);
  }

  /** Nothing new is reached beyond `Horizon(g, u)` steps. */
  lemma BallSaturates<T(!new)>(g: Graph<T>, u: T, m: nat)
    requires Closed(g)
    ensures Ball(g, u, m) <= Ball(g, u, Horizon(g, u))
  {
    var n := Horizon(g, u);
    if m <= n {
      BallGrows(g, u, m, n);
    } else {
      if Frontier(g, u, n) != {} {
        LevelBelowHorizon(g, u, n);
      }
      FrontierEmpty(g, u, n);
      BallStaysStable(g, u, n - 1, m);
    }
  }

  lemma CardinalityOfSubset<T(!new)>(A: set<T>, B: set<T>)
    requires A <= B
    ensures |A| <= |B|
  {
    assert B == A + (B - A);
  }

  lemma ProperSubsetSmaller<T(!new)>(A: set<T>, B: set<T>)
    requires A <= B && A != B
    ensures |A| < |B|
  {
    assert B == A + (B - A);
    var x :| x in B - A;
  }

  // ---- distances ----

  lemma {:induction false} SearchFound<T(!new)>(g: Graph<T>, u: T, v: T, k: nat, bound: nat)
    requires Search(g, u, v, k, bound).Some?
    ensures var d := Search(g, u, v, k, bound).value;
      k <= d && v in Ball(g, u, d) && forall i :: k <= i < d ==> v !in Ball(g, u, i)
    decreases bound - k
  {
    if v !in Ball(g, u, k) {
      assert k < bound && Search(g, u, v, k, bound) == Search(g, u, v, k + 1, bound);
      SearchFound(g, u, v, k + 1, bound);
    }
  }

  lemma {:induction false} SearchMissed<T(!new)>(g: Graph<T>, u: T, v: T, k: nat, bound: nat)
    requires Search(g, u, v, k, bound).None?
    ensures v !in Ball(g, u, if k <= bound then bound else k)
    decreases bound - k
  {
    if v !in Ball(g, u, k) && k < bound {
      SearchMissed(g, u, v, k + 1, bound);
    }
  }

  lemma {:induction false} SearchHits<T(!new)>(g: Graph<T>, u: T, v: T, k: nat, bound: nat, d: nat)
    requires k <= d <= bound && v in Ball(g, u, d)
    requires forall i :: k <= i < d ==> v !in Ball(g, u, i)
    ensures Search(g, u, v, k, bound) == Some(d)
    decreases d - k
  {
    if k < d {
      SearchHits(g, u, v, k + 1, bound, d);
    }
  }

  /** A distance is the first level at which `v` enters the ball around `u`. */
  lemma DistanceMeaning<T(!new)>(g: Graph<T>, u: T, v: T)
    requires Closed(g)
    ensures Distance(g, u, v).Some? ==>
      var d := Distance(g, u, v).value;
      v in Ball(g, u, d) && forall i :: 0 <= i < d ==> v !in Ball(g, u, i)
    ensures Distance(g, u, v).None? ==> forall k: nat :: v !in Ball(g, u, k)
  {
    if Distance(g, u, v).Some? {
      SearchFound(g, u, v, 0, Horizon(g, u));
    } else {
      SearchMissed(g, u, v, 0, Horizon(g, u));
      forall k: nat ensures v !in Ball(g, u, k) {
        BallSaturates(g, u, k);
      }
    }
  }

  /** Conversely, the first level at which `v` enters the ball is the distance. */
  lemma DistanceOfLevel<T(!new)>(g: Graph<T>, u: T, v: T, d: nat)
    requires Closed(g)
    requires v in Ball(g, u, d)
    requires d == 0 || v !in Ball(g, u, d - 1)
    ensures Distance(g, u, v) == Some(d)
  {
    var n := Horizon(g, u);
    forall i | 0 <= i < d ensures v !in Ball(g, u, i) {
      BallGrows(g, u, i, d - 1);
    }
    if d > n {
      BallSaturates(g, u, d);
      assert false;
    }
    SearchHits(g, u, v, 0, n, d);
  }

  lemma UnreachableIffOutsideComponent<T(!new)>(g: Graph<T>, u: T, v: T)
    requires Closed(g)
    ensures Distance(g, u, v).Some? <==> v in Component(g, u)
  {
    DistanceMeaning(g, u, v);
    if Distance(g, u, v).Some? {
      BallSaturates(g, u, Distance(g, u, v).value);
    }
  }

  /** A node without edges reaches only itself. */
  lemma {:induction false} BallOfOutsider<T(!new)>(g: Graph<T>, u: T, k: nat)
    requires u !in g
    ensures Ball(g, u, k) == {u}
  {
    if k > 0 {
      BallOfOutsider(g, u, k - 1);
      assert Neighbours(g, {u}) == {};
    }
  }

  /** No path leaves a node without edges. */
  lemma DistanceFromOutsider<T(!new)>(g: Graph<T>, u: T, v: T)
    requires Closed(g) && u !in g && u != v
    ensures Distance(g, u, v) == None
  {
    DistanceMeaning(g, u, v);
    if Distance(g, u, v).Some? {
      BallOfOutsider(g, u, Distance(g, u, v).value);
    }
  }

  /** Two distinct nodes are at least one step apart. */
  lemma DistanceOfDistinct<T(!new)>(g: Graph<T>, u: T, v: T)
    requires Closed(g) && u != v && Distance(g, u, v).Some?
    ensures Distance(g, u, v).value >= 1
  {
    DistanceMeaning(g, u, v);
  }

  // ---- walks: the path-based reading of balls ----

  /** The end of a walk from `u` of length `|w| - 1` lies within that many steps. */
  lemma {:induction false} WalkEndsInBall<T(!new)>(g: Graph<T>, w: seq<T>)
    requires IsWalk(g, w)
    ensures w[|w| - 1] in Ball(g, w[0], |w| - 1)
  {
    if |w| > 1 {
      var w' := w[..|w| - 1];
      assert IsWalk(g, w');
      WalkEndsInBall(g, w');
      assert Adjacent(g, w'[|w'| - 1], w[|w| - 1]);
    }
  }

  /** Every node within `k` steps is the end of a walk of length at most `k`. */
  lemma {:induction false} BallHasWalk<T(!new)>(g: Graph<T>, u: T, v: T, k: nat) returns (w: seq<T>)
    requires v in Ball(g, u, k)
    ensures IsWalk(g, w) && w[0] == u && w[|w| - 1] == v && |w| - 1 <= k
  {
    if k == 0 {
      w := [u];
    } else if v in Ball(g, u, k - 1) {
      w := BallHasWalk(g, u, v, k - 1);
    } else {
      var x := NeighbourWitness(g, Ball(g, u, k - 1), v);
      var w' := BallHasWalk(g, u, x, k - 1);
      w := w' + [v];
      assert forall i :: 0 <= i < |w'| ==> w[i] == w'[i];
    }
  }

  /** `Distance` is the length of a shortest walk; `None` means no walk exists. */
  lemma DistanceIsShortestWalk<T(!new)>(g: Graph<T>, u: T, v: T)
    requires Closed(g)
    ensures Distance(g, u, v).Some? ==>
      (exists w :: IsWalk(g, w) && w[0] == u && w[|w| - 1] == v && |w| - 1 == Distance(g, u, v).value)
    ensures forall w :: IsWalk(g, w) && w[0] == u && w[|w| - 1] == v ==>
      Distance(g, u, v).Some? && Distance(g, u, v).value <= |w| - 1
  {
    DistanceMeaning(g, u, v);
    if Distance(g, u, v).Some? {
      var d := Distance(g, u, v).value;
      var w := BallHasWalk(g, u, v, d);
      WalkEndsInBall(g, w);
    }
    forall w | IsWalk(g, w) && w[0] == u && w[|w| - 1] == v
      ensures Distance(g, u, v).Some? && Distance(g, u, v).value <= |w| - 1
    {
      WalkEndsInBall(g, w);
    }
  }

  // ---- breadth-first search ----

  /** Only the newest level can reach nodes not seen yet. */
  lemma FrontierSuffices<T(!new)>(g: Graph<T>, u: T, k: nat)
    ensures Neighbours(g, Ball(g, u, k + 1)) - Ball(g, u, k + 1)
         == Neighbours(g, Ball(g, u, k + 1) - Ball(g, u, k)) - Ball(g, u, k + 1)
  {
    var A, B := Ball(g, u, k), Ball(g, u, k + 1);
    forall v | v in Neighbours(g, B) - B ensures v in Neighbours(g, B - A) {
      var x :| x in B && Adjacent(g, x, v);
    }
  }

  /** The nodes first reached at `level`. */
  function Frontier<T(!new)>(g: Graph<T>, u: T, level: nat): set<T>
  {
    if level == 0 then Ball(g, u, 0) else Ball(g, u, level) - Ball(g, u, level - 1)
  }

  /** `v` enters the ball around `u` exactly at level `d`. */
  ghost predicate FirstLevel<T(!new)>(g: Graph<T>, u: T, v: T, d: nat)
  {
    v in Ball(g, u, d) && (d == 0 || v !in Ball(g, u, d - 1))
  }

  lemma NextLevel<T(!new)>(g: Graph<T>, u: T, level: nat)
    ensures Neighbours(g, Frontier(g, u, level)) - Ball(g, u, level)
         == Ball(g, u, level + 1) - Ball(g, u, level)
  {
    if level > 0 {
      FrontierSuffices(g, u, level - 1);
    }
  }

  /** Once a level adds nothing, no later level does. */
  lemma BallBeyond<T(!new)>(g: Graph<T>, u: T, level: nat, d: nat)
    requires 0 < level <= d && Ball(g, u, level) == Ball(g, u, level - 1)
    ensures Ball(g, u, d) == Ball(g, u, level)
  {
    BallStaysStable(g, u, level - 1, d);
  }

  lemma NotReached<T(!new)>(g: Graph<T>, u: T, level: nat, v: T)
    requires Closed(g)
    requires level > 0 && Ball(g, u, level) == Ball(g, u, level - 1)
    requires v !in Ball(g, u, level)
    ensures Distance(g, u, v) == None
  {
    DistanceMeaning(g, u, v);
    if Distance(g, u, v).Some? {
      var d := Distance(g, u, v).value;
      if d <= level {
        BallGrows(g, u, d, level);
      } else {
        BallBeyond(g, u, level, d);
      }
    }
  }

  /** `dist` records exactly the nodes within `level` steps, each at its first level. */
  ghost predicate Recorded<T(!new)>(g: Graph<T>, u: T, level: nat, dist: map<T, nat>)
  {
    dist.Keys == Ball(g, u, level) && forall v :: v in dist ==> FirstLevel(g, u, v, dist[v])
  }

  lemma SearchComplete<T(!new)>(g: Graph<T>, u: T, level: nat, dist: map<T, nat>)
    requires Closed(g)
    requires level > 0 && Ball(g, u, level) == Ball(g, u, level - 1)
    requires Recorded(g, u, level, dist)
    ensures forall v :: Distance(g, u, v) == if v in dist then Some(dist[v]) else None
  {
    forall v | v in dist ensures Distance(g, u, v) == Some(dist[v]) {
      DistanceOfLevel(g, u, v, dist[v]);
    }
    forall v | v !in dist ensures Distance(g, u, v) == None {
      NotReached(g, u, level, v);
    }
  }

  /** `dist` with every node of `S` recorded at distance `d`. */
  function Record<T(!new)>(dist: map<T, nat>, S: set<T>, d: nat): (r: map<T, nat>)
    ensures r.Keys == dist.Keys + S
  {
    map v | v in dist.Keys + S :: if v in S then d else dist[v]
  }

  lemma RecordAt<T(!new)>(dist: map<T, nat>, S: set<T>, d: nat, v: T)
    requires v in Record(dist, S, d)
    ensures v in S ==> Record(dist, S, d)[v] == d
    ensures v !in S ==> v in dist && Record(dist, S, d)[v] == dist[v]
  {
  }

  /** The distances breadth-first search from `u` has recorded after `level` levels. */
  function Levels<T(!new)>(g: Graph<T>, u: T, level: nat): map<T, nat>
  {
    if level == 0 then map[u := 0] else Record(Levels(g, u, level - 1), Frontier(g, u, level), level)
  }

  /** After `level` levels the recorded nodes are those within `level` steps. */
  lemma {:induction false} LevelsKeys<T(!new)>(g: Graph<T>, u: T, level: nat)
    ensures Levels(g, u, level).Keys == Ball(g, u, level)
  {
    if level > 0 {
      LevelsKeys(g, u, level - 1);
      BallGrows(g, u, level - 1, level);
    }
  }

  /** Each recorded node is recorded at the level where it is first reached. */
  lemma {:induction false} LevelsAt<T(!new)>(g: Graph<T>, u: T, level: nat, v: T)
    requires v in Levels(g, u, level)
    ensures FirstLevel(g, u, v, Levels(g, u, level)[v])
  {
    if level == 0 {
      assert v == u && Levels(g, u, level)[v] == 0;
    } else {
      var prev, F := Levels(g, u, level - 1), Frontier(g, u, level);
      assert Levels(g, u, level) == Record(prev, F, level);
      RecordAt(prev, F, level, v);
      if v in F {
        assert FirstLevel(g, u, v, level);
      } else {
        LevelsAt(g, u, level - 1, v);
        assert Levels(g, u, level)[v] == prev[v];
      }
    }
  }

  lemma LevelsFirst<T(!new)>(g: Graph<T>, u: T, level: nat)
    ensures Recorded(g, u, level, Levels(g, u, level))
  {
    LevelsKeys(g, u, level);
    forall v | v in Levels(g, u, level) ensures FirstLevel(g, u, v, Levels(g, u, level)[v]) {
      LevelsAt(g, u, level, v);
    }
  }

  /** The frontier's new neighbours are the next frontier. */
  lemma Expand<T(!new)>(g: Graph<T>, u: T, level: nat)
    ensures Neighbours(g, Frontier(g, u, level)) - Ball(g, u, level) == Frontier(g, u, level + 1)
    ensures Ball(g, u, level) + Frontier(g, u, level + 1) == Ball(g, u, level + 1)
  {
    NextLevel(g, u, level);
    BallGrows(g, u, level, level + 1);
  }

  /** `dist` holds exactly the nodes reachable from `u`, each with its distance. */
  ghost predicate DistancesFrom<T(!new)>(g: Graph<T>, u: T, dist: map<T, nat>)
  {
    forall v :: Distance(g, u, v) == if v in dist then Some(dist[v]) else None
  }

  /** Once a level reaches no new node, the recorded levels are the distances. */
  lemma LevelsComplete<T(!new)>(g: Graph<T>, u: T, level: nat)
    requires Closed(g)
    requires Frontier(g, u, level) == {}
    ensures DistancesFrom(g, u, Levels(g, u, level))
  {
    assert level > 0;
    BallGrows(g, u, level - 1, level);
    LevelsFirst(g, u, level);
    SearchComplete(g, u, level, Levels(g, u, level));
  }

  /** Level `level` of a search from `u` still reaches some node. */
  ghost predicate Reaches<T(!new)>(g: Graph<T>, u: T, level: nat)
  {
    Frontier(g, u, level) != {}
  }

  /** A bound on the number of levels that reach a node. */
  lemma LevelBound<T(!new)>(g: Graph<T>, u: T) returns (h: nat)
    requires Closed(g)
    ensures forall level: nat :: Reaches(g, u, level) ==> level < h
  {
    h := Horizon(g, u);
    forall level: nat | Reaches(g, u, level) ensures level < h {
      LevelBelowHorizon(g, u, level);
    }
  }

  /** One level of breadth-first search: the neighbours of the frontier not
      seen yet become the next frontier, recorded one step further out. */
  method ExpandLevel<T(!new)>(g: Graph<T>, source: T, level: nat, frontier: set<T>, dist: map<T, nat>)
    returns (frontier': set<T>, dist': map<T, nat>)
    requires frontier == Frontier(g, source, level) && dist == Levels(g, source, level)
    ensures frontier' == Frontier(g, source, level + 1) && dist' == Levels(g, source, level + 1)
  {
    Expand(g, source, level);
    LevelsFirst(g, source, level);
    frontier' := Neighbours(g, frontier) - dist.Keys;
    dist' := Record(dist, frontier', level + 1);
  }

  /** The level-by-level expansion of breadth-first search from `source`,
      run until a level reaches no new node. */
  method ExpandLevels<T(!new)>(g: Graph<T>, source: T) returns (level: nat, dist: map<T, nat>)
    requires Closed(g)
    ensures Frontier(g, source, level) == {} && dist == Levels(g, source, level)
  {
    dist := map[source := 0];
    var frontier: set<T> := {source};
    level := 0;
    ghost var h := LevelBound(g, source);
    assert Reaches(g, source, 0);
    while frontier != {}
      invariant frontier == Frontier(g, source, level)
      invariant dist == Levels(g, source, level)
      invariant frontier != {} ==> level < h
      decreases h - level
    {
      frontier, dist := ExpandLevel(g, source, level, frontier, dist);
      level := level + 1;
      if frontier != {} {
        assert Reaches(g, source, level);
      }
    }
  }

  /** `nx.single_source_shortest_path_length(g, source)`: the distance to every
      node reachable from `source`, and no entry for the others. */
  method ShortestPathLengths<T(!new)>(g: Graph<T>, source: T) returns (dist: map<T, nat>)
    requires Closed(g)
    ensures DistancesFrom(g, source, dist)
  {
    var level;
    level, dist := ExpandLevels(g, source);
    LevelsComplete(g, source, level);
  }

  /** The connected component of `source`, found by breadth-first search. */
  method ComponentOf<T(!new)>(g: Graph<T>, source: T) returns (C: set<T>)
    requires Closed(g)
    ensures C == Component(g, source)
  {
    var dist := ShortestPathLengths(g, source);
    C := dist.Keys;
    assert DistancesFrom(g, source, dist);
    forall v ensures v in C <==> v in Component(g, source) {
      UnreachableIffOutsideComponent(g, source, v);
    }
  }

  // ---- connected components ----

  function Reverse<T>(w: seq<T>): (r: seq<T>)
    ensures |r| == |w| && forall i :: 0 <= i < |w| ==> r[i] == w[|w| - 1 - i]
  {
    seq(|w|, i requires 0 <= i < |w| => w[|w| - 1 - i])
  }

  lemma ReversedWalk<T(!new)>(g: Graph<T>, w: seq<T>)
    requires Undirected(g) && IsWalk(g, w)
    ensures IsWalk(g, Reverse(w))
  {
    var r := Reverse(w);
    forall i | 0 <= i < |r| - 1 ensures Adjacent(g, r[i], r[i + 1]) {
      var j := |w| - 2 - i;
      assert Adjacent(g, w[j], w[j + 1]);
    }
  }

  lemma JoinedWalk<T(!new)>(g: Graph<T>, w: seq<T>, w': seq<T>)
    requires IsWalk(g, w) && IsWalk(g, w') && w[|w| - 1] == w'[0]
    ensures IsWalk(g, w + w'[1..])
  {
    var r := w + w'[1..];
    forall i | 0 <= i < |r| - 1 ensures Adjacent(g, r[i], r[i + 1]) {
      if i < |w| - 1 {
        assert r[i] == w[i] && r[i + 1] == w[i + 1];
      } else {
        var j := i - (|w| - 1);
        assert r[i] == w'[j] && r[i + 1] == w'[j + 1];
      }
    }
  }

  /** Every node of a component is reached by a walk from its root. */
  lemma ComponentWalk<T(!new)>(g: Graph<T>, u: T, v: T) returns (w: seq<T>)
    requires v in Component(g, u)
    ensures IsWalk(g, w) && w[0] == u && w[|w| - 1] == v
  {
    w := BallHasWalk(g, u, v, Horizon(g, u));
  }

  /** The end of every walk lies in the component of its start. */
  lemma WalkInComponent<T(!new)>(g: Graph<T>, w: seq<T>)
    requires Closed(g)
    requires IsWalk(g, w)
    ensures w[|w| - 1] in Component(g, w[0])
  {
    WalkEndsInBall(g, w);
    InBallInComponent(g, w[0], w[|w| - 1], |w| - 1);
  }

  lemma InBallInComponent<T(!new)>(g: Graph<T>, u: T, v: T, k: nat)
    requires Closed(g)
    requires v in Ball(g, u, k)
    ensures v in Component(g, u)
  {
    BallSaturates(g, u, k);
  }


  /** In an undirected graph, `v` reaches `u` whenever `u` reaches `v`. */
  lemma ComponentSymmetric<T(!new)>(g: Graph<T>, u: T, v: T)
    requires Undirected(g) && v in Component(g, u)
    ensures u in Component(g, v)
  {
    var w := ComponentWalk(g, u, v);
    ReversedWalk(g, w);
    WalkInComponent(g, Reverse(w));
  }

  /** Reachability is transitive. */
  lemma ComponentTransitive<T(!new)>(g: Graph<T>, u: T, v: T, x: T)
    requires Closed(g)
    requires v in Component(g, u) && x in Component(g, v)
    ensures x in Component(g, u)
  {
    var w := ComponentWalk(g, u, v);
    var w' := ComponentWalk(g, v, x);
    JoinedWalk(g, w, w');
    var r := w + w'[1..];
    assert r[0] == u && r[|r| - 1] == x;
    WalkInComponent(g, r);
  }

  /** A node's component is the component of every node in it. */
  lemma SameComponent<T(!new)>(g: Graph<T>, u: T, v: T)
    requires Undirected(g) && v in Component(g, u)
    ensures Component(g, v) == Component(g, u)
  {
    ComponentSymmetric(g, u, v);
    forall x | x in Component(g, v) ensures x in Component(g, u) {
      ComponentTransitive(g, u, v, x);
    }
    forall x | x in Component(g, u) ensures x in Component(g, v) {
      ComponentTransitive(g, v, u, x);
    }
  }

  /** Components are closed under adjacency. */
  lemma ComponentAdjacent<T(!new)>(g: Graph<T>, u: T, v: T, x: T)
    requires Closed(g)
    requires v in Component(g, u) && Adjacent(g, v, x)
    ensures x in Component(g, u)
  {
    var w := ComponentWalk(g, u, v);
    var r := w + [x];
    assert forall i :: 0 <= i < |w| ==> r[i] == w[i];
    assert IsWalk(g, r);
    WalkInComponent(g, r);
  }

  lemma ComponentWithinNodes<T(!new)>(g: Graph<T>, u: T)
    requires Closed(g)
    ensures Component(g, u) <= g.Keys + {u}
  {
    BallWithinNodes(g, u, Horizon(g, u));
  }

  /** `max(sets, key=len)`: the position of the first set of greatest size. */
  method FirstLargest<T>(sets: seq<set<T>>) returns (index: nat)
    requires |sets| > 0
    ensures index < |sets|
    ensures forall j :: 0 <= j < |sets| ==> |sets[j]| <= |sets[index]|
    ensures forall j :: 0 <= j < index ==> |sets[j]| < |sets[index]|
  {
    index := 0;
    for i := 1 to |sets|
      invariant index < i
      invariant forall j :: 0 <= j < i ==> |sets[j]| <= |sets[index]|
      invariant forall j :: 0 <= j < index ==> |sets[j]| < |sets[index]|
    {
      if |sets[i]| > |sets[index]| {
        index := i;
      }
    }
  }

  /** `max(nx.connected_components(g), key=len)` where the components are
      met in the order of their first node in `order`: the first component of
      greatest size. */
  method LargestComponent<T(!new)>(g: Graph<T>, order: seq<T>) returns (C: set<T>, ghost index: nat)
    requires Closed(g) && |order| > 0
    ensures index < |order| && C == Component(g, order[index])
    ensures forall j :: 0 <= j < |order| ==> |Component(g, order[j])| <= |C|
    ensures forall j :: 0 <= j < index ==> |Component(g, order[j])| < |C|
  {
    var components: seq<set<T>> := [];
    for i := 0 to |order|
      invariant |components| == i
      invariant forall j :: 0 <= j < i ==> components[j] == Component(g, order[j])
    {
      var D := ComponentOf(g, order[i]);
      components := components + [D];
    }
    var k := FirstLargest(components);
    C, index := components[k], k;
  }
}

/** The two-mode graph of persons and groups, its largest connected
    component, the share of persons and groups it holds, and the network
    rebuilt from it. Nodes are names: a person and a group with the same
    name are one node, as in a networkx graph. */
module Components {
  import opened StringOrder
  import opened Matrices
  import opened Graphs
  import opened Links
  import opened Networks

  // ---- the bipartite graph ----

  /** `g` joins a person to a group exactly when some link does, and holds
      no node without an edge. */
  ghost predicate IsLinkGraph(g: Graph<string>, links: seq<Link>)
  {
    (forall u, v :: Adjacent(g, u, v) <==> HasLink(links, u, v) || HasLink(links, v, u))
    && forall u :: u in g ==> g[u] != {}
  }

  /** The graph that adds the edge of every link in turn. */
  function LinkGraph(links: seq<Link>): Graph<string>
  {
    if |links| == 0 then map[]
    else
      var h, l := LinkGraph(links[..|links| - 1]), links[|links| - 1];
      if |l| >= 2 then AddEdge(h, l[0], l[1]) else h
  }

  lemma {:induction false} LinkGraphMeaning(links: seq<Link>)
    ensures IsLinkGraph(LinkGraph(links), links)
  {
    if |links| > 0 {
      var t := |links| - 1;
      assert links[..t + 1] == links;
      LinkGraphMeaning(links[..t]);
      LinksExtend(links, t);
    }
  }

  /** The links determine their graph. */
  lemma LinkGraphUnique(g: Graph<string>, h: Graph<string>, links: seq<Link>)
    requires IsLinkGraph(g, links) && IsLinkGraph(h, links)
    ensures g == h
  {
    forall u | u in g ensures u in h {
      var v :| v in g[u];
      assert Adjacent(g, u, v);
    }
    forall u | u in h ensures u in g {
      var v :| v in h[u];
      assert Adjacent(h, u, v);
    }
    forall u | u in g ensures g[u] == h[u] {
      forall v ensures v in g[u] <==> v in h[u] {
        assert Adjacent(g, u, v) <==> Adjacent(h, u, v);
      }
    }
  }

  lemma LinkGraphUndirected(g: Graph<string>, links: seq<Link>)
    requires IsLinkGraph(g, links)
    ensures Undirected(g) && Closed(g)
  {
    UndirectedIsClosed(g);
  }

  /** Every node of the graph is a person or a group. */
  lemma LinkGraphNodes(g: Graph<string>, links: seq<Link>)
    requires IsLinkGraph(g, links)
    ensures g.Keys <= PersonSet(links) + GroupSet(links)
  {
    forall u | u in g ensures u in PersonSet(links) + GroupSet(links) {
      var v :| v in g[u];
      assert Adjacent(g, u, v);
      if HasLink(links, u, v) {
        PersonHasLink(links, u);
      } else {
        GroupHasLink(links, u);
      }
    }
  }

  /** Cell `(x, y)` is entered before `(i, k)` in row-major order, is 1,
      and joins `u` to `v`. */
  predicate EdgeBefore(m: seq<seq<int>>, P: seq<string>, G: seq<string>,
                       u: string, v: string, i: nat, k: nat)
  {
    exists x: nat, y: nat :: x < |P| && y < |G| && (x < i || (x == i && y < k))
      && x < |m| && y < |m[x]| && m[x][y] == 1 && P[x] == u && G[y] == v
  }

  lemma EdgeAt(m: seq<seq<int>>, P: seq<string>, G: seq<string>, x: nat, y: nat, i: nat, k: nat)
    requires x < |P| && y < |G| && (x < i || (x == i && y < k))
    requires x < |m| && y < |m[x]| && m[x][y] == 1
    ensures EdgeBefore(m, P, G, P[x], G[y], i, k)
  {
  }

  lemma EdgeBeforeStep(m: seq<seq<int>>, P: seq<string>, G: seq<string>, i: nat, k: nat)
    requires i < |P| && k < |G| && i < |m| && k < |m[i]|
    ensures forall u, v :: EdgeBefore(m, P, G, u, v, i, k + 1) <==>
      EdgeBefore(m, P, G, u, v, i, k) || (m[i][k] == 1 && u == P[i] && v == G[k])
  {
    forall u, v ensures EdgeBefore(m, P, G, u, v, i, k + 1) <==>
      EdgeBefore(m, P, G, u, v, i, k) || (m[i][k] == 1 && u == P[i] && v == G[k])
    {
      if EdgeBefore(m, P, G, u, v, i, k + 1) {
        var x: nat, y: nat :| x < |P| && y < |G| && (x < i || (x == i && y < k + 1))
          && x < |m| && y < |m[x]| && m[x][y] == 1 && P[x] == u && G[y] == v;
        if x < i || y < k {
          EdgeAt(m, P, G, x, y, i, k);
        }
      }
      if EdgeBefore(m, P, G, u, v, i, k) {
        var x: nat, y: nat :| x < |P| && y < |G| && (x < i || (x == i && y < k))
          && x < |m| && y < |m[x]| && m[x][y] == 1 && P[x] == u && G[y] == v;
        EdgeAt(m, P, G, x, y, i, k + 1);
      }
      if m[i][k] == 1 && u == P[i] && v == G[k] {
        EdgeAt(m, P, G, i, k, i, k + 1);
      }
    }
  }

  lemma EdgeBeforeRow(m: seq<seq<int>>, P: seq<string>, G: seq<string>, i: nat)
    ensures forall u, v :: EdgeBefore(m, P, G, u, v, i, |G|) <==> EdgeBefore(m, P, G, u, v, i + 1, 0)
  {
    forall u, v ensures EdgeBefore(m, P, G, u, v, i, |G|) <==> EdgeBefore(m, P, G, u, v, i + 1, 0) {
      if EdgeBefore(m, P, G, u, v, i, |G|) {
        var x: nat, y: nat :| x < |P| && y < |G| && (x < i || (x == i && y < |G|))
          && x < |m| && y < |m[x]| && m[x][y] == 1 && P[x] == u && G[y] == v;
        EdgeAt(m, P, G, x, y, i + 1, 0);
      }
      if EdgeBefore(m, P, G, u, v, i + 1, 0) {
        var x: nat, y: nat :| x < |P| && y < |G| && (x < i + 1 || (x == i + 1 && y < 0))
          && x < |m| && y < |m[x]| && m[x][y] == 1 && P[x] == u && G[y] == v;
        EdgeAt(m, P, G, x, y, i, |G|);
      }
    }
  }

  /** Once every cell is entered, the 1-cells are exactly the links. */
  lemma EdgeBeforeAll(links: seq<Link>, P: seq<string>, G: seq<string>, m: seq<seq<int>>)
    requires m == Incidence(links, P, G)
    requires PersonSet(links) <= Elements(P) && GroupSet(links) <= Elements(G)
    ensures forall u, v :: EdgeBefore(m, P, G, u, v, |P|, 0) <==> HasLink(links, u, v)
  {
    forall u, v ensures EdgeBefore(m, P, G, u, v, |P|, 0) <==> HasLink(links, u, v) {
      if HasLink(links, u, v) {
        var l :| l in links && |l| >= 2 && l[0] == u && l[1] == v;
        assert u in PersonSet(links) && v in GroupSet(links);
        assert u in Elements(P) && v in Elements(G);
        var x :| 0 <= x < |P| && P[x] == u;
        var y :| 0 <= y < |G| && G[y] == v;
        EdgeAt(m, P, G, x, y, |P|, 0);
      }
    }
  }

  /** The graph `_getPersonsGroupsLargestComp` builds: one edge per 1-cell
      of the person-to-group matrix, taken row by row. */
  method BipartiteGraph(links: seq<Link>, persons: seq<string>, groups: seq<string>)
    returns (g: Graph<string>)
    requires HasFields(links)
    requires StrictlySorted(persons) && Elements(persons) == PersonSet(links)
    requires StrictlySorted(groups) && Elements(groups) == GroupSet(links)
    ensures IsLinkGraph(g, links)
  {
    var m := BipartiteMatrix(links, persons, groups);
    g := map[];
    for i := 0 to |persons|
      invariant forall u, v :: Adjacent(g, u, v) <==>
        EdgeBefore(m, persons, groups, u, v, i, 0) || EdgeBefore(m, persons, groups, v, u, i, 0)
      invariant forall u :: u in g ==> g[u] != {}
    {
      for k := 0 to |groups|
        invariant forall u, v :: Adjacent(g, u, v) <==>
          EdgeBefore(m, persons, groups, u, v, i, k) || EdgeBefore(m, persons, groups, v, u, i, k)
        invariant forall u :: u in g ==> g[u] != {}
      {
        EdgeBeforeStep(m, persons, groups, i, k);
        if m[i][k] == 1 {
          g := AddEdge(g, persons[i], groups[k]);
        }
      }
      EdgeBeforeRow(m, persons, groups, i);
    }
    EdgeBeforeAll(links, persons, groups, m);
  }

  // ---- the largest component ----

  /** `C` is the component of person `j` and the first of greatest size
      when components are met in the order of their first person: the one
      `max(nx.connected_components(graph), key=len)` picks. */
  ghost predicate LargestAt(n: Network, C: set<string>, j: nat)
  {
    var g := LinkGraph(n.links);
    j < |n.persons| && C == Component(g, n.persons[j])
    && (forall t :: 0 <= t < |n.persons| ==> |Component(g, n.persons[t])| <= |C|)
    && forall t :: 0 <= t < j ==> |Component(g, n.persons[t])| < |C|
  }

  /** The largest component is well defined. */
  lemma LargestUnique(n: Network, C: set<string>, j: nat, D: set<string>, j': nat)
    requires LargestAt(n, C, j) && LargestAt(n, D, j')
    ensures C == D && j == j'
  {
  }

  /** In the two-mode graph every node is in the component of some person. */
  lemma NodeNearPerson(n: Network, g: Graph<string>, v: string) returns (t: nat)
    requires Valid(n) && IsLinkGraph(g, n.links) && v in g
    ensures t < |n.persons| && Component(g, v) == Component(g, n.persons[t])
  {
    LinkGraphUndirected(g, n.links);
    var w :| w in g[v];
    assert Adjacent(g, v, w);
    var p := if HasLink(n.links, v, w) then v else w;
    assert HasLink(n.links, p, if p == v then w else v);
    PersonHasLink(n.links, p);
    assert p in Elements(n.persons);
    t :| 0 <= t < |n.persons| && n.persons[t] == p;
    InBallInComponent(g, p, p, 0);
    if p != v {
      ComponentAdjacent(g, p, p, v);
      SameComponent(g, p, v);
    }
  }

  /** `_getPersonsGroupsLargestComp`: the nodes of the largest connected
      component of the two-mode graph. */
  method LargestComp(n: Network) returns (C: set<string>, ghost index: nat)
    requires Valid(n)
    ensures LargestAt(n, C, index)
    ensures forall v :: v in LinkGraph(n.links) ==> |Component(LinkGraph(n.links), v)| <= |C|
    ensures n.persons[index] in C
    ensures C <= Elements(n.persons) + Elements(n.groups)
  {
    NotEmpty(n);
    var g := BipartiteGraph(n.links, n.persons, n.groups);
    LinkGraphMeaning(n.links);
    LinkGraphUnique(g, LinkGraph(n.links), n.links);
    LinkGraphUndirected(g, n.links);
    C, index := LargestComponent(g, n.persons);
    forall v | v in g ensures |Component(g, v)| <= |C| {
      var t := NodeNearPerson(n, g, v);
    }
    InBallInComponent(g, n.persons[index], n.persons[index], 0);
    ComponentWithinNodes(g, n.persons[index]);
    LinkGraphNodes(g, n.links);
  }

  /** Both counts of the loop in `getLargestProportion`: the nodes of `C`
      that are persons, and those that are not persons but are groups. */
  method CountSplit(C: set<string>, P: set<string>, G: set<string>) returns (countP: nat, countG: nat)
    ensures countP == |C * P| && countG == |(C - P) * G|
  {
    countP, countG := 0, 0;
    var todo := C;
    ghost var seen: set<string> := {};
    while todo != {}
      invariant seen + todo == C && seen !! todo
      invariant countP == |seen * P| && countG == |(seen - P) * G|
      decreases |todo|
    {
      var x :| x in todo;
      TakeOne(seen, todo, x);
      CountStep(seen, x, P, G);
      if x in P {
        countP := countP + 1;
      } else if x in G {
        countG := countG + 1;
      }
      seen, todo := seen + {x}, todo - {x};
    }
  }

  /** Moving one element from `todo` to `seen` keeps their union and
      their disjointness, and shrinks `todo`. */
  lemma TakeOne(seen: set<string>, todo: set<string>, x: string)
    requires x in todo && seen !! todo
    ensures (seen + {x}) + (todo - {x}) == seen + todo
    ensures (seen + {x}) !! (todo - {x}) && x !in seen
    ensures |todo - {x}| < |todo|
  {
    assert todo == (todo - {x}) + {x};
  }

  lemma CountStep(D: set<string>, x: string, P: set<string>, G: set<string>)
    requires x !in D
    ensures |(D + {x}) * P| == |D * P| + (if x in P then 1 else 0)
    ensures |((D + {x}) - P) * G| == |(D - P) * G| + (if x !in P && x in G then 1 else 0)
  {
    if x in P {
      assert (D + {x}) * P == D * P + {x};
      assert ((D + {x}) - P) * G == (D - P) * G;
    } else {
      assert (D + {x}) * P == D * P;
      if x in G {
        assert ((D + {x}) - P) * G == (D - P) * G + {x};
      } else {
        assert ((D + {x}) - P) * G == (D - P) * G;
      }
    }
  }

  /** `getLargestProportion`: the shares of persons and of groups that lie in
      the largest component. A group whose name is also a person's is
      counted as the person. */
  method LargestProportion(n: Network) returns (r: seq<real>, ghost C: set<string>, ghost index: nat)
    requires Valid(n)
    ensures LargestAt(n, C, index)
    ensures |n.persons| > 0 && |n.groups| > 0 && |r| == 2
    ensures r[0] == |C * Elements(n.persons)| as real / |n.persons| as real
    ensures r[1] == |(C - Elements(n.persons)) * Elements(n.groups)| as real / |n.groups| as real
    ensures 0.0 < r[0] <= 1.0 && 0.0 <= r[1] <= 1.0
    ensures r == [1.0, 1.0] <==>
      Elements(n.persons) + Elements(n.groups) <= C && Elements(n.persons) !! Elements(n.groups)
  {
    var largest;
    largest, index := LargestComp(n);
    C := largest;
    var P, G := Elements(n.persons), Elements(n.groups);
    var countP, countG := CountSplit(largest, P, G);
    NotEmpty(n);
    r := [countP as real / |n.persons| as real, countG as real / |n.groups| as real];
    ProportionFacts(n.persons, n.groups, largest, index, r);
  }

  lemma ProportionFacts(persons: seq<string>, groups: seq<string>, C: set<string>, index: nat,
                        r: seq<real>)
    requires StrictlySorted(persons) && StrictlySorted(groups) && |groups| > 0
    requires index < |persons| && persons[index] in C
    requires r == [|C * Elements(persons)| as real / |persons| as real,
                   |(C - Elements(persons)) * Elements(groups)| as real / |groups| as real]
    ensures 0.0 < r[0] <= 1.0 && 0.0 <= r[1] <= 1.0
    ensures r == [1.0, 1.0] <==>
      Elements(persons) + Elements(groups) <= C && Elements(persons) !! Elements(groups)
  {
    var P, G := Elements(persons), Elements(groups);
    SortedNoRepeats(persons);
    SortedNoRepeats(groups);
    ElementsCount(persons);
    ElementsCount(groups);
    assert persons[index] in C * P;
    ShareOfSet(C * P, P, |persons|);
    ShareOfSet((C - P) * G, G, |groups|);
    assert C * P == P <==> P <= C;
    assert (C - P) * G == G <==> G <= C && P !! G;
  }

  /** The share of a set that a part of it makes up is a proportion, and is
      1 exactly when the part is the whole. */
  lemma ShareOfSet(X: set<string>, S: set<string>, size: nat)
    requires X <= S && |S| == size && 0 < size
    ensures 0.0 <= |X| as real / size as real <= 1.0
    ensures X != {} ==> 0.0 < |X| as real / size as real
    ensures |X| as real / size as real == 1.0 <==> X == S
  {
    CardinalityOfSubset(X, S);
    if X != S {
      ProperSubsetSmaller(X, S);
    }
    RatioAtMostOne(|X|, size);
    RatioIsOne(|X|, size);
    var q := |X| as real / size as real;
    assert q * size as real == |X| as real;
  }

  // ---- the largest component as a network ----

  /** A link `largestComponentToNetwork` keeps: exactly a `[person, group]`
      pair of `n`, the person a node of `C`, the group a node of `C` that
      is not a person. */
  predicate Kept(n: Network, C: set<string>, l: Link)
  {
    l in n.links && |l| == 2
    && l[0] in C && l[0] in Elements(n.persons)
    && l[1] in C && l[1] !in Elements(n.persons)
  }

  /** The first loop of `largestComponentToNetwork`: the nodes of `C`
      that are persons, and the rest, in some order. */
  method SplitNodes(C: set<string>, P: set<string>) returns (persons: seq<string>, others: seq<string>)
    ensures Elements(persons) == C * P && Elements(others) == C - P
  {
    persons, others := [], [];
    var todo := C;
    ghost var seen: set<string> := {};
    while todo != {}
      invariant seen + todo == C && seen !! todo
      invariant Elements(persons) == seen * P && Elements(others) == seen - P
      decreases |todo|
    {
      var x :| x in todo;
      TakeOne(seen, todo, x);
      SplitStep(seen, x, P, persons, others);
      if x in P {
        persons := persons + [x];
      } else {
        others := others + [x];
      }
      seen, todo := seen + {x}, todo - {x};
    }
  }

  lemma SplitStep(seen: set<string>, x: string, P: set<string>, persons: seq<string>, others: seq<string>)
    requires Elements(persons) == seen * P && Elements(others) == seen - P
    ensures x in P ==>
      Elements(persons + [x]) == (seen + {x}) * P && Elements(others) == (seen + {x}) - P
    ensures x !in P ==>
      Elements(persons) == (seen + {x}) * P && Elements(others + [x]) == (seen + {x}) - P
  {
    ElementsAppend(persons, x);
    ElementsAppend(others, x);
  }

  /** The second loop: every pair `[p, g]` of the two lists that is a link. */
  method PairLinks(links: seq<Link>, persons: seq<string>, groups: seq<string>) returns (edges: seq<Link>)
    ensures forall l :: l in edges ==> |l| == 2
    ensures forall l :: l in edges <==>
      l in links && |l| == 2 && l[0] in persons && l[1] in groups
  {
    edges := [];
    for a := 0 to |persons|
      invariant forall l :: l in edges ==> |l| == 2
      invariant forall l :: l in edges <==>
        l in links && |l| == 2 && l[0] in persons[..a] && l[1] in groups
    {
      for b := 0 to |groups|
        invariant forall l :: l in edges ==> |l| == 2
        invariant forall l :: l in edges <==>
          l in links && |l| == 2 && l[1] in groups
          && (l[0] in persons[..a] || (l[0] == persons[a] && l[1] in groups[..b]))
      {
        var l: Link := [persons[a], groups[b]];
        assert groups[..b + 1] == groups[..b] + [groups[b]];
        forall e: Link | |e| == 2 && e[0] == persons[a] && e[1] == groups[b] ensures e == l {
          assert e == [e[0], e[1]];
        }
        if l in links {
          edges := edges + [l];
        }
      }
      assert groups[..|groups|] == groups;
      assert persons[..a + 1] == persons[..a] + [persons[a]];
    }
    assert persons[..|persons|] == persons;
  }

  /** `largestComponentToNetwork`: the network of the links inside the
      largest component. It has no links, and the constructor raises, when
      no link of `n` is a bare pair inside the component. */
  method LargestComponentToNetwork(n: Network) returns (r: Result<Network>, ghost C: set<string>)
    requires Valid(n)
    ensures exists j :: LargestAt(n, C, j)
    ensures r.Err? <==> forall l :: !Kept(n, C, l)
    ensures r.Err? ==> r.error == NoEdges
    ensures r.Ok? ==> Valid(r.value) && PairsOnly(r.value.links)
    ensures r.Ok? ==> forall l :: l in r.value.links <==> Kept(n, C, l)
  {
    var largest;
    ghost var index;
    largest, index := LargestComp(n);
    C := largest;
    var persons, groups := SplitNodes(largest, Elements(n.persons));
    var edges := PairLinks(n.links, persons, groups);
    KeptEdges(n, largest, persons, groups, edges);
    EdgesIffKept(n, largest, edges);
    r := Build(edges);
  }

  lemma KeptEdges(n: Network, C: set<string>, persons: seq<string>, groups: seq<string>, edges: seq<Link>)
    requires Elements(persons) == C * Elements(n.persons) && Elements(groups) == C - Elements(n.persons)
    requires forall l :: l in edges <==> l in n.links && |l| == 2 && l[0] in persons && l[1] in groups
    ensures forall l :: l in edges <==> Kept(n, C, l)
  {
    forall l ensures l in edges <==> Kept(n, C, l) {
      if |l| == 2 {
        assert l[0] in persons <==> l[0] in Elements(persons);
        assert l[1] in groups <==> l[1] in Elements(groups);
      }
    }
  }

  lemma EdgesIffKept(n: Network, C: set<string>, edges: seq<Link>)
    requires forall l :: l in edges <==> Kept(n, C, l)
    ensures HasFields(edges)
    ensures |edges| == 0 <==> forall l :: !Kept(n, C, l)
  {
    assert forall t :: 0 <= t < |edges| ==> edges[t] in edges;
    if |edges| > 0 {
      assert Kept(n, C, edges[0]);
    }
  }

  /** In a connected network of bare `[person, group]` pairs where no group
      is named like a person, the network rebuilt from the largest component
      has the same persons, groups, matrices and projection. */
  lemma ConnectedRoundTrip(n: Network, m: Network, C: set<string>)
    requires Valid(n) && Valid(m) && PairsOnly(n.links)
    requires Elements(n.persons) + Elements(n.groups) <= C
    requires Elements(n.persons) !! Elements(n.groups)
    requires forall l :: l in m.links <==> Kept(n, C, l)
    ensures m.persons == n.persons && m.groups == n.groups
    ensures PersonToGroup(m) == PersonToGroup(n) && BinPersonToPerson(m) == BinPersonToPerson(n)
    ensures m.projection == n.projection
  {
    forall l | l in n.links ensures Kept(n, C, l) {
      var t :| 0 <= t < |n.links| && n.links[t] == l;
      assert l[0] in PersonSet(n.links) && l[1] in GroupSet(n.links);
    }
    SameLinksSameNetwork(n, m);
  }
}

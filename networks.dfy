/** A two-mode (person-to-group) network as `Network.__init__` builds it
    from a list of `[person, group]` edges: the links, the sorted persons
    and groups, and the binary person-to-person projection. */
module Networks {
  import opened StringOrder
  import opened Matrices
  import opened Graphs
  import opened Links

  /** Why an operation raises instead of returning. */
  datatype Error =
    | NoEdges                 // the constructor was given an empty list
    | MissingField(index: nat) // link `index` has no group field (IndexError)
    | ZeroDivision            // a ratio over zero persons, nodes or pairs

  datatype Result<T> = Ok(value: T) | Err(error: Error)

  /** The fields `__init__` sets. The projection `_network` is keyed by the
      position of each person in `persons` (the names are distinct). */
  datatype Network = Network(links: seq<Link>, persons: seq<string>, groups: seq<string>,
                             projection: Graph<nat>)

  /** `getPersonToGroupMatrix`. */
  function PersonToGroup(n: Network): (m: seq<seq<int>>)
    ensures IsMatrix(m, |n.persons|, |n.groups|) && IsBinary(m)
  {
    Incidence(n.links, n.persons, n.groups)
  }

  /** `getPersonToPerson`: the co-membership matrix M·Mᵀ. */
  function PersonToPerson(n: Network): (p: seq<seq<int>>)
    ensures IsSquare(p) && |p| == |n.persons|
  {
    TimesTranspose(PersonToGroup(n), |n.groups|)
  }

  /** `getBinPersonToPerson`: 1 where co-membership is positive, else 0. */
  function BinPersonToPerson(n: Network): (b: seq<seq<int>>)
    ensures IsSquare(b) && |b| == |n.persons| && IsBinary(b)
  {
    Threshold(PersonToPerson(n))
  }

  /** Two distinct persons whose binary entry is 1. */
  predicate Linked(b: seq<seq<int>>, i: nat, k: nat)
    requires IsSquare(b)
  {
    i != k && i < |b| && k < |b| && b[i][k] == 1
  }

  /** `g` holds the edge `{i, k}` exactly when `b` links `i` and `k`, and a
      node only together with an edge. */
  ghost predicate IsProjection(g: Graph<nat>, b: seq<seq<int>>)
    requires IsSquare(b)
  {
    (forall i: nat, k: nat :: Adjacent(g, i, k) <==> Linked(b, i, k) || Linked(b, k, i))
    && (forall i :: i in g ==> g[i] != {})
  }

  /** What `__init__` establishes. */
  ghost predicate Valid(n: Network)
  {
    |n.links| > 0 && HasFields(n.links)
    && StrictlySorted(n.persons) && Elements(n.persons) == PersonSet(n.links)
    && StrictlySorted(n.groups) && Elements(n.groups) == GroupSet(n.links)
    && IsProjection(n.projection, BinPersonToPerson(n))
  }

  /** The groups both `p` and `q` belong to. */
  function SharedGroups(n: Network, p: string, q: string): set<string>
  {
    GroupsOf(n, p) * GroupsOf(n, q)
  }

  /** The groups `p` belongs to. */
  function GroupsOf(n: Network, p: string): set<string>
  {
    set g | g in n.groups && HasLink(n.links, p, g)
  }

  // ---- construction ----

  predicate LinkedBefore(b: seq<seq<int>>, x: nat, y: nat, i: nat, k: nat)
    requires IsSquare(b)
  {
    Linked(b, x, y) && (x < i || (x == i && y < k))
  }

  lemma LinkedBeforeStep(b: seq<seq<int>>, i: nat, k: nat)
    requires IsSquare(b)
    ensures forall x: nat, y: nat :: LinkedBefore(b, x, y, i, k + 1) <==>
      LinkedBefore(b, x, y, i, k) || (x == i && y == k && Linked(b, x, y))
  {
  }

  /** The loop at the end of `__init__`: add the edge `{i, k}` for every
      `i != k` whose binary entry is 1. */
  method ProjectedGraph(b: seq<seq<int>>) returns (g: Graph<nat>)
    requires IsSquare(b)
    ensures IsProjection(g, b)
  {
    g := map[];
    for i := 0 to |b|
      invariant forall x: nat, y: nat :: Adjacent(g, x, y) <==>
        LinkedBefore(b, x, y, i, 0) || LinkedBefore(b, y, x, i, 0)
      invariant forall x :: x in g ==> g[x] != {}
    {
      for k := 0 to |b|
        invariant forall x: nat, y: nat :: Adjacent(g, x, y) <==>
          LinkedBefore(b, x, y, i, k) || LinkedBefore(b, y, x, i, k)
        invariant forall x :: x in g ==> g[x] != {}
      {
        LinkedBeforeStep(b, i, k);
        if i != k && b[i][k] == 1 {
          ghost var g0 := g;
          g := AddEdge(g, i, k);
          assert Linked(b, i, k);
          assert forall x: nat, y: nat :: Adjacent(g, x, y) <==>
            Adjacent(g0, x, y) || (x == i && y == k) || (x == k && y == i);
        } else {
          assert !Linked(b, i, k);
        }
      }
    }
  }

  /** `Network(edges)` for a list of edges: an empty list raises; a link
      without a group field raises at the first such link; otherwise the
      persons and groups are the sorted distinct first and second fields and
      the projection joins persons who share a group. */
  method Build(edges: seq<Link>) returns (r: Result<Network>)
    ensures r.Ok? <==> |edges| > 0 && HasFields(edges)
    ensures |edges| == 0 ==> r == Err(NoEdges)
    ensures |edges| > 0 && r.Err? ==>
      r.error.MissingField? && r.error.index < |edges| &&
      |edges[r.error.index]| < 2 && HasFields(edges[..r.error.index])
    ensures r.Ok? ==> Valid(r.value) && r.value.links == edges
  {
    if |edges| == 0 {
      return Err(NoEdges);
    }
    var persons: set<string>, groups: set<string> := {}, {};
    for t := 0 to |edges|
      invariant HasFields(edges[..t])
      invariant persons == PersonSet(edges[..t]) && groups == GroupSet(edges[..t])
    {
      if |edges[t]| < 2 {
        return Err(MissingField(t));
      }
      LinksExtend(edges, t);
      persons := persons + {edges[t][0]};
      groups := groups + {edges[t][1]};
    }
    assert edges[..|edges|] == edges;
    var personList := SortedList(persons);
    var groupList := SortedList(groups);
    var m := BipartiteMatrix(edges, personList, groupList);
    var b := Threshold(TimesTranspose(m, |groupList|));
    var g := ProjectedGraph(b);
    r := Ok(Network(edges, personList, groupList, g));
  }

  /** A network has at least one person and one group. */
  lemma NotEmpty(n: Network)
    requires Valid(n)
    ensures |n.persons| > 0 && |n.groups| > 0
  {
    var l := n.links[0];
    assert l in n.links && |l| >= 2;
    assert l[0] in Elements(n.persons) && l[1] in Elements(n.groups);
  }

  // ---- the matrices ----

  /** The co-membership matrix is symmetric. */
  lemma CoMembershipSymmetric(n: Network)
    ensures Symmetric(PersonToPerson(n))
  {
    var m, p := PersonToGroup(n), PersonToPerson(n);
    forall i, k | 0 <= i < |p| && 0 <= k < |p| ensures p[i][k] == p[k][i] {
      DotCommutes(m[i], m[k]);
    }
  }

  /** Extending a list without repeats by one element adds that element to
      its intersection with `D` when it is in `D`. */
  lemma ListedStep(gs: seq<string>, D: set<string>)
    requires NoRepeats(gs) && |gs| > 0
    ensures |Elements(gs) * D| == |Elements(gs[..|gs| - 1]) * D| +
      (if gs[|gs| - 1] in D then 1 else 0)
  {
    var j := |gs| - 1;
    var gs', x := gs[..j], gs[j];
    assert gs == gs' + [x];
    forall t | 0 <= t < j ensures gs'[t] != x {
      assert gs[t] != gs[j];
    }
    assert Elements(gs) == Elements(gs') + {x};
    var S, S' := Elements(gs') * D, Elements(gs) * D;
    if x in D {
      assert S' == S + {x};
    } else {
      assert S' == S;
    }
  }

  /** The dot product of the 0/1 marks of `A` and `B` along a list without
      repeats counts the listed elements of both sets. */
  lemma {:induction false} DotCountsCommon(gs: seq<string>, A: set<string>, B: set<string>,
                                           a: seq<int>, c: seq<int>)
    requires NoRepeats(gs) && |a| == |gs| && |c| == |gs|
    requires forall t :: 0 <= t < |gs| ==> a[t] == if gs[t] in A then 1 else 0
    requires forall t :: 0 <= t < |gs| ==> c[t] == if gs[t] in B then 1 else 0
    ensures Dot(a, c) == |Elements(gs) * (A * B)|
  {
    if |gs| > 0 {
      var j := |gs| - 1;
      var gs', a', c' := gs[..j], a[..j], c[..j];
      assert NoRepeats(gs');
      DotCountsCommon(gs', A, B, a', c');
      ListedStep(gs, A * B);
      if gs[j] in A && gs[j] in B {
        assert a[j] * c[j] == 1;
      } else {
        assert a[j] * c[j] == 0;
      }
    }
  }

  /** Entry `(i, k)` of the co-membership matrix counts the groups persons
      `i` and `k` share. */
  lemma CoMembershipCountsShared(n: Network, i: nat, k: nat)
    requires StrictlySorted(n.groups) && i < |n.persons| && k < |n.persons|
    ensures PersonToPerson(n)[i][k] == |SharedGroups(n, n.persons[i], n.persons[k])|
  {
    var m := PersonToGroup(n);
    var A, B := GroupsOf(n, n.persons[i]), GroupsOf(n, n.persons[k]);
    SortedNoRepeats(n.groups);
    DotCountsCommon(n.groups, A, B, m[i], m[k]);
    assert Elements(n.groups) * (A * B) == SharedGroups(n, n.persons[i], n.persons[k]);
  }

  /** The diagonal entry `(i, i)` is the number of groups of person `i`. */
  lemma DiagonalCountsGroups(n: Network, i: nat)
    requires StrictlySorted(n.groups) && i < |n.persons|
    ensures PersonToPerson(n)[i][i] == |GroupsOf(n, n.persons[i])|
  {
    CoMembershipCountsShared(n, i, i);
    assert SharedGroups(n, n.persons[i], n.persons[i]) == GroupsOf(n, n.persons[i]);
  }

  /** Every person of a network belongs to some group. */
  lemma EveryPersonInAGroup(n: Network, i: nat)
    requires Valid(n) && i < |n.persons|
    ensures PersonToPerson(n)[i][i] >= 1
  {
    var p := n.persons[i];
    assert p in Elements(n.persons);
    var l :| l in n.links && |l| >= 2 && l[0] == p;
    assert l[1] in GroupSet(n.links);
    assert HasLink(n.links, p, l[1]) && l[1] in GroupsOf(n, p);
    DiagonalCountsGroups(n, i);
  }

  /** The binary entry is 1 exactly when the two persons share a group. */
  lemma BinaryMeansShared(n: Network, i: nat, k: nat)
    requires StrictlySorted(n.groups) && i < |n.persons| && k < |n.persons|
    ensures BinPersonToPerson(n)[i][k] == 1 <==> SharedGroups(n, n.persons[i], n.persons[k]) != {}
  {
    CoMembershipCountsShared(n, i, k);
  }

  /** The binary matrix is symmetric and its diagonal is all 1. */
  lemma BinarySymmetricDiagonal(n: Network)
    requires Valid(n)
    ensures Symmetric(BinPersonToPerson(n))
    ensures forall i :: 0 <= i < |n.persons| ==> BinPersonToPerson(n)[i][i] == 1
  {
    CoMembershipSymmetric(n);
    forall i | 0 <= i < |n.persons| ensures BinPersonToPerson(n)[i][i] == 1 {
      EveryPersonInAGroup(n, i);
    }
  }

  // ---- the projection ----

  /** Two distinct persons are adjacent in the projection exactly when they
      share a group; the projection is undirected. */
  lemma ProjectionMeaning(n: Network, i: nat, k: nat)
    requires Valid(n)
    ensures Adjacent(n.projection, i, k) <==>
      i != k && i < |n.persons| && k < |n.persons| &&
      SharedGroups(n, n.persons[i], n.persons[k]) != {}
  {
    if i < |n.persons| && k < |n.persons| {
      BinaryMeansShared(n, i, k);
      BinaryMeansShared(n, k, i);
      assert SharedGroups(n, n.persons[i], n.persons[k]) == SharedGroups(n, n.persons[k], n.persons[i]);
    }
  }

  lemma ProjectionUndirected(n: Network)
    requires Valid(n)
    ensures Undirected(n.projection) && Closed(n.projection)
    ensures forall i :: i in n.projection ==> i < |n.persons|
  {
    var g, b := n.projection, BinPersonToPerson(n);
    assert IsProjection(g, b);
    forall u, v | Adjacent(g, u, v) ensures Adjacent(g, v, u) {
      assert Linked(b, u, v) || Linked(b, v, u);
    }
    forall i | i in g ensures i < |n.persons| {
      var k :| k in g[i];
      assert Adjacent(g, i, k);
      assert Linked(b, i, k) || Linked(b, k, i);
    }
    UndirectedIsClosed(g);
  }

  /** The shape of the projection the statistics rely on. */
  lemma ProjectionFacts(n: Network) returns (g: Graph<nat>, b: seq<seq<int>>)
    requires Valid(n)
    ensures g == n.projection && b == BinPersonToPerson(n)
    ensures IsSquare(b) && |b| == |n.persons| && IsBinary(b) && Symmetric(b)
    ensures IsProjection(g, b) && Undirected(g) && Closed(g)
    ensures forall i :: i in g ==> i < |b|
  {
    g, b := n.projection, BinPersonToPerson(n);
    BinarySymmetricDiagonal(n);
    ProjectionUndirected(n);
  }

  /** A person is a node of the projection exactly when they share some group
      with another person. */
  lemma ProjectionNodes(n: Network, i: nat)
    requires Valid(n)
    ensures i in n.projection <==>
      exists k: nat :: i != k && i < |n.persons| && k < |n.persons| &&
        SharedGroups(n, n.persons[i], n.persons[k]) != {}
  {
    var g := n.projection;
    if i in g {
      var k :| k in g[i];
      assert Adjacent(g, i, k);
      ProjectionMeaning(n, i, k);
    }
    if exists k: nat :: i != k && i < |n.persons| && k < |n.persons| &&
        SharedGroups(n, n.persons[i], n.persons[k]) != {} {
      var k: nat :| i != k && i < |n.persons| && k < |n.persons| &&
        SharedGroups(n, n.persons[i], n.persons[k]) != {};
      ProjectionMeaning(n, i, k);
    }
  }

  /** A binary matrix determines its projection. */
  lemma ProjectionDetermined(g: Graph<nat>, h: Graph<nat>, b: seq<seq<int>>)
    requires IsSquare(b) && IsProjection(g, b) && IsProjection(h, b)
    ensures g == h
  {
    forall i | i in g ensures i in h {
      var k :| k in g[i];
      assert Adjacent(g, i, k);
    }
    forall i | i in h ensures i in g {
      var k :| k in h[i];
      assert Adjacent(h, i, k);
    }
    forall i | i in g ensures g[i] == h[i] {
      forall k ensures k in g[i] <==> k in h[i] {
        assert Adjacent(g, i, k) <==> Adjacent(h, i, k);
      }
    }
  }

  /** A network is determined by the set of its links: two networks built
      from the same links, in any order and with any repeats, have the same
      persons, groups, matrices and projection. */
  lemma SameLinksSameNetwork(n: Network, m: Network)
    requires Valid(n) && Valid(m)
    requires forall l :: l in n.links <==> l in m.links
    ensures n.persons == m.persons && n.groups == m.groups
    ensures PersonToGroup(n) == PersonToGroup(m) && BinPersonToPerson(n) == BinPersonToPerson(m)
    ensures n.projection == m.projection
  {
    SameLinkSet(n.links, m.links);
    SortedUnique(n.persons, m.persons);
    SortedUnique(n.groups, m.groups);
    SameIncidence(n.links, m.links, n.persons, n.groups);
    var b := BinPersonToPerson(n);
    ProjectionDetermined(n.projection, m.projection, b);
  }
}

/** `Network.__eq__`: as written it compares the other network's persons
    but this network's groups and matrix with themselves; the comparison
    its comment describes checks persons, groups and the person-to-group
    matrix of both. */
module Equality {
  import opened StringOrder
  import opened Matrices
  import opened Graphs
  import opened Links
  import opened Networks

  /** `__eq__` as written: the second and third tests compare `self` with
      `self`. */
  predicate EqualAsWritten(a: Network, b: Network)
  {
    a.persons == b.persons && a.groups == a.groups && PersonToGroup(a) == PersonToGroup(a)
  }

  /** The tests that compare a network with itself always pass, so the
      written equality is equality of the person lists. */
  lemma AsWrittenComparesPersons(a: Network, b: Network)
    ensures EqualAsWritten(a, b) <==> a.persons == b.persons
  {
  }

  /** A network with the single link `[p, g]`. */
  function Single(p: string, g: string): Network
  {
    Network([[p, g]], [p], [g], map[])
  }

  lemma SingleValid(p: string, g: string)
    ensures Valid(Single(p, g))
  {
    var n := Single(p, g);
    assert [p, g] in n.links;
    assert PersonSet(n.links) == {p};
    assert GroupSet(n.links) == {g};
    assert Elements([p]) == {p};
    assert Elements([g]) == {g};
  }

  /** `Network([['A','G1']]) == Network([['A','G2']])` holds as written,
      although the two networks have different groups. */
  lemma AsWrittenIgnoresGroups()
    ensures Valid(Single("A", "G1")) && Valid(Single("A", "G2"))
    ensures EqualAsWritten(Single("A", "G1"), Single("A", "G2"))
    ensures Single("A", "G1").groups != Single("A", "G2").groups
  {
    SingleValid("A", "G1");
    SingleValid("A", "G2");
  }

  /** `__eq__` as its comment describes it: same persons, same groups and
      the same person-to-group matrix. */
  predicate Equal(a: Network, b: Network)
  {
    a.persons == b.persons && a.groups == b.groups && PersonToGroup(a) == PersonToGroup(b)
  }

  /** The same person-group memberships, whatever the order, repeats or
      extra fields of the links. */
  ghost predicate SameMemberships(a: seq<Link>, b: seq<Link>)
  {
    forall p, g :: HasLink(a, p, g) <==> HasLink(b, p, g)
  }

  /** Two networks are equal exactly when their links record the same
      memberships. */
  lemma EqualIffSameMemberships(a: Network, b: Network)
    requires Valid(a) && Valid(b)
    ensures Equal(a, b) <==> SameMemberships(a.links, b.links)
  {
    if Equal(a, b) {
      forall p, g | HasLink(a.links, p, g) ensures HasLink(b.links, p, g) {
        MembershipCell(a, p, g);
        MembershipCell(b, p, g);
      }
      forall p, g | HasLink(b.links, p, g) ensures HasLink(a.links, p, g) {
        MembershipCell(a, p, g);
        MembershipCell(b, p, g);
      }
    }
    if SameMemberships(a.links, b.links) {
      forall p ensures p in PersonSet(a.links) <==> p in PersonSet(b.links) {
        PersonHasLink(a.links, p);
        PersonHasLink(b.links, p);
      }
      forall g ensures g in GroupSet(a.links) <==> g in GroupSet(b.links) {
        GroupHasLink(a.links, g);
        GroupHasLink(b.links, g);
      }
      SortedUnique(a.persons, b.persons);
      SortedUnique(a.groups, b.groups);
      SameIncidence(a.links, b.links, a.persons, a.groups);
    }
  }

  /** A membership of a network is a 1-cell of its matrix. */
  lemma MembershipCell(n: Network, p: string, g: string)
    requires Valid(n)
    ensures HasLink(n.links, p, g) <==>
      exists i, j :: 0 <= i < |n.persons| && 0 <= j < |n.groups| &&
        n.persons[i] == p && n.groups[j] == g && PersonToGroup(n)[i][j] == 1
  {
    if HasLink(n.links, p, g) {
      var l :| l in n.links && |l| >= 2 && l[0] == p && l[1] == g;
      assert p in PersonSet(n.links) && g in GroupSet(n.links);
      assert p in Elements(n.persons) && g in Elements(n.groups);
      var i :| 0 <= i < |n.persons| && n.persons[i] == p;
      var j :| 0 <= j < |n.groups| && n.groups[j] == g;
      assert PersonToGroup(n)[i][j] == 1;
    }
  }

  /** Equal networks have the same projection. */
  lemma EqualSameProjection(a: Network, b: Network)
    requires Valid(a) && Valid(b) && Equal(a, b)
    ensures BinPersonToPerson(a) == BinPersonToPerson(b) && a.projection == b.projection
  {
    ProjectionDetermined(a.projection, b.projection, BinPersonToPerson(a));
  }
}

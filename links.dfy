/** The raw edge list of a two-mode network and the person-to-group
    incidence matrix drawn from it (`_getBipartiteGraph`). */
module Links {
  import opened StringOrder
  import opened Matrices

  /** One edge as read: a list of fields; the first names a person, the
      second a group. */
  type Link = seq<string>

  /** Every link has a person and a group field. */
  predicate HasFields(links: seq<Link>)
  {
    forall t :: 0 <= t < |links| ==> |links[t]| >= 2
  }

  /** The names in the first field of some link. */
  function PersonSet(links: seq<Link>): set<string>
  {
    set l | l in links && |l| >= 2 :: l[0]
  }

  /** The names in the second field of some link. */
  function GroupSet(links: seq<Link>): set<string>
  {
    set l | l in links && |l| >= 2 :: l[1]
  }

  /** Some link puts person `p` in group `g`. */
  predicate HasLink(links: seq<Link>, p: string, g: string)
  {
    exists l :: l in links && |l| >= 2 && l[0] == p && l[1] == g
  }

  /** Every link is exactly a `[person, group]` pair. */
  predicate PairsOnly(links: seq<Link>)
  {
    forall t :: 0 <= t < |links| ==> |links[t]| == 2
  }

  lemma LinksExtend(links: seq<Link>, t: nat)
    requires t < |links|
    ensures PersonSet(links[..t + 1]) ==
      PersonSet(links[..t]) + (if |links[t]| >= 2 then {links[t][0]} else {})
    ensures GroupSet(links[..t + 1]) ==
      GroupSet(links[..t]) + (if |links[t]| >= 2 then {links[t][1]} else {})
    ensures forall p, g :: HasLink(links[..t + 1], p, g) <==>
      HasLink(links[..t], p, g) || (|links[t]| >= 2 && links[t][0] == p && links[t][1] == g)
  {
    var prefix, next := links[..t], links[..t + 1];
    assert next == prefix + [links[t]];
    forall p, g ensures HasLink(next, p, g) <==>
      HasLink(prefix, p, g) || (|links[t]| >= 2 && links[t][0] == p && links[t][1] == g)
    {
      if HasLink(next, p, g) {
        var l :| l in next && |l| >= 2 && l[0] == p && l[1] == g;
        assert l in prefix || l == links[t];
      }
      if |links[t]| >= 2 && links[t][0] == p && links[t][1] == g {
        assert links[t] in next;
      }
      if HasLink(prefix, p, g) {
        var l :| l in prefix && |l| >= 2 && l[0] == p && l[1] == g;
        assert l in next;
      }
    }
  }

  /** A name is a person exactly when some link puts it in a group. */
  lemma PersonHasLink(links: seq<Link>, p: string)
    ensures p in PersonSet(links) <==> exists g :: HasLink(links, p, g)
  {
    if p in PersonSet(links) {
      var l :| l in links && |l| >= 2 && l[0] == p;
      assert HasLink(links, p, l[1]);
    }
  }

  /** A name is a group exactly when some link puts a person in it. */
  lemma GroupHasLink(links: seq<Link>, g: string)
    ensures g in GroupSet(links) <==> exists p :: HasLink(links, p, g)
  {
    if g in GroupSet(links) {
      var l :| l in links && |l| >= 2 && l[1] == g;
      assert HasLink(links, l[0], g);
    }
  }

  /** The 0/1 person-by-group matrix: cell `(i, j)` is 1 exactly when some
      link puts `persons[i]` in `groups[j]`. */
  function Incidence(links: seq<Link>, persons: seq<string>, groups: seq<string>): (m: seq<seq<int>>)
    ensures IsMatrix(m, |persons|, |groups|) && IsBinary(m)
    ensures forall i, j :: 0 <= i < |persons| && 0 <= j < |groups| ==>
      (m[i][j] == 1 <==> HasLink(links, persons[i], groups[j]))
  {
    seq(|persons|, i requires 0 <= i < |persons| =>
      seq(|groups|, j requires 0 <= j < |groups| =>
        if HasLink(links, persons[i], groups[j]) then 1 else 0))
  }

  /** `persons.index(x)`: the first position of `x`. */
  method IndexOf(s: seq<string>, x: string) returns (i: nat)
    requires x in s
    ensures i < |s| && s[i] == x
    ensures forall j :: 0 <= j < i ==> s[j] != x
  {
    i := 0;
    while s[i] != x
      invariant i < |s| && x in s[i..]
      invariant forall j :: 0 <= j < i ==> s[j] != x
      decreases |s| - i
    {
      assert s[i..] == [s[i]] + s[i + 1..];
      i := i + 1;
    }
  }

  /** The cell `(i, j)` after the first `t` links have been entered. */
  predicate CellAfter(links: seq<Link>, persons: seq<string>, groups: seq<string>,
                      m: seq<seq<int>>, t: nat)
    requires t <= |links| && IsMatrix(m, |persons|, |groups|)
  {
    forall i, j :: 0 <= i < |persons| && 0 <= j < |groups| ==>
      m[i][j] == if HasLink(links[..t], persons[i], groups[j]) then 1 else 0
  }

  /** `_getBipartiteGraph`: start from a zero matrix and set the cell of every
      link's person row and group column to 1. */
  method BipartiteMatrix(links: seq<Link>, persons: seq<string>, groups: seq<string>)
    returns (m: seq<seq<int>>)
    requires HasFields(links)
    requires StrictlySorted(persons) && StrictlySorted(groups)
    requires PersonSet(links) <= Elements(persons) && GroupSet(links) <= Elements(groups)
    ensures m == Incidence(links, persons, groups)
  {
    m := seq(|persons|, i => seq(|groups|, j => 0));
    for t := 0 to |links|
      invariant IsMatrix(m, |persons|, |groups|)
      invariant CellAfter(links, persons, groups, m, t)
    {
      var link := links[t];
      assert link in links;
      assert link[0] in PersonSet(links) && link[0] in Elements(persons);
      assert link[1] in GroupSet(links) && link[1] in Elements(groups);
      var row := IndexOf(persons, link[0]);
      var col := IndexOf(groups, link[1]);
      m := m[row := m[row][col := 1]];
      EnterLink(links, persons, groups, m, t, row, col);
    }
    assert links[..|links|] == links;
    var spec := Incidence(links, persons, groups);
    assert forall i :: 0 <= i < |persons| ==> m[i] == spec[i];
  }

  lemma EnterLink(links: seq<Link>, persons: seq<string>, groups: seq<string>,
                  m: seq<seq<int>>, t: nat, row: nat, col: nat)
    requires t < |links| && |links[t]| >= 2
    requires StrictlySorted(persons) && StrictlySorted(groups)
    requires row < |persons| && persons[row] == links[t][0]
    requires col < |groups| && groups[col] == links[t][1]
    requires IsMatrix(m, |persons|, |groups|) && m[row][col] == 1
    requires forall i, j :: 0 <= i < |persons| && 0 <= j < |groups| && (i != row || j != col) ==>
      m[i][j] == if HasLink(links[..t], persons[i], groups[j]) then 1 else 0
    ensures CellAfter(links, persons, groups, m, t + 1)
  {
    LinksExtend(links, t);
    forall i, j | 0 <= i < |persons| && 0 <= j < |groups| && (i != row || j != col)
      ensures !(persons[i] == links[t][0] && groups[j] == links[t][1])
    {
      if i != row { StrictlySortedDistinct(persons, i, row); }
      if j != col { StrictlySortedDistinct(groups, j, col); }
    }
  }

  /** Only which links occur matters, not their order or repeats. */
  lemma SameLinkSet(a: seq<Link>, b: seq<Link>)
    requires forall l :: l in a <==> l in b
    ensures PersonSet(a) == PersonSet(b) && GroupSet(a) == GroupSet(b)
    ensures forall p, g :: HasLink(a, p, g) <==> HasLink(b, p, g)
  {
  }

  /** Equal link sets give equal incidence matrices. */
  lemma SameIncidence(a: seq<Link>, b: seq<Link>, persons: seq<string>, groups: seq<string>)
    requires forall p, g :: HasLink(a, p, g) <==> HasLink(b, p, g)
    ensures Incidence(a, persons, groups) == Incidence(b, persons, groups)
  {
    var m, m' := Incidence(a, persons, groups), Incidence(b, persons, groups);
    forall i | 0 <= i < |persons| ensures m[i] == m'[i] {
      forall j | 0 <= j < |groups| ensures m[i][j] == m'[i][j] {
        assert HasLink(a, persons[i], groups[j]) <==> HasLink(b, persons[i], groups[j]);
      }
    }
  }
}

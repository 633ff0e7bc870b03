/** The ordering Python uses for `list.sort()` on strings (lexicographic by
    code point, a proper prefix sorting first), and sorted, duplicate-free
    lists built from a set of identifiers. */
module StringOrder {

  /** `a < b` on Python strings. */
  predicate Less(a: string, b: string)
    decreases |a|
  {
    if |a| == 0 then |b| > 0
    else if |b| == 0 then false
    else if a[0] != b[0] then a[0] < b[0]
    else Less(a[1..], b[1..])
  }

  lemma {:induction false} LessIrreflexive(a: string)
    ensures !Less(a, a)
    decreases |a|
  {
    if |a| > 0 {
      LessIrreflexive(a[1..]);
    }
  }

  lemma {:induction false} LessTransitive(a: string, b: string, c: string)
    requires Less(a, b) && Less(b, c)
    ensures Less(a, c)
    decreases |a|
  {
    if |a| > 0 && a[0] == b[0] && b[0] == c[0] {
      LessTransitive(a[1..], b[1..], c[1..]);
    }
  }

  lemma {:induction false} LessTotal(a: string, b: string)
    ensures a == b || Less(a, b) || Less(b, a)
    decreases |a|
  {
    if |a| > 0 && |b| > 0 && a[0] == b[0] {
      LessTotal(a[1..], b[1..]);
      if a[1..] == b[1..] {
        assert a == [a[0]] + a[1..] && b == [b[0]] + b[1..];
      }
    }
  }

  lemma {:induction false} LessAsymmetric(a: string, b: string)
    requires Less(a, b)
    ensures !Less(b, a)
  {
    if Less(b, a) {
      LessTransitive(a, b, a);
      LessIrreflexive(a);
    }
  }

  /** The elements of a list, as a set. */
  function Elements(s: seq<string>): set<string>
  {
    set e | e in s
  }

  /** Sorted in ascending order without repeats. */
  predicate StrictlySorted(s: seq<string>)
  {
    forall i, j :: 0 <= i < j < |s| ==> Less(s[i], s[j])
  }

  lemma StrictlySortedDistinct(s: seq<string>, i: nat, j: nat)
    requires StrictlySorted(s) && i < |s| && j < |s| && i != j
    ensures s[i] != s[j]
  {
    if i < j { LessIrreflexive(s[i]); } else { LessIrreflexive(s[j]); }
  }

  /** Inserts `x` at its place in a sorted list, unless it is already there. */
  function Insert(s: seq<string>, x: string): (r: seq<string>)
    requires StrictlySorted(s)
    ensures StrictlySorted(r)
    ensures Elements(r) == Elements(s) + {x}
  {
    if s == [] then [x]
    else if s[0] == x then s
    else if Less(x, s[0]) then
      InsertFront(s, x);
      [x] + s
    else
      LessTotal(x, s[0]);
      var t := Insert(s[1..], x);
      InsertAfter(s, x, t);
      [s[0]] + t
  }

  lemma InsertFront(s: seq<string>, x: string)
    requires StrictlySorted(s) && s != [] && Less(x, s[0])
    ensures StrictlySorted([x] + s)
    ensures Elements([x] + s) == Elements(s) + {x}
  {
    forall j | 0 <= j < |s| ensures Less(x, s[j]) {
      if j > 0 {
        LessTransitive(x, s[0], s[j]);
      }
    }
    SortedCons(x, s);
    ElementsCons(x, s);
  }

  lemma InsertAfter(s: seq<string>, x: string, t: seq<string>)
    requires StrictlySorted(s) && s != [] && Less(s[0], x)
    requires StrictlySorted(t) && Elements(t) == Elements(s[1..]) + {x}
    ensures StrictlySorted([s[0]] + t)
    ensures Elements([s[0]] + t) == Elements(s) + {x}
  {
    forall j | 0 <= j < |t| ensures Less(s[0], t[j]) {
      assert t[j] in Elements(t);
      if t[j] != x {
        HeadBelowRest(s, t[j]);
      }
    }
    SortedCons(s[0], t);
    ElementsCons(s[0], t);
    ElementsCons(s[0], s[1..]);
    assert [s[0]] + s[1..] == s;
  }

  lemma HeadBelowRest(s: seq<string>, y: string)
    requires StrictlySorted(s) && s != [] && y in Elements(s[1..])
    ensures Less(s[0], y)
  {
    var i :| 0 <= i < |s[1..]| && s[1..][i] == y;
    assert s[i + 1] == y;
  }

  lemma SortedCons(a: string, t: seq<string>)
    requires StrictlySorted(t) && forall j :: 0 <= j < |t| ==> Less(a, t[j])
    ensures StrictlySorted([a] + t)
  {
    var r := [a] + t;
    forall i, j | 0 <= i < j < |r| ensures Less(r[i], r[j]) {
      assert r[j] == t[j - 1];
      if i > 0 {
        assert r[i] == t[i - 1];
      }
    }
  }

  lemma ElementsCons(a: string, t: seq<string>)
    ensures Elements([a] + t) == {a} + Elements(t)
  {
    var r := [a] + t;
    forall e | e in Elements(r) ensures e in {a} + Elements(t) {
      var i :| 0 <= i < |r| && r[i] == e;
      if i > 0 {
        assert t[i - 1] == e;
      }
    }
    forall e | e in Elements(t) ensures e in Elements(r) {
      var i :| 0 <= i < |t| && t[i] == e;
      assert r[i + 1] == e;
    }
  }

  /** No element occurs twice. */
  predicate NoRepeats(s: seq<string>)
  {
    forall i, j :: 0 <= i < j < |s| ==> s[i] != s[j]
  }

  lemma SortedNoRepeats(s: seq<string>)
    requires StrictlySorted(s)
    ensures NoRepeats(s)
  {
    forall i, j | 0 <= i < j < |s| ensures s[i] != s[j] {
      StrictlySortedDistinct(s, i, j);
    }
  }

  /** A sorted, duplicate-free list holding exactly the elements of `S`:
      what `l = list(S); l.sort()` yields. */
  method SortedList(S: set<string>) returns (s: seq<string>)
    ensures StrictlySorted(s)
    ensures Elements(s) == S
  {
    s := [];
    var rest := S;
    while rest != {}
      invariant rest <= S
      invariant StrictlySorted(s)
      invariant Elements(s) + rest == S
      decreases rest
    {
      var x :| x in rest;
      s := Insert(s, x);
      rest := rest - {x};
    }
  }

  /** A strictly sorted list is determined by its set of elements. */
  lemma {:induction false} SortedUnique(a: seq<string>, b: seq<string>)
    requires StrictlySorted(a) && StrictlySorted(b)
    requires Elements(a) == Elements(b)
    ensures a == b
    decreases |a|
  {
    ElementsEmpty(a);
    ElementsEmpty(b);
    if a != [] && b != [] {
      assert a[0] in Elements(b);
      assert b[0] in Elements(a);
      if a[0] != b[0] {
        var i :| 0 <= i < |b| && b[i] == a[0];
        var j :| 0 <= j < |a| && a[j] == b[0];
        assert Less(b[0], a[0]) by { if i == 0 {} }
        assert Less(a[0], b[0]) by { if j == 0 {} }
        LessAsymmetric(a[0], b[0]);
      }
      forall e | e in Elements(a[1..]) ensures e in Elements(b[1..]) {
        var i :| 1 <= i < |a| && a[i] == e;
        StrictlySortedDistinct(a, 0, i);
        assert e in Elements(b);
        var j :| 0 <= j < |b| && b[j] == e;
        assert j != 0;
        assert b[1..][j - 1] == e;
      }
      forall e | e in Elements(b[1..]) ensures e in Elements(a[1..]) {
        var j :| 1 <= j < |b| && b[j] == e;
        StrictlySortedDistinct(b, 0, j);
        assert e in Elements(a);
        var i :| 0 <= i < |a| && a[i] == e;
        assert i != 0;
        assert a[1..][i - 1] == e;
      }
      SortedUnique(a[1..], b[1..]);
      assert a == [a[0]] + a[1..] && b == [b[0]] + b[1..];
    }
  }

  lemma ElementsEmpty(s: seq<string>)
    ensures Elements(s) == {} <==> s == []
  {
    if s != [] { assert s[0] in Elements(s); }
  }

  /** A list without repeats has as many elements as its set. */
  lemma {:induction false} ElementsCount(s: seq<string>)
    requires NoRepeats(s)
    ensures |Elements(s)| == |s|
  {
    if |s| > 0 {
      var t := s[..|s| - 1];
      assert NoRepeats(t);
      ElementsCount(t);
      assert s == t + [s[|s| - 1]];
      assert Elements(s) == Elements(t) + {s[|s| - 1]};
      assert s[|s| - 1] !in Elements(t);
    }
  }

  lemma ElementsAppend(s: seq<string>, x: string)
    ensures Elements(s + [x]) == Elements(s) + {x}
  {
    assert (s + [x])[|s|] == x;
    forall e | e in Elements(s) ensures e in Elements(s + [x]) {
      var i :| 0 <= i < |s| && s[i] == e;
      assert (s + [x])[i] == e;
    }
  }
}

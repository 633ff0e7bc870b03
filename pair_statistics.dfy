/** The unordered pairs of `n` persons in the order `_getData` visits them,
    and the summaries it draws from the list of their distances (`None`
    standing for a pair with no path between them). */
module PairStatistics {
  import opened Graphs
  import opened Matrices

  /** The pairs `(i, j)` with `i < j < n`, for a fixed row `i < n`. */
  function Row(i: nat, n: nat): (r: seq<(nat, nat)>)
    requires i < n
    ensures |r| == n - i - 1
    ensures forall t :: 0 <= t < |r| ==> r[t] == (i, i + 1 + t)
  {
    seq(n - i - 1, t requires 0 <= t => (i, i + 1 + t))
  }

  /** The pairs `(i, j)` with `i < m` and `i < j < n`, row by row. */
  function Pairs(m: nat, n: nat): seq<(nat, nat)>
    requires m <= n
  {
    if m == 0 then [] else Pairs(m - 1, n) + Row(m - 1, n)
  }

  /** Row-by-row enumeration lists every unordered pair exactly once. */
  lemma {:induction false} PairsMembers(m: nat, n: nat)
    requires m <= n
    ensures forall p: (nat, nat) :: p in Pairs(m, n) <==> p.0 < m && p.0 < p.1 < n
  {
    if m > 0 {
      PairsMembers(m - 1, n);
      forall p: (nat, nat) | p.0 < m && p.0 < p.1 < n ensures p in Pairs(m, n) {
        if p.0 == m - 1 {
          assert Row(m - 1, n)[p.1 - m] == p;
        }
      }
    }
  }

  lemma {:induction false} PairsDistinct(m: nat, n: nat)
    requires m <= n
    ensures forall s, t :: 0 <= s < t < |Pairs(m, n)| ==> Pairs(m, n)[s] != Pairs(m, n)[t]
  {
    if m > 0 {
      PairsDistinct(m - 1, n);
      PairsMembers(m - 1, n);
      var a, b := Pairs(m - 1, n), Row(m - 1, n);
      var c: seq<(nat, nat)> := a + b;
      forall s, t | 0 <= s < t < |c| ensures c[s] != c[t] {
        if t >= |a| {
          assert c[t] == b[t - |a|];
          if s >= |a| {
            assert c[s] == b[s - |a|];
          } else {
            assert c[s] == a[s] && a[s] in a;
          }
        }
      }
    }
  }

  /** `_getData` visits `n(n-1)/2` pairs. */
  lemma {:induction false} PairsCount(n: nat)
    ensures 2 * |Pairs(n, n)| == n * (n - 1)
  {
    RowsCount(n, n);
  }

  lemma {:induction false} RowsCount(m: nat, n: nat)
    requires m <= n
    ensures 2 * |Pairs(m, n)| == m * (2 * n - m - 1)
  {
    if m > 0 {
      RowsCount(m - 1, n);
    }
  }

  // ---- summaries of a list of pair distances ----

  /** Some pair has no path between its persons. */
  predicate AnyUnreachable(ds: seq<Option<nat>>)
  {
    exists t :: 0 <= t < |ds| && ds[t].None?
  }

  /** The sum of the known distances. */
  function SumDist(ds: seq<Option<nat>>): nat
  {
    if |ds| == 0 then 0
    else SumDist(ds[..|ds| - 1]) + (if ds[|ds| - 1].Some? then ds[|ds| - 1].value else 0)
  }

  /** The greatest known distance, or 0. */
  function MaxDist(ds: seq<Option<nat>>): nat
  {
    if |ds| == 0 then 0
    else
      var m := MaxDist(ds[..|ds| - 1]);
      if ds[|ds| - 1].Some? && ds[|ds| - 1].value > m then ds[|ds| - 1].value else m
  }

  /** How many pairs are joined by a path of at most `x` steps. */
  function CountWithin(ds: seq<Option<nat>>, x: nat): nat
  {
    if |ds| == 0 then 0
    else CountWithin(ds[..|ds| - 1], x) + (if ds[|ds| - 1].Some? && ds[|ds| - 1].value <= x then 1 else 0)
  }

  /** How many pairs are joined by a path at all. */
  function Reachable(ds: seq<Option<nat>>): nat
  {
    if |ds| == 0 then 0
    else Reachable(ds[..|ds| - 1]) + (if ds[|ds| - 1].Some? then 1 else 0)
  }

  lemma AnyUnreachableAppend(ds: seq<Option<nat>>, d: Option<nat>)
    ensures AnyUnreachable(ds + [d]) <==> AnyUnreachable(ds) || d.None?
  {
    var e := ds + [d];
    if AnyUnreachable(ds) {
      var t :| 0 <= t < |ds| && ds[t].None?;
      assert e[t] == ds[t];
    }
    if AnyUnreachable(e) && !d.None? {
      var t :| 0 <= t < |e| && e[t].None?;
      assert e[t] == ds[t];
    }
    if d.None? {
      assert e[|ds|].None?;
    }
  }

  /** The maximum is attained and bounds every known distance. */
  lemma {:induction false} MaxDistIsMaximum(ds: seq<Option<nat>>)
    ensures forall t :: 0 <= t < |ds| && ds[t].Some? ==> ds[t].value <= MaxDist(ds)
    ensures MaxDist(ds) > 0 ==> exists t :: 0 <= t < |ds| && ds[t] == Some(MaxDist(ds))
  {
    if |ds| > 0 {
      var ds' := ds[..|ds| - 1];
      MaxDistIsMaximum(ds');
      assert forall t :: 0 <= t < |ds'| ==> ds[t] == ds'[t];
      if MaxDist(ds) > 0 && MaxDist(ds) == MaxDist(ds') && !(ds[|ds| - 1].Some? && ds[|ds| - 1].value > MaxDist(ds')) {
        var t :| 0 <= t < |ds'| && ds'[t] == Some(MaxDist(ds'));
        assert ds[t] == ds'[t];
      }
    }
  }

  /** Reach grows with the number of steps allowed. */
  lemma {:induction false} CountWithinMonotone(ds: seq<Option<nat>>, x: nat, y: nat)
    requires x <= y
    ensures CountWithin(ds, x) <= CountWithin(ds, y)
  {
    if |ds| > 0 {
      CountWithinMonotone(ds[..|ds| - 1], x, y);
    }
  }

  /** Unreachable pairs never count towards the reach. */
  lemma {:induction false} CountWithinReachable(ds: seq<Option<nat>>, x: nat)
    ensures CountWithin(ds, x) <= Reachable(ds) <= |ds|
    ensures Reachable(ds) == |ds| <==> !AnyUnreachable(ds)
  {
    if |ds| > 0 {
      var ds' := ds[..|ds| - 1];
      CountWithinReachable(ds', x);
      assert ds == ds' + [ds[|ds| - 1]];
      AnyUnreachableAppend(ds', ds[|ds| - 1]);
    }
  }

  /** When every pair is reachable, all of them lie within the diameter. */
  lemma {:induction false} CountWithinDiameter(ds: seq<Option<nat>>, x: nat)
    requires !AnyUnreachable(ds) && MaxDist(ds) <= x
    ensures CountWithin(ds, x) == |ds|
  {
    if |ds| > 0 {
      var ds' := ds[..|ds| - 1];
      assert ds == ds' + [ds[|ds| - 1]];
      AnyUnreachableAppend(ds', ds[|ds| - 1]);
      CountWithinDiameter(ds', x);
    }
  }

  /** Distinct persons are never zero steps apart, so nothing is within 0 steps. */
  lemma {:induction false} CountWithinZero(ds: seq<Option<nat>>)
    requires forall t :: 0 <= t < |ds| && ds[t].Some? ==> ds[t].value >= 1
    ensures CountWithin(ds, 0) == 0
  {
    if |ds| > 0 {
      var ds' := ds[..|ds| - 1];
      assert forall t :: 0 <= t < |ds'| ==> ds'[t] == ds[t];
      CountWithinZero(ds');
    }
  }

  // ---- the summary `_getData` returns ----

  /** `{'reach': ..., 'path': ..., 'diameter': ...}` with the ratios exact. */
  datatype Data = Data(reach: seq<real>, path: real, diameter: int)

  /** The share of pairs reachable within `x` steps. */
  function Share(ds: seq<Option<nat>>, x: nat): real
    requires |ds| > 0
  {
    CountWithin(ds, x) as real / |ds| as real
  }

  /** k-step reach is a proportion. */
  lemma ShareBounds(ds: seq<Option<nat>>, x: nat)
    requires |ds| > 0
    ensures 0.0 <= Share(ds, x) <= 1.0
  {
    CountWithinReachable(ds, x);
    RatioAtMostOne(CountWithin(ds, x), |ds|);
  }

  /** k-step reach never decreases as `x` grows. */
  lemma ShareMonotone(ds: seq<Option<nat>>, x: nat, y: nat)
    requires |ds| > 0 && x <= y
    ensures Share(ds, x) <= Share(ds, y)
  {
    CountWithinMonotone(ds, x, y);
  }

  /** In a connected network every pair is reached within the diameter. */
  lemma ShareAtDiameter(ds: seq<Option<nat>>, x: nat)
    requires |ds| > 0 && !AnyUnreachable(ds) && MaxDist(ds) <= x
    ensures Share(ds, x) == 1.0
  {
    CountWithinDiameter(ds, x);
  }

  /** The reach vector `_getData` returns: nothing is counted at 0 steps;
      entry `x` is the share of pairs within `x` steps. */
  function Reach(ds: seq<Option<nat>>, k: nat): seq<real>
    requires |ds| > 0
  {
    seq(k + 1, x requires 0 <= x <= k => if x == 0 then 0.0 else Share(ds, x))
  }

  /** The summary of the pair distances `ds` for reach up to `k` steps:
      the sentinels -1.0 and -1 once any pair is unreachable. */
  function Summary(ds: seq<Option<nat>>, k: nat): Data
    requires |ds| > 0
  {
    Data(Reach(ds, k),
         if AnyUnreachable(ds) then -1.0 else SumDist(ds) as real / |ds| as real,
         if AnyUnreachable(ds) then -1 else MaxDist(ds))
  }

  /** Distinct persons are at least one step apart. */
  predicate Separated(ds: seq<Option<nat>>)
  {
    forall t :: 0 <= t < |ds| && ds[t].Some? ==> ds[t].value >= 1
  }

  /** Path length and diameter take their sentinels together, exactly when
      some pair is unreachable. */
  lemma SentinelsTogether(ds: seq<Option<nat>>, k: nat)
    requires |ds| > 0
    ensures Summary(ds, k).path == -1.0 <==> AnyUnreachable(ds)
    ensures Summary(ds, k).diameter == -1 <==> AnyUnreachable(ds)
  {
  }

  lemma {:induction false} SumDistAtLeast(ds: seq<Option<nat>>)
    requires Separated(ds) && !AnyUnreachable(ds)
    ensures |ds| <= SumDist(ds)
  {
    if |ds| > 0 {
      var ds' := ds[..|ds| - 1];
      assert forall t :: 0 <= t < |ds'| ==> ds'[t] == ds[t];
      assert ds == ds' + [ds[|ds| - 1]];
      AnyUnreachableAppend(ds', ds[|ds| - 1]);
      SumDistAtLeast(ds');
    }
  }

  lemma {:induction false} SumDistAtMost(ds: seq<Option<nat>>, z: nat)
    requires forall t :: 0 <= t < |ds| && ds[t].Some? ==> ds[t].value <= z
    ensures SumDist(ds) <= |ds| * z
  {
    if |ds| > 0 {
      var ds' := ds[..|ds| - 1];
      assert forall t :: 0 <= t < |ds'| ==> ds'[t] == ds[t];
      SumDistAtMost(ds', z);
      assert |ds| * z == |ds'| * z + z;
    }
  }

  /** In a connected network the characteristic path length lies between 1
      and the diameter. */
  lemma PathWithinDiameter(ds: seq<Option<nat>>, k: nat)
    requires |ds| > 0 && Separated(ds) && !AnyUnreachable(ds)
    ensures 1.0 <= Summary(ds, k).path <= Summary(ds, k).diameter as real
    ensures Summary(ds, k).diameter >= 1
  {
    SumDistAtLeast(ds);
    MaxDistIsMaximum(ds);
    SumDistAtMost(ds, MaxDist(ds));
    assert ds[0].Some? && ds[0].value >= 1;
    RatioBetween(SumDist(ds), |ds|, 1, MaxDist(ds));
  }

  /** The reach vector has `k + 1` entries, starts at 0, stays within
      [0, 1] and never decreases; unreachable pairs never count. */
  lemma ReachProperties(ds: seq<Option<nat>>, k: nat)
    requires |ds| > 0
    ensures |Reach(ds, k)| == k + 1 && Reach(ds, k)[0] == 0.0
    ensures forall x :: 0 <= x <= k ==> 0.0 <= Reach(ds, k)[x] <= 1.0
    ensures forall x, y :: 0 <= x <= y <= k ==> Reach(ds, k)[x] <= Reach(ds, k)[y]
    ensures forall x :: 0 < x <= k ==>
      Reach(ds, k)[x] <= Reachable(ds) as real / |ds| as real
  {
    var r := Reach(ds, k);
    forall x | 0 <= x <= k ensures 0.0 <= r[x] <= 1.0 {
      ShareBounds(ds, x);
    }
    forall x, y | 0 <= x <= y <= k ensures r[x] <= r[y] {
      if x > 0 { ShareMonotone(ds, x, y); } else { ShareBounds(ds, y); }
    }
    forall x | 0 < x <= k ensures r[x] <= Reachable(ds) as real / |ds| as real {
      CountWithinReachable(ds, x);
      DivideMonotone(CountWithin(ds, x), Reachable(ds), |ds|);
    }
  }

  lemma DivideMonotone(a: nat, b: nat, n: nat)
    requires a <= b && n > 0
    ensures a as real / n as real <= b as real / n as real
  {
    var p, q := a as real / n as real, b as real / n as real;
    assert p * n as real == a as real && q * n as real == b as real;
    assert (q - p) * n as real == (b - a) as real;
  }

  /** With every pair separated, entry 0 agrees with the share within 0 steps. */
  lemma ReachIsShare(ds: seq<Option<nat>>, k: nat)
    requires |ds| > 0 && Separated(ds)
    ensures forall x :: 0 <= x <= k ==> Reach(ds, k)[x] == Share(ds, x)
  {
    CountWithinZero(ds);
  }

  /** In a connected network, looking as far as the diameter reaches
      every pair. */
  lemma ReachCompleteAtDiameter(ds: seq<Option<nat>>, k: nat)
    requires |ds| > 0 && Separated(ds) && !AnyUnreachable(ds) && MaxDist(ds) <= k
    ensures Reach(ds, k)[k] == 1.0
  {
    if k == 0 {
      PathWithinDiameter(ds, k);
    } else {
      ShareAtDiameter(ds, k);
    }
  }
}

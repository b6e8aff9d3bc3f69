/** The three calls into Python's `random` module that the quiz routes make,
    with the random numbers themselves passed in as pre-drawn values:
    - `random.random()` is a real draw in [0, 1);
    - `randbelow(n)`, which `random.choice` and `random.sample` use, is a
      pre-drawn natural number brought below `n`;
    - `random.choices(population, weights, k=k)` is CPython's algorithm: the
      cumulative weights, then `bisect_right` of `random() * total` in them. */
module RandomOracle {
  import opened Wrappers
  import opened Collections

  /** A value `random.random()` can return. */
  predicate IsUnitDraw(u: real) {
    0.0 <= u < 1.0
  }

  /** The sum of a sequence of weights. */
  function Sum(ws: seq<real>): real
  {
    if |ws| == 0 then 0.0 else Sum(ws[..|ws| - 1]) + ws[|ws| - 1]
  }

  predicate AllPositive(ws: seq<real>) {
    forall i :: 0 <= i < |ws| ==> ws[i] > 0.0
  }

  /** `list(itertools.accumulate(weights))`: entry `i` is the sum of the first
      `i + 1` weights. */
  function Cumulative(ws: seq<real>): (cum: seq<real>)
    ensures |cum| == |ws|
  {
    if |ws| == 0 then [] else Cumulative(ws[..|ws| - 1]) + [Sum(ws)]
  }

  /** Entry `p` of the running totals is the sum of the first `p + 1` weights. */
  lemma {:induction false} CumulativeAt(ws: seq<real>, p: nat)
    requires p < |ws|
    ensures Cumulative(ws)[p] == Sum(ws[..p + 1])
  {
    var n := |ws|;
    if p < n - 1 {
      CumulativeAt(ws[..n - 1], p);
      assert ws[..n - 1][..p + 1] == ws[..p + 1];
    } else {
      assert ws[..p + 1] == ws;
    }
  }

  lemma {:induction false} SumPositive(ws: seq<real>)
    requires AllPositive(ws)
    ensures |ws| > 0 ==> Sum(ws) > 0.0
    ensures Sum(ws) >= 0.0
  {
    if |ws| > 0 {
      SumPositive(ws[..|ws| - 1]);
    }
  }

  predicate StrictlyIncreasing(a: seq<real>) {
    forall p, q :: 0 <= p < q < |a| ==> a[p] < a[q]
  }

  /** With positive weights the running totals strictly increase. */
  lemma {:induction false} CumulativeIncreasing(ws: seq<real>)
    requires AllPositive(ws)
    ensures StrictlyIncreasing(Cumulative(ws))
  {
    var cum := Cumulative(ws);
    forall p, q | 0 <= p < q < |cum| ensures cum[p] < cum[q] {
      CumulativeAt(ws, p);
      CumulativeAt(ws, q);
      SumPrefixGrows(ws, p + 1, q + 1);
    }
  }

  lemma {:induction false} SumPrefixGrows(ws: seq<real>, a: nat, b: nat)
    requires AllPositive(ws)
    requires a < b <= |ws|
    ensures Sum(ws[..a]) < Sum(ws[..b])
  {
    assert ws[..b][..b - 1] == ws[..b - 1];
    if a < b - 1 {
      SumPrefixGrows(ws, a, b - 1);
    }
  }

  /** The number of entries of `a` that are at most `x`; for sorted `a` this is
      where `bisect_right` inserts `x`. */
  function CountAtMost(a: seq<real>, x: real): (n: nat)
    ensures n <= |a|
  {
    if |a| == 0 then 0 else (if a[0] <= x then 1 else 0) + CountAtMost(a[1..], x)
  }

  /** In a strictly increasing sequence the entries at most `x` are a prefix,
      so `i` is their number exactly when `x` lies between entries `i - 1` and `i`. */
  lemma {:induction false} CountAtMostSorted(a: seq<real>, x: real, i: nat)
    requires StrictlyIncreasing(a)
    requires i <= |a|
    ensures CountAtMost(a, x) == i <==> (i == 0 || a[i - 1] <= x) && (i == |a| || x < a[i])
  {
    if |a| > 0 {
      var t := a[1..];
      assert StrictlyIncreasing(t);
      if a[0] <= x {
        if i > 0 {
          CountAtMostSorted(t, x, i - 1);
        } else {
          assert CountAtMost(a, x) >= 1;
        }
      } else {
        assert |t| == 0 || x < t[0];
        CountAtMostSorted(t, x, 0);
        assert CountAtMost(a, x) == 0;
        if i > 0 {
          assert a[0] <= a[i - 1];
        }
      }
    }
  }

  /** `bisect.bisect_right(a, x, lo, hi)`: CPython's binary search. */
  method BisectRight(a: seq<real>, x: real, lo: nat, hi: nat) returns (i: nat)
    requires lo <= hi <= |a|
    requires forall p, q :: lo <= p < q < hi ==> a[p] <= a[q]
    ensures lo <= i <= hi
    ensures forall j :: lo <= j < i ==> a[j] <= x
    ensures forall j :: i <= j < hi ==> x < a[j]
  {
    var l, h := lo, hi;
    while l < h
      invariant lo <= l <= h <= hi
      invariant forall j :: lo <= j < l ==> a[j] <= x
      invariant forall j :: h <= j < hi ==> x < a[j]
    {
      var mid := (l + h) / 2;
      if x < a[mid] {
        h := mid;
      } else {
        l := mid + 1;
      }
    }
    i := l;
  }

  /** The index `random.choices` picks for the draw `u`: `bisect_right` of
      `u * total` in the cumulative weights, searched below the last index. */
  function ChosenIndex(ws: seq<real>, u: real): (i: nat)
    requires |ws| > 0
    ensures i < |ws|
  {
    CountAtMost(Cumulative(ws)[..|ws| - 1], Scale(u, Sum(ws)))
  }

  /** `random() * total`: the point the draw marks on the total weight. */
  function Scale(u: real, total: real): real {
    u * total
  }

  lemma ScaleBelow(u: real, total: real)
    requires IsUnitDraw(u) && total > 0.0
    ensures 0.0 <= Scale(u, total) < total
  {
  }

  /** Which candidate a draw selects: candidate `i` is chosen exactly for the
      draws `u` with `u * total` in `[Sum(ws[..i]), Sum(ws[..i+1]))`, an
      interval whose width is the candidate's own weight. So every candidate
      with a positive weight can be drawn, and its chance is its share of the
      total weight. */
  lemma ChosenIndexInterval(ws: seq<real>, u: real, i: nat)
    requires |ws| > 0 && AllPositive(ws)
    requires IsUnitDraw(u)
    requires i < |ws|
    ensures ChosenIndex(ws, u) == i <==> Sum(ws[..i]) <= Scale(u, Sum(ws)) < Sum(ws[..i + 1])
    ensures Sum(ws[..i + 1]) - Sum(ws[..i]) == ws[i]
  {
    var total := Sum(ws);
    SumPositive(ws);
    ScaleBelow(u, total);
    CountInterval(ws, Scale(u, total), i);
    assert ws[..i + 1][..i] == ws[..i];
  }

  /** The counting form of `ChosenIndexInterval`, for a point `x` below the total. */
  lemma CountInterval(ws: seq<real>, x: real, i: nat)
    requires |ws| > 0 && AllPositive(ws)
    requires 0.0 <= x < Sum(ws)
    requires i < |ws|
    ensures CountAtMost(Cumulative(ws)[..|ws| - 1], x) == i <==> Sum(ws[..i]) <= x < Sum(ws[..i + 1])
  {
    SearchedIncreasing(ws);
    CountAtMostSorted(Cumulative(ws)[..|ws| - 1], x, i);
    IntervalEnds(ws, i);
  }

  /** The entries `bisect_right` searches (all but the last total) increase. */
  lemma SearchedIncreasing(ws: seq<real>)
    requires |ws| > 0 && AllPositive(ws)
    ensures StrictlyIncreasing(Cumulative(ws)[..|ws| - 1])
  {
    CumulativeIncreasing(ws);
  }

  /** The searched entries on either side of position `i` are the partial sums
      that bound candidate `i`'s interval; past the last searched entry the
      bound is the total. */
  lemma IntervalEnds(ws: seq<real>, i: nat)
    requires i < |ws|
    ensures i == 0 ==> Sum(ws[..i]) == 0.0
    ensures i > 0 ==> Cumulative(ws)[..|ws| - 1][i - 1] == Sum(ws[..i])
    ensures i == |ws| - 1 ==> Sum(ws[..i + 1]) == Sum(ws)
    ensures i < |ws| - 1 ==> Cumulative(ws)[..|ws| - 1][i] == Sum(ws[..i + 1])
  {
    if i > 0 {
      CumulativeAt(ws, i - 1);
    } else {
      assert ws[..i] == [];
    }
    if i < |ws| - 1 {
      CumulativeAt(ws, i);
    } else {
      assert ws[..i + 1] == ws;
    }
  }

  /** `random.choices(population, weights=weights, k=k)` with the draws of
      `random()` given: `k` picks (none when `k` is negative), the `j`-th
      being the candidate that draw `j` selects. */
  method Choices<T>(population: seq<T>, weights: seq<real>, k: int, draws: seq<real>)
    returns (selected: seq<T>)
    requires |population| == |weights| > 0
    requires AllPositive(weights)
    requires k <= |draws|
    requires forall j :: 0 <= j < |draws| ==> IsUnitDraw(draws[j])
    ensures |selected| == if k < 0 then 0 else k
    ensures forall j :: 0 <= j < |selected| ==> selected[j] == population[ChosenIndex(weights, draws[j])]
  {
    var n := |population|;
    var cum := Cumulative(weights);
    var total := cum[n - 1];
    CumulativeAt(weights, n - 1);
    assert weights[..n] == weights;
    CumulativeIncreasing(weights);
    selected := [];
    var j := 0;
    while j < k
      invariant 0 <= j <= if k < 0 then 0 else k
      invariant |selected| == j
      invariant forall t :: 0 <= t < j ==> selected[t] == population[ChosenIndex(weights, draws[t])]
    {
      var x := Scale(draws[j], total);
      var i := BisectRight(cum, x, 0, n - 1);
      BisectIsCount(cum[..n - 1], x, i);
      selected := selected + [population[i]];
      j := j + 1;
    }
  }

  /** What `bisect_right` returns over a whole sorted sequence is the count of
      entries at most `x`. */
  lemma {:induction false} BisectIsCount(a: seq<real>, x: real, i: nat)
    requires i <= |a|
    requires forall j :: 0 <= j < i ==> a[j] <= x
    requires forall j :: i <= j < |a| ==> x < a[j]
    ensures CountAtMost(a, x) == i
  {
    if |a| > 0 {
      if i > 0 {
        BisectIsCount(a[1..], x, i - 1);
      } else {
        BisectIsCount(a[1..], x, 0);
      }
    }
  }

  // ---------------------------------------------------------------------------
  // random.sample
  // ---------------------------------------------------------------------------

  /** The pool after CPython's sample takes position `j` out: the last entry
      moves into the vacancy and the pool shrinks by one. */
  function RemoveAt<T>(s: seq<T>, j: nat): (r: seq<T>)
    requires j < |s|
    ensures |r| == |s| - 1
  {
    if j == |s| - 1 then s[..|s| - 1] else s[..|s| - 1][j := s[|s| - 1]]
  }

  lemma RemoveAtMultiset<T>(s: seq<T>, j: nat)
    requires j < |s|
    ensures multiset(RemoveAt(s, j)) + multiset{s[j]} == multiset(s)
  {
    var last := |s| - 1;
    assert s == s[..last] + [s[last]];
    if j < last {
      var p := s[..last];
      assert multiset(p[j := s[last]]) == multiset(p) - multiset{p[j]} + multiset{s[last]};
    }
  }

  /** `randbelow(m)`: the pre-drawn number brought below `m`. Every value
      below `m` is the outcome of some draw. */
  function RandBelow(d: nat, m: nat): (j: nat)
    requires m > 0
    ensures j < m
    ensures d < m ==> j == d
  {
    d % m
  }

  /** `random.choice(population)`: `population[randbelow(len(population))]`. */
  function Choice<T>(population: seq<T>, d: nat): (x: T)
    requires |population| > 0
    ensures x in population
  {
    population[RandBelow(d, |population|)]
  }

  /** The first branch of CPython's `random.sample(population, k)`, taken
      when the population is small: pick `pool[randbelow(n - i)]` from a copy
      of the population, then move the last live entry into the vacancy. The
      picks take distinct positions, so as a multiset they are part of the
      population. */
  method SampleByPool<T(==)>(population: seq<T>, k: nat, draws: seq<nat>) returns (r: seq<T>)
    requires k <= |population|
    requires k <= |draws|
    ensures |r| == k
    ensures multiset(r) <= multiset(population)
  {
    var n := |population|;
    var pool := population;
    assert pool[..n] == population;
    r := [];
    var i := 0;
    while i < k
      invariant 0 <= i <= k
      invariant |r| == i && |pool| == n
      invariant multiset(r) + multiset(pool[..n - i]) == multiset(population)
    {
      var j := RandBelow(draws[i], n - i);
      assert multiset(r + [pool[j]]) + multiset(pool[j := pool[n - i - 1]][..n - i - 1]) == multiset(population) by {
        PoolTake(r, pool, n - i, j);
      }
      r := r + [pool[j]];
      pool := pool[j := pool[n - i - 1]];
      i := i + 1;
    }
  }

  function Pow4(e: nat): (p: nat)
    ensures p >= 1
  {
    if e == 0 then 1 else 4 * Pow4(e - 1)
  }

  /** `ceil(log(m, 4))`: the least `e` with `4 ** e >= m`. */
  function CeilLog4(m: nat): (e: nat)
    ensures m <= Pow4(e)
    ensures e > 0 ==> Pow4(e - 1) < m
  {
    if m <= 1 then 0 else 1 + CeilLog4((m + 3) / 4)
  }

  /** The population size up to which `random.sample` copies the population
      into a pool; above it, it keeps a set of the positions taken. `3 * k`
      is never a power of 4, so the floating-point logarithm has no rounding
      to get wrong. */
  function SetSize(k: nat): nat {
    21 + (if k > 5 then Pow4(CeilLog4(3 * k)) else 0)
  }

  lemma SetSizeEleven()
    ensures SetSize(11) == 85
  {
    assert CeilLog4(1) == 0;
    assert CeilLog4(3) == 1;
    assert CeilLog4(9) == 2;
    assert CeilLog4(33) == 3;
  }

  /** The entries of `population` at positions `pos`. */
  function Picks<T>(population: seq<T>, pos: seq<nat>): (r: seq<T>)
    requires forall i :: 0 <= i < |pos| ==> pos[i] < |population|
    ensures |r| == |pos|
    ensures forall i :: 0 <= i < |pos| ==> r[i] == population[pos[i]]
  {
    seq(|pos|, i requires 0 <= i < |pos| => population[pos[i]])
  }

  /** Entries at distinct positions are, as a multiset, part of the population. */
  lemma {:induction false} DistinctPicks<T>(population: seq<T>, pos: seq<nat>)
    requires forall i :: 0 <= i < |pos| ==> pos[i] < |population|
    requires Distinct(pos)
    ensures multiset(Picks(population, pos)) <= multiset(population)
    decreases |population|
  {
    if |pos| > 0 {
      assert pos[0] < |population|;
      var m := |population| - 1;
      var init := population[..m];
      assert population == init + [population[m]];
      if m in pos {
        var t :| 0 <= t < |pos| && pos[t] == m;
        var rest := Without(pos, t);
        WithoutBelow(pos, t);
        DistinctPicks(init, rest);
        assert Picks(population, rest) == Picks(init, rest);
        PicksWithout(population, pos, t);
      } else {
        forall i | 0 <= i < |pos| ensures pos[i] < m {
          assert pos[i] in pos;
        }
        DistinctPicks(init, pos);
        assert Picks(population, pos) == Picks(init, pos);
      }
    }
  }

  function Without(pos: seq<nat>, t: nat): (r: seq<nat>)
    requires t < |pos|
    ensures |r| == |pos| - 1
    ensures forall i :: 0 <= i < |r| ==> r[i] == if i < t then pos[i] else pos[i + 1]
  {
    pos[..t] + pos[t + 1..]
  }

  /** Taking out the largest position leaves distinct positions below it. */
  lemma WithoutBelow(pos: seq<nat>, t: nat)
    requires t < |pos| && Distinct(pos)
    requires forall i :: 0 <= i < |pos| ==> pos[i] <= pos[t]
    ensures Distinct(Without(pos, t))
    ensures forall i :: 0 <= i < |pos| - 1 ==> Without(pos, t)[i] < pos[t]
  {
    var rest := Without(pos, t);
    forall i, j | 0 <= i < j < |rest| ensures rest[i] != rest[j] {
      var i' := if i < t then i else i + 1;
      var j' := if j < t then j else j + 1;
      assert rest[i] == pos[i'] && rest[j] == pos[j'];
    }
  }

  lemma PicksWithout<T>(population: seq<T>, pos: seq<nat>, t: nat)
    requires forall i :: 0 <= i < |pos| ==> pos[i] < |population|
    requires t < |pos|
    ensures multiset(Picks(population, pos)) == multiset(Picks(population, Without(pos, t))) + multiset{population[pos[t]]}
  {
    var a := Picks(population, pos[..t]);
    var b := Picks(population, pos[t + 1..]);
    assert Picks(population, pos) == a + [population[pos[t]]] + b;
    assert Picks(population, Without(pos, t)) == a + b;
  }

  /** The second branch of CPython's `random.sample`: draw `randbelow(n)`
      again until it hits a position not yet taken. The draws on hand may run
      out, which the model reports as None. */
  method SampleBySet<T(==)>(population: seq<T>, k: nat, draws: seq<nat>) returns (r: Option<seq<T>>)
    requires k <= |population|
    ensures r.Some? ==> |r.value| == k && multiset(r.value) <= multiset(population)
  {
    var n := |population|;
    var selected: set<nat> := {};
    ghost var pos: seq<nat> := [];
    var result := [];
    var d := 0;
    var i := 0;
    while i < k
      invariant 0 <= i <= k && d <= |draws|
      invariant |pos| == i && Distinct(pos)
      invariant forall q :: 0 <= q < |pos| ==> pos[q] < n
      invariant forall p :: p in selected <==> p in pos
      invariant result == Picks(population, pos)
    {
      if d == |draws| {
        return None;
      }
      var j: nat := RandBelow(draws[d], n);
      d := d + 1;
      while j in selected
        invariant d <= |draws| && j < n
        decreases |draws| - d
      {
        if d == |draws| {
          return None;
        }
        j := RandBelow(draws[d], n);
        d := d + 1;
      }
      selected := selected + {j};
      pos := pos + [j];
      result := result + [population[j]];
      i := i + 1;
    }
    DistinctPicks(population, pos);
    return Some(result);
  }

  /** `random.sample(population, k)`: the pool branch up to `SetSize(k)`
      entries, the set branch above it. */
  method Sample<T(==)>(population: seq<T>, k: nat, draws: seq<nat>) returns (r: Option<seq<T>>)
    requires k <= |population|
    ensures r.Some? ==> |r.value| == k && multiset(r.value) <= multiset(population)
    ensures |population| <= SetSize(k) ==> (r.Some? <==> k <= |draws|)
  {
    if |population| <= SetSize(k) {
      if k <= |draws| {
        var s := SampleByPool(population, k, draws);
        r := Some(s);
      } else {
        r := None;
      }
    } else {
      r := SampleBySet(population, k, draws);
    }
  }

  /** One pick moves an entry from the live pool to the result. */
  lemma PoolTake<T>(r: seq<T>, pool: seq<T>, m: nat, j: nat)
    requires j < m <= |pool|
    ensures multiset(r + [pool[j]]) + multiset(pool[j := pool[m - 1]][..m - 1]) == multiset(r) + multiset(pool[..m])
  {
    RemoveAtMultiset(pool[..m], j);
    PoolStep(pool, m, j);
  }

  /** Overwriting the vacancy with the last live entry leaves, as the live
      part, the pool with that position removed. */
  lemma PoolStep<T>(before: seq<T>, m: nat, j: nat)
    requires j < m <= |before|
    ensures before[j := before[m - 1]][..m - 1] == RemoveAt(before[..m], j)
  {
  }

  /** Each pick of `random.sample` is a member of the population. */
  lemma SampleMembers<T>(r: seq<T>, population: seq<T>)
    requires multiset(r) <= multiset(population)
    ensures forall x :: x in r ==> x in population
  {
    forall x | x in r ensures x in population {
      assert x in multiset(r);
    }
  }
}

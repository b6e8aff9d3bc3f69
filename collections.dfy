/** Python collection idioms the routes rely on: a list without repeats,
    `list(some_set)`, the key order of a dict filled in a loop, and
    `sorted(some_set)` of integers. */
module Collections {

  /** No element occurs twice. */
  predicate Distinct<T(==)>(s: seq<T>) {
    forall i, j :: 0 <= i < j < |s| ==> s[i] != s[j]
  }

  lemma {:induction false} DistinctCountsOne<T>(s: seq<T>, x: T)
    requires Distinct(s)
    ensures multiset(s)[x] <= 1
  {
    if |s| > 0 {
      assert s == [s[0]] + s[1..];
      assert Distinct(s[1..]);
      DistinctCountsOne(s[1..], x);
      if s[0] == x {
        assert x !in s[1..];
      }
    }
  }

  lemma {:induction false} ConstantCount<T>(s: seq<T>, c: T)
    requires forall i :: 0 <= i < |s| ==> s[i] == c
    ensures multiset(s)[c] == |s|
  {
    if |s| > 0 {
      assert s == s[..|s| - 1] + [c];
      ConstantCount(s[..|s| - 1], c);
    }
  }

  /** A list without repeats whose every element is `c`, and which holds `c`,
      is `[c]`. */
  lemma DistinctConstant<T>(s: seq<T>, c: T)
    requires Distinct(s)
    requires c in s
    requires forall i :: 0 <= i < |s| ==> s[i] == c
    ensures s == [c]
  {
    ConstantCount(s, c);
    DistinctCountsOne(s, c);
  }

  /** A sub-multiset of a list without repeats has no repeats either. */
  lemma SubMultisetDistinct<T>(r: seq<T>, population: seq<T>)
    requires multiset(r) <= multiset(population)
    requires Distinct(population)
    ensures Distinct(r)
  {
    forall i, j | 0 <= i < j < |r| ensures r[i] != r[j] {
      if r[i] == r[j] {
        var x := r[i];
        assert r == r[..i] + [x] + r[i + 1..j] + [x] + r[j + 1..];
        assert multiset(r)[x] >= 2;
        DistinctCountsOne(population, x);
      }
    }
  }

  /** `list(s)` for a set: every member once, in an order the set's hashing
      decides and the model leaves open. */
  method ListOfSet<T(==)>(s: set<T>) returns (r: seq<T>)
    ensures Distinct(r)
    ensures forall x :: x in r <==> x in s
    ensures |r| == |s|
  {
    r := [];
    var rest := s;
    while rest != {}
      invariant Distinct(r)
      invariant forall x :: x in r ==> x in s && x !in rest
      invariant forall x :: x in s ==> x in r || x in rest
      invariant rest <= s
      invariant |r| + |rest| == |s|
      decreases |rest|
    {
      ghost var w := Member(rest);
      var x :| x in rest;
      r := r + [x];
      rest := rest - {x};
    }
  }

  // ---------------------------------------------------------------------------
  // The key order of a dict filled in a loop
  // ---------------------------------------------------------------------------

  /** The keys in the order a dict first sees them when it is filled with
      `if k not in d: d[k] = ...` for each `k` of `ks` in turn. */
  function FirstSeen<T(==,!new)>(ks: seq<T>): (r: seq<T>)
    ensures Distinct(r)
    ensures forall k :: k in r <==> k in ks
  {
    if |ks| == 0 then []
    else
      var r := FirstSeen(ks[..|ks| - 1]);
      if ks[|ks| - 1] in r then r else r + [ks[|ks| - 1]]
  }

  /** One more key: the dict learns it if it is new. */
  lemma FirstSeenAppend<T(!new)>(ks: seq<T>, k: T)
    ensures FirstSeen(ks + [k]) == if k in FirstSeen(ks) then FirstSeen(ks) else FirstSeen(ks) + [k]
  {
    assert (ks + [k])[..|ks|] == ks;
  }

  predicate NonDecreasing(s: seq<int>) {
    forall i, j :: 0 <= i < j < |s| ==> s[i] <= s[j]
  }

  predicate Ascending(s: seq<int>) {
    forall i, j :: 0 <= i < j < |s| ==> s[i] < s[j]
  }

  /** Keys met in non-decreasing order come out in strictly ascending order. */
  lemma {:induction false} FirstSeenAscending(ks: seq<int>)
    requires NonDecreasing(ks)
    ensures Ascending(FirstSeen(ks))
  {
    if |ks| > 0 {
      var n := |ks|;
      var init := ks[..n - 1];
      assert NonDecreasing(init);
      FirstSeenAscending(init);
      var p := FirstSeen(init);
      if ks[n - 1] !in p {
        forall i | 0 <= i < |p| ensures p[i] < ks[n - 1] {
          assert p[i] in init;
          var j :| 0 <= j < n - 1 && init[j] == p[i];
          assert ks[j] <= ks[n - 1];
        }
      }
    }
  }

  // ---------------------------------------------------------------------------
  // sorted(s) for a set of integers
  // ---------------------------------------------------------------------------

  /** A member of a non-empty set. */
  lemma Member<T>(s: set<T>) returns (y: T)
    requires s != {}
    ensures y in s
  {
    if forall z :: z !in s {
      assert false;
    }
    y :| y in s;
  }

  /** Every non-empty set of integers has a least member. */
  lemma LeastOf(s: set<int>) returns (m: int)
    requires s != {}
    ensures m in s && forall x :: x in s ==> m <= x
    decreases |s|
  {
    var y := Member(s);
    if forall z :: z in s ==> z == y {
      m := y;
    } else {
      var rest := s - {y};
      assert rest != {} by {
        var z :| z in s && z != y;
        assert z in rest;
      }
      var m' := LeastOf(rest);
      m := if y < m' then y else m';
      forall x | x in s ensures m <= x {
        if x != y {
          assert x in rest;
        }
      }
    }
  }

  lemma MinExists(s: set<int>)
    requires s != {}
    ensures exists m :: m in s && forall x :: x in s ==> m <= x
  {
    var m := LeastOf(s);
  }

  /** `sorted(s)`: the members of `s` in ascending order. */
  ghost function SortedOf(s: set<int>): (r: seq<int>)
    ensures Ascending(r)
    ensures forall x :: x in r <==> x in s
    decreases |s|
  {
    if s == {} then []
    else
      MinExists(s);
      var m :| m in s && forall x :: x in s ==> m <= x;
      var rest := SortedOf(s - {m});
      assert forall x :: x in rest ==> m < x;
      [m] + rest
  }

  /** An ascending sequence is determined by its members. */
  lemma {:induction false} AscendingUnique(a: seq<int>, b: seq<int>)
    requires Ascending(a) && Ascending(b)
    requires forall x :: x in a <==> x in b
    ensures a == b
  {
    assert |a| > 0 ==> |b| > 0 by {
      if |a| > 0 {
        assert a[0] in a;
      }
    }
    assert |b| > 0 ==> |a| > 0 by {
      if |b| > 0 {
        assert b[0] in b;
      }
    }
    if |a| > 0 {
      assert a[0] in a && b[0] in b;
      assert a[0] == b[0];
      forall x ensures x in a[1..] <==> x in b[1..] {
        if x in a[1..] {
          assert x in b && x != b[0];
          var j :| 0 <= j < |b| && b[j] == x;
          assert j > 0;
          assert b[1..][j - 1] == x;
        }
        if x in b[1..] {
          assert x in a && x != a[0];
          var j :| 0 <= j < |a| && a[j] == x;
          assert j > 0;
          assert a[1..][j - 1] == x;
        }
      }
      AscendingUnique(a[1..], b[1..]);
      assert a == [a[0]] + a[1..];
      assert b == [b[0]] + b[1..];
    }
  }

  /** `sorted(s)` as CPython's sort leaves it: repeatedly the least member left. */
  method SortedList(s: set<int>) returns (r: seq<int>)
    ensures r == SortedOf(s)
  {
    r := [];
    var rest := s;
    while rest != {}
      invariant Ascending(r)
      invariant rest <= s
      invariant forall x :: x in s ==> x in r || x in rest
      invariant forall x :: x in r ==> x in s && x !in rest
      invariant forall x, y :: x in r && y in rest ==> x < y
      decreases |rest|
    {
      MinExists(rest);
      ghost var w := Member(rest);
      var m :| m in rest && forall x :: x in rest ==> m <= x;
      forall i | 0 <= i < |r| ensures r[i] < m {
        assert r[i] in r;
      }
      r := r + [m];
      rest := rest - {m};
    }
    AscendingUnique(r, SortedOf(s));
  }

  // ---------------------------------------------------------------------------
  // Counting
  // ---------------------------------------------------------------------------

  /** The number of elements of `s` satisfying `p`. */
  function CountWhere<T>(s: seq<T>, p: T -> bool): (n: nat)
    ensures n <= |s|
  {
    if |s| == 0 then 0 else CountWhere(s[..|s| - 1], p) + (if p(s[|s| - 1]) then 1 else 0)
  }

  lemma {:induction false} CountWhereAppend<T>(a: seq<T>, b: seq<T>, p: T -> bool)
    ensures CountWhere(a + b, p) == CountWhere(a, p) + CountWhere(b, p)
  {
    if |b| > 0 {
      var b' := b[..|b| - 1];
      assert (a + b)[..|a + b| - 1] == a + b';
      CountWhereAppend(a, b', p);
    } else {
      assert a + b == a;
    }
  }

  /** An element that satisfies `p` is counted. */
  lemma {:induction false} CountWherePositive<T>(s: seq<T>, p: T -> bool, i: nat)
    requires i < |s| && p(s[i])
    ensures CountWhere(s, p) > 0
  {
    if i < |s| - 1 {
      CountWherePositive(s[..|s| - 1], p, i);
    }
  }

  /** A count does not depend on the order of the elements. */
  lemma {:induction false} CountWherePerm<T>(a: seq<T>, b: seq<T>, p: T -> bool)
    requires multiset(a) == multiset(b)
    ensures CountWhere(a, p) == CountWhere(b, p)
  {
    if |a| == 0 {
      assert |b| == |multiset(b)| == 0;
    } else {
      var x := a[|a| - 1];
      var a' := a[..|a| - 1];
      assert a == a' + [x];
      assert multiset(a') == multiset(a) - multiset{x};
      assert x in multiset(b);
      var j :| 0 <= j < |b| && b[j] == x;
      WithoutMultiset(b, j);
      CountWherePerm(a', b[..j] + b[j + 1..], p);
      CountWithout(b, j, p);
    }
  }

  lemma {:induction false} WithoutMultiset<T>(b: seq<T>, j: nat)
    requires j < |b|
    ensures multiset(b[..j] + b[j + 1..]) == multiset(b) - multiset{b[j]}
  {
    assert b == b[..j] + [b[j]] + b[j + 1..];
  }

  lemma {:induction false} CountWithout<T>(b: seq<T>, j: nat, p: T -> bool)
    requires j < |b|
    ensures CountWhere(b, p) == CountWhere(b[..j] + b[j + 1..], p) + (if p(b[j]) then 1 else 0)
  {
    var x := b[j];
    CountWhereAppend(b[..j], [x] + b[j + 1..], p);
    CountWhereAppend([x], b[j + 1..], p);
    CountWhereAppend(b[..j], b[j + 1..], p);
    assert CountWhere([x], p) == CountWhere([], p) + (if p(x) then 1 else 0);
    assert b[..j] + ([x] + b[j + 1..]) == b;
  }
}

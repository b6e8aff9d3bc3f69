/** `list.sort(key=...)` and `list.sort(key=..., reverse=True)` on integer
    keys. Python's sort is stable in both directions: elements with equal
    keys keep their relative order. The model is an insertion sort that
    puts each element after every earlier element whose key does not
    exceed its own. */
module Sorting {

  predicate SortedBy<T>(s: seq<T>, key: T -> int) {
    forall i, j :: 0 <= i < j < |s| ==> key(s[i]) <= key(s[j])
  }

  predicate SortedDescBy<T>(s: seq<T>, key: T -> int) {
    forall i, j :: 0 <= i < j < |s| ==> key(s[i]) >= key(s[j])
  }

  /** `x` placed into `t` after the last element whose key is at most its own,
      searching from the end. */
  function Insert<T>(t: seq<T>, x: T, key: T -> int): (r: seq<T>)
    ensures |r| == |t| + 1
  {
    if |t| == 0 then [x]
    else if key(t[|t| - 1]) <= key(x) then t + [x]
    else Insert(t[..|t| - 1], x, key) + [t[|t| - 1]]
  }

  /** Insertion adds exactly `x`. */
  lemma {:induction false} InsertMultiset<T>(t: seq<T>, x: T, key: T -> int)
    ensures multiset(Insert(t, x, key)) == multiset(t) + multiset{x}
  {
    if |t| > 0 && key(t[|t| - 1]) > key(x) {
      assert t == t[..|t| - 1] + [t[|t| - 1]];
      InsertMultiset(t[..|t| - 1], x, key);
    }
  }

  /** Every key of `Insert(t, x)` is bounded by a bound on `x` and on `t`. */
  lemma InsertBelow<T>(t: seq<T>, x: T, key: T -> int, b: int)
    requires forall i :: 0 <= i < |t| ==> key(t[i]) <= b
    requires key(x) <= b
    ensures forall i :: 0 <= i < |Insert(t, x, key)| ==> key(Insert(t, x, key)[i]) <= b
  {
    var r := Insert(t, x, key);
    InsertMultiset(t, x, key);
    forall i | 0 <= i < |r| ensures key(r[i]) <= b {
      assert r[i] in multiset(r);
      if r[i] != x {
        assert r[i] in multiset(t);
        var j :| 0 <= j < |t| && t[j] == r[i];
      }
    }
  }

  /** Inserting into a sorted list keeps it sorted. */
  lemma {:induction false} InsertSorted<T>(t: seq<T>, x: T, key: T -> int)
    requires SortedBy(t, key)
    ensures SortedBy(Insert(t, x, key), key)
  {
    if |t| > 0 && key(t[|t| - 1]) > key(x) {
      var init := t[..|t| - 1];
      var last := t[|t| - 1];
      assert SortedBy(init, key);
      InsertSorted(init, x, key);
      InsertBelow(init, x, key, key(last));
    }
  }

  /** `sorted(s, key=key)`: a stable ascending sort. */
  function SortBy<T>(s: seq<T>, key: T -> int): (r: seq<T>)
    ensures |r| == |s|
    ensures multiset(r) == multiset(s)
  {
    if |s| == 0 then []
    else
      assert s == s[..|s| - 1] + [s[|s| - 1]];
      var sorted := SortBy(s[..|s| - 1], key);
      InsertMultiset(sorted, s[|s| - 1], key);
      Insert(sorted, s[|s| - 1], key)
  }

  /** The sort puts the keys in ascending order. */
  lemma {:induction false} SortBySorted<T>(s: seq<T>, key: T -> int)
    ensures SortedBy(SortBy(s, key), key)
  {
    if |s| > 0 {
      SortBySorted(s[..|s| - 1], key);
      InsertSorted(SortBy(s[..|s| - 1], key), s[|s| - 1], key);
    }
  }

  /** The elements of `s` whose key is `v`, in their order in `s`. */
  function WithKey<T>(s: seq<T>, key: T -> int, v: int): (r: seq<T>)
    ensures |r| <= |s|
  {
    if |s| == 0 then []
    else WithKey(s[..|s| - 1], key, v) + (if key(s[|s| - 1]) == v then [s[|s| - 1]] else [])
  }

  lemma {:induction false} WithKeyAppend<T>(s: seq<T>, x: T, key: T -> int, v: int)
    ensures WithKey(s + [x], key, v) == WithKey(s, key, v) + (if key(x) == v then [x] else [])
  {
    assert (s + [x])[..|s|] == s;
  }

  /** Inserting `x` adds it to its own key's class at the end, and leaves the
      other classes as they were. */
  lemma {:induction false} InsertStable<T>(t: seq<T>, x: T, key: T -> int, v: int)
    ensures WithKey(Insert(t, x, key), key, v) == WithKey(t, key, v) + (if key(x) == v then [x] else [])
  {
    if |t| == 0 {
      WithKeyAppend([], x, key, v);
    } else if key(t[|t| - 1]) <= key(x) {
      WithKeyAppend(t, x, key, v);
    } else {
      var init := t[..|t| - 1];
      InsertStable(init, x, key, v);
      assert t == init + [t[|t| - 1]];
      PassLarger(Insert(init, x, key), init, x, t[|t| - 1], key, v);
    }
  }

  /** An element with a larger key than `x` that moves past it changes no class
      order: `x` and it are never in the same class. */
  lemma {:induction false} PassLarger<T>(a: seq<T>, init: seq<T>, x: T, last: T, key: T -> int, v: int)
    requires key(last) > key(x)
    requires WithKey(a, key, v) == WithKey(init, key, v) + (if key(x) == v then [x] else [])
    ensures WithKey(a + [last], key, v) == WithKey(init + [last], key, v) + (if key(x) == v then [x] else [])
  {
    WithKeyAppend(a, last, key, v);
    WithKeyAppend(init, last, key, v);
  }

  /** The sort is stable: the elements with any one key keep their order. */
  lemma {:induction false} SortStable<T>(s: seq<T>, key: T -> int, v: int)
    ensures WithKey(SortBy(s, key), key, v) == WithKey(s, key, v)
  {
    if |s| > 0 {
      var init := s[..|s| - 1];
      SortStable(init, key, v);
      InsertStable(SortBy(init, key), s[|s| - 1], key, v);
    }
  }

  /** The key that orders by descending `key`. */
  function Negated<T>(key: T -> int): T -> int {
    x => -key(x)
  }

  /** `sorted(s, key=key, reverse=True)`: stable, by descending key. */
  function SortDesc<T>(s: seq<T>, key: T -> int): (r: seq<T>)
    ensures |r| == |s|
    ensures multiset(r) == multiset(s)
  {
    SortBy(s, Negated(key))
  }

  /** The descending sort puts the keys in descending order. */
  lemma SortDescSorted<T>(s: seq<T>, key: T -> int)
    ensures SortedDescBy(SortDesc(s, key), key)
  {
    var r := SortBy(s, Negated(key));
    SortBySorted(s, Negated(key));
    assert SortedBy(r, Negated(key));
  }

  lemma {:induction false} WithKeyNegated<T>(s: seq<T>, key: T -> int, v: int)
    ensures WithKey(s, Negated(key), -v) == WithKey(s, key, v)
  {
    if |s| > 0 {
      WithKeyNegated(s[..|s| - 1], key, v);
    }
  }

  lemma SortDescWithKey<T>(s: seq<T>, key: T -> int, v: int)
    ensures WithKey(SortDesc(s, key), key, v) == WithKey(SortBy(s, Negated(key)), Negated(key), -v)
  {
    WithKeyNegated(SortBy(s, Negated(key)), key, v);
  }

  lemma SortByNegatedStable<T>(s: seq<T>, key: T -> int, v: int)
    ensures WithKey(SortBy(s, Negated(key)), Negated(key), -v) == WithKey(s, key, v)
  {
    SortStable(s, Negated(key), -v);
    WithKeyNegated(s, key, v);
  }

  /** The descending sort is stable too: equal keys keep their input order. */
  lemma SortDescStable<T>(s: seq<T>, key: T -> int, v: int)
    ensures WithKey(SortDesc(s, key), key, v) == WithKey(s, key, v)
  {
    SortDescWithKey(s, key, v);
    SortByNegatedStable(s, key, v);
  }

  /** On a list already in order the sort changes nothing. */
  lemma {:induction false} SortDescOfSorted<T>(s: seq<T>, key: T -> int)
    requires SortedDescBy(s, key)
    ensures SortDesc(s, key) == s
  {
    SortByOfSorted(s, Negated(key));
  }

  lemma {:induction false} SortByOfSorted<T>(s: seq<T>, key: T -> int)
    requires SortedBy(s, key)
    ensures SortBy(s, key) == s
  {
    if |s| > 0 {
      var init := s[..|s| - 1];
      assert SortedBy(init, key);
      SortByOfSorted(init, key);
      if |init| > 0 {
        assert key(init[|init| - 1]) <= key(s[|s| - 1]);
      }
    }
  }
}

/**
 * The array idioms the application repeats: `filter`, `sort` with a
 * comparator, and the toggle `xs.includes(x) ? xs.filter(y => y !== x)
 * : [...xs, x].sort(cmp)` used by every checkbox list.
 */
module Lists {
  import opened Strings

  /** `leq` orders all values: total, transitive and antisymmetric. */
  ghost predicate IsTotalOrder<T(!new)>(leq: (T, T) -> bool) {
    && (forall a, b :: leq(a, b) || leq(b, a))
    && (forall a, b, c :: leq(a, b) && leq(b, c) ==> leq(a, c))
    && (forall a, b :: leq(a, b) && leq(b, a) ==> a == b)
  }

  /** `leq` orders all values up to ties: total and transitive. */
  ghost predicate IsTotalPreorder<T(!new)>(leq: (T, T) -> bool) {
    && (forall a, b :: leq(a, b) || leq(b, a))
    && (forall a, b, c :: leq(a, b) && leq(b, c) ==> leq(a, c))
  }

  predicate SortedBy<T>(s: seq<T>, leq: (T, T) -> bool) {
    forall i, j :: 0 <= i < j < |s| ==> leq(s[i], s[j])
  }

  predicate NoDuplicates<T(==)>(s: seq<T>) {
    forall i, j :: 0 <= i < j < |s| ==> s[i] != s[j]
  }

  /** Numeric comparison, the comparator `(a, b) => a - b`. */
  predicate IntLeq(a: int, b: int) {
    a <= b
  }

  /** Pushing element `i - 1` of `g` extends `cells + g[..i - 1]` to `cells + g[..i]`. */
  lemma AppendStep<T>(cells: seq<T>, g: seq<T>, i: int)
    requires 1 <= i <= |g|
    ensures cells + g[..i] == cells + g[..i - 1] + [g[i - 1]]
  {
    assert g[..i] == g[..i - 1] + [g[i - 1]];
  }

  lemma IntLeqIsTotalOrder()
    ensures IsTotalOrder(IntLeq)
  {
  }

  // ---------------------------------------------------------------------------
  // filter

  /** `s.filter(p)`: the elements of `s` that satisfy `p`, in their order. */
  function Filter<T(!new)>(s: seq<T>, p: T -> bool): (r: seq<T>)
    ensures |r| <= |s|
    ensures forall i :: 0 <= i < |r| ==> p(r[i])
    ensures forall x :: x in r <==> x in s && p(x)
  {
    if s == [] then [] else (if p(s[0]) then [s[0]] else []) + Filter(s[1..], p)
  }

  lemma {:induction false} FilterMultiset<T(!new)>(s: seq<T>, p: T -> bool, x: T)
    ensures multiset(Filter(s, p))[x] == if p(x) then multiset(s)[x] else 0
    decreases |s|
  {
    if s != [] {
      FilterMultiset(s[1..], p, x);
      var head := if p(s[0]) then [s[0]] else [];
      assert Filter(s, p) == head + Filter(s[1..], p);
      assert s == [s[0]] + s[1..];
      assert multiset(s) == multiset{s[0]} + multiset(s[1..]);
      assert multiset(Filter(s, p)) == multiset(head) + multiset(Filter(s[1..], p));
    }
  }

  lemma {:induction false} FilterSorted<T(!new)>(s: seq<T>, p: T -> bool, leq: (T, T) -> bool)
    requires SortedBy(s, leq)
    ensures SortedBy(Filter(s, p), leq)
    decreases |s|
  {
    if s != [] {
      FilterSorted(s[1..], p, leq);
      var rest := Filter(s[1..], p);
      forall k | 0 <= k < |rest| ensures leq(s[0], rest[k]) {
        assert rest[k] in s[1..];
      }
    }
  }

  /** Filtering distributes over concatenation. */
  lemma {:induction false} FilterAppend<T(!new)>(s: seq<T>, t: seq<T>, p: T -> bool)
    ensures Filter(s + t, p) == Filter(s, p) + Filter(t, p)
    decreases |s|
  {
    if s != [] {
      assert (s + t)[1..] == s[1..] + t;
      FilterAppend(s[1..], t, p);
    } else {
      assert s + t == t;
    }
  }

  /** Filtering keeps a list free of duplicates. */
  lemma {:induction false} FilterNoDuplicates<T(!new)>(s: seq<T>, p: T -> bool)
    requires NoDuplicates(s)
    ensures NoDuplicates(Filter(s, p))
    decreases |s|
  {
    if s != [] {
      FilterNoDuplicates(s[1..], p);
      assert s[0] !in s[1..];
    }
  }

  /** `s.filter(y => y !== x)`. */
  function Remove<T(==,!new)>(s: seq<T>, x: T): (r: seq<T>)
    ensures x !in r
    ensures forall y :: y != x ==> (y in r <==> y in s)
  {
    Filter(s, y => y != x)
  }

  // ---------------------------------------------------------------------------
  // sort

  /** Insertion of `x` after every element not above it (so equal elements keep their order). */
  function Insert<T(!new)>(x: T, s: seq<T>, leq: (T, T) -> bool): (r: seq<T>)
    ensures multiset(r) == multiset(s) + multiset{x} && |r| == |s| + 1
  {
    if s == [] then [x]
    else if !leq(s[0], x) then [x] + s
    else
      assert s == [s[0]] + s[1..];
      [s[0]] + Insert(x, s[1..], leq)
  }

  lemma {:induction false} InsertSorted<T(!new)>(x: T, s: seq<T>, leq: (T, T) -> bool)
    requires IsTotalPreorder(leq) && SortedBy(s, leq)
    ensures SortedBy(Insert(x, s, leq), leq)
    decreases |s|
  {
    if s != [] && leq(s[0], x) {
      InsertSorted(x, s[1..], leq);
      var rest := Insert(x, s[1..], leq);
      forall k | 0 <= k < |rest| ensures leq(s[0], rest[k]) {
        assert rest[k] in multiset(s[1..]) + multiset{x};
        if rest[k] != x {
          assert rest[k] in s[1..];
        }
      }
    }
  }

  /** A stable insertion sort by `leq`, the behaviour of `Array.prototype.sort` with a consistent comparator. */
  function Sort<T(!new)>(s: seq<T>, leq: (T, T) -> bool): (r: seq<T>)
    ensures multiset(r) == multiset(s) && |r| == |s|
  {
    if s == [] then []
    else
      assert s == s[..|s| - 1] + [s[|s| - 1]];
      Insert(s[|s| - 1], Sort(s[..|s| - 1], leq), leq)
  }

  lemma {:induction false} SortSorted<T(!new)>(s: seq<T>, leq: (T, T) -> bool)
    requires IsTotalPreorder(leq)
    ensures SortedBy(Sort(s, leq), leq)
    decreases |s|
  {
    if s != [] {
      SortSorted(s[..|s| - 1], leq);
      InsertSorted(s[|s| - 1], Sort(s[..|s| - 1], leq), leq);
    }
  }

  /** Under a total order a sorted list is determined by its elements. */
  lemma {:induction false} SortedUnique<T(!new)>(a: seq<T>, b: seq<T>, leq: (T, T) -> bool)
    requires IsTotalOrder(leq)
    requires SortedBy(a, leq) && SortedBy(b, leq) && multiset(a) == multiset(b)
    ensures a == b
    decreases |a|
  {
    if a != [] {
      assert |b| == |multiset(b)| == |a|;
      assert a[0] in multiset(b) && b[0] in multiset(a);
      assert leq(a[0], b[0]) by {
        var j :| 0 <= j < |b| && b[j] == a[0];
        assert j == 0 || leq(b[0], b[j]);
      }
      assert leq(b[0], a[0]) by {
        var j :| 0 <= j < |a| && a[j] == b[0];
        assert j == 0 || leq(a[0], a[j]);
      }
      assert a[0] == b[0];
      assert a == [a[0]] + a[1..] && b == [b[0]] + b[1..];
      forall y ensures multiset(a[1..])[y] == multiset(b[1..])[y] {
        assert multiset(a)[y] == multiset(a[1..])[y] + (if y == a[0] then 1 else 0);
        assert multiset(b)[y] == multiset(b[1..])[y] + (if y == b[0] then 1 else 0);
      }
      assert multiset(a[1..]) == multiset(b[1..]);
      SortedUnique(a[1..], b[1..], leq);
    }
  }

  /** No element occurs twice in `s` exactly when its multiset has every count at most one. */
  lemma {:induction false} NoDuplicatesMultiset<T(!new)>(s: seq<T>)
    ensures NoDuplicates(s) <==> forall x :: multiset(s)[x] <= 1
    decreases |s|
  {
    if s != [] {
      NoDuplicatesMultiset(s[1..]);
      assert s == [s[0]] + s[1..];
      if NoDuplicates(s) {
        assert s[0] !in s[1..];
      }
      if forall x :: multiset(s)[x] <= 1 {
        assert multiset(s[1..])[s[0]] == 0;
        forall x ensures multiset(s[1..])[x] <= 1 {
          assert multiset(s)[x] == multiset(s[1..])[x] + (if x == s[0] then 1 else 0);
        }
      }
    }
  }

  // ---------------------------------------------------------------------------
  // toggle

  /**
   * A checkbox list toggle: remove `x` when present, otherwise append it
   * and sort with `leq`.
   */
  function Toggle<T(==,!new)>(s: seq<T>, x: T, leq: (T, T) -> bool): (r: seq<T>)
    requires IsTotalPreorder(leq)
    ensures x in r <==> x !in s
    ensures forall y :: y != x ==> (y in r <==> y in s)
    ensures x !in s ==> SortedBy(r, leq) && multiset(r) == multiset(s) + multiset{x}
    ensures x in s ==> r == Remove(s, x)
  {
    if x in s then Remove(s, x)
    else
      var r := Sort(s + [x], leq);
      SortSorted(s + [x], leq);
      assert forall y :: y in r <==> y in multiset(s + [x]);
      r
  }

  /** A toggle keeps a list sorted and free of duplicates. */
  lemma ToggleKeepsShape<T(!new)>(s: seq<T>, x: T, leq: (T, T) -> bool)
    requires IsTotalPreorder(leq) && SortedBy(s, leq) && NoDuplicates(s)
    ensures SortedBy(Toggle(s, x, leq), leq) && NoDuplicates(Toggle(s, x, leq))
  {
    var r := Toggle(s, x, leq);
    if x in s {
      FilterSorted(s, y => y != x, leq);
      FilterNoDuplicates(s, y => y != x);
    } else {
      NoDuplicatesMultiset(s);
      forall y ensures multiset(r)[y] <= 1 {
        assert multiset(r)[y] == multiset(s)[y] + (if y == x then 1 else 0);
      }
      NoDuplicatesMultiset(r);
    }
  }

  /** A toggle keeps a list sorted. */
  lemma ToggleKeepsSorted<T(!new)>(s: seq<T>, x: T, leq: (T, T) -> bool)
    requires IsTotalPreorder(leq) && SortedBy(s, leq)
    ensures SortedBy(Toggle(s, x, leq), leq)
  {
    if x in s {
      FilterSorted(s, y => y != x, leq);
    }
  }

  /** A subset with as many elements as its superset is the superset. */
  lemma SubsetSameSize<T>(a: set<T>, b: set<T>)
    requires a <= b && |a| == |b|
    ensures a == b
  {
    if a != b {
      assert !(b <= a);
      var x :| x in b && x !in a;
      assert a <= b - {x};
      assert |b - {x}| == |b| - 1;
      SubsetSize(a, b - {x});
    }
  }

  lemma {:induction false} SubsetSize<T>(a: set<T>, b: set<T>)
    requires a <= b
    ensures |a| <= |b|
    decreases |b|
  {
    if a != {} {
      var x :| x in a;
      SubsetSize(a - {x}, b - {x});
    }
  }

  /** Toggling the same value twice gives back the original list (sorted, without duplicates). */
  lemma ToggleTwice<T(!new)>(s: seq<T>, x: T, leq: (T, T) -> bool)
    requires IsTotalOrder(leq) && SortedBy(s, leq) && NoDuplicates(s)
    ensures Toggle(Toggle(s, x, leq), x, leq) == s
  {
    if x in s {
      ToggleTwicePresent(s, x, leq);
    } else {
      ToggleTwiceAbsent(s, x, leq);
    }
  }

  lemma ToggleTwicePresent<T(!new)>(s: seq<T>, x: T, leq: (T, T) -> bool)
    requires IsTotalOrder(leq) && SortedBy(s, leq) && NoDuplicates(s) && x in s
    ensures Toggle(Toggle(s, x, leq), x, leq) == s
  {
    var once := Remove(s, x);
    assert x !in once;
    var twice := Sort(once + [x], leq);
    SortSorted(once + [x], leq);
    NoDuplicatesMultiset(s);
    forall y ensures multiset(twice)[y] == multiset(s)[y] {
      FilterMultiset(s, z => z != x, y);
    }
    assert multiset(twice) == multiset(s);
    SortedUnique(twice, s, leq);
  }

  lemma ToggleTwiceAbsent<T(!new)>(s: seq<T>, x: T, leq: (T, T) -> bool)
    requires IsTotalOrder(leq) && SortedBy(s, leq) && x !in s
    ensures Toggle(Toggle(s, x, leq), x, leq) == s
  {
    var once := Toggle(s, x, leq);
    var twice := Toggle(once, x, leq);
    assert twice == Remove(once, x);
    RemoveMultiset(once, x);
    forall y ensures multiset(twice)[y] == multiset(s)[y] {
      if y == x {
        assert multiset(s)[y] == 0;
      }
    }
    assert multiset(twice) == multiset(s);
    FilterSorted(once, z => z != x, leq);
    SortedUnique(twice, s, leq);
  }

  /** Removing `x` takes away all its occurrences and nothing else. */
  lemma RemoveMultiset<T(!new)>(s: seq<T>, x: T)
    ensures multiset(Remove(s, x)) == multiset(s)[x := 0]
  {
    forall y ensures multiset(Remove(s, x))[y] == multiset(s)[x := 0][y] {
      FilterMultiset(s, z => z != x, y);
    }
  }

}

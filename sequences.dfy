/**
 * Array helpers the core uses through JavaScript's built-ins: `filter`, and the stable
 * `sort` of `Array.prototype.sort` (specified by a stable insertion sort).
 */
module Sequences {

  /** `s.filter(p)`. */
  function Filter<T>(s: seq<T>, p: T -> bool): (r: seq<T>)
    ensures |r| <= |s|
    ensures forall i | 0 <= i < |r| :: r[i] in s && p(r[i])
    ensures forall i | 0 <= i < |s| :: p(s[i]) ==> s[i] in r
    decreases |s|
  {
    if s == [] then []
    else
      var init := Filter(s[..|s| - 1], p);
      var last := s[|s| - 1];
      assert s == s[..|s| - 1] + [last];
      assert forall i | 0 <= i < |s| - 1 :: s[i] == s[..|s| - 1][i];
      if p(last) then init + [last] else init
  }

  lemma {:induction false} FilterAppend<T>(a: seq<T>, b: seq<T>, p: T -> bool)
    ensures Filter(a + b, p) == Filter(a, p) + Filter(b, p)
    decreases |b|
  {
    if b == [] {
      assert a + b == a;
    } else {
      assert (a + b)[..|a + b| - 1] == a + b[..|b| - 1];
      FilterAppend(a, b[..|b| - 1], p);
    }
  }

  /** No element occurs twice. */
  predicate Distinct<T(==)>(s: seq<T>) {
    forall i, j | 0 <= i < j < |s| :: s[i] != s[j]
  }

  lemma {:induction false} DistinctMultiset<T>(s: seq<T>)
    ensures Distinct(s) <==> forall x | x in s :: multiset(s)[x] == 1
    decreases |s|
  {
    if s != [] {
      var init, last := s[..|s| - 1], s[|s| - 1];
      assert s == init + [last];
      DistinctMultiset(init);
      if Distinct(s) {
        forall i | 0 <= i < |init| ensures init[i] != last {
          assert init[i] == s[i];
        }
        forall x | x in s ensures multiset(s)[x] == 1 {
          if x != last { assert x in init; }
        }
      } else {
        var i, j :| 0 <= i < j < |s| && s[i] == s[j];
        if j == |s| - 1 {
          assert s[i] in init;
          assert multiset(s)[last] == multiset(init)[last] + 1;
        } else {
          assert init[i] == init[j];
          assert !Distinct(init);
          var x :| x in init && multiset(init)[x] != 1;
          assert multiset(s)[x] >= multiset(init)[x];
        }
      }
    }
  }

  /** Two duplicate-free sequences with no element in common concatenate to one. */
  /** A property of every element of two sequences holds of every element of their concatenation. */
  lemma AllInConcat<T>(a: seq<T>, b: seq<T>, p: T -> bool)
    requires forall i | 0 <= i < |a| :: p(a[i])
    requires forall i | 0 <= i < |b| :: p(b[i])
    ensures forall i | 0 <= i < |a + b| :: p((a + b)[i])
  {
    forall i | 0 <= i < |a + b| ensures p((a + b)[i]) {
      if i < |a| {
        assert (a + b)[i] == a[i];
      } else {
        assert (a + b)[i] == b[i - |a|];
      }
    }
  }

  lemma DistinctConcat<T>(a: seq<T>, b: seq<T>)
    requires Distinct(a) && Distinct(b)
    requires forall i, j | 0 <= i < |a| && 0 <= j < |b| :: a[i] != b[j]
    ensures Distinct(a + b)
  {
    forall i, j | 0 <= i < j < |a + b| ensures (a + b)[i] != (a + b)[j] {
      if j < |a| {
        assert (a + b)[i] == a[i] && (a + b)[j] == a[j];
      } else if i < |a| {
        assert (a + b)[i] == a[i] && (a + b)[j] == b[j - |a|];
      } else {
        assert (a + b)[i] == b[i - |a|] && (a + b)[j] == b[j - |a|];
      }
    }
  }

  /** A permutation of a duplicate-free sequence is duplicate-free. */
  lemma DistinctPermutation<T>(a: seq<T>, b: seq<T>)
    requires multiset(a) == multiset(b) && Distinct(a)
    ensures Distinct(b)
  {
    DistinctMultiset(a);
    DistinctMultiset(b);
    forall x | x in b ensures multiset(b)[x] == 1 {
      assert x in multiset(b);
      assert x in a;
    }
  }

  lemma DistinctFilter<T>(s: seq<T>, p: T -> bool)
    requires Distinct(s)
    ensures Distinct(Filter(s, p))
    decreases |s|
  {
    if s != [] {
      DistinctFilter(s[..|s| - 1], p);
      var last := s[|s| - 1];
      var init := s[..|s| - 1];
      forall i | 0 <= i < |init| ensures init[i] != last {
        assert init[i] == s[i];
      }
    }
  }

  /** `le` is a total preorder, which is what a consistent comparator induces. */
  ghost predicate TotalPreorder<T(!new)>(le: (T, T) -> bool) {
    && (forall a, b :: le(a, b) || le(b, a))
    && (forall a, b, c :: le(a, b) && le(b, c) ==> le(a, c))
  }

  predicate SortedBy<T>(s: seq<T>, le: (T, T) -> bool) {
    forall i, j | 0 <= i < j < |s| :: le(s[i], s[j])
  }

  /** Where a stable insertion places `x`: after every element that may precede it. */
  function InsertPos<T>(x: T, s: seq<T>, le: (T, T) -> bool): (k: nat)
    ensures k <= |s|
    ensures forall i | 0 <= i < k :: le(s[i], x)
    ensures k < |s| ==> !le(s[k], x)
  {
    if s == [] || !le(s[0], x) then 0 else 1 + InsertPos(x, s[1..], le)
  }

  function Insert<T>(x: T, s: seq<T>, le: (T, T) -> bool): (r: seq<T>)
    ensures multiset(r) == multiset(s) + multiset{x}
    ensures |r| == |s| + 1
  {
    var k := InsertPos(x, s, le);
    assert s == s[..k] + s[k..];
    s[..k] + [x] + s[k..]
  }

  /**
   * A stable sort: the model of `Array.prototype.sort` with the comparator whose
   * "not after" relation is `le`. It permutes its input.
   */
  function Sort<T>(s: seq<T>, le: (T, T) -> bool): (r: seq<T>)
    ensures multiset(r) == multiset(s)
    ensures |r| == |s|
    decreases |s|
  {
    if s == [] then []
    else
      assert s == s[..|s| - 1] + [s[|s| - 1]];
      Insert(s[|s| - 1], Sort(s[..|s| - 1], le), le)
  }

  /** The order a stable sort must produce: by `le`, and by `tb` among `le`-ties. */
  ghost predicate SortedStably<T>(r: seq<T>, le: (T, T) -> bool, tb: (T, T) -> bool) {
    forall i, j | 0 <= i < j < |r| :: le(r[i], r[j]) && (le(r[j], r[i]) ==> tb(r[i], r[j]))
  }

  lemma InsertStable<T(!new)>(x: T, q: seq<T>, le: (T, T) -> bool, tb: (T, T) -> bool)
    requires TotalPreorder(le)
    requires SortedStably(q, le, tb)
    requires forall e | e in q :: tb(e, x)
    ensures SortedStably(Insert(x, q, le), le, tb)
  {
    var k := InsertPos(x, q, le);
    var r := Insert(x, q, le);
    assert r == q[..k] + [x] + q[k..];
    forall i, j | 0 <= i < j < |r| ensures le(r[i], r[j]) && (le(r[j], r[i]) ==> tb(r[i], r[j])) {
      if j < k {
        assert r[i] == q[i] && r[j] == q[j];
      } else if j == k {
        assert r[i] == q[i] && r[j] == x;
        assert q[i] in q;
      } else if i == k {
        assert r[j] == q[j - 1] && r[i] == x;
        assert le(x, q[k]);
        if j - 1 > k {
          assert le(q[k], q[j - 1]);
          assert !le(q[j - 1], x);
        }
      } else if i < k {
        assert r[i] == q[i] && r[j] == q[j - 1];
      } else {
        assert r[i] == q[i - 1] && r[j] == q[j - 1];
      }
    }
  }

  /**
   * Under a total preorder the output is sorted, and elements the order ties keep
   * the order `tb` in which they arrived: a stable sort of a `tb`-increasing input
   * is sorted lexicographically by (`le`, `tb`).
   */
  lemma {:induction false} SortStable<T(!new)>(s: seq<T>, le: (T, T) -> bool, tb: (T, T) -> bool)
    requires TotalPreorder(le)
    requires forall i, j | 0 <= i < j < |s| :: tb(s[i], s[j])
    ensures SortedStably(Sort(s, le), le, tb)
    decreases |s|
  {
    if s != [] {
      var init, x := s[..|s| - 1], s[|s| - 1];
      SortStable(init, le, tb);
      var q := Sort(init, le);
      forall e | e in q ensures tb(e, x) {
        assert e in multiset(init);
        var m :| 0 <= m < |init| && init[m] == e;
        assert s[m] == e;
      }
      InsertStable(x, q, le, tb);
    }
  }

  lemma {:induction false} FilterSubMultiset<T>(s: seq<T>, p: T -> bool)
    ensures multiset(Filter(s, p)) <= multiset(s)
    decreases |s|
  {
    if s != [] {
      FilterSubMultiset(s[..|s| - 1], p);
      assert s == s[..|s| - 1] + [s[|s| - 1]];
    }
  }

  lemma FilterSingleton<T>(x: T, p: T -> bool)
    ensures Filter([x], p) == (if p(x) then [x] else [])
  {
    assert [x][..0] == [];
  }

  lemma {:induction false} FilterNone<T>(s: seq<T>, p: T -> bool)
    requires forall i | 0 <= i < |s| :: !p(s[i])
    ensures Filter(s, p) == []
    decreases |s|
  {
    if s != [] {
      FilterNone(s[..|s| - 1], p);
    }
  }

  /** Nothing `le`-equivalent to `x` follows the place where `x` is inserted. */
  lemma {:induction false} NoClassMemberAfter<T(!new)>(x: T, q: seq<T>, le: (T, T) -> bool, p: T -> bool)
    requires TotalPreorder(le) && SortedBy(q, le)
    requires p(x) && forall a | p(a) :: le(a, x)
    ensures var k := InsertPos(x, q, le); forall i | k <= i < |q| :: !p(q[i])
  {
    var k := InsertPos(x, q, le);
    forall i | k <= i < |q| ensures !p(q[i]) {
      if i > k { assert le(q[k], q[i]); }
    }
  }

  lemma {:induction false} FilterSplice<T>(x: T, q: seq<T>, k: nat, p: T -> bool)
    requires k <= |q|
    requires p(x) ==> Filter(q[k..], p) == []
    ensures Filter(q[..k] + [x] + q[k..], p) == Filter(q, p) + (if p(x) then [x] else [])
  {
    var u, w := q[..k], q[k..];
    assert q == u + w;
    FilterAppend3(u, [x], w, p);
    FilterAppend(u, w, p);
    FilterSingleton(x, p);
    SwapEmpty(Filter(u, p), Filter([x], p), Filter(w, p));
  }

  /** Two adjacent parts of a concatenation commute when one of them is empty. */
  lemma SwapEmpty<T>(a: seq<T>, b: seq<T>, c: seq<T>)
    requires b == [] || c == []
    ensures a + b + c == a + c + b
  {
  }

  lemma FilterAppend3<T>(a: seq<T>, b: seq<T>, c: seq<T>, p: T -> bool)
    ensures Filter(a + b + c, p) == Filter(a, p) + Filter(b, p) + Filter(c, p)
  {
    FilterAppend(a + b, c, p);
    FilterAppend(a, b, p);
  }

  lemma {:induction false} FilterInsert<T(!new)>(x: T, q: seq<T>, le: (T, T) -> bool, p: T -> bool)
    requires TotalPreorder(le) && SortedBy(q, le)
    requires p(x) ==> forall a | p(a) :: le(a, x)
    ensures Filter(Insert(x, q, le), p) == Filter(q, p) + (if p(x) then [x] else [])
  {
    var k := InsertPos(x, q, le);
    if p(x) {
      NoClassMemberAfter(x, q, le, p);
      FilterNone(q[k..], p);
    }
    FilterSplice(x, q, k, p);
  }

  lemma SortSorted<T(!new)>(s: seq<T>, le: (T, T) -> bool)
    requires TotalPreorder(le)
    ensures SortedBy(Sort(s, le), le)
  {
    SortStable(s, le, (a: T, b: T) => true);
  }

  lemma FilterSnoc<T>(init: seq<T>, x: T, p: T -> bool)
    ensures Filter(init + [x], p) == Filter(init, p) + (if p(x) then [x] else [])
  {
    FilterAppend(init, [x], p);
    FilterSingleton(x, p);
  }

  /** Every two elements satisfying `p` are tied by `le`. */
  ghost predicate OneClass<T(!new)>(le: (T, T) -> bool, p: T -> bool) {
    forall a, b | p(a) && p(b) :: le(a, b)
  }

  lemma SortSnoc<T>(init: seq<T>, x: T, le: (T, T) -> bool)
    ensures Sort(init + [x], le) == Insert(x, Sort(init, le), le)
  {
    assert (init + [x])[..|init|] == init;
  }

  lemma {:induction false} SortKeepsClassOrder<T(!new)>(s: seq<T>, le: (T, T) -> bool, p: T -> bool)
    requires TotalPreorder(le)
    requires OneClass(le, p)
    ensures Filter(Sort(s, le), p) == Filter(s, p)
    decreases |s|
  {
    if s != [] {
      var init, x := s[..|s| - 1], s[|s| - 1];
      assert s == init + [x];
      var q := Sort(init, le);
      SortSnoc(init, x, le);
      SortKeepsClassOrder(init, le, p);
      SortSorted(init, le);
      FilterInsert(x, q, le, p);
      FilterSnoc(init, x, p);
    }
  }
}

/**
 * Whole-column operations pandas provides and the pipeline uses: boolean-mask
 * sums, `duplicated()`, `unique()`, list filtering and the stable multi-key
 * sort behind `sort_values`.
 */
module Seqs {

  predicate Distinct<T(==)>(s: seq<T>) {
    forall i, j :: 0 <= i < j < |s| ==> s[i] != s[j]
  }

  function Elements<T(==)>(s: seq<T>): set<T> {
    set x | x in s
  }

  // ---------------------------------------------------------------- counting

  /** `mask.sum()` for a boolean column. */
  function CountTrue(bs: seq<bool>): (n: nat)
    ensures n <= |bs|
  {
    if bs == [] then 0 else CountTrue(bs[..|bs| - 1]) + (if bs[|bs| - 1] then 1 else 0)
  }

  lemma {:induction false} CountTrueAppend(a: seq<bool>, b: seq<bool>)
    ensures CountTrue(a + b) == CountTrue(a) + CountTrue(b)
    decreases |b|
  {
    if b == [] {
      assert a + b == a;
    } else {
      assert (a + b)[..|a + b| - 1] == a + b[..|b| - 1];
      CountTrueAppend(a, b[..|b| - 1]);
    }
  }

  /** A mask sums to zero exactly when no entry is set. */
  lemma {:induction false} CountTrueZero(bs: seq<bool>)
    ensures CountTrue(bs) == 0 <==> forall i :: 0 <= i < |bs| ==> !bs[i]
  {
    if bs != [] {
      CountTrueZero(bs[..|bs| - 1]);
      assert forall i :: 0 <= i < |bs| - 1 ==> bs[..|bs| - 1][i] == bs[i];
    }
  }

  /** A mask sums to its length exactly when every entry is set. */
  lemma {:induction false} CountTrueFull(bs: seq<bool>)
    ensures CountTrue(bs) == |bs| <==> forall i :: 0 <= i < |bs| ==> bs[i]
  {
    if bs != [] {
      CountTrueFull(bs[..|bs| - 1]);
      assert forall i :: 0 <= i < |bs| - 1 ==> bs[..|bs| - 1][i] == bs[i];
    }
  }

  /** Entry-wise disjunction of two masks of the same length. */
  function Or(a: seq<bool>, b: seq<bool>): (r: seq<bool>)
    requires |a| == |b|
    ensures |r| == |a| && forall i :: 0 <= i < |a| ==> (r[i] <==> a[i] || b[i])
  {
    seq(|a|, i requires 0 <= i < |a| => a[i] || b[i])
  }

  /** Summing two masks that are never set together counts each position at most once. */
  lemma {:induction false} CountTrueDisjoint(a: seq<bool>, b: seq<bool>)
    requires |a| == |b|
    requires forall i :: 0 <= i < |a| ==> !(a[i] && b[i])
    ensures CountTrue(a) + CountTrue(b) == CountTrue(Or(a, b))
    decreases |a|
  {
    if a != [] {
      var n := |a| - 1;
      assert Or(a, b)[..n] == Or(a[..n], b[..n]);
      CountTrueDisjoint(a[..n], b[..n]);
    }
  }

  /** `column.sum()` for an integer column. */
  function Sum(xs: seq<int>): int {
    if xs == [] then 0 else Sum(xs[..|xs| - 1]) + xs[|xs| - 1]
  }

  /** A sum of values in [lo, hi] lies between |xs| times each bound. */
  lemma {:induction false} SumBounds(xs: seq<int>, lo: int, hi: int)
    requires forall i :: 0 <= i < |xs| ==> lo <= xs[i] <= hi
    ensures lo * |xs| <= Sum(xs) <= hi * |xs|
  {
    if xs != [] {
      var n := |xs| - 1;
      SumBounds(xs[..n], lo, hi);
      assert lo * |xs| == lo * n + lo && hi * |xs| == hi * n + hi;
    }
  }

  // ----------------------------------------------------------------- mapping

  /** `f` applied to every element, in order (a column-wise `.map(f)`). */
  function Map<A, B>(f: A -> B, s: seq<A>): (r: seq<B>)
    ensures |r| == |s| && forall i :: 0 <= i < |s| ==> r[i] == f(s[i])
  {
    seq(|s|, i requires 0 <= i < |s| => f(s[i]))
  }

  /** Mapping a prefix one element longer appends that element's image. */
  lemma MapSnoc<A, B>(f: A -> B, s: seq<A>, n: nat)
    requires n < |s|
    ensures Map(f, s[..n + 1]) == Map(f, s[..n]) + [f(s[n])]
  {
  }

  // -------------------------------------------------------------- duplicates

  /** pandas `duplicated()` (keep="first"): set at every occurrence after the first. */
  function DuplicatedMask<T(==)>(s: seq<T>): (m: seq<bool>)
    ensures |m| == |s|
    ensures forall i :: 0 <= i < |s| ==> (m[i] <==> s[i] in s[..i])
  {
    seq(|s|, i requires 0 <= i < |s| => s[i] in s[..i])
  }

  /** No entry is flagged as a duplicate exactly when all entries are distinct. */
  lemma NoDuplicatedIffDistinct<T>(s: seq<T>)
    ensures CountTrue(DuplicatedMask(s)) == 0 <==> Distinct(s)
  {
    var m := DuplicatedMask(s);
    CountTrueZero(m);
    if !Distinct(s) {
      var i, j :| 0 <= i < j < |s| && s[i] == s[j];
      assert s[..j][i] == s[j];
    }
  }

  /** The number of duplicated entries is the length minus the number of distinct values. */
  lemma {:induction false} DuplicateCount<T>(s: seq<T>)
    ensures CountTrue(DuplicatedMask(s)) == |s| - |Elements(s)|
  {
    if s == [] {
      assert Elements(s) == {};
    } else {
      var n := |s| - 1;
      var init, last := s[..n], s[n];
      var m := DuplicatedMask(s);
      DuplicateCount(init);
      assert m[..n] == DuplicatedMask(init) by {
        forall i | 0 <= i < n ensures s[..i] == init[..i] { }
      }
      assert CountTrue(m) == CountTrue(DuplicatedMask(init)) + (if m[n] then 1 else 0);
      assert m[n] <==> last in init;
      assert Elements(s) == Elements(init) + {last} by {
        assert s == init + [last];
      }
      if last !in init {
        assert last !in Elements(init);
        assert |Elements(s)| == |Elements(init)| + 1;
      }
    }
  }

  /** The values of `s` at its duplicated positions, in position order. */
  function Repeats<T(==,!new)>(s: seq<T>): (r: seq<T>)
    ensures forall x :: x in r <==> exists i, j :: 0 <= i < j < |s| && s[i] == x && s[j] == x
  {
    if s == [] then []
    else
      var n := |s| - 1;
      var init := s[..n];
      assert forall i, j :: 0 <= i < j < n ==> init[i] == s[i] && init[j] == s[j];
      Repeats(init) + (if s[n] in init then [s[n]] else [])
  }

  /** `x` occurs at least twice in `s`. */
  predicate RepeatedIn<T(==)>(s: seq<T>, x: T) {
    exists i, j :: 0 <= i < j < |s| && s[i] == x && s[j] == x
  }

  /**
   * `Repeats` lists values in the order in which they first repeat: when `a`
   * comes before `b`, some prefix of `s` already repeats `a` but not `b`.
   */
  lemma {:induction false} RepeatsOrder<T(!new)>(s: seq<T>, a: T, b: T)
    requires a in Repeats(s) && b in Repeats(s)
    requires IndexOf(Repeats(s), a) < IndexOf(Repeats(s), b)
    ensures exists n: nat :: n <= |s| && RepeatedIn(s[..n], a) && !RepeatedIn(s[..n], b)
  {
    var m := |s| - 1;
    var init := s[..m];
    var ri, r := Repeats(init), Repeats(s);
    assert r == ri + (if s[m] in init then [s[m]] else []);
    assert r[..|ri|] == ri;
    var ia := IndexOf(r, a);
    assert ia < |ri| && r[ia] == a;
    assert a in ri && a in r[..|ri|];
    IndexOfPrefix(r, |ri|, a);
    if b in ri {
      IndexOfPrefix(r, |ri|, b);
      RepeatsOrder(init, a, b);
      var n: nat :| n <= |init| && RepeatedIn(init[..n], a) && !RepeatedIn(init[..n], b);
      assert init[..n] == s[..n];
    } else {
      assert RepeatedIn(init, a) && !RepeatedIn(init, b);
      assert s[..m] == init;
    }
  }

  // ---------------------------------------------------------------- unique

  /** pandas `unique()`: each value once, in order of first occurrence. */
  function Unique<T(==,!new)>(s: seq<T>): (u: seq<T>)
    ensures Distinct(u)
    ensures forall x :: x in u <==> x in s
  {
    if s == [] then []
    else
      var init := s[..|s| - 1];
      assert s == init + [s[|s| - 1]];
      if s[|s| - 1] in init then Unique(init) else Unique(init) + [s[|s| - 1]]
  }

  /** Index of the first occurrence of `x`. */
  function IndexOf<T(==)>(s: seq<T>, x: T): (k: nat)
    requires x in s
    ensures k < |s| && s[k] == x && x !in s[..k]
  {
    if s[0] == x then 0 else 1 + IndexOf(s[1..], x)
  }

  lemma IndexOfPrefix<T>(s: seq<T>, n: nat, x: T)
    requires n <= |s| && x in s[..n]
    ensures IndexOf(s, x) == IndexOf(s[..n], x)
  {
    var k' := IndexOf(s[..n], x);
    assert s[..n][..k'] == s[..k'];
  }

  /** `unique()` keeps the values in the order of their first occurrence in the input. */
  lemma {:induction false} UniqueOrder<T(!new)>(s: seq<T>)
    ensures forall p, q :: 0 <= p < q < |Unique(s)| ==> IndexOf(s, Unique(s)[p]) < IndexOf(s, Unique(s)[q])
  {
    if s != [] {
      var n := |s| - 1;
      var init, u0 := s[..n], Unique(s[..n]);
      UniqueOrder(init);
      var u := Unique(s);
      forall p, q | 0 <= p < q < |u| ensures IndexOf(s, u[p]) < IndexOf(s, u[q]) {
        assert u[p] in init;
        IndexOfPrefix(s, n, u[p]);
        if q < |u0| {
          IndexOfPrefix(s, n, u[q]);
        } else {
          assert u[q] == s[n] && s[n] !in init;
          assert s[..n] == init;
          assert IndexOf(s, u[q]) == n;
        }
      }
    }
  }

  // ---------------------------------------------------------------- filtering

  /** The elements satisfying `p`, in order. */
  function Filter<T(==,!new)>(s: seq<T>, p: T -> bool): (r: seq<T>)
    ensures |r| <= |s|
    ensures forall x :: x in r <==> x in s && p(x)
  {
    if s == [] then [] else (if p(s[0]) then [s[0]] else []) + Filter(s[1..], p)
  }

  /** `a` is `b` with some elements removed (relative order kept). */
  predicate IsSubsequence<T(==)>(a: seq<T>, b: seq<T>)
    decreases |b|
  {
    if a == [] then true
    else if b == [] then false
    else (a[0] == b[0] && IsSubsequence(a[1..], b[1..])) || IsSubsequence(a, b[1..])
  }

  lemma {:induction false} FilterIsSubsequence<T(!new)>(s: seq<T>, p: T -> bool)
    ensures IsSubsequence(Filter(s, p), s)
  {
    if s != [] {
      FilterIsSubsequence(s[1..], p);
      if p(s[0]) {
        assert Filter(s, p) == [s[0]] + Filter(s[1..], p);
        assert Filter(s, p)[1..] == Filter(s[1..], p);
      } else {
        assert Filter(s, p) == Filter(s[1..], p);
      }
    }
  }

  // ---------------------------------------------------------------- sorting

  /** `le` is total and transitive: a sort key order that may have ties. */
  ghost predicate TotalPreorder<T(!new)>(le: (T, T) -> bool) {
    && (forall x, y :: le(x, y) || le(y, x))
    && (forall x, y, z :: le(x, y) && le(y, z) ==> le(x, z))
  }

  predicate SortedBy<T>(s: seq<T>, le: (T, T) -> bool) {
    forall i, j :: 0 <= i < j < |s| ==> le(s[i], s[j])
  }

  /** Places `x` before the first element it does not exceed, so earlier inputs stay first among ties. */
  function Insert<T(==)>(x: T, s: seq<T>, le: (T, T) -> bool): (r: seq<T>)
    ensures multiset(r) == multiset(s) + multiset{x}
  {
    if s == [] || le(x, s[0]) then [x] + s
    else
      assert s == [s[0]] + s[1..];
      [s[0]] + Insert(x, s[1..], le)
  }

  /** A stable sort by `le`: `sort_values` with several keys (a stable lexicographic sort). */
  function SortBy<T(==)>(s: seq<T>, le: (T, T) -> bool): (r: seq<T>)
    ensures multiset(r) == multiset(s)
  {
    if s == [] then []
    else
      assert s == [s[0]] + s[1..];
      Insert(s[0], SortBy(s[1..], le), le)
  }

  lemma {:induction false} InsertSorted<T(!new)>(x: T, s: seq<T>, le: (T, T) -> bool)
    requires TotalPreorder(le) && SortedBy(s, le)
    ensures SortedBy(Insert(x, s, le), le)
  {
    if s != [] && !le(x, s[0]) {
      var t := s[1..];
      assert SortedBy(t, le);
      InsertSorted(x, t, le);
      var r := Insert(x, t, le);
      forall k | 0 <= k < |r| ensures le(s[0], r[k]) {
        assert r[k] in multiset(r);
        if r[k] != x {
          assert r[k] in multiset(t);
          assert r[k] in t;
        }
      }
    }
  }

  /** `SortBy` orders its output by `le`. */
  lemma {:induction false} SortBySorted<T(!new)>(s: seq<T>, le: (T, T) -> bool)
    requires TotalPreorder(le)
    ensures SortedBy(SortBy(s, le), le)
  {
    if s != [] {
      SortBySorted(s[1..], le);
      InsertSorted(s[0], SortBy(s[1..], le), le);
    }
  }

  lemma {:induction false} InsertDistinct<T>(x: T, s: seq<T>, le: (T, T) -> bool)
    requires Distinct(s) && x !in s
    ensures Distinct(Insert(x, s, le))
  {
    if s != [] && !le(x, s[0]) {
      var t := s[1..];
      InsertDistinct(x, t, le);
      var r := Insert(x, t, le);
      assert s[0] !in t;
      assert s[0] !in r by {
        assert s[0] != x;
        assert s[0] !in multiset(t);
        assert s[0] !in multiset(r);
      }
    }
  }

  /** Sorting a sequence of distinct values keeps them distinct. */
  lemma {:induction false} SortByDistinct<T>(s: seq<T>, le: (T, T) -> bool)
    requires Distinct(s)
    ensures Distinct(SortBy(s, le))
  {
    if s != [] {
      SortByDistinct(s[1..], le);
      assert s[0] !in SortBy(s[1..], le) by {
        assert s[0] !in multiset(s[1..]);
      }
      InsertDistinct(s[0], SortBy(s[1..], le), le);
    }
  }

  lemma SameElements<T>(a: seq<T>, b: seq<T>)
    requires multiset(a) == multiset(b)
    ensures |a| == |b| && forall x :: x in a <==> x in b
  {
    assert |multiset(a)| == |multiset(b)|;
    forall x ensures x in a <==> x in b {
      assert x in a <==> x in multiset(a);
      assert x in b <==> x in multiset(b);
    }
  }
}

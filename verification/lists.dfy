/** The LINQ pipeline the query services are built from: `Where`, the stable
    `OrderBy`/`ThenBy` sort, and `Skip`/`Take` paging with a page count. */
module Lists {

  /** `Where(keep)`: the elements satisfying `keep`, in their original order. */
  function Filter<T(!new)>(s: seq<T>, keep: T -> bool): (r: seq<T>)
    ensures |r| <= |s|
    ensures forall x :: multiset(r)[x] == (if keep(x) then multiset(s)[x] else 0)
    ensures forall i :: 0 <= i < |r| ==> keep(r[i])
  {
    if |s| == 0 then []
    else
      assert s == [s[0]] + s[1..];
      (if keep(s[0]) then [s[0]] else []) + Filter(s[1..], keep)
  }

  lemma FilterMembership<T(!new)>(s: seq<T>, keep: T -> bool, x: T)
    ensures x in Filter(s, keep) <==> x in s && keep(x)
  {
    assert x in Filter(s, keep) <==> multiset(Filter(s, keep))[x] > 0;
    assert x in s <==> multiset(s)[x] > 0;
  }

  /** A filter that keeps everything is the identity. */
  lemma {:induction false} FilterAll<T(!new)>(s: seq<T>, keep: T -> bool)
    requires forall x :: x in s ==> keep(x)
    ensures Filter(s, keep) == s
  {
    if |s| > 0 {
      FilterAll(s[1..], keep);
      assert s == [s[0]] + s[1..];
    }
  }

  /** `Where` only looks at what `keep` says: two tests that agree give the same list. */
  lemma {:induction false} FilterAgreeing<T(!new)>(s: seq<T>, keep: T -> bool, keep': T -> bool)
    requires forall x :: keep(x) == keep'(x)
    ensures Filter(s, keep) == Filter(s, keep')
  {
    if |s| > 0 {
      FilterAgreeing(s[1..], keep, keep');
    }
  }

  /** Two successive `Where`s are one `Where` on the conjunction of their tests. */
  lemma {:induction false} FilterTwice<T(!new)>(s: seq<T>, first: T -> bool, second: T -> bool, both: T -> bool)
    requires forall x :: both(x) == (first(x) && second(x))
    ensures Filter(Filter(s, first), second) == Filter(s, both)
  {
    if |s| > 0 {
      FilterTwice(s[1..], first, second, both);
      var rest := Filter(s[1..], first);
      if first(s[0]) {
        assert Filter(s, first) == [s[0]] + rest;
        assert ([s[0]] + rest)[1..] == rest;
      } else {
        assert Filter(s, first) == rest;
      }
    }
  }

  /** No value occurs twice in `s`. */
  predicate Distinct<T(==)>(s: seq<T>) {
    forall i, j :: 0 <= i < j < |s| ==> s[i] != s[j]
  }

  /** A sequence with a new head is distinct when its tail is and the head
      does not occur in the tail. */
  lemma DistinctCons<T>(x: T, s: seq<T>)
    ensures Distinct([x] + s) <==> Distinct(s) && x !in s
  {
    var xs := [x] + s;
    assert forall i :: 0 <= i < |s| ==> xs[i + 1] == s[i];
    if Distinct(xs) {
      forall i, j | 0 <= i < j < |s| ensures s[i] != s[j] {
        assert s[i] == xs[i + 1] && s[j] == xs[j + 1];
      }
      forall i | 0 <= i < |s| ensures s[i] != x {
        assert xs[0] == x && xs[i + 1] == s[i];
      }
      assert Distinct(s) && x !in s;
    }
    if Distinct(s) && x !in s {
      forall i, j | 0 <= i < j < |xs| ensures xs[i] != xs[j] {
        assert xs[j] == s[j - 1] && s[j - 1] in s;
        if i > 0 {
          assert xs[i] == s[i - 1];
        }
      }
      assert Distinct(xs);
    }
  }

  /** The distinct values of `s` number exactly `|s|`. */
  lemma {:induction false} DistinctCount<T>(s: seq<T>)
    requires Distinct(s)
    ensures |set i | 0 <= i < |s| :: s[i]| == |s|
  {
    if |s| > 0 {
      var init := s[..|s| - 1];
      DistinctCount(init);
      assert (set i | 0 <= i < |s| :: s[i]) == (set i | 0 <= i < |init| :: init[i]) + {s[|s| - 1]};
      assert s[|s| - 1] !in (set i | 0 <= i < |init| :: init[i]);
    }
  }

  /** `le` orders every pair of values and is transitive: what `OrderBy` needs of a key comparison. */
  ghost predicate TotalPreorder<T(!new)>(le: (T, T) -> bool) {
    && (forall a, b :: le(a, b) || le(b, a))
    && (forall a, b, c :: le(a, b) && le(b, c) ==> le(a, c))
  }

  predicate Sorted<T>(s: seq<T>, le: (T, T) -> bool) {
    forall i, j :: 0 <= i < j < |s| ==> le(s[i], s[j])
  }

  /** `a` and `b` compare equal under `le`: neither sorts strictly before the other. */
  predicate Tied<T>(le: (T, T) -> bool, a: T, b: T) {
    le(a, b) && le(b, a)
  }

  /** The elements of `s` that tie with `c`, in their order in `s`. */
  function Ties<T>(s: seq<T>, le: (T, T) -> bool, c: T): seq<T> {
    if |s| == 0 then []
    else (if Tied(le, s[0], c) then [s[0]] else []) + Ties(s[1..], le, c)
  }

  /** Puts `x` in front of the first element it does not sort after, so `x`
      precedes every element it ties with. */
  function Insert<T>(x: T, s: seq<T>, le: (T, T) -> bool): (r: seq<T>)
    ensures multiset(r) == multiset(s) + multiset{x}
    ensures |r| == |s| + 1
  {
    if |s| == 0 || le(x, s[0]) then [x] + s
    else
      assert s == [s[0]] + s[1..];
      [s[0]] + Insert(x, s[1..], le)
  }

  /** The stable sort `OrderBy` performs: insertion sort from the back of the list. */
  function SortBy<T>(s: seq<T>, le: (T, T) -> bool): (r: seq<T>)
    ensures multiset(r) == multiset(s)
    ensures |r| == |s|
  {
    if |s| == 0 then []
    else
      assert s == [s[0]] + s[1..];
      Insert(s[0], SortBy(s[1..], le), le)
  }

  lemma {:induction false} InsertSorted<T(!new)>(x: T, s: seq<T>, le: (T, T) -> bool)
    requires TotalPreorder(le) && Sorted(s, le)
    ensures Sorted(Insert(x, s, le), le)
  {
    var r := Insert(x, s, le);
    if |s| == 0 {
    } else if le(x, s[0]) {
      forall i, j | 0 <= i < j < |r| ensures le(r[i], r[j]) {
        if i == 0 {
          assert r[j] == s[j - 1];
          if j > 1 { assert le(s[0], s[j - 1]); }
        } else {
          assert r[i] == s[i - 1] && r[j] == s[j - 1];
        }
      }
    } else {
      var t := Insert(x, s[1..], le);
      InsertSorted(x, s[1..], le);
      assert r == [s[0]] + t;
      forall i, j | 0 <= i < j < |r| ensures le(r[i], r[j]) {
        if i == 0 {
          assert r[j] == t[j - 1];
          assert r[j] in multiset(t);
          assert r[j] in multiset(s[1..]) || r[j] == x;
          if r[j] != x {
            var k :| 0 <= k < |s[1..]| && s[1..][k] == r[j];
            assert le(s[0], s[k + 1]);
          }
        } else {
          assert r[i] == t[i - 1] && r[j] == t[j - 1];
        }
      }
    }
  }

  /** `SortBy` orders its result by `le`. */
  lemma {:induction false} SortBySorted<T(!new)>(s: seq<T>, le: (T, T) -> bool)
    requires TotalPreorder(le)
    ensures Sorted(SortBy(s, le), le)
  {
    if |s| > 0 {
      SortBySorted(s[1..], le);
      InsertSorted(s[0], SortBy(s[1..], le), le);
    }
  }

  /** Two elements that tie with the same `c` tie with each other. */
  lemma TiedThroughCommon<T(!new)>(le: (T, T) -> bool, a: T, b: T, c: T)
    requires TotalPreorder(le)
    ensures Tied(le, a, c) && Tied(le, b, c) ==> le(a, b)
  {
    if Tied(le, a, c) && Tied(le, b, c) {
      assert le(a, c) && le(c, b);
    }
  }

  lemma {:induction false} InsertTies<T(!new)>(x: T, s: seq<T>, le: (T, T) -> bool, c: T)
    requires TotalPreorder(le)
    ensures Ties(Insert(x, s, le), le, c) == (if Tied(le, x, c) then [x] else []) + Ties(s, le, c)
  {
    var b := if Tied(le, x, c) then [x] else [];
    if |s| == 0 || le(x, s[0]) {
      assert ([x] + s)[1..] == s;
    } else {
      var t := Insert(x, s[1..], le);
      var a := if Tied(le, s[0], c) then [s[0]] else [];
      assert Insert(x, s, le) == [s[0]] + t;
      assert ([s[0]] + t)[1..] == t;
      InsertTies(x, s[1..], le, c);
      assert Ties(Insert(x, s, le), le, c) == a + (b + Ties(s[1..], le, c));
      assert Ties(s, le, c) == a + Ties(s[1..], le, c);
      // `x` and `s[0]` cannot both tie with `c`: that would put `x` no later than `s[0]`.
      TiedThroughCommon(le, x, s[0], c);
      assert a == [] || b == [];
    }
  }

  /** Stability: elements that compare equal keep their input order. */
  lemma {:induction false} SortByStable<T(!new)>(s: seq<T>, le: (T, T) -> bool, c: T)
    requires TotalPreorder(le)
    ensures Ties(SortBy(s, le), le, c) == Ties(s, le, c)
  {
    if |s| > 0 {
      SortByStable(s[1..], le, c);
      InsertTies(s[0], SortBy(s[1..], le), le, c);
    }
  }

  /** The comparison `OrderByDescending` uses in place of `le`. */
  function Reversed<T>(le: (T, T) -> bool): (T, T) -> bool {
    (a, b) => le(b, a)
  }

  lemma ReversedTotalPreorder<T(!new)>(le: (T, T) -> bool)
    requires TotalPreorder(le)
    ensures TotalPreorder(Reversed(le))
  {
  }

  /** `PaginationDto`: the size of the whole listing, the page asked for, and the page count. */
  datatype Pagination = Pagination(totalRecords: nat, page: int, pageSize: int, totalPages: nat)

  /** A subset is no larger than its superset. */
  lemma SubsetCard<T>(a: set<T>, b: set<T>)
    requires a <= b
    ensures |a| <= |b|
  {
    assert b == a + (b - a);
  }

  /** `(int)Math.Ceiling(n / (double)d)`, computed exactly on integers. */
  function CeilDiv(n: nat, d: nat): (r: nat)
    requires d >= 1
    ensures r * d >= n
    ensures n > 0 ==> (r - 1) * d < n
    ensures n == 0 ==> r == 0
  {
    var q := (n + d - 1) / d;
    assert q * d <= n + d - 1 < q * d + d;
    q
  }

  /** The number of elements `Skip((page - 1) * pageSize)` drops; a negative count drops nothing. */
  function SkipCount(page: int, pageSize: nat): nat {
    if page <= 1 then 0 else (page - 1) * pageSize
  }

  /** `s.Skip((page - 1) * pageSize).Take(pageSize)`. */
  function PageOf<T>(s: seq<T>, page: int, pageSize: nat): (r: seq<T>)
    ensures |r| <= pageSize
    ensures SkipCount(page, pageSize) >= |s| ==> r == []
    ensures SkipCount(page, pageSize) < |s| ==>
      |r| == (if |s| - SkipCount(page, pageSize) < pageSize then |s| - SkipCount(page, pageSize) else pageSize)
    ensures forall i :: 0 <= i < |r| ==> SkipCount(page, pageSize) + i < |s| && r[i] == s[SkipCount(page, pageSize) + i]
  {
    var lo := if SkipCount(page, pageSize) < |s| then SkipCount(page, pageSize) else |s|;
    var hi := if lo + pageSize < |s| then lo + pageSize else |s|;
    s[lo..hi]
  }

  lemma MulLessCancel(a: int, b: int, c: int)
    requires c > 0 && a * c < b * c
    ensures a < b
  {
  }

  lemma PageArithmetic(n: nat, pageSize: nat, i: nat)
    requires pageSize >= 1 && i < n
    ensures i / pageSize < CeilDiv(n, pageSize)
    ensures (i / pageSize) * pageSize + i % pageSize == i && 0 <= i % pageSize < pageSize
    ensures SkipCount(i / pageSize + 1, pageSize) == (i / pageSize) * pageSize
  {
    var q := i / pageSize;
    var k := CeilDiv(n, pageSize);
    assert q * pageSize <= i;
    assert q * pageSize < k * pageSize;
    MulLessCancel(q, k, pageSize);
  }

  /** Every element sits on exactly the page its index says, and that page is
      within the page count: paging loses nothing. */
  lemma PagesCover<T>(s: seq<T>, pageSize: nat, i: nat)
    requires pageSize >= 1 && i < |s|
    ensures 1 <= i / pageSize + 1 <= CeilDiv(|s|, pageSize)
    ensures i % pageSize < |PageOf(s, i / pageSize + 1, pageSize)|
    ensures PageOf(s, i / pageSize + 1, pageSize)[i % pageSize] == s[i]
  {
    PageArithmetic(|s|, pageSize, i);
    var q := i / pageSize;
    var m := i % pageSize;
    var r := PageOf(s, q + 1, pageSize);
    assert |r| > m;
    assert r[m] == s[q * pageSize + m];
  }

  /** Pages after the last one are empty. */
  lemma PagesBeyondCountEmpty<T>(s: seq<T>, pageSize: nat, page: int)
    requires pageSize >= 1 && page > CeilDiv(|s|, pageSize)
    ensures PageOf(s, page, pageSize) == []
  {
    var k := CeilDiv(|s|, pageSize);
    if page > 1 {
      assert (page - 1) * pageSize >= k * pageSize;
    }
  }
}

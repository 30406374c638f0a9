/**
 * The JavaScript array operations the route handlers use on their copies of
 * the mock tables: `filter`, `find`/`findIndex`, a stable `sort` with a
 * "larger key first" comparator, `slice` for pagination and `reduce` to a sum.
 */
module Lists {
  import opened Common

  /** `s.filter(p)`. */
  function Filter<T>(s: seq<T>, p: T -> bool): (r: seq<T>)
    ensures |r| <= |s|
    ensures forall i | 0 <= i < |r| :: p(r[i])
    ensures forall x | x in r :: x in s && p(x)
    ensures forall x | x in s && p(x) :: x in r
    ensures multiset(r) <= multiset(s)
  {
    if s == [] then []
    else
      var rest := Filter(s[1..], p);
      assert s == [s[0]] + s[1..];
      if p(s[0]) then [s[0]] + rest else rest
  }

  /** Filtering a concatenation filters each part: the kept elements stay in their order. */
  lemma {:induction false} FilterAppend<T>(a: seq<T>, b: seq<T>, p: T -> bool)
    ensures Filter(a + b, p) == Filter(a, p) + Filter(b, p)
  {
    if a == [] {
      assert a + b == b;
    } else {
      assert (a + b)[0] == a[0];
      assert (a + b)[1..] == a[1..] + b;
      FilterAppend(a[1..], b, p);
    }
  }

  /** Filtering twice keeps what satisfies both predicates, in the same order. */
  lemma {:induction false} FilterFilter<T>(s: seq<T>, p: T -> bool, q: T -> bool, both: T -> bool)
    requires forall x :: both(x) == (p(x) && q(x))
    ensures Filter(Filter(s, p), q) == Filter(s, both)
  {
    if s != [] {
      FilterFilter(s[1..], p, q, both);
      if p(s[0]) {
        var f := Filter(s, p);
        assert f == [s[0]] + Filter(s[1..], p);
        assert f[1..] == Filter(s[1..], p);
      }
    }
  }

  /** Filters with predicates that agree on every value agree. */
  lemma {:induction false} FilterSame<T>(s: seq<T>, p: T -> bool, q: T -> bool)
    requires forall x :: p(x) == q(x)
    ensures Filter(s, p) == Filter(s, q)
  {
    if s != [] {
      FilterSame(s[1..], p, q);
    }
  }

  /** Filtering with a predicate every element meets changes nothing. */
  lemma {:induction false} FilterAll<T>(s: seq<T>, p: T -> bool)
    requires forall i | 0 <= i < |s| :: p(s[i])
    ensures Filter(s, p) == s
  {
    if s != [] {
      FilterAll(s[1..], p);
      assert s == [s[0]] + s[1..];
    }
  }

  /** `s.findIndex(p)`, with None for -1; `s.find(p)` is the element at that index. */
  function FirstIndex<T>(s: seq<T>, p: T -> bool): (r: Option<nat>)
    ensures r.Some? ==> r.value < |s| && p(s[r.value])
    ensures r.Some? ==> forall j | 0 <= j < r.value :: !p(s[j])
    ensures r.None? <==> forall j | 0 <= j < |s| :: !p(s[j])
  {
    if s == [] then None
    else if p(s[0]) then Some(0)
    else
      var k := FirstIndex(s[1..], p);
      if k.Some? then
        assert forall j | 1 <= j < k.value + 1 :: s[j] == s[1..][j - 1];
        Some(k.value + 1)
      else
        assert forall j | 1 <= j < |s| :: s[j] == s[1..][j - 1];
        None
  }

  /** Searching a concatenation searches the first part, then the second. */
  lemma {:induction false} FirstIndexAppend<T>(a: seq<T>, b: seq<T>, p: T -> bool)
    ensures FirstIndex(a + b, p) ==
      if FirstIndex(a, p).Some? then FirstIndex(a, p)
      else if FirstIndex(b, p).Some? then Some(|a| + FirstIndex(b, p).value)
      else None
  {
    if a == [] {
      assert a + b == b;
    } else {
      assert (a + b)[0] == a[0];
      assert (a + b)[1..] == a[1..] + b;
      FirstIndexAppend(a[1..], b, p);
    }
  }

  /** `s.find(p)`: the element at FirstIndex, None for `undefined`. */
  function FindFirst<T>(s: seq<T>, p: T -> bool): (r: Option<T>)
    ensures r.Some? ==> r.value in s && p(r.value)
    ensures r.None? <==> forall j | 0 <= j < |s| :: !p(s[j])
  {
    var k := FirstIndex(s, p);
    if k.Some? then Some(s[k.value]) else None
  }

  /** Searching a concatenation finds the first part's match, else the second's. */
  lemma FindFirstAppend<T>(a: seq<T>, b: seq<T>, p: T -> bool)
    ensures FindFirst(a + b, p) == if FindFirst(a, p).Some? then FindFirst(a, p) else FindFirst(b, p)
  {
    FirstIndexAppend(a, b, p);
    var kb := FirstIndex(b, p);
    if FirstIndex(a, p).None? && kb.Some? {
      assert (a + b)[|a| + kb.value] == b[kb.value];
    }
  }

  // ---------------------------------------------------------------- sorting

  /** Keys never increase from left to right. */
  predicate SortedDesc<T>(s: seq<T>, key: T -> int) {
    forall i, j | 0 <= i < j < |s| :: key(s[i]) >= key(s[j])
  }

  /**
   * Inserts `x` before the first element whose key is not larger than its own,
   * so `x` precedes the elements with an equal key that were already there.
   */
  function InsertDesc<T>(x: T, s: seq<T>, key: T -> int): (r: seq<T>)
    ensures multiset(r) == multiset(s) + multiset{x}
    ensures |r| == |s| + 1
  {
    if s == [] || key(s[0]) <= key(x) then [x] + s
    else
      assert s == [s[0]] + s[1..];
      [s[0]] + InsertDesc(x, s[1..], key)
  }

  lemma {:induction false} InsertDescSorted<T>(x: T, s: seq<T>, key: T -> int)
    requires SortedDesc(s, key)
    ensures SortedDesc(InsertDesc(x, s, key), key)
  {
    if s != [] && key(s[0]) > key(x) {
      var rest := InsertDesc(x, s[1..], key);
      InsertDescSorted(x, s[1..], key);
      forall j | 0 <= j < |rest| ensures key(s[0]) >= key(rest[j]) {
        assert rest[j] in multiset(rest);
        if rest[j] != x {
          assert rest[j] in multiset(s[1..]);
          var k :| 0 <= k < |s[1..]| && s[1..][k] == rest[j];
          assert s[k + 1] == rest[j];
        }
      }
    }
  }

  function HasKey<T>(key: T -> int, k: int): T -> bool {
    (x: T) => key(x) == k
  }

  /** Filtering one element: itself when it passes, nothing otherwise. */
  lemma FilterOne<T>(x: T, p: T -> bool)
    ensures Filter([x], p) == if p(x) then [x] else []
  {
    assert [x][1..] == [];
  }

  /** An inserted element goes in front of the elements already there that have its key. */
  lemma {:induction false} InsertDescStable<T>(x: T, s: seq<T>, key: T -> int, k: int)
    ensures Filter(InsertDesc(x, s, key), HasKey(key, k)) ==
      if key(x) == k then [x] + Filter(s, HasKey(key, k)) else Filter(s, HasKey(key, k))
  {
    if s == [] || key(s[0]) <= key(x) {
      InsertDescStableFront(x, s, key, k);
    } else {
      InsertDescStable(x, s[1..], key, k);
      InsertDescStableLater(x, s, key, k);
    }
  }

  lemma InsertDescStableFront<T>(x: T, s: seq<T>, key: T -> int, k: int)
    requires s == [] || key(s[0]) <= key(x)
    ensures Filter(InsertDesc(x, s, key), HasKey(key, k)) ==
      if key(x) == k then [x] + Filter(s, HasKey(key, k)) else Filter(s, HasKey(key, k))
  {
    var p := HasKey(key, k);
    assert InsertDesc(x, s, key) == [x] + s;
    FilterOne(x, p);
    FilterAppend([x], s, p);
  }

  /** An element with a smaller key than the head is inserted behind the head. */
  lemma InsertDescBehind<T>(x: T, s: seq<T>, key: T -> int)
    requires s != [] && key(s[0]) > key(x)
    ensures InsertDesc(x, s, key) == [s[0]] + InsertDesc(x, s[1..], key)
  {
  }

  /** Filtering a non-empty sequence is filtering its head, then its tail. */
  lemma FilterHead<T>(s: seq<T>, p: T -> bool)
    requires s != []
    ensures Filter(s, p) == Filter([s[0]], p) + Filter(s[1..], p)
  {
    FilterOne(s[0], p);
  }

  /** Filtering after inserting behind the head is the head's part, then the rest's. */
  lemma InsertDescLaterFilter<T>(x: T, s: seq<T>, key: T -> int, p: T -> bool)
    requires s != [] && key(s[0]) > key(x)
    ensures Filter(InsertDesc(x, s, key), p) == Filter([s[0]], p) + Filter(InsertDesc(x, s[1..], key), p)
    ensures Filter(s, p) == Filter([s[0]], p) + Filter(s[1..], p)
  {
    var r := InsertDesc(x, s, key);
    InsertDescBehind(x, s, key);
    FilterHead(r, p);
    FilterHead(s, p);
  }

  lemma InsertDescStableLater<T>(x: T, s: seq<T>, key: T -> int, k: int)
    requires s != [] && key(s[0]) > key(x)
    requires Filter(InsertDesc(x, s[1..], key), HasKey(key, k)) ==
      if key(x) == k then [x] + Filter(s[1..], HasKey(key, k)) else Filter(s[1..], HasKey(key, k))
    ensures Filter(InsertDesc(x, s, key), HasKey(key, k)) ==
      if key(x) == k then [x] + Filter(s, HasKey(key, k)) else Filter(s, HasKey(key, k))
  {
    var p := HasKey(key, k);
    InsertDescLaterFilter(x, s, key, p);
    if key(x) == k {
      assert Filter([s[0]], p) == [] by { FilterOne(s[0], p); }
    }
  }

  /**
   * `s.sort((a, b) => key(b) - key(a))`: larger keys first, and elements with
   * equal keys in their original order (the sort is stable, as ECMAScript
   * requires of `Array.prototype.sort`).
   */
  function SortDesc<T>(s: seq<T>, key: T -> int): (r: seq<T>)
    ensures multiset(r) == multiset(s)
    ensures |r| == |s|
    ensures SortedDesc(r, key)
  {
    if s == [] then []
    else
      assert s == [s[0]] + s[1..];
      InsertDescSorted(s[0], SortDesc(s[1..], key), key);
      InsertDesc(s[0], SortDesc(s[1..], key), key)
  }

  /** The sort is stable: the elements with any one key keep their relative order. */
  lemma {:induction false} SortDescStable<T>(s: seq<T>, key: T -> int, k: int)
    ensures Filter(SortDesc(s, key), HasKey(key, k)) == Filter(s, HasKey(key, k))
  {
    if s != [] {
      var p := HasKey(key, k);
      var head, tail := s[0], s[1..];
      var sortedTail := SortDesc(tail, key);
      assert SortDesc(s, key) == InsertDesc(head, sortedTail, key);
      assert s == [head] + tail;
      SortDescStable(tail, key, k);
      InsertDescStable(head, sortedTail, key, k);
      assert Filter([head] + tail, p) == Filter([head], p) + Filter(tail, p) by {
        FilterAppend([head], tail, p);
      }
      FilterOne(head, p);
    }
  }

  // ---------------------------------------------------------------- pagination

  /**
   * `s.slice((page - 1) * size, page * size)`: the page-th block of `size`
   * elements, cut short (or empty) at the end of `s`.
   */
  function Page<T>(s: seq<T>, page: nat, size: nat): (r: seq<T>)
    requires page >= 1
    ensures |r| <= size
    ensures |r| == if |s| <= (page - 1) * size then 0 else Min(size, |s| - (page - 1) * size)
    ensures forall i | 0 <= i < |r| :: r[i] == s[(page - 1) * size + i]
  {
    var lo := (page - 1) * size;
    s[Min(lo, |s|)..Min(lo + size, |s|)]
  }

  /**
   * The handlers' pagination: `s.slice((p - 1) * n, (p - 1) * n + n)` with
   * `p` and `n` the parsed page number and page size, None standing for NaN.
   * A NaN bound makes `slice` return nothing, and so does page 0, whose end
   * index is 0.
   */
  function Paginate<T>(s: seq<T>, page: Option<nat>, size: Option<nat>): (r: seq<T>)
    ensures |r| <= |s|
    ensures size.Some? ==> |r| <= size.value
    ensures r != [] <==> page.Some? && size.Some? && page.value >= 1 && |s| > (page.value - 1) * size.value && size.value > 0
  {
    if page.Some? && size.Some? && page.value >= 1 then Page(s, page.value, size.value) else []
  }

  /** A page of a sorted sequence is sorted. */
  lemma PageSorted<T>(s: seq<T>, page: nat, size: nat, key: T -> int)
    requires page >= 1 && SortedDesc(s, key)
    ensures SortedDesc(Page(s, page, size), key)
  {
    var r := Page(s, page, size);
    forall i, j | 0 <= i < j < |r| ensures key(r[i]) >= key(r[j]) {
      assert r[i] == s[(page - 1) * size + i] && r[j] == s[(page - 1) * size + j];
    }
  }

  /** Every element of a page is an element of the paged sequence. */
  lemma PageElements<T>(s: seq<T>, page: nat, size: nat)
    requires page >= 1
    ensures forall x | x in Page(s, page, size) :: x in s
  {
    var r := Page(s, page, size);
    forall x | x in r ensures x in s {
      var i :| 0 <= i < |r| && r[i] == x;
      assert s[(page - 1) * size + i] == x;
    }
  }

  /**
   * A page of the sorted selection: every element is a selected element of
   * `s`, and the page is sorted.
   */
  lemma PaginatedSelection<T>(s: seq<T>, p: T -> bool, key: T -> int, page: Option<nat>, size: Option<nat>)
    ensures var r := Paginate(SortDesc(Filter(s, p), key), page, size);
      && (forall x | x in r :: x in s && p(x))
      && SortedDesc(r, key)
  {
    var filtered := Filter(s, p);
    var sorted := SortDesc(filtered, key);
    assert forall x | x in sorted :: x in filtered by {
      forall x | x in sorted ensures x in filtered {
        assert x in multiset(sorted);
      }
    }
    if page.Some? && size.Some? && page.value >= 1 {
      PageElements(sorted, page.value, size.value);
      PageSorted(sorted, page.value, size.value, key);
    }
  }

  /**
   * The first `n` elements of the sorted sequence are its top `n`: an element
   * left out has a key no larger than that of any element kept.
   */
  lemma {:induction false} TakeSortedTop<T>(s: seq<T>, n: nat, key: T -> int)
    ensures var t := Take(SortDesc(s, key), n);
      forall x, y | x in s && x !in t && y in t :: key(y) >= key(x)
  {
    var sorted := SortDesc(s, key);
    var t := Take(sorted, n);
    forall x, y | x in s && x !in t && y in t ensures key(y) >= key(x) {
      assert x in multiset(s);
      var j :| 0 <= j < |sorted| && sorted[j] == x;
      var i :| 0 <= i < |t| && t[i] == y;
      assert sorted[i] == y;
    }
  }

  /** A prefix of a sorted sequence is sorted. */
  lemma TakeSorted<T>(s: seq<T>, n: nat, key: T -> int)
    requires SortedDesc(s, key)
    ensures SortedDesc(Take(s, n), key)
  {
  }

  /** The first element of a non-empty sorted sequence has the largest key of all. */
  lemma SortDescFirst<T>(s: seq<T>, key: T -> int)
    requires s != []
    ensures forall x | x in s :: key(SortDesc(s, key)[0]) >= key(x)
  {
    var sorted := SortDesc(s, key);
    forall x | x in s ensures key(sorted[0]) >= key(x) {
      assert x in multiset(s);
      var j :| 0 <= j < |sorted| && sorted[j] == x;
    }
  }

  /** The first `count` pages, put end to end, are the first `count * size` elements. */
  lemma {:induction false} PagesCover<T>(s: seq<T>, size: nat, count: nat)
    ensures Pages(s, size, count) == s[..Min(count * size, |s|)]
  {
    if count > 0 {
      PagesCover(s, size, count - 1);
      assert (count - 1) * size + size == count * size;
      var lo := Min((count - 1) * size, |s|);
      var hi := Min(count * size, |s|);
      assert s[..hi] == s[..lo] + s[lo..hi];
    }
  }

  /** Pages 1 to `count`, concatenated. */
  function Pages<T>(s: seq<T>, size: nat, count: nat): seq<T> {
    if count == 0 then [] else Pages(s, size, count - 1) + Page(s, count, size)
  }

  /** `s.slice(0, n)`. */
  function Take<T>(s: seq<T>, n: nat): (r: seq<T>)
    ensures |r| == Min(n, |s|) && r <= s
    ensures multiset(r) <= multiset(s)
  {
    var r := s[..Min(n, |s|)];
    assert s == r + s[|r|..];
    r
  }

  // ---------------------------------------------------------------- sums

  /** `s.reduce((sum, x) => sum + f(x), 0)`. */
  function Sum<T>(s: seq<T>, f: T -> int): int {
    if s == [] then 0 else f(s[0]) + Sum(s[1..], f)
  }

  lemma {:induction false} SumNonNegative<T>(s: seq<T>, f: T -> int)
    requires forall i | 0 <= i < |s| :: f(s[i]) >= 0
    ensures Sum(s, f) >= 0
  {
    if s != [] {
      SumNonNegative(s[1..], f);
    }
  }
}

/** The list pattern both resource controllers share: enumerate the stored
    rows, keep those matching the filters, order them by a recency key,
    descending, and cut out one page by offset (`skip = (page-1)*pageSize`,
    `take = pageSize`), reporting the total and the page count. */
module Listing {
  import opened Common

  /** `xs` is ordered by `key`, greatest first. */
  predicate SortedDesc<T>(xs: seq<T>, key: T -> int) {
    forall i, j :: 0 <= i < j < |xs| ==> key(xs[i]) >= key(xs[j])
  }

  /** `ordered` lists the rows of `matches`, each as often, greatest key first. */
  predicate IsDescOrderOf<T(==)>(ordered: seq<T>, matches: seq<T>, key: T -> int) {
    SortedDesc(ordered, key) && multiset(ordered) == multiset(matches)
  }

  /** Inserts `x` into an ordered sequence, in front of the first element
      whose key it reaches, so that `x` precedes equal keys. */
  function Insert<T>(x: T, ys: seq<T>, key: T -> int): (r: seq<T>)
    requires SortedDesc(ys, key)
    ensures SortedDesc(r, key)
    ensures multiset(r) == multiset(ys) + multiset{x}
    ensures forall z :: z in r ==> z == x || z in ys
  {
    if |ys| == 0 || key(ys[0]) <= key(x) then [x] + ys
    else
      var rest := Insert(x, ys[1..], key);
      assert ys == [ys[0]] + ys[1..];
      assert forall z :: z in rest ==> key(z) <= key(ys[0]) by {
        forall z | z in rest
          ensures key(z) <= key(ys[0])
        {
          if z != x {
            var j :| 1 <= j < |ys| && ys[j] == z;
          }
        }
      }
      PrependSorted(ys[0], rest, key);
      [ys[0]] + rest
  }

  /** An element whose key reaches every key of an ordered sequence can lead it. */
  lemma PrependSorted<T>(y: T, rest: seq<T>, key: T -> int)
    requires SortedDesc(rest, key)
    requires forall z :: z in rest ==> key(z) <= key(y)
    ensures SortedDesc([y] + rest, key)
  {
  }

  /** `OrderByDescending(key)`: a stable insertion sort. */
  function SortDesc<T>(xs: seq<T>, key: T -> int): (r: seq<T>)
    ensures SortedDesc(r, key)
    ensures multiset(r) == multiset(xs)
  {
    if |xs| == 0 then []
    else
      assert xs == [xs[0]] + xs[1..];
      Insert(xs[0], SortDesc(xs[1..], key), key)
  }

  /** Number of pages of `pageSize` items needed for `total` items: the
      ceiling of `total / pageSize`, computed on integers. */
  function CeilDiv(total: nat, pageSize: nat): (pages: nat)
    requires pageSize >= 1
    ensures pages * pageSize >= total
    ensures pages == 0 || (pages - 1) * pageSize < total
  {
    var q := (total + pageSize - 1) / pageSize;
    assert q * pageSize >= total by {
      DivBounds(total + pageSize - 1, pageSize);
    }
    assert q == 0 || (q - 1) * pageSize < total by {
      DivBounds(total + pageSize - 1, pageSize);
    }
    q
  }

  /** Euclidean division brackets its dividend. */
  lemma DivBounds(n: nat, d: nat)
    requires d >= 1
    ensures (n / d) * d <= n < (n / d) * d + d
  {
  }

  /** `Skip(skip).Take(take)`: at most `take` elements, from offset `skip`. */
  function PageSlice<T>(xs: seq<T>, skip: nat, take: nat): (r: seq<T>)
    ensures |r| == Min(take, Max(0, |xs| - skip))
    ensures forall i :: 0 <= i < |r| ==> r[i] == xs[skip + i]
  {
    if skip >= |xs| then [] else xs[skip..Min(|xs|, skip + take)]
  }

  /** Where page `page` starts: `(page - 1) * pageSize`. */
  function Offset(page: int, pageSize: int): (skip: nat)
    requires page >= 1 && pageSize >= 1
    ensures skip == (page - 1) * pageSize
  {
    MulMonotone(0, page - 1, pageSize);
    (page - 1) * pageSize
  }

  /** `data` is page `page` of some descending order of `matches`: the
      slice of that order at the page's offset. */
  ghost predicate IsPageOf<T(!new)>(data: seq<T>, matches: seq<T>, key: T -> int, page: int, pageSize: int)
    requires page >= 1 && pageSize >= 1
  {
    exists ordered :: IsDescOrderOf(ordered, matches, key) &&
      data == PageSlice(ordered, Offset(page, pageSize), pageSize)
  }

  /** The slice of a descending order of `matches` at a page's offset is
      that page: ordered, drawn from `matches`, and as long as the order
      leaves room for. */
  lemma PageOfOrder<T(!new)>(ordered: seq<T>, matches: seq<T>, key: T -> int, page: int, pageSize: int)
    requires page >= 1 && pageSize >= 1
    requires IsDescOrderOf(ordered, matches, key)
    ensures |ordered| == |matches|
    ensures var data := PageSlice(ordered, Offset(page, pageSize), pageSize);
            && SortedDesc(data, key)
            && (forall x :: x in data ==> x in matches)
            && IsPageOf(data, matches, key, page, pageSize)
  {
    assert |ordered| == |multiset(ordered)| == |multiset(matches)| == |matches|;
    SliceSorted(ordered, Offset(page, pageSize), pageSize, key);
    assert forall x :: x in ordered ==> x in multiset(matches);
  }

  /** The body of a list response. */
  datatype Paged<T> = Paged(data: seq<T>, page: int, pageSize: int, total: int, totalPages: int)

  /** Orders the filtered rows and cuts out the requested page. Rows with
      equal keys keep the order in which they were read, ascending id. */
  function Paginate<T(==,!new)>(matches: seq<T>, key: T -> int, page: int, pageSize: int): (r: Paged<T>)
    requires page >= 1 && pageSize >= 1
    ensures r.page == page && r.pageSize == pageSize
    ensures r.total == |matches|
    ensures r.totalPages >= 0 && r.totalPages * pageSize >= r.total
    ensures r.totalPages == 0 || (r.totalPages - 1) * pageSize < r.total
    ensures |r.data| == Min(pageSize, Max(0, r.total - (page - 1) * pageSize))
    ensures SortedDesc(r.data, key)
    ensures forall x :: x in r.data ==> x in matches
    ensures IsPageOf(r.data, matches, key, page, pageSize)
  {
    var ordered := SortDesc(matches, key);
    PageOfOrder(ordered, matches, key, page, pageSize);
    var data := PageSlice(ordered, Offset(page, pageSize), pageSize);
    Paged(data, page, pageSize, |matches|, CeilDiv(|matches|, pageSize))
  }

  /** Paging loses nothing: every filtered row is on some page between 1 and
      the reported page count. */
  lemma {:induction false} EveryMatchOnSomePage<T(!new)>(matches: seq<T>, key: T -> int, pageSize: int, x: T)
    requires pageSize >= 1
    requires x in matches
    ensures exists page :: 1 <= page <= Paginate(matches, key, 1, pageSize).totalPages &&
                           x in Paginate(matches, key, page, pageSize).data
  {
    var ordered := SortDesc(matches, key);
    assert |ordered| == |multiset(ordered)| == |multiset(matches)| == |matches|;
    assert x in multiset(ordered);
    var i :| 0 <= i < |ordered| && ordered[i] == x;
    var page := PageOfIndex(i, pageSize, |matches|);
    var skip := (page - 1) * pageSize;
    var data := PageSlice(ordered, skip, pageSize);
    assert data[i - skip] == x;
    assert Paginate(matches, key, page, pageSize).data == data;
    assert Paginate(matches, key, 1, pageSize).totalPages == CeilDiv(|matches|, pageSize);
  }

  /** Pages follow one another in key order: no row on an earlier page has
      a smaller key than a row on a later page. */
  lemma PagesDescend<T(!new)>(matches: seq<T>, key: T -> int, pageSize: int, p: int, q: int)
    requires pageSize >= 1 && 1 <= p < q
    ensures forall x, y :: (x in Paginate(matches, key, p, pageSize).data &&
                           y in Paginate(matches, key, q, pageSize).data) ==> key(x) >= key(y)
  {
    var ordered := SortDesc(matches, key);
    var dp := PageSlice(ordered, Offset(p, pageSize), pageSize);
    var dq := PageSlice(ordered, Offset(q, pageSize), pageSize);
    assert Paginate(matches, key, p, pageSize).data == dp;
    assert Paginate(matches, key, q, pageSize).data == dq;
    OffsetsApart(p, q, pageSize);
    forall x, y | x in dp && y in dq
      ensures key(x) >= key(y)
    {
      var i :| 0 <= i < |dp| && dp[i] == x;
      var j :| 0 <= j < |dq| && dq[j] == y;
    }
  }

  /** An earlier page ends before a later page starts. */
  lemma OffsetsApart(p: int, q: int, pageSize: int)
    requires pageSize >= 1 && 1 <= p < q
    ensures Offset(p, pageSize) + pageSize <= Offset(q, pageSize)
  {
    MulMonotone(p, q - 1, pageSize);
  }

  /** The ordering key that ties every row. */
  function Flat(x: int): int {
    0
  }

  /** With tied keys and no tie-breaker, the store may order the rows one way
      for one request and another way for the next. Both orders are valid
      descending orders, yet a row is on neither page 1 nor page 2. */
  lemma TiedRowMissed() returns (first: seq<int>, second: seq<int>)
    ensures IsDescOrderOf(first, [1, 2], Flat) && IsDescOrderOf(second, [1, 2], Flat)
    ensures PageSlice(first, (1 - 1) * 1, 1) == [2] && PageSlice(second, (2 - 1) * 1, 1) == [2]
    ensures 1 in [1, 2] && 1 !in PageSlice(first, 0, 1) + PageSlice(second, 1, 1)
  {
    first := [2, 1];
    second := [1, 2];
    assert multiset(first) == multiset{1, 2} == multiset([1, 2]);
  }

  /** The page holding position `i` of a listing of `total` items. */
  lemma PageOfIndex(i: nat, pageSize: nat, total: nat) returns (page: int)
    requires pageSize >= 1 && i < total
    ensures 1 <= page <= CeilDiv(total, pageSize)
    ensures (page - 1) * pageSize <= i < (page - 1) * pageSize + pageSize
  {
    page := i / pageSize + 1;
    DivBounds(i, pageSize);
    var pages := CeilDiv(total, pageSize);
    if page > pages {
      MulMonotone(pages, page - 1, pageSize);
    }
  }

  /** A page cut out of an ordered sequence is ordered and holds only its elements. */
  lemma SliceSorted<T>(xs: seq<T>, skip: nat, take: nat, key: T -> int)
    requires SortedDesc(xs, key)
    ensures SortedDesc(PageSlice(xs, skip, take), key)
    ensures forall y :: y in PageSlice(xs, skip, take) ==> y in xs
  {
  }

  lemma MulMonotone(a: int, b: int, d: int)
    requires 0 <= a <= b && d >= 0
    ensures a * d <= b * d
  {
  }

  /** The values stored under keys in `[lo, hi)` whose value satisfies `p`,
      in ascending key order: the rows a filtered query reads, in the order
      the store hands them out before any ordering is applied. */
  function Select<V(==)>(m: map<int, V>, lo: int, hi: int, p: V -> bool): (r: seq<V>)
    decreases hi - lo
    ensures forall v :: v in r ==> v in m.Values && p(v)
    ensures forall k :: k in m && lo <= k < hi && p(m[k]) ==> m[k] in r
    ensures |r| == |KeysWhere(m, lo, hi, p)|
  {
    if lo >= hi then
      assert KeysWhere(m, lo, hi, p) == {};
      []
    else
      var rest := Select(m, lo + 1, hi, p);
      if lo in m && p(m[lo]) then
        assert KeysWhere(m, lo, hi, p) == {lo} + KeysWhere(m, lo + 1, hi, p);
        [m[lo]] + rest
      else
        assert KeysWhere(m, lo, hi, p) == KeysWhere(m, lo + 1, hi, p);
        rest
  }

  /** The keys in `[lo, hi)` whose value satisfies `p`. */
  ghost function KeysWhere<V>(m: map<int, V>, lo: int, hi: int, p: V -> bool): set<int> {
    set k | k in m && lo <= k < hi && p(m[k])
  }
}

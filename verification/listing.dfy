/** What `findAll(spec, PageRequest.of(page - 1, size))` returns: the rows that satisfy the
    filter, in table order, cut into pages of `size`; the page carries the total match count. */
module Listing {
  import opened Wrappers
  import opened Failures

  /** The rows that satisfy `keep`, in their original order. */
  function Select<T(!new)>(rows: seq<T>, keep: T -> bool): (r: seq<T>)
    ensures |r| <= |rows|
    ensures forall i :: 0 <= i < |r| ==> keep(r[i])
    decreases |rows|
  {
    if |rows| == 0 then []
    else
      var init := rows[..|rows| - 1];
      var last := rows[|rows| - 1];
      assert rows == init + [last];
      if keep(last) then Select(init, keep) + [last] else Select(init, keep)
  }

  /** Selection drops no matching row and invents none: every value occurs in the result as
      often as in the table when it satisfies the filter, and not at all otherwise. */
  lemma {:induction false} SelectCounts<T(!new)>(rows: seq<T>, keep: T -> bool, x: T)
    ensures multiset(Select(rows, keep))[x] == if keep(x) then multiset(rows)[x] else 0
    decreases |rows|
  {
    if |rows| > 0 {
      var init := rows[..|rows| - 1];
      var last := rows[|rows| - 1];
      assert rows == init + [last];
      SelectCounts(init, keep, x);
    }
  }

  /** The scan `findAll(spec, ...)` performs: test each row in table order and keep the ones
      the filter accepts. */
  method Filter<T(!new)>(rows: seq<T>, keep: T -> bool) returns (matches: seq<T>)
    ensures matches == Select(rows, keep)
  {
    matches := [];
    var i := 0;
    while i < |rows|
      invariant 0 <= i <= |rows|
      invariant matches == Select(rows[..i], keep)
    {
      assert rows[..i + 1][..i] == rows[..i];
      if keep(rows[i]) {
        matches := matches + [rows[i]];
      }
      i := i + 1;
    }
    assert rows[..|rows|] == rows;
  }

  /** Selection is a list homomorphism: it keeps the relative order of the rows, so filtering
      two halves and concatenating gives the filtered whole. */
  lemma {:induction false} SelectAppend<T(!new)>(a: seq<T>, b: seq<T>, keep: T -> bool)
    ensures Select(a + b, keep) == Select(a, keep) + Select(b, keep)
    decreases |b|
  {
    if |b| == 0 {
      assert a + b == a;
    } else {
      var b' := b[..|b| - 1];
      assert (a + b)[..|a + b| - 1] == a + b';
      SelectAppend(a, b', keep);
    }
  }

  /** A row matches exactly when it is selected, so a filter no row satisfies gives an empty
      list rather than an error. */
  lemma SelectEmptyIffNoMatch<T(!new)>(rows: seq<T>, keep: T -> bool)
    ensures Select(rows, keep) == [] <==> forall i :: 0 <= i < |rows| ==> !keep(rows[i])
  {
    var r := Select(rows, keep);
    if r == [] {
      forall i | 0 <= i < |rows|
        ensures !keep(rows[i])
      {
        assert rows[i] in multiset(rows);
        SelectCounts(rows, keep, rows[i]);
      }
    } else {
      assert r[0] in multiset(r);
      SelectCounts(rows, keep, r[0]);
      assert r[0] in rows;
    }
  }

  function Min(a: int, b: int): int {
    if a <= b then a else b
  }

  /** Where page `page` (counted from 1) of size `size` starts. */
  function Offset(page: int, size: int): (r: nat)
    requires page >= 1 && size >= 1
    decreases page
  {
    if page == 1 then 0 else Offset(page - 1, size) + size
  }

  /** The offset is the `(page - 1) * size` of `PageRequest.getOffset`. */
  lemma {:induction false} OffsetIsProduct(page: int, size: int)
    requires page >= 1 && size >= 1
    ensures Offset(page, size) == (page - 1) * size
    decreases page
  {
    if page > 1 {
      OffsetIsProduct(page - 1, size);
    }
  }

  /** The range of a Java `int`. */
  const IntMin := -0x8000_0000
  const IntMax := 0x7fff_ffff

  predicate IsInt(x: int) {
    IntMin <= x <= IntMax
  }

  /** Java `int` arithmetic: the result modulo 2^32, read back into the signed range. */
  function WrapInt(x: int): (r: int)
    ensures IsInt(r)
    ensures (r - x) % 0x1_0000_0000 == 0
    ensures IsInt(x) ==> r == x
  {
    (x - IntMin) % 0x1_0000_0000 + IntMin
  }

  /** The zero-based index `page - 1`, computed in `int`: it is one less than the page, except
      that the least `int` wraps round to the greatest. */
  function PageIndex(page: int): (r: int)
    requires IsInt(page)
    ensures IsInt(r)
    ensures page != IntMin ==> r == page - 1
    ensures page == IntMin ==> r == IntMax
  {
    WrapInt(page - 1)
  }

  /** `PageRequest.of(page - 1, size)`, and then the offset the repository hands to the query:
      a negative index or a size below one is refused; so is an offset `index * size` beyond the
      `int` range, which Spring Data JPA's `PageableUtils.getOffsetAsInteger` rejects. The result
      is the offset. */
  function PageRequest(page: int, size: int): (r: Result<nat, Failure>)
    requires IsInt(page) && IsInt(size)
    ensures r == Err(InvalidPageRequest) <==> (page < 1 && page != IntMin) || size < 1
    ensures r == Err(OffsetTooLarge) <==> PageIndex(page) >= 0 && size >= 1 && PageIndex(page) * size > IntMax
    ensures r.Ok? ==> r.value == Offset(PageIndex(page) + 1, size) && r.value <= IntMax
  {
    var index := PageIndex(page);
    if index < 0 || size < 1 then Err(InvalidPageRequest)
    else
      OffsetIsProduct(index + 1, size);
      if index * size > IntMax then Err(OffsetTooLarge) else Ok(index * size)
  }

  /** The edges of paging: the least `int` as page number wraps round to the last page index,
      which fits as an offset only with pages of one row; pages of ten run out of offsets after
      page 214748365. */
  lemma PageRequestExamples()
    ensures PageRequest(IntMin, 1) == Ok(IntMax)
    ensures PageRequest(IntMin, 10) == Err(OffsetTooLarge)
    ensures PageRequest(0, 10) == Err(InvalidPageRequest) && PageRequest(1, 0) == Err(InvalidPageRequest)
    ensures PageRequest(1, 10) == Ok(0)
    ensures PageRequest(214748365, 10) == Ok(2147483640)
    ensures PageRequest(214748366, 10) == Err(OffsetTooLarge)
  {
  }

  /** Zero-based page `page - 1` of size `size`. `PageRequest.of` refuses a negative page and a
      size below one, hence the precondition. */
  function PageSlice<T>(xs: seq<T>, page: int, size: int): (r: seq<T>)
    requires page >= 1 && size >= 1
    ensures |r| == if Offset(page, size) >= |xs| then 0 else Min(size, |xs| - Offset(page, size))
    ensures forall i :: 0 <= i < |r| ==> r[i] == xs[Offset(page, size) + i]
  {
    var start := Offset(page, size);
    if start >= |xs| then [] else xs[start..Min(start + size, |xs|)]
  }

  /** Pages 1 to n, one after another. */
  function FirstPages<T>(xs: seq<T>, size: int, n: nat): seq<T>
    requires size >= 1
  {
    if n == 0 then [] else FirstPages(xs, size, n - 1) + PageSlice(xs, n, size)
  }

  /** The first n pages are exactly the rows before page n + 1 starts: pages neither overlap
      nor skip a row. */
  lemma {:induction false} FirstPagesArePrefix<T>(xs: seq<T>, size: int, n: nat)
    requires size >= 1
    ensures FirstPages(xs, size, n) == xs[..Min(Offset(n + 1, size), |xs|)]
  {
    if n > 0 {
      FirstPagesArePrefix(xs, size, n - 1);
      var lo := Min(Offset(n, size), |xs|);
      var hi := Min(Offset(n + 1, size), |xs|);
      assert PageSlice(xs, n, size) == xs[lo..hi];
      assert xs[..lo] + xs[lo..hi] == xs[..hi];
    }
  }

  /** Enough pages give back the whole list. */
  lemma AllPagesGiveEverything<T>(xs: seq<T>, size: int, n: nat)
    requires size >= 1 && n * size >= |xs|
    ensures FirstPages(xs, size, n) == xs
  {
    FirstPagesArePrefix(xs, size, n);
    OffsetIsProduct(n + 1, size);
    assert xs[..|xs|] == xs;
  }

  /** Twelve matches with pages of ten: the first page holds ten, the second the last two, and
      the third none. */
  lemma TwelveMatchesExample<T>(xs: seq<T>)
    requires |xs| == 12
    ensures PageSlice(xs, 1, 10) == xs[..10]
    ensures PageSlice(xs, 2, 10) == xs[10..]
    ensures PageSlice(xs, 3, 10) == []
  {
  }
}

/** `ParsePage` and `ApplyPagination`, in Go's 64-bit integers. */
module Pagination {
  import opened Results

  const DEFAULT_PAGE_SIZE := 25
  const MAX_PAGE_SIZE := 500
  const TWO_63: int := 0x8000_0000_0000_0000
  const TWO_64: int := 0x1_0000_0000_0000_0000

  /** The int64 that holds `x` after overflow. */
  function Wrap64(x: int): int {
    (x + TWO_63) % TWO_64 - TWO_63
  }

  predicate IsInt64(x: int) {
    -TWO_63 <= x < TWO_63
  }

  datatype PageParams = PageParams(page: int, size: int)

  /** What `ParsePage` can return. */
  predicate ValidParams(p: PageParams) {
    1 <= p.page < TWO_63 && 1 <= p.size <= MAX_PAGE_SIZE
  }

  /** The arguments are the numbers `strconv.Atoi` returned: 0 for no number, the nearest int64 out of range. */
  function ParsePage(page: int, size: int): (p: PageParams)
    requires IsInt64(page) && IsInt64(size)
    ensures ValidParams(p)
    ensures p.page == page || (page < 1 && p.page == 1)
    ensures p.size == size || (size < 1 && p.size == DEFAULT_PAGE_SIZE) ||
            (size > MAX_PAGE_SIZE && p.size == MAX_PAGE_SIZE)
  {
    PageParams(
      if page < 1 then 1 else page,
      if size < 1 then DEFAULT_PAGE_SIZE else if size > MAX_PAGE_SIZE then MAX_PAGE_SIZE else size)
  }

  /** `None` is Go's "slice bounds out of range" panic. */
  function ApplyPagination<T>(items: seq<T>, p: PageParams): Option<seq<T>> {
    SliceFrom(items, Wrap64(Wrap64(p.page - 1) * p.size), p.size)
  }

  function SliceFrom<T>(items: seq<T>, start: int, size: int): Option<seq<T>> {
    var end := Wrap64(start + size);
    if start >= |items| then Some([])
    else
      var stop := if end > |items| then |items| else end;
      if 0 <= start <= stop then Some(items[start..stop]) else None
  }

  function Take<T>(s: seq<T>, n: int): seq<T> {
    if n <= 0 then [] else if n >= |s| then s else s[..n]
  }

  function Drop<T>(s: seq<T>, n: int): seq<T> {
    if n <= 0 then s else if n >= |s| then [] else s[n..]
  }

  function Offset(p: PageParams): int {
    (p.page - 1) * p.size
  }

  /** The page a reader expects: `size` rows after the first `(page - 1) * size`. */
  function PageOf<T>(items: seq<T>, p: PageParams): seq<T> {
    Take(Drop(items, Offset(p)), p.size)
  }

  lemma SliceInRange<T>(items: seq<T>, start: nat, size: nat)
    requires 1 <= size <= MAX_PAGE_SIZE && |items| + MAX_PAGE_SIZE < TWO_63
    ensures SliceFrom(items, start, size) == Some(Take(Drop(items, start), size))
  {
    if start < |items| {
      assert Wrap64(start + size) == start + size;
      var stop := if start + size > |items| then |items| else start + size;
      assert Drop(items, start) == items[start..];
      assert items[start..stop] == Take(items[start..], size);
    }
  }

  lemma SliceNegative<T>(items: seq<T>, start: int, size: nat)
    requires start < 0
    ensures SliceFrom(items, start, size) == None
  {
  }

  lemma WrapRange(x: int)
    ensures IsInt64(Wrap64(x))
    ensures IsInt64(x) ==> Wrap64(x) == x
  {
  }

  /**
   * The returned slice is the expected page exactly when the offset fits an int64 or its wrapped
   * value happens to lie past the end; otherwise the call panics or returns other rows.
   */
  lemma PaginationCorrectIff<T>(items: seq<T>, p: PageParams)
    requires ValidParams(p) && |items| + MAX_PAGE_SIZE < TWO_63
    ensures ApplyPagination(items, p) == Some(PageOf(items, p)) <==>
            Offset(p) < TWO_63 || Wrap64(Offset(p)) >= |items|
  {
    WrapRange(p.page - 1);
    OffsetIsNat(p.page - 1, p.size);
    OffsetCorrectIff(items, Offset(p), p.size);
  }

  lemma OffsetIsNat(x: int, y: int)
    requires x >= 0 && y >= 0
    ensures x * y >= 0
  {
  }

  lemma OffsetCorrectIff<T>(items: seq<T>, s: nat, size: nat)
    requires 1 <= size <= MAX_PAGE_SIZE && |items| + MAX_PAGE_SIZE < TWO_63
    ensures SliceFrom(items, Wrap64(s), size) == Some(Take(Drop(items, s), size)) <==>
            s < TWO_63 || Wrap64(s) >= |items|
  {
    WrapRange(s);
    if Wrap64(s) < 0 {
      SliceNegative(items, Wrap64(s), size);
    } else {
      SliceInRange(items, Wrap64(s), size);
    }
  }

  /** Page 9223372036854775807 of size 500, accepted by `ParsePage`, panics on every list. */
  lemma LargestPagePanics<T>(items: seq<T>)
    ensures ApplyPagination(items, ParsePage(TWO_63 - 1, 500)) == None
  {
    assert (TWO_63 - 2) * 500 == 249 * TWO_64 + (TWO_64 - 1000);
    assert Wrap64((TWO_63 - 2) * 500) == -1000;
  }
}

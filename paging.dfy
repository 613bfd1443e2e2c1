/**
 * The part of Spring Data's paging that the catalog reads: a page request, the page
 * a repository returns for it (PageImpl), and the metadata the book service copies
 * out of that page. The listing a page is cut from is taken as already sorted.
 */
module Paging {

  /** A page size: PageRequest refuses sizes below one. */
  type PageSize = n: int | n >= 1 witness 1

  /** A PageRequest: a page number counted from zero and a page size. */
  datatype Pageable = Pageable(pageNumber: nat, pageSize: PageSize)

  /** A PageImpl: the content of one page, the request it answers and the size of the whole listing. */
  datatype Page<T> = Page(content: seq<T>, number: nat, size: PageSize, totalElements: nat)

  /** The metadata record util/PageMetadata.java. */
  datatype PageMetadata = PageMetadata(
    pageNumber: nat,
    pageSize: nat,
    numberOfElements: nat,
    totalPages: nat,
    totalElements: nat)

  /** The record util/CustomData.java: a list of results and their metadata. */
  datatype CustomData<T, S> = CustomData(data: seq<T>, metadata: S)

  function Min(a: int, b: int): int {
    if a <= b then a else b
  }

  /** Pageable.getOffset. */
  function Offset(p: Pageable): nat {
    p.pageNumber * p.pageSize
  }

  /** The elements of `all` that fall on page `p`: at most one page size, from the offset on. */
  function Slice<T>(all: seq<T>, p: Pageable): (s: seq<T>)
    ensures |s| <= p.pageSize
    ensures |s| == if Offset(p) >= |all| then 0 else Min(|all| - Offset(p), p.pageSize)
  {
    if Offset(p) >= |all| then [] else all[Offset(p)..Min(|all|, Offset(p) + p.pageSize)]
  }

  /** What `repository.findAll(pageable)` returns for the sorted listing `all`. */
  function PageOf<T>(all: seq<T>, p: Pageable): Page<T> {
    Page(Slice(all, p), p.pageNumber, p.pageSize, |all|)
  }

  /** Page.getTotalPages: the number of pages of `size` elements that hold `total` elements. */
  function TotalPages(total: nat, size: PageSize): (n: nat)
    ensures n * size >= total
    ensures n > 0 ==> (n - 1) * size < total
    ensures n == 0 <==> total == 0
  {
    if total == 0 then 0 else (total - 1) / size + 1
  }

  /**
   * The metadata builder of the book service: page number and size as requested,
   * getNumberOfElements, getTotalPages and getTotalElements of the page.
   */
  function MetadataOf<T>(page: Page<T>): (m: PageMetadata)
    ensures m.numberOfElements == |page.content| && m.totalElements == page.totalElements
    ensures m.totalPages * page.size >= page.totalElements
    ensures m.totalPages == 0 <==> page.totalElements == 0
  {
    PageMetadata(page.number, page.size, |page.content|,
                 TotalPages(page.totalElements, page.size), page.totalElements)
  }

  /** The content of pages 0 to n - 1 of `all`, one after the other. */
  function FirstPages<T>(all: seq<T>, size: PageSize, n: nat): seq<T> {
    if n == 0 then [] else FirstPages(all, size, n - 1) + Slice(all, Pageable(n - 1, size))
  }

  /** The number of elements on pages 0 to n - 1 (the sum of their getNumberOfElements). */
  function ElementsOnFirstPages<T>(all: seq<T>, size: PageSize, n: nat): nat {
    if n == 0 then 0 else ElementsOnFirstPages(all, size, n - 1) + |Slice(all, Pageable(n - 1, size))|
  }

  /** The first n pages, read one after the other, are a prefix of the listing. */
  lemma {:induction false} FirstPagesArePrefix<T>(all: seq<T>, size: PageSize, n: nat)
    ensures FirstPages(all, size, n) == all[..Min(|all|, n * size)]
    ensures ElementsOnFirstPages(all, size, n) == Min(|all|, n * size)
  {
    if n > 0 {
      FirstPagesArePrefix(all, size, n - 1);
      var start := (n - 1) * size;
      assert start + size == n * size;
      if start < |all| {
        assert all[..start] + all[start..Min(|all|, n * size)] == all[..Min(|all|, n * size)];
      }
    }
  }

  /**
   * Reading every page of the listing, from 0 to getTotalPages() - 1, yields the whole
   * listing exactly once, so the numberOfElements of all pages add up to getTotalElements().
   */
  lemma PagesCoverListing<T>(all: seq<T>, size: PageSize)
    ensures FirstPages(all, size, TotalPages(|all|, size)) == all
    ensures ElementsOnFirstPages(all, size, TotalPages(|all|, size)) == |all|
  {
    FirstPagesArePrefix(all, size, TotalPages(|all|, size));
  }

  /** A page past the last one is empty. */
  lemma PagesPastTheLastAreEmpty<T>(all: seq<T>, p: Pageable)
    requires p.pageNumber >= TotalPages(|all|, p.pageSize)
    ensures Slice(all, p) == []
  {
    var n := TotalPages(|all|, p.pageSize);
    assert p.pageNumber * p.pageSize >= n * p.pageSize;
  }
}

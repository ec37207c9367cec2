/** Offset pagination: a request names a 0-based page number and a page
    size; a page carries its slice of the matching records, the request it
    answers and the total number of matching records. */
module Paging {

  datatype PageRequest = PageRequest(pageNumber: nat, pageSize: nat)

  datatype Page<T> = Page(content: seq<T>, pageable: PageRequest, totalElements: nat)

  function Min(a: int, b: int): int {
    if a <= b then a else b
  }

  function Offset(r: PageRequest): nat {
    r.pageNumber * r.pageSize
  }

  /** The records of `s` that fall on page `r`. */
  function Slice<T>(s: seq<T>, r: PageRequest): (c: seq<T>)
    ensures |c| <= r.pageSize
    ensures forall k :: 0 <= k < |c| ==> Offset(r) + k < |s| && c[k] == s[Offset(r) + k]
    ensures Offset(r) + r.pageSize <= |s| ==> |c| == r.pageSize
    ensures Offset(r) >= |s| ==> c == []
    ensures |c| == Min(r.pageSize, |s| - Min(Offset(r), |s|))
  {
    s[Min(Offset(r), |s|)..Min(Offset(r) + r.pageSize, |s|)]
  }

  /** The page `r` of the full result `s`, as a paging query answers it. */
  function PageOf<T>(s: seq<T>, r: PageRequest): (p: Page<T>)
    ensures p.pageable == r && p.totalElements == |s|
    ensures |p.content| == Min(r.pageSize, |s| - Min(Offset(r), |s|))
    ensures forall k :: 0 <= k < |p.content| ==> p.content[k] == s[Offset(r) + k]
  {
    Page(Slice(s, r), r, |s|)
  }

  /** The contents of pages 0 .. n-1 of `s`, one after the other. */
  function Pages<T>(s: seq<T>, size: nat, n: nat): seq<T> {
    if n == 0 then [] else Pages(s, size, n - 1) + Slice(s, PageRequest(n - 1, size))
  }

  /** The number of pages needed to show `total` records. */
  function PageCount(total: nat, size: nat): nat
    requires size > 0
  {
    (total + size - 1) / size
  }

  /** Reading the first n pages in order yields exactly the first n*size
      records: no record is skipped and none appears on two pages. */
  lemma {:induction false} PagesArePrefix<T>(s: seq<T>, size: nat, n: nat)
    requires size > 0
    ensures Pages(s, size, n) == s[..Min(n * size, |s|)]
  {
    if n > 0 {
      PagesArePrefix(s, size, n - 1);
      var r := PageRequest(n - 1, size);
      NextOffset(n, size);
      var lo, hi := Min(Offset(r), |s|), Min(n * size, |s|);
      assert Pages(s, size, n - 1) == s[..lo];
      assert Slice(s, r) == s[lo..hi];
      assert s[..lo] + s[lo..hi] == s[..hi];
    }
  }

  /** Page n-1 ends where page n starts. */
  lemma NextOffset(n: nat, size: nat)
    requires n > 0
    ensures Offset(PageRequest(n - 1, size)) + size == n * size
  {
    assert (n - 1) * size + size == n * size;
  }

  /** Reading every page yields the whole result, so the page sizes add
      up to the reported total. */
  lemma PagesCoverAll<T>(s: seq<T>, size: nat)
    requires size > 0
    ensures Pages(s, size, PageCount(|s|, size)) == s
    ensures |Pages(s, size, PageCount(|s|, size))| == PageOf(s, PageRequest(0, size)).totalElements
  {
    PageCountCovers(|s|, size);
    PagesArePrefix(s, size, PageCount(|s|, size));
  }

  /** Enough pages are counted to hold every record. */
  lemma PageCountCovers(total: nat, size: nat)
    requires size > 0
    ensures PageCount(total, size) * size >= total
  {
    var t := total + size - 1;
    assert t == (t / size) * size + t % size;
  }
}

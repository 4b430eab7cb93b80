/** Pagination of listings into fixed pages, as every listing handler does
    with the paginator and the page-size setting. */
module Paging {
  import opened Seqs

  /** The number of posts on a full page (the POSTS_PER_PAGE setting). */
  const PostsPerPage: nat := 10

  /** Pages are numbered from 1. */
  type PageNumber = n: int | 1 <= n witness 1

  /** Page n of the listing s: the n-th slice of PostsPerPage elements,
      shorter when the listing runs out, empty past its end. */
  function Page<T>(s: seq<T>, n: PageNumber): (r: seq<T>)
    ensures |s| >= n * PostsPerPage ==> |r| == PostsPerPage
    ensures (n - 1) * PostsPerPage <= |s| < n * PostsPerPage ==> |r| == |s| - (n - 1) * PostsPerPage
    ensures |s| < (n - 1) * PostsPerPage ==> r == []
    ensures forall k :: 0 <= k < |r| ==> r[k] == s[(n - 1) * PostsPerPage + k]
    ensures forall x :: x in r ==> x in s
  {
    var lo := (n - 1) * PostsPerPage;
    if |s| <= lo then []
    else if |s| <= lo + PostsPerPage then s[lo..]
    else s[lo..lo + PostsPerPage]
  }

  /** The listing cut into all its pages. An empty listing still has one,
      empty, page. */
  function Pages<T>(s: seq<T>): (r: seq<seq<T>>)
    ensures |r| >= 1
    ensures forall i :: 0 <= i < |r| - 1 ==> |r[i]| == PostsPerPage
    ensures |r[|r| - 1]| <= PostsPerPage
    ensures s != [] ==> r[|r| - 1] != []
    decreases |s|
  {
    if |s| <= PostsPerPage then [s]
    else [s[..PostsPerPage]] + Pages(s[PostsPerPage..])
  }

  /** The pages together hold the whole listing, in order, each element once. */
  lemma {:induction false} PagesCoverListing<T>(s: seq<T>)
    ensures Flatten(Pages(s)) == s
    decreases |s|
  {
    if |s| > PostsPerPage {
      PagesCoverListing(s[PostsPerPage..]);
    }
  }

  /** Moving one page on is dropping the first page's worth of the listing. */
  lemma PageShift<T>(s: seq<T>, n: PageNumber)
    requires n >= 2 && |s| >= PostsPerPage
    ensures Page(s, n) == Page(s[PostsPerPage..], n - 1)
  {
  }

  /** Page n, as a handler slices it, is the n-th of the pages the listing
      is cut into. */
  lemma {:induction false} PageIsNthPage<T>(s: seq<T>, n: PageNumber)
    requires n <= |Pages(s)|
    ensures Pages(s)[n - 1] == Page(s, n)
    decreases |s|
  {
    if |s| > PostsPerPage && n >= 2 {
      PageIsNthPage(s[PostsPerPage..], n - 1);
      PageShift(s, n);
    }
  }

  /** The number of pages: one for an empty listing, else the number of
      elements divided by the page size, rounded up. */
  lemma {:induction false} PageCount<T>(s: seq<T>)
    ensures |Pages(s)| == if s == [] then 1 else (|s| + PostsPerPage - 1) / PostsPerPage
    decreases |s|
  {
    if |s| > PostsPerPage {
      PageCount(s[PostsPerPage..]);
    }
  }

  /** Fifteen posts make a full first page and a second page of five. */
  lemma FifteenPosts<T>(s: seq<T>)
    requires |s| == 15
    ensures |Page(s, 1)| == 10 && |Page(s, 2)| == 5 && Page(s, 3) == []
    ensures |Pages(s)| == 2
  {
    PageCount(s);
  }
}

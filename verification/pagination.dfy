/**
  The blog-index paginator of the site's build script: from the number of
  published posts it derives one page descriptor per listing page, which the
  build registers with the site generator. Registration is replaced here by
  returning the descriptors. The listing template then shows the posts in the
  window `[skip, skip + limit)` of the date-sorted post list, and the
  pagination widget shows a "next" link only when the content layer reports
  that more posts follow.
 */
module Pagination {

  import opened Wrappers
  import opened Decimal

  /** Posts shown on one listing page. */
  const PostsPerPage: nat := 5

  /** Path of the first listing page; later pages hang their number below it. */
  const BlogRoot: string := "/blog"

  /** The context the build passes with each page, and the page's path. */
  datatype Page = Page(path: string, limit: nat, skip: nat, nextPage: string, pageNumber: nat)

  /** `/blog/k`, the path a later page or a "next" link uses. */
  function NumberedPath(k: nat): string {
    BlogRoot + "/" + NatToString(k)
  }

  /** Number of listing pages for `n` posts: the ceiling of `n / PostsPerPage`. */
  function NumPages(n: nat): (p: nat)
    ensures p * PostsPerPage >= n
    ensures p == 0 || (p - 1) * PostsPerPage < n
    ensures p == 0 <==> n == 0
  {
    (n + PostsPerPage - 1) / PostsPerPage
  }

  /**
    The descriptor the build creates for the page at 0-based position `i`.
    Its window starts `pageNumber - 1` full pages into the post list.
   */
  function PageAt(i: nat): (p: Page)
    ensures p.pageNumber == i + 1 && p.limit == PostsPerPage
    ensures p.skip == (p.pageNumber - 1) * p.limit
  {
    Page(
      path := if i == 0 then BlogRoot else NumberedPath(i + 1),
      limit := PostsPerPage,
      skip := i * PostsPerPage,
      nextPage := NumberedPath(i + 2),
      pageNumber := i + 1)
  }

  /** All page descriptors for `n` posts, in the order they are created. */
  function Paginate(n: nat): (pages: seq<Page>)
    ensures |pages| == NumPages(n)
    ensures forall i :: 0 <= i < |pages| ==> pages[i].skip < n
  {
    seq(NumPages(n), i requires 0 <= i => PageAt(i))
  }

  /** The build loop itself: one page per iteration, appended in order. */
  method CreatePages(n: nat) returns (pages: seq<Page>)
    ensures pages == Paginate(n)
  {
    var numPages := NumPages(n);
    pages := [];
    var i := 0;
    while i < numPages
      invariant 0 <= i <= numPages
      invariant pages == Paginate(n)[..i]
    {
      pages := pages + [PageAt(i)];
      i := i + 1;
    }
  }

  // ---------------------------------------------------------------------
  // What the listing template shows of a page

  function Min(a: nat, b: nat): nat {
    if a <= b then a else b
  }

  /** The posts a listing page shows: the window `[skip, skip + limit)` of the sorted posts, clipped to the list. */
  function PostsOnPage<T>(posts: seq<T>, page: Page): (shown: seq<T>)
    ensures |shown| <= page.limit
    ensures page.skip >= |posts| ==> shown == []
    ensures page.skip < |posts| ==> page.skip + |shown| == Min(page.skip + page.limit, |posts|)
    ensures forall j :: 0 <= j < |shown| ==> page.skip + j < |posts| && shown[j] == posts[page.skip + j]
  {
    posts[Min(page.skip, |posts|)..Min(page.skip + page.limit, |posts|)]
  }

  /** The posts of the given pages, read one page after another. */
  function Listing<T>(posts: seq<T>, pages: seq<Page>): seq<T> {
    if |pages| == 0 then [] else Listing(posts, pages[..|pages| - 1]) + PostsOnPage(posts, pages[|pages| - 1])
  }

  /** The window of the page at position `i`, in terms of post indices. */
  lemma PostsOnPageAt<T>(posts: seq<T>, i: nat)
    requires i < |Paginate(|posts|)|
    ensures PostsOnPage(posts, Paginate(|posts|)[i]) == posts[Min(i * PostsPerPage, |posts|)..Min((i + 1) * PostsPerPage, |posts|)]
  {
    assert Paginate(|posts|)[i] == PageAt(i);
  }

  /** Reading `k` pages is reading the first `k - 1` and then the window of the `k`-th. */
  lemma ListingLast<T>(posts: seq<T>, k: nat)
    requires 0 < k <= |Paginate(|posts|)|
    ensures var pages := Paginate(|posts|);
            Listing(posts, pages[..k]) ==
              Listing(posts, pages[..k - 1]) + posts[Min((k - 1) * PostsPerPage, |posts|)..Min(k * PostsPerPage, |posts|)]
  {
    var pages := Paginate(|posts|);
    assert pages[..k][..k - 1] == pages[..k - 1];
    PostsOnPageAt(posts, k - 1);
  }

  /**
    A prefix followed by the next slice is the longer prefix. Kept as a lemma so
    that `ListingPrefix` proves it apart from the `Listing` terms in its context.
   */
  lemma PrefixThenSlice<T>(s: seq<T>, lo: nat, hi: nat)
    requires lo <= hi <= |s|
    ensures s[..lo] + s[lo..hi] == s[..hi]
  {
  }

  /** Reading the first `k` pages shows exactly the first `5k` posts (or all of them). */
  lemma {:induction false} ListingPrefix<T>(posts: seq<T>, k: nat)
    requires k <= NumPages(|posts|)
    ensures Listing(posts, Paginate(|posts|)[..k]) == posts[..Min(k * PostsPerPage, |posts|)]
  {
    var pages := Paginate(|posts|);
    if k > 0 {
      var lo := Min((k - 1) * PostsPerPage, |posts|);
      var hi := Min(k * PostsPerPage, |posts|);
      ListingLast(posts, k);
      ListingPrefix(posts, k - 1);
      PrefixThenSlice(posts, lo, hi);
    }
  }

  /** The pages partition the post list: read in order, they show every post once, in input order. */
  lemma ListingIsPartition<T>(posts: seq<T>)
    ensures Listing(posts, Paginate(|posts|)) == posts
  {
    var pages := Paginate(|posts|);
    ListingPrefix(posts, |pages|);
    assert pages[..|pages|] == pages;
  }

  /** Post `j` lies in the window of exactly one page, the one at position `j / 5`. */
  lemma PostOnExactlyOnePage(n: nat, j: nat)
    requires j < n
    ensures j / PostsPerPage < |Paginate(n)|
    ensures forall i :: 0 <= i < |Paginate(n)| ==>
              (Paginate(n)[i].skip <= j < Paginate(n)[i].skip + Paginate(n)[i].limit <==> i == j / PostsPerPage)
  {
    var pages := Paginate(n);
    forall i | 0 <= i < |pages|
      ensures pages[i].skip <= j < pages[i].skip + pages[i].limit <==> i == j / PostsPerPage
    {
      assert pages[i] == PageAt(i);
    }
  }

  /** Every page but the last shows a full five posts; the last shows one to five. */
  lemma PageSizes<T>(posts: seq<T>)
    ensures var pages := Paginate(|posts|);
            forall i :: 0 <= i < |pages| ==>
              (i + 1 < |pages| ==> |PostsOnPage(posts, pages[i])| == PostsPerPage) &&
              (i + 1 == |pages| ==> 1 <= |PostsOnPage(posts, pages[i])| <= PostsPerPage)
  {
    var pages := Paginate(|posts|);
    forall i | 0 <= i < |pages|
      ensures (i + 1 < |pages| ==> |PostsOnPage(posts, pages[i])| == PostsPerPage) &&
              (i + 1 == |pages| ==> 1 <= |PostsOnPage(posts, pages[i])| <= PostsPerPage)
    {
      assert pages[i] == PageAt(i);
    }
  }

  // ---------------------------------------------------------------------
  // Offsets, numbers and paths

  /** Each page asks for five posts, offsets start at 0 and grow by exactly five. */
  lemma SkipLimit(n: nat)
    ensures var pages := Paginate(n);
            (|pages| > 0 ==> pages[0].skip == 0) &&
            (forall i :: 0 <= i < |pages| ==> pages[i].limit == PostsPerPage) &&
            (forall i :: 0 <= i < |pages| - 1 ==> pages[i + 1].skip == pages[i].skip + PostsPerPage)
  {
  }

  /** Page numbers run 1..numPages; page 1 lives at `/blog`, page `k > 1` at `/blog/k`. */
  lemma PageNumbersAndPaths(n: nat)
    ensures var pages := Paginate(n);
            forall i :: 0 <= i < |pages| ==>
              && 1 <= pages[i].pageNumber <= |pages|
              && pages[i].pageNumber == i + 1
              && (pages[i].pageNumber == 1 ==> pages[i].path == BlogRoot)
              && (pages[i].pageNumber > 1 ==> pages[i].path == "/blog/" + NatToString(pages[i].pageNumber))
  {
  }

  /** No two pages share a path. */
  lemma PathsDistinct(n: nat)
    ensures var pages := Paginate(n);
            forall i, j :: 0 <= i < j < |pages| ==> pages[i].path != pages[j].path
  {
    var pages := Paginate(n);
    forall i, j | 0 <= i < j < |pages|
      ensures pages[i].path != pages[j].path
    {
      assert pages[i] == PageAt(i) && pages[j] == PageAt(j);
      PageAtPathsDistinct(i, j);
    }
  }

  /** Pages at different positions get different paths. */
  lemma PageAtPathsDistinct(i: nat, j: nat)
    requires i < j
    ensures PageAt(i).path != PageAt(j).path
  {
    if i == 0 {
      assert |PageAt(j).path| > |BlogRoot|;
    } else {
      NumberedPathInjective(i + 1, j + 1);
    }
  }

  lemma NumberedPathInjective(a: nat, b: nat)
    ensures NumberedPath(a) == NumberedPath(b) ==> a == b
  {
    if NumberedPath(a) == NumberedPath(b) {
      assert NatToString(a) == NumberedPath(a)[|BlogRoot| + 1..];
      NatToStringInjective(a, b);
    }
  }

  /** `/blog/1` is never generated: the first page lives at `/blog` instead. */
  lemma BlogOneNeverGenerated(n: nat)
    ensures forall i :: 0 <= i < |Paginate(n)| ==> Paginate(n)[i].path != "/blog/1"
  {
    var pages := Paginate(n);
    forall i | 0 <= i < |pages|
      ensures pages[i].path != "/blog/1"
    {
      if i > 0 {
        assert NatToString(1) == "1";
        NumberedPathInjective(i + 1, 1);
      }
    }
  }

  /** The set of paths the build generates. */
  function GeneratedPaths(n: nat): set<string> {
    set i | 0 <= i < |Paginate(n)| :: Paginate(n)[i].path
  }

  /**
    `nextPage` names `/blog/(i+2)` on every page. Before the last page it is the
    path of the following page; on the last page it names no generated page.
   */
  lemma NextPageTargets(n: nat)
    ensures var pages := Paginate(n);
            && (forall i :: 0 <= i < |pages| ==> pages[i].nextPage == "/blog/" + NatToString(i + 2))
            && (forall i :: 0 <= i < |pages| - 1 ==> pages[i].nextPage == pages[i + 1].path)
            && (|pages| > 0 ==> pages[|pages| - 1].nextPage !in GeneratedPaths(n))
  {
    var pages := Paginate(n);
    forall i | 0 <= i < |pages|
      ensures pages[i].nextPage == "/blog/" + NatToString(i + 2)
    {
      assert pages[i] == PageAt(i);
    }
    forall i | 0 <= i < |pages| - 1
      ensures pages[i].nextPage == pages[i + 1].path
    {
      assert pages[i] == PageAt(i) && pages[i + 1] == PageAt(i + 1);
    }
    if |pages| > 0 {
      LastNextPageNotGenerated(n);
    }
  }

  /** The last page's `nextPage`, `/blog/(numPages + 1)`, is not the path of any page. */
  lemma LastNextPageNotGenerated(n: nat)
    requires |Paginate(n)| > 0
    ensures Paginate(n)[|Paginate(n)| - 1].nextPage !in GeneratedPaths(n)
  {
    var pages := Paginate(n);
    var last := pages[|pages| - 1].nextPage;
    assert last == NumberedPath(|pages| + 1) by {
      assert pages[|pages| - 1] == PageAt(|pages| - 1);
    }
    forall i | 0 <= i < |pages|
      ensures pages[i].path != last
    {
      assert pages[i] == PageAt(i);
      if i > 0 {
        NumberedPathInjective(i + 1, |pages| + 1);
      } else {
        assert |last| > |BlogRoot|;
      }
    }
  }

  // ---------------------------------------------------------------------
  // The "next page" link

  /**
    Whether more posts follow a page. The listing reads this flag from the
    content layer; it is modelled as: the page's window ends before the list does.
   */
  function HasNextPage(n: nat, page: Page): (more: bool)
    ensures page.limit == PostsPerPage && page.pageNumber >= 1 && page.skip == (page.pageNumber - 1) * PostsPerPage ==>
              (more <==> page.pageNumber < NumPages(n))
  {
    page.skip + page.limit < n
  }

  /** Target of the "next" link the pagination widget renders, if it renders one. */
  function NextLinkTarget(nextPage: string, hasNextPage: bool): (target: Option<string>)
    ensures target.Some? <==> hasNextPage
    ensures target.Some? ==> target.value == nextPage
  {
    if hasNextPage then Some(nextPage) else None
  }

  /** More posts follow a page exactly when it is not the last page. */
  lemma HasNextPageIffNotLast(n: nat)
    ensures forall i :: 0 <= i < |Paginate(n)| ==> (HasNextPage(n, Paginate(n)[i]) <==> i + 1 < |Paginate(n)|)
  {
    var pages := Paginate(n);
    forall i | 0 <= i < |pages|
      ensures HasNextPage(n, pages[i]) <==> i + 1 < |pages|
    {
      assert pages[i] == PageAt(i);
    }
  }

  /** Whenever the widget renders a "next" link, the link leads to a generated page. */
  lemma NextLinkIsGenerated(n: nat, i: nat)
    requires i < |Paginate(n)|
    ensures var page := Paginate(n)[i];
            var target := NextLinkTarget(page.nextPage, HasNextPage(n, page));
            target.Some? ==> target.value in GeneratedPaths(n)
  {
    var pages := Paginate(n);
    HasNextPageIffNotLast(n);
    NextPageTargets(n);
    if HasNextPage(n, pages[i]) {
      assert pages[i + 1].path in GeneratedPaths(n);
    }
  }

  /** Two sample post counts: 12 posts give three pages, 5 posts one page whose `nextPage` is still set. */
  lemma Examples()
    ensures Paginate(12) == [
              Page("/blog", 5, 0, "/blog/2", 1),
              Page("/blog/2", 5, 5, "/blog/3", 2),
              Page("/blog/3", 5, 10, "/blog/4", 3)]
    ensures Paginate(5) == [Page("/blog", 5, 0, "/blog/2", 1)]
    ensures Paginate(0) == []
  {
    assert NumberedPath(2) == "/blog/2";
    assert NumberedPath(3) == "/blog/3";
    assert NumberedPath(4) == "/blog/4";
    assert Paginate(12)[0] == PageAt(0);
    assert Paginate(12)[1] == PageAt(1);
    assert Paginate(12)[2] == PageAt(2);
    assert Paginate(5)[0] == PageAt(0);
  }
}

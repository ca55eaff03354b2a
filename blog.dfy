/**
 * The readers' feed (`src/pages/Blog.tsx`): the published-only list, replaced
 * wholesale on every fetch; six posts per page with 1-based page numbers; the page
 * buttons; and the share card that at most one post has open.
 */
module Blog {
  import opened Wrappers
  import opened Text
  import opened Store

  /** `blogsPerPage` */
  const PostsPerPage: nat := 6

  function Min(a: int, b: int): int
  {
    if a < b then a else b
  }

  /** Where `Array.prototype.slice` puts a bound: negative ones count from the end, all are clamped. */
  function SliceBound(i: int, len: nat): (r: nat)
    ensures r <= len
    ensures i >= 0 ==> r == Min(i, len)
    ensures i < 0 ==> r == if len + i < 0 then 0 else len + i
  {
    if i < 0 then (if len + i < 0 then 0 else len + i)
    else if i > len then len
    else i
  }

  /** `s.slice(start, end)` */
  function Slice<T>(s: seq<T>, start: int, end: int): seq<T>
  {
    var a, b := SliceBound(start, |s|), SliceBound(end, |s|);
    if a < b then s[a..b] else []
  }

  /**
   * `currentBlogs` for page number `page`: never more than six posts, and for a page
   * number of at least 1, the posts at positions `(page - 1) * 6` up to `page * 6`.
   */
  function PageOf(posts: seq<Post>, page: int): (r: seq<Post>)
    ensures |r| <= PostsPerPage
    ensures page >= 1 ==> r == posts[Min((page - 1) * PostsPerPage, |posts|)..Min(page * PostsPerPage, |posts|)]
  {
    var last := page * PostsPerPage;
    var first := last - PostsPerPage;
    Slice(posts, first, last)
  }

  /** `Math.ceil(blogs.length / blogsPerPage)`: the fewest pages of six that hold `count` posts. */
  function TotalPages(count: nat): (r: nat)
    ensures count <= r * PostsPerPage
    ensures r > 0 ==> (r - 1) * PostsPerPage < count
  {
    (count + PostsPerPage - 1) / PostsPerPage
  }

  /** A page number past the last page shows an empty page, not an error. */
  lemma PastLastPageIsEmpty(posts: seq<Post>, page: int)
    requires page > TotalPages(|posts|)
    ensures PageOf(posts, page) == []
  {
  }

  /** Pages `1..k`, one after the other. */
  function PagesUpTo(posts: seq<Post>, k: nat): seq<Post>
  {
    if k == 0 then [] else PagesUpTo(posts, k - 1) + PageOf(posts, k)
  }

  lemma {:induction false} PagesUpToPrefix(posts: seq<Post>, k: nat)
    ensures PagesUpTo(posts, k) == posts[..Min(k * PostsPerPage, |posts|)]
  {
    if k > 0 {
      PagesUpToPrefix(posts, k - 1);
      var a, b := Min((k - 1) * PostsPerPage, |posts|), Min(k * PostsPerPage, |posts|);
      assert posts[..a] + posts[a..b] == posts[..b];
    }
  }

  /** Pages `1..totalPages` put back together are the held list: every post is on a page. */
  lemma PagesReassemble(posts: seq<Post>)
    ensures PagesUpTo(posts, TotalPages(|posts|)) == posts
  {
    PagesUpToPrefix(posts, TotalPages(|posts|));
  }

  /**
   * The post at position `i` is the `i % 6`-th card of page `i / 6 + 1`, and if it is
   * held only once, no other page from 1 on shows it.
   */
  lemma PostOnOnePage(posts: seq<Post>, i: nat, page: int)
    requires i < |posts| && page >= 1
    requires forall j :: 0 <= j < |posts| && j != i ==> posts[j] != posts[i]
    ensures PageOf(posts, i / PostsPerPage + 1)[i % PostsPerPage] == posts[i]
    ensures posts[i] in PageOf(posts, page) <==> page == i / PostsPerPage + 1
  {
    var q := i / PostsPerPage + 1;
    var lo, hi := Min((q - 1) * PostsPerPage, |posts|), Min(q * PostsPerPage, |posts|);
    assert lo == i - i % PostsPerPage && i < hi;
    assert posts[lo..hi][i % PostsPerPage] == posts[i];
    if posts[i] in PageOf(posts, page) {
      var a, b := Min((page - 1) * PostsPerPage, |posts|), Min(page * PostsPerPage, |posts|);
      var j :| 0 <= j < b - a && posts[a..b][j] == posts[i];
      assert posts[a + j] == posts[i];
      assert (page - 1) * PostsPerPage <= i < page * PostsPerPage;
    }
  }

  /** The numbered buttons: `1..totalPages` in order, rendered only when `totalPages > 1`. */
  function PageButtons(total: nat): (r: seq<int>)
    ensures forall p :: p in r <==> total > 1 && 1 <= p <= total
    ensures forall i, j :: 0 <= i < j < |r| ==> r[i] < r[j]
  {
    if total > 1 then
      var r := seq(total, i => i + 1);
      assert forall p | 1 <= p <= total :: p in r by {
        forall p | 1 <= p <= total ensures p in r {
          assert r[p - 1] == p;
        }
      }
      r
    else []
  }

  /** Every button shown leads to a page with at least one post on it. */
  lemma ButtonsShowPosts(posts: seq<Post>, page: int)
    requires page in PageButtons(TotalPages(|posts|))
    ensures PageOf(posts, page) != []
  {
  }

  /** `getShareUrl`: the address of a post's detail page under the site's origin. */
  function ShareUrl(origin: string, blogId: Id): (r: string)
    ensures |r| > |origin| + 6
    ensures r[..|origin|] == origin && r[|origin|..|origin| + 6] == "/blog/"
    ensures AllDigits(r[|origin| + 6..]) && ParseDecimal(r[|origin| + 6..]) == blogId
  {
    var r := origin + "/blog/" + DecimalString(blogId);
    assert r[|origin| + 6..] == DecimalString(blogId);
    ParseDecimalString(blogId);
    r
  }

  /** Two different posts never share a link. */
  lemma ShareUrlsDistinct(origin: string, a: Id, b: Id)
    requires a != b
    ensures ShareUrl(origin, a) != ShareUrl(origin, b)
  {
  }

  /** The feed's component state, reading the shared table. */
  class BlogState {
    const db: PostTable
    var blogs: seq<Post>
    var loading: bool
    var currentPage: int
    var shareBlogId: Option<Id>

    constructor (db: PostTable)
      ensures this.db == db
      ensures blogs == [] && loading && currentPage == 1 && shareBlogId == None
    {
      this.db := db;
      blogs := [];
      loading := true;
      currentPage := 1;
      shareBlogId := None;
    }

    /** The cards on screen. */
    function CurrentBlogs(): seq<Post>
      reads this
    {
      PageOf(blogs, currentPage)
    }

    /** The page buttons on screen. */
    function Buttons(): seq<int>
      reads this
    {
      PageButtons(TotalPages(|blogs|))
    }

    /**
     * The page buttons on screen each lead to cards, and a page number left past the
     * end (the list shrank under it on a refetch) shows no cards instead of failing.
     */
    lemma OnScreen()
      ensures forall p :: p in Buttons() ==> PageOf(blogs, p) != []
      ensures currentPage > TotalPages(|blogs|) ==> CurrentBlogs() == []
    {
      forall p | p in Buttons() ensures PageOf(blogs, p) != [] {
        ButtonsShowPosts(blogs, p);
      }
      if currentPage > TotalPages(|blogs|) {
        PastLastPageIsEmpty(blogs, currentPage);
      }
    }

    /**
     * `fetchBlogs`, run on mount and on every change event of the table: on success
     * the list becomes the published posts, newest first; on failure it becomes
     * empty. The page number and the open share card are kept.
     */
    method FetchBlogs(ok: bool)
      modifies this
      ensures blogs == if ok then ListPublished(db.rows) else []
      ensures !loading
      ensures currentPage == old(currentPage) && shareBlogId == old(shareBlogId)
    {
      loading := true;
      if ok {
        blogs := db.SelectPublished();
      } else {
        blogs := [];
      }
      loading := false;
    }

    /** `paginate(pageNumber)` */
    method Paginate(pageNumber: int)
      modifies this
      ensures currentPage == pageNumber
      ensures blogs == old(blogs) && loading == old(loading) && shareBlogId == old(shareBlogId)
    {
      currentPage := pageNumber;
    }

    /** A card's share button: closes that post's card if it is open, otherwise opens it (closing any other). */
    method ToggleShare(blogId: Id)
      modifies this
      ensures shareBlogId == if old(shareBlogId) == Some(blogId) then None else Some(blogId)
      ensures blogs == old(blogs) && loading == old(loading) && currentPage == old(currentPage)
    {
      shareBlogId := if Some(blogId) == shareBlogId then None else Some(blogId);
    }

    /** The share card's close button. */
    method CloseShare()
      modifies this
      ensures shareBlogId == None
      ensures blogs == old(blogs) && loading == old(loading) && currentPage == old(currentPage)
    {
      shareBlogId := None;
    }
  }
}

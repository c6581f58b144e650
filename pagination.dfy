/** The paginated article lists of lib/hbar.py: `_chunk`, the page
    directories and header links of `_deploy_list`, and the navigation
    footer `_html_list_footer`. */
module Pagination {
  import opened Text
  import Urls
  import Sorting

  /** How many summaries a list page holds. */
  const PageSize: nat := 10

  /** The sequences of `parts`, one after the other. */
  function Flatten<T>(parts: seq<seq<T>>): seq<T>
  {
    if parts == [] then [] else parts[0] + Flatten(parts[1..])
  }

  /** `_chunk(sequence, n)`: the slices `sequence[ptr : ptr + n]` for `ptr`
      in `range(0, len(sequence), n)`. */
  function Chunk<T>(s: seq<T>, n: nat): seq<seq<T>>
    requires n > 0
    decreases |s|
  {
    if s == [] then []
    else if |s| <= n then [s]
    else [s[..n]] + Chunk(s[n..], n)
  }

  /** The chunks put back together are the input. */
  lemma {:induction false} ChunkFlatten<T>(s: seq<T>, n: nat)
    requires n > 0
    ensures Flatten(Chunk(s, n)) == s
    decreases |s|
  {
    if |s| > n {
      ChunkFlatten(s[n..], n);
      var r := Chunk(s, n);
      assert r[1..] == Chunk(s[n..], n);
      assert s == s[..n] + s[n..];
    }
  }

  /** There are as many chunks as `range(0, len(sequence), n)` has elements;
      in particular none for an empty input. */
  lemma {:induction false} ChunkCount<T>(s: seq<T>, n: nat)
    requires n > 0
    ensures |Chunk(s, n)| == (|s| + n - 1) / n
    decreases |s|
  {
    if s == [] {
    } else if |s| <= n {
      DivIs(|s| + n - 1, n, 1);
    } else {
      ChunkCount(s[n..], n);
      DivShift(|s| - n + n - 1, n);
    }
  }

  lemma MulAtLeast(x: int, n: int)
    requires n > 0 && x >= 1
    ensures x * n >= n
  {
    assert x * n == (x - 1) * n + n;
    assert (x - 1) * n >= 0;
  }

  lemma DivIs(a: int, n: int, q: int)
    requires n > 0 && q * n <= a < q * n + n
    ensures a / n == q
  {
    var q' := a / n;
    var r' := a % n;
    assert a == q' * n + r';
    assert 0 <= r' < n;
    if q' > q {
      MulAtLeast(q' - q, n);
    } else if q' < q {
      MulAtLeast(q - q', n);
    }
  }

  lemma DivShift(a: int, n: int)
    requires n > 0 && a >= 0
    ensures (a + n) / n == a / n + 1
  {
    var q := a / n;
    assert a == q * n + a % n;
    assert (q + 1) * n == q * n + n;
    DivIs(a + n, n, q + 1);
  }

  /** Every chunk but the last holds exactly `n` items; the last holds
      between one and `n`. */
  lemma {:induction false} ChunkSizes<T>(s: seq<T>, n: nat, k: nat)
    requires n > 0 && k < |Chunk(s, n)|
    ensures k < |Chunk(s, n)| - 1 ==> |Chunk(s, n)[k]| == n
    ensures 0 < |Chunk(s, n)[k]| <= n
    decreases |s|
  {
    if |s| > n && k > 0 {
      ChunkSizes(s[n..], n, k - 1);
    }
  }

  /** `pathlib.Path(path)` for the first page and
      `Path(path) / "page" / str(k)` for page `k`, as a string; the empty
      path is `.`. */
  function PageDirectory(path: string, page: nat): string
  {
    if page <= 1 then (if path == "" then "." else path)
    else (if path == "" then "" else path + "/") + "page/" + NatToString(page)
  }

  /** The targets of the two links of `_html_list_footer(path, page,
      n_pages)`: the previous page exists when `page > 1`, the next when
      `page < n_pages`. */
  datatype FooterLinks = FooterLinks(moreRecent: Option<string>, older: Option<string>)

  function Links(path: string, page: int, nPages: int): (r: FooterLinks)
    ensures r.moreRecent.Some? <==> page > 1
    ensures r.older.Some? <==> page < nPages
  {
    var moreRecent :=
      if page > 1 then Some(Urls.CanonicalAbs(if page > 2 then path + "/page/" + IntToString(page - 1) else path))
      else None;
    var older :=
      if page < nPages then Some(Urls.CanonicalAbs(path + "/page/" + IntToString(page + 1)))
      else None;
    FooterLinks(moreRecent, older)
  }

  const Separator := "<span class=\"page-link-separator\"> | </span>"

  function MoreRecentAnchor(href: string): string
  {
    "<a href=\"" + href + "\">&#8230;more recent posts</a>"
  }

  function OlderAnchor(href: string): string
  {
    "<a href=\"" + href + "\">older posts&#8230;</a>"
  }

  /** `_html_list_footer(path, page, n_pages)`. */
  function ListFooter(path: string, page: int, nPages: int): string
  {
    var links := Links(path, page, nPages);
    var younger := if links.moreRecent.Some? then MoreRecentAnchor(links.moreRecent.value) else "";
    var older := if links.older.Some? then OlderAnchor(links.older.value) else "";
    var sep := if younger != "" && older != "" then Separator else "";
    "<span id=\"list-page-navigation\">" + younger + sep + older + "</span>"
  }

  /** The footer holds the "more recent" link exactly when the page is not
      the first, the "older" link exactly when it is not the last, and the
      separator exactly when both links are there. */
  lemma ListFooterShape(path: string, page: int, nPages: int)
    ensures var links := Links(path, page, nPages);
      ListFooter(path, page, nPages)
      == "<span id=\"list-page-navigation\">"
         + (if page > 1 then MoreRecentAnchor(links.moreRecent.value) else "")
         + (if 1 < page < nPages then Separator else "")
         + (if page < nPages then OlderAnchor(links.older.value) else "")
         + "</span>"
  {
  }

  /** The href of page `k >= 2` that the footer builds is the canonical
      form of the directory that page is written to. */
  lemma PageLinkIsDirectory(path: string, k: nat)
    requires path == "" || (path[0] != '/' && path[|path| - 1] != '/')
    requires k >= 2
    ensures Urls.CanonicalAbs(path + "/page/" + IntToString(k)) == Urls.CanonicalAbs(PageDirectory(path, k))
  {
    var tail := "page/" + NatToString(k);
    assert IntToString(k) == NatToString(k);
    var link := path + "/page/" + IntToString(k);
    if path == "" {
      assert link == "/" + tail;
      assert PageDirectory(path, k) == tail;
      Urls.CanonicalAbsIgnoresEdgeSlashes(tail, false, false);
    } else {
      assert link == path + "/" + tail;
      assert PageDirectory(path, k) == path + "/" + tail;
    }
  }

  /** The href of the first page is the canonical form of its directory. */
  lemma FirstPageLinkIsDirectory(path: string)
    ensures Urls.CanonicalAbs(path) == Urls.CanonicalAbs(PageDirectory(path, 1))
  {
    if path == "" {
      assert Urls.StripSlashes(".") == "." by {
        assert Urls.StripLeadingSlashes(".") == ".";
        assert Urls.StripTrailingSlashes(".") == ".";
      }
    }
  }

  /** The footer links lead to the directories the neighbouring pages are
      written to, given the slash-stripped path `_deploy_list` passes. */
  lemma LinksReachNeighbours(path: string, page: int, nPages: int)
    requires path == "" || (path[0] != '/' && path[|path| - 1] != '/')
    ensures var links := Links(path, page, nPages);
      && (page > 1 ==> links.moreRecent.value == Urls.CanonicalAbs(PageDirectory(path, page - 1)))
      && (1 <= page < nPages ==> links.older.value == Urls.CanonicalAbs(PageDirectory(path, page + 1)))
  {
    if page == 2 {
      FirstPageLinkIsDirectory(path);
    } else if page > 2 {
      PageLinkIsDirectory(path, page - 1);
    }
    if 1 <= page < nPages {
      PageLinkIsDirectory(path, page + 1);
    }
  }

  /** One page of an article list: the directory it is written to, the
      target of its header link, the articles it summarises, its footer. */
  datatype Page = Page(directory: string, headerLink: string, articles: seq<string>, footer: string)

  /** `sorted(article_ids, key=date, reverse=True)`: newest first, articles
      of the same date in their original order. */
  function Chronological(articleIds: seq<string>, date: string -> int): seq<string>
  {
    Sorting.Sort(articleIds, (a, b) => date(a) >= date(b))
  }

  /** The pages `_deploy_list(article_ids, ..., path)` writes. */
  function ListPages(articleIds: seq<string>, date: string -> int, path: string): seq<Page>
  {
    Pages(Urls.StripSlashes(path), Chunk(Chronological(articleIds, date), PageSize))
  }

  /** One page per chunk of articles, numbered from 1, under `p`. */
  function Pages(p: string, chunks: seq<seq<string>>): (r: seq<Page>)
    ensures |r| == |chunks|
    ensures forall k :: 0 <= k < |r| ==> r[k].articles == chunks[k]
    ensures forall k :: 0 <= k < |r| ==>
      && r[k].headerLink == Urls.CanonicalAbs(PageDirectory(p, k + 1))
      && r[k].footer == ListFooter(p, k + 1, |chunks|)
  {
    seq(|chunks|, k requires 0 <= k < |chunks| =>
      var dir := PageDirectory(p, k + 1);
      Page(dir, Urls.CanonicalAbs(dir), chunks[k], ListFooter(p, k + 1, |chunks|)))
  }

  function PageArticles(pages: seq<Page>): seq<seq<string>>
  {
    seq(|pages|, k requires 0 <= k < |pages| => pages[k].articles)
  }

  /** Newest first is an ordering that relates every pair of articles. */
  lemma NewestFirstOrder(date: string -> int)
    ensures Sorting.TotalPreorder((a: string, b: string) => date(a) >= date(b))
  {
  }

  /** Read page after page, the lists hold the articles of the id list,
      each as often as the list names it, newest first (articles of the
      same date in list order); there are as many pages as tens of
      articles (rounded up), each holding one to ten of them. */
  lemma ListPagesContents(articleIds: seq<string>, date: string -> int, path: string)
    ensures var r := ListPages(articleIds, date, path);
      var read := Flatten(PageArticles(r));
      && read == Chronological(articleIds, date)
      && multiset(read) == multiset(articleIds)
      && (forall i, j :: 0 <= i < j < |read| ==> date(read[i]) >= date(read[j]))
      && |r| == (|articleIds| + PageSize - 1) / PageSize
      && forall k :: 0 <= k < |r| ==> 0 < |r[k].articles| <= PageSize
  {
    var r := ListPages(articleIds, date, path);
    var sorted := Chronological(articleIds, date);
    var chunks := Chunk(sorted, PageSize);
    assert PageArticles(r) == chunks;
    ChunkFlatten(sorted, PageSize);
    Sorting.SortPermutes(articleIds, (a, b) => date(a) >= date(b));
    NewestFirstOrder(date);
    Sorting.SortSorted(articleIds, (a: string, b: string) => date(a) >= date(b));
    assert |sorted| == |multiset(sorted)| == |multiset(articleIds)| == |articleIds|;
    ChunkCount(sorted, PageSize);
    forall k | 0 <= k < |r|
      ensures 0 < |r[k].articles| <= PageSize
    {
      ChunkSizes(sorted, PageSize, k);
    }
  }

  /** Each page's footer links to the neighbouring pages' own header
      links. */
  lemma ListPagesLinked(articleIds: seq<string>, date: string -> int, path: string, k: nat)
    requires k < |ListPages(articleIds, date, path)|
    ensures var r := ListPages(articleIds, date, path);
      var links := Links(Urls.StripSlashes(path), k + 1, |r|);
      && r[k].footer == ListFooter(Urls.StripSlashes(path), k + 1, |r|)
      && (k > 0 ==> links.moreRecent == Some(r[k - 1].headerLink))
      && (k + 1 < |r| ==> links.older == Some(r[k + 1].headerLink))
  {
    var p, r := Urls.StripSlashes(path), ListPages(articleIds, date, path);
    LinksReachNeighbours(p, k + 1, |r|);
  }
}

/** The walk over the search-result pages: each page's listing anchors are
    turned into full addresses and appended, in order and without removing
    duplicates, and the walk follows the page's "next" button until a page has
    none. In debug mode only the first page is read. */
module Pagination {
  import opened Wrappers
  import opened Site

  /** An `a` element as the walk reads it: only its `href` attribute matters,
      and the attribute may be missing. */
  datatype Anchor = Anchor(href: Option<string>)

  /** What the walk reads from one fetched result page: the listing anchors the
      results selector matches, in document order, and the "next" button, if
      the page has one. */
  datatype ResultPage = ResultPage(listings: seq<Anchor>, next: Option<Anchor>)

  /** The outcome of a finished walk: the collected listing addresses and the
      addresses of the result pages requested, both in visit order. */
  datatype Walk = Walk(adUrls: seq<string>, requested: seq<string>)

  /** Every anchor has an `href`. */
  predicate AllHrefs(anchors: seq<Anchor>) {
    forall i :: 0 <= i < |anchors| ==> anchors[i].href.Some?
  }

  /** The addresses of one page's listing anchors, or `MissingHref` when one of
      them has no `href`. */
  function AnchorUrls(anchors: seq<Anchor>): (r: Result<seq<string>, CrawlError>)
    ensures r.Success? <==> AllHrefs(anchors)
    ensures r.Failure? ==> r.error == MissingHref
    ensures r.Success? ==> |r.value| == |anchors|
    ensures r.Success? ==> forall i :: 0 <= i < |anchors| ==> r.value[i] == ListingUrl(anchors[i].href.value)
    decreases |anchors|
  {
    if |anchors| == 0 then Success([])
    else if anchors[0].href.None? then Failure(MissingHref)
    else
      var rest :- AnchorUrls(anchors[1..]);
      Success([ListingUrl(anchors[0].href.value)] + rest)
  }

  /** Two anchors of a page give the same address exactly when they carry the
      same `href`: duplicates among the collected addresses come only from
      duplicate anchors. */
  lemma SameUrlIffSameHref(anchors: seq<Anchor>, i: nat, j: nat)
    requires AllHrefs(anchors) && i < |anchors| && j < |anchors|
    ensures AnchorUrls(anchors).value[i] == AnchorUrls(anchors).value[j] <==> anchors[i].href == anchors[j].href
  {
    ListingUrlInjective(anchors[i].href.value, anchors[j].href.value);
  }

  /** The walk from the page at `url`, where `pages` are the documents the
      successive requests return. Running out of `pages` stands for a request
      that fails. */
  function WalkFrom(url: string, pages: seq<ResultPage>, debug: bool): (r: Result<Walk, CrawlError>)
    ensures r.Success? ==> 1 <= |r.value.requested| <= |pages| && r.value.requested[0] == url
    ensures r.Success? && debug ==> |r.value.requested| == 1
    decreases |pages|
  {
    if |pages| == 0 then Failure(FetchFailed)
    else
      var urls :- AnchorUrls(pages[0].listings);
      if debug then Success(Walk(urls, [url]))
      else match pages[0].next
        case None => Success(Walk(urls, [url]))
        case Some(button) =>
          if button.href.None? then Failure(MissingHref)
          else
            var rest :- WalkFrom(NextPageUrl(button.href.value), pages[1..], debug);
            Success(Walk(urls + rest.adUrls, [url] + rest.requested))
  }

  /** The whole walk, starting from the first hot-sheet page. */
  function WalkResults(pages: seq<ResultPage>, debug: bool): (r: Result<Walk, CrawlError>)
    ensures r.Success? ==> 1 <= |r.value.requested| <= |pages| && r.value.requested[0] == StartUrl
    ensures r.Success? && debug ==> |r.value.requested| == 1
  {
    WalkFrom(StartUrl, pages, debug)
  }

  // ---------------------------------------------------------------------------
  // Reference description of a walk that is not in debug mode
  // ---------------------------------------------------------------------------

  /** Page `k` is the first page without a "next" button. */
  predicate StopsAt(pages: seq<ResultPage>, k: nat) {
    k < |pages| && pages[k].next.None? && forall j :: 0 <= j < k ==> pages[j].next.Some?
  }

  /** Every attribute the walk reads up to page `k` is present: the `href` of
      each listing anchor on pages 0..k and of each "next" button on pages 0..k-1. */
  predicate ReadableUpTo(pages: seq<ResultPage>, k: nat)
    requires StopsAt(pages, k)
  {
    && (forall j :: 0 <= j <= k ==> AllHrefs(pages[j].listings))
    && (forall j :: 0 <= j < k ==> pages[j].next.value.href.Some?)
  }

  /** The listing addresses of one page, assuming its anchors all have an `href`. */
  function PageUrls(p: ResultPage): seq<string> {
    seq(|p.listings|, i requires 0 <= i < |p.listings| => ListingUrl(p.listings[i].href.GetOr("")))
  }

  /** The listing addresses of a run of pages, concatenated in page order. */
  function ConcatUrls(pages: seq<ResultPage>): seq<string>
    decreases |pages|
  {
    if |pages| == 0 then [] else PageUrls(pages[0]) + ConcatUrls(pages[1..])
  }

  /** The number of listing anchors on a run of pages. */
  function AnchorCount(pages: seq<ResultPage>): nat
    decreases |pages|
  {
    if |pages| == 0 then 0 else |pages[0].listings| + AnchorCount(pages[1..])
  }

  /** The collected addresses number exactly the anchors of the pages read:
      nothing is dropped and nothing is de-duplicated. */
  lemma {:induction false} ConcatUrlsLength(pages: seq<ResultPage>)
    ensures |ConcatUrls(pages)| == AnchorCount(pages)
    decreases |pages|
  {
    if |pages| > 0 {
      ConcatUrlsLength(pages[1..]);
    }
  }

  /** Off debug mode, the walk reads pages 0..k, where k is the first page
      without a "next" button; it collects their listing addresses in page
      order, and it requests the start page and then each "next" target. */
  lemma {:induction false} WalkStopsAtFirstPageWithoutNext(url: string, pages: seq<ResultPage>, k: nat)
    requires StopsAt(pages, k) && ReadableUpTo(pages, k)
    ensures WalkFrom(url, pages, false).Success?
    ensures WalkFrom(url, pages, false).value.adUrls == ConcatUrls(pages[..k + 1])
    ensures |WalkFrom(url, pages, false).value.requested| == k + 1
    ensures WalkFrom(url, pages, false).value.requested[0] == url
    ensures forall j :: 0 <= j < k ==>
      WalkFrom(url, pages, false).value.requested[j + 1] == NextPageUrl(pages[j].next.value.href.value)
    decreases k
  {
    var p := pages[0];
    PageUrlsOfReadablePage(p);
    assert pages[..k + 1][0] == p;
    assert pages[..k + 1][1..] == pages[1..][..k];
    if k > 0 {
      var rest := pages[1..];
      assert StopsAt(rest, k - 1) by {
        forall j | 0 <= j < k - 1 ensures rest[j].next.Some? {
          assert rest[j] == pages[j + 1];
        }
      }
      assert ReadableUpTo(rest, k - 1) by {
        forall j | 0 <= j <= k - 1 ensures AllHrefs(rest[j].listings) {
          assert rest[j] == pages[j + 1];
        }
        forall j | 0 <= j < k - 1 ensures rest[j].next.value.href.Some? {
          assert rest[j] == pages[j + 1];
        }
      }
      var next := NextPageUrl(p.next.value.href.value);
      WalkStopsAtFirstPageWithoutNext(next, rest, k - 1);
      var w := WalkFrom(next, rest, false).value;
      assert WalkFrom(url, pages, false) == Success(Walk(PageUrls(p) + w.adUrls, [url] + w.requested));
      forall j | 0 <= j < k
        ensures WalkFrom(url, pages, false).value.requested[j + 1] == NextPageUrl(pages[j].next.value.href.value)
      {
        if j > 0 {
          assert rest[j - 1] == pages[j];
        }
      }
    } else {
      assert pages[..1][1..] == [];
    }
  }

  lemma PageUrlsOfReadablePage(p: ResultPage)
    requires AllHrefs(p.listings)
    ensures AnchorUrls(p.listings) == Success(PageUrls(p))
  {
    var r := AnchorUrls(p.listings);
    assert |r.value| == |PageUrls(p)|;
    forall i | 0 <= i < |r.value|
      ensures r.value[i] == PageUrls(p)[i]
    {
      assert p.listings[i].href.Some?;
    }
    assert r.value == PageUrls(p);
  }

  /** Off debug mode the walk succeeds exactly when some page lacks a "next"
      button and every attribute read up to the first such page is present. */
  lemma {:induction false} WalkSucceedsIff(url: string, pages: seq<ResultPage>)
    ensures WalkFrom(url, pages, false).Success? <==> exists k: nat :: StopsAt(pages, k) && ReadableUpTo(pages, k)
    decreases |pages|
  {
    if exists k: nat :: StopsAt(pages, k) && ReadableUpTo(pages, k) {
      var k: nat :| StopsAt(pages, k) && ReadableUpTo(pages, k);
      WalkStopsAtFirstPageWithoutNext(url, pages, k);
    }
    if WalkFrom(url, pages, false).Success? {
      var p := pages[0];
      assert AllHrefs(p.listings);
      if p.next.None? {
        assert StopsAt(pages, 0) && ReadableUpTo(pages, 0);
      } else {
        var rest := pages[1..];
        var next := NextPageUrl(p.next.value.href.value);
        assert WalkFrom(next, rest, false).Success?;
        WalkSucceedsIff(next, rest);
        var k: nat :| StopsAt(rest, k) && ReadableUpTo(rest, k);
        forall j | 0 <= j <= k + 1
          ensures pages[j].next.None? <==> j == k + 1
          ensures AllHrefs(pages[j].listings)
          ensures j <= k ==> pages[j].next.value.href.Some?
        {
          if j > 0 {
            assert pages[j] == rest[j - 1];
          }
        }
        assert StopsAt(pages, k + 1) && ReadableUpTo(pages, k + 1);
      }
    }
  }

  /** In debug mode exactly one page is read, whether or not it has a "next"
      button, and its addresses are the whole result. */
  lemma DebugReadsOnePage(pages: seq<ResultPage>)
    requires |pages| > 0 && AllHrefs(pages[0].listings)
    ensures WalkResults(pages, true) == Success(Walk(PageUrls(pages[0]), [StartUrl]))
  {
    PageUrlsOfReadablePage(pages[0]);
  }

  /** A single result page with three listing anchors and no "next" button
      gives exactly those three addresses, in document order, from one request. */
  lemma ThreeListingsOnePage(a: string, b: string, c: string)
    ensures WalkResults([ResultPage([Anchor(Some(a)), Anchor(Some(b)), Anchor(Some(c))], None)], false)
         == Success(Walk([ListingUrl(a), ListingUrl(b), ListingUrl(c)], [StartUrl]))
  {
    var pages := [ResultPage([Anchor(Some(a)), Anchor(Some(b)), Anchor(Some(c))], None)];
    assert StopsAt(pages, 0) && ReadableUpTo(pages, 0);
    WalkStopsAtFirstPageWithoutNext(StartUrl, pages, 0);
    assert pages[..1] == pages;
    assert ConcatUrls(pages) == PageUrls(pages[0]) + ConcatUrls([]);
    var urls := PageUrls(pages[0]);
    assert urls[0] == ListingUrl(a) && urls[1] == ListingUrl(b) && urls[2] == ListingUrl(c);
    assert urls == [ListingUrl(a), ListingUrl(b), ListingUrl(c)];
    assert ConcatUrls([]) == [];
    var w := WalkResults(pages, false).value;
    assert w.requested == [StartUrl];
    assert w.adUrls == urls;
  }

  // ---------------------------------------------------------------------------
  // The loop as the crawler writes it
  // ---------------------------------------------------------------------------

  /** Prefixes a walk's output with what earlier pages collected. */
  function After(adUrls: seq<string>, requested: seq<string>, r: Result<Walk, CrawlError>): Result<Walk, CrawlError> {
    match r
    case Success(w) => Success(Walk(adUrls + w.adUrls, requested + w.requested))
    case Failure(e) => Failure(e)
  }

  lemma AfterNothing(r: Result<Walk, CrawlError>)
    ensures After([], [], r) == r
  {
    if r.Success? {
      assert [] + r.value.adUrls == r.value.adUrls;
      assert [] + r.value.requested == r.value.requested;
    }
  }

  lemma AfterAfter(a: seq<string>, q: seq<string>, a2: seq<string>, q2: seq<string>, r: Result<Walk, CrawlError>)
    ensures After(a, q, After(a2, q2, r)) == After(a + a2, q + q2, r)
  {
    if r.Success? {
      assert a + (a2 + r.value.adUrls) == (a + a2) + r.value.adUrls;
      assert q + (q2 + r.value.requested) == (q + q2) + r.value.requested;
    }
  }

  /** The `while True` loop: fetch, extend the address list, stop in debug
      mode, otherwise follow the "next" button or stop when there is none. */
  method CollectListingUrls(pages: seq<ResultPage>, debug: bool) returns (r: Result<Walk, CrawlError>)
    ensures r == WalkResults(pages, debug)
  {
    var adUrls: seq<string> := [];
    var requested: seq<string> := [];
    var url := StartUrl;
    var fetched := 0;
    assert pages[fetched..] == pages;
    AfterNothing(WalkResults(pages, debug));
    while true
      invariant 0 <= fetched <= |pages|
      invariant WalkResults(pages, debug) == After(adUrls, requested, WalkFrom(url, pages[fetched..], debug))
      decreases |pages| - fetched
    {
      if fetched == |pages| {
        return Failure(FetchFailed);
      }
      var page := pages[fetched];
      assert pages[fetched..][0] == page;
      assert pages[fetched..][1..] == pages[fetched + 1..];
      fetched := fetched + 1;
      var urls := AnchorUrls(page.listings);
      if urls.Failure? {
        return Failure(urls.error);
      }
      ghost var rest := pages[fetched..];
      if !debug && page.next.Some? && page.next.value.href.Some? {
        ghost var next := NextPageUrl(page.next.value.href.value);
        assert WalkFrom(url, pages[fetched - 1..], debug) == After(urls.value, [url], WalkFrom(next, rest, debug));
        AfterAfter(adUrls, requested, urls.value, [url], WalkFrom(next, rest, debug));
      }
      adUrls := adUrls + urls.value;
      requested := requested + [url];
      if debug {
        break;
      }
      if page.next.None? {
        break;
      }
      var button := page.next.value;
      if button.href.None? {
        return Failure(MissingHref);
      }
      url := NextPageUrl(button.href.value);
    }
    r := Success(Walk(adUrls, requested));
  }
}

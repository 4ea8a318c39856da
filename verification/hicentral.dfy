/** A whole crawl: first the walk over the result pages collects every
    listing address, then one record is extracted per address. Any exception
    ends the run with no records written. */
module Hicentral {
  import opened Wrappers
  import opened Site
  import Pagination
  import Listing

  /** The outcome of a successful run: the collected listing addresses (what
      the crawl returns) and the records it writes to the output file. */
  datatype Run = Run(adUrls: seq<string>, ads: seq<Listing.Record>)

  /** The crawl. `resultPages` and `listingPages` are the documents the
      successive requests of each phase return. */
  function ParseHicentral(resultPages: seq<Pagination.ResultPage>, listingPages: seq<Listing.ListingPage>, debug: bool): (r: Result<Run, CrawlError>)
    ensures r.Success? ==> Pagination.WalkResults(resultPages, debug).Success?
    ensures r.Success? ==> r.value.adUrls == Pagination.WalkResults(resultPages, debug).value.adUrls
    ensures r.Success? ==> |r.value.ads| == Listing.RecordCount(|r.value.adUrls|, debug)
    ensures r.Success? ==> forall i :: 0 <= i < |r.value.ads| ==> r.value.ads[i].url == r.value.adUrls[i]
    ensures r.Success? && debug ==> |Pagination.WalkResults(resultPages, debug).value.requested| == 1 && |r.value.ads| <= 1
  {
    var walk :- Pagination.WalkResults(resultPages, debug);
    var ads :- Listing.Records(walk.adUrls, listingPages, debug);
    Success(Run(walk.adUrls, ads))
  }

  /** Off debug mode, with a last result page k and enough listing pages, the
      run yields one record per anchor on pages 0..k, in order, the i-th built
      from the i-th listing page at the i-th collected address. */
  lemma FullRun(resultPages: seq<Pagination.ResultPage>, k: nat, listingPages: seq<Listing.ListingPage>)
    requires Pagination.StopsAt(resultPages, k) && Pagination.ReadableUpTo(resultPages, k)
    requires |listingPages| >= Pagination.AnchorCount(resultPages[..k + 1])
    requires forall i :: 0 <= i < Pagination.AnchorCount(resultPages[..k + 1]) ==> listingPages[i].heading.Some?
    ensures ParseHicentral(resultPages, listingPages, false).Success?
    ensures ParseHicentral(resultPages, listingPages, false).value.adUrls == Pagination.ConcatUrls(resultPages[..k + 1])
    ensures |ParseHicentral(resultPages, listingPages, false).value.ads| == Pagination.AnchorCount(resultPages[..k + 1])
    ensures forall i :: 0 <= i < Pagination.AnchorCount(resultPages[..k + 1]) ==>
      Success(ParseHicentral(resultPages, listingPages, false).value.ads[i])
        == Listing.ExtractListing(Pagination.ConcatUrls(resultPages[..k + 1])[i], listingPages[i])
  {
    Pagination.WalkStopsAtFirstPageWithoutNext(StartUrl, resultPages, k);
    Pagination.ConcatUrlsLength(resultPages[..k + 1]);
    Listing.RecordsSucceedIff(Pagination.ConcatUrls(resultPages[..k + 1]), listingPages);
    Listing.RecordsAreExtractions(Pagination.ConcatUrls(resultPages[..k + 1]), listingPages, false);
  }

  /** In debug mode a run whose first result page lists at least one listing
      reads one result page and one listing page and yields one record. */
  lemma DebugRun(resultPages: seq<Pagination.ResultPage>, listingPages: seq<Listing.ListingPage>)
    requires |resultPages| > 0 && Pagination.AllHrefs(resultPages[0].listings) && |resultPages[0].listings| > 0
    requires |listingPages| > 0 && listingPages[0].heading.Some?
    ensures ParseHicentral(resultPages, listingPages, true).Success?
    ensures ParseHicentral(resultPages, listingPages, true).value.adUrls == Pagination.PageUrls(resultPages[0])
    ensures ParseHicentral(resultPages, listingPages, true).value.ads ==
      [Listing.ExtractListing(ListingUrl(resultPages[0].listings[0].href.value), listingPages[0]).value]
  {
    Pagination.DebugReadsOnePage(resultPages);
    Listing.DebugOneRecord(Pagination.PageUrls(resultPages[0]), listingPages);
  }
}

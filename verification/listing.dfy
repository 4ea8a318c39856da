/** The listing extractor: one record per collected address, built from the
    listing page fetched at that address. */
module Listing {
  import opened Wrappers
  import opened Site
  import Address
  import DefinitionList

  /** What the extractor reads from one fetched listing page: the inner HTML
      of the `h2` heading (absent when the page has none), the texts of the
      elements the active-price selector matches, in document order, and the
      children of each definition-list block, in document order. */
  datatype ListingPage = ListingPage(
    heading: Option<string>,
    prices: seq<string>,
    blocks: seq<seq<DefinitionList.Node>>)

  /** One record of the output file. */
  datatype Record = Record(
    address: string,
    price: Option<string>,
    propertyType: Option<string>,
    url: string,
    listDate: Option<string>)

  /** The price: the first match's text, or `None` when nothing matches. */
  function FirstPrice(prices: seq<string>): (r: Option<string>)
    ensures r.None? <==> |prices| == 0
    ensures r.Some? ==> r.value == prices[0]
  {
    if |prices| > 0 then Some(prices[0]) else None
  }

  /** The record for the listing page fetched from `url`. A page without a
      heading aborts the run; a missing price or missing labels do not. */
  function ExtractListing(url: string, page: ListingPage): (r: Result<Record, CrawlError>)
    ensures r.Success? <==> page.heading.Some?
    ensures r.Failure? ==> r.error == MissingHeading
    ensures r.Success? ==> r.value.url == url
    ensures r.Success? && Address.Free(page.heading.value, Address.LineBreak) ==> r.value.address == page.heading.value
    ensures r.Success? ==> r.value.address == Address.Join(Address.Split(page.heading.value, Address.LineBreak), " ")
    ensures r.Success? ==> (r.value.price.None? <==> |page.prices| == 0)
    ensures r.Success? && |page.prices| > 0 ==> r.value.price == Some(page.prices[0])
    ensures r.Success? ==>
      (r.value.propertyType == DefinitionList.LastValue(DefinitionList.VisitedCells(page.blocks), DefinitionList.PropertyTypeLabel))
    ensures r.Success? ==>
      (r.value.listDate == DefinitionList.LastValue(DefinitionList.VisitedCells(page.blocks), DefinitionList.ListDateLabel))
  {
    match page.heading
    case None => Failure(MissingHeading)
    case Some(html) =>
      var fields := DefinitionList.ExtractFields(page.blocks);
      Success(Record(
        Address.NormaliseAddress(html),
        FirstPrice(page.prices),
        fields.propertyType,
        url,
        fields.listDate))
  }

  /** The number of records a successful run produces from `n` addresses. */
  function RecordCount(n: nat, debug: bool): nat {
    if debug && n > 0 then 1 else n
  }

  /** The extraction loop: `pages[i]` is the page the i-th request returns;
      running out of pages stands for a request that fails. In debug mode the
      loop stops after the first record. */
  function Records(urls: seq<string>, pages: seq<ListingPage>, debug: bool): (r: Result<seq<Record>, CrawlError>)
    ensures r.Success? ==> |r.value| == RecordCount(|urls|, debug) && |r.value| <= |pages|
    ensures r.Success? ==> forall i :: 0 <= i < |r.value| ==> r.value[i].url == urls[i]
    decreases |urls|
  {
    if |urls| == 0 then Success([])
    else if |pages| == 0 then Failure(FetchFailed)
    else
      var record :- ExtractListing(urls[0], pages[0]);
      if debug then Success([record])
      else
        var rest :- Records(urls[1..], pages[1..], debug);
        Success([record] + rest)
  }

  /** The i-th record is the one extracted from the i-th page at the i-th address. */
  lemma {:induction false} RecordsAreExtractions(urls: seq<string>, pages: seq<ListingPage>, debug: bool)
    requires Records(urls, pages, debug).Success?
    ensures forall i :: 0 <= i < |Records(urls, pages, debug).value| ==>
      ExtractListing(urls[i], pages[i]) == Success(Records(urls, pages, debug).value[i])
    decreases |urls|
  {
    var r := Records(urls, pages, debug).value;
    if |urls| > 0 && !debug {
      var rest := Records(urls[1..], pages[1..], debug);
      assert rest.Success? && r == [ExtractListing(urls[0], pages[0]).value] + rest.value;
      RecordsAreExtractions(urls[1..], pages[1..], debug);
      forall i | 1 <= i < |r|
        ensures ExtractListing(urls[i], pages[i]) == Success(r[i])
      {
        assert r[i] == rest.value[i - 1];
        assert urls[1..][i - 1] == urls[i] && pages[1..][i - 1] == pages[i];
      }
    }
  }

  /** Off debug mode, extraction succeeds exactly when a page is supplied for
      every address and every such page has a heading. */
  lemma {:induction false} RecordsSucceedIff(urls: seq<string>, pages: seq<ListingPage>)
    ensures Records(urls, pages, false).Success? <==>
      |pages| >= |urls| && forall i :: 0 <= i < |urls| ==> pages[i].heading.Some?
    decreases |urls|
  {
    if |urls| > 0 && |pages| > 0 {
      RecordsSucceedIff(urls[1..], pages[1..]);
      if |pages| >= |urls| {
        assert (forall i :: 0 <= i < |urls| ==> pages[i].heading.Some?) <==>
          pages[0].heading.Some? && forall i :: 0 <= i < |urls| - 1 ==> pages[1..][i].heading.Some?;
      }
    }
  }

  /** In debug mode exactly one record is produced from a non-empty address
      list, from the first page, whatever the later pages hold. */
  lemma DebugOneRecord(urls: seq<string>, pages: seq<ListingPage>)
    requires |urls| > 0 && |pages| > 0 && pages[0].heading.Some?
    ensures Records(urls, pages, true) == Success([ExtractListing(urls[0], pages[0]).value])
  {
  }

  /** The `for` loop as the crawler writes it, appending one record per address
      and leaving the loop after the first one in debug mode. */
  method AssembleRecords(urls: seq<string>, pages: seq<ListingPage>, debug: bool) returns (r: Result<seq<Record>, CrawlError>)
    ensures r == Records(urls, pages, debug)
  {
    var ads: seq<Record> := [];
    var i := 0;
    LoopEntry(urls, pages, debug);
    while i < |urls|
      invariant 0 <= i <= |urls| && i <= |pages|
      invariant Records(urls, pages, debug) == Prepend(ads, Records(urls[i..], pages[i..], debug))
      decreases |urls| - i
    {
      if i == |pages| {
        return Failure(FetchFailed);
      }
      var record := ExtractListing(urls[i], pages[i]);
      if record.Failure? {
        return Failure(record.error);
      }
      LoopStep(urls, pages, debug, ads, i);
      ads := ads + [record.value];
      if debug {
        break;
      }
      i := i + 1;
    }
    if i == |urls| {
      LoopExit(urls, pages, debug, ads);
    }
    r := Success(ads);
  }

  lemma LoopEntry(urls: seq<string>, pages: seq<ListingPage>, debug: bool)
    ensures Records(urls, pages, debug) == Prepend([], Records(urls[0..], pages[0..], debug))
  {
    assert urls[0..] == urls && pages[0..] == pages;
    PrependNothing(Records(urls, pages, debug));
  }

  /** One turn of the extraction loop. */
  lemma LoopStep(urls: seq<string>, pages: seq<ListingPage>, debug: bool, ads: seq<Record>, i: nat)
    requires i < |urls| && i < |pages| && pages[i].heading.Some?
    requires Records(urls, pages, debug) == Prepend(ads, Records(urls[i..], pages[i..], debug))
    ensures debug ==> Records(urls, pages, debug) == Success(ads + [ExtractListing(urls[i], pages[i]).value])
    ensures !debug ==>
      Records(urls, pages, debug) == Prepend(ads + [ExtractListing(urls[i], pages[i]).value], Records(urls[i + 1..], pages[i + 1..], debug))
  {
    var record := ExtractListing(urls[i], pages[i]).value;
    assert urls[i..][0] == urls[i] && pages[i..][0] == pages[i];
    assert urls[i..][1..] == urls[i + 1..];
    assert pages[i..][1..] == pages[i + 1..];
    if !debug {
      PrependPrepend(ads, [record], Records(urls[i + 1..], pages[i + 1..], debug));
    }
  }

  lemma LoopExit(urls: seq<string>, pages: seq<ListingPage>, debug: bool, ads: seq<Record>)
    requires |urls| <= |pages|
    requires Records(urls, pages, debug) == Prepend(ads, Records(urls[|urls|..], pages[|urls|..], debug))
    ensures Records(urls, pages, debug) == Success(ads)
  {
    assert ads + [] == ads;
  }

  /** Puts earlier records in front of a run's outcome. */
  function Prepend(ads: seq<Record>, r: Result<seq<Record>, CrawlError>): Result<seq<Record>, CrawlError> {
    match r
    case Success(rest) => Success(ads + rest)
    case Failure(e) => Failure(e)
  }

  lemma PrependNothing(r: Result<seq<Record>, CrawlError>)
    ensures Prepend([], r) == r
  {
    if r.Success? {
      assert [] + r.value == r.value;
    }
  }

  lemma PrependPrepend(a: seq<Record>, b: seq<Record>, r: Result<seq<Record>, CrawlError>)
    ensures Prepend(a, Prepend(b, r)) == Prepend(a + b, r)
  {
    if r.Success? {
      assert a + (b + r.value) == (a + b) + r.value;
    }
  }
}

/** Constants of the crawled site and the ways a crawl can abort. */
module Site {

  /** Scheme and host every crawled address is built on. */
  const Domain: string := "https://propertysearch.hicentral.com"

  /** The first result page of the "for sale" hot sheet. */
  const StartUrl: string := Domain + "/HBR/ForSale/?/Results/HotSheet//1//"

  /** Path prefix that turns a listing anchor's relative `href` into a full address. */
  const ListingPath: string := "/HBR/ForSale/"

  /** The exceptions that end a run. None of them is caught: each one aborts the
      whole crawl and no output file is written. */
  datatype CrawlError =
    | FetchFailed      // the request for a page did not produce a document
    | MissingHref      // an anchor the walk reads has no `href` attribute (KeyError)
    | MissingHeading   // a listing page has no `h2` element (AttributeError)

  /** Full address of a listing, given the `href` of its anchor on a result page. */
  function ListingUrl(href: string): (u: string)
    ensures |u| == |Domain + ListingPath| + |href|
    ensures u[..|Domain + ListingPath|] == Domain + ListingPath
    ensures u[|Domain + ListingPath|..] == href
  {
    Domain + ListingPath + href
  }

  /** Full address of the next result page, given the `href` of the "next" button. */
  function NextPageUrl(href: string): (u: string)
    ensures |u| == |Domain| + |href|
    ensures u[..|Domain|] == Domain
    ensures u[|Domain|..] == href
  {
    Domain + href
  }

  /** Distinct listing `href`s give distinct listing addresses. */
  lemma ListingUrlInjective(a: string, b: string)
    ensures ListingUrl(a) == ListingUrl(b) <==> a == b
  {
    if ListingUrl(a) == ListingUrl(b) {
      assert a == ListingUrl(a)[|Domain + ListingPath|..];
    }
  }

  /** Distinct "next" `href`s give distinct page addresses. */
  lemma NextPageUrlInjective(a: string, b: string)
    ensures NextPageUrl(a) == NextPageUrl(b) <==> a == b
  {
    if NextPageUrl(a) == NextPageUrl(b) {
      assert a == NextPageUrl(a)[|Domain|..];
    }
  }
}

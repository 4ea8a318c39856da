# hicentral listing crawler — a verified model of its sequential logic

The crawler walks the "for sale" hot sheet of propertysearch.hicentral.com.
It follows each result page's "next" button and collects the address of
every listing anchor. Then it visits each collected address and builds one
record: address, price, property type, URL and list date. The records are
dumped to a JSON file.

This project models the logic of `parse_hicentral` once the HTTP client and
the HTML parser are replaced by plain input data:

- **Pagination** (`pagination.dfy`, module `Pagination`). A result page is its
  listing anchors plus an optional "next" anchor. The input is the sequence
  of result pages that the successive requests return. The walk collects
  `Site.ListingUrl(href)` for every anchor, page by page, keeping
  duplicates. Outside debug mode it stops at the first page without a
  "next" button. In debug mode it stops after the first page.
- **Definition-list scan** (`definition_list.dfy`, module `DefinitionList`).
  A listing's attribute table is a sequence of blocks. Each block is a
  sequence of child nodes, and only `dt`/`dd` tags take part. A state
  machine tracks the text of the most recent `dt`. That header is never
  reset between blocks. A `dd` filed under "Property Type:" or "List Date:"
  sets the matching output. The exit test runs only after a whole block.
  The scan is also described independently: each output is the text of the
  last `dd` whose nearest preceding `dt` carries the label, counted over the
  blocks actually visited. The two descriptions are proved equal. Two
  methods mirror the crawler's nested loops, and each is proved to compute
  the same result.
- **Address clean-up** (`address.dfy`, module `Address`). This is Python's
  `str.replace` with `"<br/>"` → `" "`, together with `str.split` and
  `str.join`. The replace is proved equal to `rep.join(s.split(pat))`.
  Text made of marker-free lines joined by `<br/>` comes out joined by
  single spaces. Text with no marker comes out unchanged.
- **Record assembly** (`listing.dfy`, module `Listing`). A listing page is
  its optional `h2` inner HTML, the texts of the active-price matches, and
  its definition-list blocks. The i-th record is built from the i-th listing
  page and carries the i-th collected address. In debug mode the run stops
  after one record.
- **The whole run** (`hicentral.dfy`, module `Hicentral`). First the walk
  runs, then record assembly runs over the walk's addresses.

Uncaught exceptions become `Result.Failure` with a `Site.CrawlError`. An
exhausted input sequence of pages stands for a failed request
(`FetchFailed`). A missing `href` is `MissingHref`, which is Python's
`KeyError`. A page without `h2` is `MissingHeading`, which is Python's
`AttributeError` on `soup.h2`. A failed run returns no records, just as the
crawler writes no file.

Three consequences of `main.py` that are easy to miss:
- The completeness test at main.py:123-124 runs only after a whole block
  has been scanned. A later `dd` in the same block still overwrites a field
  that is already set (`NoExitInsideBlock`, `VisitedBlocksSpec`).
- The header is the text of the most recent `dt` (main.py:114-115). It is
  set to `None` once per listing (main.py:105) and never reset between
  blocks. A `dd` is filed under the most recent `dt` of this block or an
  earlier one, and a `dd` before any `dt` is ignored (`MergeBlocks`,
  `LeadingValuesIgnored`).
- The comment at main.py:10-12 promises one listing in debug mode. When the
  first result page has no anchors, the loop at main.py:80 runs zero times
  and no record is produced (`Listing.Records`).

## Model

| member | source | states |
|---|---|---|
| Site.ListingUrl | main.py:62 | a listing address is the fixed prefix `https://propertysearch.hicentral.com/HBR/ForSale/` followed by the anchor's `href`, unchanged |
| Site.ListingUrlInjective | main.py:62 | distinct listing `href`s give distinct listing addresses |
| Site.NextPageUrl | main.py:71 | the next page's address is the domain followed by the "next" button's `href`, unchanged |
| Site.NextPageUrlInjective | main.py:71 | distinct "next" `href`s give distinct page addresses |
| DefinitionList.Cells | main.py:110 | a block contributes at most one cell per child; `CellsOfOne` and `CellsAppend` together make it the order-preserving `dt`/`dd` filter |
| DefinitionList.CellsOfOne | main.py:110 | a one-child block contributes exactly that child's cells, so with `CellsAppend` every block contributes the cells of its children in order |
| DefinitionList.Step | main.py:113-122 | a `dd` never changes the header; an output changes only to the text of a `dd` read while the header is that output's label |
| DefinitionList.ScanCells | main.py:112-122 | running the tags of a block never clears a found output, and a changed output holds the text of one of the scanned `dd` tags; `ScanCellsIsReference` pins the result down exactly |
| DefinitionList.ScanBlocks | main.py:105-124 | the block loop never clears a found output; `ScanBlocksIsFlatScan` pins down which blocks are scanned |
| DefinitionList.ScanBlocksValueOrigin | main.py:105-124 | an output the block loop changes holds the text of a `dd` in one of the blocks |
| DefinitionList.CellsOfNode | main.py:110 | a child takes part in the scan exactly when it is a `dt` or `dd` tag, and it keeps its text and its kind |
| DefinitionList.CellsAppend | main.py:110 | filtering a block to its `dt`/`dd` tags distributes over concatenation, so the relative order of those tags is kept |
| DefinitionList.CellsIgnoresOtherChildren | main.py:110 | a block without `dt`/`dd` tags contributes no cells |
| DefinitionList.LastValueBeforeSpec | main.py:112-122 | the reference output is absent exactly when no `dd` is filed under the label; otherwise it is the text of a `dd` filed under the label with no later one after it |
| DefinitionList.ScanCellsIsReference | main.py:112-122 | the header/value state machine computes the reference: the header is the nearest preceding `dt`, and each output is the last `dd` filed under its label |
| DefinitionList.ScanBlocksIsFlatScan | main.py:105-124 | the block loop equals the flat scan of the cells of exactly the visited blocks; the header crosses block boundaries |
| DefinitionList.VisitedBlocksSpec | main.py:107-124 | the exit test runs only between blocks: before every visited block an output was missing, and stopping early means both were present after a whole block |
| DefinitionList.CompleteIgnoresLaterBlocks | main.py:123-124 | once both outputs are present after some blocks, any blocks appended after them are never examined |
| DefinitionList.CompleteStaysComplete | main.py:112-122 | once both outputs are set, scanning more cells never unsets either, because the scan only ever assigns tag texts |
| DefinitionList.NoExitInsideBlock | main.py:112-124 | there is no exit inside a block: a block whose first cells already complete both outputs is still scanned to its end, so its later values overwrite the ones found |
| DefinitionList.MergeBlocks | main.py:105-115 | two blocks scan like their concatenation unless the first already completes both outputs: the header is not reset |
| DefinitionList.LeadingValuesIgnored | main.py:105-122 | `dd` tags before any `dt` change neither output, because the header is still `None` |
| DefinitionList.MissingLabelGivesNone | main.py:102-123 | when no `dt` carries the label, no `dd` is filed under it and the output stays `None` |
| DefinitionList.AbsentLabelsGiveNone | main.py:102-124 | for a whole listing, a label absent from every block leaves its field `None`, without an error |
| DefinitionList.PresentIffSome | main.py:102-124 | for a whole listing, a field is set exactly when some `dd` in any block is filed under its label, even in a block the early exit never reads |
| DefinitionList.ExtractFields | main.py:102-124 | property type and list date are the last values filed under "Property Type:" and "List Date:" among the cells of the visited blocks |
| DefinitionList.ScanBlock | main.py:112-122 | the inner tag loop leaves the three variables equal to the state machine's result |
| DefinitionList.ScanDefinitionLists | main.py:102-124 | the nested loops with the per-block `break` yield the last values filed under each label among the visited blocks |
| Pagination.AnchorUrls | main.py:60-63 | one full listing address per anchor, in anchor order; fails with a missing-href error exactly when some anchor lacks `href` |
| Pagination.SameUrlIffSameHref | main.py:60-63 | two anchors of a page give the same address exactly when they carry the same `href`, so duplicates among the collected addresses come only from duplicate anchors |
| Pagination.WalkFrom | main.py:51-75 | a successful walk requests between one page and the number of supplied pages, starting at the given address, and exactly one page in debug mode |
| Pagination.WalkResults | main.py:46-75 | a successful walk starts at the first hot-sheet page, requests at most one page per supplied document, and exactly one in debug mode |
| Pagination.ConcatUrlsLength | main.py:61-63 | the number of collected addresses is the sum of the per-page anchor counts |
| Pagination.WalkStopsAtFirstPageWithoutNext | main.py:51-75 | outside debug mode the walk reads pages 0..k, where k is the first page without "next"; it collects their addresses concatenated in page order and requests the start page and then each "next" target |
| Pagination.WalkSucceedsIff | main.py:51-75 | outside debug mode the walk succeeds exactly when some page lacks "next" and every `href` read up to that page is present |
| Pagination.DebugReadsOnePage | main.py:65-66 | in debug mode exactly the first page is read, whether or not it has a "next" button |
| Pagination.ThreeListingsOnePage | main.py:51-75 | one page with three anchors and no "next" gives those three addresses in document order from one request |
| Pagination.CollectListingUrls | main.py:46-75 | the `while True` loop with `extend` and `break` computes the same walk as the recursive definition |
| Address.Replace | main.py:90 | a replacement no longer than the marker, as `" "` is for `<br/>`, never makes the text longer; `ReplaceIsSplitJoin` relates the replace to split and join |
| Address.ReplaceFree | main.py:90 | text without the marker is unchanged by the replace |
| Address.ReplaceJoin | main.py:90 | marker-free pieces joined by a border-free marker come out joined by the replacement |
| Address.SplitJoinsBack | main.py:90 | the pieces of a split re-join, with the marker, to the original text |
| Address.SplitPiecesFree | main.py:90 | no piece of a split contains the marker |
| Address.ReplaceIsSplitJoin | main.py:90 | the replace equals joining the split pieces with the replacement |
| Address.NormaliseAddress | main.py:90 | the address is the pieces of the heading between `<br/>` markers joined by single spaces; it is never longer than the heading, and a heading without `<br/>` gives an identical address |
| Address.AddressJoinsLines | main.py:90 | heading lines joined by `<br/>` give the same lines joined by single spaces |
| Address.TwoLineAddress | main.py:90 | a two-line heading whose lines hold no `<br/>` gives the first line, one space and the second line |
| Address.LineBreakIsBorderFree | main.py:90 | no proper suffix of `<br/>` is also a prefix of it, so two occurrences of the marker never overlap |
| Listing.FirstPrice | main.py:93-94 | the price is absent exactly when nothing matches, and otherwise it is the first match's text |
| Listing.ExtractListing | main.py:85-133 | a record is produced exactly when the page has a heading, whatever the price and the labels; it carries the fetched address; its address is the heading's `<br/>`-separated pieces joined by spaces; its price is absent exactly when there is no price match and is otherwise the first match; its property type and list date are the last values filed under their labels among the cells of the visited blocks |
| Listing.Records | main.py:80-136 | a successful run has one record per address (one in debug mode when any address exists), never more than the pages supplied, and the i-th record carries the i-th address |
| Listing.RecordsAreExtractions | main.py:80-133 | the i-th record of a successful run is the record extracted from the i-th listing page at the i-th address |
| Listing.RecordsSucceedIff | main.py:80-136 | outside debug mode, record assembly succeeds exactly when every address has a page and every such page has a heading |
| Listing.DebugOneRecord | main.py:135-136 | in debug mode a non-empty address list gives exactly the first listing's record |
| Listing.AssembleRecords | main.py:80-136 | the `for` loop with `append` and the debug `break` computes the same records as the recursive definition |
| Hicentral.ParseHicentral | main.py:45-143 | a successful run returns exactly the addresses the walk over the result pages collects, and one record per address (at most one in debug mode), the i-th with the i-th address; in debug mode exactly one result page is requested |
| Hicentral.FullRun | main.py:51-136 | outside debug mode, a well-formed site yields one record per anchor on pages up to the first page without "next", in order; each record comes from the matching listing page |
| Hicentral.DebugRun | main.py:51-136 | in debug mode, a first page with at least one anchor yields that page's addresses and exactly one record, for its first anchor |

## Left out

- HTTP requests are not modelled. The documents the successive requests return are inputs. An exhausted input stands for a failed request. Timeouts, status codes and retries are outside the model.
- HTML parsing and CSS selection are library calls. Their results are inputs: the anchors matched by `div.P-Results1 > span > a`, the "next" anchor with id `ctl00_main_ctl00_haNextTop`, the inner HTML of `h2`, the texts matched by `div.price > span.P-Active`, and the children of each `div#content > div.column-block > div.column2 > dl`. A tag's `.text` is an input string.
- `encode_contents().decode('utf-8')` is not modelled. The heading's inner HTML arrives already decoded, so a decoding error cannot occur in the model.
- `make_delay` is not modelled: it is random, float-valued timing with no functional effect.
- Progress `print` output is not modelled: it is only observational.
- `json.dump` to the output file is not modelled. It is file I/O through a library serialiser, so the JSON round trip is not stated. The records it receives are `Hicentral.Run.ads`.
- The global `DEBUG` (set to `True` in the source) is a `debug` parameter.
- A walk whose "next" chain never ends is not modelled. If every page has a "next" button, for example one pointing back to a page already visited, the `while True` loop at main.py:52-75 never terminates. The model's supply of pages is finite, so such a run ends as `FetchFailed` once the pages run out, which the model cannot tell apart from a failed request.
- Request addresses are modelled only as strings recorded in `Pagination.Walk.requested`. The model does not check that the i-th supplied page is really the document at the i-th address; that is the job of the network, which is outside the model.

# UNDP project scraper: verified model of its identifier harvesting and country lookup

The script `api_request_country_name.py` drives a headless browser over the UNDP
project listing, collects up to five project identifiers from the links on the
page, and then asks the UNDP API, for each identifier, for the name of the
project's operating unit (its country). This project models the two pieces of
logic in it, with the browser and the network replaced by inputs:

- **Harvesting** (`get_undp_project_ids`). The input is the sequence of `href`
  attributes returned by the page query. `Harvester.GetProjectIds` is the loop
  of the script. It keeps the links that contain `/projects/` and takes the
  last piece of `href.split("/projects/")`. It appends that piece unless it has
  been seen, and it checks the limit after every link. The method is proved
  equal to a specification: the first `limit` identifiers of the first-seen
  deduplication of the extracted identifiers (`FirstDistinctIds`). With a limit
  of zero or less it takes only the first link.
- **Python's `split`** (`PyStr`). `LastPiece` is modelled as Python scans: from
  the left, cutting at each match and resuming after it. Because `/projects/`
  starts and ends with `/`, two occurrences can overlap, and the scan skips the
  second. The last piece can then differ from the text after the rightmost
  occurrence (`OverlappingMarkerExample`).
- **Country lookup** (`fetch_country_by_project_id`). The request becomes an
  `HttpOutcome`: a transport failure, or a status with a body that decodes to
  JSON or does not. `Resolver.FetchCountry` maps transport failures, statuses
  400 to 599 and undecodable bodies to `"Error"`. Otherwise it applies the
  chained `.get` lookup. That lookup is proved to agree with an independent
  path-walk (`LookupPath`): the name when present, `"N/A"` when a key is
  missing, and an escaping `AttributeError` when a level is not an object.
- **Driver** (`main`). `Driver.Run` harvests with the limit 5 and resolves each
  identifier in order. It stops at the first lookup that raises, since the
  script's `try`/`finally` lets that error escape.

Three behaviours of the code are easy to misread, and the model states them
as the code has them:

- The identifier is not always the text after the rightmost `/projects/`.
  The code takes the last piece of a left-to-right, non-overlapping split.
  The two readings agree whenever no two occurrences of the marker in a link
  overlap (`LastPieceAfterRightmostMatch`). They differ on links like
  `a/projects/projects/b` (`OverlappingMarkerExample`).
- Joining `base + "/projects/" + id`, for an `id` without the marker, gives
  back `id` when no match of the marker starts inside `base`
  (`LastPieceOfJoin`, `ProjectIdOfLink`). It can fail otherwise: `a/projects`
  + `/projects/` + `x` gives `projects/x`.
- The result is not always at most `limit` long. For a limit of zero or less
  the code returns the first link's identifier if it has one, because the
  limit check comes after the append. The lemmas about `FirstDistinctIds`
  describe the harvest for a limit of 1 or more, where `GetProjectIds` is
  proved equal to it.

## Model

| member | source | states |
|---|---|---|
| PyStr.Find | api_request_country_name.py:31 | the scan step of `split`: the lowest match at or after the start, or -1 when there is none |
| PyStr.ContainsIffFound | api_request_country_name.py:30 | `"/projects/" in href` (`Contains`) holds exactly when the scan finds a match |
| PyStr.LastPiece | api_request_country_name.py:31 | `split(sep)[-1]` as a left-to-right non-overlapping scan; the piece is no longer than the link |
| PyStr.LastCut | api_request_country_name.py:31 | the scan's last cut is a position whose suffix is the piece; unless nothing was cut, a copy of the separator ends there |
| PyStr.LastPieceIsSuffix | api_request_country_name.py:31 | the piece is a suffix of the link |
| PyStr.LastPieceFollowsCut | api_request_country_name.py:31 | when the piece is shorter than the link, the separator directly precedes it |
| PyStr.LastPieceHasNoMatch | api_request_country_name.py:31 | the piece never contains the separator |
| PyStr.LastPieceWithoutMatch | api_request_country_name.py:31 | a string without the separator is its own last piece |
| PyStr.LastPieceSplits | api_request_country_name.py:31 | a link containing the separator is some prefix, the separator, then the piece |
| PyStr.LastPieceAfterRightmostMatch | api_request_country_name.py:31 | when no two occurrences of the separator overlap, the piece is the text after the rightmost occurrence |
| PyStr.LastPieceOfJoin | api_request_country_name.py:31 | round trip: `base + sep + piece` gives back `piece` when the piece has no separator and no match starts inside `base` |
| PyStr.OverlappingMarkerExample | api_request_country_name.py:31 | `"a/projects/projects/b"` gives `"projects/b"`, although a match also starts at index 10 |
| Harvester.ProjectId | api_request_country_name.py:31 | a link's identifier is a suffix of the link and never contains the marker |
| Harvester.Extracted | api_request_country_name.py:28-31 | the matching links' identifiers, in link order: at most one per link |
| Harvester.GetProjectIds | api_request_country_name.py:20-36 | for limit ≥ 1 the result is the first `limit` distinct identifiers in first-seen order; for limit ≤ 0 it is the first link's identifier if that link matches, else empty |
| Harvester.TakenAtLimit | api_request_country_name.py:34-35 | when the count reaches a positive limit after some link, the ids so far are exactly the first `limit` distinct identifiers of the whole page |
| Harvester.DedupElements | api_request_country_name.py:32-33 | the deduplication has no repeats and holds exactly the input's elements |
| Harvester.DedupSnoc | api_request_country_name.py:32-33 | one more identifier is appended exactly when it is not already present |
| Harvester.DedupFirstSeenOrder | api_request_country_name.py:28-33 | the deduplication lists elements in strictly increasing order of first occurrence |
| Harvester.DedupIsFirstSeenListing | api_request_country_name.py:28-33 | the deduplication is the one and only repeat-free, same-elements, first-occurrence-ordered listing of its input |
| Harvester.HarvestNoDuplicates | api_request_country_name.py:32-33 | the harvested identifiers are pairwise distinct |
| Harvester.HarvestLength | api_request_country_name.py:28-36 | for a limit of 1 or more, exactly min(limit, number of distinct identifiers) are harvested: no padding, no early stop |
| Harvester.HarvestIsPrefix | api_request_country_name.py:28-36 | the harvest is a prefix of the deduplication of all extracted identifiers |
| Harvester.HarvestOrder | api_request_country_name.py:28-33 | harvested identifiers appear in the order of their first occurrence among the matching links |
| Harvester.ExtractedComesFromLink | api_request_country_name.py:29-31 | every extracted identifier is the last piece of some link that contains the marker |
| Harvester.MatchingLinkExtracted | api_request_country_name.py:29-31 | every link that contains the marker contributes its last piece |
| Harvester.ExtractedOrigin | api_request_country_name.py:29-31 | an identifier is extracted iff some link contains the marker and its last piece is that identifier |
| Harvester.HarvestOrigin | api_request_country_name.py:30-31 | every harvested identifier is the last piece of some link that contains the marker |
| Harvester.HarvestShape | api_request_country_name.py:30-31 | every harvested identifier `x` is the last piece of a link that contains the marker and equals `prefix + "/projects/" + x`; `x` does not contain the marker |
| Harvester.ProjectIdOfLink | api_request_country_name.py:30-31 | a link `prefix + "/projects/" + id` matches and yields `id` when `id` has no marker and no match starts in the prefix |
| Harvester.NonMatchingLinkIgnored | api_request_country_name.py:30 | for a limit of 1 or more, inserting a link without the marker anywhere leaves the harvest unchanged |
| Resolver.ApiUrl | api_request_country_name.py:41 | the endpoint is the fixed prefix followed by the identifier |
| Resolver.ApiUrlInjective | api_request_country_name.py:41 | distinct identifiers are requested at distinct endpoints |
| Resolver.RaisesForStatus | api_request_country_name.py:44 | `raise_for_status` raises exactly for the 4xx and 5xx status classes |
| Resolver.Get | api_request_country_name.py:47 | `dict.get(key, default)`: the stored value, else the default; an `AttributeError` exactly when the receiver is not an object |
| Resolver.CountryOf | api_request_country_name.py:47 | the chained lookup agrees with the path walk: the name when the path exists, `"N/A"` when a key is missing, an escaping error exactly when a present level is not an object |
| Resolver.FetchCountry | api_request_country_name.py:39-51 | transport failure, status 400-599 or an undecodable body give `"Error"`; otherwise the name, `"N/A"` or the escaping error, as the path walk finds |
| Resolver.OnlyMalformedDocumentsRaise | api_request_country_name.py:42-51 | an exception escapes iff the response succeeded, decoded, and has a non-object level on the path |
| Resolver.WellShapedDocumentNeverRaises | api_request_country_name.py:47 | when every present level is an object, the result is the name found on the path or `"N/A"` |
| Resolver.NamedUnitExample | api_request_country_name.py:47-48 | `{"data":{"operating_unit":{"name":"Kenya"}}}` with status 200 gives `"Kenya"` |
| Resolver.EmptyDataExample | api_request_country_name.py:47 | `{"data":{}}` gives `"N/A"` |
| Resolver.FailureExamples | api_request_country_name.py:42-51 | a timeout and an HTTP 500 both give `"Error"` without raising |
| Driver.Run | api_request_country_name.py:54-64 | the harvest uses limit 5; row k pairs the k-th identifier with its resolved country; the run aborts exactly at the first lookup that raises |
| Driver.RepeatedLinksExample | api_request_country_name.py:28-36 | links for A, B, B, C harvest as `["A", "B", "C"]` |

## Left out

- Browser setup and shutdown (`setup_driver`, `driver.quit`), page navigation, the fixed sleep and the XPath query are not modelled. They are replaced by the input sequence of `href` strings.
- The HTTP GET, its 10-second timeout and JSON parsing are not modelled. They are replaced by the `HttpOutcome` input. `Driver.Run` takes a `respond` function from URL to outcome, so the network is treated as deterministic.
- Console output (`print` in `main` and in the error branch) is not modelled. `Driver.Run` returns the printed pairs as rows instead.
- A `None` href (which would raise `TypeError` on `in`) is not modelled. Links are always strings here.
- JSON numbers are integers. Floating-point values and key order in objects are not represented.
- An undecodable body maps to `"Error"`. That holds for `requests` 2.27 and later, where `response.json()` raises a `RequestException` subclass. Earlier versions raise a plain `ValueError`, which would escape.
- Only `AttributeError` is modelled as an exception that escapes the lookup. Other faults inside `requests` that are not `RequestException` are not modelled.

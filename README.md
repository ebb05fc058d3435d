# narajangter-scraper ingestion core, in Dafny

The repository collects public bid notices for information-system audits
from Korea's public procurement service (나라장터) and stores them in
PostgreSQL. It has two pipelines:

- `openapi_scraper.py` uses the public-data-portal Open API. It drains
  result pages, normalises each item's dates, deadline and price, and
  upserts it.
- `scraper.py` scrapes the search page. It pulls a notice number out of
  the page's markdown, or out of its URL, and upserts the page.

This project models that ingestion core and proves what it does.

- `base.dfy` (`Base`): `Option`, `Outcome`, and the ASCII text primitives
  the code relies on. These are `str.strip`, `str.isdigit`, `str.lower`,
  `str.replace` and decimal digits.
- `records.dfy` (`Records`): the raw Open API item, the scraped document,
  and the canonical notice. It also holds the pipelines' "notice id or
  title" guard.
- `normalise.dfy` (`Normalise`): `parse_date`, `parse_datetime` and
  `parse_price`.
- `open_api.dfy` (`OpenApi`): the search window, the reading of the JSON
  envelope, `get_all_notices` (a loop proved against a drain function),
  and the Open API `parse_notice_data`.
- `scrape.dfy` (`Scrape`): the regex `(\d{8,}-\d+)` and the
  case-insensitive `bidno=([^&]+)` as scanners. Both are proved to find
  the leftmost, longest match. It also holds the crawler's
  `parse_notice_data` and `crawl_notices`.
- `store.dfy` (`Store`): the notice table and the connector class
  `NoticeStore`.
  - The table enforces UNIQUE `notice_id` (NULL never conflicts), NOT NULL
    `title`, the VARCHAR lengths and the BIGINT range.
  - The upsert keeps `scraped_at` and refreshes `updated_at`.
  - It models commit and rollback, and `insert_notices_batch`.
- `pipeline.dfy` (`Pipeline`): both `run` methods. The per-record loop is
  proved against a fold, and disconnect runs on every path.

Inputs the code gets from outside are parameters of the model:

- the HTTP transport, as a function from request to fetch result;
- the date of each call;
- the Firecrawl scrape result;
- how the database server answers each statement, as a fault per record;
- the time of each write.

The table is a sequence of rows in insertion order, not a map keyed by
`notice_id`. Rows whose `notice_id` is NULL never conflict, so several of
them can coexist.

Two behaviours of the code are worth stating outright:

- **Page draining.** Draining appends whole pages and never trims to the
  total count. With pages of 2 items and a total count of 5 it makes 3
  requests and returns 6 items. `OpenApi.DrainKeepsWholePages` proves this.
- **Failed upserts.** A database error inside `insert_notice` is rolled
  back and returns `False`. Such a record is neither counted nor reported.
  Only an exception that escapes `insert_notice` adds a message to
  `errors`. `Pipeline.SecondRecordRejected` and
  `Pipeline.SecondRecordRaises` show both cases.

## Model

| member | source | states |
|---|---|---|
| Normalise.ParseDate | openapi_scraper.py:287-305 | A present date has 10 characters. The second all-digit branch (lines 301-302) is proved unreachable by an `assert false` in it. |
| Normalise.ParseDateNone | openapi_scraper.py:287-305 | The result is None exactly when the stripped text is shorter than 8, or is neither all digits nor a hyphenated text of at least 10 characters. |
| Normalise.ParseDateOfDigits | openapi_scraper.py:295-296 | An all-digit text of length ≥ 8 gives a YYYY-MM-DD date whose digits are exactly the input's first eight. |
| Normalise.DateDigitsRoundTrip | openapi_scraper.py:296 | The date built from digits is ISO-shaped, and removing its hyphens gives back the first eight digits. |
| Normalise.ParseDateVerbatim | openapi_scraper.py:298-299 | A text that is not all digits, contains '-' and has ≥ 10 characters gives its first 10 characters unchanged. |
| Normalise.ParseDateFixesIsoDate | openapi_scraper.py:298-299 | An ISO date is returned unchanged. |
| Normalise.ParseDateIdempotent | openapi_scraper.py:287-305 | For an all-digit date, normalising the result again changes nothing. |
| Normalise.ParseDatetime | openapi_scraper.py:307-325 | Every present result has 19 characters. |
| Normalise.ParseDatetimeNone | openapi_scraper.py:307-325 | The result is None exactly when the stripped text is shorter than 8, or is not all digits and either lacks '-' or is shorter than 19 (a short hyphenated text gives None). |
| Normalise.MinuteDigitsRoundTrip | openapi_scraper.py:316-317 | At ≥ 12 digits the timestamp is ISO-shaped and carries the first 12 digits plus "00" seconds. |
| Normalise.MidnightDigitsRoundTrip | openapi_scraper.py:318-319 | At 8 to 11 digits the timestamp is ISO-shaped and carries the first 8 digits and a zero time. |
| Normalise.ParseDatetimeOfDigits | openapi_scraper.py:315-319 | An all-digit text of length ≥ 8 always gives a timestamp. It is the minute reading at ≥ 12 digits and midnight otherwise. |
| Normalise.ParseDatetimeVerbatim | openapi_scraper.py:321-322 | Text that is not all digits, contains '-' and has at least 19 characters once stripped gives its first 19 characters, whatever they are. |
| Normalise.ParseDatetimeFixesIsoDatetime | openapi_scraper.py:321-322 | An ISO timestamp is returned unchanged. |
| Normalise.DatetimeAgreesWithDate | openapi_scraper.py:287-325 | Whenever parse_datetime gives a timestamp, parse_date of the same text gives its day. |
| Normalise.ParsePrice | openapi_scraper.py:328-334 | An empty (falsy) text gives None. |
| Normalise.UnsignedTruncatedDefined | openapi_scraper.py:332 | The unsigned reading succeeds exactly on digits with at most one '.' and at least one digit. |
| Normalise.TruncatedNumberDefined | openapi_scraper.py:332 | int(float(t)) succeeds exactly when the stripped text is such a decimal, optionally after one '+' or '-'. |
| Normalise.ParsePriceDefined | openapi_scraper.py:328-334 | A price is present exactly when the text is non-empty and, without commas and surrounding whitespace, is an optionally signed plain decimal. Any other text gives None. |
| Normalise.ParsePriceIgnoresCommas | openapi_scraper.py:332 | Removing commas first does not change the answer. |
| Normalise.UnsignedOfPoint | openapi_scraper.py:332 | `float()` of "digits.digits", truncated, is the whole part. |
| Normalise.ParsePriceOfUnsigned | openapi_scraper.py:332 | A comma-free unsigned decimal gives its truncated value. |
| Normalise.ParsePriceOfNegated | openapi_scraper.py:332 | The same text with a leading '-' gives the negated value. |
| Normalise.ParsePriceOfInteger | openapi_scraper.py:332 | The price of any integer's decimal text is that integer (a round trip). |
| Normalise.ParsePriceTruncates | openapi_scraper.py:332 | "whole.frac" gives the whole part ("12.9" gives 12). |
| Normalise.ParsePriceTruncatesNegative | openapi_scraper.py:332 | "-whole.frac" truncates toward zero ("-3.7" gives -3). |
| Normalise.ParsePriceValue | openapi_scraper.py:328-334 | For any whitespace padding, an optional '+' or '-', and digits around a point with at least one digit, the price is the whole part, negated after '-' (" +12.5 " gives 12, "-.5" gives 0). |
| Normalise.ParsePriceValueWhole | openapi_scraper.py:328-334 | The same without a point: padded, optionally signed digits give their value. |
| Normalise.ParsePriceOfGrouped | openapi_scraper.py:332 | A number written with thousands separators gives the number ("1,234,500" gives 1234500). |
| OpenApi.SearchWindow | openapi_scraper.py:181-182 | The window ends today and spans min(days_back, 31) days, never more than 31. |
| OpenApi.SearchRequest | openapi_scraper.py:184-193 | The request carries the page number, the page size, that window, inquiry division "1" and industry code "6146". |
| OpenApi.InterpretFetch | openapi_scraper.py:197-233 | Success happens exactly when a `response` is present and its header's code is "00", and it echoes the page number and size. A transport or JSON error fails with its text. A missing `response` fails with "Invalid response format". |
| OpenApi.FoundItems | openapi_scraper.py:209-217 | A success carries the body's items, or [] when the body or the items are missing. Its total count is the body's totalCount, or 0 when the body or the count is missing. |
| OpenApi.RejectedMessage | openapi_scraper.py:221-224 | A non-"00" envelope fails with the header's message, else "알 수 없는 오류". |
| OpenApi.SearchBidNotices | openapi_scraper.py:158-233 | A successful page echoes the requested page number and size. |
| OpenApi.GetAllNotices | openapi_scraper.py:252-274 | The loop returns exactly the drain's items, after exactly the drain's number of requests. |
| OpenApi.DrainFromMeaning | openapi_scraper.py:254-272 | Draining from any page keeps the collection equal to the concatenation of the pages requested so far. |
| OpenApi.DrainMeaning | openapi_scraper.py:252-274 | At most max_pages requests are made (at least one when max_pages ≥ 1), for pages 1, 2, … in order. The result is the concatenation of those pages' items, whole and in order. Every earlier page let the drain go on. An early stop happens at a page that failed, was empty, or reached its total count. |
| OpenApi.DrainFirstPageFails | openapi_scraper.py:257-259 | A failing first page yields nothing after one request. |
| OpenApi.DrainKeepsWholePages | openapi_scraper.py:266-272 | With pages of 2 items and total count 5, any max_pages ≥ 3 gives 6 items after 3 requests (no trimming). |
| OpenApi.Organization | openapi_scraper.py:339 | The demand institution (dminsttNm) when it is non-empty. Otherwise the announcing institution (ntceInsttNm), with a missing key read as empty. The result is empty exactly when both are. |
| OpenApi.MapApiItem | openapi_scraper.py:336-347 | Each column comes from its own key, with a missing key read as empty: bidNtceNo, bidNtceNm, cntrctMthdNm, bidNtceDtlUrl and bidNtceDtlCntnts verbatim, and the organisation from Organization. The dates are parse_date of bidNtceDt (10 characters) and parse_datetime of bidClseDt (19 characters). The price is parse_price of presmptPrce. The raw payload is the item itself. |
| OpenApi.MapApiItemLocal | openapi_scraper.py:336-347 | Only the ten fixed keys matter: items that agree on them give the same notice, apart from the payload. |
| OpenApi.MapApiItemEligible | openapi_scraper.py:403 | A mapped item is stored exactly when bidNtceNo or bidNtceNm is non-empty. |
| OpenApi.MapApiItemPublishDate | openapi_scraper.py:340 | A bidNtceDt of at least 8 digits (after stripping) gives an ISO publish date. |
| OpenApi.MapApiItemDeadline | openapi_scraper.py:341 | A bidClseDt of at least 8 digits (after stripping) gives an ISO deadline timestamp, at midnight below 12 digits. |
| OpenApi.MapApiItemPrice | openapi_scraper.py:342 | For every item, the price is present exactly when presmptPrce is non-empty and, without commas and surrounding whitespace, is an optionally signed plain decimal. |
| Scrape.NoticeIdShape | scraper.py:250 | A match of `\d{8,}-\d+` at j..k is exactly: a digit run of ≥ 8 ending at '-', then only digits up to k. |
| Scrape.MatchEnd | scraper.py:250-251 | From a start, it returns the longest match there, or proves none exists. |
| Scrape.ScanFrom | scraper.py:251 | It returns the leftmost-longest match from a position, or proves there is none. |
| Scrape.FindNoticeId | scraper.py:250-253 | A result has the notice-number shape. None means the markdown holds no match anywhere. |
| Scrape.FindNoticeIdLeftmost | scraper.py:251-253 | The number found is the text of the leftmost-longest match. |
| Scrape.LeftmostUnique | scraper.py:251 | The leftmost-longest match is unique. |
| Scrape.FindNoticeIdOfItself | scraper.py:250-253 | A notice number on its own is found whole. |
| Scrape.FindNoticeIdAfterText | scraper.py:250-253 | A number after digit-free text and before a non-digit is found exactly. |
| Scrape.BidNoEnd | scraper.py:258 | At a start, it returns the longest `bidno=` match (any case), or proves none exists. |
| Scrape.ScanBidNoFrom | scraper.py:258 | It returns the leftmost-longest `bidno=` match, or proves there is none. |
| Scrape.FindBidNo | scraper.py:258-260 | A value is the leftmost-longest match's text after the key, so it is non-empty and free of '&'. None means that no occurrence of the key is followed by a non-'&' character. |
| Scrape.BidNoLeftmostUnique | scraper.py:258 | The leftmost-longest `bidno=` match is unique. |
| Scrape.BidNoGuardRedundant | scraper.py:257-258 | Whenever the search finds a value, the lower-cased URL contains "bidno=", so the guard never changes the result. |
| Scrape.FindBidNoOfQuery | scraper.py:258-260 | In "…bidno=value&…" with no earlier key, the value is found exactly. |
| Scrape.ExtractNoticeId | scraper.py:248-260 | The markdown match wins. Otherwise the result is the URL's value, which is none when neither matches. |
| Scrape.MapDocument | scraper.py:228-262 | Title, URL and detail come from the metadata's title, its sourceURL and the markdown. Organisation, dates, price and contract method are NULL. The notice id is ExtractNoticeId of the markdown and the sourceURL, and it is non-empty when present. The payload is the document. |
| Scrape.MapDocumentEligible | scraper.py:319 | A scraped page is stored exactly when it has a title or a notice number was found. |
| Scrape.CrawlNotices | scraper.py:200-215 | It returns at most one document, exactly the scraped one when the scrape gave one. |
| Store.Fit | openapi_scraper.py:82-88 | VARCHAR(n) accepts a text exactly when it fits or its excess is spaces. The stored text is exactly the first n characters (the whole text when it is shorter), and whatever is cut off is spaces. |
| Store.FitNullable | openapi_scraper.py:82-88 | NULL always fits and stays NULL. |
| Store.ToColumns | openapi_scraper.py:80-91 | The row is accepted exactly when the notice is storable (title present, lengths, BIGINT). An accepted row conforms and stores every column as given, except that each bounded text is stored as its first `limit` characters (100, 500, 200, 100), cutting off only spaces. |
| Store.ToColumnsVerbatim | openapi_scraper.py:111-118 | Values that already fit are stored unchanged. |
| Store.UpsertKeyed | openapi_scraper.py:111-130 | Exactly one row then holds the id, with the given columns and updated_at = now. scraped_at is kept on conflict and set to now otherwise. All other rows are unchanged. |
| Store.UpsertUnkeyed | scraper.py:72 | A NULL id never conflicts: the row is appended. |
| Store.UnkeyedDuplicates | scraper.py:72 | The same NULL-id row written twice is stored twice. |
| Store.EmptyIdsShareARow | openapi_scraper.py:337 | Items without bidNtceNo get id "" (not NULL), so they overwrite one shared row. |
| Store.UpsertIdempotent | openapi_scraper.py:119-129 | Re-upserting a keyed row changes no column, only its timestamps. |
| Store.UpsertKeepsUnique | openapi_scraper.py:82 | The upsert preserves the UNIQUE notice_id. |
| Store.UpsertKeepsValid | openapi_scraper.py:82-88 | The upsert preserves unique ids and conforming rows. |
| Store.InsertEffect | openapi_scraper.py:131-138 | The result is true exactly when connected, the server raises nothing, the table exists and the row is storable. An exception escapes exactly when not connected or a non-database error is raised. The table is unchanged unless the result is true (rollback). When it is true, the new table is the upsert of the notice's columns at the given time. |
| Store.InsertEffectCommits | openapi_scraper.py:131-134 | A committed insert leaves the notice's columns under its id. |
| Store.CountAccepted | scraper.py:130-136 | The count of accepted notices is at most the number of notices. |
| Store.BatchFromMeaning | scraper.py:133-135 | From any position, the batch completes exactly when no later insert raises, and then counts the accepted notices. |
| Store.BatchMeaning | scraper.py:130-136 | The batch tries every notice in order. It completes unless an insert raises, and then returns the number of true results, within 0..len(notices). |
| Store.NoticeStore.constructor | openapi_scraper.py:31-57 | A fresh connector is disconnected, over a given table or none. |
| Store.NoticeStore.Connect | openapi_scraper.py:59-67 | It connects, or re-raises the server's error and leaves the connector unchanged. |
| Store.NoticeStore.Disconnect | openapi_scraper.py:69-75 | It leaves the connector disconnected and counts the release. |
| Store.NoticeStore.CreateTables | openapi_scraper.py:77-107 | The table exists afterwards, or the error is re-raised (the cursor error when not connected). |
| Store.NoticeStore.InsertNotice | openapi_scraper.py:109-138 | The outcome and the new table are InsertEffect of the old table. The table invariant is kept. |
| Store.NoticeStore.InsertNoticesBatch | scraper.py:130-136 | The outcome and the new table are Batch of the old table. |
| Pipeline.CountsBounded | openapi_scraper.py:397-414 | No record is both stored and reported as an error. |
| Pipeline.IngestFromMeaning | openapi_scraper.py:397-414 | From any record, the loop adds the stored count and one prefixed message per raising record. It keeps earlier messages and unique keys. |
| Pipeline.IngestMeaning | openapi_scraper.py:397-414 | inserted_count is the number of eligible accepted records. There is one "공고 처리 중 오류: " message per raising record and none for skipped or false ones. inserted + errors ≤ records. Keys stay unique. |
| Pipeline.FalseUpsertsAreSilent | openapi_scraper.py:404-408 | Without exceptions the error list stays empty, however many upserts return false. |
| Pipeline.SecondRecordRaises | openapi_scraper.py:397-414 | Of three records, a raising second one gives inserted 2 and exactly one message. |
| Pipeline.SecondRecordRejected | openapi_scraper.py:404-408 | Of three records, a second one the database rejects gives inserted 2 and no message. |
| Pipeline.StoreAll | openapi_scraper.py:397-414 | The loop's counts, messages and table are the Ingest fold over the mapped records. |
| Pipeline.Setup | openapi_scraper.py:385-386 | The run may go on exactly when connect and create_tables both succeed. The table exists afterwards exactly when it existed before or setup succeeded (a failed create_tables rolls back). |
| Pipeline.RunOpenApi | openapi_scraper.py:376-427 | Disconnect always runs. Success happens exactly when no setup exception occurred. On success, scraped_count = the drained items, the counts, errors and table are Ingest of their mappings, and inserted ≤ scraped. On failure there is one "파이프라인 실행 실패: " message, zero counts and an unchanged table. The table exists afterwards exactly when it existed before or the run succeeded. |
| Pipeline.RunScraper | scraper.py:299-338 | The same for the crawler: scraped_count is the crawled documents, and inserted ≤ scraped ≤ 1. The table exists afterwards exactly when it existed before or the run succeeded. |

## Left out

- HTTP transport (`requests.get`, `raise_for_status`, the timeout) and the
  Firecrawl calls. These are parameters: a function from request to fetch
  result, and the optional scraped document. `scrape_notice_list` and
  `scrape_notice_detail` are unused by `run` and are not modelled.
- The JSON decoding of the response. An envelope is modelled by the keys
  the client reads. A `response` value that is not an object, and an item
  that is not an object, are not modelled.
- OpenApi.InterpretFetch: a `header` or `body` that is JSON `null` or not
  an object makes `.get` raise AttributeError in `search_bid_notices`
  (openapi_scraper.py:205-206, 209-211), and that ends the run as failed.
  The model reads a null header or body as a missing key and uses the
  default.
- Scrape.MapDocument: the crawler's `parse_notice_data` can raise
  (scraper.py:236-246). Examples are `.get` on a result or `metadata` that is
  not a dictionary, `re.search` on a `None` markdown, and a failing
  `json.dumps`. `run` then records "공고 처리 중 오류: …"
  (scraper.py:322-325). A document is a typed value, so MapDocument is
  total, and in Pipeline.RunScraper the messages come only from insert
  faults.
- JSON `null` and non-string values inside an item. A raw item is a map
  from string to string, so "falsy" means the empty text. For the same
  reason the logging of `title[:50]` can never raise in the model.
- `datetime.now`, `timedelta` and `strftime`. The day of each call is a
  parameter, and the window is kept as day numbers.
- The search keyword. The code only logs it and never sends it, so it
  does not appear in the request.
- The service key, the `type=json` parameter and the endpoint URL.
- `json.dumps` of `raw_data`. The model keeps the payload value itself
  instead of its JSON text.
- psycopg2 connection handling, the SQL text and indexes, and
  `DATABASE_URL` parsing. The table is modelled by its constraints.
  - The SERIAL `id` is represented only by the rows' insertion order.
  - PostgreSQL's validation of the DATE and TIMESTAMP texts is part of the
    per-record database-error oracle.
  - A connection that is lost in mid-run is left out.
- Normalise.ParsePrice: does not model `float()` exponent forms,
  underscores, `inf`/`nan`, or binary floating-point rounding. Only plain
  decimal text is read, and anything else gives None. The value is the
  exact whole part of the decimal, so it differs from Python wherever
  `float()` rounds: above 2^53, and for long fractions below it
  (`int(float("12.9999999999999999"))` is 13 in Python and 12 here). A numeric `0` input
  (falsy in Python) cannot occur, because inputs are texts.
- Normalise.ParseDate, Normalise.ParseDatetime and Scrape: Unicode digits,
  whitespace and case folding are restricted to ASCII.
- Logging, environment configuration, the `main` functions (including the
  capped printing of the first five errors), and the Flask viewer
  `web_viewer.py`.
- Concurrency: nothing in the core is concurrent.

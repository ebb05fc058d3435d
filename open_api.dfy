/** The public-data-portal client of the Open API pipeline: the search
    window of a request, the interpretation of the JSON envelope a request
    returns, the draining of result pages, and the mapping of one raw item
    to the canonical notice. The HTTP transport and the clock are
    parameters. */
module OpenApi {
  import opened Base
  import opened Records
  import opened Normalise

  // ---------------------------------------------------------------------------
  // Constants of the search endpoint

  /** The search window never reaches back more than this many days. */
  const MaxLookbackDays: int := 31
  const DefaultDaysBack: int := 30
  /** The result code of a successful call. */
  const SuccessCode: string := "00"
  /** Inquiry division 1: search by notice posting time. */
  const InquiryDivision: string := "1"
  /** Industry code 6146: information-system audit firms. */
  const IndustryCode: string := "6146"
  /** The error text when the header has a non-success code and no message. */
  const UnknownError: string := "알 수 없는 오류"
  /** The error text when the JSON object has no `response` key. */
  const InvalidFormat: string := "Invalid response format"

  // ---------------------------------------------------------------------------
  // Requests and the JSON envelope

  /** The inquiry period, as day numbers: from the start of `startDay`
      (hour 0000) to the end of `endDay` (hour 2359). */
  datatype Window = Window(startDay: int, endDay: int)

  /** The query parameters of one search call (the service key and the
      fixed `type=json` are left implicit). */
  datatype Request = Request(
    pageNo: int,
    numOfRows: int,
    window: Window,
    inquiryDivision: string,
    industryCode: string)

  /** The parts of the envelope the client reads; `None` is a missing key. */
  datatype Header = Header(resultCode: Option<string>, resultMsg: Option<string>)
  datatype Body = Body(items: Option<seq<RawItem>>, totalCount: Option<int>)
  datatype Response = Response(header: Option<Header>, body: Option<Body>)
  datatype Envelope = Envelope(response: Option<Response>)

  /** What one HTTP call yields: a transport failure (connection, timeout,
      non-2xx status), a body that is not JSON, or a decoded envelope. */
  datatype Fetch =
    | TransportError(reason: string)
    | MalformedJson(reason: string)
    | Received(envelope: Envelope)

  /** The dictionary `search_bid_notices` returns: success with the page, or
      failure with an error text (whose item list is always empty). */
  datatype PageResult =
    | Found(totalCount: int, items: seq<RawItem>, pageNo: int, numOfRows: int)
    | Failed(error: string)
  {
    /** The `items` entry of the result dictionary. */
    function Items(): seq<RawItem> {
      if Found? then items else []
    }
  }

  /** The inquiry window of a call made on day `today`: it ends today and
      starts min(daysBack, 31) days earlier. */
  function SearchWindow(today: int, daysBack: int): (w: Window)
    ensures w.endDay == today
    ensures w.endDay - w.startDay <= MaxLookbackDays
    ensures daysBack <= MaxLookbackDays ==> w.endDay - w.startDay == daysBack
    ensures daysBack >= MaxLookbackDays ==> w.endDay - w.startDay == MaxLookbackDays
  {
    Window(today - Min(daysBack, MaxLookbackDays), today)
  }

  /** The request of page `pageNo` issued on day `today`. */
  function SearchRequest(today: int, pageNo: int, numOfRows: int, daysBack: int): (q: Request)
    ensures q.pageNo == pageNo && q.numOfRows == numOfRows
    ensures q.window == SearchWindow(today, daysBack)
    ensures q.inquiryDivision == InquiryDivision && q.industryCode == IndustryCode
  {
    Request(pageNo, numOfRows, SearchWindow(today, daysBack), InquiryDivision, IndustryCode)
  }

  /** Reading an envelope: only a present `response` whose header carries
      result code "00" is a success; its missing or empty item list is [],
      its missing total count is 0. A present response with any other code
      fails with the header's message (or the unknown-error text); a
      missing response fails with the invalid-format text; a transport or
      JSON error fails with the exception's text. */
  function InterpretFetch(f: Fetch, pageNo: int, numOfRows: int): (r: PageResult)
    ensures r.Found? <==>
      f.Received? && f.envelope.response.Some? &&
      f.envelope.response.value.header.Some? &&
      f.envelope.response.value.header.value.resultCode == Some(SuccessCode)
    ensures r.Found? ==> r.pageNo == pageNo && r.numOfRows == numOfRows
    ensures f.TransportError? ==> r == Failed(f.reason)
    ensures f.MalformedJson? ==> r == Failed(f.reason)
    ensures f.Received? && f.envelope.response.None? ==> r == Failed(InvalidFormat)
  {
    match f
    case TransportError(reason) => Failed(reason)
    case MalformedJson(reason) => Failed(reason)
    case Received(envelope) =>
      match envelope.response
      case None => Failed(InvalidFormat)
      case Some(response) =>
        var header := if response.header.Some? then response.header.value else Header(None, None);
        if header.resultCode == Some(SuccessCode) then
          var body := if response.body.Some? then response.body.value else Body(None, None);
          var items := if body.items.Some? then body.items.value else [];
          var total := if body.totalCount.Some? then body.totalCount.value else 0;
          Found(total, items, pageNo, numOfRows)
        else
          Failed(if header.resultMsg.Some? then header.resultMsg.value else UnknownError)
  }

  /** A successful page carries exactly the envelope's items, or none when
      the body or its item list is missing, and the body's total count, or
      0 when the body or its count is missing. */
  lemma FoundItems(f: Fetch, pageNo: int, numOfRows: int)
    requires InterpretFetch(f, pageNo, numOfRows).Found?
    ensures var body := f.envelope.response.value.body;
      InterpretFetch(f, pageNo, numOfRows).items ==
        if body.Some? && body.value.items.Some? then body.value.items.value else []
    ensures var body := f.envelope.response.value.body;
      InterpretFetch(f, pageNo, numOfRows).totalCount ==
        if body.Some? && body.value.totalCount.Some? then body.value.totalCount.value else 0
  {
  }

  /** A rejected envelope reports the header's own message when it has one. */
  lemma RejectedMessage(f: Fetch, pageNo: int, numOfRows: int)
    requires f.Received? && f.envelope.response.Some?
    requires InterpretFetch(f, pageNo, numOfRows).Failed?
    ensures var header := f.envelope.response.value.header;
      InterpretFetch(f, pageNo, numOfRows).error ==
        if header.Some? && header.value.resultMsg.Some? then header.value.resultMsg.value else UnknownError
  {
  }

  /** search_bid_notices: build the request of the day, hand it to the
      transport, read the answer. The keyword is not part of the request. */
  function SearchBidNotices(transport: Request -> Fetch, today: int, pageNo: int, numOfRows: int, daysBack: int): (r: PageResult)
    ensures r.Found? ==> r.pageNo == pageNo && r.numOfRows == numOfRows
  {
    InterpretFetch(transport(SearchRequest(today, pageNo, numOfRows, daysBack)), pageNo, numOfRows)
  }

  // ---------------------------------------------------------------------------
  // get_all_notices

  /** Where the pages come from: the transport, the day on which the call
      for each page number is made, and the page size. */
  datatype Source = Source(transport: Request -> Fetch, clock: int -> int, numOfRows: int)

  /** The result of the call for page `page` (with the default 30-day window). */
  function PageAt(src: Source, page: int): PageResult {
    SearchBidNotices(src.transport, src.clock(page), page, src.numOfRows, DefaultDaysBack)
  }

  /** What a drain yields: the collected items and how many pages were requested. */
  datatype Drained = Drained(items: seq<RawItem>, requests: nat)

  /** The drain from page `page` onwards with `acc` collected so far: stop
      past the last page, at a failed page, at an empty page, or once the
      collection is at least the page's total count. */
  function DrainFrom(src: Source, maxPages: int, page: nat, acc: seq<RawItem>): Drained
    requires 1 <= page
    decreases maxPages + 1 - page
  {
    if page > maxPages then Drained(acc, page - 1)
    else
      var r := PageAt(src, page);
      if r.Failed? || r.items == [] then Drained(acc, page)
      else if |acc + r.items| >= r.totalCount then Drained(acc + r.items, page)
      else DrainFrom(src, maxPages, page + 1, acc + r.items)
  }

  function Drain(src: Source, maxPages: int): Drained {
    DrainFrom(src, maxPages, 1, [])
  }

  /** get_all_notices: request pages 1, 2, ... in order and extend the
      collection with each page's items, stopping early as `DrainFrom` says. */
  method GetAllNotices(src: Source, maxPages: int) returns (items: seq<RawItem>, ghost requests: nat)
    ensures items == Drain(src, maxPages).items
    ensures requests == Drain(src, maxPages).requests
  {
    items := [];
    var page := 1;
    requests := 0;
    var done := false;
    while !done && page <= maxPages
      invariant 1 <= page
      invariant done ==> Drain(src, maxPages) == Drained(items, requests)
      invariant !done ==> requests == page - 1 && DrainFrom(src, maxPages, page, items) == Drain(src, maxPages)
      decreases maxPages + 1 - page, if done then 0 else 1
    {
      var result := SearchBidNotices(src.transport, src.clock(page), page, src.numOfRows, DefaultDaysBack);
      requests := page;
      if result.Failed? {
        done := true;
      } else if result.items == [] {
        done := true;
      } else {
        items := items + result.items;
        if |items| >= result.totalCount {
          done := true;
        } else {
          page := page + 1;
        }
      }
    }
  }

  /** The items of pages 1..n, in page order, whole. */
  function ConcatPages(src: Source, n: nat): seq<RawItem> {
    if n == 0 then [] else ConcatPages(src, n - 1) + PageAt(src, n).Items()
  }

  /** Page `p` lets the drain go on: it succeeded, was not empty, and the
      items collected through it are still fewer than its total count. */
  predicate Continues(src: Source, p: nat) {
    var r := PageAt(src, p);
    r.Found? && r.items != [] && |ConcatPages(src, p)| < r.totalCount
  }

  lemma {:induction false} DrainFromMeaning(src: Source, maxPages: int, page: nat, acc: seq<RawItem>)
    requires 1 <= page && (page <= maxPages + 1 || page == 1)
    requires acc == ConcatPages(src, page - 1)
    requires forall p :: 1 <= p < page ==> Continues(src, p)
    ensures var d := DrainFrom(src, maxPages, page, acc);
      page - 1 <= d.requests &&
      (d.requests <= maxPages || d.requests == 0) &&
      (maxPages >= 1 ==> d.requests >= 1) &&
      d.items == ConcatPages(src, d.requests) &&
      (forall p :: 1 <= p < d.requests ==> Continues(src, p)) &&
      (1 <= d.requests < maxPages ==> !Continues(src, d.requests))
    decreases maxPages + 1 - page
  {
    if page > maxPages {
    } else {
      var r := PageAt(src, page);
      if r.Failed? || r.items == [] {
        assert ConcatPages(src, page) == acc + r.Items();
        assert r.Items() == [];
      } else if |acc + r.items| >= r.totalCount {
        assert ConcatPages(src, page) == acc + r.items;
      } else {
        assert ConcatPages(src, page) == acc + r.items;
        assert Continues(src, page);
        DrainFromMeaning(src, maxPages, page + 1, acc + r.items);
      }
    }
  }

  /** What get_all_notices returns: at most maxPages requests (none when
      maxPages < 1, at least one otherwise), for pages 1, 2, ... in order;
      the result is the concatenation of the requested pages' items, whole
      and in page order (a failed or empty page contributes nothing, and
      nothing is trimmed to the total count); every page before the last
      requested one let the drain continue, and a drain that stops before
      maxPages stopped at a page that failed, was empty, or reached its
      total count. */
  lemma DrainMeaning(src: Source, maxPages: int)
    ensures var d := Drain(src, maxPages);
      (d.requests <= maxPages || d.requests == 0) &&
      (maxPages >= 1 <==> d.requests >= 1) &&
      d.items == ConcatPages(src, d.requests) &&
      (forall p :: 1 <= p < d.requests ==> Continues(src, p)) &&
      (1 <= d.requests < maxPages ==> !Continues(src, d.requests))
  {
    DrainFromMeaning(src, maxPages, 1, []);
  }

  /** A failing first page yields nothing at all. */
  lemma DrainFirstPageFails(src: Source, maxPages: int)
    requires maxPages >= 1 && PageAt(src, 1).Failed?
    ensures Drain(src, maxPages) == Drained([], 1)
  {
  }

  /** A page's items are kept whole: with pages of two items each and a
      total count of 5, three pages are requested and six items kept,
      however many more pages are allowed. */
  lemma DrainKeepsWholePages(src: Source, maxPages: int, a: RawItem, b: RawItem)
    requires maxPages >= 3
    requires forall p :: PageAt(src, p) == Found(5, [a, b], p, src.numOfRows)
    ensures Drain(src, maxPages) == Drained([a, b, a, b, a, b], 3)
  {
    assert PageAt(src, 1).items == [a, b];
    assert PageAt(src, 2).items == [a, b];
    assert PageAt(src, 3).items == [a, b];
    calc {
      Drain(src, maxPages);
      DrainFrom(src, maxPages, 1, []);
      { assert [] + [a, b] == [a, b]; }
      DrainFrom(src, maxPages, 2, [a, b]);
      { assert [a, b] + [a, b] == [a, b, a, b]; }
      DrainFrom(src, maxPages, 3, [a, b, a, b]);
      { assert [a, b, a, b] + [a, b] == [a, b, a, b, a, b]; }
      Drained([a, b, a, b, a, b], 3);
    }
  }

  // ---------------------------------------------------------------------------
  // parse_notice_data

  /** The organisation: the demand institution's name when non-empty, else
      the announcing institution's name, else "". */
  function Organization(item: RawItem): (r: string)
    ensures r == "" <==> Get(item, "dminsttNm", "") == "" && Get(item, "ntceInsttNm", "") == ""
    ensures Get(item, "dminsttNm", "") != "" ==> r == item["dminsttNm"]
    ensures Get(item, "dminsttNm", "") == "" ==> r == Get(item, "ntceInsttNm", "")
  {
    var demand := Get(item, "dminsttNm", "");
    if demand != "" then demand else Get(item, "ntceInsttNm", "")
  }

  /** parse_notice_data of the Open API client: every column from a fixed
      key of the item (missing keys read as ""), dates and the price through
      the normalisers, and the whole item kept as the raw payload. */
  function MapApiItem(item: RawItem): (n: Notice)
    ensures n.noticeId == Some(Get(item, "bidNtceNo", ""))
    ensures n.title == Some(Get(item, "bidNtceNm", ""))
    ensures n.organization == Some(Organization(item))
    ensures n.contractMethod == Some(Get(item, "cntrctMthdNm", ""))
    ensures n.noticeUrl == Some(Get(item, "bidNtceDtlUrl", ""))
    ensures n.detailContent == Some(Get(item, "bidNtceDtlCntnts", ""))
    ensures n.publishDate == ParseDate(Get(item, "bidNtceDt", ""))
    ensures n.deadlineDate == ParseDatetime(Get(item, "bidClseDt", ""))
    ensures n.estimatedPrice == ParsePrice(Get(item, "presmptPrce", ""))
    ensures n.publishDate.Some? ==> |n.publishDate.value| == 10
    ensures n.deadlineDate.Some? ==> |n.deadlineDate.value| == 19
    ensures n.rawData == ApiItem(item)
  {
    Notice(
      noticeId := Some(Get(item, "bidNtceNo", "")),
      title := Some(Get(item, "bidNtceNm", "")),
      organization := Some(Organization(item)),
      publishDate := ParseDate(Get(item, "bidNtceDt", "")),
      deadlineDate := ParseDatetime(Get(item, "bidClseDt", "")),
      estimatedPrice := ParsePrice(Get(item, "presmptPrce", "")),
      contractMethod := Some(Get(item, "cntrctMthdNm", "")),
      noticeUrl := Some(Get(item, "bidNtceDtlUrl", "")),
      detailContent := Some(Get(item, "bidNtceDtlCntnts", "")),
      rawData := ApiItem(item))
  }

  /** The keys parse_notice_data reads. */
  const SourceKeys: set<string> := {
    "bidNtceNo", "bidNtceNm", "dminsttNm", "ntceInsttNm", "bidNtceDt",
    "bidClseDt", "presmptPrce", "cntrctMthdNm", "bidNtceDtlUrl", "bidNtceDtlCntnts" }

  /** Items that agree on the read keys map to notices that differ at most
      in their raw payload. */
  lemma MapApiItemLocal(a: RawItem, b: RawItem)
    requires forall k :: k in SourceKeys ==> (k in a <==> k in b) && (k in a ==> a[k] == b[k])
    ensures MapApiItem(a).(rawData := ApiItem(b)) == MapApiItem(b)
  {
    assert "bidNtceNo" in SourceKeys && "bidNtceNm" in SourceKeys && "dminsttNm" in SourceKeys;
    assert "ntceInsttNm" in SourceKeys && "bidNtceDt" in SourceKeys && "bidClseDt" in SourceKeys;
    assert "presmptPrce" in SourceKeys && "cntrctMthdNm" in SourceKeys;
    assert "bidNtceDtlUrl" in SourceKeys && "bidNtceDtlCntnts" in SourceKeys;
  }

  /** A mapped item is stored exactly when its notice number or its title is
      non-empty. */
  lemma MapApiItemEligible(item: RawItem)
    ensures ShouldStore(MapApiItem(item)) <==>
      Get(item, "bidNtceNo", "") != "" || Get(item, "bidNtceNm", "") != ""
  {
  }

  /** An item whose bidNtceDt is, once stripped, at least 8 digits gets an
      ISO publish date. */
  lemma MapApiItemPublishDate(item: RawItem)
    requires var posted := Strip(Get(item, "bidNtceDt", ""));
      IsDigitString(posted) && |posted| >= 8
    ensures MapApiItem(item).publishDate.Some? && IsIsoDate(MapApiItem(item).publishDate.value)
  {
    ParseDateOfDigits(Get(item, "bidNtceDt", ""));
  }

  /** An item whose bidClseDt is, once stripped, at least 8 digits gets an
      ISO deadline timestamp: to the minute from 12 digits on, at midnight
      below that. */
  lemma MapApiItemDeadline(item: RawItem)
    requires var closes := Strip(Get(item, "bidClseDt", ""));
      IsDigitString(closes) && |closes| >= 8
    ensures MapApiItem(item).deadlineDate.Some? && IsIsoDatetime(MapApiItem(item).deadlineDate.value)
  {
    ParseDatetimeOfDigits(Get(item, "bidClseDt", ""));
  }


  /** For every item, the estimated price is present exactly when
      presmptPrce is non-empty and reads, without commas and surrounding
      whitespace, as an optionally signed plain decimal. */
  lemma MapApiItemPrice(item: RawItem)
    ensures var price := Get(item, "presmptPrce", "");
      MapApiItem(item).estimatedPrice.Some? <==>
        price != "" && IsSignedDecimal(Strip(RemoveAll(price, ',')))
  {
    ParsePriceDefined(Get(item, "presmptPrce", ""));
  }
}

/** The crawler pipeline's record extractor: the notice number is the
    leftmost match of the pattern `\d{8,}-\d+` in the page's markdown, or,
    failing that, the value of the first `bidno=` query parameter of the
    page's URL (case-insensitive). Both searches are explicit scanners over
    the text, proved against a declarative leftmost-longest specification. */
module Scrape {
  import opened Base
  import opened Records

  /** A match: the text between `start` and `end`. */
  datatype Span = Span(start: nat, end: nat)

  // ---------------------------------------------------------------------------
  // The notice-number pattern \d{8,}-\d+

  /** A whole text of the form: at least eight digits, '-', at least one digit. */
  predicate IsNoticeIdText(t: string) {
    var p := IndexOf(t, '-');
    8 <= p && p + 1 < |t| && AllDigits(t[..p]) && AllDigits(t[p + 1..])
  }

  /** The pattern can match exactly the text s[j..k]. */
  predicate NoticeIdAt(s: string, j: nat, k: nat) {
    j < k <= |s| && IsNoticeIdText(s[j..k])
  }

  /** The end of the run of digits that starts at `i`. */
  function RunEnd(s: string, i: nat): (r: nat)
    requires i <= |s|
    ensures i <= r <= |s|
    ensures forall m :: i <= m < r ==> IsDigit(s[m])
    ensures r == |s| || !IsDigit(s[r])
    decreases |s| - i
  {
    if i < |s| && IsDigit(s[i]) then RunEnd(s, i + 1) else i
  }

  /** A run end is pinned down by its digits and the non-digit after them. */
  lemma {:induction false} RunEndAt(s: string, i: nat, x: nat)
    requires i <= x <= |s|
    requires forall m :: i <= m < x ==> IsDigit(s[m])
    requires x == |s| || !IsDigit(s[x])
    ensures RunEnd(s, i) == x
    decreases x - i
  {
    if i < x {
      RunEndAt(s, i + 1, x);
    }
  }

  /** A run of digits from `i` never reaches past the run end. */
  lemma {:induction false} RunEndCovers(s: string, i: nat, k: nat)
    requires i <= k <= |s|
    requires forall m :: i <= m < k ==> IsDigit(s[m])
    ensures k <= RunEnd(s, i)
    decreases k - i
  {
    if i < k {
      RunEndCovers(s, i + 1, k);
    }
  }

  /** The shape of a match read off the text itself: the digit run from `j`
      has at least eight digits and ends at a '-', and only digits follow it
      up to `k`. */
  lemma NoticeIdShape(s: string, j: nat, k: nat)
    requires j < k <= |s|
    ensures var e := RunEnd(s, j);
      NoticeIdAt(s, j, k) <==>
        e - j >= 8 && e + 1 < k && s[e] == '-' && forall m :: e < m < k ==> IsDigit(s[m])
  {
    var t := s[j..k];
    var e := RunEnd(s, j);
    var p := IndexOf(t, '-');
    if NoticeIdAt(s, j, k) {
      assert forall m :: j <= m < j + p ==> IsDigit(s[m]) by {
        forall m | j <= m < j + p ensures IsDigit(s[m]) {
          assert s[m] == t[..p][m - j];
        }
      }
      assert s[j + p] == t[p] == '-';
      RunEndAt(s, j, j + p);
      forall m | e < m < k ensures IsDigit(s[m]) {
        assert s[m] == t[p + 1..][m - j - p - 1];
      }
    }
    if e - j >= 8 && e + 1 < k && s[e] == '-' && forall m :: e < m < k ==> IsDigit(s[m]) {
      forall m | 0 <= m < e - j ensures t[m] != '-' {
        assert t[m] == s[j + m];
      }
      IndexOfAt(t, '-', e - j);
      assert AllDigits(t[..p]) by {
        forall m | 0 <= m < p ensures IsDigit(t[..p][m]) {
          assert t[..p][m] == s[j + m];
        }
      }
      var v := t[p + 1..];
      assert AllDigits(v) by {
        forall m | 0 <= m < |v| ensures IsDigit(v[m]) {
          assert v[m] == s[e + 1 + m];
        }
      }
    }
  }

  /** Where a match starting at `i` ends: greedy `\d{8,}` takes the whole
      digit run (backtracking cannot help, a shorter run ends on a digit,
      not on '-'), then '-' and a digit must follow, and greedy `\d+` takes
      the whole next run. */
  function MatchEnd(s: string, i: nat): (r: Option<nat>)
    requires i <= |s|
    ensures r.Some? ==> NoticeIdAt(s, i, r.value)
    ensures r.Some? ==> forall k: nat :: NoticeIdAt(s, i, k) ==> k <= r.value
    ensures r.None? ==> forall k: nat :: !NoticeIdAt(s, i, k)
  {
    var e := RunEnd(s, i);
    if e - i >= 8 && e + 1 < |s| && s[e] == '-' && IsDigit(s[e + 1]) then
      var f := RunEnd(s, e + 1);
      NoticeIdShape(s, i, f);
      assert forall k: nat :: NoticeIdAt(s, i, k) ==> k <= f by {
        forall k: nat | NoticeIdAt(s, i, k) ensures k <= f {
          NoticeIdShape(s, i, k);
          RunEndCovers(s, e + 1, k);
        }
      }
      Some(f)
    else
      assert forall k: nat :: !NoticeIdAt(s, i, k) by {
        forall k: nat | i < k <= |s| ensures !NoticeIdAt(s, i, k) {
          NoticeIdShape(s, i, k);
        }
      }
      None
  }

  /** No match starts in [from, to). */
  ghost predicate NoNoticeIdIn(s: string, from: nat, to: nat) {
    forall j: nat, k: nat :: from <= j < to && NoticeIdAt(s, j, k) ==> false
  }

  /** The leftmost-longest match among the starts from `from` on. */
  ghost predicate LeftmostLongest(s: string, from: nat, m: Span) {
    from <= m.start && NoticeIdAt(s, m.start, m.end) &&
    NoNoticeIdIn(s, from, m.start) &&
    forall k: nat :: NoticeIdAt(s, m.start, k) ==> k <= m.end
  }

  /** re.search from position `i`: try each start in turn. */
  function ScanFrom(s: string, i: nat): (r: Option<Span>)
    requires i <= |s|
    ensures r.Some? ==> LeftmostLongest(s, i, r.value)
    ensures r.None? ==> NoNoticeIdIn(s, i, |s| + 1)
    decreases |s| - i
  {
    match MatchEnd(s, i)
    case Some(k) => Some(Span(i, k))
    case None =>
      if i == |s| then None
      else ScanFrom(s, i + 1)
  }

  /** The notice number found in the markdown, if any. */
  function FindNoticeId(markdown: string): (r: Option<string>)
    ensures r.Some? ==> IsNoticeIdText(r.value)
    ensures r.None? ==> forall j: nat, k: nat :: !NoticeIdAt(markdown, j, k)
  {
    match ScanFrom(markdown, 0)
    case Some(m) => Some(markdown[m.start..m.end])
    case None => None
  }

  /** The number found is the text of the leftmost match, taken longest. */
  lemma FindNoticeIdLeftmost(markdown: string)
    requires FindNoticeId(markdown).Some?
    ensures exists m: Span :: (LeftmostLongest(markdown, 0, m) &&
      FindNoticeId(markdown).value == markdown[m.start..m.end])
  {
    var m := ScanFrom(markdown, 0).value;
    assert LeftmostLongest(markdown, 0, m);
  }

  /** A number standing alone is found whole. */
  lemma {:induction false} FindNoticeIdOfItself(t: string)
    requires IsNoticeIdText(t)
    ensures FindNoticeId(t) == Some(t)
  {
    var m := MatchEnd(t, 0);
    assert NoticeIdAt(t, 0, |t|) by {
      assert t[0..|t|] == t;
    }
    assert m.Some? && m.value == |t|;
    assert t[0..|t|] == t;
  }

  /** A number embedded after text that holds no digits is found. */
  lemma {:induction false} FindNoticeIdAfterText(prefix: string, t: string, suffix: string)
    requires IsNoticeIdText(t)
    requires forall m :: 0 <= m < |prefix| ==> !IsDigit(prefix[m])
    requires suffix == [] || !IsDigit(suffix[0])
    ensures FindNoticeId(prefix + t + suffix) == Some(t)
  {
    var s := prefix + t + suffix;
    var i, k := |prefix|, |prefix| + |t|;
    assert s[i..k] == t;
    assert NoticeIdAt(s, i, k);
    forall j: nat, k': nat | 0 <= j < i && j < k' <= |s| ensures !NoticeIdAt(s, j, k') {
      assert s[j] == prefix[j];
      RunEndAt(s, j, j);
      NoticeIdShape(s, j, k');
    }
    assert k == |s| || s[k] == suffix[0];
    NoticeIdShape(s, i, k);
    var e := RunEnd(s, i);
    RunEndAt(s, e + 1, k);
    forall k': nat | NoticeIdAt(s, i, k') ensures k' <= k {
      NoticeIdShape(s, i, k');
      RunEndCovers(s, e + 1, k');
    }
    var r := ScanFrom(s, 0);
    LeftmostUnique(s, 0, r.value, Span(i, k));
  }

  /** There is only one leftmost-longest match. */
  lemma LeftmostUnique(s: string, from: nat, a: Span, b: Span)
    requires LeftmostLongest(s, from, a) && LeftmostLongest(s, from, b)
    ensures a == b
  {
  }

  // ---------------------------------------------------------------------------
  // The URL fallback: bidno=([^&]+), case-insensitive

  const BidNoKey: string := "bidno="

  /** The pattern can match u[j..k]: "bidno=" in any letter case at j, then
      at least one character, none of them '&'. */
  predicate BidNoAt(u: string, j: nat, k: nat) {
    j + |BidNoKey| < k <= |u| && LowerAscii(u[j..j + |BidNoKey|]) == BidNoKey &&
    forall m :: j + |BidNoKey| <= m < k ==> u[m] != '&'
  }

  /** The end of the run of non-'&' characters from `i`. */
  function AmpRunEnd(u: string, i: nat): (r: nat)
    requires i <= |u|
    ensures i <= r <= |u|
    ensures forall m :: i <= m < r ==> u[m] != '&'
    ensures r == |u| || u[r] == '&'
    decreases |u| - i
  {
    if i < |u| && u[i] != '&' then AmpRunEnd(u, i + 1) else i
  }

  /** A run of non-'&' characters from `i` never reaches past the run end. */
  lemma {:induction false} AmpRunEndCovers(u: string, i: nat, k: nat)
    requires i <= k <= |u|
    requires forall m :: i <= m < k ==> u[m] != '&'
    ensures k <= AmpRunEnd(u, i)
    decreases k - i
  {
    if i < k {
      AmpRunEndCovers(u, i + 1, k);
    }
  }

  /** Where a match starting at `i` ends, if one does: greedy [^&]+ takes
      the whole run of non-'&' characters after the key. */
  function BidNoEnd(u: string, i: nat): (r: Option<nat>)
    requires i <= |u|
    ensures r.Some? ==> BidNoAt(u, i, r.value)
    ensures r.Some? ==> forall k: nat :: BidNoAt(u, i, k) ==> k <= r.value
    ensures r.None? ==> forall k: nat :: !BidNoAt(u, i, k)
  {
    var v := i + |BidNoKey|;
    if v < |u| && LowerAscii(u[i..v]) == BidNoKey && u[v] != '&' then
      var f := AmpRunEnd(u, v);
      assert forall k: nat :: BidNoAt(u, i, k) ==> k <= f by {
        forall k: nat | BidNoAt(u, i, k) ensures k <= f {
          AmpRunEndCovers(u, v, k);
        }
      }
      Some(f)
    else
      None
  }

  ghost predicate NoBidNoIn(u: string, from: nat, to: nat) {
    forall j: nat, k: nat :: from <= j < to && BidNoAt(u, j, k) ==> false
  }

  ghost predicate BidNoLeftmostLongest(u: string, from: nat, m: Span) {
    from <= m.start && BidNoAt(u, m.start, m.end) &&
    NoBidNoIn(u, from, m.start) &&
    forall k: nat :: BidNoAt(u, m.start, k) ==> k <= m.end
  }

  function ScanBidNoFrom(u: string, i: nat): (r: Option<Span>)
    requires i <= |u|
    ensures r.Some? ==> BidNoLeftmostLongest(u, i, r.value)
    ensures r.None? ==> NoBidNoIn(u, i, |u| + 1)
    decreases |u| - i
  {
    match BidNoEnd(u, i)
    case Some(k) => Some(Span(i, k))
    case None =>
      if i == |u| then None
      else ScanBidNoFrom(u, i + 1)
  }

  /** re.search(r'bidno=([^&]+)', url, re.IGNORECASE).group(1). */
  function FindBidNo(url: string): (r: Option<string>)
    ensures r.Some? ==> r.value != [] && forall m :: 0 <= m < |r.value| ==> r.value[m] != '&'
    ensures r.Some? ==> exists m: Span :: (BidNoLeftmostLongest(url, 0, m) &&
      r.value == url[m.start + |BidNoKey|..m.end])
    ensures r.None? ==> forall j: nat, k: nat :: !BidNoAt(url, j, k)
  {
    match ScanBidNoFrom(url, 0)
    case Some(m) => Some(url[m.start + |BidNoKey|..m.end])
    case None => None
  }

  /** The lower-cased URL contains "bidno=" (the guard before the search). */
  predicate MentionsBidNo(url: string) {
    HasInfix(LowerAscii(url), BidNoKey)
  }

  /** The guard is redundant: whenever the search finds a value, the
      lower-cased URL contains "bidno=". */
  lemma BidNoGuardRedundant(url: string)
    requires FindBidNo(url).Some?
    ensures MentionsBidNo(url)
  {
    var m := ScanBidNoFrom(url, 0).value;
    var j := m.start;
    assert LowerAscii(url)[j..j + |BidNoKey|] == LowerAscii(url[j..j + |BidNoKey|]);
    HasInfixAt(LowerAscii(url), BidNoKey, j);
  }

  /** The value after the first key, up to the next '&'. */
  lemma FindBidNoOfQuery(prefix: string, value: string, rest: string)
    requires forall j: nat, k: nat :: !BidNoAt(prefix + "bidno=", j, k)
    requires value != [] && forall m :: 0 <= m < |value| ==> value[m] != '&'
    requires rest == [] || rest[0] == '&'
    ensures FindBidNo(prefix + "bidno=" + value + rest) == Some(value)
  {
    var u := prefix + "bidno=" + value + rest;
    var i := |prefix|;
    var v := i + |BidNoKey|;
    var k := v + |value|;
    assert u[i..v] == BidNoKey;
    assert LowerAscii(BidNoKey) == BidNoKey;
    assert u[v..k] == value;
    assert BidNoAt(u, i, k);
    var w := prefix + "bidno=";
    forall j: nat, k': nat | 0 <= j < i && BidNoAt(u, j, k') ensures false {
      assert u[j..j + |BidNoKey|] == w[j..j + |BidNoKey|];
      assert w[j + |BidNoKey|] == u[j + |BidNoKey|];
      assert BidNoAt(w, j, j + |BidNoKey| + 1);
    }
    assert k == |u| || u[k] == '&';
    var r := ScanBidNoFrom(u, 0);
    BidNoLeftmostUnique(u, 0, r.value, Span(i, k));
  }

  lemma BidNoLeftmostUnique(u: string, from: nat, a: Span, b: Span)
    requires BidNoLeftmostLongest(u, from, a) && BidNoLeftmostLongest(u, from, b)
    ensures a == b
  {
  }

  // ---------------------------------------------------------------------------
  // parse_notice_data and crawl_notices of the crawler pipeline

  /** The notice number: the markdown's match, else the URL's value when the
      lower-cased URL mentions "bidno=", else none. */
  function ExtractNoticeId(markdown: string, url: string): (r: Option<string>)
    ensures FindNoticeId(markdown).Some? ==> r == FindNoticeId(markdown)
    ensures FindNoticeId(markdown).None? ==> r == FindBidNo(url)
  {
    match FindNoticeId(markdown)
    case Some(id) => Some(id)
    case None =>
      if MentionsBidNo(url) then FindBidNo(url)
      else
        assert FindBidNo(url).None? by {
          if FindBidNo(url).Some? {
            BidNoGuardRedundant(url);
          }
        }
        None
  }

  /** parse_notice_data of the crawler: the URL from the metadata's
      `sourceURL`, the title from its `title`, the detail text is the
      markdown, the notice number as ExtractNoticeId finds it, and the other
      columns are NULL. */
  function MapDocument(doc: Document): (n: Notice)
    ensures n.organization.None? && n.publishDate.None? && n.deadlineDate.None?
    ensures n.estimatedPrice.None? && n.contractMethod.None?
    ensures n.title == Some(Get(doc.metadata, "title", ""))
    ensures n.noticeUrl == Some(Get(doc.metadata, "sourceURL", ""))
    ensures n.detailContent == Some(doc.markdown)
    ensures n.noticeId == ExtractNoticeId(doc.markdown, Get(doc.metadata, "sourceURL", ""))
    ensures n.noticeId.Some? ==> n.noticeId.value != []
    ensures n.rawData == Scraped(doc)
  {
    var url := Get(doc.metadata, "sourceURL", "");
    Notice(
      noticeId := ExtractNoticeId(doc.markdown, url),
      title := Some(Get(doc.metadata, "title", "")),
      organization := None,
      publishDate := None,
      deadlineDate := None,
      estimatedPrice := None,
      contractMethod := None,
      noticeUrl := Some(url),
      detailContent := Some(doc.markdown),
      rawData := Scraped(doc))
  }

  /** A scraped page is stored exactly when it has a title or a number was
      found for it. */
  lemma MapDocumentEligible(doc: Document)
    ensures ShouldStore(MapDocument(doc)) <==>
      Get(doc.metadata, "title", "") != "" || ExtractNoticeId(doc.markdown, Get(doc.metadata, "sourceURL", "")).Some?
  {
  }

  /** crawl_notices: one scrape of the search page; its result as a
      one-element list, or the empty list when the scrape raised or came
      back empty (`None`). */
  function CrawlNotices(scraped: Option<Document>): (r: seq<Document>)
    ensures |r| <= 1
    ensures |r| == 1 <==> scraped.Some?
    ensures scraped.Some? ==> r[0] == scraped.value
  {
    if scraped.Some? then [scraped.value] else []
  }
}

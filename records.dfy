/** The records that flow through the ingestion pipeline: a raw item of the
    Open API, a page scraped by the crawler, and the canonical notice that
    both are mapped to and that the store persists. */
module Records {
  import opened Base

  /** One item of an Open API page: field name to field text. */
  type RawItem = map<string, string>

  /** One page returned by the crawler: its metadata object and its markdown
      rendering (an absent key is modelled as the empty map / empty text). */
  datatype Document = Document(metadata: map<string, string>, markdown: string)

  /** The source payload kept verbatim in the `raw_data` column. The model
      keeps the value itself instead of its JSON text. */
  datatype Payload = ApiItem(item: RawItem) | Scraped(document: Document)

  /** A canonical notice, one field per column of the notice table;
      `None` is SQL NULL. */
  datatype Notice = Notice(
    noticeId: Option<string>,
    title: Option<string>,
    organization: Option<string>,
    publishDate: Option<string>,
    deadlineDate: Option<string>,
    estimatedPrice: Option<int>,
    contractMethod: Option<string>,
    noticeUrl: Option<string>,
    detailContent: Option<string>,
    rawData: Payload)

  /** Python's dict.get(key, default) on a string-valued dictionary. */
  function Get(m: map<string, string>, key: string, default: string): (r: string)
    ensures key in m ==> r == m[key]
    ensures key !in m ==> r == default
  {
    if key in m then m[key] else default
  }

  /** Python's truthiness of a value that is None or a string. */
  predicate Truthy(v: Option<string>) {
    v.Some? && v.value != ""
  }

  /** The pipelines' guard `notice.get('notice_id') or notice.get('title')`:
      a notice with neither is skipped, never stored. */
  predicate ShouldStore(n: Notice) {
    Truthy(n.noticeId) || Truthy(n.title)
  }
}

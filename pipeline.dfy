/** The two pipelines' `run`: connect, create the table, collect the
    records, map and store each one while tallying the stored count and the
    per-record exceptions, and always disconnect. The Open API pipeline
    collects by draining result pages; the crawler pipeline by one scrape. */
module Pipeline {
  import opened Base
  import opened Records
  import opened Store
  import OpenApi
  import Scrape

  /** The message prefix of a record whose processing raised. */
  const RecordErrorPrefix: string := "공고 처리 중 오류: "
  /** The message prefix of a run that failed before processing records. */
  const RunErrorPrefix: string := "파이프라인 실행 실패: "

  /** The summary dictionary `run` returns. */
  datatype RunResult = RunResult(success: bool, scrapedCount: nat, insertedCount: nat, errors: seq<string>)

  /** The state the record loop updates: the stored count, the error list,
      and the table. */
  datatype Tally = Tally(inserted: nat, errors: seq<string>, rows: seq<Row>)

  /** One record of the loop (the connector is connected): a notice with
      neither a notice id nor a title is skipped; otherwise it is upserted,
      a true result is counted, a false one is not, and an exception adds
      one message. */
  function Step(tableExists: bool, t: Tally, n: Notice, fault: StoreFault, now: int): Tally {
    if !ShouldStore(n) then t
    else
      var e := InsertEffect(true, tableExists, t.rows, n, fault, now);
      match e.outcome
      case Raised(msg) => Tally(t.inserted, t.errors + [RecordErrorPrefix + msg], e.rows)
      case Done(ok) => Tally(if ok then t.inserted + 1 else t.inserted, t.errors, e.rows)
  }

  /** The loop over records i, i+1, ...: record i is written at time
      clock(i), the server answering as faults(i) says. */
  function IngestFrom(tableExists: bool, notices: seq<Notice>, faults: nat -> StoreFault, clock: nat -> int,
                      i: nat, t: Tally): Tally
    requires i <= |notices|
    decreases |notices| - i
  {
    if i == |notices| then t
    else IngestFrom(tableExists, notices, faults, clock, i + 1, Step(tableExists, t, notices[i], faults(i), clock(i)))
  }

  function Ingest(tableExists: bool, rows: seq<Row>, notices: seq<Notice>, faults: nat -> StoreFault, clock: nat -> int): Tally {
    IngestFrom(tableExists, notices, faults, clock, 0, Tally(0, [], rows))
  }

  /** Records i.. that are stored: eligible and accepted by the table. */
  function CountStored(tableExists: bool, notices: seq<Notice>, faults: nat -> StoreFault, i: nat): nat
    requires i <= |notices|
    decreases |notices| - i
  {
    if i == |notices| then 0
    else
      var here := if ShouldStore(notices[i]) && Accepted(tableExists, notices[i], faults(i)) then 1 else 0;
      here + CountStored(tableExists, notices, faults, i + 1)
  }

  /** Records i.. whose processing raises: eligible, and the server raises
      something other than a database error. */
  function CountRaised(notices: seq<Notice>, faults: nat -> StoreFault, i: nat): nat
    requires i <= |notices|
    decreases |notices| - i
  {
    if i == |notices| then 0
    else
      var here := if ShouldStore(notices[i]) && faults(i).Crash? then 1 else 0;
      here + CountRaised(notices, faults, i + 1)
  }

  /** A record is stored, raises, or neither; never both. */
  lemma {:induction false} CountsBounded(tableExists: bool, notices: seq<Notice>, faults: nat -> StoreFault, i: nat)
    requires i <= |notices|
    ensures CountStored(tableExists, notices, faults, i) + CountRaised(notices, faults, i) <= |notices| - i
    decreases |notices| - i
  {
    if i < |notices| {
      CountsBounded(tableExists, notices, faults, i + 1);
    }
  }

  lemma {:induction false} IngestFromMeaning(tableExists: bool, notices: seq<Notice>, faults: nat -> StoreFault,
                                             clock: nat -> int, i: nat, t: Tally)
    requires i <= |notices|
    ensures var r := IngestFrom(tableExists, notices, faults, clock, i, t);
      r.inserted == t.inserted + CountStored(tableExists, notices, faults, i) &&
      |r.errors| == |t.errors| + CountRaised(notices, faults, i) &&
      r.errors[..|t.errors|] == t.errors &&
      (forall k :: |t.errors| <= k < |r.errors| ==> RecordErrorPrefix <= r.errors[k]) &&
      (UniqueKeys(t.rows) && AllConform(t.rows) ==> UniqueKeys(r.rows) && AllConform(r.rows))
    decreases |notices| - i
  {
    if i < |notices| {
      var n := notices[i];
      var t' := Step(tableExists, t, n, faults(i), clock(i));
      if ShouldStore(n) {
        var e := InsertEffect(true, tableExists, t.rows, n, faults(i), clock(i));
        if e.outcome == Done(true) && UniqueKeys(t.rows) && AllConform(t.rows) {
          UpsertKeepsValid(t.rows, ToColumns(n).value, clock(i));
        }
      }
      assert t'.errors[..|t.errors|] == t.errors;
      IngestFromMeaning(tableExists, notices, faults, clock, i + 1, t');
      var r := IngestFrom(tableExists, notices, faults, clock, i + 1, t');
      assert r.errors[..|t.errors|] == r.errors[..|t'.errors|][..|t.errors|];
      forall k | |t.errors| <= k < |r.errors| ensures RecordErrorPrefix <= r.errors[k] {
        if k < |t'.errors| {
          assert r.errors[k] == r.errors[..|t'.errors|][k] == t'.errors[k];
        }
      }
    }
  }

  /** What the record loop leaves: the stored count is the number of
      eligible records the table accepted; there is one error message per
      eligible record whose processing raised, each with the record prefix,
      and none for a false upsert or a skipped record; so the stored count
      and the errors together never exceed the records; and the table keeps
      its unique keys. */
  lemma IngestMeaning(tableExists: bool, rows: seq<Row>, notices: seq<Notice>, faults: nat -> StoreFault, clock: nat -> int)
    ensures var t := Ingest(tableExists, rows, notices, faults, clock);
      t.inserted == CountStored(tableExists, notices, faults, 0) &&
      |t.errors| == CountRaised(notices, faults, 0) &&
      t.inserted + |t.errors| <= |notices| &&
      (forall k :: 0 <= k < |t.errors| ==> RecordErrorPrefix <= t.errors[k]) &&
      (UniqueKeys(rows) && AllConform(rows) ==> UniqueKeys(t.rows) && AllConform(t.rows))
  {
    IngestFromMeaning(tableExists, notices, faults, clock, 0, Tally(0, [], rows));
    CountsBounded(tableExists, notices, faults, 0);
  }

  /** Only exceptions produce error messages: when the server never raises
      anything but database errors, the error list stays empty however many
      upserts return false. */
  lemma {:induction false} FalseUpsertsAreSilent(tableExists: bool, rows: seq<Row>, notices: seq<Notice>,
                                                 faults: nat -> StoreFault, clock: nat -> int)
    requires forall i :: 0 <= i < |notices| ==> !faults(i).Crash?
    ensures Ingest(tableExists, rows, notices, faults, clock).errors == []
  {
    IngestMeaning(tableExists, rows, notices, faults, clock);
    NoRaisedCounted(notices, faults, 0);
  }

  /** Three storable records whose second upsert raises: two are stored
      and exactly one message is collected. */
  lemma SecondRecordRaises(rows: seq<Row>, a: Notice, b: Notice, c: Notice,
                           faults: nat -> StoreFault, clock: nat -> int, msg: string)
    requires ShouldStore(a) && ShouldStore(b) && ShouldStore(c)
    requires Storable(a) && Storable(c)
    requires faults(0) == NoFault && faults(1) == Crash(msg) && faults(2) == NoFault
    ensures var t := Ingest(true, rows, [a, b, c], faults, clock);
      t.inserted == 2 && t.errors == [RecordErrorPrefix + msg]
  {
    var notices := [a, b, c];
    var t0 := Tally(0, [], rows);
    var t1 := Step(true, t0, a, faults(0), clock(0));
    var t2 := Step(true, t1, b, faults(1), clock(1));
    var t3 := Step(true, t2, c, faults(2), clock(2));
    assert t1.inserted == 1 && t1.errors == [];
    assert t2.inserted == 1 && t2.errors == [RecordErrorPrefix + msg];
    assert t3.inserted == 2 && t3.errors == [RecordErrorPrefix + msg];
    calc {
      Ingest(true, rows, notices, faults, clock);
      IngestFrom(true, notices, faults, clock, 1, t1);
      IngestFrom(true, notices, faults, clock, 2, t2);
      IngestFrom(true, notices, faults, clock, 3, t3);
    }
  }

  /** The same records when the second upsert meets a database error: two
      are stored and no message is collected, because a false upsert is
      not an error. */
  lemma SecondRecordRejected(rows: seq<Row>, a: Notice, b: Notice, c: Notice,
                             faults: nat -> StoreFault, clock: nat -> int)
    requires ShouldStore(a) && ShouldStore(b) && ShouldStore(c)
    requires Storable(a) && Storable(c)
    requires faults(0) == NoFault && faults(1) == DbError && faults(2) == NoFault
    ensures var t := Ingest(true, rows, [a, b, c], faults, clock);
      t.inserted == 2 && t.errors == []
  {
    var notices := [a, b, c];
    var t0 := Tally(0, [], rows);
    var t1 := Step(true, t0, a, faults(0), clock(0));
    var t2 := Step(true, t1, b, faults(1), clock(1));
    var t3 := Step(true, t2, c, faults(2), clock(2));
    assert t1.inserted == 1 && t1.errors == [];
    assert t2.inserted == 1 && t2.errors == [];
    assert t3.inserted == 2 && t3.errors == [];
    calc {
      Ingest(true, rows, notices, faults, clock);
      IngestFrom(true, notices, faults, clock, 1, t1);
      IngestFrom(true, notices, faults, clock, 2, t2);
      IngestFrom(true, notices, faults, clock, 3, t3);
    }
  }

  lemma {:induction false} NoRaisedCounted(notices: seq<Notice>, faults: nat -> StoreFault, i: nat)
    requires i <= |notices|
    requires forall j :: i <= j < |notices| ==> !faults(j).Crash?
    ensures CountRaised(notices, faults, i) == 0
    decreases |notices| - i
  {
    if i < |notices| {
      NoRaisedCounted(notices, faults, i + 1);
    }
  }

  // ---------------------------------------------------------------------------
  // The loop and the two runs

  /** The records mapped to notices, in order. */
  function MapAll<T>(records: seq<T>, parse: T -> Notice): (r: seq<Notice>)
    ensures |r| == |records| && forall i :: 0 <= i < |records| ==> r[i] == parse(records[i])
  {
    seq(|records|, i requires 0 <= i < |records| => parse(records[i]))
  }

  /** The record loop of `run`: parse each record, skip it when it has
      neither notice id nor title, upsert it otherwise, count true results
      and collect the messages of exceptions. */
  method StoreAll<T>(store: NoticeStore, records: seq<T>, parse: T -> Notice,
                     faults: nat -> StoreFault, clock: nat -> int)
    returns (inserted: nat, errors: seq<string>)
    requires store.Valid() && store.connected
    modifies store`rows
    ensures store.Valid()
    ensures Tally(inserted, errors, store.rows) ==
      Ingest(store.tableExists, old(store.rows), MapAll(records, parse), faults, clock)
  {
    ghost var notices := MapAll(records, parse);
    inserted, errors := 0, [];
    var i := 0;
    while i < |records|
      invariant 0 <= i <= |records| && store.Valid()
      invariant IngestFrom(store.tableExists, notices, faults, clock, i, Tally(inserted, errors, store.rows)) ==
                Ingest(store.tableExists, old(store.rows), notices, faults, clock)
    {
      var notice := parse(records[i]);
      if ShouldStore(notice) {
        var ok := store.InsertNotice(notice, faults(i), clock(i));
        match ok
        case Raised(msg) =>
          errors := errors + [RecordErrorPrefix + msg];
        case Done(stored) =>
          if stored {
            inserted := inserted + 1;
          }
      }
      i := i + 1;
    }
  }

  /** The text of a failed run: the exception of connect, else of create_tables. */
  function SetupError(connectFailure: Option<string>, schemaFailure: Option<string>): string
    requires connectFailure.Some? || schemaFailure.Some?
  {
    RunErrorPrefix + (if connectFailure.Some? then connectFailure.value else schemaFailure.value)
  }

  /** Connect and create the table; a failure of either is the run's
      failure. Returns whether the run may go on. */
  method Setup(store: NoticeStore, connectFailure: Option<string>, schemaFailure: Option<string>)
    returns (ready: bool)
    modifies store`connected, store`tableExists
    ensures ready <==> connectFailure.None? && schemaFailure.None?
    ensures ready ==> store.connected && store.tableExists
    ensures store.tableExists == (old(store.tableExists) || ready)
  {
    var connected := store.Connect(connectFailure);
    if connected.Raised? {
      return false;
    }
    var created := store.CreateTables(schemaFailure);
    ready := created.Done?;
  }

  /** NarajangterPipeline.run of the Open API pipeline: `src` answers the
      page requests, connectFailure/schemaFailure are the errors connect
      and create_tables raise, faults(i)/clock(i) describe the upsert of
      the i-th collected item. */
  method RunOpenApi(store: NoticeStore, src: OpenApi.Source, maxPages: int,
                    connectFailure: Option<string>, schemaFailure: Option<string>,
                    faults: nat -> StoreFault, clock: nat -> int)
    returns (result: RunResult)
    requires store.Valid()
    modifies store
    ensures store.Valid() && !store.connected && store.releases == old(store.releases) + 1
    ensures result.success <==> connectFailure.None? && schemaFailure.None?
    ensures store.tableExists == (old(store.tableExists) || result.success)
    ensures result.success ==>
      var items := OpenApi.Drain(src, maxPages).items;
      var t := Ingest(true, old(store.rows), MapAll(items, OpenApi.MapApiItem), faults, clock);
      result == RunResult(true, |items|, t.inserted, t.errors) && store.rows == t.rows &&
      result.insertedCount <= result.scrapedCount
    ensures !result.success ==>
      result == RunResult(false, 0, 0, [SetupError(connectFailure, schemaFailure)]) &&
      store.rows == old(store.rows)
  {
    var ready := Setup(store, connectFailure, schemaFailure);
    if !ready {
      result := RunResult(false, 0, 0, [SetupError(connectFailure, schemaFailure)]);
    } else {
      var items;
      ghost var requests;
      items, requests := OpenApi.GetAllNotices(src, maxPages);
      var inserted, errors := StoreAll(store, items, OpenApi.MapApiItem, faults, clock);
      IngestMeaning(true, old(store.rows), MapAll(items, OpenApi.MapApiItem), faults, clock);
      result := RunResult(true, |items|, inserted, errors);
    }
    store.Disconnect();
  }

  /** NarajangterPipeline.run of the crawler pipeline: `crawled` is the one
      scrape's result (None when it raised or came back empty). */
  method RunScraper(store: NoticeStore, crawled: Option<Document>,
                    connectFailure: Option<string>, schemaFailure: Option<string>,
                    faults: nat -> StoreFault, clock: nat -> int)
    returns (result: RunResult)
    requires store.Valid()
    modifies store
    ensures store.Valid() && !store.connected && store.releases == old(store.releases) + 1
    ensures result.success <==> connectFailure.None? && schemaFailure.None?
    ensures store.tableExists == (old(store.tableExists) || result.success)
    ensures result.success ==>
      var docs := Scrape.CrawlNotices(crawled);
      var t := Ingest(true, old(store.rows), MapAll(docs, Scrape.MapDocument), faults, clock);
      result == RunResult(true, |docs|, t.inserted, t.errors) && store.rows == t.rows
    ensures result.insertedCount <= result.scrapedCount <= 1
    ensures !result.success ==>
      result == RunResult(false, 0, 0, [SetupError(connectFailure, schemaFailure)]) &&
      store.rows == old(store.rows)
  {
    var ready := Setup(store, connectFailure, schemaFailure);
    if !ready {
      result := RunResult(false, 0, 0, [SetupError(connectFailure, schemaFailure)]);
    } else {
      var docs := Scrape.CrawlNotices(crawled);
      var inserted, errors := StoreAll(store, docs, Scrape.MapDocument, faults, clock);
      IngestMeaning(true, old(store.rows), MapAll(docs, Scrape.MapDocument), faults, clock);
      result := RunResult(true, |docs|, inserted, errors);
    }
    store.Disconnect();
  }
}

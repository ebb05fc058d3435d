/** The PostgreSQL connector of both pipelines, over an abstract notice
    table: the rows in insertion order, the column constraints of the table
    (UNIQUE notice_id where NULL never conflicts, NOT NULL title, the
    VARCHAR lengths, the BIGINT range), the upsert keyed on notice_id, and
    commit/rollback. The database server's own failures are an oracle. */
module Store {
  import opened Base
  import opened Records

  // ---------------------------------------------------------------------------
  // Columns and their constraints

  const NoticeIdLimit: nat := 100
  const TitleLimit: nat := 500
  const OrganizationLimit: nat := 200
  const ContractMethodLimit: nat := 100
  const BigintMin: int := -0x8000_0000_0000_0000
  const BigintMax: int := 0x7FFF_FFFF_FFFF_FFFF

  /** The error text of calling the cursor of a connector that never connected. */
  const NoCursorError: string := "'NoneType' object has no attribute 'execute'"

  /** The non-identity, non-timestamp columns of one row as stored. */
  datatype Columns = Columns(
    noticeId: Option<string>,
    title: string,
    organization: Option<string>,
    publishDate: Option<string>,
    deadlineDate: Option<string>,
    estimatedPrice: Option<int>,
    contractMethod: Option<string>,
    noticeUrl: Option<string>,
    detailContent: Option<string>,
    rawData: Payload)

  /** A row: its columns, when it was first inserted, when it was last written. */
  datatype Row = Row(columns: Columns, scrapedAt: int, updatedAt: int)

  /** How the server answers one statement: it runs, it raises a database
      error (rolled back, reported as false), or something other than a
      database error is raised and propagates to the caller. */
  datatype StoreFault = NoFault | DbError | Crash(msg: string)

  /** A text fits VARCHAR(limit): it is short enough, or everything past the
      limit is spaces (which PostgreSQL then cuts off). */
  predicate FitsIn(v: string, limit: nat) {
    |v| <= limit || AllSpaces(v[limit..])
  }

  /** The text PostgreSQL stores in a VARCHAR(limit) column, if it accepts it. */
  function Fit(v: string, limit: nat): (r: Option<string>)
    ensures r.Some? <==> FitsIn(v, limit)
    ensures r.Some? ==> r.value == v[..Min(|v|, limit)] && AllSpaces(v[|r.value|..])
    ensures |v| <= limit ==> r == Some(v)
  {
    if |v| <= limit then Some(v)
    else if AllSpaces(v[limit..]) then Some(v[..limit])
    else None
  }

  /** The same for a nullable column: NULL always fits. */
  function FitNullable(v: Option<string>, limit: nat): (r: Option<Option<string>>)
    ensures r.Some? <==> v.None? || FitsIn(v.value, limit)
    ensures r.Some? ==> (r.value.None? <==> v.None?)
  {
    match v
    case None => Some(None)
    case Some(s) =>
      match Fit(s, limit)
      case None => None
      case Some(t) => Some(Some(t))
  }

  predicate InBigint(n: int) { BigintMin <= n <= BigintMax }

  /** A nullable text column holds at most `limit` characters. */
  predicate Within(v: Option<string>, limit: nat) {
    v.None? || |v.value| <= limit
  }

  /** The constraints every stored row satisfies. */
  predicate Conforms(c: Columns) {
    Within(c.noticeId, NoticeIdLimit) && |c.title| <= TitleLimit &&
    Within(c.organization, OrganizationLimit) && Within(c.contractMethod, ContractMethodLimit) &&
    (c.estimatedPrice.None? || InBigint(c.estimatedPrice.value))
  }

  /** The table accepts the notice: a title is present and every bounded
      column fits. */
  predicate Storable(n: Notice) {
    n.title.Some? && FitsIn(n.title.value, TitleLimit) &&
    (n.noticeId.None? || FitsIn(n.noticeId.value, NoticeIdLimit)) &&
    (n.organization.None? || FitsIn(n.organization.value, OrganizationLimit)) &&
    (n.contractMethod.None? || FitsIn(n.contractMethod.value, ContractMethodLimit)) &&
    (n.estimatedPrice.None? || InBigint(n.estimatedPrice.value))
  }

  /** The text stored in a VARCHAR(limit) column: the given text's first
      `limit` characters, where everything cut off is spaces. */
  predicate StoredAs(stored: Option<string>, given: Option<string>, limit: nat) {
    (stored.None? <==> given.None?) &&
    (stored.Some? ==>
       stored.value == given.value[..Min(|given.value|, limit)] &&
       AllSpaces(given.value[|stored.value|..]))
  }

  /** The row values bound to the INSERT, or None when the server rejects
      them (a NOT NULL, length or range violation). */
  function ToColumns(n: Notice): (r: Option<Columns>)
    ensures r.Some? <==> Storable(n)
    ensures r.Some? ==> Conforms(r.value)
    ensures r.Some? ==> StoredAs(Some(r.value.title), n.title, TitleLimit)
    ensures r.Some? ==> StoredAs(r.value.noticeId, n.noticeId, NoticeIdLimit)
    ensures r.Some? ==> StoredAs(r.value.organization, n.organization, OrganizationLimit)
    ensures r.Some? ==> StoredAs(r.value.contractMethod, n.contractMethod, ContractMethodLimit)
    ensures r.Some? ==> r.value.publishDate == n.publishDate && r.value.deadlineDate == n.deadlineDate
    ensures r.Some? ==> r.value.estimatedPrice == n.estimatedPrice && r.value.noticeUrl == n.noticeUrl
    ensures r.Some? ==> r.value.detailContent == n.detailContent && r.value.rawData == n.rawData
  {
    if n.title.None? then None
    else
      var id := FitNullable(n.noticeId, NoticeIdLimit);
      var title := Fit(n.title.value, TitleLimit);
      var organization := FitNullable(n.organization, OrganizationLimit);
      var contract := FitNullable(n.contractMethod, ContractMethodLimit);
      if id.None? || title.None? || organization.None? || contract.None? then None
      else if n.estimatedPrice.Some? && !InBigint(n.estimatedPrice.value) then None
      else Some(Columns(
        id.value, title.value, organization.value, n.publishDate, n.deadlineDate,
        n.estimatedPrice, contract.value, n.noticeUrl, n.detailContent, n.rawData))
  }

  /** Text that already fits is stored unchanged. */
  lemma ToColumnsVerbatim(n: Notice)
    requires n.title.Some? && |n.title.value| <= TitleLimit
    requires Within(n.noticeId, NoticeIdLimit) && Within(n.organization, OrganizationLimit)
    requires Within(n.contractMethod, ContractMethodLimit)
    requires n.estimatedPrice.None? || InBigint(n.estimatedPrice.value)
    ensures ToColumns(n) == Some(Columns(
      n.noticeId, n.title.value, n.organization, n.publishDate, n.deadlineDate,
      n.estimatedPrice, n.contractMethod, n.noticeUrl, n.detailContent, n.rawData))
  {
  }

  // ---------------------------------------------------------------------------
  // The table and the upsert

  /** No two rows share a non-NULL notice id. */
  predicate UniqueKeys(rows: seq<Row>) {
    forall i, j :: 0 <= i < j < |rows| && rows[i].columns.noticeId.Some? ==>
      rows[i].columns.noticeId != rows[j].columns.noticeId
  }

  predicate AllConform(rows: seq<Row>) {
    forall i :: 0 <= i < |rows| ==> Conforms(rows[i].columns)
  }

  /** The position of the row whose notice id is `key`, searching from `from`. */
  function FindKeyFrom(rows: seq<Row>, key: string, from: nat): (r: Option<nat>)
    requires from <= |rows|
    ensures r.Some? ==> from <= r.value < |rows| && rows[r.value].columns.noticeId == Some(key)
    ensures r.None? ==> forall i :: from <= i < |rows| ==> rows[i].columns.noticeId != Some(key)
    decreases |rows| - from
  {
    if from == |rows| then None
    else if rows[from].columns.noticeId == Some(key) then Some(from)
    else FindKeyFrom(rows, key, from + 1)
  }

  function FindKey(rows: seq<Row>, key: string): Option<nat> {
    FindKeyFrom(rows, key, 0)
  }

  /** INSERT ... ON CONFLICT (notice_id) DO UPDATE at time `now`: a NULL id
      never conflicts and adds a fresh row; a new id adds a fresh row; an
      existing id overwrites that row's columns, keeps its scraped_at and
      sets its updated_at to `now`. */
  function Upsert(rows: seq<Row>, c: Columns, now: int): seq<Row> {
    if c.noticeId.None? then rows + [Row(c, now, now)]
    else
      match FindKey(rows, c.noticeId.value)
      case None => rows + [Row(c, now, now)]
      case Some(i) => rows[i := Row(c, rows[i].scrapedAt, now)]
  }

  /** The upsert keeps notice ids unique and rows conforming. */
  lemma UpsertKeepsValid(rows: seq<Row>, c: Columns, now: int)
    requires UniqueKeys(rows) && AllConform(rows) && Conforms(c)
    ensures UniqueKeys(Upsert(rows, c, now)) && AllConform(Upsert(rows, c, now))
  {
    UpsertKeepsUnique(rows, c, now);
  }

  /** An upsert with a notice id leaves exactly one row with that id (the
      table's other rows are unchanged): the given columns, written now,
      keeping the first insertion time when the id was already present. */
  lemma UpsertKeyed(rows: seq<Row>, c: Columns, now: int)
    requires UniqueKeys(rows) && c.noticeId.Some?
    ensures var r := Upsert(rows, c, now);
      var old_ := FindKey(rows, c.noticeId.value);
      var k := if old_.Some? then old_.value else |rows|;
      |r| == (if old_.Some? then |rows| else |rows| + 1) &&
      r[k].columns == c && r[k].updatedAt == now &&
      r[k].scrapedAt == (if old_.Some? then rows[k].scrapedAt else now) &&
      (forall i :: 0 <= i < |r| && i != k ==> r[i] == rows[i] && r[i].columns.noticeId != c.noticeId)
  {
  }

  /** A NULL notice id never conflicts: the row is always added. */
  lemma UpsertUnkeyed(rows: seq<Row>, c: Columns, now: int)
    requires c.noticeId.None?
    ensures Upsert(rows, c, now) == rows + [Row(c, now, now)]
  {
  }

  /** The stored columns of a table. */
  function ColumnsOf(rows: seq<Row>): (r: seq<Columns>)
    ensures |r| == |rows| && forall i :: 0 <= i < |rows| ==> r[i] == rows[i].columns
  {
    seq(|rows|, i requires 0 <= i < |rows| => rows[i].columns)
  }

  /** Writing the same keyed row again changes no column (only timestamps). */
  lemma UpsertIdempotent(rows: seq<Row>, c: Columns, t1: int, t2: int)
    requires UniqueKeys(rows) && c.noticeId.Some?
    ensures ColumnsOf(Upsert(Upsert(rows, c, t1), c, t2)) == ColumnsOf(Upsert(rows, c, t1))
  {
    var once := Upsert(rows, c, t1);
    UpsertKeyed(rows, c, t1);
    var k := FindKey(once, c.noticeId.value);
    assert k.Some?;
    assert once[k.value].columns == c;
  }

  /** Rows without a notice id pile up: the same row written twice is
      stored twice. */
  lemma UnkeyedDuplicates(rows: seq<Row>, c: Columns, t1: int, t2: int)
    requires c.noticeId.None?
    ensures |Upsert(Upsert(rows, c, t1), c, t2)| == |rows| + 2
  {
  }

  /** Notices whose id is the empty text (not NULL) share one row: the later
      one overwrites the earlier. */
  lemma EmptyIdsShareARow(rows: seq<Row>, a: Columns, b: Columns, t1: int, t2: int)
    requires UniqueKeys(rows) && a.noticeId == Some("") && b.noticeId == Some("")
    ensures var r := Upsert(Upsert(rows, a, t1), b, t2);
      FindKey(r, "").Some? && r[FindKey(r, "").value].columns == b &&
      |r| <= |rows| + 1
  {
    UpsertKeepsUnique(rows, a, t1);
    UpsertKeyed(rows, a, t1);
    UpsertKeyed(Upsert(rows, a, t1), b, t2);
  }

  /** The uniqueness half of UpsertKeepsValid. */
  lemma UpsertKeepsUnique(rows: seq<Row>, c: Columns, now: int)
    requires UniqueKeys(rows)
    ensures UniqueKeys(Upsert(rows, c, now))
  {
    if c.noticeId.Some? && FindKey(rows, c.noticeId.value).None? {
      var r := Upsert(rows, c, now);
      forall i, j | 0 <= i < j < |r| && r[i].columns.noticeId.Some?
        ensures r[i].columns.noticeId != r[j].columns.noticeId
      {
        if j == |rows| {
          assert r[i] == rows[i];
        }
      }
    }
  }

  // ---------------------------------------------------------------------------
  // insert_notice and insert_notices_batch as specification functions

  /** What one call does: its outcome and the committed table afterwards. */
  datatype Effect = Effect(outcome: Outcome<bool>, rows: seq<Row>)

  /** insert_notice: without a connection the cursor call raises; an
      exception other than a database error propagates; a database error
      (including a missing table and a rejected row) is rolled back and
      reported as false; otherwise the upsert is committed and reported as
      true. */
  function InsertEffect(connected: bool, tableExists: bool, rows: seq<Row>, n: Notice, fault: StoreFault, now: int): (e: Effect)
    ensures e.outcome == Done(true) <==> connected && fault.NoFault? && tableExists && Storable(n)
    ensures e.outcome.Raised? <==> !connected || fault.Crash?
    ensures e.outcome != Done(true) ==> e.rows == rows
    ensures e.outcome == Done(true) ==>
      ToColumns(n).Some? && e.rows == Upsert(rows, ToColumns(n).value, now)
  {
    if !connected then Effect(Raised(NoCursorError), rows)
    else
      match fault
      case Crash(msg) => Effect(Raised(msg), rows)
      case DbError => Effect(Done(false), rows)
      case NoFault =>
        match ToColumns(n)
        case None => Effect(Done(false), rows)
        case Some(c) =>
          if tableExists then Effect(Done(true), Upsert(rows, c, now))
          else Effect(Done(false), rows)
  }

  /** A committed insert writes exactly the notice's columns under its id. */
  lemma InsertEffectCommits(rows: seq<Row>, n: Notice, now: int)
    requires UniqueKeys(rows) && Storable(n) && n.noticeId.Some?
    ensures var e := InsertEffect(true, true, rows, n, NoFault, now);
      e.outcome == Done(true) &&
      FindKey(e.rows, ToColumns(n).value.noticeId.value).Some? &&
      e.rows[FindKey(e.rows, ToColumns(n).value.noticeId.value).value].columns == ToColumns(n).value
  {
    var c := ToColumns(n).value;
    UpsertKeyed(rows, c, now);
    UpsertKeepsUnique(rows, c, now);
  }

  /** What a batch does: its outcome (the count of true results, or the
      first exception) and the table afterwards. */
  datatype BatchEffect = BatchEffect(outcome: Outcome<nat>, rows: seq<Row>)

  /** insert_notices_batch from position `i` with `count` successes so far:
      each notice i is inserted at time clock(i) under fault faults(i); an
      exception ends the batch and propagates. */
  function BatchFrom(connected: bool, tableExists: bool, rows: seq<Row>, notices: seq<Notice>,
                     faults: nat -> StoreFault, clock: nat -> int, i: nat, count: nat): BatchEffect
    requires i <= |notices|
    decreases |notices| - i
  {
    if i == |notices| then BatchEffect(Done(count), rows)
    else
      var e := InsertEffect(connected, tableExists, rows, notices[i], faults(i), clock(i));
      match e.outcome
      case Raised(msg) => BatchEffect(Raised(msg), e.rows)
      case Done(ok) => BatchFrom(connected, tableExists, e.rows, notices, faults, clock, i + 1, if ok then count + 1 else count)
  }

  function Batch(connected: bool, tableExists: bool, rows: seq<Row>, notices: seq<Notice>,
                 faults: nat -> StoreFault, clock: nat -> int): BatchEffect {
    BatchFrom(connected, tableExists, rows, notices, faults, clock, 0, 0)
  }

  /** Notice i is accepted: the server runs the statement and the table
      takes the row. */
  predicate Accepted(tableExists: bool, n: Notice, fault: StoreFault) {
    fault.NoFault? && tableExists && Storable(n)
  }

  /** The number of accepted notices among positions from..|notices|. */
  function CountAccepted(tableExists: bool, notices: seq<Notice>, faults: nat -> StoreFault, from: nat): (r: nat)
    requires from <= |notices|
    ensures r <= |notices| - from
    decreases |notices| - from
  {
    if from == |notices| then 0
    else
      var here := if Accepted(tableExists, notices[from], faults(from)) then 1 else 0;
      here + CountAccepted(tableExists, notices, faults, from + 1)
  }

  lemma {:induction false} BatchFromMeaning(connected: bool, tableExists: bool, rows: seq<Row>, notices: seq<Notice>,
                                            faults: nat -> StoreFault, clock: nat -> int, i: nat, count: nat)
    requires i <= |notices|
    ensures var b := BatchFrom(connected, tableExists, rows, notices, faults, clock, i, count);
      (b.outcome.Done? <==> (i == |notices| || connected) && forall j :: i <= j < |notices| ==> !faults(j).Crash?) &&
      (b.outcome.Done? ==> b.outcome.value == count + CountAccepted(tableExists, notices, faults, i))
    decreases |notices| - i
  {
    if i < |notices| {
      var e := InsertEffect(connected, tableExists, rows, notices[i], faults(i), clock(i));
      if e.outcome.Done? {
        BatchFromMeaning(connected, tableExists, e.rows, notices, faults, clock, i + 1,
                         if e.outcome.value then count + 1 else count);
      }
    }
  }

  /** insert_notices_batch counts exactly the notices whose insert returned
      true, so its result lies in 0..|notices|; it completes unless an
      exception other than a database error is raised (or it is called
      without a connection on a non-empty list). */
  lemma BatchMeaning(connected: bool, tableExists: bool, rows: seq<Row>, notices: seq<Notice>,
                     faults: nat -> StoreFault, clock: nat -> int)
    ensures var b := Batch(connected, tableExists, rows, notices, faults, clock);
      (b.outcome.Done? <==> (notices == [] || connected) && forall j :: 0 <= j < |notices| ==> !faults(j).Crash?) &&
      (b.outcome.Done? ==> b.outcome.value == CountAccepted(tableExists, notices, faults, 0) <= |notices|)
  {
    BatchFromMeaning(connected, tableExists, rows, notices, faults, clock, 0, 0);
  }

  // ---------------------------------------------------------------------------
  // The connector

  class NoticeStore {
    /** A connection and its cursor are open. */
    var connected: bool
    /** CREATE TABLE has run (the table persists across connections). */
    var tableExists: bool
    /** The committed table. */
    var rows: seq<Row>
    /** How many times disconnect has run. */
    ghost var releases: nat

    ghost predicate Valid()
      reads this
    {
      UniqueKeys(rows) && AllConform(rows)
    }

    /** A connector on a database whose notice table holds `existing`, or
        has no notice table when `existing` is None. */
    constructor (existing: Option<seq<Row>>)
      requires existing.Some? ==> UniqueKeys(existing.value) && AllConform(existing.value)
      ensures Valid() && !connected && releases == 0
      ensures tableExists == existing.Some?
      ensures rows == if existing.Some? then existing.value else []
    {
      connected := false;
      tableExists := existing.Some?;
      rows := if existing.Some? then existing.value else [];
      releases := 0;
    }

    /** connect: `failure` is the database error the server reports, if any;
        it is re-raised and the connector stays as it was. */
    method Connect(failure: Option<string>) returns (outcome: Outcome<bool>)
      modifies this`connected
      ensures failure.None? ==> connected && outcome == Done(true)
      ensures failure.Some? ==> connected == old(connected) && outcome == Raised(failure.value)
    {
      if failure.Some? {
        outcome := Raised(failure.value);
      } else {
        connected := true;
        outcome := Done(true);
      }
    }

    /** disconnect: close whatever is open. */
    method Disconnect()
      modifies this`connected, this`releases
      ensures !connected && releases == old(releases) + 1
    {
      connected := false;
      releases := releases + 1;
    }

    /** create_tables: CREATE TABLE IF NOT EXISTS, committed; a database
        error is rolled back and re-raised. */
    method CreateTables(failure: Option<string>) returns (outcome: Outcome<bool>)
      modifies this`tableExists
      ensures !old(connected) ==> outcome == Raised(NoCursorError) && tableExists == old(tableExists)
      ensures old(connected) && failure.Some? ==> outcome == Raised(failure.value) && tableExists == old(tableExists)
      ensures old(connected) && failure.None? ==> outcome == Done(true) && tableExists
    {
      if !connected {
        outcome := Raised(NoCursorError);
      } else if failure.Some? {
        outcome := Raised(failure.value);
      } else {
        tableExists := true;
        outcome := Done(true);
      }
    }

    /** insert_notice at time `now`, the server answering as `fault` says. */
    method InsertNotice(n: Notice, fault: StoreFault, now: int) returns (outcome: Outcome<bool>)
      requires Valid()
      modifies this`rows
      ensures Valid()
      ensures Effect(outcome, rows) == InsertEffect(connected, tableExists, old(rows), n, fault, now)
    {
      var e := InsertEffect(connected, tableExists, rows, n, fault, now);
      if e.outcome == Done(true) {
        UpsertKeepsValid(rows, ToColumns(n).value, now);
      }
      rows := e.rows;
      outcome := e.outcome;
    }

    /** insert_notices_batch: insert each notice in order and count the
        true results; an exception propagates out of the loop. */
    method InsertNoticesBatch(notices: seq<Notice>, faults: nat -> StoreFault, clock: nat -> int)
      returns (outcome: Outcome<nat>)
      requires Valid()
      modifies this`rows
      ensures Valid()
      ensures BatchEffect(outcome, rows) == Batch(connected, tableExists, old(rows), notices, faults, clock)
    {
      var count: nat := 0;
      var i := 0;
      outcome := Done(0);
      var raised := false;
      while i < |notices| && !raised
        invariant 0 <= i <= |notices| && Valid()
        invariant !raised ==> BatchFrom(connected, tableExists, rows, notices, faults, clock, i, count) ==
                              Batch(connected, tableExists, old(rows), notices, faults, clock)
        invariant raised ==> BatchEffect(outcome, rows) == Batch(connected, tableExists, old(rows), notices, faults, clock)
        decreases |notices| - i, if raised then 0 else 1
      {
        var ok := InsertNotice(notices[i], faults(i), clock(i));
        if ok.Raised? {
          outcome := Raised(ok.msg);
          raised := true;
        } else {
          if ok.value {
            count := count + 1;
          }
          i := i + 1;
        }
      }
      if !raised {
        outcome := Done(count);
      }
    }
  }
}

/** Runs of a paginated listing over a store that may change between pages. */
module Paging {
  import opened Wrappers
  import opened Messages
  import opened Pagination
  import opened Ordering
  import opened CursorSeeking
  import Keyset
  import Predicates
  import Sql

  /** What stays the same for every page of one listing. */
  datatype Listing = Listing(
    filter: Predicates.Predicate,
    columns: seq<SeekColumn>,
    orders: seq<Order>,
    checksum: nat,
    limits: SizeLimits)
  {
    /** The seek columns are the ORDER BY columns, and there is at least one. */
    predicate Valid() {
      orders != [] && |columns| == |orders| && forall i :: 0 <= i < |orders| ==> columns[i].column == orders[i].column
    }

    ghost predicate Matches(record: Record) {
      Predicates.Eval(filter, record.row) == Sql.True
    }

    /** `later` sorts strictly after `earlier`. */
    ghost predicate Past(later: Record, earlier: Record) {
      After(later.row, earlier.row, orders)
    }

    /** Equal sort cells: the same resource, whatever else was updated in between. */
    ghost predicate SamePlace(a: Record, b: Record) {
      forall i :: 0 <= i < |orders| ==> a.row.Get(orders[i].column) == b.row.Get(orders[i].column)
    }

    /** Every record has all its sort values and no two of them tie. */
    ghost predicate Pageable(store: set<Record>) {
      (forall record :: record in store ==> Recorded(record, columns))
      && forall a, b :: a in store && b in store && a != b ==> Past(a, b) || Past(b, a)
    }

    /** The size a request resolves to, zero when it is refused. */
    function Size(requested: int): nat {
      var size := ResolveSize(requested, limits);
      if size.Ok? then size.value else 0
    }
  }

  /** One request: the store it met, the page size asked for, and the response. */
  datatype Step = Step(store: set<Record>, requested: int, page: seq<Record>, next: Token)

  ghost predicate Selected(record: Record, where: Predicates.Predicate) {
    Predicates.Eval(where, record.row) == Sql.True
  }

  /** SELECT .. WHERE .. ORDER BY .. LIMIT: distinct selected rows in an order the sort
      does not contradict, and a row is left out only when the limit is reached and it
      need not come before any of them. */
  ghost predicate Fetched(rows: seq<Record>, store: set<Record>, where: Predicates.Predicate, limit: nat, l: Listing) {
    |rows| <= limit
    && (forall i :: 0 <= i < |rows| ==> rows[i] in store && Selected(rows[i], where))
    && (forall i, j :: 0 <= i < j < |rows| ==> rows[i] != rows[j] && !l.Past(rows[i], rows[j]))
    && forall record :: record in store && Selected(record, where) && record !in rows ==>
         |rows| == limit && forall i :: 0 <= i < |rows| ==> !l.Past(rows[i], record)
  }

  /** The user's filter and the optional seek, joined by AND. */
  function Where(filter: Predicates.Predicate, seek: Option<Predicates.Predicate>): Predicates.Predicate {
    Predicates.All([filter] + if seek.Some? then [seek.value] else [])
  }

  /** The response a list handler gives to a request carrying `token`. */
  ghost predicate Served(step: Step, token: Token, l: Listing) {
    var page := ParsePage(token, step.requested, l.checksum, l.limits);
    page.Ok? &&
    var seek := CursorSeek(page.value.cursor, l.columns, l.orders);
    seek.Ok? && exists rows :: Answered(rows, step, page.value, seek.value, l)
  }

  ghost predicate Answered(rows: seq<Record>, step: Step, page: Page, seek: Option<Predicates.Predicate>, l: Listing) {
    Fetched(rows, step.store, Where(l.filter, seek), page.FetchLimit(), l)
    && page.Splits(rows, record => Cursor(record, l.columns), step.page, step.next)
  }

  /** Each request carries the token of the response before it. */
  ghost predicate Run(steps: seq<Step>, token: Token, l: Listing) {
    steps != [] && Served(steps[0], token, l)
    && (|steps| > 1 ==> !steps[0].next.NoToken? && Run(steps[1..], steps[0].next, l))
  }

  /** The client stopped because the token was empty. */
  predicate Finished(steps: seq<Step>) {
    steps != [] && steps[|steps| - 1].next.NoToken?
  }

  function Output(steps: seq<Step>): seq<Record> {
    if steps == [] then [] else steps[0].page + Output(steps[1..])
  }

  ghost predicate Ascending(records: seq<Record>, l: Listing) {
    forall i, j :: 0 <= i < j < |records| ==> l.Past(records[j], records[i])
  }

  /** The token a request resumes from: none, or minted from `last`. */
  predicate Resumes(token: Token, last: Option<Record>, l: Listing) {
    token == if last.None? then NoToken else Encode(Cursor(last.value, l.columns), l.checksum)
  }

  ghost predicate Ahead(record: Record, last: Option<Record>, l: Listing) {
    last.Some? ==> l.Past(record, last.value)
  }

  // ----- one page -----

  lemma RecordedIsKeyed(record: Record, l: Listing)
    requires l.Valid() && Recorded(record, l.columns)
    ensures Keyed(record.row, l.orders)
  {
    forall i | 0 <= i < |l.orders| ensures record.row.Get(l.orders[i].column).Scalar() {
      MintedIsStored(record, l.columns, i);
    }
  }

  /** The handler never refuses a token it minted. */
  lemma MintedFits(last: Record, l: Listing)
    requires l.Valid() && Recorded(last, l.columns)
    ensures Fits(Cursor(last, l.columns), l.columns, l.orders)
  {
    forall i | 0 <= i < |l.columns| ensures ValueMatches(Cursor(last, l.columns)[i].value, l.columns[i].ty) {
      MintedIsStored(last, l.columns, i);
    }
  }

  /** Seeking on a minted cursor selects exactly the records that sort after the one it was
      minted from. */
  lemma SeekMeansPast(record: Record, last: Record, l: Listing)
    requires l.Valid() && Recorded(record, l.columns) && Recorded(last, l.columns)
    ensures Predicates.Eval(Keyset.KeysetSeek(SeekItems(Cursor(last, l.columns), l.orders)), record.row)
            == Sql.Known(l.Past(record, last))
  {
    var items := SeekItems(Cursor(last, l.columns), l.orders);
    forall i | 0 <= i < |items|
      ensures items[i].value.Bound() == last.row.Get(l.orders[i].column) && items[i].column == l.orders[i].column
      ensures !items[i].value.Null? && !record.row.Get(items[i].column).Null?
    {
      MintedIsStored(last, l.columns, i);
      MintedIsStored(record, l.columns, i);
    }
    Keyset.KeysetSeekIsStrictlyAfter(record.row, items);
    FollowsIsAfter(record.row, last.row, items, l.orders);
  }

  lemma FollowsIsAfter(row: Sql.Row, last: Sql.Row, items: seq<Keyset.SeekItem>, orders: seq<Order>)
    requires |items| == |orders|
    requires forall i :: 0 <= i < |items| ==>
               items[i].column == orders[i].column && items[i].direction == orders[i].Direction()
               && items[i].value.Bound() == last.Get(orders[i].column)
    ensures Keyset.Follows(row, items) <==> After(row, last, orders)
  {
    forall k | 0 <= k < |items| ensures Keyset.FollowsAt(row, items, k) <==> AfterAt(row, last, orders, k) {}
  }

  /** The seek a request resuming from `last` makes. */
  function SeekFrom(last: Option<Record>, l: Listing): Option<Predicates.Predicate>
    requires l.Valid()
  {
    if last.None? then None else Some(Keyset.KeysetSeek(SeekItems(Cursor(last.value, l.columns), l.orders)))
  }

  function PageFrom(last: Option<Record>, requested: int, l: Listing): Page {
    Page(if last.None? then None else Some(Cursor(last.value, l.columns)), l.Size(requested), l.checksum)
  }

  /** The handler accepts a token it minted, and seeks from the record it was minted from. */
  lemma OwnTokenIsAccepted(token: Token, last: Option<Record>, requested: int, l: Listing)
    requires l.Valid() && (last.Some? ==> Recorded(last.value, l.columns))
    requires Resumes(token, last, l) && requested >= 0
    ensures ParsePage(token, requested, l.checksum, l.limits) == Ok(PageFrom(last, requested, l))
    ensures CursorSeek(PageFrom(last, requested, l).cursor, l.columns, l.orders) == Ok(SeekFrom(last, l))
  {
    if last.Some? {
      MintedFits(last.value, l);
    }
  }

  lemma WhereMeans(filter: Predicates.Predicate, seek: Option<Predicates.Predicate>, record: Record)
    ensures Selected(record, Where(filter, seek)) <==>
            Selected(record, filter) && (seek.Some? ==> Selected(record, seek.value))
  {
    var parts := Where(filter, seek).parts;
    assert parts[0] == filter;
    if seek.Some? {
      assert parts[1..] == [seek.value];
      assert [seek.value][1..] == [];
      assert Predicates.EvalAll([seek.value], record.row) == Predicates.Eval(seek.value, record.row);
    } else {
      assert Predicates.EvalAll(parts[1..], record.row) == Sql.True;
    }
    assert Predicates.EvalAll(parts, record.row)
        == Sql.Both(Predicates.Eval(filter, record.row), Predicates.EvalAll(parts[1..], record.row));
  }

  /** What a request selects: the matching records ahead of where it resumes. */
  lemma SelectedIsAhead(record: Record, last: Option<Record>, l: Listing)
    requires l.Valid() && Recorded(record, l.columns) && (last.Some? ==> Recorded(last.value, l.columns))
    ensures Selected(record, Where(l.filter, SeekFrom(last, l))) <==> l.Matches(record) && Ahead(record, last, l)
  {
    WhereMeans(l.filter, SeekFrom(last, l), record);
    if last.Some? {
      SeekMeansPast(record, last.value, l);
    }
  }

  /** A page served from `last`: sorted, genuine, ahead; and it leaves nothing behind. */
  ghost predicate Advances(step: Step, last: Option<Record>, l: Listing) {
    Ascending(step.page, l)
    && (forall record :: record in step.page ==> record in step.store && l.Matches(record) && Ahead(record, last, l))
    && (if step.next.NoToken? then LeavesNothing(step, last, l) else LeavesTheRest(step, last, l))
  }

  ghost predicate LeavesNothing(step: Step, last: Option<Record>, l: Listing) {
    forall record :: record in step.store && l.Matches(record) && Ahead(record, last, l) ==> record in step.page
  }

  /** A full page, a token resuming at its end, and at least the probe row still to come. */
  ghost predicate LeavesTheRest(step: Step, last: Option<Record>, l: Listing) {
    |step.page| == l.Size(step.requested) && step.page != [] && Resumes(step.next, Some(Last(step.page)), l)
    && (forall record :: record in step.store && l.Matches(record) && Ahead(record, last, l) ==>
          record in step.page || l.Past(record, Last(step.page)))
    && exists probe :: probe in step.store && l.Matches(probe) && l.Past(probe, Last(step.page))
  }

  function Last(page: seq<Record>): Record
    requires page != []
  {
    page[|page| - 1]
  }

  /** On a store without ties the sort order is the strict one. */
  lemma FetchedAscends(rows: seq<Record>, store: set<Record>, where: Predicates.Predicate, limit: nat, l: Listing)
    requires l.Pageable(store) && Fetched(rows, store, where, limit, l)
    ensures Ascending(rows, l)
    ensures forall record :: record in store && Selected(record, where) && record !in rows ==>
              |rows| == limit && forall i :: 0 <= i < |rows| ==> l.Past(record, rows[i])
  {
    forall i, j | 0 <= i < j < |rows| ensures l.Past(rows[j], rows[i]) {
      assert rows[i] in store && rows[j] in store;
    }
    forall record, i | record in store && Selected(record, where) && record !in rows && 0 <= i < |rows|
      ensures l.Past(record, rows[i])
    {
      assert rows[i] in store && rows[i] in rows;
    }
  }

  lemma {:induction false} ServedAdvances(step: Step, token: Token, last: Option<Record>, l: Listing)
    requires l.Valid() && l.Pageable(step.store) && (last.Some? ==> Recorded(last.value, l.columns))
    requires Resumes(token, last, l) && Served(step, token, l) && l.Size(step.requested) >= 1
    ensures Advances(step, last, l)
  {
    OwnTokenIsAccepted(token, last, step.requested, l);
    var page, where := PageFrom(last, step.requested, l), Where(l.filter, SeekFrom(last, l));
    var rows :| Answered(rows, step, page, SeekFrom(last, l), l);
    FetchedAscends(rows, step.store, where, page.FetchLimit(), l);
    forall record | record in step.store
      ensures Selected(record, where) <==> l.Matches(record) && Ahead(record, last, l)
    {
      SelectedIsAhead(record, last, l);
    }
    SplitAdvances(rows, step, page, where, last, l);
  }

  /** The kept rows and the probe row of a full fetch. */
  lemma SplitLeavesTheRest(rows: seq<Record>, step: Step, where: Predicates.Predicate, last: Option<Record>, l: Listing)
    requires Ascending(rows, l) && |rows| == l.Size(step.requested) + 1 && |rows| > 1
    requires step.page == rows[..|rows| - 1]
    requires Resumes(step.next, Some(rows[|rows| - 2]), l)
    requires forall record :: record in rows ==> record in step.store && l.Matches(record)
    requires forall record :: record in step.store && l.Matches(record) && Ahead(record, last, l) && record !in rows ==>
               l.Past(record, rows[|rows| - 2])
    ensures LeavesTheRest(step, last, l)
  {
    var probe := rows[|rows| - 1];
    assert Last(step.page) == rows[|rows| - 2];
    assert probe in rows && l.Past(probe, Last(step.page));
    assert forall record :: record in rows ==> record in step.page || record == probe;
  }

  lemma SplitAdvances(rows: seq<Record>, step: Step, page: Page, where: Predicates.Predicate, last: Option<Record>, l: Listing)
    requires Fetched(rows, step.store, where, page.FetchLimit(), l) && Ascending(rows, l)
    requires page.Splits(rows, record => Cursor(record, l.columns), step.page, step.next)
    requires page.size == l.Size(step.requested) >= 1 && page.checksum == l.checksum
    requires forall record :: record in step.store && Selected(record, where) && record !in rows ==>
               |rows| == page.FetchLimit() && forall i :: 0 <= i < |rows| ==> l.Past(record, rows[i])
    requires forall record :: record in step.store ==> (Selected(record, where) <==> l.Matches(record) && Ahead(record, last, l))
    ensures Advances(step, last, l)
  {
    if !step.next.NoToken? {
      SplitLeavesTheRest(rows, step, where, last, l);
    }
  }
}

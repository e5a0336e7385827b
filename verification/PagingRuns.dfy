/** What every run of a paginated listing keeps. */
module PagingRuns {
  import opened Wrappers
  import opened Pagination
  import opened Ordering
  import opened CursorSeeking
  import opened Paging
  import Sql

  /** Every store the run meets is free of ties, and no page has size zero. */
  ghost predicate Sound(steps: seq<Step>, l: Listing) {
    l.Valid() && forall i :: 0 <= i < |steps| ==> l.Pageable(steps[i].store) && l.Size(steps[i].requested) >= 1
  }

  ghost predicate StartsAt(steps: seq<Step>, token: Token, last: Option<Record>, l: Listing) {
    Run(steps, token, l) && Resumes(token, last, l) && (last.Some? ==> Recorded(last.value, l.columns))
  }

  /** The first page advances, and the rest of the run starts where it ends. */
  lemma RunStep(steps: seq<Step>, token: Token, last: Option<Record>, l: Listing)
    requires Sound(steps, l) && StartsAt(steps, token, last, l)
    ensures Advances(steps[0], last, l)
    ensures |steps| > 1 ==> LeavesTheRest(steps[0], last, l) && Sound(steps[1..], l)
                            && StartsAt(steps[1..], steps[0].next, Some(Last(steps[0].page)), l)
  {
    FirstAdvances(steps, token, last, l);
    if |steps| > 1 {
      NextStart(steps[0], last, l);
    }
  }

  lemma {:induction false} FirstAdvances(steps: seq<Step>, token: Token, last: Option<Record>, l: Listing)
    requires Sound(steps, l) && StartsAt(steps, token, last, l)
    ensures Advances(steps[0], last, l) && l.Pageable(steps[0].store)
    ensures |steps| > 1 ==> Sound(steps[1..], l) && !steps[0].next.NoToken? && Run(steps[1..], steps[0].next, l)
  {
    ServedAdvances(steps[0], token, last, l);
  }

  lemma NextStart(step: Step, last: Option<Record>, l: Listing)
    requires Advances(step, last, l) && l.Pageable(step.store) && !step.next.NoToken?
    ensures LeavesTheRest(step, last, l) && Recorded(Last(step.page), l.columns)
  {
    assert Last(step.page) in step.page;
  }

  // ----- order -----

  lemma PastTransitive(c: Record, b: Record, a: Record, l: Listing)
    requires l.Past(c, b) && l.Past(b, a)
    ensures l.Past(c, a)
  {
    AfterTransitive(c.row, b.row, a.row, l.orders);
  }

  lemma SamePlaceIsNotPast(a: Record, b: Record, l: Listing)
    requires l.Valid() && Recorded(a, l.columns) && l.SamePlace(a, b)
    ensures !l.Past(a, b) && !l.Past(b, a)
  {
    RecordedIsKeyed(a, l);
    forall k | 0 <= k < |l.orders| ensures !AfterAt(a.row, b.row, l.orders, k) && !AfterAt(b.row, a.row, l.orders, k) {
      Sql.BelowTotal(a.row.Get(l.orders[k].column), a.row.Get(l.orders[k].column));
    }
  }

  lemma SamePlaceKeepsPast(a: Record, b: Record, c: Record, l: Listing)
    requires l.SamePlace(a, b) && l.Past(a, c)
    ensures l.Past(b, c)
  {
    var k :| 0 <= k < |l.orders| && AfterAt(a.row, c.row, l.orders, k);
    assert AfterAt(b.row, c.row, l.orders, k);
  }

  lemma AscendingConcat(a: seq<Record>, b: seq<Record>, l: Listing)
    requires a != [] && Ascending(a, l) && Ascending(b, l)
    requires forall record :: record in b ==> l.Past(record, Last(a))
    ensures Ascending(a + b, l)
    ensures forall x, y :: x in a && y in b ==> l.Past(y, x)
  {
    forall x, y | x in a && y in b ensures l.Past(y, x) {
      var i :| 0 <= i < |a| && a[i] == x;
      if i < |a| - 1 {
        PastTransitive(y, Last(a), x, l);
      }
    }
    forall i, j | 0 <= i < j < |a + b| ensures l.Past((a + b)[j], (a + b)[i]) {
      if i < |a| <= j {
        assert (a + b)[i] in a && (a + b)[j] in b;
      } else if |a| <= i {
        assert (a + b)[i] == b[i - |a|] && (a + b)[j] == b[j - |a|];
      }
    }
  }

  /** The output of a run is strictly increasing in the ORDER BY order and ahead of where
      the run started. */
  lemma {:induction false} OutputAscends(steps: seq<Step>, token: Token, last: Option<Record>, l: Listing)
    requires Sound(steps, l) && StartsAt(steps, token, last, l)
    ensures Ascending(Output(steps), l)
    ensures forall record :: record in Output(steps) ==> Ahead(record, last, l)
    decreases |steps|
  {
    RunStep(steps, token, last, l);
    var page := steps[0].page;
    if |steps| == 1 {
      assert Output(steps) == page;
    } else {
      var end := Last(page);
      assert end in page;
      OutputAscends(steps[1..], steps[0].next, Some(end), l);
      AscendingConcat(page, Output(steps[1..]), l);
      forall record | record in Output(steps[1..]) ensures Ahead(record, last, l) {
        if last.Some? {
          PastTransitive(record, end, last.value, l);
        }
      }
    }
  }

  /** Nothing is made up: each listed record stood in the store of its own request and
      matched the filter. */
  lemma {:induction false} OutputIsGenuine(steps: seq<Step>, token: Token, last: Option<Record>, l: Listing, record: Record)
    returns (i: nat)
    requires Sound(steps, l) && StartsAt(steps, token, last, l) && record in Output(steps)
    ensures i < |steps| && record in steps[i].page && record in steps[i].store && l.Matches(record)
    decreases |steps|
  {
    RunStep(steps, token, last, l);
    if record in steps[0].page {
      i := 0;
    } else {
      i := OutputIsGenuine(steps[1..], steps[0].next, Some(Last(steps[0].page)), l, record);
      i := i + 1;
    }
  }

  // ----- completeness -----

  /** The resource `k` stands in every store the run meets, matching the filter; its other
      columns may change from page to page. */
  ghost predicate StandsThroughout(k: Record, steps: seq<Step>, l: Listing) {
    forall i :: 0 <= i < |steps| ==> StandsIn(k, steps[i].store, l)
  }

  ghost predicate StandsIn(k: Record, store: set<Record>, l: Listing) {
    exists record :: record in store && l.SamePlace(k, record) && l.Matches(record)
  }

  ghost predicate Listed(k: Record, records: seq<Record>, l: Listing) {
    exists record :: record in records && l.SamePlace(k, record)
  }

  /** One page lists the resource or ends before it. */
  lemma PageKeeps(step: Step, last: Option<Record>, l: Listing, k: Record)
    requires Advances(step, last, l) && StandsIn(k, step.store, l) && Ahead(k, last, l)
    ensures Listed(k, step.page, l) || (LeavesTheRest(step, last, l) && l.Past(k, Last(step.page)))
  {
    var record :| record in step.store && l.SamePlace(k, record) && l.Matches(record);
    if last.Some? {
      SamePlaceKeepsPast(k, record, last.value, l);
    }
    if record !in step.page {
      assert l.SamePlace(record, k);
      SamePlaceKeepsPast(record, k, Last(step.page), l);
    }
  }

  lemma ListedInEither(k: Record, a: seq<Record>, b: seq<Record>, l: Listing)
    requires Listed(k, a, l) || Listed(k, b, l)
    ensures Listed(k, a + b, l)
  {
    var record :| (record in a || record in b) && l.SamePlace(k, record);
    assert record in a + b;
  }

  lemma LaterPages(k: Record, steps: seq<Step>, l: Listing)
    requires steps != [] && StandsThroughout(k, steps, l)
    ensures StandsIn(k, steps[0].store, l) && StandsThroughout(k, steps[1..], l)
  {}

  lemma LaterStart(steps: seq<Step>, token: Token, last: Option<Record>, l: Listing)
    requires Sound(steps, l) && StartsAt(steps, token, last, l) && |steps| > 1
    ensures steps[0].page != [] && Sound(steps[1..], l)
    ensures StartsAt(steps[1..], steps[0].next, Some(Last(steps[0].page)), l)
  {
    RunStep(steps, token, last, l);
  }

  lemma LaterFinish(steps: seq<Step>)
    requires Finished(steps) && |steps| > 1
    ensures Finished(steps[1..])
  {}

  /** A resource the page does not list is still to come. */
  lemma StillToCome(step: Step, last: Option<Record>, l: Listing, k: Record)
    requires Advances(step, last, l) && StandsIn(k, step.store, l) && Ahead(k, last, l) && !Listed(k, step.page, l)
    ensures !step.next.NoToken? && step.page != [] && Ahead(k, Some(Last(step.page)), l)
  {
    PageKeeps(step, last, l, k);
  }

  lemma FirstPage(steps: seq<Step>, token: Token, last: Option<Record>, l: Listing)
    requires Sound(steps, l) && StartsAt(steps, token, last, l)
    ensures Advances(steps[0], last, l)
  {
    FirstAdvances(steps, token, last, l);
  }

  lemma NotTheLast(steps: seq<Step>)
    requires Finished(steps) && !steps[0].next.NoToken?
    ensures |steps| > 1
  {}

  /** Then there are later pages, and the resource stands ahead of them. */
  lemma LaterPagesRemain(steps: seq<Step>, token: Token, last: Option<Record>, l: Listing, k: Record)
    requires Sound(steps, l) && StartsAt(steps, token, last, l) && Finished(steps)
    requires StandsIn(k, steps[0].store, l) && Ahead(k, last, l) && !Listed(k, steps[0].page, l)
    ensures |steps| > 1 && steps[0].page != [] && Ahead(k, Some(Last(steps[0].page)), l)
    ensures Sound(steps[1..], l) && StartsAt(steps[1..], steps[0].next, Some(Last(steps[0].page)), l) && Finished(steps[1..])
  {
    FirstPage(steps, token, last, l);
    StillToCome(steps[0], last, l, k);
    NotTheLast(steps);
    LaterStart(steps, token, last, l);
    LaterFinish(steps);
  }

  lemma {:induction false} OutputIsComplete(steps: seq<Step>, token: Token, last: Option<Record>, l: Listing, k: Record)
    requires Sound(steps, l) && StartsAt(steps, token, last, l) && Finished(steps)
    requires StandsThroughout(k, steps, l) && Ahead(k, last, l)
    ensures Listed(k, Output(steps), l)
    decreases |steps|
  {
    var page, later := steps[0].page, steps[1..];
    LaterPages(k, steps, l);
    if !Listed(k, page, l) {
      LaterPagesRemain(steps, token, last, l, k);
      OutputIsComplete(later, steps[0].next, Some(Last(page)), l, k);
    }
    ListedInEither(k, page, Output(later), l);
  }

  /** Whatever is inserted, deleted or updated between the pages: a listing followed from
      the empty token is strictly increasing, so no resource comes twice; and once the token
      comes back empty every resource that stood throughout has been listed. */
  lemma ChangingStore(steps: seq<Step>, l: Listing)
    requires Sound(steps, l) && Run(steps, NoToken, l)
    ensures Ascending(Output(steps), l)
    ensures forall i, j :: 0 <= i < j < |Output(steps)| ==> !l.SamePlace(Output(steps)[i], Output(steps)[j])
    ensures Finished(steps) ==> forall k :: StandsThroughout(k, steps, l) ==> Listed(k, Output(steps), l)
  {
    OutputAscends(steps, NoToken, None, l);
    forall i, j | 0 <= i < j < |Output(steps)| ensures !l.SamePlace(Output(steps)[i], Output(steps)[j]) {
      var a, b := Output(steps)[i], Output(steps)[j];
      if l.SamePlace(a, b) {
        var n := OutputIsGenuine(steps, NoToken, None, l, a);
        SamePlaceIsNotPast(a, b, l);
      }
    }
    if Finished(steps) {
      forall k | StandsThroughout(k, steps, l) ensures Listed(k, Output(steps), l) {
        OutputIsComplete(steps, NoToken, None, l, k);
      }
    }
  }

  // ----- a store that does not change -----

  /** The full filtered, sorted listing of a store. */
  ghost predicate Lists(full: seq<Record>, store: set<Record>, l: Listing) {
    Ascending(full, l) && forall record :: record in full <==> record in store && l.Matches(record)
  }

  lemma {:induction false} AscendingUnique(a: seq<Record>, b: seq<Record>, l: Listing)
    requires l.Valid() && Ascending(a, l) && Ascending(b, l)
    requires forall record :: record in a <==> record in b
    requires forall record :: record in a ==> Recorded(record, l.columns)
    ensures a == b
  {
    if a == [] {
      assert forall i :: 0 <= i < |b| ==> b[i] in b;
    } else {
      assert a[0] in a && a[0] in b;
      assert b[0] in b && b[0] in a;
      FirstIsLeast(a, b[0], l);
      FirstIsLeast(b, a[0], l);
      RecordedIsKeyed(a[0], l);
      RecordedIsKeyed(b[0], l);
      if a[0] != b[0] {
        AfterAsymmetric(b[0].row, a[0].row, l.orders);
      }
      TailMembers(a, l);
      TailMembers(b, l);
      AscendingUnique(a[1..], b[1..], l);
      assert a == [a[0]] + a[1..] && b == [b[0]] + b[1..];
    }
  }

  lemma FirstIsLeast(a: seq<Record>, record: Record, l: Listing)
    requires Ascending(a, l) && record in a
    ensures record == a[0] || l.Past(record, a[0])
  {
    var i :| 0 <= i < |a| && a[i] == record;
  }

  lemma TailMembers(a: seq<Record>, l: Listing)
    requires l.Valid() && a != [] && Ascending(a, l) && forall record :: record in a ==> Recorded(record, l.columns)
    ensures Ascending(a[1..], l)
    ensures forall record :: record in a[1..] <==> record in a && record != a[0]
  {
    assert forall record :: record in a ==> record == a[0] || record in a[1..];
    assert a[0] in a;
    RecordedIsKeyed(a[0], l);
    if a[0] in a[1..] {
      var i :| 0 <= i < |a| - 1 && a[1..][i] == a[0];
      assert l.Past(a[i + 1], a[0]);
      AfterAsymmetric(a[0].row, a[0].row, l.orders);
    }
  }

  /** On a store that does not change the pages put together are the full listing. */
  lemma StaticStore(steps: seq<Step>, store: set<Record>, full: seq<Record>, l: Listing)
    requires Sound(steps, l) && Run(steps, NoToken, l) && Finished(steps)
    requires (forall i :: 0 <= i < |steps| ==> steps[i].store == store) && Lists(full, store, l)
    ensures Output(steps) == full
  {
    ChangingStore(steps, l);
    assert steps[0].store == store;
    forall record | record in full ensures record in Output(steps) {
      forall i | 0 <= i < |steps| ensures StandsIn(record, steps[i].store, l) {}
      assert StandsThroughout(record, steps, l);
      var r :| r in Output(steps) && l.SamePlace(record, r);
      var n := OutputIsGenuine(steps, NoToken, None, l, r);
      SamePlaceIsNotPast(record, r, l);
    }
    forall record | record in Output(steps) ensures record in full {
      var n := OutputIsGenuine(steps, NoToken, None, l, record);
    }
    AscendingUnique(Output(steps), full, l);
  }

  /** The number of pages of `n` rows. */
  function Pages(n: nat, size: nat): nat
    requires size >= 1
  {
    if n <= size then 1 else 1 + Pages(n - size, size)
  }

  lemma {:induction false} PagesIsCeiling(n: nat, size: nat)
    requires size >= 1
    ensures n > 0 ==> (Pages(n, size) - 1) * size < n <= Pages(n, size) * size
    ensures n == 0 ==> Pages(n, size) == 1
  {
    if n > size {
      PagesIsCeiling(n - size, size);
    }
  }

  /** A matching record still to come. */
  ghost predicate More(store: set<Record>, last: Option<Record>, l: Listing) {
    exists record :: record in store && l.Matches(record) && Ahead(record, last, l)
  }

  /** While there is more to come a page is not empty, and a full page leaves more. */
  lemma PageTakesSome(step: Step, last: Option<Record>, l: Listing)
    requires Advances(step, last, l)
    ensures More(step.store, last, l) ==> step.page != []
    ensures LeavesTheRest(step, last, l) ==> More(step.store, Some(Last(step.page)), l)
  {
    if LeavesTheRest(step, last, l) {
      var probe :| probe in step.store && l.Matches(probe) && l.Past(probe, Last(step.page));
      assert Ahead(probe, Some(Last(step.page)), l);
    }
  }

  /** One store and one page size for the whole run. */
  ghost predicate Uniform(steps: seq<Step>, store: set<Record>, size: nat, l: Listing) {
    forall i :: 0 <= i < |steps| ==> steps[i].store == store && l.Size(steps[i].requested) == size
  }

  /** A run with more to come lists something. */
  lemma MoreIsListed(steps: seq<Step>, token: Token, last: Option<Record>, l: Listing)
    requires Sound(steps, l) && StartsAt(steps, token, last, l) && More(steps[0].store, last, l)
    ensures Output(steps) != []
  {
    FirstAdvances(steps, token, last, l);
    PageTakesSome(steps[0], last, l);
  }

  /** A full page that leaves more is followed by a page that takes some of it. */
  lemma NextIsListed(steps: seq<Step>, token: Token, last: Option<Record>, l: Listing)
    requires Sound(steps, l) && StartsAt(steps, token, last, l) && |steps| > 1 && steps[1].store == steps[0].store
    ensures |steps[0].page| == l.Size(steps[0].requested) && Output(steps[1..]) != []
  {
    RunStep(steps, token, last, l);
    PageTakesSome(steps[0], last, l);
    MoreIsListed(steps[1..], steps[0].next, Some(Last(steps[0].page)), l);
  }

  /** One more full page is one more page of the count. */
  lemma PagesStep(steps: seq<Step>, size: nat)
    requires |steps| > 1 && size >= 1 && |steps[0].page| == size && Output(steps[1..]) != []
    ensures Pages(|Output(steps)|, size) == 1 + Pages(|Output(steps[1..])|, size)
  {}

  lemma UniformTail(steps: seq<Step>, store: set<Record>, size: nat, l: Listing)
    requires steps != [] && Uniform(steps, store, size, l)
    ensures Uniform(steps[1..], store, size, l)
  {}

  lemma {:induction false} RunLength(steps: seq<Step>, token: Token, last: Option<Record>, store: set<Record>, size: nat, l: Listing)
    requires Sound(steps, l) && StartsAt(steps, token, last, l)
    requires size >= 1 && Uniform(steps, store, size, l)
    ensures |steps| == Pages(|Output(steps)|, size)
    decreases |steps|
  {
    if |steps| == 1 {
      assert Output(steps) == steps[0].page;
      PageWithinSize(steps[0], token, l);
    } else {
      NextIsListed(steps, token, last, l);
      PagesStep(steps, size);
      UniformTail(steps, store, size, l);
      RunStep(steps, token, last, l);
      RunLength(steps[1..], steps[0].next, Some(Last(steps[0].page)), store, size, l);
    }
  }

  lemma PageWithinSize(step: Step, token: Token, l: Listing)
    requires Served(step, token, l)
    ensures |step.page| <= l.Size(step.requested)
  {}

  /** A run over a store that does not change takes the ceiling of n/size pages, and one
      page when nothing matches. */
  lemma StaticRunLength(steps: seq<Step>, store: set<Record>, full: seq<Record>, size: nat, l: Listing)
    requires Sound(steps, l) && Run(steps, NoToken, l) && Finished(steps)
    requires size >= 1 && Uniform(steps, store, size, l)
    requires Lists(full, store, l)
    ensures full == [] ==> |steps| == 1
    ensures full != [] ==> (|steps| - 1) * size < |full| <= |steps| * size
  {
    StaticStore(steps, store, full, l);
    RunLength(steps, NoToken, None, store, size, l);
    PagesIsCeiling(|full|, size);
  }
}

/** Runs exist: the sort order arranges every store, a handler answers every token it
    minted, and the listing of a store that does not change ends. */
module PagingProgress {
  import opened Wrappers
  import opened Pagination
  import opened Ordering
  import opened CursorSeeking
  import opened Paging
  import opened PagingRuns
  import Predicates

  /** Rows told apart by their resource-name variables never tie, whatever the user sorts
      on: the appended key columns make every store pageable. */
  lemma KeysMakePageable(store: set<Record>, user: seq<Order>, keys: seq<string>, l: Listing)
    requires l.Valid() && l.orders == WithKeys(user, keys)
    requires forall record :: record in store ==>
               Recorded(record, l.columns) && forall key :: key in keys ==> key in record.keys
    requires forall a, b :: a in store && b in store && a != b ==> exists key :: key in keys && a.keys[key] != b.keys[key]
    ensures l.Pageable(store)
  {
    WithKeysIsComplete(user, keys);
    forall a, b | a in store && b in store && a != b ensures l.Past(a, b) || l.Past(b, a) {
      var key :| key in keys && a.keys[key] != b.keys[key];
      assert SortsOn(l.orders, key);
      var i :| 0 <= i < |l.orders| && l.orders[i].column == key;
      assert Holds(a, l.columns[i]) && Holds(b, l.columns[i]);
      RecordedIsKeyed(a, l);
      RecordedIsKeyed(b, l);
      TieBreakIsTotal(a.row, b.row, user, keys);
    }
  }

  ghost predicate Untied(records: set<Record>, l: Listing) {
    forall a, b :: a in records && b in records && a != b ==> l.Past(a, b) || l.Past(b, a)
  }

  lemma {:induction false} Least(records: set<Record>, l: Listing) returns (least: Record)
    requires records != {} && Untied(records, l)
    ensures least in records && forall record :: record in records && record != least ==> l.Past(record, least)
    decreases |records|
  {
    var any :| any in records;
    if records == {any} {
      least := any;
    } else {
      least := Least(records - {any}, l);
      if !l.Past(any, least) {
        forall record | record in records && record != any ensures l.Past(record, any) {
          if record != least {
            PastTransitive(record, least, any, l);
          }
        }
        least := any;
      }
    }
  }

  /** Every set of records without ties has its sorted listing. */
  lemma {:induction false} Arrange(records: set<Record>, l: Listing) returns (full: seq<Record>)
    requires Untied(records, l)
    ensures Ascending(full, l) && forall record :: record in full <==> record in records
    decreases |records|
  {
    if records == {} {
      full := [];
    } else {
      var least := Least(records, l);
      var rest := Arrange(records - {least}, l);
      full := [least] + rest;
      forall i, j | 0 <= i < j < |full| ensures l.Past(full[j], full[i]) {
        assert full[j] == rest[j - 1] && full[j] in rest;
      }
    }
  }

  lemma AscendingIsStrict(full: seq<Record>, l: Listing)
    requires l.Valid() && Ascending(full, l) && forall record :: record in full ==> Recorded(record, l.columns)
    ensures forall i, j :: 0 <= i < j < |full| ==> full[i] != full[j] && !l.Past(full[i], full[j])
  {
    forall i, j | 0 <= i < j < |full| ensures full[i] != full[j] && !l.Past(full[i], full[j]) {
      assert full[i] in full && full[j] in full;
      RecordedIsKeyed(full[i], l);
      RecordedIsKeyed(full[j], l);
      AfterAsymmetric(full[j].row, full[i].row, l.orders);
    }
  }

  /** The first rows of the sorted listing answer the query. */
  lemma FirstRowsAnswer(full: seq<Record>, store: set<Record>, where: Predicates.Predicate, limit: nat, l: Listing)
    requires l.Valid() && l.Pageable(store) && Ascending(full, l)
    requires forall record :: record in full <==> record in store && Selected(record, where)
    ensures Fetched(if |full| <= limit then full else full[..limit], store, where, limit, l)
  {
    var rows := if |full| <= limit then full else full[..limit];
    AscendingIsStrict(full, l);
    forall i | 0 <= i < |rows| ensures rows[i] in store && Selected(rows[i], where) {
      assert rows[i] == full[i] && full[i] in full;
    }
    forall record | record in store && Selected(record, where) && record !in rows
      ensures |rows| == limit && forall i :: 0 <= i < |rows| ==> !l.Past(rows[i], record)
    {
      var n :| 0 <= n < |full| && full[n] == record;
      assert n >= |rows|;
    }
  }

  lemma RowsExist(store: set<Record>, where: Predicates.Predicate, limit: nat, l: Listing) returns (rows: seq<Record>)
    requires l.Valid() && l.Pageable(store)
    ensures Fetched(rows, store, where, limit, l)
  {
    var full := Arrange((set record | record in store && Selected(record, where)), l);
    FirstRowsAnswer(full, store, where, limit, l);
    rows := if |full| <= limit then full else full[..limit];
  }

  /** Every token the handler minted gets an answer. */
  lemma {:induction false} AnswerExists(store: set<Record>, token: Token, last: Option<Record>, requested: nat, l: Listing) returns (step: Step)
    requires l.Valid() && l.Pageable(store) && (last.Some? ==> Recorded(last.value, l.columns)) && Resumes(token, last, l)
    ensures step.store == store && step.requested == requested && Served(step, token, l)
  {
    OwnTokenIsAccepted(token, last, requested, l);
    var page, seek := PageFrom(last, requested, l), SeekFrom(last, l);
    var rows := RowsExist(store, Where(l.filter, seek), page.FetchLimit(), l);
    var more := |rows| > page.size > 0;
    step := Step(store, requested, if |rows| <= page.size then rows else rows[..page.size],
                 if more then Encode(Cursor(rows[page.size - 1], l.columns), l.checksum) else NoToken);
    assert Answered(rows, step, page, seek, l);
  }

  /** The records a run resuming from `last` has still to list. */
  ghost function Remaining(store: set<Record>, last: Option<Record>, l: Listing): set<Record> {
    set record | record in store && l.Matches(record) && Ahead(record, last, l)
  }

  lemma PageShrinks(step: Step, last: Option<Record>, l: Listing)
    requires l.Valid() && l.Pageable(step.store) && Advances(step, last, l) && LeavesTheRest(step, last, l)
    ensures |Remaining(step.store, Some(Last(step.page)), l)| < |Remaining(step.store, last, l)|
  {
    var end := Last(step.page);
    assert end in step.page;
    var before, after := Remaining(step.store, last, l), Remaining(step.store, Some(end), l);
    forall record | record in after ensures record in before {
      if last.Some? {
        PastTransitive(record, end, last.value, l);
      }
    }
    SamePlaceIsNotPast(end, end, l);
    assert end in before && end !in after;
    Smaller(after, before, end);
  }

  lemma Smaller(part: set<Record>, whole: set<Record>, missing: Record)
    requires part <= whole && missing in whole && missing !in part
    ensures |part| < |whole|
  {
    assert part <= whole - {missing};
    Subset(part, whole - {missing});
  }

  lemma {:induction false} Subset(part: set<Record>, whole: set<Record>)
    requires part <= whole
    ensures |part| <= |whole|
  {
    if part != {} {
      var any :| any in part;
      Subset(part - {any}, whole - {any});
    }
  }

  /** A client that keeps following tokens over a store that does not change finishes. */
  lemma {:induction false} RunFinishes(store: set<Record>, token: Token, last: Option<Record>, requested: nat, l: Listing)
    returns (steps: seq<Step>)
    requires l.Valid() && l.Pageable(store) && l.Size(requested) >= 1
    requires (last.Some? ==> Recorded(last.value, l.columns)) && Resumes(token, last, l)
    ensures Run(steps, token, l) && Finished(steps)
    ensures forall i :: 0 <= i < |steps| ==> steps[i].store == store && steps[i].requested == requested
    decreases |Remaining(store, last, l)|
  {
    var step := AnswerExists(store, token, last, requested, l);
    ServedAdvances(step, token, last, l);
    if step.next.NoToken? {
      steps := [step];
    } else {
      NextStart(step, last, l);
      PageShrinks(step, last, l);
      var rest := RunFinishes(store, step.next, Some(Last(step.page)), requested, l);
      steps := [step] + rest;
      assert steps[1..] == rest;
    }
  }

  /** A page of size zero lists nothing and yet reports the listing as finished, so a run of
      such pages misses every record; this is the one size that breaks completeness. */
  lemma SizeZeroEndsTheListing(steps: seq<Step>, token: Token, l: Listing)
    requires Run(steps, token, l) && l.Size(steps[0].requested) == 0
    ensures |steps| == 1 && Finished(steps) && Output(steps) == []
  {
    assert steps[0].next.NoToken? && steps[0].page == [];
    assert Output(steps[1..]) == [];
  }
}

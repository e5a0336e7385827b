/** From the text of a filter to the rows the database selects. */
module EndToEnd {
  import opened Wrappers
  import opened Filters
  import opened Messages
  import opened Agreement
  import opened DeclarationsBuilding
  import Checker
  import Derivation
  import Matcher
  import Parsing
  import ParserSoundness
  import Grammar
  import Lexing
  import Printing
  import QuotedSegments
  import RoundTrip
  import SchemaBuilding
  import Soundness
  import Storage
  import Transpiler

  datatype Error = Unparsed(error: Parsing.ParseError) | Untyped

  /** `check`: parse a filter and type-check it against the declarations. */
  function CheckFilter(text: string, declarations: Declarations): Result<Expr, Error> {
    match Parsing.ParseFilter(text)
    case Err(error) => Err(Unparsed(error))
    case Ok(expr) => if Checker.Check(expr, declarations) then Ok(expr) else Err(Untyped)
  }

  /** A checked text means a tree the grammar derives from its own characters. Against
      derived declarations and schema the matcher evaluates it exactly when each comparison
      has a field and a literal there, as in a text without quoted segments where enum values
      and fields are told apart. Then what the database reads back from the rendered
      SQL and runs on the stored row is the matcher's truth on the message, unless a leaf
      reads a place where the two sides part. */
  lemma {:induction false} CheckedTextRunsAsMatched(text: string, pool: Pool, paths: seq<string>, w: World)
    returns (tree: Grammar.Expression, rest: seq<Lexing.Token>)
    requires CheckFilter(text, w.declarations).Ok?
    requires Derived(pool, w.message.descriptor, paths) == Ok(w.declarations)
    requires Derivation.PlainEnums(pool, w.message.descriptor, paths)
    requires w.schema.columns == SchemaBuilding.DerivedColumns(w.declarations)
    requires Conforms(w.message) && Derivation.Typed(pool, w.message) && Storage.Stores(w.row, w.schema, w.message)
    requires Transpiler.Transpile(CheckFilter(text, w.declarations).value, w.Transpiling()).Ok?
    ensures Grammar.DerivesExpression(tree, Grammar.Accepted) && text == Lexing.Values(Grammar.YieldExpression(tree) + rest)
    ensures ParserSoundness.AllSpace(rest)
    ensures Lexing.Tokens(text, 0).Ok?
            && (QuotedSegments.NoQuotedSegment(Lexing.Tokens(text, 0).value) && Soundness.EnumsTold(w) ==>
                  Soundness.Evaluable(Grammar.MeanExpression(tree), w))
    ensures var expr := Grammar.MeanExpression(tree);
            CheckFilter(text, w.declarations) == Ok(expr) && Transpiler.Transpile(expr, w.Transpiling()).Ok?
            && (Matcher.Eval(expr, w.Matching()).Ok? <==> Soundness.Evaluable(expr, w))
            && (Soundness.Evaluable(expr, w) && InStep(expr, w) ==>
                  Soundness.Queried(Transpiler.Transpile(expr, w.Transpiling()).value, w.row)
                  == Some(SqlTruth(Matcher.Eval(expr, w.Matching()).value)))
  {
    tree, rest := ParserSoundness.AcceptedFilterDerives(text);
    ParserSoundness.AcceptedTree(text);
    Derivation.DerivedFilterRunsAsMatched(pool, paths, w, Grammar.MeanExpression(tree));
    if QuotedSegments.NoQuotedSegment(Lexing.Tokens(text, 0).value) && Soundness.EnumsTold(w) {
      QuotedSegments.UnquotedFilterIsPlain(text);
      Derivation.DerivedIsConsistent(pool, paths, w);
      Soundness.PlainNamesSuffice(Grammar.MeanExpression(tree), w);
    }
  }

  /** Every well-typed canonical expression is reachable: its own spelling checks to it. */
  lemma CheckOfPrint(e: Expr, declarations: Declarations)
    requires Printing.Canonical(e)
    ensures CheckFilter(Printing.Print(e), declarations) == Ok(e) <==> Checker.Check(e, declarations)
  {
    RoundTrip.ParseOfPrint(e);
  }
}

/** A filtered, paginated listing: the two halves put together. */
module FilteredListing {
  import opened Wrappers
  import opened Filters
  import opened Agreement
  import opened CursorSeeking
  import opened Pagination
  import opened Paging
  import opened PagingRuns
  import opened PagingProgress
  import opened Schemas
  import Checker
  import Keyset
  import Matcher
  import Predicates
  import Rendering
  import Soundness
  import Sql
  import Transpiler

  /** What is declared of the resource and how it is stored. */
  datatype Service = Service(declarations: Declarations, schema: Schema, parse: string -> Option<real>) {
    function Context(): Transpiler.Context {
      Transpiler.Context(declarations, schema, parse)
    }

    /** A stored record as the filter's two evaluations see it. */
    function Seen(record: Record): World {
      World(declarations, schema, record.message, record.row, parse)
    }
  }

  /** The filter reads no place of a stored record where memory and database part. */
  ghost predicate Readable(expr: Expr, store: set<Record>, service: Service) {
    forall record :: record in store ==>
      var w := service.Seen(record);
      w.Consistent() && Soundness.Evaluable(expr, w) && InStep(expr, w)
  }

  /** The listing's WHERE comes from the filter. */
  ghost predicate FilteredBy(l: Listing, expr: Expr, service: Service) {
    Checker.Check(expr, service.declarations) && Transpiler.Transpile(expr, service.Context()) == Ok(l.filter)
  }

  predicate Accepts(expr: Expr, record: Record, service: Service) {
    Matcher.Matches(expr, service.Seen(record).Matching()) == Ok(true)
  }

  /** On a stored record the listing's filter and the matcher select alike. */
  lemma SelectedIsAccepted(expr: Expr, record: Record, l: Listing, service: Service)
    requires FilteredBy(l, expr, service) && Readable(expr, {record}, service)
    ensures l.Matches(record) <==> Accepts(expr, record, service)
  {
    var w := service.Seen(record);
    assert record in {record};
    Soundness.TranspiledEvaluatesExactly(expr, w);
    FilterAgrees(expr, w);
  }

  // ----- what a request sends -----

  lemma {:induction false} EqualitiesAreWellFormed(items: seq<Keyset.SeekItem>, last: Predicates.Predicate)
    requires last.Compare?
    ensures Rendering.AllWellFormed(Keyset.Equalities(items) + [last])
  {
    if items == [] {
      assert Keyset.Equalities(items) + [last] == [last];
      assert [last][1..] == [];
    } else {
      var all := Keyset.Equalities(items) + [last];
      assert all[1..] == Keyset.Equalities(items[1..]) + [last];
      EqualitiesAreWellFormed(items[1..], last);
    }
  }

  lemma {:induction false} BranchesAreWellFormed(items: seq<Keyset.SeekItem>, i: nat)
    requires i <= |items|
    ensures Rendering.AllWellFormed(Keyset.Branches(items, i))
    decreases |items| - i
  {
    if i < |items| {
      var parts := Keyset.Branch(items, i).parts;
      EqualitiesAreWellFormed(items[..i], parts[|parts| - 1]);
      assert parts == Keyset.Equalities(items[..i]) + [parts[|parts| - 1]];
      BranchesAreWellFormed(items, i + 1);
      assert Keyset.Branches(items, i)[1..] == Keyset.Branches(items, i + 1);
    }
  }

  lemma SeekIsWellFormed(items: seq<Keyset.SeekItem>)
    ensures Rendering.WellFormed(Keyset.KeysetSeek(items))
  {
    BranchesAreWellFormed(items, 0);
  }

  /** The WHERE of every request, rendered and read back, has its meaning. */
  lemma WhereIsQueried(record: Record, last: Option<Record>, l: Listing, expr: Expr, service: Service)
    requires l.Valid() && FilteredBy(l, expr, service)
    ensures Soundness.Queried(Where(l.filter, SeekFrom(last, l)), record.row)
         == Some(Predicates.Eval(Where(l.filter, SeekFrom(last, l)), record.row))
  {
    var where := Where(l.filter, SeekFrom(last, l));
    Soundness.TranspiledIsWellFormed(expr, service.Context());
    if last.Some? {
      SeekIsWellFormed(SeekItems(Cursor(last.value, l.columns), l.orders));
    }
    WhereIsWellFormed(l.filter, SeekFrom(last, l));
    Rendering.RenderedMeansThePredicate(where, record.row);
  }

  lemma WhereIsWellFormed(filter: Predicates.Predicate, seek: Option<Predicates.Predicate>)
    requires Rendering.WellFormed(filter) && (seek.Some? ==> Rendering.WellFormed(seek.value))
    ensures Rendering.WellFormed(Where(filter, seek))
  {
    var parts := Where(filter, seek).parts;
    assert parts[0] == filter;
    if seek.Some? {
      assert parts[1..] == [seek.value] && [seek.value][1..] == [];
      assert Rendering.AllWellFormed([seek.value]);
    } else {
      assert parts[1..] == [];
    }
    assert Rendering.AllWellFormed(parts);
  }

  /** What a request resuming from `last` fetches, by the SQL text it sends: the stored
      records behind `last` whose message the matcher accepts. */
  lemma {:induction false} RequestSelects(record: Record, last: Option<Record>, l: Listing, expr: Expr, service: Service)
    requires l.Valid() && FilteredBy(l, expr, service) && Readable(expr, {record}, service)
    requires Recorded(record, l.columns) && (last.Some? ==> Recorded(last.value, l.columns))
    ensures Soundness.Queried(Where(l.filter, SeekFrom(last, l)), record.row) == Some(Sql.True)
            <==> Accepts(expr, record, service) && Ahead(record, last, l)
  {
    WhereIsQueried(record, last, l, expr, service);
    SelectedIsAhead(record, last, l);
    SelectedIsAccepted(expr, record, l, service);
  }

  // ----- a whole listing -----

  lemma AcceptedAlike(expr: Expr, store: set<Record>, l: Listing, service: Service)
    requires FilteredBy(l, expr, service) && Readable(expr, store, service)
    ensures forall record :: record in store ==> (l.Matches(record) <==> Accepts(expr, record, service))
  {
    forall record | record in store ensures l.Matches(record) <==> Accepts(expr, record, service) {
      SelectedIsAccepted(expr, record, l, service);
    }
  }

  /** Following tokens to the end over a store that does not change lists exactly the records
      whose messages the matcher accepts, each once, in order. */
  lemma {:induction false} StaticListingIsWhatMatches(steps: seq<Step>, store: set<Record>, l: Listing, expr: Expr, service: Service)
    requires Sound(steps, l) && Run(steps, NoToken, l) && Finished(steps)
    requires forall i :: 0 <= i < |steps| ==> steps[i].store == store
    requires FilteredBy(l, expr, service) && Readable(expr, store, service)
    ensures Ascending(Output(steps), l)
    ensures forall record :: record in Output(steps) <==> record in store && Accepts(expr, record, service)
  {
    AcceptedAlike(expr, store, l, service);
    assert steps[0].store == store && l.Pageable(store);
    var matching := set record | record in store && l.Matches(record);
    var full := Arrange(matching, l);
    StaticStore(steps, store, full, l);
  }
}

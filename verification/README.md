# Proofs for the AIP list-query crates

This project models the list-query pipeline of the AIP crates and the small algorithms beside it,
and proves what they promise.

* **Filters.** A filter is lexed (`Lexer.dfy`, `Unescape.dfy`), parsed by backtracking recursive
  descent (`Grammar.dfy` is the grammar, `Parsing.dfy` what the parser finds, `Parser.dfy` the
  imperative parser proved to find it, `RoundTrip.dfy` and `Chains.dfy` what spellings parse to),
  type-checked (`Filter.dfy`), evaluated in memory with
  three-valued logic (`Message.dfy`, `Matcher.dfy`) or compiled to a SQL predicate
  (`Predicate.dfy`, `Transpile.dfy`) that is printed with minimal parentheses and numbered
  placeholders (`Dialect.dfy`). `Sql.dfy` is the reading of SQL the output is held against,
  `Reading.dfy` a grammar that reads the printed tokens back. `Agreement.dfy` proves that the same
  filter selects the same messages in memory and in the database, `Divergence.dfy` exactly when it
  does not, `EndToEnd.dfy` the chain from text to rows and from a filtered, paginated listing to
  the messages the matcher accepts.
* **Pagination.** Ordering with the key tie-break (`Order.dfy`), cursors, tokens and page splitting
  (`Pagination.dfy`), one request of a list handler (`Paging.dfy`) and whole runs over a store that
  may change between pages (`PagingRuns.dfy`).
* **Timestamps** (`Timestamp.dfy`): the closed-form calendar and the order of its text.
* **IAM policies** (`Policy.dfy`), **resource names** (`ResourceName.dfy`), **field masks**
  (`FieldMask.dfy`) and **CEL lowering** (`CelProto.dfy`).

Code that works by changing things step by step is a class or a method proved against a
specification function; the theorems are lemmas about those functions. Whole-program check:
`dafny verify dfyconfig.toml`.

Where the code departs from its documentation the model follows the code:

* The matcher reads a string operand of `:` under an unset submessage as false, SQL reads it as
  NULL, so a negation selects differently: `Divergence` proves exactly when the two agree.
* The key of a map with non-string keys is looked up as text in memory and as JSON text in the
  database (`Divergence.NonStringKeyAgreesExactly`, `Divergence.PortsDiverge`).
* A quoted segment that holds a dot names a column by its joined spelling and no field in memory,
  so the matcher refuses filters the database runs: `Soundness.TranspiledEvaluatesExactly`,
  `Divergence.SiteRefusesQuotedTail`.
* An enum value named like a field is that field in memory and a value to the checker and the
  database. So a checked filter can be refused as a comparison of two fields, and can fail on its
  operand types, which the checker is there to prevent: `Derivation.HostTellsApart` on derived
  declarations, `Divergence.NeverMismatchesExactly` for exactly when.
* The parser accepts a comma behind the last argument of a call, which the documented grammar does
  not derive (`TrailingCommas.DocumentedExactly`). It refuses whitespace before the closing
  parenthesis of a composite, which its own code means to allow (`RoundTrip.BracketedExactly`). A
  minus before a comparison negates the comparison, not the number (`RoundTrip.NegativeLeftNegates`).
* The timestamp text sorts by time only up to the year 9999.
* Removing a member revokes nothing when a second unconditional binding of the role repeats it
  (`Policies.DoubledStaysGranted`).
* The order of a mask's paths, though not what it reads, can decide whether a submessage is left
  set (`FieldMasks.TwoOrdersAgreeExactly`).
* A page of size zero, possible only by a misconfigured policy, ends a listing that is not finished.

## Model

| member | source | states |
|---|---|---|
| `EndToEnd.CheckedTextRunsAsMatched` | crates/aip-filtering/src/lib.rs:633-640 | a filter text that parses and checks means the tree the grammar derives from its own characters; on derived declarations and schema the matcher evaluates it exactly when every comparison has a field and a literal there and every `:` a field, as in every text without quoted segments where enum values and fields do not clash; and then the truth of its rendered, re-read SQL on the stored row is the matcher's, unless a leaf reads a place where the two sides part |
| `EndToEnd.CheckOfPrint` | crates/aip-filtering/src/lib.rs:633-640 | the canonical spelling of an expression passes parse-and-check to that expression exactly when the expression type-checks |
| `Agreement.FilterAgrees` | crates/aip-filtering/src/matcher.rs:178-439 | for any nesting of AND/OR/NOT, comparisons and `:`, when both sides accept the filter the predicate's three-valued SQL value on the row equals the matcher's truth, provided no leaf reads a string under an unset submessage with `:`, compares a non-string map key that is stored, or compares a dotted path, as one identifier, with an enum value named like a field that reads differently |
| `Agreement.HasAgreesExactly` | crates/aip-filtering/src/matcher.rs:322-371 | a single `:` test agrees between memory and SQL if and only if its operand is not a string under an unset submessage |
| `Agreement.CompareAgreesExactly` | crates/aip-sql/src/transpile.rs:100-124 | a comparison both sides accept, with its operands in either order, has the same truth on the column as on the message field if and only if neither operand is a member of a map with non-string keys that a stored key is spelled like, and, where each side takes for the literal what the other reads, as only `=` and `!=` on an enum can, the column holds the literal exactly where the field does |
| `Agreement.EvalCompareAgrees` | crates/aip-filtering/src/matcher.rs:279-288 | comparing a present field is comparing its stored cell with the bound literal; an absent one is unknown on both sides |
| `Agreement.ApplyIsCompared` | crates/aip-filtering/src/matcher.rs:290-320 | lowered operands compare in memory as their cells compare in SQL, for every operator |
| `Agreement.OperandAgrees` | crates/aip-sql/src/transpile.rs:173-195 | what the database binds is a literal in memory exactly when no field has its name; a column is a field in memory unless it is a dotted path as one identifier, and reads the field's value, except at a stored non-string key, where the field is absent in memory and the column is not NULL |
| `Agreement.SelectAgrees` | crates/aip-sql/src/transpile.rs:215-236 | the same for a dotted path or map member: both sides read the same place, save a stored non-string key |
| `Agreement.ResolvedPathRejoins` | crates/aip-filtering/src/matcher.rs:472-500 | a path that resolves in a message is the split of its own dotted spelling, so both sides look up the same name |
| `Agreement.MapMemberIsNoPath` | crates/aip-filtering/src/matcher.rs:406-439 | a map member is never also a field path |
| `Agreement.HasTestAgrees` | crates/aip-filtering/src/matcher.rs:322-371 | on a set field each `:` test (substring, map key, list element, presence) has the truth of the SQL test chosen for its type |
| `Agreement.ConnectivesAgree` | crates/aip-filtering/src/matcher.rs:207-233 | the matcher's and/or/not are SQL's minimum, maximum and reflection |
| `Divergence.SelectionAgreesExactly` | crates/aip-filtering/src/matcher.rs:322-439 | with the standard functions declared, every admitted filter selects the message exactly when it selects the row, if and only if no mapped string lies under an unset submessage, no map with non-string keys and comparable values holds an entry, and every dotted enum path and enum value named like a field that can be compared crosswise read alike |
| `Divergence.NegatedTestDiverges` | crates/aip-filtering/src/matcher.rs:322-345 | a mapped string path under an unset submessage makes a negated `:` test select in memory and not in the database |
| `Divergence.NonStringKeyAgreesExactly` | crates/aip-filtering/src/matcher.rs:406-439 | comparing a member of a map with non-string keys is unknown in memory; the transpiled comparison is unknown too exactly when no stored key is spelled that way |
| `Divergence.PortsDiverge` | crates/aip-filtering/src/matcher.rs:406-439 | a concrete host, row and filter `ports.7 = "echo"` that selects the row and not the message |
| `Divergence.QuotedTailIsRefused` | crates/aip-filtering/src/matcher.rs:406-439 | a mapped path whose tail is written as one quoted segment checks and transpiles, and the matcher refuses it with an unknown identifier once the head is set |
| `Divergence.SiteRefusesQuotedTail` | crates/aip-filtering/src/matcher.rs:406-439 | a concrete message, declarations and schema for `a."b.c" = "x"` |
| `Divergence.ShadowedValueExactly` | crates/aip-filtering/src/matcher.rs:383-398 | an enum value name binds as text in the database; in memory it is a literal exactly when the message has no field of that name |
| `Divergence.ShadowedValueIsRefused` | crates/aip-filtering/src/matcher.rs:260-277 | an enum place compared with a value named like a field passes the checker, transpiles and is refused in memory as a comparison of two fields |
| `Divergence.NeverMismatchesExactly` | crates/aip-filtering/src/checker.rs:13-77 | on a conforming message no checked filter meets a type error if and only if no identifier or path declared with an enum type reads a field that is no singular string, enum or timestamp while a literal of that enum can be compared with it |
| `Divergence.UnsetPlaceDiverges` | crates/aip-filtering/src/matcher.rs:322-345 | a concrete message, declarations, schema, row and filter on which memory and database part |
| `Soundness.CheckedNeverMismatches` | crates/aip-filtering/src/checker.rs:13-77 | a filter the checker accepts never reaches a type error on a conforming message, at any depth, when no enum value name reads a field of another kind |
| `Soundness.TranspiledEvaluatesExactly` | crates/aip-filtering/src/matcher.rs:103-115 | a checked filter that transpiles evaluates in memory exactly when each comparison has one field and one literal there, an enum place reading text, and each `:` a field: a mapped path is a field when no dotted segment comes before its first unset submessage, an enum value is a literal when no field has its name |
| `Soundness.PlainNamesSuffice` | crates/aip-filtering/src/matcher.rs:406-439 | a filter whose names hold no dot meets that condition wherever no column such a filter can compare with an enum value clashes with it: the value named like a field, or the column declared over a field of another kind |
| `Divergence.PlainFiltersEvaluateExactly` | crates/aip-filtering/src/matcher.rs:178-277 | every checked filter without dots in its names that transpiles evaluates in memory if and only if there is no such clash |
| `QuotedSegments.UnquotedFilterIsPlain` | crates/aip-filtering/src/parser.rs:363-384 | the expression of an accepted text in which no string token stands beside a dot holds no dot inside a name |
| `Soundness.TranspiledIsWellFormed` | crates/aip-sql/src/transpile.rs:42-98 | every transpiled predicate is one whose rendering can be read back |
| `Soundness.CheckedFilterRunsAsMatched` | crates/aip-sql/src/transpile.rs:21-33 | a checked filter that transpiles evaluates exactly under that condition, and then transpile, render, read back and run gives the matcher's truth unless a leaf reads a place where the two sides part |
| `Soundness.ScopedFilterSelects` | examples/freight-server/src/service.rs:898-922 | under a server scope joined by AND the row is selected exactly when the scope holds and the message matches |
| `Checker.CheckedCall` | crates/aip-filtering/src/checker.rs:47-77 | a call that checks has an overload whose parameter types are its argument types |
| `Checker.ResolvedOverload` | crates/aip-filtering/src/checker.rs:47-77 | the overload found is one of those declared for the name |
| `Matcher.Find` | crates/aip-filtering/src/matcher.rs:358-361 | the substring search says exactly whether the needle occurs |
| `Derivation.DerivedIsCoherent` | crates/aip-sql/src/schema.rs:87-101 | declarations and columns derived from a descriptor are coherent with every conforming message of it, also where enum values are named like fields |
| `Derivation.FieldsKeepSound` | crates/aip-filtering/src/lib.rs:443-472 | declaring derived fields keeps overloads standard and every identifier a field path, typed unless an enum value name took it over, or an enum value name |
| `Derivation.EnumKeepsSound` | crates/aip-filtering/src/lib.rs:399-428 | declaring an enum field keeps that invariant, whatever its values are named |
| `Derivation.RenameKeepsCoherence` | crates/aip-sql/src/schema.rs:166-176 | renaming a derived column keeps declarations, schema and message coherent |
| `Derivation.DerivedFilterRunsAsMatched` | crates/aip-filtering/src/lib.rs:216-225 | the whole chain from a descriptor: derive, check, transpile, render, read back and run gives the matcher's truth, for every filter the matcher evaluates that reads no place where the two sides part |
| `Derivation.DerivedDeclaresStandard` | crates/aip-filtering/src/lib.rs:299-359 | derived declarations keep every standard overload |
| `Derivation.DerivedSelectionAgreesExactly` | crates/aip-filtering/src/matcher.rs:322-439 | with derived declarations and schema, every admitted filter selects alike in memory and in the database if and only if no declared string lies under an unset submessage, no comparable map with non-string keys holds an entry, and whatever is read crosswise reads alike |
| `Derivation.HostTellsApart` | crates/aip-filtering/src/matcher.rs:260-320 | a concrete host, with the declarations derived for its enum field: `kind = ACTIVE` checks and is a mismatch error in memory, `state = kind` checks, transpiles and is refused as a comparison of two fields |
| `DeclarationsBuilding.DeclarationsBuilder.Fields` | crates/aip-filtering/src/lib.rs:443-472 | an earlier failure stands and derives nothing; otherwise the state is the fold of declaring each resolved path, or the first path that does not resolve, or the missing descriptor |
| `DeclarationsBuilding.Derive` | crates/aip-filtering/src/lib.rs:443-504 | building for a message, declaring the standard functions and the fields, gives the declarations the specification derives or its first error |
| `DeclarationsBuilding.DeclarationsBuilder.EnumIdent` | crates/aip-filtering/src/lib.rs:399-428 | declares the identifier, its two equality overloads and every value name |
| `DeclarationsBuilding.DeclarationsBuilder.StandardFunctions` | crates/aip-filtering/src/lib.rs:299-359 | appends the standard overloads to each standard name |
| `SchemaBuilding.SchemaBuilder.ForDeclarations` | crates/aip-sql/src/schema.rs:87-101 | one column per declared path with its type, sortable exactly for scalars and timestamps |
| `SchemaBuilding.SchemaBuilder.Build` | crates/aip-sql/src/schema.rs:190-205 | types are re-keyed onto columns: each typed path's column has a type, and only such types appear |
| `Dialect.Render` | crates/aip-sql/src/dialect.rs:31-39 | the rendered text is the spelling of the predicate's token list and the binds are its values in order |
| `Dialect.Statement.WriteNode` | crates/aip-sql/src/dialect.rs:41-119 | writing a node appends exactly its tokens and its binds to the shared buffers |
| `Dialect.Statement.WriteChild` | crates/aip-sql/src/dialect.rs:141-157 | a child is parenthesised exactly when it binds weaker than its parent |
| `Dialect.Statement.WriteJoin` | crates/aip-sql/src/dialect.rs:159-178 | a list of children is written with the connective between them |
| `Dialect.Statement.WriteTuple` | crates/aip-sql/src/dialect.rs:94-119 | a tuple comparison writes the columns, then one placeholder per value, numbered on |
| `Dialect.EscapeLike` | crates/aip-sql/src/dialect.rs:221-230 | the loop escapes exactly `%`, `_` and the backslash |
| `Escaping.EscapedPatternIsSubstring` | crates/aip-sql/src/dialect.rs:195-198 | for every needle and text, LIKE on the escaped needle between percent signs is the case-folded substring test |
| `Rendering.ReadableIffWellFormed` | crates/aip-sql/src/dialect.rs:31-178 | a rendering is readable in the SQL grammar exactly when the predicate has no tuple of unequal or zero length |
| `Rendering.RenderedMeansThePredicate` | crates/aip-sql/src/dialect.rs:31-178 | the tokens read back by OR < AND < NOT < atom and run under the binds have the predicate's truth on every row |
| `Rendering.ExpressionBack` | crates/aip-sql/src/dialect.rs:141-178 | reading a rendered child, in any context that cannot extend it, gives back its clause and stops behind it |
| `Rendering.PlaceholdersAreConsecutive` | crates/aip-sql/src/dialect.rs:41-137 | the placeholder numbers read left to right are 1 up to the number of binds |
| `Predicates.MirrorSwaps` | crates/aip-sql/src/predicate.rs:60-69 | swapping operands and mirroring the operator changes no comparison, and mirroring twice is nothing |
| `Keyset.KeysetSeekIsStrictlyAfter` | crates/aip-sql/src/predicate.rs:252-290 | the seek holds on a non-null row exactly when the row follows the cursor in direction-aware lexicographic order, for any columns, directions and repetitions; without columns it holds on every row |
| `Keyset.FastFormAgrees` | crates/aip-sql/src/predicate.rs:265-271 | on an all-ascending key the row-value form and the OR-of-ANDs form agree |
| `Keyset.BranchFollows` | crates/aip-sql/src/predicate.rs:274-289 | one branch holds exactly when the row first differs at that column, in its direction |
| `Keyset.TupleFollows` | crates/aip-sql/src/predicate.rs:265-271 | the row-value comparison means strictly after |
| `Ordering.TranspileOrderBy` | crates/aip-sql/src/order.rs:109-148 | succeeds exactly when every path is mapped; the orders are the user's followed by the missing keys; each seek column is the same column with its path and type; otherwise the error names the first unmapped path |
| `Ordering.AppendKeys` | crates/aip-sql/src/order.rs:136-145 | the second loop appends exactly the key columns not already sorted on, ascending and text |
| `Ordering.WithKeysIsComplete` | crates/aip-sql/src/order.rs:99-107 | the user's orders stay in front, every key column is sorted on, nothing else is added |
| `Ordering.TieBreakIsTotal` | crates/aip-sql/src/order.rs:99-107 | rows that differ in some key column are ordered one way or the other, whatever the user sorts on |
| `Ordering.AfterTransitive` | crates/aip-sql/src/order.rs:109-148 | the row order of an ORDER BY list is transitive |
| `Ordering.AfterAsymmetric` | crates/aip-sql/src/order.rs:109-148 | no two keyed rows are each after the other, and none is after itself |
| `Pagination.ResolvedSizeIsWithinLimits` | crates/aip-pagination/src/lib.rs:525-540 | a size resolves exactly for non-negative requests, within the maximum and the request; it is zero exactly for a non-positive maximum or an unset request with a non-positive default |
| `Pagination.AcceptedExactlyWhenMinted` | crates/aip-pagination/src/lib.rs:364-378 | a decoded token yields a cursor exactly when it carries this version, that cursor and the checksum given |
| `Pagination.ChangedRequestIsRejected` | crates/aip-pagination/src/lib.rs:364-378 | a token carrying another checksum is a checksum mismatch |
| `Pagination.Page.SplitOverfetch` | crates/aip-pagination/src/lib.rs:503-518 | keeps the first rows up to the page size; a next token is minted, from the last kept row, exactly when there was a probe row and a kept row |
| `Pagination.WalksAgree` | crates/aip-pagination/src/lib.rs:312-333 | the crate's own path walk finds exactly what the filter matcher's finds |
| `CursorSeeking.MintedIsStored` | crates/aip-pagination/src/lib.rs:186-240 | the value minted for a column binds to the very cell the row stores and is accepted by the decode side |
| `Paging.MintedFits` | examples/freight-server/src/service.rs:924-956 | a minted cursor always fits the ordering it was minted for |
| `Paging.OwnTokenIsAccepted` | crates/aip-pagination/src/lib.rs:454-466 | the handler accepts its own token and seeks from the row it was minted from |
| `Paging.SeekMeansPast` | crates/aip-sql/src/predicate.rs:252-290 | seeking on a minted cursor selects exactly the records that sort after the one it was minted from |
| `Paging.SelectedIsAhead` | examples/freight-server/src/service.rs:231-252 | a request selects exactly the matching records ahead of where it resumes |
| `Paging.ServedAdvances` | crates/aip-pagination/src/lib.rs:472-518 | every page is sorted, genuine and ahead of the last, and either leaves nothing behind or is full and resumes at its end with more to come |
| `PagingRuns.OutputAscends` | crates/aip-pagination/src/lib.rs:488-518 | by induction over the run: the output is strictly increasing and ahead of where the run started |
| `PagingRuns.OutputIsGenuine` | crates/aip-pagination/src/lib.rs:488-518 | every listed record stood in the store of its own request and matched the filter |
| `PagingRuns.OutputIsComplete` | crates/aip-pagination/src/lib.rs:488-518 | a finished run lists every resource that stood in every store it met |
| `PagingRuns.ChangingStore` | crates/aip-pagination/src/lib.rs:488-518 | over a store changed between pages: output strictly increasing, no resource twice, and when the token is empty every resource present throughout has been listed |
| `PagingRuns.StaticStore` | crates/aip-pagination/src/lib.rs:488-518 | on a store that does not change the pages put together are the full filtered, sorted listing |
| `PagingRuns.StaticRunLength` | crates/aip-pagination/src/lib.rs:488-518 | such a run takes the ceiling of n/size pages, and one page when nothing matches |
| `PagingRuns.AscendingUnique` | crates/aip-sql/src/order.rs:109-148 | a strictly sorted listing is determined by its members |
| `PagingProgress.KeysMakePageable` | crates/aip-sql/src/order.rs:99-107 | records told apart by their resource-name variables never tie under the appended keys |
| `PagingProgress.Arrange` | crates/aip-sql/src/order.rs:109-148 | every finite set of untied records has its sorted listing |
| `PagingProgress.AnswerExists` | crates/aip-pagination/src/lib.rs:454-518 | every token the handler minted gets an answer on every store |
| `PagingProgress.RunFinishes` | crates/aip-pagination/src/lib.rs:488-518 | a client following tokens over a store that does not change finishes |
| `PagingProgress.SizeZeroEndsTheListing` | crates/aip-pagination/src/lib.rs:503-518 | a page of size zero lists nothing and reports the listing finished |
| `FilteredListing.RequestSelects` | examples/freight-server/src/service.rs:231-252 | what the WHERE of a request, rendered and read back, selects is exactly the stored records behind its cursor whose messages the matcher accepts |
| `FilteredListing.StaticListingIsWhatMatches` | examples/freight-server/src/service.rs:231-252 | following tokens to the end over a store that does not change lists exactly the records whose messages the matcher accepts, each once, in order |
| `Timestamps.CivilFromDays` | crates/aip-sql/src/timestamp.rs:14-32 | the closed form gives a valid civil date whose day number is the given one |
| `Timestamps.CivilRoundTrip` | crates/aip-sql/src/timestamp.rs:14-32 | every valid date is recovered from its day number |
| `Timestamps.FormatFieldsAreCorrect` | crates/aip-sql/src/timestamp.rs:14-32 | the printed fields are a valid date and clock time that convert back to the seconds |
| `Timestamps.FormatKeepsOrder` | crates/aip-filtering/src/matcher.rs:622-643 | up to the year 9999 text order of two formatted timestamps is their numeric order |
| `Timestamps.OrderedExactlyUpToTheYear9999` | crates/aip-sql/src/timestamp.rs:14-32 | text order is time order on all seconds up to a bound exactly when the bound is at most the last second of 9999 |
| `Timestamps.FormatBreaksAfterTheYear9999` | crates/aip-sql/src/timestamp.rs:14-32 | the first second of 10000 sorts before earlier ones |
| `Lexing.Tokenize` | crates/aip-filtering/src/lexer.rs:15-25 | the loop returns the tokens the maximal-munch specification defines, or its error |
| `Lexing.Lexer.NextToken` | crates/aip-filtering/src/lexer.rs:58-88 | consumes exactly the lexeme at the cursor and places it at its byte offset |
| `Lexing.Lexer.QuotedString` | crates/aip-filtering/src/lexer.rs:108-127 | the scan with its escape flag ends where the string ends, or reports that it does not |
| `Lexing.LexingLosesNothing` | crates/aip-filtering/src/lexer.rs:15-25 | token values concatenate to the input, none is empty, and each offset is the number of bytes before it |
| `Lexing.OnlyOpenStringsFail` | crates/aip-filtering/src/lexer.rs:108-119 | the only lexical error is a string never closed, at the byte offset of its opening quote |
| `Lexing.StringEndIsFirstClosingQuote` | crates/aip-filtering/src/lexer.rs:108-127 | the scan stops behind the first matching quote with an even number of backslashes before it, and fails exactly when there is none |
| `Lexing.LexOfSpelling` | crates/aip-filtering/src/lexer.rs:15-25 | lexing the text of separable tokens gives them back at their offsets |
| `Unescaping.UnescapeToken` | crates/aip-filtering/src/token.rs:128-153 | the loop returns what the escape grammar defines, and the shortcut for bodies without a backslash changes nothing |
| `Unescaping.ReadDigits` | crates/aip-filtering/src/token.rs:189-225 | the digit loop reads the number its digits spell |
| `Unescaping.UnescapeOfQuote` | crates/aip-filtering/src/token.rs:128-183 | every text has a quoted spelling that unescapes to it |
| `Parsing.ParseExpression` | crates/aip-filtering/src/parser.rs:129-139 | an expression that is found consumes at least one token and ends within the list |
| `Parsing.ParseSequence` | crates/aip-filtering/src/parser.rs:142-155 | likewise for a sequence |
| `Parsing.ParseFactor` | crates/aip-filtering/src/parser.rs:158-167 | likewise for a factor |
| `Parsing.ParseTerm` | crates/aip-filtering/src/parser.rs:170-190 | likewise for a term |
| `Parsing.ParseSimple` | crates/aip-filtering/src/parser.rs:193-239 | likewise for a simple and a restriction |
| `Parsing.ParseComparable` | crates/aip-filtering/src/parser.rs:242-250 | likewise for a comparable |
| `Parsing.ParseFunction` | crates/aip-filtering/src/parser.rs:262-295 | likewise for a function |
| `Parsing.ParseNumber` | crates/aip-filtering/src/parser.rs:298-360 | likewise for a number |
| `Parsing.ParseMember` | crates/aip-filtering/src/parser.rs:363-384 | likewise for a member |
| `Parsers.Parse` | crates/aip-filtering/src/parser.rs:32-60 | the imperative parser returns the expression of the tree the grammar functions find, or the same kind of error |
| `Parsers.Parser.Eat` | crates/aip-filtering/src/parser.rs:96-108 | consumes exactly the given types or restores the cursor |
| `Parsers.Parser.ReadExpression` | crates/aip-filtering/src/parser.rs:129-139 | finds the AND-fold of the sequences of the tree at the cursor and stops behind it |
| `Parsers.Parser.ReadSequence` | crates/aip-filtering/src/parser.rs:142-155 | finds the FUZZY-fold of the factors and leaves a following AND to the expression |
| `Parsers.Parser.ReadFactor` | crates/aip-filtering/src/parser.rs:158-167 | finds the OR-fold of the terms |
| `Parsers.Parser.ReadTerm` | crates/aip-filtering/src/parser.rs:170-190 | finds the term with NOT or minus applied |
| `Parsers.Parser.ReadComposite` | crates/aip-filtering/src/parser.rs:202-209 | finds the parenthesised expression |
| `Parsers.Parser.ReadRestriction` | crates/aip-filtering/src/parser.rs:212-239 | finds the comparable or the comparison, with a bare identifier behind `:` as a string |
| `Parsers.Parser.ReadComparable` | crates/aip-filtering/src/parser.rs:242-250 | finds the first alternative that succeeds, restoring the cursor before each |
| `Parsers.Parser.ReadFunction` | crates/aip-filtering/src/parser.rs:262-295 | finds the dotted function call |
| `Parsers.Parser.ReadNumber` | crates/aip-filtering/src/parser.rs:298-305 | finds a float, else an integer |
| `Parsers.Parser.ReadMember` | crates/aip-filtering/src/parser.rs:363-384 | finds the identifier, the string or the selection chain |
| `ParserSpans.SpannedExpression` | crates/aip-filtering/src/parser.rs:129-139 | the tokens of the tree found are exactly the tokens consumed |
| `ParserSoundness.DerivedExpression` | crates/aip-filtering/src/parser.rs:6-18 | the tree found is one the accepted grammar derives: the documented one, optional whitespace aside, with a comma allowed behind the last argument |
| `ParserSoundness.ParsedNumber` | crates/aip-filtering/src/parser.rs:298-360 | a number found is the signed value of its digits |
| `ParserSoundness.ParsedMember` | crates/aip-filtering/src/parser.rs:363-384 | a member found is the selection chain of its tokens |
| `ParserSoundness.AcceptedFilterDerives` | crates/aip-filtering/src/parser.rs:32-60 | an accepted filter is, character for character, the tokens of a tree the accepted grammar derives, up to trailing whitespace, and means that tree's expression |
| `TrailingCommas.DocumentedExactly` | crates/aip-filtering/src/parser.rs:6-18 | an accepted filter, and its tree, is in the documented grammar (optional whitespace aside) exactly when no comma token stands, up to whitespace, in front of a closing parenthesis |
| `RoundTrip.TrailingCommaIsAccepted` | crates/aip-filtering/src/parser.rs:278-285 | a call of any one canonical argument with a comma behind it parses to the call and is not in the documented grammar |
| `RoundTrip.TimestampTakesComma` | crates/aip-filtering/src/parser.rs:278-285 | `timestamp("x",)` is such a filter |
| `ParserSoundness.NoSpaceBeforeParen` | crates/aip-filtering/src/parser.rs:202-209 | no composite the parser finds has whitespace in front of its closing parenthesis |
| `RoundTrip.BracketedExactly` | crates/aip-filtering/src/parser.rs:202-209 | brackets around a canonical expression, with or without whitespace behind the opening one, parse to the expression exactly when no whitespace stands in front of the closing one, else are a syntax error |
| `RoundTrip.SpacedBracketIsRefused` | crates/aip-filtering/src/parser.rs:202-209 | `(a)` and `( a)` parse, `( a )` is a syntax error |
| `Printing.PrintLexes` | crates/aip-filtering/src/lexer.rs:58-88 | the canonical spelling is cut back into its own tokens |
| `RoundTrip.ParseOfPrint` | crates/aip-filtering/src/parser.rs:32-60 | the canonical spelling of any expression built from connectives, negation, comparisons and calls over dotted paths with arbitrary segments, strings, 64-bit integers and decimal fractions parses to that expression |
| `RoundTrip.PairedTerms` | crates/aip-filtering/src/parser.rs:129-167 | two terms joined by OR, whitespace or AND parse to the connective over both |
| `Chains.WrittenParses` | crates/aip-filtering/src/parser.rs:129-167 | any number of terms joined by OR into groups, groups by whitespace into rows and rows by AND, without brackets, parse to nested left folds, OR innermost and AND outermost; a term is a canonical expression or a comparison or negation without its brackets |
| `Chains.ThreeTerms` | crates/aip-filtering/src/parser.rs:129-167 | `a OR b OR c` parses to `(a OR b) OR c`, and `a AND b OR c` to `a AND (b OR c)` |
| `RoundTrip.Parses` | crates/aip-filtering/src/parser.rs:170-255 | canonical tokens at any position parse to their expression as a term, a simple and an argument |
| `RoundTrip.NegativeLeftNegates` | crates/aip-filtering/src/parser.rs:170-190 | a comparison spelled with a negative number on its left parses to the negated comparison of its magnitude |
| `RoundTrip.NumberLeftRoundTripsExactly` | crates/aip-filtering/src/parser.rs:170-190 | a comparison with an integer or decimal fraction on its left survives the round trip exactly when that number is not negative |
| `CelConversion.Counter.Build` | crates/aip-filtering/src/cel_proto.rs:95-123 | returns the tree stamped from the counter and advances the counter by its number of nodes |
| `CelConversion.IdsAreConsecutive` | crates/aip-filtering/src/cel_proto.rs:95-123 | the ids in pre-order are exactly n up to n plus the size |
| `CelConversion.RaiseOfLower` | crates/aip-filtering/src/cel_proto.rs:174-224 | converting a lowered expression back gives the expression |
| `CelConversion.LowerOfRaise` | crates/aip-filtering/src/cel_proto.rs:174-224 | whatever converts to a native tree is, up to ids, what that tree lowers to |
| `Members.ParseOfShow` | crates/aip-iam/src/member.rs:31-61 | a rendered member parses back exactly when it is a wildcard or its value is not empty |
| `Members.ShowOfParse` | crates/aip-iam/src/member.rs:109-120 | whatever parses renders to the text it was parsed from |
| `Policies.Policy.Normalize` | crates/aip-iam/src/policy.rs:89-110 | leaves a canonical binding list with the same grants |
| `Policies.CanonicalUnique` | crates/aip-iam/src/policy.rs:89-128 | two canonical lists with the same grants are identical |
| `Policies.NormalFormsAgree` | crates/aip-iam/src/policy.rs:89-110 | policies normalise alike exactly when they grant the same; a policy is its own normal form exactly when it is canonical |
| `Policies.NormalizedStaysValid` | crates/aip-iam/src/policy.rs:180-187 | normalising never invalidates the version |
| `Policies.CanonicalVersionIsValid` | crates/aip-iam/src/policy.rs:158-187 | the recovered version validates, and a version validates exactly when it is 3 or nothing is conditional |
| `Policies.KeyIsIdentity` | crates/aip-iam/src/policy.rs:116-128 | the sort key determines role and condition |
| `Policies.GrantsOnlyOnGrants` | crates/aip-iam/src/policy.rs:204-210 | coarse membership depends only on what is granted, so normalising does not change it |
| `Policies.Policy.AddMember` | crates/aip-iam/src/policy.rs:34-53 | the new bindings are those of the specification of adding |
| `Policies.AddGrantsOne` | crates/aip-iam/src/policy.rs:34-53 | adding grants exactly one thing more |
| `Policies.AddTwice` | crates/aip-iam/src/policy.rs:34-53 | adding is idempotent |
| `Policies.Policy.RemoveMember` | crates/aip-iam/src/policy.rs:61-76 | the new bindings are those of the specification of removing |
| `Policies.RemoveRevokesExactly` | crates/aip-iam/src/policy.rs:61-76 | removing leaves all else granted, and the grant itself exactly when another unconditional binding of the role repeats it |
| `Policies.DoubledStaysGranted` | crates/aip-iam/src/policy.rs:61-76 | on a policy that binds role to member twice removing changes no grant |
| `Policies.RemoveFromCanonical` | crates/aip-iam/src/policy.rs:61-76 | on a canonical policy removing always revokes and keeps it canonical |
| `Policies.RemoveUndoesAddExactly` | crates/aip-iam/src/policy.rs:34-76 | removing undoes adding exactly when the member was not in the role's first unconditional binding and that binding, if any, was not empty |
| `Scanning.Scanner.Scan` | crates/aip-resourcename/src/lib.rs:653-689 | yields the next segment still to come, or none when there are none |
| `Scanning.NameSegments` | crates/aip-resourcename/src/lib.rs:341-348 | the segments are the slash-split of the part behind any service prefix or one leading slash |
| `DomainNames.IsDomainName` | crates/aip-resourcename/src/lib.rs:520-556 | the byte loop accepts exactly the DNS names |
| `DomainNames.LoopIsDomainName` | crates/aip-resourcename/src/lib.rs:520-556 | what the loop accepts is at most 253 characters without one trailing dot, split on dots into labels of 1 to 63 letters, digits, underscores and dashes with no dash at either end |
| `Patterns.ParsePattern` | crates/aip-resourcename/src/lib.rs:109-158 | the loop returns the segments the specification of parsing defines, or refuses |
| `Patterns.RenderOfParse` | crates/aip-resourcename/src/lib.rs:237-246 | a parsed pattern is well formed and renders to its text without the leading slash |
| `Patterns.ParseOfRender` | crates/aip-resourcename/src/lib.rs:109-158 | rendering a well-formed pattern and parsing it again gives it back |
| `Patterns.MatchName` | crates/aip-resourcename/src/lib.rs:166-192 | binds each variable to its segment when shape and literals match, else nothing |
| `Patterns.MatchWithWildcards` | crates/aip-resourcename/src/lib.rs:200-232 | matches exactly the names `match_name` matches, with the same bindings except that a dash binds nothing |
| `Patterns.Format` | crates/aip-resourcename/src/lib.rs:262-290 | joins the values when exactly the declared variables are given, else names the first unknown one in name order, or the first missing one in the pattern |
| `Patterns.FormatOfMatch` | crates/aip-resourcename/src/lib.rs:166-290 | formatting the captures of a matched name gives the name back, without service prefix or leading slash |
| `Patterns.MatchOfFormatExactly` | crates/aip-resourcename/src/lib.rs:166-290 | matching a formatted name gives the values back exactly when each is non-empty, slash-free and not wrapped in braces |
| `FieldMasks.NamedReads` | crates/aip-fieldmask/src/lib.rs:192-228 | one path changes exactly the leaves below it, to what the source reads there |
| `FieldMasks.MaskReads` | crates/aip-fieldmask/src/lib.rs:98-125 | a mask changes exactly the leaves under its paths, to what the source reads there |
| `FieldMasks.MaskTwice` | crates/aip-fieldmask/src/lib.rs:98-125 | applying a mask twice gives the very message applying it once gives, presence included, whatever paths it repeats or nests |
| `FieldMasks.MaskOverMask` | crates/aip-fieldmask/src/lib.rs:98-125 | a mask hides every mask applied before it whose paths it covers |
| `FieldMasks.MaskOrder` | crates/aip-fieldmask/src/lib.rs:98-125 | neither the order of a mask's paths nor their repetition changes any read |
| `FieldMasks.TwoOrdersAgreeExactly` | crates/aip-fieldmask/src/lib.rs:98-125 | two paths give the very same message in either order if and only if neither goes on below the submessage the other names through a submessage unset in the source |
| `FieldMasks.MergeReads` | crates/aip-fieldmask/src/lib.rs:167-184 | an empty mask changes exactly the leaves set on the source |
| `FieldMasks.MergeTwice` | crates/aip-fieldmask/src/lib.rs:167-184 | merging twice gives the very message merging once gives |
| `FieldMasks.UpdatedTwice` | crates/aip-fieldmask/src/lib.rs:98-125 | whatever the mask, empty, wildcard or paths, the same update a second time changes nothing |
| `FieldMasks.Target.Update` | crates/aip-fieldmask/src/lib.rs:98-125 | differing types are refused and change nothing; otherwise the target is merged, replaced or updated path by path |
| `FieldMasks.Target.MergeFields` | crates/aip-fieldmask/src/lib.rs:167-184 | the loop over the set fields yields the merge |
| `FieldMasks.PathExistsIn` | crates/aip-fieldmask/src/lib.rs:258-271 | the loop finds a path exactly when it resolves field by field |
| `FieldMasks.ValidPathApplies` | crates/aip-fieldmask/src/lib.rs:236-290 | a valid path names a field an update can reach exactly when it descends through no list or map |
| `FieldMasks.Validate` | crates/aip-fieldmask/src/lib.rs:236-252 | accepts exactly a lone wildcard or a mask of existing paths; an unknown-path error names one of them |

## Left out

- Error text, error positions of the parser and the mapping of errors to gRPC statuses: not modelled; errors keep their kind.
- Parsing of decimal durations to floats is a parameter (`parse`); floating point is exact reals, without NaN, infinities, 64-bit precision loss or the wrap of large unsigned integers.
- Splitting rendered SQL text back into tokens: the rendered text is proved to be the spelling of the token list, and reading is proved on that list; column names are taken not to be keywords.
- Raw SQL fragments are opaque atoms with a given truth on each row.
- SQLite's `->>` is a key lookup; keys starting with `$`, LIKE on cells that are not text and comparing JSON documents as text are not modelled.
- base64, postcard and CRC32: a page token is what its text decodes to, the checksum is a number given with each request; etags and their check are not modelled.
- Transcoding between generated types and dynamic messages, `update`, `matches` and the other typed facades.
- Oneofs, proto3 `optional` and groups: only singular submessages can be unset.
- Reading an unset submessage as a whole gives an empty message; only field masks give it its descriptor.
- Two copies of the timestamp formatter, in the SQL crate and in the matcher, are one function here.
- The first of several key columns with the same name: keys are a map from variable to value.
- Submessages updated in place are values: `FieldMasks.Target` replaces the tree it holds, so aliasing is not captured.
- Vectors sorted in place by the library are functions that return the sorted list.
- Methods, constructors and properties of resource names beyond scanning, matching, formatting and DNS names: `ancestor`, `has_parent`, `validate`, `validate_pattern` and revisions.
- `Declarations.build` panicking where `try_build` returns the deferred error.
- `sort_only`, `sortable_paths` and rendering of ORDER BY items and LIMIT: they would only add easy members.
- `order_by` splitting, `skip`, role parsing, CEL conditions, code generation and long-running operations: easy or external.
- Parsers.Parse: error positions are not part of the result; the three kinds of error are.
- RoundTrip.ParseOfPrint: function names are single plain words; a dotted function name is not printed.
- Derivation.DerivedIsCoherent: enum value names hold no dot, as protobuf identifiers cannot.
- FieldMasks.TwoOrdersAgreeExactly: two paths; when all orders of a longer mask give one message is not characterised.
- Pagination.AcceptedExactlyWhenMinted: the checksum is a number; that it tells two requests apart is not part of this model.
- Pagination.ChangedRequestIsRejected: likewise says a different checksum number is rejected, not a different request.

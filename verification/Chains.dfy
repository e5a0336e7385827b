/** Filters written without brackets: what any number of terms joined by OR, whitespace and
    AND parses to. */
module Chains {
  import opened Wrappers
  import opened Filters
  import opened Lexing
  import opened Grammar
  import opened Parsing
  import opened Parsers
  import opened Printing
  import opened RoundTrip

  /** A term: a canonical expression in its own spelling, or a comparison or negation without
      its brackets. */
  datatype Item = Item(e: Expr, bare: bool)

  predicate Negation(e: Expr) {
    e.Call? && e.name == NOT && |e.args| == 1
  }

  predicate Comparison(e: Expr) {
    e.Call? && OperatorOf(e.name).Some? && |e.args| == 2
  }

  ghost predicate Proper(item: Item) {
    Canonical(item.e) && (item.bare ==> Negation(item.e) || Comparison(item.e))
  }

  const NEGATION: seq<Spelled> := [Spelled(TokenType.Not, "NOT"), SPACE]

  ghost function ItemWords(item: Item): seq<Spelled> {
    if item.bare && Negation(item.e) then NEGATION + Words(item.e.args[0])
    else if item.bare && Comparison(item.e) then
      Words(item.e.args[0]) + [OperatorOf(item.e.name).value] + Words(item.e.args[1])
    else Words(item.e)
  }

  // ----- a whole filter: conjunctions of juxtapositions of disjunctions -----

  ghost predicate ProperItems(items: seq<Item>) {
    items != [] && forall i :: 0 <= i < |items| ==> Proper(items[i])
  }

  ghost predicate ProperGroups(groups: seq<seq<Item>>) {
    groups != [] && forall i :: 0 <= i < |groups| ==> ProperItems(groups[i])
  }

  ghost predicate ProperRows(rows: seq<seq<seq<Item>>>) {
    rows != [] && forall i :: 0 <= i < |rows| ==> ProperGroups(rows[i])
  }

  /** The parts with a connective between them. */
  ghost function Joined(parts: seq<seq<Spelled>>, name: string): seq<Spelled>
    requires parts != []
  {
    if |parts| == 1 then parts[0] else parts[0] + Between(name) + Joined(parts[1..], name)
  }

  /** The terms with OR between them. */
  ghost function OrWords(items: seq<Item>): seq<Spelled>
    requires items != []
  {
    Joined(seq(|items|, i requires 0 <= i < |items| => ItemWords(items[i])), OR)
  }

  /** Such groups with whitespace between them. */
  ghost function FuzzyWords(groups: seq<seq<Item>>): seq<Spelled>
    requires ProperGroups(groups)
  {
    Joined(seq(|groups|, i requires 0 <= i < |groups| => OrWords(groups[i])), FUZZY)
  }

  /** Such rows with AND between them. */
  ghost function AndWords(rows: seq<seq<seq<Item>>>): seq<Spelled>
    requires ProperRows(rows)
  {
    Joined(seq(|rows|, i requires 0 <= i < |rows| => FuzzyWords(rows[i])), AND)
  }

  /** The text of the filter. */
  ghost function Written(rows: seq<seq<seq<Item>>>): string
    requires ProperRows(rows)
  {
    Spelling(AndWords(rows))
  }

  /** The terms of a group, left-associated under OR. */
  function Disjunction(items: seq<Item>): Expr
    requires items != []
  {
    FoldLeft(seq(|items|, i requires 0 <= i < |items| => items[i].e), OR)
  }

  ghost function Juxtaposition(groups: seq<seq<Item>>): Expr
    requires ProperGroups(groups)
  {
    FoldLeft(seq(|groups|, i requires 0 <= i < |groups| => Disjunction(groups[i])), FUZZY)
  }

  /** Left-associated at every level, OR innermost and AND outermost. */
  ghost function Conjunction(rows: seq<seq<seq<Item>>>): Expr
    requires ProperRows(rows)
  {
    FoldLeft(seq(|rows|, i requires 0 <= i < |rows| => Juxtaposition(rows[i])), AND)
  }

  // ----- lexing -----

  lemma ItemShape(item: Item)
    requires Proper(item) && item.bare
    ensures Negation(item.e) ==> Canonical(item.e.args[0])
    ensures !Negation(item.e) ==>
              LeftSide(item.e.args[0]) && Canonical(item.e.args[1]) && !(item.e.name == HAS && item.e.args[1].Ident?)
  {
    CallShape(item.e.name, item.e.args);
    BracketedWords(item.e.name, item.e.args);
  }

  lemma ItemIsOperand(item: Item)
    requires Proper(item)
    ensures Operand(ItemWords(item))
  {
    if !item.bare {
      CanonicalIsOperand(item.e);
    } else {
      ItemShape(item);
      CanonicalIsOperand(item.e.args[0]);
      if Negation(item.e) {
        RunConcat(NEGATION, Words(item.e.args[0]));
      } else {
        CanonicalIsOperand(item.e.args[1]);
        OperatorIsJoint(item.e.name);
        Paired(Words(item.e.args[0]), [OperatorOf(item.e.name).value], Words(item.e.args[1]));
      }
    }
  }

  lemma {:induction false} JoinedIsOperand(parts: seq<seq<Spelled>>, name: string)
    requires Connective(name) && parts != [] && forall i :: 0 <= i < |parts| ==> Operand(parts[i])
    ensures Operand(Joined(parts, name))
  {
    if |parts| > 1 {
      JoinedIsOperand(parts[1..], name);
      BetweenIsJoint(name);
      Paired(parts[0], Between(name), Joined(parts[1..], name));
    }
  }

  lemma OrIsOperand(items: seq<Item>)
    requires ProperItems(items)
    ensures Operand(OrWords(items))
  {
    forall i | 0 <= i < |items| ensures Operand(ItemWords(items[i])) {
      ItemIsOperand(items[i]);
    }
    JoinedIsOperand(seq(|items|, i requires 0 <= i < |items| => ItemWords(items[i])), OR);
  }

  lemma FuzzyIsOperand(groups: seq<seq<Item>>)
    requires ProperGroups(groups)
    ensures Operand(FuzzyWords(groups))
  {
    forall i | 0 <= i < |groups| ensures Operand(OrWords(groups[i])) {
      OrIsOperand(groups[i]);
    }
    JoinedIsOperand(seq(|groups|, i requires 0 <= i < |groups| => OrWords(groups[i])), FUZZY);
  }

  lemma AndIsOperand(rows: seq<seq<seq<Item>>>)
    requires ProperRows(rows)
    ensures Operand(AndWords(rows))
  {
    forall i | 0 <= i < |rows| ensures Operand(FuzzyWords(rows[i])) {
      FuzzyIsOperand(rows[i]);
    }
    JoinedIsOperand(seq(|rows|, i requires 0 <= i < |rows| => FuzzyWords(rows[i])), AND);
  }

  // ----- parsing -----

  /** A term starts at the position. */
  predicate Opens(ts: seq<Token>, pos: nat) {
    Starts(ts, pos) || At(ts, pos, Not)
  }

  lemma NegationReads(ts: seq<Token>, pos: nat, e: Expr, end: nat)
    requires Canonical(e) && Here(ts, pos, NEGATION + Words(e)) && end == pos + |NEGATION + Words(e)| && Stops(ts, end)
    ensures At(ts, pos, Not) && TermAt(ts, pos) == Some((Call(NOT, [e]), end))
  {
    HereSplit(ts, pos, NEGATION, Words(e));
    HereFirst(ts, pos, NEGATION);
    HereFirst(ts, pos + 1, NEGATION[1..]);
    OperandReads(ts, pos + 2, e, end);
    PrefixedTerm(ts, pos);
  }

  lemma SideBySide(ts: seq<Token>, pos: nat, a: seq<Spelled>, op: Spelled, b: seq<Spelled>)
    requires Here(ts, pos, a + [op] + b)
    ensures Here(ts, pos, a) && At(ts, pos + |a|, op.ty) && Here(ts, pos + |a| + 1, b)
  {
    HereAround(ts, pos, a, [op], b);
    HereFirst(ts, pos + |a|, [op]);
  }

  lemma ComparisonItemReads(ts: seq<Token>, pos: nat, name: string, args: seq<Expr>, a: seq<Spelled>, b: seq<Spelled>, end: nat)
    requires OperatorOf(name).Some? && |args| == 2 && LeftSide(args[0]) && Canonical(args[1]) && !(name == HAS && args[1].Ident?)
    requires a == Words(args[0]) && b == Words(args[1]) && Here(ts, pos, a + [OperatorOf(name).value] + b)
    requires end == pos + |a| + 1 + |b| && Stops(ts, end)
    ensures Starts(ts, pos) && TermAt(ts, pos) == Some((Call(name, args), end))
  {
    var q := pos + |a|;
    SideBySide(ts, pos, a, OperatorOf(name).value, b);
    OperatorEnds(ts, q, name);
    SidesParse(ts, pos, q, q + 1, end, args, a, b);
    SidesCompared(ts, pos, name, args, q, end);
  }

  lemma OperatorEnds(ts: seq<Token>, q: nat, name: string)
    requires OperatorOf(name).Some? && At(ts, q, OperatorOf(name).value.ty)
    ensures Ends(ts, q)
  {}

  lemma SidesCompared(ts: seq<Token>, pos: nat, name: string, args: seq<Expr>, q: nat, end: nat)
    requires OperatorOf(name).Some? && |args| == 2 && !(name == HAS && args[1].Ident?)
    requires StartsLeft(ts, pos) && ComparableAt(ts, pos) == Some((args[0], q)) && At(ts, q, OperatorOf(name).value.ty)
    requires Starts(ts, q + 1) && ReadsAs(ts, q + 1, args[1], end)
    ensures TermAt(ts, pos) == Some((Call(name, args), end))
  {
    ComparisonTerm(ts, pos, name, args[0], q, args[1], end);
    assert args == [args[0], args[1]];
  }

  /** A term reads as its expression. */
  lemma ItemReads(ts: seq<Token>, pos: nat, item: Item, end: nat)
    requires Proper(item) && Here(ts, pos, ItemWords(item)) && end == pos + |ItemWords(item)| && Stops(ts, end)
    ensures Opens(ts, pos) && TermAt(ts, pos) == Some((item.e, end))
  {
    if !item.bare {
      OperandReads(ts, pos, item.e, end);
    } else {
      var args := item.e.args;
      ItemShape(item);
      if Negation(item.e) {
        NegationReads(ts, pos, args[0], end);
        assert args == [args[0]];
      } else {
        ComparisonItemReads(ts, pos, item.e.name, args, Words(args[0]), Words(args[1]), end);
      }
    }
  }

  lemma JointHere(ts: seq<Token>, pos: nat, a: seq<Spelled>, name: string, b: seq<Spelled>)
    requires Connective(name) && Here(ts, pos, a + Between(name) + b)
    ensures var q := pos + |a|;
            Here(ts, pos, a) && Here(ts, q, Between(name)) && Here(ts, q + |Between(name)|, b)
            && |a + Between(name) + b| == |a| + |Between(name)| + |b|
  {
    HereAround(ts, pos, a, Between(name), b);
  }

  /** What stands in front of a connective and the term behind it. */
  lemma JointStops(ts: seq<Token>, q: nat, name: string)
    requires Connective(name) && Here(ts, q, Between(name)) && Opens(ts, q + |Between(name)|)
    ensures Stops(ts, q) && At(ts, q, Whitespace)
    ensures name == OR ==> AtJoint(ts, q, Or) && !At(ts, q + 1, And)
    ensures name == AND ==> AtJoint(ts, q, And) && !AtJoint(ts, q, Or)
    ensures name == FUZZY ==> !AtJoint(ts, q, Or) && !At(ts, q + 1, And)
  {
    HereFirst(ts, q, Between(name));
    if name != FUZZY {
      HereFirst(ts, q + 1, Between(name)[1..]);
      HereFirst(ts, q + 2, Between(name)[1..][1..]);
    }
  }

  /** Where the first of several parts and the rest stand. */
  lemma JoinedHere(ts: seq<Token>, pos: nat, parts: seq<seq<Spelled>>, name: string, q: nat, r: nat, end: nat)
    requires Connective(name) && |parts| > 1 && Here(ts, pos, Joined(parts, name)) && end == pos + |Joined(parts, name)|
    requires q == pos + |parts[0]| && r == q + |Between(name)|
    ensures Here(ts, pos, parts[0]) && Here(ts, q, Between(name))
    ensures Here(ts, r, Joined(parts[1..], name)) && end == r + |Joined(parts[1..], name)|
  {
    JointHere(ts, pos, parts[0], name, Joined(parts[1..], name));
  }

  /** Wherever the words stand with nothing behind them that extends them, they read as the
      expression: as a term, as a group of an OR, as a row of whitespace. */
  ghost predicate ReadsTerm(ts: seq<Token>, words: seq<Spelled>, e: Expr) {
    forall p: nat :: Here(ts, p, words) && Stops(ts, p + |words|) ==>
      Opens(ts, p) && TermAt(ts, p) == Some((e, p + |words|))
  }

  ghost predicate ReadsFactor(ts: seq<Token>, words: seq<Spelled>, e: Expr) {
    forall p: nat :: Here(ts, p, words) && FactorStops(ts, p + |words|) ==>
      Opens(ts, p) && FactorAt(ts, p) == Some((e, p + |words|))
  }

  ghost predicate ReadsSequence(ts: seq<Token>, words: seq<Spelled>, e: Expr) {
    forall p: nat :: Here(ts, p, words) && SequenceStops(ts, p + |words|) ==>
      Opens(ts, p) && SequenceAt(ts, p) == Some((e, p + |words|))
  }

  predicate FactorStops(ts: seq<Token>, p: nat) {
    Stops(ts, p) && !AtJoint(ts, p, Or)
  }

  predicate SequenceStops(ts: seq<Token>, p: nat) {
    FactorStops(ts, p) && (At(ts, p, Whitespace) ==> At(ts, p + 1, And))
  }

  lemma OneDisjunct(ts: seq<Token>, pos: nat, words: seq<Spelled>, e: Expr, end: nat)
    requires ReadsTerm(ts, words, e) && Here(ts, pos, words) && end == pos + |words| && FactorStops(ts, end)
    ensures Opens(ts, pos) && DisjunctsAt(ts, pos) == Some(([e], end))
  {
    DisjunctsStep(ts, pos);
  }

  lemma OneMoreDisjunct(ts: seq<Token>, pos: nat, words: seq<Spelled>, exprs: seq<Expr>, q: nat, end: nat)
    requires exprs != [] && ReadsTerm(ts, words, exprs[0]) && Here(ts, pos, words) && q == pos + |words| && Here(ts, q, Between(OR))
    requires Opens(ts, q + 3) && DisjunctsAt(ts, q + 3) == Some((exprs[1..], end))
    ensures Opens(ts, pos) && DisjunctsAt(ts, pos) == Some((exprs, end))
  {
    JointStops(ts, q, OR);
    DisjunctsStep(ts, pos);
    assert exprs == [exprs[0]] + exprs[1..];
  }

  lemma OneFuzzy(ts: seq<Token>, pos: nat, words: seq<Spelled>, e: Expr, end: nat)
    requires ReadsFactor(ts, words, e) && Here(ts, pos, words) && end == pos + |words| && SequenceStops(ts, end)
    ensures Opens(ts, pos) && FuzziesAt(ts, pos) == Some(([e], end))
  {
    FuzziesStep(ts, pos);
  }

  lemma OneMoreFuzzy(ts: seq<Token>, pos: nat, words: seq<Spelled>, exprs: seq<Expr>, q: nat, end: nat)
    requires exprs != [] && ReadsFactor(ts, words, exprs[0]) && Here(ts, pos, words) && q == pos + |words| && Here(ts, q, Between(FUZZY))
    requires Opens(ts, q + 1) && FuzziesAt(ts, q + 1) == Some((exprs[1..], end))
    ensures Opens(ts, pos) && FuzziesAt(ts, pos) == Some((exprs, end))
  {
    JointStops(ts, q, FUZZY);
    assert FactorAt(ts, pos) == Some((exprs[0], q));
    FuzziesStep(ts, pos);
    assert exprs == [exprs[0]] + exprs[1..];
  }

  lemma OneConjunct(ts: seq<Token>, pos: nat, words: seq<Spelled>, e: Expr, end: nat)
    requires ReadsSequence(ts, words, e) && Here(ts, pos, words) && end == pos + |words| && end == |ts|
    ensures Opens(ts, pos) && ConjunctsAt(ts, pos) == Some(([e], end))
  {
    ConjunctsStep(ts, pos);
  }

  lemma OneMoreConjunct(ts: seq<Token>, pos: nat, words: seq<Spelled>, exprs: seq<Expr>, q: nat, end: nat)
    requires exprs != [] && ReadsSequence(ts, words, exprs[0]) && Here(ts, pos, words) && q == pos + |words| && Here(ts, q, Between(AND))
    requires Opens(ts, q + 3) && ConjunctsAt(ts, q + 3) == Some((exprs[1..], end))
    ensures Opens(ts, pos) && ConjunctsAt(ts, pos) == Some((exprs, end))
  {
    JointStops(ts, q, AND);
    ConjunctsStep(ts, pos);
    assert exprs == [exprs[0]] + exprs[1..];
  }

  /** Any number of terms joined by OR. */
  lemma {:induction false} DisjunctsRead(ts: seq<Token>, pos: nat, parts: seq<seq<Spelled>>, exprs: seq<Expr>, end: nat)
    requires |parts| == |exprs| > 0 && forall i :: 0 <= i < |parts| ==> ReadsTerm(ts, parts[i], exprs[i])
    requires Here(ts, pos, Joined(parts, OR)) && end == pos + |Joined(parts, OR)| && FactorStops(ts, end)
    ensures Opens(ts, pos) && DisjunctsAt(ts, pos) == Some((exprs, end))
    decreases |parts|
  {
    if |parts| == 1 {
      OneDisjunct(ts, pos, parts[0], exprs[0], end);
      assert exprs == [exprs[0]];
    } else {
      var q := pos + |parts[0]|;
      JoinedHere(ts, pos, parts, OR, q, q + 3, end);
      DisjunctsRead(ts, q + 3, parts[1..], exprs[1..], end);
      OneMoreDisjunct(ts, pos, parts[0], exprs, q, end);
    }
  }

  /** Any number of groups joined by whitespace. */
  lemma {:induction false} FuzziesRead(ts: seq<Token>, pos: nat, parts: seq<seq<Spelled>>, exprs: seq<Expr>, end: nat)
    requires |parts| == |exprs| > 0 && forall i :: 0 <= i < |parts| ==> ReadsFactor(ts, parts[i], exprs[i])
    requires Here(ts, pos, Joined(parts, FUZZY)) && end == pos + |Joined(parts, FUZZY)| && SequenceStops(ts, end)
    ensures Opens(ts, pos) && FuzziesAt(ts, pos) == Some((exprs, end))
    decreases |parts|
  {
    if |parts| == 1 {
      OneFuzzy(ts, pos, parts[0], exprs[0], end);
      assert exprs == [exprs[0]];
    } else {
      var q := pos + |parts[0]|;
      JoinedHere(ts, pos, parts, FUZZY, q, q + 1, end);
      FuzziesRead(ts, q + 1, parts[1..], exprs[1..], end);
      OneMoreFuzzy(ts, pos, parts[0], exprs, q, end);
    }
  }

  /** Any number of rows joined by AND, up to the end. */
  lemma {:induction false} ConjunctsRead(ts: seq<Token>, pos: nat, parts: seq<seq<Spelled>>, exprs: seq<Expr>, end: nat)
    requires |parts| == |exprs| > 0 && forall i :: 0 <= i < |parts| ==> ReadsSequence(ts, parts[i], exprs[i])
    requires Here(ts, pos, Joined(parts, AND)) && end == pos + |Joined(parts, AND)| == |ts|
    ensures Opens(ts, pos) && ConjunctsAt(ts, pos) == Some((exprs, end))
    decreases |parts|
  {
    if |parts| == 1 {
      OneConjunct(ts, pos, parts[0], exprs[0], end);
      assert exprs == [exprs[0]];
    } else {
      var q := pos + |parts[0]|;
      JoinedHere(ts, pos, parts, AND, q, q + 3, end);
      ConjunctsRead(ts, q + 3, parts[1..], exprs[1..], end);
      OneMoreConjunct(ts, pos, parts[0], exprs, q, end);
    }
  }

  lemma ItemReadsTerm(ts: seq<Token>, item: Item)
    requires Proper(item)
    ensures ReadsTerm(ts, ItemWords(item), item.e)
  {
    forall p: nat | Here(ts, p, ItemWords(item)) && Stops(ts, p + |ItemWords(item)|)
      ensures Opens(ts, p) && TermAt(ts, p) == Some((item.e, p + |ItemWords(item)|))
    {
      ItemReads(ts, p, item, p + |ItemWords(item)|);
    }
  }

  lemma GroupReadsFactor(ts: seq<Token>, items: seq<Item>)
    requires ProperItems(items)
    ensures ReadsFactor(ts, OrWords(items), Disjunction(items))
  {
    var parts := seq(|items|, i requires 0 <= i < |items| => ItemWords(items[i]));
    var exprs := seq(|items|, i requires 0 <= i < |items| => items[i].e);
    forall i | 0 <= i < |items| ensures ReadsTerm(ts, parts[i], exprs[i]) {
      ItemReadsTerm(ts, items[i]);
    }
    forall p: nat | Here(ts, p, OrWords(items)) && FactorStops(ts, p + |OrWords(items)|)
      ensures Opens(ts, p) && FactorAt(ts, p) == Some((Disjunction(items), p + |OrWords(items)|))
    {
      DisjunctsRead(ts, p, parts, exprs, p + |OrWords(items)|);
    }
  }

  lemma RowReadsSequence(ts: seq<Token>, groups: seq<seq<Item>>)
    requires ProperGroups(groups)
    ensures ReadsSequence(ts, FuzzyWords(groups), Juxtaposition(groups))
  {
    var parts := seq(|groups|, i requires 0 <= i < |groups| => OrWords(groups[i]));
    var exprs := seq(|groups|, i requires 0 <= i < |groups| => Disjunction(groups[i]));
    forall i | 0 <= i < |groups| ensures ReadsFactor(ts, parts[i], exprs[i]) {
      GroupReadsFactor(ts, groups[i]);
    }
    forall p: nat | Here(ts, p, FuzzyWords(groups)) && SequenceStops(ts, p + |FuzzyWords(groups)|)
      ensures Opens(ts, p) && SequenceAt(ts, p) == Some((Juxtaposition(groups), p + |FuzzyWords(groups)|))
    {
      FuzziesRead(ts, p, parts, exprs, p + |FuzzyWords(groups)|);
    }
  }

  lemma FilterReads(ts: seq<Token>, rows: seq<seq<seq<Item>>>)
    requires ProperRows(rows) && Here(ts, 0, AndWords(rows)) && |ts| == |AndWords(rows)|
    ensures ExpressionAt(ts, 0) == Some((Conjunction(rows), |ts|))
  {
    var parts := seq(|rows|, i requires 0 <= i < |rows| => FuzzyWords(rows[i]));
    var exprs := seq(|rows|, i requires 0 <= i < |rows| => Juxtaposition(rows[i]));
    forall i | 0 <= i < |rows| ensures ReadsSequence(ts, parts[i], exprs[i]) {
      RowReadsSequence(ts, rows[i]);
    }
    ConjunctsRead(ts, 0, parts, exprs, |ts|);
  }

  /** Terms joined by OR, whitespace and AND, any number at each level and no brackets:
      the filter parses to nested left folds, OR binding tightest and AND loosest. */
  lemma WrittenParses(rows: seq<seq<seq<Item>>>)
    requires ProperRows(rows)
    ensures ParseFilter(Written(rows)) == Ok(Conjunction(rows))
  {
    var words := AndWords(rows);
    AndIsOperand(rows);
    SpacedIsSeparable(words);
    LexOfSpelling(words);
    var ts := Placed(words, 0);
    PlacedHere(words, 0);
    NotTrimmed(ts, words);
    FilterReads(ts, rows);
    ParsedTokens(Written(rows), ts, Conjunction(rows));
  }

  // ----- three terms -----

  function Own(e: Expr): Item {
    Item(e, false)
  }

  lemma FoldOne(e: Expr, name: string)
    ensures FoldLeft([e], name) == e
  {
    assert [e][1..] == [];
  }

  lemma LoneItem(e: Expr)
    requires Canonical(e)
    ensures ProperItems([Own(e)]) && OrWords([Own(e)]) == Words(e) && Disjunction([Own(e)]) == e
  {
    assert seq(1, i requires 0 <= i < 1 => [Own(e)][i].e) == [e];
    FoldOne(e, OR);
  }

  lemma JoinedTwo(a: seq<Spelled>, b: seq<Spelled>, name: string)
    ensures Joined([a, b], name) == a + Between(name) + b
  {
    assert [a, b][1..] == [b];
  }

  lemma LoneGroup(items: seq<Item>)
    requires ProperItems(items)
    ensures ProperGroups([items]) && FuzzyWords([items]) == OrWords(items) && Juxtaposition([items]) == Disjunction(items)
  {
    assert seq(1, i requires 0 <= i < 1 => Disjunction([items][i])) == [Disjunction(items)];
    FoldOne(Disjunction(items), FUZZY);
  }

  lemma LoneRow(groups: seq<seq<Item>>)
    requires ProperGroups(groups)
    ensures ProperRows([groups]) && AndWords([groups]) == FuzzyWords(groups) && Conjunction([groups]) == Juxtaposition(groups)
  {
    assert seq(1, i requires 0 <= i < 1 => Juxtaposition([groups][i])) == [Juxtaposition(groups)];
    FoldOne(Juxtaposition(groups), AND);
  }

  lemma TwoItems(a: Expr, b: Expr)
    requires Canonical(a) && Canonical(b)
    ensures ProperItems([Own(a), Own(b)]) && OrWords([Own(a), Own(b)]) == Words(a) + Between(OR) + Words(b)
    ensures Disjunction([Own(a), Own(b)]) == Call(OR, [a, b])
  {
    var items := [Own(a), Own(b)];
    assert seq(|items|, i requires 0 <= i < |items| => ItemWords(items[i])) == [Words(a), Words(b)];
    assert seq(|items|, i requires 0 <= i < |items| => items[i].e) == [a] + [b];
    JoinedTwo(Words(a), Words(b), OR);
    FoldPair(a, b, OR);
  }

  lemma ThreeItems(a: Expr, b: Expr, c: Expr)
    requires Canonical(a) && Canonical(b) && Canonical(c)
    ensures var items := [Own(a), Own(b), Own(c)];
            ProperItems(items) && OrWords(items) == Words(a) + Between(OR) + (Words(b) + Between(OR) + Words(c))
            && Disjunction(items) == Call(OR, [Call(OR, [a, b]), c])
  {
    var items := [Own(a), Own(b), Own(c)];
    assert seq(|items|, i requires 0 <= i < |items| => ItemWords(items[i])) == [Words(a), Words(b), Words(c)];
    assert seq(|items|, i requires 0 <= i < |items| => items[i].e) == [a, b, c];
    assert [Words(a), Words(b), Words(c)][1..] == [Words(b), Words(c)];
    JoinedTwo(Words(b), Words(c), OR);
    FoldThree(a, b, c, OR);
  }

  lemma FoldThree(a: Expr, b: Expr, c: Expr, name: string)
    ensures FoldLeft([a, b, c], name) == Call(name, [Call(name, [a, b]), c])
  {
    assert [a, b, c][1..] == [b, c] && [b, c][1..] == [c] && [c][1..] == [];
    assert FoldFrom(Call(name, [a, b]), [c], name) == FoldFrom(Call(name, [Call(name, [a, b]), c]), [], name);
  }

  lemma TwoRows(left: seq<Item>, right: seq<Item>)
    requires ProperItems(left) && ProperItems(right)
    ensures ProperRows([[left], [right]])
    ensures AndWords([[left], [right]]) == OrWords(left) + Between(AND) + OrWords(right)
    ensures Conjunction([[left], [right]]) == Call(AND, [Disjunction(left), Disjunction(right)])
  {
    var rows := [[left], [right]];
    LoneGroup(left);
    LoneGroup(right);
    assert ProperGroups(rows[0]) && ProperGroups(rows[1]);
    assert seq(|rows|, i requires 0 <= i < |rows| => FuzzyWords(rows[i])) == [OrWords(left), OrWords(right)];
    assert seq(|rows|, i requires 0 <= i < |rows| => Juxtaposition(rows[i])) == [Disjunction(left)] + [Disjunction(right)];
    JoinedTwo(OrWords(left), OrWords(right), AND);
    FoldPair(Disjunction(left), Disjunction(right), AND);
  }

  /** `a OR b OR c` is `(a OR b) OR c`, and `a AND b OR c` is `a AND (b OR c)`. */
  lemma ThreeTerms(a: Expr, b: Expr, c: Expr)
    requires Canonical(a) && Canonical(b) && Canonical(c)
    ensures ParseFilter(Spelling(Words(a) + Between(OR) + (Words(b) + Between(OR) + Words(c))))
         == Ok(Call(OR, [Call(OR, [a, b]), c]))
    ensures ParseFilter(Spelling(Words(a) + Between(AND) + (Words(b) + Between(OR) + Words(c))))
         == Ok(Call(AND, [a, Call(OR, [b, c])]))
  {
    ThreeItems(a, b, c);
    LoneGroup([Own(a), Own(b), Own(c)]);
    LoneRow([[Own(a), Own(b), Own(c)]]);
    WrittenParses([[[Own(a), Own(b), Own(c)]]]);
    LoneItem(a);
    TwoItems(b, c);
    TwoRows([Own(a)], [Own(b), Own(c)]);
    WrittenParses([[[Own(a)]], [[Own(b), Own(c)]]]);
  }
}

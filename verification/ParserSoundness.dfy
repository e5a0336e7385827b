/** The tree the parser returns spans exactly the tokens it consumed. */
module ParserSpans {
  import opened Wrappers
  import opened Lexing
  import opened Grammar
  import opened Parsing

  // ----- nonterminal by nonterminal -----

  /** Adjacent slices put together. */
  lemma Regroup(ts: seq<Token>, a: nat, b: nat, c: nat, d: nat, e: nat)
    requires a <= b <= c <= d <= e <= |ts|
    ensures ts[a..b] + ts[b..c] + ts[c..d] + ts[d..e] == ts[a..e]
  {}

  lemma Regroup3(ts: seq<Token>, a: nat, b: nat, c: nat, d: nat)
    requires a <= b <= c <= d <= |ts|
    ensures ts[a..b] + ts[b..c] + ts[c..d] == ts[a..d]
  {}

  lemma Regroup2(ts: seq<Token>, a: nat, b: nat, c: nat)
    requires a <= b <= c <= |ts|
    ensures ts[a..b] + ts[b..c] == ts[a..c]
  {}

  lemma NothingAt(ts: seq<Token>, a: nat)
    requires a <= |ts|
    ensures ts[a..a] == []
  {}

  lemma SpanExpression(ts: seq<Token>, pos: nat, p: nat, q: nat, r: nat, end: nat, e: Expression)
    requires pos <= p <= q <= r <= end <= |ts|
    requires e.space == ts[pos..p] && YieldSequence(e.head) == ts[p..q] && e.joint == ts[q..r]
    requires e.tail.None? ==> q == r == end
    requires e.tail.Some? ==> YieldExpression(e.tail.value) == ts[r..end]
    ensures YieldExpression(e) == ts[pos..end]
  {
    Regroup(ts, pos, p, q, r, end);
    NothingAt(ts, end);
  }

  lemma SpanSequence(ts: seq<Token>, pos: nat, q: nat, r: nat, end: nat, s: Sequence)
    requires pos <= q <= r <= end <= |ts|
    requires YieldFactor(s.head) == ts[pos..q] && s.joint == ts[q..r]
    requires s.tail.None? ==> q == r == end
    requires s.tail.Some? ==> YieldSequence(s.tail.value) == ts[r..end]
    ensures YieldSequence(s) == ts[pos..end]
  {
    Regroup3(ts, pos, q, r, end);
    NothingAt(ts, end);
  }

  lemma SpanFactor(ts: seq<Token>, pos: nat, q: nat, r: nat, end: nat, f: Factor)
    requires pos <= q <= r <= end <= |ts|
    requires YieldTerm(f.head) == ts[pos..q] && f.joint == ts[q..r]
    requires f.tail.None? ==> q == r == end
    requires f.tail.Some? ==> YieldFactor(f.tail.value) == ts[r..end]
    ensures YieldFactor(f) == ts[pos..end]
  {
    Regroup3(ts, pos, q, r, end);
    NothingAt(ts, end);
  }

  lemma SpanArgs(ts: seq<Token>, pos: nat, h: nat, p: nat, q: nat, end: nat, a: Args)
    requires pos <= h <= p <= q <= end <= |ts| && a.Args?
    requires YieldArg(a.head) == ts[pos..h] && a.after == ts[h..p] && a.comma == ts[p..q] && YieldArgs(a.tail) == ts[q..end]
    ensures YieldArgs(a) == ts[pos..end]
  {
    Regroup(ts, pos, h, p, q, end);
  }

  lemma SpanFunction(ts: seq<Token>, pos: nat, name: nat, p: nat, q: nat, end: nat, c: Comparable)
    requires pos <= name <= p <= q <= end <= |ts| && c.Function?
    requires c.name == ts[pos..name] && c.open == ts[name..p] && YieldArgs(c.args) == ts[p..q] && c.close == ts[q..end]
    ensures YieldComparable(c) == ts[pos..end]
  {
    Regroup(ts, pos, name, p, q, end);
  }

  lemma {:induction false} SpannedExpression(ts: seq<Token>, pos: nat)
    requires pos <= |ts| && ParseExpression(ts, pos).Some?
    ensures var (e, end) := ParseExpression(ts, pos).value; YieldExpression(e) == ts[pos..end]
    decreases |ts| - pos, 9, 1
  {
    var p := SkipSpace(ts, pos);
    SpannedSequence(ts, p);
    var (head, q) := ParseSequence(ts, p).value;
    ExpressionStep(ts, pos, p, head, q);
    if AtJoint(ts, q, And) {
      SpannedConjuncts(ts, pos, p, head, q);
    } else {
      NothingAt(ts, q);
      SpanExpression(ts, pos, p, q, q, q, Expression(ts[pos..p], head, [], None));
    }
  }

  lemma {:induction false} SpannedConjuncts(ts: seq<Token>, pos: nat, p: nat, head: Sequence, q: nat)
    requires pos <= p < q && q + 3 <= |ts| && YieldSequence(head) == ts[p..q] && ParseExpression(ts, q + 3).Some?
    ensures var (tail, end) := ParseExpression(ts, q + 3).value;
            YieldExpression(Expression(ts[pos..p], head, ts[q..q + 3], Some(tail))) == ts[pos..end]
    decreases |ts| - pos, 9, 0
  {
    SpannedExpression(ts, q + 3);
    var (tail, end) := ParseExpression(ts, q + 3).value;
    SpanExpression(ts, pos, p, q, q + 3, end, Expression(ts[pos..p], head, ts[q..q + 3], Some(tail)));
  }

  lemma {:induction false} SpannedSequence(ts: seq<Token>, pos: nat)
    requires pos <= |ts| && ParseSequence(ts, pos).Some?
    ensures var (s, end) := ParseSequence(ts, pos).value; YieldSequence(s) == ts[pos..end]
    decreases |ts| - pos, 8
  {
    SpannedFactor(ts, pos);
    var (head, q) := ParseFactor(ts, pos).value;
    SequenceStep(ts, pos, head, q);
    if At(ts, q, Whitespace) && !At(ts, q + 1, And) {
      SpannedSequence(ts, q + 1);
      var (tail, end) := ParseSequence(ts, q + 1).value;
      SpanSequence(ts, pos, q, q + 1, end, Sequence(head, ts[q..q + 1], Some(tail)));
    } else {
      NothingAt(ts, q);
      SpanSequence(ts, pos, q, q, q, Sequence(head, [], None));
    }
  }

  lemma {:induction false} SpannedFactor(ts: seq<Token>, pos: nat)
    requires pos <= |ts| && ParseFactor(ts, pos).Some?
    ensures var (f, end) := ParseFactor(ts, pos).value; YieldFactor(f) == ts[pos..end]
    decreases |ts| - pos, 7
  {
    SpannedTerm(ts, pos);
    var (head, q) := ParseTerm(ts, pos).value;
    if AtJoint(ts, q, Or) {
      SpannedFactor(ts, q + 3);
      var (tail, end) := ParseFactor(ts, q + 3).value;
      SpanFactor(ts, pos, q, q + 3, end, Factor(head, ts[q..q + 3], Some(tail)));
    } else {
      NothingAt(ts, q);
      SpanFactor(ts, pos, q, q, q, Factor(head, [], None));
    }
  }

  lemma {:induction false} SpannedTerm(ts: seq<Token>, pos: nat)
    requires pos <= |ts| && ParseTerm(ts, pos).Some?
    ensures var (t, end) := ParseTerm(ts, pos).value; YieldTerm(t) == ts[pos..end]
    decreases |ts| - pos, 6
  {
    var p := pos + PrefixLength(ts, pos);
    SpannedSimple(ts, p);
    Regroup2(ts, pos, p, ParseTerm(ts, pos).value.1);
  }

  lemma {:induction false} SpannedSimple(ts: seq<Token>, pos: nat)
    requires pos <= |ts| && ParseSimple(ts, pos).Some?
    ensures var (s, end) := ParseSimple(ts, pos).value; YieldSimple(s) == ts[pos..end]
    decreases |ts| - pos, 5
  {
    var (s, end) := ParseSimple(ts, pos).value;
    if s.Grouped? {
      SpannedComposite(ts, pos);
    } else {
      SpannedComparable(ts, pos);
      var q := ParseComparable(ts, pos).value.1;
      if s.relation.Some? {
        SpannedRelation(ts, q);
        Regroup2(ts, pos, q, end);
      }
    }
  }

  function YieldRelation(r: Relation): seq<Token> {
    r.before + [r.comparator] + r.after + YieldArg(r.right)
  }

  lemma {:induction false} SpannedRelation(ts: seq<Token>, pos: nat)
    requires pos <= |ts| && ParseRelation(ts, pos).Some?
    ensures var (r, end) := ParseRelation(ts, pos).value;
            YieldRelation(r) == ts[pos..end]
    decreases |ts| - pos, 4
  {
    var (r, end) := ParseRelation(ts, pos).value;
    var p := SkipSpace(ts, pos);
    var q := SkipSpace(ts, p + 1);
    SpannedArg(ts, q);
    assert [r.comparator] == ts[p..p + 1];
    Regroup(ts, pos, p, p + 1, q, end);
  }

  lemma {:induction false} SpannedComposite(ts: seq<Token>, pos: nat)
    requires pos <= |ts| && ParseComposite(ts, pos).Some?
    ensures var (c, end) := ParseComposite(ts, pos).value; YieldComposite(c) == ts[pos..end]
    decreases |ts| - pos, 3
  {
    var end := ParseComposite(ts, pos).value.1;
    var p := SkipSpace(ts, pos + 1);
    SpannedExpression(ts, p);
    Regroup3(ts, pos, p, ParseExpression(ts, p).value.1, end);
  }

  lemma {:induction false} SpannedArg(ts: seq<Token>, pos: nat)
    requires pos <= |ts| && ParseArg(ts, pos).Some?
    ensures var (a, end) := ParseArg(ts, pos).value; YieldArg(a) == ts[pos..end]
    decreases |ts| - pos, 4
  {
    if At(ts, pos, LeftParen) {
      SpannedComposite(ts, pos);
    } else {
      SpannedComparable(ts, pos);
    }
  }

  lemma {:induction false} SpannedComparable(ts: seq<Token>, pos: nat)
    requires pos <= |ts| && ParseComparable(ts, pos).Some?
    ensures var (c, end) := ParseComparable(ts, pos).value; YieldComparable(c) == ts[pos..end]
    decreases |ts| - pos, 3
  {
    if ParseFunction(ts, pos).Some? {
      SpannedFunction(ts, pos);
    }
  }

  lemma FunctionParts(ts: seq<Token>, pos: nat) returns (name: nat, p: nat, args: Args, q: nat, end: nat)
    requires pos <= |ts| && ParseFunction(ts, pos).Some?
    ensures pos < name < p <= q < end <= |ts| && ParseArgs(ts, p) == Some((args, q))
    ensures ParseFunction(ts, pos) == Some((Function(ts[pos..name], ts[name..p], args, ts[q..end]), end))
  {
    name := NameEnd(ts, pos).value;
    p := SkipSpace(ts, name + 1);
    args, q := ParseArgs(ts, p).value.0, ParseArgs(ts, p).value.1;
    end := SkipSpace(ts, q) + 1;
    FunctionStep(ts, pos, name, args, q);
  }

  lemma {:induction false} SpannedFunction(ts: seq<Token>, pos: nat)
    requires pos <= |ts| && ParseFunction(ts, pos).Some?
    ensures var (c, end) := ParseFunction(ts, pos).value; YieldComparable(c) == ts[pos..end]
    decreases |ts| - pos, 2
  {
    var name, p, args, q, end := FunctionParts(ts, pos);
    SpannedArgs(ts, p);
    SpanFunction(ts, pos, name, p, q, end, Function(ts[pos..name], ts[name..p], args, ts[q..end]));
  }

  lemma {:induction false} SpannedArgs(ts: seq<Token>, pos: nat)
    requires pos <= |ts| && ParseArgs(ts, pos).Some?
    ensures var (a, end) := ParseArgs(ts, pos).value; YieldArgs(a) == ts[pos..end]
    decreases |ts| - pos, 5
  {
    var (a, end) := ParseArgs(ts, pos).value;
    if a.NoArgs? {
      NothingAt(ts, pos);
    } else {
      SpannedArg(ts, pos);
      var h := ParseArg(ts, pos).value.1;
      var p := SkipSpace(ts, h);
        if At(ts, p, Comma) {
        var q := SkipSpace(ts, p + 1);
        SpannedArgs(ts, q);
        SpanArgs(ts, pos, h, p, q, end, a);
      } else {
        NothingAt(ts, p);
        SpanArgs(ts, pos, h, p, p, end, a);
      }
    }
  }
}

/** Whatever the parser accepts derives from the grammar. */
module ParserSoundness {
  import opened Wrappers
  import opened Filters
  import opened Lexing
  import opened Grammar
  import opened Parsing
  import opened ParserSpans

  // ----- leaves -----

  lemma SpaceIsOptional(ts: seq<Token>, pos: nat)
    requires pos <= |ts|
    ensures OptionalSpace(ts[pos..SkipSpace(ts, pos)])
  {}

  lemma ParsedNumber(ts: seq<Token>, pos: nat)
    requires pos <= |ts| && ParseNumber(ts, pos).Some?
    ensures NumberLeaf(ts[pos..ParseNumber(ts, pos).value.1], ParseNumber(ts, pos).value.0)
  {
    var end := ParseNumber(ts, pos).value.1;
    var p := SkipMinus(ts, pos);
    var tokens := ts[pos..end];
    assert tokens[p - pos..] == ts[p..end];
    if ParseFloat(ts, pos).None? {
      assert ts[p..end] == [ts[p]];
    } else {
      assert FloatBody(ts[p..end]).Some?;
    }
    assert p == pos ==> !tokens[0].ty.Minus?;
  }

  lemma {:induction false} ParsedName(ts: seq<Token>, pos: nat)
    requires NameEnd(ts, pos).Some?
    ensures NameTokens(ts[pos..NameEnd(ts, pos).value])
    decreases |ts| - pos
  {
    var end := NameEnd(ts, pos).value;
    if At(ts, pos + 1, Dot) {
      ParsedName(ts, pos + 2);
      assert ts[pos..end][2..] == ts[pos + 2..end];
    }
  }

  lemma ExtendChain(tokens: seq<Token>, dot: Token, field: Token)
    requires MemberTokens(tokens) && Chain(tokens).Some? && dot.ty.Dot? && field.ty.IsField() && Unquote(field).Some?
    ensures MemberTokens(tokens + [dot, field])
    ensures Chain(tokens + [dot, field]) == Some(Select(Chain(tokens).value, Unquote(field).value))
  {
    assert (tokens + [dot, field])[..|tokens|] == tokens;
  }

  /** Selecting the fields from `pos` on finishes the chain read since `start`. */
  lemma {:induction false} ParsedFields(ts: seq<Token>, start: nat, pos: nat, operand: Expr)
    requires start < pos <= |ts| && ParseFields(ts, pos, operand).Some?
    requires MemberTokens(ts[start..pos]) && Chain(ts[start..pos]) == Some(operand)
    ensures var end := ParseFields(ts, pos, operand).value.1;
            MemberTokens(ts[start..end]) && Chain(ts[start..end]) == Some(ParseFields(ts, pos, operand).value.0)
            && (end > pos ==> end - start > 1)
    decreases |ts| - pos
  {
    if At(ts, pos, Dot) {
      ExtendChain(ts[start..pos], ts[pos], ts[pos + 1]);
      assert ts[start..pos + 2] == ts[start..pos] + [ts[pos], ts[pos + 1]];
      ParsedFields(ts, start, pos + 2, Select(operand, Unquote(ts[pos + 1]).value));
    }
  }

  lemma ParsedMember(ts: seq<Token>, pos: nat)
    requires pos <= |ts| && ParseMember(ts, pos).Some?
    ensures MemberLeaf(ts[pos..ParseMember(ts, pos).value.1], ParseMember(ts, pos).value.0)
  {
    assert ts[pos..pos + 1] == [ts[pos]];
    if At(ts, pos + 1, Dot) {
      ParsedFields(ts, pos, pos + 1, Ident(Unquote(ts[pos]).value));
      var end := ParseMember(ts, pos).value.1;
      assert end > pos + 1;
    }
  }

  // ----- nonterminal by nonterminal -----

  lemma {:induction false} DerivedExpression(ts: seq<Token>, pos: nat, e: Expression)
    requires pos <= |ts| && ParseExpression(ts, pos).Some? && e == ParseExpression(ts, pos).value.0
    ensures DerivesExpression(e, Accepted)
    decreases |ts| - pos, 9
  {
    var p := SkipSpace(ts, pos);
    SpaceIsOptional(ts, pos);
    DerivedSequence(ts, p);
    assert e.head == ParseSequence(ts, p).value.0 && e.space == ts[pos..p];
    if e.tail.Some? {
      DerivedExpression(ts, ParseSequence(ts, p).value.1 + 3, e.tail.value);
    }
  }

  lemma {:induction false} DerivedSequence(ts: seq<Token>, pos: nat)
    requires pos <= |ts| && ParseSequence(ts, pos).Some?
    ensures DerivesSequence(ParseSequence(ts, pos).value.0, Accepted)
    decreases |ts| - pos, 8
  {
    DerivedFactor(ts, pos);
    var (head, q) := ParseFactor(ts, pos).value;
    if At(ts, q, Whitespace) && !At(ts, q + 1, And) {
      DerivedSequence(ts, q + 1);
      assert DerivesSequence(Sequence(head, ts[q..q + 1], Some(ParseSequence(ts, q + 1).value.0)), Accepted);
    }
  }

  lemma {:induction false} DerivedFactor(ts: seq<Token>, pos: nat)
    requires pos <= |ts| && ParseFactor(ts, pos).Some?
    ensures DerivesFactor(ParseFactor(ts, pos).value.0, Accepted)
    decreases |ts| - pos, 7
  {
    DerivedTerm(ts, pos);
    var q := ParseTerm(ts, pos).value.1;
    if AtJoint(ts, q, Or) {
      DerivedFactor(ts, q + 3);
    }
  }

  lemma {:induction false} DerivedTerm(ts: seq<Token>, pos: nat)
    requires pos <= |ts| && ParseTerm(ts, pos).Some?
    ensures DerivesTerm(ParseTerm(ts, pos).value.0, Accepted)
    decreases |ts| - pos, 6
  {
    DerivedSimple(ts, pos + PrefixLength(ts, pos));
  }

  lemma {:induction false} DerivedSimple(ts: seq<Token>, pos: nat)
    requires pos <= |ts| && ParseSimple(ts, pos).Some?
    ensures DerivesSimple(ParseSimple(ts, pos).value.0, Accepted)
    decreases |ts| - pos, 5
  {
    if At(ts, pos, LeftParen) {
      DerivedComposite(ts, pos);
    } else {
      DerivedComparable(ts, pos);
      if ParseSimple(ts, pos).value.0.relation.Some? {
        DerivedRelation(ts, ParseComparable(ts, pos).value.1);
      }
    }
  }

  lemma {:induction false} DerivedRelation(ts: seq<Token>, pos: nat)
    requires pos <= |ts| && ParseRelation(ts, pos).Some?
    ensures var r := ParseRelation(ts, pos).value.0;
            OptionalSpace(r.before) && r.comparator.ty.IsComparator() && OptionalSpace(r.after) && DerivesArg(r.right, Accepted)
    decreases |ts| - pos, 4
  {
    var p := SkipSpace(ts, pos);
    SpaceIsOptional(ts, pos);
    SpaceIsOptional(ts, p + 1);
    DerivedArg(ts, SkipSpace(ts, p + 1));
  }

  lemma {:induction false} DerivedComposite(ts: seq<Token>, pos: nat)
    requires pos <= |ts| && ParseComposite(ts, pos).Some?
    ensures DerivesComposite(ParseComposite(ts, pos).value.0, Accepted)
    decreases |ts| - pos, 3
  {
    var p := SkipSpace(ts, pos + 1);
    var (body, end) := ParseExpression(ts, p).value;
    DerivedExpression(ts, p, body);
    var q := SkipSpace(ts, end);
    assert ParseComposite(ts, pos).value.0 == Composite(ts[pos..p], body, ts[end..q + 1]);
  }

  lemma {:induction false} DerivedArg(ts: seq<Token>, pos: nat)
    requires pos <= |ts| && ParseArg(ts, pos).Some?
    ensures DerivesArg(ParseArg(ts, pos).value.0, Accepted)
    decreases |ts| - pos, 4
  {
    if At(ts, pos, LeftParen) {
      DerivedComposite(ts, pos);
    } else {
      DerivedComparable(ts, pos);
    }
  }

  lemma {:induction false} DerivedComparable(ts: seq<Token>, pos: nat)
    requires pos <= |ts| && ParseComparable(ts, pos).Some?
    ensures DerivesComparable(ParseComparable(ts, pos).value.0, Accepted)
    decreases |ts| - pos, 3
  {
    if ParseFunction(ts, pos).Some? {
      DerivedFunction(ts, pos);
    } else if ParseNumber(ts, pos).Some? {
      ParsedNumber(ts, pos);
    } else {
      ParsedMember(ts, pos);
    }
  }

  lemma {:induction false} DerivedFunction(ts: seq<Token>, pos: nat)
    requires pos <= |ts| && ParseFunction(ts, pos).Some?
    ensures DerivesComparable(ParseFunction(ts, pos).value.0, Accepted)
    decreases |ts| - pos, 2
  {
    ParsedName(ts, pos);
    DerivedArgs(ts, SkipSpace(ts, NameEnd(ts, pos).value + 1));
  }

  lemma {:induction false} DerivedArgs(ts: seq<Token>, pos: nat)
    requires pos <= |ts| && ParseArgs(ts, pos).Some?
    ensures DerivesArgs(ParseArgs(ts, pos).value.0, Accepted)
    decreases |ts| - pos, 5
  {
    if !At(ts, pos, RightParen) {
      DerivedArg(ts, pos);
      var (head, h) := ParseArg(ts, pos).value;
      var p := SkipSpace(ts, h);
      SpaceIsOptional(ts, h);
      if At(ts, p, Comma) {
        var q := SkipSpace(ts, p + 1);
        DerivedArgs(ts, q);
        assert ParseArgs(ts, pos).value.0 == Args(head, ts[h..p], ts[p..q], ParseArgs(ts, q).value.0);
      }
    }
  }

  lemma TreeDerives(ts: seq<Token>, pos: nat, tree: Expression, end: nat)
    requires pos <= |ts| && ParseExpression(ts, pos) == Some((tree, end))
    ensures DerivesExpression(tree, Accepted)
  {
    DerivedExpression(ts, pos, tree);
  }

  lemma TreeSpans(ts: seq<Token>, pos: nat, tree: Expression, end: nat)
    requires pos <= |ts| && ParseExpression(ts, pos) == Some((tree, end))
    ensures end <= |ts| && YieldExpression(tree) == ts[pos..end]
  {
    SpannedExpression(ts, pos);
  }

  lemma AcceptedTree(filter: string)
    requires ParseFilter(filter).Ok?
    ensures Tokens(filter, 0).Ok? && ParseTree(filter).Ok?
    ensures ParseFilter(filter).value == MeanExpression(ParseTree(filter).value)
    ensures var ts := TrimEnd(Tokens(filter, 0).value); ParseExpression(ts, 0) == Some((ParseTree(filter).value, |ts|))
  {}

  predicate AllSpace(tokens: seq<Token>) {
    forall i :: 0 <= i < |tokens| ==> tokens[i].ty.Whitespace?
  }

  lemma TrimmedRest(tokens: seq<Token>) returns (rest: seq<Token>)
    ensures TrimEnd(tokens) + rest == tokens && AllSpace(rest)
  {
    rest := tokens[|TrimEnd(tokens)|..];
  }

  /** The tokens of an accepted filter are those of a tree the grammar derives, with only
      whitespace behind them, and the result is the expression that tree means. */
  lemma AcceptedTokensDerive(filter: string) returns (tree: Expression, rest: seq<Token>)
    requires ParseFilter(filter).Ok?
    ensures DerivesExpression(tree, Accepted) && ParseFilter(filter).value == MeanExpression(tree)
    ensures Tokens(filter, 0) == Ok(YieldExpression(tree) + rest) && AllSpace(rest)
  {
    AcceptedTree(filter);
    tree := ParseTree(filter).value;
    rest := AcceptedTreeDerives(filter);
  }

  lemma AcceptedTreeDerives(filter: string) returns (rest: seq<Token>)
    requires ParseFilter(filter).Ok?
    ensures ParseTree(filter).Ok? && DerivesExpression(ParseTree(filter).value, Accepted)
    ensures Tokens(filter, 0) == Ok(YieldExpression(ParseTree(filter).value) + rest) && AllSpace(rest)
  {
    AcceptedTree(filter);
    var tree := ParseTree(filter).value;
    var ts := TrimEnd(Tokens(filter, 0).value);
    TreeDerives(ts, 0, tree, |ts|);
    TreeSpans(ts, 0, tree, |ts|);
    assert ts[0..|ts|] == ts;
    rest := TrimmedRest(Tokens(filter, 0).value);
  }

  lemma TokensSpell(filter: string, tokens: seq<Token>)
    requires Tokens(filter, 0) == Ok(tokens)
    ensures filter == Values(tokens)
  {
    LexingLosesNothing(filter);
  }

  /** Soundness: an accepted filter is, character for character, the tokens of a tree the
      grammar derives, up to trailing whitespace. */
  lemma AcceptedFilterDerives(filter: string) returns (tree: Expression, rest: seq<Token>)
    requires ParseFilter(filter).Ok?
    ensures DerivesExpression(tree, Accepted) && ParseFilter(filter).value == MeanExpression(tree)
    ensures filter == Values(YieldExpression(tree) + rest) && AllSpace(rest)
  {
    tree, rest := AcceptedTokensDerive(filter);
    TokensSpell(filter, YieldExpression(tree) + rest);
  }

  // ----- what the parser never accepts although the grammar derives it -----

  /** A sequence never ends in front of whitespace, except the one before AND. */
  lemma {:induction false} SequenceTakesSpace(ts: seq<Token>, pos: nat)
    requires pos <= |ts| && ParseSequence(ts, pos).Some?
    ensures var end := ParseSequence(ts, pos).value.1; !At(ts, end, Whitespace) || At(ts, end + 1, And)
    decreases |ts| - pos
  {
    var q := ParseFactor(ts, pos).value.1;
    if At(ts, q, Whitespace) && !At(ts, q + 1, And) {
      SequenceTakesSpace(ts, q + 1);
    }
  }

  lemma ExpressionEnd(ts: seq<Token>, pos: nat, q: nat)
    requires pos <= |ts| && ParseExpression(ts, pos).Some?
    requires ParseSequence(ts, SkipSpace(ts, pos)).value.1 == q
    ensures q <= |ts| && pos < q
    ensures AtJoint(ts, q, And) ==> ParseExpression(ts, q + 3).Some?
                                    && ParseExpression(ts, pos).value.1 == ParseExpression(ts, q + 3).value.1
    ensures !AtJoint(ts, q, And) ==> ParseExpression(ts, pos).value.1 == q
  {}

  lemma {:induction false} ExpressionTakesSpace(ts: seq<Token>, pos: nat, end: nat)
    requires pos <= |ts| && ParseExpression(ts, pos).Some? && end == ParseExpression(ts, pos).value.1
    ensures !At(ts, end, Whitespace) || At(ts, end + 1, And)
    decreases |ts| - pos
  {
    var p := SkipSpace(ts, pos);
    SequenceTakesSpace(ts, p);
    var q := ParseSequence(ts, p).value.1;
    ExpressionEnd(ts, pos, q);
    if AtJoint(ts, q, And) {
      ExpressionTakesSpace(ts, q + 3, end);
    }
  }

  /** So the optional whitespace in front of a closing parenthesis is never there: a
      composite spelled with it is refused. */
  lemma NoSpaceBeforeParen(ts: seq<Token>, pos: nat)
    requires pos <= |ts| && ParseComposite(ts, pos).Some?
    ensures One(ParseComposite(ts, pos).value.0.close, RightParen)
  {
    var p := SkipSpace(ts, pos + 1);
    var end := ParseExpression(ts, p).value.1;
    ExpressionTakesSpace(ts, p, end);
    assert ts[end..end + 1] == [ts[end]];
  }
}

/** Where the parser accepts what the documented grammar does not derive: a comma behind
    the last argument of a call. */
module TrailingCommas {
  import opened Wrappers
  import opened Filters
  import opened Lexing
  import opened Grammar
  import opened Parsing
  import ParserSoundness

  /** A comma with nothing but whitespace between it and a closing parenthesis. */
  predicate CommaCloses(ts: seq<Token>, i: nat, j: nat) {
    i < j < |ts| && ts[i].ty.Comma? && ts[j].ty.RightParen? && forall k :: i < k < j ==> ts[k].ty.Whitespace?
  }

  ghost predicate TrailingComma(ts: seq<Token>) {
    exists i: nat, j: nat :: CommaCloses(ts, i, j)
  }

  predicate Quiet(ts: seq<Token>) {
    forall i :: 0 <= i < |ts| ==> !ts[i].ty.Comma?
  }

  /** Ends in a token that is neither a comma nor whitespace. */
  predicate Solid(ts: seq<Token>) {
    ts != [] && !ts[|ts| - 1].ty.Comma? && !ts[|ts| - 1].ty.Whitespace?
  }

  // ----- token lists put together -----

  lemma CommaShifts(a: seq<Token>, b: seq<Token>, i: nat, j: nat)
    requires |a| <= i && CommaCloses(a + b, i, j)
    ensures CommaCloses(b, i - |a|, j - |a|)
  {
    assert forall k :: |a| <= k < |a + b| ==> (a + b)[k] == b[k - |a|];
    forall k | i - |a| < k < j - |a| ensures b[k].ty.Whitespace? {
      assert (a + b)[k + |a|] == b[k];
    }
  }

  lemma CommaStays(a: seq<Token>, b: seq<Token>)
    requires TrailingComma(a) || TrailingComma(b)
    ensures TrailingComma(a + b)
  {
    assert forall k :: 0 <= k < |a| ==> (a + b)[k] == a[k];
    assert forall k :: 0 <= k < |b| ==> (a + b)[|a| + k] == b[k];
    if TrailingComma(a) {
      var i: nat, j: nat :| CommaCloses(a, i, j);
      assert CommaCloses(a + b, i, j);
    } else {
      var i: nat, j: nat :| CommaCloses(b, i, j);
      forall k | |a| + i < k < |a| + j ensures (a + b)[k].ty.Whitespace? {
        assert (a + b)[k] == b[k - |a|];
      }
      assert CommaCloses(a + b, |a| + i, |a| + j);
    }
  }

  lemma QuietHasNone(a: seq<Token>)
    requires Quiet(a)
    ensures !TrailingComma(a)
  {}

  lemma AfterQuiet(a: seq<Token>, b: seq<Token>)
    requires Quiet(a)
    ensures TrailingComma(a + b) <==> TrailingComma(b)
  {
    if TrailingComma(a + b) {
      var i: nat, j: nat :| CommaCloses(a + b, i, j);
      assert forall k :: 0 <= k < |a| ==> (a + b)[k] == a[k];
      assert i >= |a|;
      CommaShifts(a, b, i, j);
    } else if TrailingComma(b) {
      CommaStays(a, b);
    }
  }

  lemma AfterSolid(a: seq<Token>, b: seq<Token>)
    requires Solid(a)
    ensures TrailingComma(a + b) <==> TrailingComma(a) || TrailingComma(b)
  {
    if TrailingComma(a + b) {
      var i: nat, j: nat :| CommaCloses(a + b, i, j);
      if i >= |a| {
        CommaShifts(a, b, i, j);
      } else {
        assert (a + b)[|a| - 1] == a[|a| - 1];
        assert forall k :: 0 <= k < |a| ==> (a + b)[k] == a[k];
        assert j < |a|;
        assert CommaCloses(a, i, j);
      }
    } else if TrailingComma(a) || TrailingComma(b) {
      CommaStays(a, b);
    }
  }

  lemma SolidEnd(a: seq<Token>, b: seq<Token>)
    requires Solid(b)
    ensures Solid(a + b)
  {}

  /** Quiet tokens, a solid part, quiet tokens, and a rest. */
  lemma Parts(a: seq<Token>, b: seq<Token>, c: seq<Token>, d: seq<Token>)
    requires Quiet(a) && Solid(b) && Quiet(c)
    ensures TrailingComma(a + b + c + d) <==> TrailingComma(b) || TrailingComma(d)
  {
    assert a + b + c + d == a + (b + (c + d));
    AfterQuiet(a, b + (c + d));
    AfterSolid(b, c + d);
    AfterQuiet(c, d);
  }

  /** A list of the grammar: a head, and a tail behind a joint. */
  lemma ListParts(space: seq<Token>, head: seq<Token>, joint: seq<Token>, tail: seq<Token>)
    requires Quiet(space) && Solid(head) && Quiet(joint)
    requires if tail == [] then joint == [] else Solid(tail)
    ensures Solid(space + head + joint + tail)
    ensures TrailingComma(space + head + joint + tail) <==> TrailingComma(head) || TrailingComma(tail)
    ensures tail == [] ==> !TrailingComma(tail)
  {
    Parts(space, head, joint, tail);
    if tail == [] {
      assert space + head + joint + tail == space + head;
    }
  }

  lemma BareParts(head: seq<Token>, joint: seq<Token>, tail: seq<Token>)
    requires Solid(head) && Quiet(joint)
    requires if tail == [] then joint == [] else Solid(tail)
    ensures Solid(head + joint + tail)
    ensures TrailingComma(head + joint + tail) <==> TrailingComma(head) || TrailingComma(tail)
    ensures tail == [] ==> !TrailingComma(tail)
  {
    assert [] + head == head;
    ListParts([], head, joint, tail);
  }

  /** A comparison: an operand, a comparator that may have whitespace around it, another. */
  lemma ComparisonParts(left: seq<Token>, before: seq<Token>, comparator: Token, after: seq<Token>, right: seq<Token>)
    requires Solid(left) && Quiet(before) && !comparator.ty.Comma? && Quiet(after) && Solid(right)
    ensures Solid(left + (before + [comparator] + after + right))
    ensures TrailingComma(left + (before + [comparator] + after + right)) <==> TrailingComma(left) || TrailingComma(right)
  {
    var middle := before + [comparator] + after;
    AfterSolid(left, middle + right);
    AfterQuiet(middle, right);
    SolidEnd(middle, right);
    SolidEnd(left, middle + right);
  }

  /** A solid part between brackets. */
  lemma BracketParts(open: seq<Token>, body: seq<Token>, close: seq<Token>)
    requires Quiet(open) && Solid(body) && Quiet(close) && Solid(close)
    ensures Solid(open + body + close) && (TrailingComma(open + body + close) <==> TrailingComma(body))
  {
    assert open + body + [] + close == open + body + close;
    Parts(open, body, [], close);
    QuietHasNone(close);
    SolidEnd(open + body, close);
  }

  /** An argument, and what stands behind it up to the closing bracket. */
  lemma ArgParts(head: seq<Token>, after: seq<Token>, comma: seq<Token>, tail: seq<Token>, close: seq<Token>)
    requires Solid(head) && Quiet(after)
    ensures TrailingComma(head + after + comma + tail + close) <==> TrailingComma(head) || TrailingComma(comma + (tail + close))
    ensures (head + after + comma + tail + close)[0] == head[0]
  {
    assert head + after + comma + tail + close == [] + head + after + (comma + (tail + close));
    Parts([], head, after, comma + (tail + close));
  }

  // ----- leaves -----

  lemma {:induction false} NameIsQuiet(tokens: seq<Token>)
    requires NameTokens(tokens)
    ensures Quiet(tokens) && Solid(tokens)
  {
    if |tokens| > 1 {
      NameIsQuiet(tokens[2..]);
      assert tokens == tokens[..2] + tokens[2..];
    }
  }

  lemma {:induction false} MemberIsQuiet(tokens: seq<Token>)
    requires MemberTokens(tokens)
    ensures Quiet(tokens) && Solid(tokens) && !tokens[0].ty.Whitespace? && !tokens[0].ty.RightParen?
  {
    if |tokens| > 1 {
      MemberIsQuiet(tokens[..|tokens| - 2]);
    }
  }

  lemma LeafIsQuiet(tokens: seq<Token>, value: Expr)
    requires NumberLeaf(tokens, value) || MemberLeaf(tokens, value)
    ensures Quiet(tokens) && Solid(tokens) && !tokens[0].ty.Whitespace? && !tokens[0].ty.RightParen?
  {
    if NumberLeaf(tokens, value) {
      var body := if tokens[0].ty.Minus? then tokens[1..] else tokens;
      assert Quiet(body) && Solid(body);
    } else {
      MemberIsQuiet(tokens);
    }
  }

  // ----- nonterminal by nonterminal -----

  function ExpressionRest(e: Expression): seq<Token> {
    match e.tail case None => [] case Some(tail) => YieldExpression(tail)
  }

  function SequenceRest(s: Sequence): seq<Token> {
    match s.tail case None => [] case Some(tail) => YieldSequence(tail)
  }

  function FactorRest(f: Factor): seq<Token> {
    match f.tail case None => [] case Some(tail) => YieldFactor(tail)
  }

  lemma {:induction false} ExpressionExactly(e: Expression, rules: Rules)
    requires DerivesExpression(e, rules)
    ensures Solid(YieldExpression(e))
    ensures DerivesExpression(e, Accepted) && (DerivesExpression(e, Documented) <==> !TrailingComma(YieldExpression(e)))
  {
    SequenceExactly(e.head, rules);
    if e.tail.Some? {
      ExpressionExactly(e.tail.value, rules);
      AndIsQuiet(e.joint);
    }
    SpaceIsQuiet(e.space);
    ListParts(e.space, YieldSequence(e.head), e.joint, ExpressionRest(e));
  }

  lemma SpaceIsQuiet(tokens: seq<Token>)
    requires OptionalSpace(tokens)
    ensures Quiet(tokens)
  {}

  lemma AndIsQuiet(tokens: seq<Token>)
    requires Three(tokens, Whitespace, And, Whitespace)
    ensures Quiet(tokens)
  {}

  lemma {:induction false} SequenceExactly(s: Sequence, rules: Rules)
    requires DerivesSequence(s, rules)
    ensures Solid(YieldSequence(s))
    ensures DerivesSequence(s, Accepted) && (DerivesSequence(s, Documented) <==> !TrailingComma(YieldSequence(s)))
  {
    FactorExactly(s.head, rules);
    if s.tail.Some? {
      SequenceExactly(s.tail.value, rules);
    }
    BareParts(YieldFactor(s.head), s.joint, SequenceRest(s));
  }

  lemma {:induction false} FactorExactly(f: Factor, rules: Rules)
    requires DerivesFactor(f, rules)
    ensures Solid(YieldFactor(f))
    ensures DerivesFactor(f, Accepted) && (DerivesFactor(f, Documented) <==> !TrailingComma(YieldFactor(f)))
  {
    TermExactly(f.head, rules);
    if f.tail.Some? {
      FactorExactly(f.tail.value, rules);
    }
    BareParts(YieldTerm(f.head), f.joint, FactorRest(f));
  }

  lemma {:induction false} TermExactly(t: Term, rules: Rules)
    requires DerivesTerm(t, rules)
    ensures Solid(YieldTerm(t))
    ensures DerivesTerm(t, Accepted) && (DerivesTerm(t, Documented) <==> !TrailingComma(YieldTerm(t)))
  {
    SimpleExactly(t.simple, rules);
    AfterQuiet(t.prefix, YieldSimple(t.simple));
    SolidEnd(t.prefix, YieldSimple(t.simple));
  }

  lemma {:induction false} SimpleExactly(s: Simple, rules: Rules)
    requires DerivesSimple(s, rules)
    ensures Solid(YieldSimple(s))
    ensures DerivesSimple(s, Accepted) && (DerivesSimple(s, Documented) <==> !TrailingComma(YieldSimple(s)))
  {
    match s
    case Grouped(composite) => CompositeExactly(composite, rules);
    case Restricted(left, relation) =>
      ComparableExactly(left, rules);
      match relation {
        case None => assert YieldComparable(left) + [] == YieldComparable(left);
        case Some(r) =>
          ArgExactly(r.right, rules);
          ComparisonParts(YieldComparable(left), r.before, r.comparator, r.after, YieldArg(r.right));
      }
  }

  lemma {:induction false} CompositeExactly(c: Composite, rules: Rules)
    requires DerivesComposite(c, rules)
    ensures Solid(YieldComposite(c)) && YieldComposite(c)[0].ty.LeftParen?
    ensures DerivesComposite(c, Accepted) && (DerivesComposite(c, Documented) <==> !TrailingComma(YieldComposite(c)))
  {
    ExpressionExactly(c.body, rules);
    BracketParts(c.open, YieldExpression(c.body), c.close);
  }

  lemma {:induction false} ArgExactly(a: Arg, rules: Rules)
    requires DerivesArg(a, rules)
    ensures Solid(YieldArg(a)) && !YieldArg(a)[0].ty.Whitespace? && !YieldArg(a)[0].ty.RightParen?
    ensures DerivesArg(a, Accepted) && (DerivesArg(a, Documented) <==> !TrailingComma(YieldArg(a)))
  {
    match a
    case Plain(comparable) => ComparableExactly(comparable, rules);
    case Nested(composite) => CompositeExactly(composite, rules);
  }

  lemma {:induction false} ComparableExactly(c: Comparable, rules: Rules)
    requires DerivesComparable(c, rules)
    ensures Solid(YieldComparable(c)) && !YieldComparable(c)[0].ty.Whitespace? && !YieldComparable(c)[0].ty.RightParen?
    ensures DerivesComparable(c, Accepted) && (DerivesComparable(c, Documented) <==> !TrailingComma(YieldComparable(c)))
  {
    match c
    case Leaf(tokens, value) =>
      LeafIsQuiet(tokens, value);
      QuietHasNone(tokens);
    case Function(name, open, args, close) =>
      NameIsQuiet(name);
      ArgsExactly(args, rules, close);
      assert YieldComparable(c) == (name + open) + (YieldArgs(args) + close);
      AfterQuiet(name + open, YieldArgs(args) + close);
  }

  /** A comma at the end of the arguments, in front of the closing bracket. */
  lemma CommaAtEnd(comma: seq<Token>, close: seq<Token>)
    requires CommaTokens(comma) && (One(close, RightParen) || Two(close, Whitespace, RightParen))
    ensures TrailingComma(comma + close)
  {
    assert CommaCloses(comma + close, 0, |comma| + |close| - 1);
  }

  /** A comma in front of another argument closes nothing. */
  lemma CommaBetween(comma: seq<Token>, rest: seq<Token>)
    requires CommaTokens(comma) && rest != [] && !rest[0].ty.Whitespace? && !rest[0].ty.RightParen?
    ensures TrailingComma(comma + rest) <==> TrailingComma(rest)
  {
    if TrailingComma(comma + rest) {
      var i: nat, j: nat :| CommaCloses(comma + rest, i, j);
      assert (comma + rest)[|comma|] == rest[0];
      assert i >= |comma|;
      CommaShifts(comma, rest, i, j);
    } else if TrailingComma(rest) {
      CommaStays(comma, rest);
    }
  }

  lemma {:induction false} ArgsExactly(a: Args, rules: Rules, close: seq<Token>)
    requires DerivesArgs(a, rules) && (One(close, RightParen) || Two(close, Whitespace, RightParen))
    ensures a.Args? ==> YieldArg(a.head) != [] && YieldArgs(a) + close != [] && (YieldArgs(a) + close)[0] == YieldArg(a.head)[0]
                        && !YieldArg(a.head)[0].ty.Whitespace? && !YieldArg(a.head)[0].ty.RightParen?
    ensures DerivesArgs(a, Accepted) && (DerivesArgs(a, Documented) <==> !TrailingComma(YieldArgs(a) + close))
  {
    if a.NoArgs? {
      assert YieldArgs(a) + close == close;
      QuietHasNone(close);
    } else {
      ArgExactly(a.head, rules);
      ArgParts(YieldArg(a.head), a.after, a.comma, YieldArgs(a.tail), close);
      if a.tail.Args? {
        ArgsExactly(a.tail, rules, close);
        CommaBetween(a.comma, YieldArgs(a.tail) + close);
      } else {
        LastArg(a.comma, close);
      }
    }
  }

  /** Behind the last argument a comma, if there is one, closes the call. */
  lemma LastArg(comma: seq<Token>, close: seq<Token>)
    requires (comma == [] || CommaTokens(comma)) && (One(close, RightParen) || Two(close, Whitespace, RightParen))
    ensures TrailingComma(comma + ([] + close)) <==> comma != []
  {
    assert [] + close == close;
    if comma == [] {
      assert comma + close == close;
      QuietHasNone(close);
    } else {
      CommaAtEnd(comma, close);
    }
  }

  // ----- whole filters -----

  /** The tokens of a filter are those of a tree the rules derive, up to trailing
      whitespace. */
  ghost predicate InGrammar(filter: string, rules: Rules) {
    exists tree, rest ::
      DerivesExpression(tree, rules) && ParserSoundness.AllSpace(rest) && Tokens(filter, 0) == Ok(YieldExpression(tree) + rest)
  }

  lemma RestIsQuiet(tree: Expression, rules: Rules, rest: seq<Token>)
    requires DerivesExpression(tree, rules) && ParserSoundness.AllSpace(rest)
    ensures DerivesExpression(tree, Documented) <==> !TrailingComma(YieldExpression(tree) + rest)
  {
    ExpressionExactly(tree, rules);
    QuietHasNone(rest);
    AfterSolid(YieldExpression(tree), rest);
  }

  /** An accepted filter is in the documented grammar exactly when no comma stands, up to
      whitespace, in front of a closing parenthesis; and its tree derives in it exactly
      then. */
  lemma DocumentedExactly(filter: string)
    requires ParseFilter(filter).Ok?
    ensures Tokens(filter, 0).Ok? && ParseTree(filter).Ok?
    ensures InGrammar(filter, Documented) <==> !TrailingComma(Tokens(filter, 0).value)
    ensures DerivesExpression(ParseTree(filter).value, Documented) <==> !TrailingComma(Tokens(filter, 0).value)
  {
    var rest := ParserSoundness.AcceptedTreeDerives(filter);
    var tree := ParseTree(filter).value;
    RestIsQuiet(tree, Accepted, rest);
    if InGrammar(filter, Documented) {
      var other, space :| DerivesExpression(other, Documented) && ParserSoundness.AllSpace(space)
                          && Tokens(filter, 0) == Ok(YieldExpression(other) + space);
      RestIsQuiet(other, Documented, space);
    }
  }
}

/** A filter without quoted segments holds no dot inside a name. */
module QuotedSegments {
  import opened Wrappers
  import opened Filters
  import opened Lexing
  import opened Grammar
  import opened Parsing
  import ParserSoundness

  /** No string stands beside a dot, where it would be a segment of a member. */
  predicate NoQuotedSegment(ts: seq<Token>) {
    forall i :: 0 < i < |ts| ==> !(ts[i - 1].ty.Dot? && ts[i].ty.String?) && !(ts[i - 1].ty.String? && ts[i].ty.Dot?)
  }

  /** Only strings and the dot itself hold dots. */
  predicate Dotless(ts: seq<Token>) {
    forall i :: 0 <= i < |ts| && !ts[i].ty.String? && !ts[i].ty.Dot? ==> '.' !in ts[i].value
  }

  predicate PlainTokens(ts: seq<Token>) {
    NoQuotedSegment(ts) && Dotless(ts)
  }

  // ----- from text to tokens -----

  lemma LexemeIsDotless(s: string)
    requires s != [] && Lexeme(s).Some?
    ensures Lexeme(s).value.0.String? || Lexeme(s).value.0.Dot? || '.' !in s[..Lexeme(s).value.1]
  {}

  lemma {:induction false} TokensAreDotless(input: string, pos: nat)
    requires pos <= |input| && Tokens(input, pos).Ok?
    ensures Dotless(Tokens(input, pos).value)
    decreases |input| - pos
  {
    if pos < |input| {
      var (ty, n) := Lexeme(input[pos..]).value;
      LexemeIsDotless(input[pos..]);
      assert input[pos..][..n] == input[pos..pos + n];
      TokensAreDotless(input, pos + n);
    }
  }

  // ----- from tokens to trees -----

  lemma PlainParts(a: seq<Token>, b: seq<Token>)
    requires PlainTokens(a + b)
    ensures PlainTokens(a) && PlainTokens(b)
  {
    forall i | 0 <= i < |a| ensures (a + b)[i] == a[i] {}
    forall i | 0 <= i < |b| ensures (a + b)[|a| + i] == b[i] {}
    forall i | 0 < i < |b|
      ensures !(b[i - 1].ty.Dot? && b[i].ty.String?) && !(b[i - 1].ty.String? && b[i].ty.Dot?)
    {
      assert (a + b)[|a| + i - 1] == b[i - 1] && (a + b)[|a| + i] == b[i];
    }
  }

  lemma PlainMiddle(a: seq<Token>, b: seq<Token>, c: seq<Token>)
    requires PlainTokens(a + b + c)
    ensures PlainTokens(a) && PlainTokens(b) && PlainTokens(c)
  {
    PlainParts(a + b, c);
    PlainParts(a, b);
  }

  lemma PlainFour(a: seq<Token>, b: seq<Token>, c: seq<Token>, d: seq<Token>)
    requires PlainTokens(a + b + c + d)
    ensures PlainTokens(a) && PlainTokens(b) && PlainTokens(c) && PlainTokens(d)
  {
    PlainParts(a + b + c, d);
    PlainMiddle(a, b, c);
  }

  /** The dots of a member stand at its odd positions. */
  lemma {:induction false} MemberDots(tokens: seq<Token>)
    requires MemberTokens(tokens)
    ensures |tokens| % 2 == 1 && forall i :: 0 <= i < |tokens| && i % 2 == 1 ==> tokens[i].ty.Dot?
    ensures forall i :: 0 <= i < |tokens| && i % 2 == 0 ==> tokens[i].ty.IsField()
  {
    if |tokens| > 1 {
      MemberDots(tokens[..|tokens| - 2]);
    }
  }

  lemma {:induction false} PlainChain(tokens: seq<Token>)
    requires MemberTokens(tokens) && Chain(tokens).Some? && Dotless(tokens)
    requires forall i :: 0 <= i < |tokens| ==> !tokens[i].ty.String?
    ensures PlainNames(Chain(tokens).value)
  {
    if |tokens| > 1 {
      PlainChain(tokens[..|tokens| - 2]);
    }
  }

  lemma PlainLeaf(tokens: seq<Token>, value: Expr)
    requires (NumberLeaf(tokens, value) || MemberLeaf(tokens, value)) && PlainTokens(tokens)
    ensures PlainNames(value)
  {
    if !NumberLeaf(tokens, value) && !(|tokens| == 1 && tokens[0].ty.String?) {
      MemberDots(tokens);
      forall i | 0 <= i < |tokens| ensures !tokens[i].ty.String? {
        if i % 2 == 0 && |tokens| > 1 {
          var j := if i == 0 then 1 else i;
          assert tokens[j - 1].ty.Dot? || tokens[j].ty.Dot?;
        }
      }
      PlainChain(tokens);
    }
  }

  predicate AllPlain(exprs: seq<Expr>) {
    forall i :: 0 <= i < |exprs| ==> PlainNames(exprs[i])
  }

  lemma {:induction false} PlainFold(acc: Expr, exprs: seq<Expr>, name: string)
    requires PlainNames(acc) && AllPlain(exprs)
    ensures PlainNames(FoldFrom(acc, exprs, name))
    decreases |exprs|
  {
    if exprs != [] {
      PlainFold(Call(name, [acc, exprs[0]]), exprs[1..], name);
    }
  }

  lemma PlainFoldLeft(exprs: seq<Expr>, name: string)
    requires exprs != [] && AllPlain(exprs)
    ensures PlainNames(FoldLeft(exprs, name))
  {
    PlainFold(exprs[0], exprs[1..], name);
  }

  lemma {:induction false} PlainExpression(e: Expression)
    requires DerivesExpression(e, Accepted) && PlainTokens(YieldExpression(e))
    ensures AllPlain(Conjuncts(e)) && PlainNames(MeanExpression(e))
  {
    var tail := match e.tail case None => [] case Some(tail) => YieldExpression(tail);
    PlainFour(e.space, YieldSequence(e.head), e.joint, tail);
    PlainSequence(e.head);
    if e.tail.Some? {
      PlainExpression(e.tail.value);
    }
    PlainFoldLeft(Conjuncts(e), AND);
  }

  lemma {:induction false} PlainSequence(s: Sequence)
    requires DerivesSequence(s, Accepted) && PlainTokens(YieldSequence(s))
    ensures AllPlain(Fuzzies(s)) && PlainNames(MeanSequence(s))
  {
    PlainMiddle(YieldFactor(s.head), s.joint, match s.tail case None => [] case Some(tail) => YieldSequence(tail));
    PlainFactor(s.head);
    if s.tail.Some? {
      PlainSequence(s.tail.value);
    }
    PlainFoldLeft(Fuzzies(s), FUZZY);
  }

  lemma {:induction false} PlainFactor(f: Factor)
    requires DerivesFactor(f, Accepted) && PlainTokens(YieldFactor(f))
    ensures AllPlain(Disjuncts(f)) && PlainNames(MeanFactor(f))
  {
    PlainMiddle(YieldTerm(f.head), f.joint, match f.tail case None => [] case Some(tail) => YieldFactor(tail));
    PlainTerm(f.head);
    if f.tail.Some? {
      PlainFactor(f.tail.value);
    }
    PlainFoldLeft(Disjuncts(f), OR);
  }

  lemma {:induction false} PlainTerm(t: Term)
    requires DerivesTerm(t, Accepted) && PlainTokens(YieldTerm(t))
    ensures PlainNames(MeanTerm(t))
  {
    PlainParts(t.prefix, YieldSimple(t.simple));
    PlainSimple(t.simple);
  }

  lemma {:induction false} PlainSimple(s: Simple)
    requires DerivesSimple(s, Accepted) && PlainTokens(YieldSimple(s))
    ensures PlainNames(MeanSimple(s))
  {
    match s
    case Grouped(composite) => PlainComposite(composite);
    case Restricted(left, relation) =>
      match relation {
        case None =>
          assert YieldComparable(left) + [] == YieldComparable(left);
          PlainComparable(left);
        case Some(r) =>
          PlainParts(YieldComparable(left), r.before + [r.comparator] + r.after + YieldArg(r.right));
          PlainFour(r.before, [r.comparator], r.after, YieldArg(r.right));
          PlainComparable(left);
          PlainArg(r.right);
      }
  }

  lemma {:induction false} PlainComposite(c: Composite)
    requires DerivesComposite(c, Accepted) && PlainTokens(YieldComposite(c))
    ensures PlainNames(MeanExpression(c.body))
  {
    PlainMiddle(c.open, YieldExpression(c.body), c.close);
    PlainExpression(c.body);
  }

  lemma {:induction false} PlainArg(a: Arg)
    requires DerivesArg(a, Accepted) && PlainTokens(YieldArg(a))
    ensures PlainNames(MeanArg(a))
  {
    match a
    case Plain(comparable) => PlainComparable(comparable);
    case Nested(composite) => PlainComposite(composite);
  }

  lemma {:induction false} PlainComparable(c: Comparable)
    requires DerivesComparable(c, Accepted) && PlainTokens(YieldComparable(c))
    ensures PlainNames(MeanComparable(c))
  {
    match c
    case Leaf(tokens, value) => PlainLeaf(tokens, value);
    case Function(name, open, args, close) =>
      PlainFour(name, open, YieldArgs(args), close);
      PlainArgs(args);
  }

  lemma {:induction false} PlainArgs(a: Args)
    requires DerivesArgs(a, Accepted) && PlainTokens(YieldArgs(a))
    ensures AllPlain(MeanArgs(a))
  {
    if a.Args? {
      PlainFour(YieldArg(a.head), a.after, a.comma, YieldArgs(a.tail));
      PlainArg(a.head);
      if a.tail.Args? {
        PlainArgs(a.tail);
      }
    }
  }

  /** The expression of an accepted filter in which no string stands beside a dot holds no
      dot inside a name. */
  lemma UnquotedFilterIsPlain(filter: string)
    requires ParseFilter(filter).Ok? && NoQuotedSegment(Tokens(filter, 0).value)
    ensures PlainNames(ParseFilter(filter).value)
  {
    var tree, rest := ParserSoundness.AcceptedTokensDerive(filter);
    TokensAreDotless(filter, 0);
    PlainParts(YieldExpression(tree), rest);
    PlainExpression(tree);
  }
}

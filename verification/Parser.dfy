/** The recursive-descent parser: a cursor over the tokens, moved by every method and
    restored by the alternatives that fail. */
module Parsers {
  import opened Wrappers
  import opened Filters
  import opened Lexing
  import opened Grammar
  import opened Parsing

  // ----- what each method returns: the expression of the tree found, and where it ends -----

  /** The expressions gathered so far in front of those still to come. */
  function Gather(done: seq<Expr>, rest: Option<(seq<Expr>, nat)>): Option<(seq<Expr>, nat)> {
    if rest.Some? then Some((done + rest.value.0, rest.value.1)) else None
  }

  lemma GatherNone(rest: Option<(seq<Expr>, nat)>)
    ensures Gather([], rest) == rest
  {
    if rest.Some? {
      assert [] + rest.value.0 == rest.value.0;
    }
  }

  lemma GatherOne(done: seq<Expr>, e: Expr, rest: Option<(seq<Expr>, nat)>)
    ensures Gather(done, Gather([e], rest)) == Gather(done + [e], rest)
  {
    if rest.Some? {
      assert done + ([e] + rest.value.0) == done + [e] + rest.value.0;
    }
  }

  lemma LoneItem(e: Expr)
    ensures [e] + [] == [e]
  {}

  function ExpressionAt(ts: seq<Token>, pos: nat): Option<(Expr, nat)>
    requires pos <= |ts|
  {
    var found := ParseExpression(ts, pos);
    if found.Some? then Some((MeanExpression(found.value.0), found.value.1)) else None
  }

  function ConjunctsAt(ts: seq<Token>, pos: nat): Option<(seq<Expr>, nat)>
    requires pos <= |ts|
  {
    var found := ParseExpression(ts, pos);
    if found.Some? then Some((Conjuncts(found.value.0), found.value.1)) else None
  }

  lemma ConjunctsMore(ts: seq<Token>, pos: nat, head: Sequence, q: nat)
    requires pos <= |ts| && ParseSequence(ts, SkipSpace(ts, pos)) == Some((head, q)) && AtJoint(ts, q, And)
    ensures ConjunctsAt(ts, pos) == Gather([MeanSequence(head)], ConjunctsAt(ts, q + 3))
  {
    var p := SkipSpace(ts, pos);
    ExpressionStep(ts, pos, p, head, q);
    if ParseExpression(ts, q + 3).Some? {
      var (tail, end) := ParseExpression(ts, q + 3).value;
      assert ParseExpression(ts, pos) == Some((Expression(ts[pos..p], head, ts[q..q + 3], Some(tail)), end));
    }
  }

  lemma ConjunctsLast(ts: seq<Token>, pos: nat, head: Sequence, q: nat)
    requires pos <= |ts| && ParseSequence(ts, SkipSpace(ts, pos)) == Some((head, q)) && !AtJoint(ts, q, And)
    ensures ConjunctsAt(ts, pos) == Some(([MeanSequence(head)], q))
  {
    ExpressionStep(ts, pos, SkipSpace(ts, pos), head, q);
    LoneItem(MeanSequence(head));
  }

  lemma {:induction false} ConjunctsStep(ts: seq<Token>, pos: nat)
    requires pos <= |ts|
    ensures var head := SequenceAt(ts, SkipSpace(ts, pos));
            ConjunctsAt(ts, pos)
            == if head.None? then None
               else if AtJoint(ts, head.value.1, And) then Gather([head.value.0], ConjunctsAt(ts, head.value.1 + 3))
               else Some(([head.value.0], head.value.1))
  {
    var head := ParseSequence(ts, SkipSpace(ts, pos));
    if head.Some? {
      if AtJoint(ts, head.value.1, And) {
        ConjunctsMore(ts, pos, head.value.0, head.value.1);
      } else {
        ConjunctsLast(ts, pos, head.value.0, head.value.1);
      }
    }
  }

  function SequenceAt(ts: seq<Token>, pos: nat): Option<(Expr, nat)>
    requires pos <= |ts|
  {
    var found := ParseSequence(ts, pos);
    if found.Some? then Some((MeanSequence(found.value.0), found.value.1)) else None
  }

  function FuzziesAt(ts: seq<Token>, pos: nat): Option<(seq<Expr>, nat)>
    requires pos <= |ts|
  {
    var found := ParseSequence(ts, pos);
    if found.Some? then Some((Fuzzies(found.value.0), found.value.1)) else None
  }

  lemma FuzziesStep(ts: seq<Token>, pos: nat)
    requires pos <= |ts|
    ensures var head := FactorAt(ts, pos);
            FuzziesAt(ts, pos)
            == if head.None? then None
               else if At(ts, head.value.1, Whitespace) && !At(ts, head.value.1 + 1, And) then
                 Gather([head.value.0], FuzziesAt(ts, head.value.1 + 1))
               else Some(([head.value.0], head.value.1))
  {
    var head := ParseFactor(ts, pos);
    if head.Some? && (!At(ts, head.value.1, Whitespace) || At(ts, head.value.1 + 1, And)) {
      LoneItem(MeanFactor(head.value.0));
    }
  }

  function FactorAt(ts: seq<Token>, pos: nat): Option<(Expr, nat)>
    requires pos <= |ts|
  {
    var found := ParseFactor(ts, pos);
    if found.Some? then Some((MeanFactor(found.value.0), found.value.1)) else None
  }

  function DisjunctsAt(ts: seq<Token>, pos: nat): Option<(seq<Expr>, nat)>
    requires pos <= |ts|
  {
    var found := ParseFactor(ts, pos);
    if found.Some? then Some((Disjuncts(found.value.0), found.value.1)) else None
  }

  lemma DisjunctsStep(ts: seq<Token>, pos: nat)
    requires pos <= |ts|
    ensures var head := TermAt(ts, pos);
            DisjunctsAt(ts, pos)
            == if head.None? then None
               else if AtJoint(ts, head.value.1, Or) then Gather([head.value.0], DisjunctsAt(ts, head.value.1 + 3))
               else Some(([head.value.0], head.value.1))
  {
    var head := ParseTerm(ts, pos);
    if head.Some? && !AtJoint(ts, head.value.1, Or) {
      LoneItem(MeanTerm(head.value.0));
    }
  }

  function TermAt(ts: seq<Token>, pos: nat): Option<(Expr, nat)>
    requires pos <= |ts|
  {
    var found := ParseTerm(ts, pos);
    if found.Some? then Some((MeanTerm(found.value.0), found.value.1)) else None
  }

  function SimpleAt(ts: seq<Token>, pos: nat): Option<(Expr, nat)>
    requires pos <= |ts|
  {
    var found := ParseSimple(ts, pos);
    if found.Some? then Some((MeanSimple(found.value.0), found.value.1)) else None
  }

  function CompositeAt(ts: seq<Token>, pos: nat): Option<(Expr, nat)>
    requires pos <= |ts|
  {
    var found := ParseComposite(ts, pos);
    if found.Some? then Some((MeanExpression(found.value.0.body), found.value.1)) else None
  }

  function ArgAt(ts: seq<Token>, pos: nat): Option<(Expr, nat)>
    requires pos <= |ts|
  {
    var found := ParseArg(ts, pos);
    if found.Some? then Some((MeanArg(found.value.0), found.value.1)) else None
  }

  function ComparableAt(ts: seq<Token>, pos: nat): Option<(Expr, nat)>
    requires pos <= |ts|
  {
    var found := ParseComparable(ts, pos);
    if found.Some? then Some((MeanComparable(found.value.0), found.value.1)) else None
  }

  function FunctionAt(ts: seq<Token>, pos: nat): Option<(Expr, nat)>
    requires pos <= |ts|
  {
    var found := ParseFunction(ts, pos);
    if found.Some? then Some((MeanComparable(found.value.0), found.value.1)) else None
  }

  function ArgsAt(ts: seq<Token>, pos: nat): Option<(seq<Expr>, nat)>
    requires pos <= |ts|
  {
    var found := ParseArgs(ts, pos);
    if found.Some? then Some((MeanArgs(found.value.0), found.value.1)) else None
  }

  lemma ArgsStep(ts: seq<Token>, pos: nat)
    requires pos <= |ts| && !At(ts, pos, RightParen)
    ensures var head := ArgAt(ts, pos);
            ArgsAt(ts, pos)
            == if head.None? then None
               else
                 var p := SkipSpace(ts, head.value.1);
                 if At(ts, p, Comma) then Gather([head.value.0], ArgsAt(ts, SkipSpace(ts, p + 1)))
                 else Some(([head.value.0], p))
  {
    var head := ParseArg(ts, pos);
    if head.Some? && !At(ts, SkipSpace(ts, head.value.1), Comma) {
      LoneItem(MeanArg(head.value.0));
      assert MeanArgs(NoArgs) == [];
    }
  }

  /** The name at the position and where it ends. */
  function NameAt(ts: seq<Token>, pos: nat): Option<(string, nat)>
  {
    var end := NameEnd(ts, pos);
    if end.Some? then Some((NameText(ts[pos..end.value]), end.value)) else None
  }

  lemma NameStep(ts: seq<Token>, pos: nat)
    requires pos < |ts| && ts[pos].ty.IsName()
    ensures NameAt(ts, pos)
            == if !At(ts, pos + 1, Dot) then Some((ts[pos].value, pos + 1))
               else Extend(ts[pos].value + ".", NameAt(ts, pos + 2))
  {
    var end := NameEnd(ts, pos);
    if !At(ts, pos + 1, Dot) {
      assert ts[pos..pos + 1] == [ts[pos]];
      assert NameText([ts[pos]]) == ts[pos].value + [] == ts[pos].value;
    } else if end.Some? {
      var rest := NameText(ts[pos + 2..end.value]);
      assert ts[pos..end.value][2..] == ts[pos + 2..end.value];
      assert ts[pos].value + ("." + rest) == ts[pos].value + "." + rest;
    }
  }

  lemma {:induction false} RestrictionStep(ts: seq<Token>, pos: nat)
    requires pos <= |ts| && !At(ts, pos, LeftParen)
    ensures var left := ComparableAt(ts, pos);
            SimpleAt(ts, pos)
            == if left.None? then None
               else
                 var q := left.value.1;
                 if !SniffComparator(ts, q) && !(At(ts, q, Whitespace) && SniffComparator(ts, q + 1)) then left
                 else
                   var p := SkipSpace(ts, q);
                   var right := ArgAt(ts, SkipSpace(ts, p + 1));
                   if right.None? then None
                   else Some((Call(ts[p].ty.ComparisonFunction().value,
                                   [left.value.0, Compared(ts[p], right.value.0)]), right.value.1))
  {
    var left := ParseComparable(ts, pos);
    if left.Some? {
      var q := left.value.1;
      if !SniffComparator(ts, q) && !(At(ts, q, Whitespace) && SniffComparator(ts, q + 1)) {
        assert ParseSimple(ts, pos) == Some((Restricted(left.value.0, None), q));
      } else {
        RelationStep(ts, q);
        if ParseRelation(ts, q).Some? {
          var (relation, end) := ParseRelation(ts, q).value;
          assert ParseSimple(ts, pos) == Some((Restricted(left.value.0, Some(relation)), end));
        }
      }
    }
  }

  lemma RelationStep(ts: seq<Token>, q: nat)
    requires q <= |ts| && SniffComparator(ts, SkipSpace(ts, q))
    ensures var p := SkipSpace(ts, q);
            var right := ParseArg(ts, SkipSpace(ts, p + 1));
            if right.None? then ParseRelation(ts, q).None?
            else ParseRelation(ts, q).Some? && ParseRelation(ts, q).value.1 == right.value.1
                 && ParseRelation(ts, q).value.0.comparator == ts[p] && ParseRelation(ts, q).value.0.right == right.value.0
  {}

  lemma ComparableStep(ts: seq<Token>, pos: nat)
    requires pos <= |ts|
    ensures ComparableAt(ts, pos)
            == if FunctionAt(ts, pos).Some? then FunctionAt(ts, pos)
               else if ParseNumber(ts, pos).Some? then ParseNumber(ts, pos)
               else ParseMember(ts, pos)
  {}

  /** The text read so far in front of the name still to come. */
  function Extend(text: string, rest: Option<(string, nat)>): Option<(string, nat)> {
    if rest.Some? then Some((text + rest.value.0, rest.value.1)) else None
  }

  lemma ExtendNothing(rest: Option<(string, nat)>)
    ensures Extend("", rest) == rest
  {
    if rest.Some? {
      assert "" + rest.value.0 == rest.value.0;
    }
  }

  lemma ExtendTwice(text: string, more: string, rest: Option<(string, nat)>)
    ensures Extend(text, Extend(more, rest)) == Extend(text + more, rest)
  {
    if rest.Some? {
      assert text + (more + rest.value.0) == text + more + rest.value.0;
    }
  }

  predicate Ahead(ts: seq<Token>, pos: nat, types: seq<TokenType>) {
    pos + |types| <= |ts| && forall i :: 0 <= i < |types| ==> ts[pos + i].ty == types[i]
  }

  lemma AheadOne(ts: seq<Token>, pos: nat, a: TokenType)
    ensures Ahead(ts, pos, [a]) <==> At(ts, pos, a)
  {
    if Ahead(ts, pos, [a]) {
      assert ts[pos + 0].ty == [a][0];
    }
  }

  lemma AheadTwo(ts: seq<Token>, pos: nat, a: TokenType, b: TokenType)
    ensures Ahead(ts, pos, [a, b]) <==> At(ts, pos, a) && At(ts, pos + 1, b)
  {
    if Ahead(ts, pos, [a, b]) {
      assert ts[pos + 0].ty == [a, b][0] && ts[pos + 1].ty == [a, b][1];
    }
  }

  lemma AheadThree(ts: seq<Token>, pos: nat, a: TokenType, b: TokenType, c: TokenType)
    ensures Ahead(ts, pos, [a, b, c]) <==> At(ts, pos, a) && At(ts, pos + 1, b) && At(ts, pos + 2, c)
  {
    if Ahead(ts, pos, [a, b, c]) {
      assert ts[pos + 0].ty == [a, b, c][0] && ts[pos + 1].ty == [a, b, c][1] && ts[pos + 2].ty == [a, b, c][2];
    }
  }

  // ----- the parser -----

  class Parser {
    const tokens: seq<Token>
    var pos: nat

    ghost predicate Valid()
      reads this
    {
      pos <= |tokens|
    }

    constructor (tokens: seq<Token>)
      ensures Valid() && pos == 0 && this.tokens == tokens
    {
      this.tokens, pos := tokens, 0;
    }

    /** The method found what the grammar functions find, and moved the cursor behind it. */
    ghost predicate Found<T(!new)>(r: Option<T>, spec: Option<(T, nat)>)
      reads this
    {
      Valid() && if spec.None? then r.None? else r == Some(spec.value.0) && pos == spec.value.1
    }

    /** Consume exactly these types, or restore the cursor. */
    method Eat(types: seq<TokenType>) returns (ok: bool)
      requires Valid()
      modifies this
      ensures Valid() && ok == Ahead(tokens, old(pos), types)
      ensures pos == old(pos) + if ok then |types| else 0
    {
      var start := pos;
      for i := 0 to |types|
        invariant Valid() && pos == start + i
        invariant forall j :: 0 <= j < i ==> tokens[start + j].ty == types[j]
      {
        if pos == |tokens| || tokens[pos].ty != types[i] {
          pos := start;
          return false;
        }
        pos := pos + 1;
      }
      return true;
    }

    method EatOne(ty: TokenType) returns (ok: bool)
      requires Valid()
      modifies this
      ensures Valid() && ok == At(tokens, old(pos), ty) && pos == old(pos) + if ok then 1 else 0
    {
      AheadOne(tokens, pos, ty);
      ok := Eat([ty]);
    }

    /** Eat an optional whitespace token. */
    method EatSpace()
      requires Valid()
      modifies this
      ensures Valid() && pos == SkipSpace(tokens, old(pos))
    {
      var _ := EatOne(Whitespace);
    }

    /** Eat WS, a keyword, WS. */
    method EatJoint(keyword: TokenType) returns (ok: bool)
      requires Valid()
      modifies this
      ensures Valid() && ok == AtJoint(tokens, old(pos), keyword) && pos == old(pos) + if ok then 3 else 0
    {
      AheadThree(tokens, pos, Whitespace, keyword, Whitespace);
      ok := Eat([Whitespace, keyword, Whitespace]);
    }

    method ReadExpression() returns (r: Option<Expr>)
      requires Valid()
      modifies this
      ensures Found(r, ExpressionAt(tokens, old(pos)))
      decreases |tokens| - pos, 9
    {
      var start := pos;
      var sequences: seq<Expr> := [];
      GatherNone(ConjunctsAt(tokens, start));
      while true
        invariant start <= pos && Valid()
        invariant ConjunctsAt(tokens, start) == Gather(sequences, ConjunctsAt(tokens, pos))
        decreases |tokens| - pos
      {
        ConjunctsStep(tokens, pos);
        EatSpace();
        var sequence := ReadSequence();
        if sequence.None? {
          return None;
        }
        var q := pos;
        var more := EatJoint(And);
        if more {
          GatherOne(sequences, sequence.value, ConjunctsAt(tokens, pos));
        }
        sequences := sequences + [sequence.value];
        if !more {
          break;
        }
      }
      return Some(FoldLeft(sequences, AND));
    }

    method ReadSequence() returns (r: Option<Expr>)
      requires Valid()
      modifies this
      ensures Found(r, SequenceAt(tokens, old(pos)))
      decreases |tokens| - pos, 8
    {
      var start := pos;
      var factors: seq<Expr> := [];
      GatherNone(FuzziesAt(tokens, start));
      while true
        invariant start <= pos && Valid()
        invariant FuzziesAt(tokens, start) == Gather(factors, FuzziesAt(tokens, pos))
        decreases |tokens| - pos
      {
        FuzziesStep(tokens, pos);
        var factor := ReadFactor();
        if factor.None? {
          return None;
        }
        var more := false;
        if !(At(tokens, pos, Whitespace) && At(tokens, pos + 1, And)) {
          more := EatOne(Whitespace);
        }
        if more {
          GatherOne(factors, factor.value, FuzziesAt(tokens, pos));
        }
        factors := factors + [factor.value];
        if !more {
          break;
        }
      }
      return Some(FoldLeft(factors, FUZZY));
    }

    method ReadFactor() returns (r: Option<Expr>)
      requires Valid()
      modifies this
      ensures Found(r, FactorAt(tokens, old(pos)))
      decreases |tokens| - pos, 7
    {
      var start := pos;
      var terms: seq<Expr> := [];
      GatherNone(DisjunctsAt(tokens, start));
      while true
        invariant start <= pos && Valid()
        invariant DisjunctsAt(tokens, start) == Gather(terms, DisjunctsAt(tokens, pos))
        decreases |tokens| - pos
      {
        DisjunctsStep(tokens, pos);
        var term := ReadTerm();
        if term.None? {
          return None;
        }
        var more := EatJoint(Or);
        if more {
          GatherOne(terms, term.value, DisjunctsAt(tokens, pos));
        }
        terms := terms + [term.value];
        if !more {
          break;
        }
      }
      return Some(FoldLeft(terms, OR));
    }

    method ReadTerm() returns (r: Option<Expr>)
      requires Valid()
      modifies this
      ensures Found(r, TermAt(tokens, old(pos)))
      decreases |tokens| - pos, 6
    {
      var start := pos;
      AheadTwo(tokens, pos, Not, Whitespace);
      var not := Eat([Not, Whitespace]);
      var minus := false;
      if !not {
        minus := EatOne(Minus);
      }
      assert pos == start + PrefixLength(tokens, start);
      var simple := ReadSimple();
      if simple.None? {
        return None;
      }
      if minus {
        return Some(Negated(simple.value));
      }
      return if not then Some(Call(NOT, [simple.value])) else simple;
    }

    method ReadSimple() returns (r: Option<Expr>)
      requires Valid()
      modifies this
      ensures Found(r, SimpleAt(tokens, old(pos)))
      decreases |tokens| - pos, 5
    {
      if At(tokens, pos, LeftParen) {
        r := ReadComposite();
      } else {
        r := ReadRestriction();
      }
    }

    method ReadComposite() returns (r: Option<Expr>)
      requires Valid()
      modifies this
      ensures Found(r, CompositeAt(tokens, old(pos)))
      decreases |tokens| - pos, 3
    {
      var open := EatOne(LeftParen);
      if !open {
        return None;
      }
      EatSpace();
      var body := ReadExpression();
      if body.None? {
        return None;
      }
      EatSpace();
      var close := EatOne(RightParen);
      return if close then body else None;
    }

    method ReadRestriction() returns (r: Option<Expr>)
      requires Valid() && !At(tokens, pos, LeftParen)
      modifies this
      ensures Found(r, SimpleAt(tokens, old(pos)))
      decreases |tokens| - pos, 4
    {
      RestrictionStep(tokens, pos);
      var comparable := ReadComparable();
      if comparable.None? {
        return None;
      }
      if !SniffComparator(tokens, pos) && !(At(tokens, pos, Whitespace) && SniffComparator(tokens, pos + 1)) {
        return comparable;
      }
      EatSpace();
      var comparator := tokens[pos];
      pos := pos + 1;
      EatSpace();
      var arg := ReadArg();
      if arg.None? {
        return None;
      }
      return Some(Call(comparator.ty.ComparisonFunction().value, [comparable.value, Compared(comparator, arg.value)]));
    }

    method ReadArg() returns (r: Option<Expr>)
      requires Valid()
      modifies this
      ensures Found(r, ArgAt(tokens, old(pos)))
      decreases |tokens| - pos, 4
    {
      if At(tokens, pos, LeftParen) {
        r := ReadComposite();
      } else {
        r := ReadComparable();
      }
    }

    /** Each failed alternative restores the cursor before the next is tried. */
    method ReadComparable() returns (r: Option<Expr>)
      requires Valid()
      modifies this
      ensures Found(r, ComparableAt(tokens, old(pos)))
      decreases |tokens| - pos, 3
    {
      var start := pos;
      ComparableStep(tokens, start);
      r := ReadFunction();
      if r.Some? {
        return;
      }
      assert FunctionAt(tokens, start).None?;
      pos := start;
      r := ReadNumber();
      if r.Some? {
        return;
      }
      pos := start;
      r := ReadMember();
    }

    method ReadFunction() returns (r: Option<Expr>)
      requires Valid()
      modifies this
      ensures Found(r, FunctionAt(tokens, old(pos)))
      decreases |tokens| - pos, 2
    {
      var name := ReadName();
      if name.None? {
        return None;
      }
      var open := EatOne(LeftParen);
      if !open {
        return None;
      }
      EatSpace();
      var args := ReadArgs();
      if args.None? {
        return None;
      }
      EatSpace();
      var close := EatOne(RightParen);
      return if close then Some(Call(name.value, args.value)) else None;
    }

    method ReadName() returns (name: Option<string>)
      requires Valid()
      modifies this
      ensures Found(name, NameAt(tokens, old(pos)))
    {
      var start, text := pos, "";
      ExtendNothing(NameAt(tokens, start));
      while true
        invariant start <= pos && Valid()
        invariant NameAt(tokens, start) == Extend(text, NameAt(tokens, pos))
        decreases |tokens| - pos
      {
        if pos == |tokens| || !tokens[pos].ty.IsName() {
          return None;
        }
        NameStep(tokens, pos);
        ExtendTwice(text, tokens[pos].value + ".", NameAt(tokens, pos + 2));
        assert text + tokens[pos].value + "." == text + (tokens[pos].value + ".");
        text := text + tokens[pos].value;
        pos := pos + 1;
        var more := EatOne(Dot);
        if !more {
          return Some(text);
        }
        text := text + ".";
      }
    }

    method ReadArgs() returns (r: Option<seq<Expr>>)
      requires Valid()
      modifies this
      ensures Found(r, ArgsAt(tokens, old(pos)))
      decreases |tokens| - pos, 5
    {
      var start := pos;
      var args: seq<Expr> := [];
      GatherNone(ArgsAt(tokens, start));
      while !At(tokens, pos, RightParen)
        invariant start <= pos && Valid()
        invariant ArgsAt(tokens, start) == Gather(args, ArgsAt(tokens, pos))
        decreases |tokens| - pos
      {
        ArgsStep(tokens, pos);
        var arg := ReadArg();
        if arg.None? {
          return None;
        }
        EatSpace();
        var more := EatOne(Comma);
        if !more {
          return Some(args + [arg.value]);
        }
        EatSpace();
        GatherOne(args, arg.value, ArgsAt(tokens, pos));
        args := args + [arg.value];
      }
      assert args + [] == args;
      return Some(args);
    }

    method ReadNumber() returns (r: Option<Expr>)
      requires Valid()
      modifies this
      ensures Found(r, ParseNumber(tokens, old(pos)))
    {
      var start := pos;
      r := ReadFloat();
      if r.Some? {
        return;
      }
      pos := start;
      r := ReadInt();
    }

    method ReadFloat() returns (r: Option<Expr>)
      requires Valid()
      modifies this
      ensures Found(r, ParseFloat(tokens, old(pos)))
    {
      var negative := EatOne(Minus);
      var body := pos;
      var whole, fraction := "", "";
      var hasWhole := EatOne(Number);
      if hasWhole {
        whole := tokens[pos - 1].value;
      }
      var dot := EatOne(Dot);
      if !dot {
        return None;
      }
      var hasFraction := EatOne(Number);
      if hasFraction {
        fraction := tokens[pos - 1].value;
      }
      if !hasWhole && !hasFraction {
        return None;
      }
      var value := FloatValue(whole, fraction);
      assert FloatBody(tokens[body..pos]) == value;
      return if value.Some? then Some(SignedDouble(negative, value.value)) else None;
    }

    method ReadInt() returns (r: Option<Expr>)
      requires Valid()
      modifies this
      ensures Found(r, ParseInt(tokens, old(pos)))
    {
      var negative := EatOne(Minus);
      if !At(tokens, pos, Number) && !At(tokens, pos, HexNumber) {
        return None;
      }
      var token := tokens[pos];
      pos := pos + 1;
      var magnitude := IntValue(token);
      return if magnitude.Some? then Some(SignedInt(negative, magnitude.value)) else None;
    }

    method ReadMember() returns (r: Option<Expr>)
      requires Valid()
      modifies this
      ensures Found(r, ParseMember(tokens, old(pos)))
    {
      if pos == |tokens| || !tokens[pos].ty.IsValue() {
        return None;
      }
      var base := tokens[pos];
      pos := pos + 1;
      var text := Unquote(base);
      if !At(tokens, pos, Dot) {
        if !base.ty.String? {
          return Some(Ident(base.value));
        }
        return if text.Some? then Some(Const(Str(text.value))) else None;
      }
      if text.None? {
        return None;
      }
      var expr, start := Ident(text.value), pos;
      while At(tokens, pos, Dot)
        invariant start <= pos && Valid()
        invariant ParseFields(tokens, pos, expr) == ParseFields(tokens, start, Ident(text.value))
        decreases |tokens| - pos
      {
        pos := pos + 1;
        if pos == |tokens| || !tokens[pos].ty.IsField() {
          return None;
        }
        var field := Unquote(tokens[pos]);
        if field.None? {
          return None;
        }
        pos := pos + 1;
        expr := Select(expr, field.value);
      }
      return Some(expr);
    }
  }

  /** `parse_filter`. */
  method Parse(filter: string) returns (r: Result<Expr, ParseError>)
    ensures r == ParseFilter(filter)
  {
    var lexed := Tokenize(filter);
    if lexed.Err? {
      return Err(OpenString(lexed.error));
    }
    var tokens := lexed.value;
    while tokens != [] && tokens[|tokens| - 1].ty.Whitespace?
      invariant TrimEnd(tokens) == TrimEnd(lexed.value)
      decreases |tokens|
    {
      tokens := tokens[..|tokens| - 1];
    }
    if tokens == [] {
      return Err(EmptyFilter);
    }
    var parser := new Parser(tokens);
    var expr := parser.ReadExpression();
    if expr.None? || parser.pos < |tokens| {
      return Err(Syntax);
    }
    return Ok(expr.value);
  }
}

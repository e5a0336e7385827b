/** What the recursive-descent parser finds at a position: the tree and where it ends. */
module Parsing {
  import opened Wrappers
  import opened Filters
  import opened Lexing
  import opened Grammar

  predicate At(ts: seq<Token>, pos: nat, ty: TokenType) {
    pos < |ts| && ts[pos].ty == ty
  }

  /** WS, the keyword, WS. */
  predicate AtJoint(ts: seq<Token>, pos: nat, keyword: TokenType) {
    At(ts, pos, Whitespace) && At(ts, pos + 1, keyword) && At(ts, pos + 2, Whitespace)
  }

  predicate SniffComparator(ts: seq<Token>, pos: nat) {
    pos < |ts| && ts[pos].ty.IsComparator()
  }

  /** Behind the whitespace token at the position, if there is one. */
  function SkipSpace(ts: seq<Token>, pos: nat): (next: nat)
    ensures pos <= next <= pos + 1 && (pos <= |ts| ==> next <= |ts|)
  {
    if At(ts, pos, Whitespace) then pos + 1 else pos
  }

  function ParseExpression(ts: seq<Token>, pos: nat): (r: Option<(Expression, nat)>)
    requires pos <= |ts|
    ensures r.Some? ==> pos < r.value.1 <= |ts|
    decreases |ts| - pos, 9
  {
    var p := SkipSpace(ts, pos);
    var head := ParseSequence(ts, p);
    if head.None? then None else
      var q := head.value.1;
      if !AtJoint(ts, q, And) then Some((Expression(ts[pos..p], head.value.0, [], None), q))
      else
        var tail := ParseExpression(ts, q + 3);
        if tail.None? then None
        else Some((Expression(ts[pos..p], head.value.0, ts[q..q + 3], Some(tail.value.0)), tail.value.1))
  }

  function ParseSequence(ts: seq<Token>, pos: nat): (r: Option<(Sequence, nat)>)
    requires pos <= |ts|
    ensures r.Some? ==> pos < r.value.1 <= |ts|
    decreases |ts| - pos, 8
  {
    var head := ParseFactor(ts, pos);
    if head.None? then None else
      var q := head.value.1;
      if (At(ts, q, Whitespace) && At(ts, q + 1, And)) || !At(ts, q, Whitespace) then Some((Sequence(head.value.0, [], None), q))
      else
        var tail := ParseSequence(ts, q + 1);
        if tail.None? then None
        else Some((Sequence(head.value.0, ts[q..q + 1], Some(tail.value.0)), tail.value.1))
  }

  function ParseFactor(ts: seq<Token>, pos: nat): (r: Option<(Factor, nat)>)
    requires pos <= |ts|
    ensures r.Some? ==> pos < r.value.1 <= |ts|
    decreases |ts| - pos, 7
  {
    var head := ParseTerm(ts, pos);
    if head.None? then None else
      var q := head.value.1;
      if !AtJoint(ts, q, Or) then Some((Factor(head.value.0, [], None), q))
      else
        var tail := ParseFactor(ts, q + 3);
        if tail.None? then None
        else Some((Factor(head.value.0, ts[q..q + 3], Some(tail.value.0)), tail.value.1))
  }

  /** The length of the prefix of a term. */
  function PrefixLength(ts: seq<Token>, pos: nat): (n: nat)
    ensures pos <= |ts| ==> pos + n <= |ts|
  {
    if (At(ts, pos, Not) && At(ts, pos + 1, Whitespace)) then 2 else if At(ts, pos, Minus) then 1 else 0
  }

  function ParseTerm(ts: seq<Token>, pos: nat): (r: Option<(Term, nat)>)
    requires pos <= |ts|
    ensures r.Some? ==> pos < r.value.1 <= |ts|
    decreases |ts| - pos, 6
  {
    var p := pos + PrefixLength(ts, pos);
    var simple := ParseSimple(ts, p);
    if simple.None? then None else Some((Term(ts[pos..p], simple.value.0), simple.value.1))
  }

  function ParseSimple(ts: seq<Token>, pos: nat): (r: Option<(Simple, nat)>)
    requires pos <= |ts|
    ensures r.Some? ==> pos < r.value.1 <= |ts|
    decreases |ts| - pos, 5
  {
    if At(ts, pos, LeftParen) then
      var composite := ParseComposite(ts, pos);
      if composite.None? then None else Some((Grouped(composite.value.0), composite.value.1))
    else
      var left := ParseComparable(ts, pos);
      if left.None? then None else
        var q := left.value.1;
        if !SniffComparator(ts, q) && !(At(ts, q, Whitespace) && SniffComparator(ts, q + 1)) then
          Some((Restricted(left.value.0, None), q))
        else
          var relation := ParseRelation(ts, q);
          if relation.None? then None
          else Some((Restricted(left.value.0, Some(relation.value.0)), relation.value.1))
  }

  function ParseRelation(ts: seq<Token>, pos: nat): (r: Option<(Relation, nat)>)
    requires pos <= |ts|
    ensures r.Some? ==> pos < r.value.1 <= |ts|
    decreases |ts| - pos, 4
  {
    var p := SkipSpace(ts, pos);
    if !SniffComparator(ts, p) then None else
      var q := SkipSpace(ts, p + 1);
      var right := ParseArg(ts, q);
      if right.None? then None
      else Some((Relation(ts[pos..p], ts[p], ts[p + 1..q], right.value.0), right.value.1))
  }

  function ParseComposite(ts: seq<Token>, pos: nat): (r: Option<(Composite, nat)>)
    requires pos <= |ts|
    ensures r.Some? ==> pos < r.value.1 <= |ts|
    decreases |ts| - pos, 3
  {
    if !At(ts, pos, LeftParen) then None else
      var p := SkipSpace(ts, pos + 1);
      var body := ParseExpression(ts, p);
      if body.None? then None else
        var q := SkipSpace(ts, body.value.1);
        if !At(ts, q, RightParen) then None
        else Some((Composite(ts[pos..p], body.value.0, ts[body.value.1..q + 1]), q + 1))
  }

  function ParseArg(ts: seq<Token>, pos: nat): (r: Option<(Arg, nat)>)
    requires pos <= |ts|
    ensures r.Some? ==> pos < r.value.1 <= |ts|
    decreases |ts| - pos, 4
  {
    if At(ts, pos, LeftParen) then
      var composite := ParseComposite(ts, pos);
      if composite.None? then None else Some((Nested(composite.value.0), composite.value.1))
    else
      var comparable := ParseComparable(ts, pos);
      if comparable.None? then None else Some((Plain(comparable.value.0), comparable.value.1))
  }

  /** The first alternative that succeeds: a function, a number, a member. */
  function ParseComparable(ts: seq<Token>, pos: nat): (r: Option<(Comparable, nat)>)
    requires pos <= |ts|
    ensures r.Some? ==> pos < r.value.1 <= |ts|
    decreases |ts| - pos, 3
  {
    var function_ := ParseFunction(ts, pos);
    if function_.Some? then function_ else
      var number := ParseNumber(ts, pos);
      if number.Some? then Some((Leaf(ts[pos..number.value.1], number.value.0), number.value.1)) else
        var member := ParseMember(ts, pos);
        if member.Some? then Some((Leaf(ts[pos..member.value.1], member.value.0), member.value.1)) else None
  }

  function ParseFunction(ts: seq<Token>, pos: nat): (r: Option<(Comparable, nat)>)
    requires pos <= |ts|
    ensures r.Some? ==> pos < r.value.1 <= |ts|
    decreases |ts| - pos, 2
  {
    var name := NameEnd(ts, pos);
    if name.None? || !At(ts, name.value, LeftParen) then None else
      var p := SkipSpace(ts, name.value + 1);
      var args := ParseArgs(ts, p);
      if args.None? then None else
        var q := SkipSpace(ts, args.value.1);
        if !At(ts, q, RightParen) then None
        else Some((Function(ts[pos..name.value], ts[name.value..p], args.value.0, ts[args.value.1..q + 1]), q + 1))
  }

  /** The end of the dotted name at the position. */
  function NameEnd(ts: seq<Token>, pos: nat): (r: Option<nat>)
    ensures r.Some? ==> pos < r.value <= |ts|
    decreases |ts| - pos
  {
    if pos >= |ts| || !ts[pos].ty.IsName() then None
    else if At(ts, pos + 1, Dot) then NameEnd(ts, pos + 2)
    else Some(pos + 1)
  }

  function ParseArgs(ts: seq<Token>, pos: nat): (r: Option<(Args, nat)>)
    requires pos <= |ts|
    ensures r.Some? ==> pos <= r.value.1 <= |ts|
    decreases |ts| - pos, 5
  {
    if At(ts, pos, RightParen) then Some((NoArgs, pos)) else
      var head := ParseArg(ts, pos);
      if head.None? then None else
        var p := SkipSpace(ts, head.value.1);
        if !At(ts, p, Comma) then Some((Args(head.value.0, ts[head.value.1..p], [], NoArgs), p))
        else
          var q := SkipSpace(ts, p + 1);
          var tail := ParseArgs(ts, q);
          if tail.None? then None
          else Some((Args(head.value.0, ts[head.value.1..p], ts[p..q], tail.value.0), tail.value.1))
  }

  /** Behind the minus at the position, if there is one. */
  function SkipMinus(ts: seq<Token>, pos: nat): (next: nat)
    ensures pos <= next <= pos + 1 && (pos <= |ts| ==> next <= |ts|)
  {
    if At(ts, pos, Minus) then pos + 1 else pos
  }

  /** A float if there is one, else an integer. */
  function ParseNumber(ts: seq<Token>, pos: nat): (r: Option<(Expr, nat)>)
    requires pos <= |ts|
    ensures r.Some? ==> pos < r.value.1 <= |ts|
  {
    var float := ParseFloat(ts, pos);
    if float.Some? then float else ParseInt(ts, pos)
  }

  function ParseFloat(ts: seq<Token>, pos: nat): (r: Option<(Expr, nat)>)
    requires pos <= |ts|
    ensures r.Some? ==> pos < r.value.1 <= |ts|
  {
    var p := SkipMinus(ts, pos);
    var q := if At(ts, p, Number) then p + 1 else p;
    if !At(ts, q, Dot) then None else
      var end := if At(ts, q + 1, Number) then q + 2 else q + 1;
      var value := FloatBody(ts[p..end]);
      if value.None? then None else Some((SignedDouble(p > pos, value.value), end))
  }

  function ParseInt(ts: seq<Token>, pos: nat): (r: Option<(Expr, nat)>)
    requires pos <= |ts|
    ensures r.Some? ==> pos < r.value.1 <= |ts|
  {
    var p := SkipMinus(ts, pos);
    if !At(ts, p, Number) && !At(ts, p, HexNumber) then None else
      var value := IntValue(ts[p]);
      if value.None? then None else Some((SignedInt(p > pos, value.value), p + 1))
  }

  function ParseMember(ts: seq<Token>, pos: nat): (r: Option<(Expr, nat)>)
    requires pos <= |ts|
    ensures r.Some? ==> pos < r.value.1 <= |ts|
  {
    if pos == |ts| || !ts[pos].ty.IsValue() then None
    else if !At(ts, pos + 1, Dot) then
      var value := MemberValue([ts[pos]]);
      if value.None? then None else Some((value.value, pos + 1))
    else
      var base := Unquote(ts[pos]);
      if base.None? then None else ParseFields(ts, pos + 1, Ident(base.value))
  }

  /** Select the fields that follow. */
  function ParseFields(ts: seq<Token>, pos: nat, operand: Expr): (r: Option<(Expr, nat)>)
    requires pos <= |ts|
    ensures r.Some? ==> pos <= r.value.1 <= |ts|
    decreases |ts| - pos
  {
    if !At(ts, pos, Dot) then Some((operand, pos))
    else if pos + 1 == |ts| || !ts[pos + 1].ty.IsField() || Unquote(ts[pos + 1]).None? then None
    else ParseFields(ts, pos + 2, Select(operand, Unquote(ts[pos + 1]).value))
  }

  lemma ExpressionStep(ts: seq<Token>, pos: nat, p: nat, head: Sequence, q: nat)
    requires pos <= |ts| && p == SkipSpace(ts, pos) && ParseSequence(ts, p) == Some((head, q))
    ensures ParseExpression(ts, pos)
            == if !AtJoint(ts, q, And) then Some((Expression(ts[pos..p], head, [], None), q))
               else
                 var tail := ParseExpression(ts, q + 3);
                 if tail.None? then None
                 else Some((Expression(ts[pos..p], head, ts[q..q + 3], Some(tail.value.0)), tail.value.1))
  {}

  lemma SequenceStep(ts: seq<Token>, pos: nat, head: Factor, q: nat)
    requires pos <= |ts| && ParseFactor(ts, pos) == Some((head, q))
    ensures ParseSequence(ts, pos)
            == if (At(ts, q, Whitespace) && At(ts, q + 1, And)) || !At(ts, q, Whitespace) then
                 Some((Sequence(head, [], None), q))
               else
                 var tail := ParseSequence(ts, q + 1);
                 if tail.None? then None
                 else Some((Sequence(head, ts[q..q + 1], Some(tail.value.0)), tail.value.1))
  {}

  lemma FunctionStep(ts: seq<Token>, pos: nat, name: nat, args: Args, q: nat)
    requires NameEnd(ts, pos) == Some(name) && At(ts, name, LeftParen) && At(ts, SkipSpace(ts, q), RightParen)
    requires ParseArgs(ts, SkipSpace(ts, name + 1)) == Some((args, q))
    ensures var p, end := SkipSpace(ts, name + 1), SkipSpace(ts, q) + 1;
            ParseFunction(ts, pos) == Some((Function(ts[pos..name], ts[name..p], args, ts[q..end]), end))
  {}

  // ----- whole filters -----

  datatype ParseError = OpenString(offset: nat) | EmptyFilter | Syntax

  /** The tokens without the trailing whitespace. */
  function TrimEnd(ts: seq<Token>): (r: seq<Token>)
    ensures r <= ts && (r != [] ==> !r[|r| - 1].ty.Whitespace?)
    ensures forall i :: |r| <= i < |ts| ==> ts[i].ty.Whitespace?
  {
    if ts != [] && ts[|ts| - 1].ty.Whitespace? then TrimEnd(ts[..|ts| - 1]) else ts
  }

  /** The tree of a filter: its tokens derive an expression and nothing is left over. */
  function ParseTree(filter: string): Result<Expression, ParseError> {
    match Tokens(filter, 0)
    case Err(offset) => Err(OpenString(offset))
    case Ok(tokens) =>
      var ts := TrimEnd(tokens);
      if ts == [] then Err(EmptyFilter) else
        var e := ParseExpression(ts, 0);
        if e.None? || e.value.1 != |ts| then Err(Syntax) else Ok(e.value.0)
  }

  function ParseFilter(filter: string): Result<Expr, ParseError> {
    var tree :- ParseTree(filter);
    Ok(MeanExpression(tree))
  }
}

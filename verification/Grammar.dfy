/** The filter grammar as lossless syntax trees: what derives what, the tokens a tree spans
    and the expression it means. */
module Grammar {
  import opened Wrappers
  import opened Filters
  import opened Lexing
  import opened Unescaping

  datatype Expression = Expression(space: seq<Token>, head: Sequence, joint: seq<Token>, tail: Option<Expression>)

  datatype Sequence = Sequence(head: Factor, joint: seq<Token>, tail: Option<Sequence>)

  datatype Factor = Factor(head: Term, joint: seq<Token>, tail: Option<Factor>)

  datatype Term = Term(prefix: seq<Token>, simple: Simple)

  datatype Simple = Restricted(left: Comparable, relation: Option<Relation>) | Grouped(composite: Composite)

  datatype Composite = Composite(open: seq<Token>, body: Expression, close: seq<Token>)

  datatype Relation = Relation(before: seq<Token>, comparator: Token, after: seq<Token>, right: Arg)

  datatype Comparable =
    | Function(name: seq<Token>, open: seq<Token>, args: Args, close: seq<Token>)
    | Leaf(tokens: seq<Token>, value: Expr)

  datatype Arg = Plain(comparable: Comparable) | Nested(composite: Composite)

  /** Arguments; `comma` is empty behind the last one. */
  datatype Args = NoArgs | Args(head: Arg, after: seq<Token>, comma: seq<Token>, tail: Args)

  predicate One(tokens: seq<Token>, a: TokenType) {
    |tokens| == 1 && tokens[0].ty == a
  }

  predicate Two(tokens: seq<Token>, a: TokenType, b: TokenType) {
    |tokens| == 2 && tokens[0].ty == a && tokens[1].ty == b
  }

  predicate Three(tokens: seq<Token>, a: TokenType, b: TokenType, c: TokenType) {
    |tokens| == 3 && tokens[0].ty == a && tokens[1].ty == b && tokens[2].ty == c
  }

  predicate OptionalSpace(tokens: seq<Token>) {
    tokens == [] || One(tokens, Whitespace)
  }

  // ----- the grammar -----

  /** The documented grammar, and the one the parser accepts: it also takes one comma behind
      the last argument of a call. */
  datatype Rules = Documented | Accepted

  /** expression : [WS] sequence {WS AND WS [WS] sequence} */
  predicate DerivesExpression(e: Expression, rules: Rules) {
    OptionalSpace(e.space) && DerivesSequence(e.head, rules)
    && match e.tail
       case None => e.joint == []
       case Some(tail) => Three(e.joint, Whitespace, And, Whitespace) && DerivesExpression(tail, rules)
  }

  /** sequence : factor {WS factor} */
  predicate DerivesSequence(s: Sequence, rules: Rules) {
    DerivesFactor(s.head, rules)
    && match s.tail
       case None => s.joint == []
       case Some(tail) => One(s.joint, Whitespace) && DerivesSequence(tail, rules)
  }

  /** factor : term {WS OR WS term} */
  predicate DerivesFactor(f: Factor, rules: Rules) {
    DerivesTerm(f.head, rules)
    && match f.tail
       case None => f.joint == []
       case Some(tail) => Three(f.joint, Whitespace, Or, Whitespace) && DerivesFactor(tail, rules)
  }

  /** term : [(NOT WS | MINUS)] simple */
  predicate DerivesTerm(t: Term, rules: Rules) {
    (t.prefix == [] || Two(t.prefix, Not, Whitespace) || One(t.prefix, Minus)) && DerivesSimple(t.simple, rules)
  }

  /** simple : restriction | composite; restriction : comparable [comparator arg] */
  predicate DerivesSimple(s: Simple, rules: Rules) {
    match s
    case Grouped(composite) => DerivesComposite(composite, rules)
    case Restricted(left, relation) =>
      DerivesComparable(left, rules)
      && match relation
         case None => true
         case Some(r) =>
           OptionalSpace(r.before) && r.comparator.ty.IsComparator() && OptionalSpace(r.after) && DerivesArg(r.right, rules)
  }

  /** composite : LPAREN expression RPAREN */
  predicate DerivesComposite(c: Composite, rules: Rules) {
    (One(c.open, LeftParen) || Two(c.open, LeftParen, Whitespace))
    && DerivesExpression(c.body, rules)
    && (One(c.close, RightParen) || Two(c.close, Whitespace, RightParen))
  }

  /** arg : comparable | composite */
  predicate DerivesArg(a: Arg, rules: Rules) {
    match a
    case Plain(comparable) => DerivesComparable(comparable, rules)
    case Nested(composite) => DerivesComposite(composite, rules)
  }

  /** comparable : function | number | member */
  predicate DerivesComparable(c: Comparable, rules: Rules) {
    match c
    case Leaf(tokens, value) => NumberLeaf(tokens, value) || MemberLeaf(tokens, value)
    case Function(name, open, args, close) =>
      NameTokens(name)
      && (One(open, LeftParen) || Two(open, LeftParen, Whitespace))
      && DerivesArgs(args, rules)
      && (One(close, RightParen) || Two(close, Whitespace, RightParen))
  }

  predicate CommaTokens(tokens: seq<Token>) {
    One(tokens, Comma) || Two(tokens, Comma, Whitespace)
  }

  /** [arg {COMMA arg}], and accepted also with a comma behind the last argument. */
  predicate DerivesArgs(a: Args, rules: Rules) {
    a.NoArgs?
    || (DerivesArg(a.head, rules) && OptionalSpace(a.after)
        && (if a.tail.NoArgs? then a.comma == [] || (rules.Accepted? && CommaTokens(a.comma))
            else CommaTokens(a.comma) && DerivesArgs(a.tail, rules)))
  }

  /** name {DOT name} */
  predicate NameTokens(tokens: seq<Token>) {
    tokens != [] && tokens[0].ty.IsName()
    && (|tokens| == 1 || (tokens[1].ty.Dot? && NameTokens(tokens[2..])))
  }

  /** value {DOT field} */
  predicate MemberTokens(tokens: seq<Token>) {
    if |tokens| <= 1 then tokens != [] && tokens[0].ty.IsValue()
    else
      var n := |tokens| - 2;
      tokens[n].ty.Dot? && tokens[n + 1].ty.IsField() && MemberTokens(tokens[..n])
  }

  // ----- leaves -----

  const I64_MAX := 0x7FFF_FFFF_FFFF_FFFF

  /** A number's digits in a base, when they fit 64 signed bits. */
  function Magnitude(digits: string, base: nat): Option<nat> {
    var value := DigitsValue(digits, |digits|, base, 0);
    if digits == [] || value.None? || value.value > I64_MAX then None else value
  }

  function IntValue(token: Token): Option<nat> {
    if !token.ty.HexNumber? then Magnitude(token.value, 10)
    else if "0x" <= token.value || "0X" <= token.value then Magnitude(token.value[2..], 16)
    else Magnitude(token.value, 16)
  }

  function PowerOfTen(n: nat): (r: real)
    ensures r > 0.0
  {
    if n == 0 then 1.0 else 10.0 * PowerOfTen(n - 1)
  }

  /** The decimal fraction `whole.fraction`. */
  function FloatValue(whole: string, fraction: string): Option<real> {
    match DigitsValue(whole + fraction, |whole| + |fraction|, 10, 0)
    case None => None
    case Some(digits) => Some(digits as real / PowerOfTen(|fraction|))
  }

  /** NUMBER DOT [NUMBER] | DOT NUMBER */
  function FloatBody(body: seq<Token>): Option<real> {
    if Three(body, Number, Dot, Number) then FloatValue(body[0].value, body[2].value)
    else if Two(body, Number, Dot) then FloatValue(body[0].value, [])
    else if Two(body, Dot, Number) then FloatValue([], body[1].value)
    else None
  }

  /** NUMBER | HEX */
  function IntBody(body: seq<Token>): Option<nat> {
    if One(body, Number) || One(body, HexNumber) then IntValue(body[0]) else None
  }

  function SignedInt(negative: bool, magnitude: int): Expr {
    Const(Constant.Int(if negative then -magnitude else magnitude))
  }

  function SignedDouble(negative: bool, magnitude: real): Expr {
    Const(Constant.Double(if negative then -magnitude else magnitude))
  }

  /** number : [MINUS] (float | int) */
  predicate NumberLeaf(tokens: seq<Token>, value: Expr) {
    var negative := tokens != [] && tokens[0].ty.Minus?;
    var body := if negative then tokens[1..] else tokens;
    (IntBody(body).Some? && value == SignedInt(negative, IntBody(body).value))
    || (FloatBody(body).Some? && value == SignedDouble(negative, FloatBody(body).value))
  }

  /** The logical text of a token. */
  function Unquote(token: Token): Option<string> {
    if token.ty.String? then Unescape(token.value) else Some(token.value)
  }

  /** The selection chain of a dotted member. */
  function Chain(tokens: seq<Token>): Option<Expr>
    requires MemberTokens(tokens)
  {
    if |tokens| == 1 then
      var base := Unquote(tokens[0]);
      if base.Some? then Some(Ident(base.value)) else None
    else
      var operand, field := Chain(tokens[..|tokens| - 2]), Unquote(tokens[|tokens| - 1]);
      if operand.Some? && field.Some? then Some(Select(operand.value, field.value)) else None
  }

  /** A bare string is a literal, a bare text an identifier taken verbatim. */
  function MemberValue(tokens: seq<Token>): Option<Expr>
    requires MemberTokens(tokens)
  {
    if |tokens| == 1 && tokens[0].ty.String? then
      var text := Unescape(tokens[0].value);
      if text.Some? then Some(Const(Str(text.value))) else None
    else Chain(tokens)
  }

  predicate MemberLeaf(tokens: seq<Token>, value: Expr) {
    MemberTokens(tokens) && MemberValue(tokens) == Some(value)
  }

  // ----- the tokens of a tree -----

  function YieldExpression(e: Expression): seq<Token> {
    e.space + YieldSequence(e.head) + e.joint + match e.tail case None => [] case Some(tail) => YieldExpression(tail)
  }

  function YieldSequence(s: Sequence): seq<Token> {
    YieldFactor(s.head) + s.joint + match s.tail case None => [] case Some(tail) => YieldSequence(tail)
  }

  function YieldFactor(f: Factor): seq<Token> {
    YieldTerm(f.head) + f.joint + match f.tail case None => [] case Some(tail) => YieldFactor(tail)
  }

  function YieldTerm(t: Term): seq<Token> {
    t.prefix + YieldSimple(t.simple)
  }

  function YieldSimple(s: Simple): seq<Token> {
    match s
    case Grouped(composite) => YieldComposite(composite)
    case Restricted(left, relation) =>
      YieldComparable(left)
      + match relation
        case None => []
        case Some(r) => r.before + [r.comparator] + r.after + YieldArg(r.right)
  }

  function YieldComposite(c: Composite): seq<Token> {
    c.open + YieldExpression(c.body) + c.close
  }

  function YieldArg(a: Arg): seq<Token> {
    match a
    case Plain(comparable) => YieldComparable(comparable)
    case Nested(composite) => YieldComposite(composite)
  }

  function YieldComparable(c: Comparable): seq<Token> {
    match c
    case Leaf(tokens, _) => tokens
    case Function(name, open, args, close) => name + open + YieldArgs(args) + close
  }

  function YieldArgs(a: Args): seq<Token> {
    if a.NoArgs? then [] else YieldArg(a.head) + a.after + a.comma + YieldArgs(a.tail)
  }

  // ----- the expression of a tree -----

  function FoldFrom(acc: Expr, exprs: seq<Expr>, name: string): Expr
    decreases |exprs|
  {
    if exprs == [] then acc else FoldFrom(Call(name, [acc, exprs[0]]), exprs[1..], name)
  }

  /** Left-associate the expressions under a function; a lone one is itself. */
  function FoldLeft(exprs: seq<Expr>, name: string): Expr
    requires exprs != []
  {
    FoldFrom(exprs[0], exprs[1..], name)
  }

  function MeanExpression(e: Expression): Expr
    decreases e, 1
  {
    FoldLeft(Conjuncts(e), AND)
  }

  function Conjuncts(e: Expression): (r: seq<Expr>)
    ensures r != []
    decreases e, 0
  {
    [MeanSequence(e.head)] + match e.tail case None => [] case Some(tail) => Conjuncts(tail)
  }

  function MeanSequence(s: Sequence): Expr
    decreases s, 1
  {
    FoldLeft(Fuzzies(s), FUZZY)
  }

  function Fuzzies(s: Sequence): (r: seq<Expr>)
    ensures r != []
    decreases s, 0
  {
    [MeanFactor(s.head)] + match s.tail case None => [] case Some(tail) => Fuzzies(tail)
  }

  function MeanFactor(f: Factor): Expr
    decreases f, 1
  {
    FoldLeft(Disjuncts(f), OR)
  }

  function Disjuncts(f: Factor): (r: seq<Expr>)
    ensures r != []
    decreases f, 0
  {
    [MeanTerm(f.head)] + match f.tail case None => [] case Some(tail) => Disjuncts(tail)
  }

  /** A minus negates a number and wraps anything else in NOT. */
  function Negated(e: Expr): Expr {
    match e
    case Const(Int(i)) => Const(Constant.Int(-i))
    case Const(Double(d)) => Const(Constant.Double(-d))
    case _ => Call(NOT, [e])
  }

  function MeanTerm(t: Term): Expr {
    var simple := MeanSimple(t.simple);
    if t.prefix == [] then simple
    else if t.prefix[0].ty.Minus? then Negated(simple)
    else Call(NOT, [simple])
  }

  /** The right side of a comparison: a bare identifier behind `:` is its string value. */
  function Compared(comparator: Token, right: Expr): Expr {
    if comparator.ty.Has? && right.Ident? then Const(Str(right.name)) else right
  }

  function MeanSimple(s: Simple): Expr {
    match s
    case Grouped(composite) => MeanExpression(composite.body)
    case Restricted(left, relation) =>
      match relation
      case None => MeanComparable(left)
      case Some(r) =>
        var name := r.comparator.ty.ComparisonFunction();
        Call(if name.Some? then name.value else "", [MeanComparable(left), Compared(r.comparator, MeanArg(r.right))])
  }

  function MeanArg(a: Arg): Expr {
    match a
    case Plain(comparable) => MeanComparable(comparable)
    case Nested(composite) => MeanExpression(composite.body)
  }

  /** The dotted name of a function. */
  function NameText(tokens: seq<Token>): string {
    if tokens == [] then [] else tokens[0].value + if |tokens| > 2 then "." + NameText(tokens[2..]) else []
  }

  function MeanComparable(c: Comparable): Expr {
    match c
    case Leaf(_, value) => value
    case Function(name, _, args, _) => Call(NameText(name), MeanArgs(args))
  }

  function MeanArgs(a: Args): seq<Expr> {
    if a.NoArgs? then [] else [MeanArg(a.head)] + MeanArgs(a.tail)
  }
}

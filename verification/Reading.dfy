/** Reading rendered SQL back. The grammar is SQL's own: OR binds loosest, then AND, then
    NOT, then the atoms; a verbatim fragment has unknown structure, so it may only stand as
    a whole expression. */
module Reading {
  import opened Wrappers
  import opened Sql
  import opened Predicates
  import opened Dialect

  /** A SQL boolean expression whose values are placeholders. */
  datatype Clause =
    | Or(l: Clause, r: Clause)
    | And(l: Clause, r: Clause)
    | Negated(c: Clause)
    | Compares(name: string, op: CmpOp, n: nat)
    | MemberCompares(name: string, key: nat, op: CmpOp, n: nat)
    | Matches(name: string, n: nat)
    | KeyExists(name: string, n: nat)
    | ValueExists(name: string, n: nat)
    | NullTest(name: string)
    | NotNullTest(name: string)
    | RowAbove(names: seq<string>, numbers: seq<nat>)
    | Constant(b: bool)
    | Verbatim(sql: string)

  // ----- the grammar -----

  type Rest<T> = (T, seq<Token>)

  predicate Starts(tokens: seq<Token>, token: Token) {
    tokens != [] && tokens[0] == token
  }

  function AndWith(acc: Option<Clause>, c: Clause): Clause {
    match acc case None => c case Some(a) => And(a, c)
  }

  function OrWith(acc: Option<Clause>, c: Clause): Clause {
    match acc case None => c case Some(a) => Or(a, c)
  }

  // expression : fragment | or
  function ReadExpression(tokens: seq<Token>): (r: Option<Rest<Clause>>)
    ensures r.Some? ==> |r.value.1| < |tokens|
    decreases |tokens|, 4
  {
    if tokens != [] && tokens[0].Fragment? then Some((Verbatim(tokens[0].sql), tokens[1..]))
    else ReadOr(None, tokens)
  }

  // or : and {OR and}
  function ReadOr(acc: Option<Clause>, tokens: seq<Token>): (r: Option<Rest<Clause>>)
    ensures r.Some? ==> |r.value.1| < |tokens|
    decreases |tokens|, 3
  {
    match ReadAnd(None, tokens)
    case None => None
    case Some((c, rest)) =>
      if Starts(rest, OrWord) then ReadOr(Some(OrWith(acc, c)), rest[1..]) else Some((OrWith(acc, c), rest))
  }

  // and : not {AND not}
  function ReadAnd(acc: Option<Clause>, tokens: seq<Token>): (r: Option<Rest<Clause>>)
    ensures r.Some? ==> |r.value.1| < |tokens|
    decreases |tokens|, 2
  {
    match ReadNot(tokens)
    case None => None
    case Some((c, rest)) =>
      if Starts(rest, AndWord) then ReadAnd(Some(AndWith(acc, c)), rest[1..]) else Some((AndWith(acc, c), rest))
  }

  // not : NOT not | atom
  function ReadNot(tokens: seq<Token>): (r: Option<Rest<Clause>>)
    ensures r.Some? ==> |r.value.1| < |tokens|
    decreases |tokens|, 1
  {
    if Starts(tokens, NotWord) then
      match ReadNot(tokens[1..])
      case None => None
      case Some((c, rest)) => Some((Negated(c), rest))
    else ReadAtom(tokens)
  }

  // atom : ( expression ) | row value > row value | leaf
  function ReadAtom(tokens: seq<Token>): (r: Option<Rest<Clause>>)
    ensures r.Some? ==> |r.value.1| < |tokens|
    decreases |tokens|, 0
  {
    if !Starts(tokens, Open) then ReadLeaf(tokens)
    else if |tokens| > 2 && tokens[1].Name? && (tokens[2] == Comma || tokens[2] == Close) then ReadTuple(tokens)
    else
      match ReadExpression(tokens[1..])
      case None => None
      case Some((c, rest)) => if Starts(rest, Close) then Some((c, rest[1..])) else None
  }

  function ReadLeaf(tokens: seq<Token>): (r: Option<Rest<Clause>>)
    ensures r.Some? ==> |r.value.1| < |tokens|
  {
    if tokens == [] then None else
      match tokens[0]
      case Always(b) => Some((Constant(b), tokens[1..]))
      case Name(name) =>
        if |tokens| < 2 then None else
          (match tokens[1]
           case IsNullWord => Some((NullTest(name), tokens[2..]))
           case IsNotNullWord => Some((NotNullTest(name), tokens[2..]))
           case Sign(op) =>
             if |tokens| > 2 && tokens[2].Placeholder? then Some((Compares(name, op, tokens[2].n), tokens[3..]))
             else None
           case LikeWord =>
             if |tokens| > 3 && tokens[2].Placeholder? && tokens[3] == EscapeClause
             then Some((Matches(name, tokens[2].n), tokens[4..])) else None
           case Arrow =>
             if |tokens| > 4 && tokens[2].Placeholder? && tokens[3].Sign? && tokens[4].Placeholder?
             then Some((MemberCompares(name, tokens[2].n, tokens[3].op, tokens[4].n), tokens[5..])) else None
           case _ => None)
      case ExistsEach =>
        if |tokens| > 4 && tokens[1].Name? && tokens[3].Placeholder? && tokens[4] == Close then
          (match tokens[2]
           case WhereKey => Some((KeyExists(tokens[1].name, tokens[3].n), tokens[5..]))
           case WhereValue => Some((ValueExists(tokens[1].name, tokens[3].n), tokens[5..]))
           case _ => None)
        else None
      case _ => None
  }

  function ReadNames(tokens: seq<Token>): (r: Option<Rest<seq<string>>>)
    ensures r.Some? ==> |r.value.1| < |tokens|
  {
    if tokens == [] || !tokens[0].Name? then None
    else if Starts(tokens[1..], Comma) then
      match ReadNames(tokens[2..])
      case None => None
      case Some((names, rest)) => Some(([tokens[0].name] + names, rest))
    else Some(([tokens[0].name], tokens[1..]))
  }

  function ReadNumbers(tokens: seq<Token>): (r: Option<Rest<seq<nat>>>)
    ensures r.Some? ==> |r.value.1| < |tokens|
  {
    if tokens == [] || !tokens[0].Placeholder? then None
    else if Starts(tokens[1..], Comma) then
      match ReadNumbers(tokens[2..])
      case None => None
      case Some((numbers, rest)) => Some(([tokens[0].n] + numbers, rest))
    else Some(([tokens[0].n], tokens[1..]))
  }

  /** A row-value comparison: both sides must list the same number of items. */
  function ReadTuple(tokens: seq<Token>): (r: Option<Rest<Clause>>)
    ensures r.Some? ==> |r.value.1| < |tokens|
  {
    if !Starts(tokens, Open) then None else
      match ReadNames(tokens[1..])
      case None => None
      case Some((names, rest)) =>
        if |rest| < 3 || rest[..3] != [Close, Sign(Gt), Open] then None else
          match ReadNumbers(rest[3..])
          case None => None
          case Some((numbers, after)) =>
            if Starts(after, Close) && |names| == |numbers| then Some((RowAbove(names, numbers), after[1..]))
            else None
  }

  /** The whole text must be one expression. */
  function Parse(tokens: seq<Token>): Option<Clause> {
    match ReadExpression(tokens)
    case Some((c, rest)) => if rest == [] then Some(c) else None
    case None => None
  }

  // ----- the meaning -----

  function Bind(binds: seq<Value>, n: nat): Cell {
    if 1 <= n <= |binds| then binds[n - 1].Bound() else Cell.Null
  }

  function BindAll(binds: seq<Value>, numbers: seq<nat>): (cells: seq<Cell>)
    ensures |cells| == |numbers|
  {
    if numbers == [] then [] else [Bind(binds, numbers[0])] + BindAll(binds, numbers[1..])
  }

  /** The truth the database gives the expression on a row under its binds. */
  function Run(c: Clause, binds: seq<Value>, row: Row): Truth {
    match c
    case Or(l, r) => Either(Run(l, binds, row), Run(r, binds, row))
    case And(l, r) => Both(Run(l, binds, row), Run(r, binds, row))
    case Negated(inner) => Negate(Run(inner, binds, row))
    case Compares(name, op, n) => Compared(op, row.Get(name), Bind(binds, n))
    case MemberCompares(name, key, op, n) =>
      var k := Bind(binds, key);
      Compared(op, if k.Str? then Member(row.Get(name), k.text) else Cell.Null, Bind(binds, n))
    case Matches(name, n) =>
      var pattern := Bind(binds, n);
      if row.Get(name).Str? && pattern.Str? then Known(Like(pattern.text, row.Get(name).text)) else Unknown
    case KeyExists(name, n) =>
      var k := Bind(binds, n);
      Known(k.Str? && HasKey(row.Get(name), k.text))
    case ValueExists(name, n) =>
      var v := Bind(binds, n);
      Known(v.Str? && HasValue(row.Get(name), v.text))
    case NullTest(name) => Known(row.Get(name).Null?)
    case NotNullTest(name) => Known(!row.Get(name).Null?)
    case RowAbove(names, numbers) =>
      if |names| == |numbers| then TupleAbove(Cells(names, row), BindAll(binds, numbers)) else Unknown
    case Constant(b) => Known(b)
    case Verbatim(sql) => row.Fragment(sql)
  }
}

/** Rendered SQL is unambiguous: reading the tokens of a predicate back gives an expression
    that means the same on every row, however predicates are nested. */
module Rendering {
  import opened Wrappers
  import opened Sql
  import opened Predicates
  import opened Dialect
  import opened Reading
  import Escaping

  /** Every row-value seek lists at least one column and one value per column. */
  predicate WellFormed(p: Predicate)
    decreases p, 1
  {
    match p
    case TupleGt(columns, values) => columns != [] && |columns| == |values|
    case Not(inner) => WellFormed(inner)
    case All(parts) => AllWellFormed(parts)
    case Any(parts) => AllWellFormed(parts)
    case _ => true
  }

  predicate AllWellFormed(parts: seq<Predicate>)
    decreases parts, 0
  {
    parts != [] ==> WellFormed(parts[0]) && AllWellFormed(parts[1..])
  }

  // ----- what a predicate reads back as -----

  function Numbers(n: nat, count: nat): (numbers: seq<nat>)
    ensures |numbers| == count
    decreases count
  {
    if count == 0 then [] else [n + 1] + Numbers(n + 1, count - 1)
  }

  function AsLeaf(p: Predicate, n: nat): Clause
    requires p.Precedence() == 4
  {
    match p
    case Compare(Plain(name), op, _) => Compares(name, op, n + 1)
    case Compare(MapMember(name, _), op, _) => MemberCompares(name, n + 1, op, n + 2)
    case Has(name, Substring(_)) => Matches(name, n + 1)
    case Has(name, Key(_)) => KeyExists(name, n + 1)
    case Has(name, Element(_)) => ValueExists(name, n + 1)
    case Has(name, Present) => NotNullTest(name)
    case IsNull(name) => NullTest(name)
    case TupleGt(columns, values) => RowAbove(columns, Numbers(n, |values|))
  }

  /** Under NOT. */
  function AsNot(p: Predicate, n: nat): Clause
    decreases p, 2
  {
    match p
    case Not(inner) => Negated(AsNot(inner, n))
    case All(_) => AsExpression(p, n)
    case Any(_) => AsExpression(p, n)
    case Raw(_) => AsExpression(p, n)
    case _ => AsLeaf(p, n)
  }

  /** As the next operand of a conjunction already read as `acc`. */
  function AsAnd(acc: Option<Clause>, p: Predicate, n: nat): Clause
    decreases p, 3
  {
    match p
    case All(parts) => if parts == [] then AndWith(acc, Constant(true)) else AsAndAll(acc, parts, n)
    case Any(_) => AndWith(acc, AsExpression(p, n))
    case Raw(_) => AndWith(acc, AsExpression(p, n))
    case _ => AndWith(acc, AsNot(p, n))
  }

  function AsAndAll(acc: Option<Clause>, parts: seq<Predicate>, n: nat): Clause
    requires parts != []
    decreases parts, 0
  {
    var c := AsAnd(acc, parts[0], n);
    if |parts| == 1 then c else AsAndAll(Some(c), parts[1..], n + |Binds(parts[0])|)
  }

  /** As the next operand of a disjunction already read as `acc`. */
  function AsOr(acc: Option<Clause>, p: Predicate, n: nat): Clause
    decreases p, 4
  {
    match p
    case Any(parts) => if parts == [] then OrWith(acc, Constant(false)) else AsOrAny(acc, parts, n)
    case Raw(sql) => OrWith(acc, Verbatim(sql))
    case _ => OrWith(acc, AsAnd(None, p, n))
  }

  function AsOrAny(acc: Option<Clause>, parts: seq<Predicate>, n: nat): Clause
    requires parts != []
    decreases parts, 0
  {
    var c := AsOr(acc, parts[0], n);
    if |parts| == 1 then c else AsOrAny(Some(c), parts[1..], n + |Binds(parts[0])|)
  }

  /** As a whole expression. */
  function AsExpression(p: Predicate, n: nat): Clause
    decreases p, 1
  {
    match p
    case Raw(sql) => Verbatim(sql)
    case Any(parts) => if parts == [] then Constant(false) else AsOrAny(None, parts, n)
    case All(parts) => if parts == [] then Constant(true) else AsAndAll(None, parts, n)
    case Not(inner) => Negated(AsNot(inner, n))
    case _ => AsLeaf(p, n)
  }

  // ----- reading back -----

  function AndRest(c: Clause, rest: seq<Token>): Option<Rest<Clause>> {
    if Starts(rest, AndWord) then ReadAnd(Some(c), rest[1..]) else Some((c, rest))
  }

  function OrRest(c: Clause, rest: seq<Token>): Option<Rest<Clause>> {
    if Starts(rest, OrWord) then ReadOr(Some(c), rest[1..]) else Some((c, rest))
  }

  lemma OneName(name: string, rest: seq<Token>)
    requires !Starts(rest, Comma)
    ensures ReadNames([Name(name)] + rest) == Some(([name], rest))
  {
    assert ([Name(name)] + rest)[1..] == rest;
  }

  lemma NameAndComma(name: string, more: seq<Token>, names: seq<string>, rest: seq<Token>)
    requires ReadNames(more) == Some((names, rest))
    ensures ReadNames([Name(name), Comma] + more) == Some(([name] + names, rest))
  {
    var tokens := [Name(name), Comma] + more;
    assert tokens[1..] == [Comma] + more && tokens[1..][1..] == more;
    assert tokens[2..] == more;
  }

  lemma LongerNameList(names: seq<string>)
    requires |names| > 1
    ensures NameList(names, false) == [Name(names[0]), Comma] + NameList(names[1..], false)
  {
    assert NameList(names[1..], true) == [Comma] + NameList(names[1..], false);
  }

  lemma {:induction false} ReadNamesBack(names: seq<string>, rest: seq<Token>)
    requires names != [] && !Starts(rest, Comma)
    ensures ReadNames(NameList(names, false) + rest) == Some((names, rest))
  {
    if |names| == 1 {
      assert NameList(names, false) == [Name(names[0])] && names == [names[0]];
      OneName(names[0], rest);
    } else {
      var more := NameList(names[1..], false) + rest;
      LongerNameList(names);
      assert NameList(names, false) + rest == [Name(names[0]), Comma] + more;
      ReadNamesBack(names[1..], rest);
      NameAndComma(names[0], more, names[1..], rest);
      assert names == [names[0]] + names[1..];
    }
  }

  lemma {:induction false} ReadNumbersBack(count: nat, n: nat, rest: seq<Token>)
    requires count > 0 && !Starts(rest, Comma)
    ensures ReadNumbers(PlaceholderList(count, n, false) + rest) == Some((Numbers(n, count), rest))
  {
    var tokens := PlaceholderList(count, n, false) + rest;
    if count == 1 {
      assert tokens == [Placeholder(n + 1)] + rest && tokens[1..] == rest;
      assert Numbers(n, 1) == [n + 1];
    } else {
      assert PlaceholderList(count - 1, n + 1, true) == [Comma] + PlaceholderList(count - 1, n + 1, false);
      assert tokens == [Placeholder(n + 1), Comma] + (PlaceholderList(count - 1, n + 1, false) + rest);
      assert tokens[1..][0] == Comma;
      assert tokens[2..] == PlaceholderList(count - 1, n + 1, false) + rest;
      ReadNumbersBack(count - 1, n + 1, rest);
    }
  }

  /** The tokens of a tuple comparison, cut after its opening parenthesis. */
  lemma TupleShape(columns: seq<string>, count: nat, n: nat, rest: seq<Token>)
    ensures var numbers := PlaceholderList(count, n, false) + ([Close] + rest);
            var names := NameList(columns, false) + ([Close, Sign(Gt), Open] + numbers);
            TupleTokens(columns, count, n) + rest == [Open] + names
  {}

  lemma AfterNames(numbers: seq<Token>)
    ensures var after := [Close, Sign(Gt), Open] + numbers; after[..3] == [Close, Sign(Gt), Open] && after[3..] == numbers
  {}

  lemma {:induction false} ReadTupleBack(columns: seq<string>, count: nat, n: nat, rest: seq<Token>)
    ensures ReadAtom(TupleTokens(columns, count, n) + rest)
         == if columns != [] && |columns| == count then Some((RowAbove(columns, Numbers(n, count)), rest)) else None
  {
    var numbers := PlaceholderList(count, n, false) + ([Close] + rest);
    var names := NameList(columns, false) + ([Close, Sign(Gt), Open] + numbers);
    TupleShape(columns, count, n, rest);
    assert ([Open] + names)[1..] == names;
    if columns == [] {
      assert names[0] == Close;
      assert ReadNot(names) == None;
      assert ReadOr(None, names) == None;
    } else {
      ReadNamesBack(columns, [Close, Sign(Gt), Open] + numbers);
      TupleAhead(columns, [Close, Sign(Gt), Open] + numbers);
      AfterNames(numbers);
      if count > 0 {
        ReadNumbersBack(count, n, [Close] + rest);
        assert ([Close] + rest)[1..] == rest;
      } else {
        assert numbers == [Close] + rest;
      }
    }
  }

  /** A name list in parentheses is told from a parenthesised expression by two tokens. */
  lemma TupleAhead(columns: seq<string>, after: seq<Token>)
    requires columns != [] && Starts(after, Close)
    ensures var names := NameList(columns, false) + after;
            |names| > 1 && names[0].Name? && (names[1] == Comma || names[1] == Close)
  {
    if |columns| > 1 {
      assert NameList(columns[1..], true)[0] == Comma;
    }
  }

  lemma {:induction false} LeafBack(p: Predicate, n: nat, rest: seq<Token>)
    requires p.Precedence() == 4
    ensures ReadNot(Tokens(p, n) + rest) == if WellFormed(p) then Some((AsLeaf(p, n), rest)) else None
  {
    var tokens := Tokens(p, n) + rest;
    match p
    case TupleGt(columns, values) => ReadTupleBack(columns, |values|, n, rest);
    case Compare(Plain(name), op, _) =>
      assert tokens == [Name(name), Sign(op), Placeholder(n + 1)] + rest;
      assert tokens[3..] == rest;
    case Compare(MapMember(name, _), op, _) =>
      assert tokens == [Name(name), Arrow, Placeholder(n + 1), Sign(op), Placeholder(n + 2)] + rest;
      assert tokens[5..] == rest;
    case Has(name, test) =>
      assert tokens[|HasTokens(name, test, n)|..] == rest;
    case IsNull(name) =>
      assert tokens[2..] == rest;
  }

  /** No predicate starts like a fragment unless it is one, nor like a row value in
      parentheses. */
  lemma {:induction false} Lead(p: Predicate, n: nat)
    ensures var tokens := Tokens(p, n);
            tokens != [] && (tokens[0].Fragment? <==> p.Raw?)
            && (tokens[0].Name? ==> |tokens| > 1 && tokens[1] != Comma && tokens[1] != Close)
    decreases p, 1
  {
    match p
    case All(parts) => if parts != [] { LeadChild(parts[0], 2, n); }
    case Any(parts) => if parts != [] { LeadChild(parts[0], 1, n); }
    case _ =>
  }

  lemma LeadChild(p: Predicate, precedence: nat, n: nat)
    requires precedence > 0
    ensures var tokens := ChildTokens(p, precedence, n);
            tokens != [] && !tokens[0].Fragment?
            && (tokens[0].Name? ==> |tokens| > 1 && tokens[1] != Comma && tokens[1] != Close)
    decreases p, 2
  {
    Lead(p, n);
  }

  lemma JoinedStarted(parts: seq<Predicate>, separator: Token, precedence: nat, n: nat)
    requires parts != []
    ensures Joined(parts, separator, precedence, n, true) == [separator] + Joined(parts, separator, precedence, n, false)
  {
    var tail := Joined(parts[1..], separator, precedence, n + |Binds(parts[0])|, true);
    var child := ChildTokens(parts[0], precedence, n);
    assert [separator] + child + tail == [separator] + (child + tail);
  }

  lemma Parenthesised(body: seq<Token>, rest: seq<Token>)
    ensures [Open] + body + [Close] + rest == [Open] + (body + ([Close] + rest))
    ensures ([Open] + body + [Close] + rest)[1..] == body + ([Close] + rest) && ([Close] + rest)[1..] == rest
  {
    assert [Open] + body + [Close] + rest == [Open] + (body + ([Close] + rest));
  }

  lemma ParenthesesBack(p: Predicate, n: nat, rest: seq<Token>, expected: Option<Rest<Clause>>)
    requires ReadExpression(Tokens(p, n) + ([Close] + rest)) == expected
    requires expected.Some? ==> expected.value.1 == [Close] + rest
    ensures ReadNot([Open] + Tokens(p, n) + [Close] + rest)
         == if expected.Some? then Some((expected.value.0, rest)) else None
  {
    Lead(p, n);
    Parenthesised(Tokens(p, n), rest);
    var inner := Tokens(p, n) + ([Close] + rest);
    assert inner[0] == Tokens(p, n)[0];
    assert |Tokens(p, n)| > 1 ==> inner[1] == Tokens(p, n)[1];
  }

  lemma {:induction false} NotBack(p: Predicate, n: nat, rest: seq<Token>)
    ensures ReadNot(ChildTokens(p, 3, n) + rest)
         == if WellFormed(p) then Some((AsNot(p, n), rest)) else None
    decreases p, 2
  {
    if p.Precedence() < 3 {
      ExpressionBack(p, n, [Close] + rest);
      ParenthesesBack(p, n, rest, ReadExpression(Tokens(p, n) + ([Close] + rest)));
    } else if p.Not? {
      NotBack(p.inner, n, rest);
      var tokens := [NotWord] + ChildTokens(p.inner, 3, n) + rest;
      assert tokens[1..] == ChildTokens(p.inner, 3, n) + rest;
    } else {
      LeafBack(p, n, rest);
    }
  }

  lemma {:induction false} AndBack(acc: Option<Clause>, p: Predicate, n: nat, rest: seq<Token>)
    ensures ReadAnd(acc, ChildTokens(p, 2, n) + rest)
         == if WellFormed(p) then AndRest(AsAnd(acc, p, n), rest) else None
    decreases p, 3
  {
    if p.Precedence() < 2 {
      ExpressionBack(p, n, [Close] + rest);
      ParenthesesBack(p, n, rest, ReadExpression(Tokens(p, n) + ([Close] + rest)));
    } else if p.All? {
      if p.parts == [] {
        AlwaysBack(true, rest);
      } else {
        AndAllBack(acc, p.parts, n, rest);
      }
    } else {
      NotBack(p, n, rest);
    }
  }

  lemma AlwaysBack(b: bool, rest: seq<Token>)
    ensures ReadNot([Always(b)] + rest) == Some((Constant(b), rest))
  {
    assert ([Always(b)] + rest)[1..] == rest;
  }

  lemma {:induction false} AndAllBack(acc: Option<Clause>, parts: seq<Predicate>, n: nat, rest: seq<Token>)
    requires parts != []
    ensures ReadAnd(acc, Joined(parts, AndWord, 2, n, false) + rest)
         == if AllWellFormed(parts) then AndRest(AsAndAll(acc, parts, n), rest) else None
    decreases parts, 0
  {
    var child := ChildTokens(parts[0], 2, n);
    var m := n + |Binds(parts[0])|;
    var tail := Joined(parts[1..], AndWord, 2, m, true);
    assert Joined(parts, AndWord, 2, n, false) + rest == child + (tail + rest);
    AndBack(acc, parts[0], n, tail + rest);
    if |parts| == 1 {
      assert tail + rest == rest;
    } else {
      JoinedStarted(parts[1..], AndWord, 2, m);
      var next := Joined(parts[1..], AndWord, 2, m, false) + rest;
      assert tail + rest == [AndWord] + next;
      assert (tail + rest)[1..] == next;
      AndAllBack(Some(AsAnd(acc, parts[0], n)), parts[1..], m, rest);
    }
  }

  lemma {:induction false} OrBack(acc: Option<Clause>, p: Predicate, n: nat, rest: seq<Token>)
    requires !Starts(rest, AndWord)
    ensures ReadOr(acc, ChildTokens(p, 1, n) + rest)
         == if WellFormed(p) then OrRest(AsOr(acc, p, n), rest) else None
    decreases p, 4
  {
    if p.Raw? {
      ExpressionBack(p, n, [Close] + rest);
      ParenthesesBack(p, n, rest, ReadExpression(Tokens(p, n) + ([Close] + rest)));
    } else if p.Any? {
      if p.parts == [] {
        AlwaysBack(false, rest);
      } else {
        OrAnyBack(acc, p.parts, n, rest);
      }
    } else {
      AndBack(None, p, n, rest);
    }
  }

  lemma {:induction false} OrAnyBack(acc: Option<Clause>, parts: seq<Predicate>, n: nat, rest: seq<Token>)
    requires parts != [] && !Starts(rest, AndWord)
    ensures ReadOr(acc, Joined(parts, OrWord, 1, n, false) + rest)
         == if AllWellFormed(parts) then OrRest(AsOrAny(acc, parts, n), rest) else None
    decreases parts, 0
  {
    var child := ChildTokens(parts[0], 1, n);
    var m := n + |Binds(parts[0])|;
    var tail := Joined(parts[1..], OrWord, 1, m, true);
    assert Joined(parts, OrWord, 1, n, false) + rest == child + (tail + rest);
    if |parts| == 1 {
      assert tail + rest == rest;
      OrBack(acc, parts[0], n, rest);
    } else {
      JoinedStarted(parts[1..], OrWord, 1, m);
      var next := Joined(parts[1..], OrWord, 1, m, false) + rest;
      assert tail + rest == [OrWord] + next;
      assert (tail + rest)[1..] == next;
      OrBack(acc, parts[0], n, tail + rest);
      OrAnyBack(Some(AsOr(acc, parts[0], n)), parts[1..], m, rest);
    }
  }

  lemma ThroughNot(tokens: seq<Token>, read: Option<Rest<Clause>>)
    requires tokens != [] && !tokens[0].Fragment? && ReadNot(tokens) == read
    requires read.Some? ==> !Starts(read.value.1, AndWord) && !Starts(read.value.1, OrWord)
    ensures ReadExpression(tokens) == read
  {
    assert ReadAnd(None, tokens) == read;
  }

  lemma {:induction false} ExpressionBack(p: Predicate, n: nat, rest: seq<Token>)
    requires !Starts(rest, AndWord) && !Starts(rest, OrWord)
    ensures ReadExpression(Tokens(p, n) + rest)
         == if WellFormed(p) then Some((AsExpression(p, n), rest)) else None
    decreases p, 1
  {
    Lead(p, n);
    var tokens := Tokens(p, n) + rest;
    match p
    case Raw(sql) => assert tokens[0] == Fragment(sql) && tokens[1..] == rest;
    case Any(parts) =>
      if parts == [] {
        AlwaysBack(false, rest);
        ThroughNot(tokens, ReadNot(tokens));
      } else {
        OrAnyBack(None, parts, n, rest);
      }
    case All(parts) =>
      if parts == [] {
        AlwaysBack(true, rest);
        ThroughNot(tokens, ReadNot(tokens));
      } else {
        AndAllBack(None, parts, n, rest);
      }
    case Not(inner) =>
      assert tokens[1..] == ChildTokens(inner, 3, n) + rest;
      NotBack(inner, n, rest);
      ThroughNot(tokens, ReadNot(tokens));
    case _ =>
      LeafBack(p, n, rest);
      ThroughNot(tokens, ReadNot(tokens));
  }

  // ----- meaning -----

  /** The binds from position `n` on begin with `values`. */
  ghost predicate BoundAt(binds: seq<Value>, n: nat, values: seq<Value>) {
    n + |values| <= |binds| && binds[n..n + |values|] == values
  }

  ghost function RunAll(acc: Option<Clause>, binds: seq<Value>, row: Row): Truth {
    match acc case None => True case Some(c) => Run(c, binds, row)
  }

  ghost function RunAny(acc: Option<Clause>, binds: seq<Value>, row: Row): Truth {
    match acc case None => False case Some(c) => Run(c, binds, row)
  }

  lemma BoundSplit(binds: seq<Value>, n: nat, a: seq<Value>, b: seq<Value>)
    requires BoundAt(binds, n, a + b)
    ensures BoundAt(binds, n, a) && BoundAt(binds, n + |a|, b)
  {
    var all := binds[n..n + |a + b|];
    assert binds[n..n + |a|] == all[..|a|] && binds[n + |a|..n + |a| + |b|] == all[|a|..];
  }

  lemma BoundElement(binds: seq<Value>, n: nat, values: seq<Value>, i: nat)
    requires BoundAt(binds, n, values) && i < |values|
    ensures binds[n + i] == values[i]
  {
    assert binds[n..n + |values|][i] == values[i];
  }

  lemma {:induction false} BindNumbers(binds: seq<Value>, n: nat, values: seq<Value>)
    requires BoundAt(binds, n, values)
    ensures BindAll(binds, Numbers(n, |values|)) == Bounds(values)
    decreases |values|
  {
    if values != [] {
      assert values == [values[0]] + values[1..];
      BoundSplit(binds, n, [values[0]], values[1..]);
      assert binds[n..n + |values|][0] == binds[n];
      BindNumbers(binds, n + 1, values[1..]);
    }
  }

  lemma RunCompare(column: Column, op: CmpOp, value: Value, n: nat, binds: seq<Value>, row: Row)
    requires BoundAt(binds, n, Binds(Compare(column, op, value)))
    ensures Run(AsLeaf(Compare(column, op, value), n), binds, row) == Eval(Compare(column, op, value), row)
  {
    BoundElement(binds, n, Binds(Compare(column, op, value)), 0);
    BoundElement(binds, n, Binds(Compare(column, op, value)), |ColumnBinds(column)|);
  }

  lemma {:induction false} RunLeaf(p: Predicate, n: nat, binds: seq<Value>, row: Row)
    requires p.Precedence() == 4 && BoundAt(binds, n, Binds(p))
    ensures Run(AsLeaf(p, n), binds, row) == Eval(p, row)
  {
    match p
    case TupleGt(columns, values) => BindNumbers(binds, n, values);
    case Compare(column, op, value) => RunCompare(column, op, value, n, binds, row);
    case Has(name, test) =>
      if test.Present? {
      } else {
        BoundElement(binds, n, Binds(p), 0);
      }
      if test.Substring? && row.Get(name).Str? {
        Escaping.EscapedPatternIsSubstring(test.needle, row.Get(name).text);
      }
    case IsNull(_) =>
  }

  lemma {:induction false} RunNot(p: Predicate, n: nat, binds: seq<Value>, row: Row)
    requires BoundAt(binds, n, Binds(p))
    ensures Run(AsNot(p, n), binds, row) == Eval(p, row)
    decreases p, 2
  {
    if p.Not? {
      RunNot(p.inner, n, binds, row);
    } else if p.Precedence() == 4 {
      RunLeaf(p, n, binds, row);
    } else {
      RunExpression(p, n, binds, row);
    }
  }

  lemma {:induction false} RunAnd(acc: Option<Clause>, p: Predicate, n: nat, binds: seq<Value>, row: Row)
    requires BoundAt(binds, n, Binds(p))
    ensures Run(AsAnd(acc, p, n), binds, row) == Both(RunAll(acc, binds, row), Eval(p, row))
    decreases p, 3
  {
    if p.All? && p.parts != [] {
      RunAndAll(acc, p.parts, n, binds, row);
    } else if p.Precedence() >= 3 {
      RunNot(p, n, binds, row);
    } else {
      RunExpression(p, n, binds, row);
    }
  }

  lemma {:induction false} RunAndAll(acc: Option<Clause>, parts: seq<Predicate>, n: nat, binds: seq<Value>, row: Row)
    requires parts != [] && BoundAt(binds, n, JoinedBinds(parts))
    ensures Run(AsAndAll(acc, parts, n), binds, row) == Both(RunAll(acc, binds, row), EvalAll(parts, row))
    decreases parts, 0
  {
    BoundSplit(binds, n, Binds(parts[0]), JoinedBinds(parts[1..]));
    RunAnd(acc, parts[0], n, binds, row);
    if |parts| > 1 {
      RunAndAll(Some(AsAnd(acc, parts[0], n)), parts[1..], n + |Binds(parts[0])|, binds, row);
    }
  }

  lemma {:induction false} RunOr(acc: Option<Clause>, p: Predicate, n: nat, binds: seq<Value>, row: Row)
    requires BoundAt(binds, n, Binds(p))
    ensures Run(AsOr(acc, p, n), binds, row) == Either(RunAny(acc, binds, row), Eval(p, row))
    decreases p, 4
  {
    if p.Any? && p.parts != [] {
      RunOrAny(acc, p.parts, n, binds, row);
    } else if p.Precedence() >= 2 {
      RunAnd(None, p, n, binds, row);
    }
  }

  lemma {:induction false} RunOrAny(acc: Option<Clause>, parts: seq<Predicate>, n: nat, binds: seq<Value>, row: Row)
    requires parts != [] && BoundAt(binds, n, JoinedBinds(parts))
    ensures Run(AsOrAny(acc, parts, n), binds, row) == Either(RunAny(acc, binds, row), EvalAny(parts, row))
    decreases parts, 0
  {
    BoundSplit(binds, n, Binds(parts[0]), JoinedBinds(parts[1..]));
    RunOr(acc, parts[0], n, binds, row);
    if |parts| > 1 {
      RunOrAny(Some(AsOr(acc, parts[0], n)), parts[1..], n + |Binds(parts[0])|, binds, row);
    }
  }

  lemma {:induction false} RunExpression(p: Predicate, n: nat, binds: seq<Value>, row: Row)
    requires BoundAt(binds, n, Binds(p))
    ensures Run(AsExpression(p, n), binds, row) == Eval(p, row)
    decreases p, 1
  {
    match p
    case Any(parts) => if parts != [] { RunOrAny(None, parts, n, binds, row); }
    case All(parts) => if parts != [] { RunAndAll(None, parts, n, binds, row); }
    case Not(inner) => RunNot(inner, n, binds, row);
    case Raw(_) =>
    case _ => RunLeaf(p, n, binds, row);
  }

  // ----- the theorems -----

  /** The rendered text is one readable expression exactly when every row-value seek in the
      predicate is non-empty and has as many values as columns. */
  lemma ReadableIffWellFormed(p: Predicate)
    ensures Parse(Tokens(p, 0)).Some? <==> WellFormed(p)
  {
    ExpressionBack(p, 0, []);
    assert Tokens(p, 0) + [] == Tokens(p, 0);
  }

  /** Rendering preserves meaning: what the database reads, run under the rendered binds,
      has the predicate's own truth on every row. */
  lemma RenderedMeansThePredicate(p: Predicate, row: Row)
    requires WellFormed(p)
    ensures Parse(Tokens(p, 0)).Some?
    ensures Run(Parse(Tokens(p, 0)).value, Binds(p), row) == Eval(p, row)
  {
    ExpressionBack(p, 0, []);
    assert Tokens(p, 0) + [] == Tokens(p, 0);
    RunExpression(p, 0, Binds(p), row);
  }

  // ----- placeholder numbering -----

  /** The placeholder numbers of a token list, left to right. */
  function PlaceholdersOf(tokens: seq<Token>): seq<nat> {
    if tokens == [] then []
    else (if tokens[0].Placeholder? then [tokens[0].n] else []) + PlaceholdersOf(tokens[1..])
  }

  lemma {:induction false} PlaceholdersConcat(a: seq<Token>, b: seq<Token>)
    ensures PlaceholdersOf(a + b) == PlaceholdersOf(a) + PlaceholdersOf(b)
  {
    if a == [] {
      assert a + b == b;
    } else {
      assert (a + b)[1..] == a[1..] + b;
      PlaceholdersConcat(a[1..], b);
    }
  }

  lemma PlaceholdersCons(token: Token, rest: seq<Token>)
    ensures PlaceholdersOf([token] + rest) == (if token.Placeholder? then [token.n] else []) + PlaceholdersOf(rest)
  {
    assert ([token] + rest)[1..] == rest;
  }

  lemma PlaceholdersOfFive(a: Token, b: Token, c: Token, d: Token, e: Token)
    ensures PlaceholdersOf([a, b, c]) == PlaceholdersOf([a]) + PlaceholdersOf([b]) + PlaceholdersOf([c])
    ensures PlaceholdersOf([a, b, c, d, e]) == PlaceholdersOf([a, b, c]) + PlaceholdersOf([d]) + PlaceholdersOf([e])
  {
    assert [a, b, c] == [a, b] + [c] && [a, b] == [a] + [b] && [a, b, c, d, e] == [a, b, c] + ([d] + [e]);
    PlaceholdersConcat([a], [b]);
    PlaceholdersConcat([a, b], [c]);
    PlaceholdersConcat([a, b, c], [d] + [e]);
    PlaceholdersConcat([d], [e]);
  }

  lemma HasNumbers(name: string, test: HasTest, n: nat)
    ensures PlaceholdersOf(HasTokens(name, test, n)) == Numbers(n, |HasBinds(test)|)
  {
    var number := Placeholder(n + 1);
    match test
    case Substring(_) =>
      PlaceholdersOfFive(Name(name), LikeWord, number, EscapeClause, Close);
      PlaceholdersConcat([Name(name), LikeWord, number], [EscapeClause]);
      assert HasTokens(name, test, n) == [Name(name), LikeWord, number] + [EscapeClause];
    case Key(_) => PlaceholdersOfFive(ExistsEach, Name(name), WhereKey, number, Close);
    case Element(_) => PlaceholdersOfFive(ExistsEach, Name(name), WhereValue, number, Close);
    case Present => PlaceholdersCons(Name(name), [IsNotNullWord]);
  }

  lemma CompareNumbers(column: Column, op: CmpOp, n: nat)
    ensures PlaceholdersOf(CompareTokens(column, op, n)) == Numbers(n, |ColumnBinds(column)| + 1)
  {
    var number := Placeholder(n + 1);
    match column
    case Plain(c) =>
      PlaceholdersOfFive(Name(c), Sign(op), number, Close, Close);
      assert CompareTokens(column, op, n) == [Name(c), Sign(op), number];
    case MapMember(c, _) =>
      PlaceholdersOfFive(Name(c), Arrow, number, Sign(op), Placeholder(n + 2));
      assert CompareTokens(column, op, n) == [Name(c), Arrow, number, Sign(op), Placeholder(n + 2)];
      assert Numbers(n, 2) == [n + 1] + Numbers(n + 1, 1);
  }

  lemma {:induction false} NumbersConcat(n: nat, a: nat, b: nat)
    ensures Numbers(n, a + b) == Numbers(n, a) + Numbers(n + a, b)
    decreases a
  {
    if a > 0 {
      NumbersConcat(n + 1, a - 1, b);
    }
  }

  lemma {:induction false} NamesHaveNone(names: seq<string>, started: bool)
    ensures PlaceholdersOf(NameList(names, started)) == []
  {
    if names != [] {
      NamesHaveNone(names[1..], true);
      var head := Between(started, Comma) + [Name(names[0])];
      PlaceholdersConcat(head, NameList(names[1..], true));
      PlaceholdersConcat(Between(started, Comma), [Name(names[0])]);
    }
  }

  lemma {:induction false} ListNumbers(count: nat, n: nat, started: bool)
    ensures PlaceholdersOf(PlaceholderList(count, n, started)) == Numbers(n, count)
    decreases count
  {
    if count > 0 {
      ListNumbers(count - 1, n + 1, true);
      var head := Between(started, Comma) + [Placeholder(n + 1)];
      PlaceholdersConcat(head, PlaceholderList(count - 1, n + 1, true));
      PlaceholdersConcat(Between(started, Comma), [Placeholder(n + 1)]);
    }
  }

  lemma {:induction false} TupleNumbers(columns: seq<string>, count: nat, n: nat)
    ensures PlaceholdersOf(TupleTokens(columns, count, n)) == Numbers(n, count)
  {
    var names := NameList(columns, false);
    var numbers := PlaceholderList(count, n, false);
    NamesHaveNone(columns, false);
    ListNumbers(count, n, false);
    PlaceholdersConcat([Open], names);
    PlaceholdersConcat([Open] + names, [Close, Sign(Gt), Open]);
    PlaceholdersConcat([Open] + names + [Close, Sign(Gt), Open], numbers);
    PlaceholdersConcat([Open] + names + [Close, Sign(Gt), Open] + numbers, [Close]);
    assert PlaceholdersOf([Close, Sign(Gt), Open]) == [] by {
      assert [Close, Sign(Gt), Open][1..] == [Sign(Gt), Open] && [Sign(Gt), Open][1..] == [Open];
    }
  }

  /** Placeholders are numbered left to right without gaps or repeats, one per bind, from
      the first free slot on. */
  lemma {:induction false} PlaceholdersAreConsecutive(p: Predicate, n: nat)
    ensures PlaceholdersOf(Tokens(p, n)) == Numbers(n, |Binds(p)|)
    decreases p, 1
  {
    match p
    case Compare(column, op, _) => CompareNumbers(column, op, n);
    case Has(name, test) => HasNumbers(name, test, n);
    case TupleGt(columns, values) => TupleNumbers(columns, |values|, n);
    case Not(inner) =>
      ChildNumbers(inner, 3, n);
      PlaceholdersConcat([NotWord], ChildTokens(inner, 3, n));
    case All(parts) => JoinedNumbers(parts, AndWord, 2, n, false);
    case Any(parts) => JoinedNumbers(parts, OrWord, 1, n, false);
    case Raw(_) =>
    case IsNull(name) => PlaceholdersCons(Name(name), [IsNullWord]);
  }

  lemma ChildNumbers(p: Predicate, precedence: nat, n: nat)
    ensures PlaceholdersOf(ChildTokens(p, precedence, n)) == Numbers(n, |Binds(p)|)
    decreases p, 2
  {
    PlaceholdersAreConsecutive(p, n);
    PlaceholdersConcat([Open], Tokens(p, n));
    PlaceholdersConcat([Open] + Tokens(p, n), [Close]);
  }

  lemma {:induction false} JoinedNumbers(parts: seq<Predicate>, separator: Token, precedence: nat, n: nat, started: bool)
    requires !separator.Placeholder?
    ensures PlaceholdersOf(Joined(parts, separator, precedence, n, started)) == Numbers(n, |JoinedBinds(parts)|)
    decreases parts, 0
  {
    if parts != [] {
      var m := n + |Binds(parts[0])|;
      var head := Between(started, separator) + ChildTokens(parts[0], precedence, n);
      ChildNumbers(parts[0], precedence, n);
      JoinedNumbers(parts[1..], separator, precedence, m, true);
      PlaceholdersConcat(Between(started, separator), ChildTokens(parts[0], precedence, n));
      PlaceholdersConcat(head, Joined(parts[1..], separator, precedence, m, true));
      NumbersConcat(n, |Binds(parts[0])|, |JoinedBinds(parts[1..])|);
    }
  }
}

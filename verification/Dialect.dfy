/** Rendering a predicate to SQL text and binds in one pass (the SQLite dialect).

    The writer below pushes text. Its specification goes through tokens: `Tokens(p, n)` is
    what is written for `p` after `n` binds, and `Spell` is the exact text of a token list,
    spaces included. */
module Dialect {
  import opened Text
  import opened Predicates

  datatype Token =
    | Open
    | Close
    | Comma
    | AndWord
    | OrWord
    | NotWord
    | Name(name: string)
    | Sign(op: CmpOp)
    | Placeholder(n: nat)
    | Arrow
    | LikeWord
    | EscapeClause
    | ExistsEach
    | WhereKey
    | WhereValue
    | IsNullWord
    | IsNotNullWord
    | Always(b: bool)
    | Fragment(sql: string)

  function SignText(op: CmpOp): string {
    match op
    case Eq => "="
    case Ne => "!="
    case Lt => "<"
    case Le => "<="
    case Gt => ">"
    case Ge => ">="
  }

  function PlaceholderText(n: nat): string {
    "?" + Decimal(n)
  }

  function Spelling(token: Token): string {
    match token
    case Open => "("
    case Close => ")"
    case Comma => ", "
    case AndWord => " AND "
    case OrWord => " OR "
    case NotWord => "NOT "
    case Name(name) => name
    case Sign(op) => " " + SignText(op) + " "
    case Placeholder(n) => PlaceholderText(n)
    case Arrow => " ->> "
    case LikeWord => " LIKE "
    case EscapeClause => " ESCAPE '\\'"
    case ExistsEach => "EXISTS (SELECT 1 FROM json_each("
    case WhereKey => ") WHERE key = "
    case WhereValue => ") WHERE value = "
    case IsNullWord => " IS NULL"
    case IsNotNullWord => " IS NOT NULL"
    case Always(b) => if b then "1 = 1" else "1 = 0"
    case Fragment(sql) => sql
  }

  function Spell(tokens: seq<Token>): string {
    if tokens == [] then [] else Spelling(tokens[0]) + Spell(tokens[1..])
  }

  lemma {:induction false} SpellConcat(a: seq<Token>, b: seq<Token>)
    ensures Spell(a + b) == Spell(a) + Spell(b)
  {
    if a == [] {
      assert a + b == b;
    } else {
      assert (a + b)[1..] == a[1..] + b;
      SpellConcat(a[1..], b);
    }
  }

  /** The value with every LIKE metacharacter preceded by a backslash. */
  function Escaped(value: string): string {
    if value == [] then []
    else (if value[0] in ['\\', '%', '_'] then ['\\'] else []) + [value[0]] + Escaped(value[1..])
  }

  function ColumnTokens(column: Column, n: nat): seq<Token> {
    match column
    case Plain(name) => [Name(name)]
    case MapMember(name, _) => [Name(name), Arrow, Placeholder(n + 1)]
  }

  function ColumnBinds(column: Column): seq<Value> {
    match column
    case Plain(_) => []
    case MapMember(_, key) => [Value.Text(key)]
  }

  function HasTokens(name: string, test: HasTest, n: nat): seq<Token> {
    match test
    case Substring(_) => [Name(name), LikeWord, Placeholder(n + 1), EscapeClause]
    case Key(_) => [ExistsEach, Name(name), WhereKey, Placeholder(n + 1), Close]
    case Element(_) => [ExistsEach, Name(name), WhereValue, Placeholder(n + 1), Close]
    case Present => [Name(name), IsNotNullWord]
  }

  function HasBinds(test: HasTest): seq<Value> {
    match test
    case Substring(needle) => [Value.Text("%" + Escaped(needle) + "%")]
    case Key(key) => [Value.Text(key)]
    case Element(value) => [Value.Text(value)]
    case Present => []
  }

  /** A separator between two items, nothing before the first. */
  function Between(started: bool, separator: Token): seq<Token> {
    if started then [separator] else []
  }

  function NameList(names: seq<string>, started: bool): seq<Token> {
    if names == [] then []
    else Between(started, Comma) + [Name(names[0])] + NameList(names[1..], true)
  }

  function PlaceholderList(count: nat, n: nat, started: bool): seq<Token> {
    if count == 0 then []
    else Between(started, Comma) + [Placeholder(n + 1)] + PlaceholderList(count - 1, n + 1, true)
  }

  function CompareTokens(column: Column, op: CmpOp, n: nat): seq<Token> {
    ColumnTokens(column, n) + [Sign(op), Placeholder(n + |ColumnBinds(column)| + 1)]
  }

  function TupleTokens(columns: seq<string>, count: nat, n: nat): seq<Token> {
    [Open] + NameList(columns, false) + [Close, Sign(Gt), Open] + PlaceholderList(count, n, false) + [Close]
  }

  /** What is written for `p` when `n` values are already bound. */
  function Tokens(p: Predicate, n: nat): seq<Token>
    decreases p, 1
  {
    match p
    case Compare(column, op, _) => CompareTokens(column, op, n)
    case Has(name, test) => HasTokens(name, test, n)
    case IsNull(name) => [Name(name), IsNullWord]
    case TupleGt(columns, values) => TupleTokens(columns, |values|, n)
    case Raw(sql) => [Fragment(sql)]
    case Not(inner) => [NotWord] + ChildTokens(inner, 3, n)
    case All(parts) => if parts == [] then [Always(true)] else Joined(parts, AndWord, 2, n, false)
    case Any(parts) => if parts == [] then [Always(false)] else Joined(parts, OrWord, 1, n, false)
  }

  /** A child is parenthesised only when it binds looser than its parent. */
  function ChildTokens(child: Predicate, precedence: nat, n: nat): seq<Token>
    decreases child, 2
  {
    if child.Precedence() < precedence then [Open] + Tokens(child, n) + [Close] else Tokens(child, n)
  }

  function Joined(parts: seq<Predicate>, separator: Token, precedence: nat, n: nat, started: bool): seq<Token>
    decreases parts, 0
  {
    if parts == [] then []
    else Between(started, separator) + ChildTokens(parts[0], precedence, n)
         + Joined(parts[1..], separator, precedence, n + |Binds(parts[0])|, true)
  }

  /** The values bound for `p`, in the order they are written. */
  function Binds(p: Predicate): seq<Value>
    decreases p, 1
  {
    match p
    case Compare(column, _, value) => ColumnBinds(column) + [value]
    case Has(_, test) => HasBinds(test)
    case TupleGt(_, values) => values
    case Not(inner) => Binds(inner)
    case All(parts) => JoinedBinds(parts)
    case Any(parts) => JoinedBinds(parts)
    case _ => []
  }

  function JoinedBinds(parts: seq<Predicate>): seq<Value>
    decreases parts, 0
  {
    if parts == [] then [] else Binds(parts[0]) + JoinedBinds(parts[1..])
  }

  /** `escape_like`: one pass over the characters. */
  method EscapeLike(value: string) returns (escaped: string)
    ensures escaped == Escaped(value)
  {
    escaped := [];
    for i := 0 to |value|
      invariant escaped + Escaped(value[i..]) == Escaped(value)
    {
      var ch := value[i];
      assert value[i..][1..] == value[i + 1..];
      if ch in ['\\', '%', '_'] {
        escaped := escaped + ['\\'];
      }
      escaped := escaped + [ch];
    }
    assert value[|value|..] == [];
  }

  /** `render_has`: the leaf's text and its binds, given the number of its placeholder. */
  function RenderHas(name: string, test: HasTest, nextBind: nat): (string, seq<Value>) {
    var placeholder := PlaceholderText(nextBind);
    match test
    case Substring(needle) =>
      (name + " LIKE " + placeholder + " ESCAPE '\\'", [Value.Text("%" + Escaped(needle) + "%")])
    case Key(key) =>
      ("EXISTS (SELECT 1 FROM json_each(" + name + ") WHERE key = " + placeholder + ")", [Value.Text(key)])
    case Element(value) =>
      ("EXISTS (SELECT 1 FROM json_each(" + name + ") WHERE value = " + placeholder + ")", [Value.Text(value)])
    case Present => (name + " IS NOT NULL", [])
  }

  lemma SpellCons(token: Token, rest: seq<Token>)
    ensures Spell([token] + rest) == Spelling(token) + Spell(rest)
  {
    assert ([token] + rest)[1..] == rest;
  }

  lemma SpellTwo(a: Token, b: Token)
    ensures Spell([a, b]) == Spelling(a) + Spelling(b)
  {
    SpellCons(a, [b]);
    assert Spell([b]) == Spelling(b);
  }

  lemma SpellThree(a: Token, b: Token, c: Token)
    ensures Spell([a, b, c]) == Spelling(a) + Spelling(b) + Spelling(c)
  {
    SpellTwo(a, b);
    assert [a, b, c] == [a, b] + [c];
    SpellConcat([a, b], [c]);
    assert Spell([c]) == Spelling(c);
  }

  lemma SpellFour(a: Token, b: Token, c: Token, d: Token)
    ensures Spell([a, b, c, d]) == Spelling(a) + Spelling(b) + Spelling(c) + Spelling(d)
  {
    SpellThree(a, b, c);
    assert [a, b, c, d] == [a, b, c] + [d];
    SpellConcat([a, b, c], [d]);
    assert Spell([d]) == Spelling(d);
  }

  lemma SpellFive(a: Token, b: Token, c: Token, d: Token, e: Token)
    ensures Spell([a, b, c, d, e]) == Spelling(a) + Spelling(b) + Spelling(c) + Spelling(d) + Spelling(e)
  {
    SpellFour(a, b, c, d);
    assert [a, b, c, d, e] == [a, b, c, d] + [e];
    SpellConcat([a, b, c, d], [e]);
    assert Spell([e]) == Spelling(e);
  }

  lemma RenderEachSpells(name: string, where: Token, n: nat)
    requires where == WhereKey || where == WhereValue
    ensures Spell([ExistsEach, Name(name), where, Placeholder(n), Close])
         == "EXISTS (SELECT 1 FROM json_each(" + name + Spelling(where) + PlaceholderText(n) + ")"
  {
    SpellFive(ExistsEach, Name(name), where, Placeholder(n), Close);
  }

  lemma {:induction false} RenderHasSpells(name: string, test: HasTest, n: nat)
    ensures RenderHas(name, test, n + 1).0 == Spell(HasTokens(name, test, n))
    ensures RenderHas(name, test, n + 1).1 == HasBinds(test)
  {
    match test
    case Substring(_) => SpellFour(Name(name), LikeWord, Placeholder(n + 1), EscapeClause);
    case Key(_) => RenderEachSpells(name, WhereKey, n + 1);
    case Element(_) => RenderEachSpells(name, WhereValue, n + 1);
    case Present => SpellTwo(Name(name), IsNotNullWord);
  }

  /** The two buffers `render` appends to, and the tokens written so far. */
  class Statement {
    var sql: string
    var binds: seq<Value>
    ghost var written: seq<Token>

    ghost predicate Valid()
      reads this
    {
      sql == Spell(written)
    }

    constructor ()
      ensures Valid() && sql == "" && written == [] && binds == []
    {
      sql, binds, written := "", [], [];
    }

    /** Append the text of one token. */
    method Push(text: string, ghost token: Token)
      requires Valid() && text == Spelling(token)
      modifies this`sql, this`written
      ensures Valid() && written == old(written) + [token]
    {
      assert [token][1..] == [];
      SpellConcat(written, [token]);
      sql := sql + text;
      written := written + [token];
    }

    method WriteColumn(column: Column)
      requires Valid()
      modifies this
      ensures Valid()
      ensures written == old(written) + ColumnTokens(column, |old(binds)|)
      ensures binds == old(binds) + ColumnBinds(column)
    {
      match column
      case Plain(name) => Push(name, Name(name));
      case MapMember(name, key) =>
        Push(name, Name(name));
        Push(" ->> ", Arrow);
        Push(PlaceholderText(|binds| + 1), Placeholder(|binds| + 1));
        binds := binds + [Value.Text(key)];
    }

    method WriteNames(columns: seq<string>)
      requires Valid()
      modifies this`sql, this`written
      ensures Valid()
      ensures written == old(written) + NameList(columns, false)
    {
      for i := 0 to |columns|
        invariant Valid()
        invariant written + NameList(columns[i..], i > 0) == old(written) + NameList(columns, false)
      {
        assert columns[i..][1..] == columns[i + 1..];
        Regroup(written, Between(i > 0, Comma), [Name(columns[i])], NameList(columns[i + 1..], true));
        if i > 0 {
          Push(", ", Comma);
        }
        Push(columns[i], Name(columns[i]));
      }
    }

    method WritePlaceholders(values: seq<Value>)
      requires Valid()
      modifies this
      ensures Valid()
      ensures written == old(written) + PlaceholderList(|values|, |old(binds)|, false)
      ensures binds == old(binds) + values
    {
      for i := 0 to |values|
        invariant Valid() && binds == old(binds) + values[..i]
        invariant written + PlaceholderList(|values| - i, |binds|, i > 0)
               == old(written) + PlaceholderList(|values|, |old(binds)|, false)
      {
        Regroup(written, Between(i > 0, Comma), [Placeholder(|binds| + 1)],
                PlaceholderList(|values| - i - 1, |binds| + 1, true));
        if i > 0 {
          Push(", ", Comma);
        }
        Push(PlaceholderText(|binds| + 1), Placeholder(|binds| + 1));
        binds := binds + [values[i]];
      }
    }

    method WriteTuple(columns: seq<string>, values: seq<Value>)
      requires Valid()
      modifies this
      ensures Valid()
      ensures written == old(written) + TupleTokens(columns, |values|, |old(binds)|)
      ensures binds == old(binds) + values
    {
      RegroupTuple(written, NameList(columns, false), PlaceholderList(|values|, |binds|, false));
      Push("(", Open);
      WriteNames(columns);
      Push(")", Close);
      Push(" > ", Sign(Gt));
      Push("(", Open);
      WritePlaceholders(values);
      Push(")", Close);
    }

    method WriteCompare(column: Column, op: CmpOp, value: Value)
      requires Valid()
      modifies this
      ensures Valid()
      ensures written == old(written) + CompareTokens(column, op, |old(binds)|)
      ensures binds == old(binds) + ColumnBinds(column) + [value]
    {
      WriteColumn(column);
      Push(" " + SignText(op) + " ", Sign(op));
      Push(PlaceholderText(|binds| + 1), Placeholder(|binds| + 1));
      binds := binds + [value];
    }

    method WriteHas(name: string, test: HasTest)
      requires Valid()
      modifies this
      ensures Valid()
      ensures written == old(written) + HasTokens(name, test, |old(binds)|)
      ensures binds == old(binds) + HasBinds(test)
    {
      var (leafSql, leafBinds) := RenderHas(name, test, |binds| + 1);
      RenderHasSpells(name, test, |binds|);
      SpellConcat(written, HasTokens(name, test, |binds|));
      written := written + HasTokens(name, test, |binds|);
      sql := sql + leafSql;
      binds := binds + leafBinds;
    }

    method WriteIsNull(name: string)
      requires Valid()
      modifies this`sql, this`written
      ensures Valid()
      ensures written == old(written) + [Name(name), IsNullWord]
    {
      Push(name, Name(name));
      Push(" IS NULL", IsNullWord);
    }

    /** Append `node` without enclosing parentheses, numbering each placeholder by the
        binds that precede it. */
    method WriteNode(node: Predicate)
      requires Valid()
      modifies this
      ensures Valid()
      ensures written == old(written) + Tokens(node, |old(binds)|)
      ensures binds == old(binds) + Binds(node)
      decreases node, 1
    {
      match node
      case Compare(column, op, value) => WriteCompare(column, op, value);
      case Has(name, test) => WriteHas(name, test);
      case IsNull(name) => WriteIsNull(name);
      case TupleGt(columns, values) => WriteTuple(columns, values);
      case Raw(text) => Push(text, Fragment(text));
      case Not(inner) => WriteNot(inner, node.Precedence());
      case All(parts) => WriteJoin(parts, " AND ", node.Precedence(), "1 = 1", AndWord, Always(true));
      case Any(parts) => WriteJoin(parts, " OR ", node.Precedence(), "1 = 0", OrWord, Always(false));
    }

    method WriteNot(inner: Predicate, precedence: nat)
      requires Valid() && precedence == 3
      modifies this
      ensures Valid()
      ensures written == old(written) + ([NotWord] + ChildTokens(inner, precedence, |old(binds)|))
      ensures binds == old(binds) + Binds(inner)
      decreases inner, 3
    {
      PushFirst(written, NotWord, ChildTokens(inner, precedence, |binds|));
      Push("NOT ", NotWord);
      WriteChild(inner, precedence);
    }

    method WriteChild(child: Predicate, precedence: nat)
      requires Valid()
      modifies this
      ensures Valid()
      ensures written == old(written) + ChildTokens(child, precedence, |old(binds)|)
      ensures binds == old(binds) + Binds(child)
      decreases child, 2
    {
      if child.Precedence() < precedence {
        Regroup(written, [Open], Tokens(child, |binds|), [Close]);
        Push("(", Open);
        WriteNode(child);
        Push(")", Close);
      } else {
        WriteNode(child);
      }
    }

    method WriteJoin(parts: seq<Predicate>, separator: string, precedence: nat, empty: string,
                     ghost separatorToken: Token, ghost emptyToken: Token)
      requires Valid() && separator == Spelling(separatorToken) && empty == Spelling(emptyToken)
      modifies this
      ensures Valid()
      ensures written == old(written)
              + if parts == [] then [emptyToken] else Joined(parts, separatorToken, precedence, |old(binds)|, false)
      ensures binds == old(binds) + JoinedBinds(parts)
      decreases parts, 0
    {
      if parts == [] {
        Push(empty, emptyToken);
        return;
      }
      ghost var goal := Joining(written, binds, parts, separatorToken, precedence, false);
      for i := 0 to |parts|
        invariant Valid()
        invariant Joining(written, binds, parts[i..], separatorToken, precedence, i > 0) == goal
      {
        JoinAdvance(written, binds, parts, i, separatorToken, precedence, i > 0);
        if i > 0 {
          Push(separator, separatorToken);
        }
        WriteChild(parts[i], precedence);
      }
      assert parts[|parts|..] == [];
      Reassociate(binds, [], []);
      Regroup(written, [], [], []);
    }
  }

  /** The buffers once the remaining parts are written. */
  ghost function Joining(written: seq<Token>, binds: seq<Value>, parts: seq<Predicate>, separator: Token,
                         precedence: nat, started: bool): (seq<Token>, seq<Value>)
  {
    (written + Joined(parts, separator, precedence, |binds|, started), binds + JoinedBinds(parts))
  }

  lemma JoinStep(parts: seq<Predicate>, i: nat, separator: Token, precedence: nat, n: nat, started: bool)
    requires i < |parts|
    ensures Joined(parts[i..], separator, precedence, n, started)
         == Between(started, separator) + ChildTokens(parts[i], precedence, n)
            + Joined(parts[i + 1..], separator, precedence, n + |Binds(parts[i])|, true)
    ensures JoinedBinds(parts[i..]) == Binds(parts[i]) + JoinedBinds(parts[i + 1..])
  {
    assert parts[i..][0] == parts[i] && parts[i..][1..] == parts[i + 1..];
  }

  /** Writing one more part leaves the rest to be written behind it. */
  lemma JoinAdvance(written: seq<Token>, binds: seq<Value>, parts: seq<Predicate>, i: nat, separator: Token,
                    precedence: nat, started: bool)
    requires i < |parts|
    ensures Joining(written, binds, parts[i..], separator, precedence, started)
         == Joining(written + Between(started, separator) + ChildTokens(parts[i], precedence, |binds|),
                    binds + Binds(parts[i]), parts[i + 1..], separator, precedence, true)
    ensures written + Between(started, separator) == if started then written + [separator] else written
  {
    JoinStep(parts, i, separator, precedence, |binds|, started);
    Regroup(written, Between(started, separator), ChildTokens(parts[i], precedence, |binds|),
            Joined(parts[i + 1..], separator, precedence, |binds| + |Binds(parts[i])|, true));
    Reassociate(binds, Binds(parts[i]), JoinedBinds(parts[i + 1..]));
  }

  lemma Reassociate(a: seq<Value>, b: seq<Value>, c: seq<Value>)
    ensures a + (b + c) == a + b + c
  {}

  lemma Regroup(written: seq<Token>, separator: seq<Token>, item: seq<Token>, rest: seq<Token>)
    ensures written + (separator + item + rest) == written + separator + item + rest
    ensures written + [] == written
  {}

  lemma PushFirst(written: seq<Token>, first: Token, rest: seq<Token>)
    ensures written + ([first] + rest) == written + [first] + rest
  {}

  lemma RegroupTuple(written: seq<Token>, names: seq<Token>, numbers: seq<Token>)
    ensures written + ([Open] + names + [Close, Sign(Gt), Open] + numbers + [Close])
         == written + [Open] + names + [Close] + [Sign(Gt)] + [Open] + numbers + [Close]
  {}

  /** `Dialect::render`: the whole predicate, without enclosing parentheses. */
  method Render(p: Predicate) returns (sql: string, binds: seq<Value>)
    ensures sql == Spell(Tokens(p, 0))
    ensures binds == Binds(p)
  {
    var statement := new Statement();
    statement.WriteNode(p);
    assert [] + Tokens(p, 0) == Tokens(p, 0);
    return statement.sql, statement.binds;
  }
}

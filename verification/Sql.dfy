/** What the database does with a boolean expression: stored cells, their comparison and
    three-valued logic. Nothing here is the crate's own code; it is the reading of SQL
    that the crate's output is held against. */
module Sql {
  import opened Text

  /** SQL truth as Kleene's three values, ordered False < Unknown < True. */
  datatype Truth = False | Unknown | True {
    function Rank(): nat {
      match this case False => 0 case Unknown => 1 case True => 2
    }
  }

  function Known(b: bool): Truth {
    if b then True else False
  }

  /** AND is the minimum, OR the maximum, NOT the reflection. */
  function Both(a: Truth, b: Truth): Truth {
    if a.Rank() <= b.Rank() then a else b
  }

  function Either(a: Truth, b: Truth): Truth {
    if a.Rank() <= b.Rank() then b else a
  }

  function Negate(a: Truth): Truth {
    match a case False => True case Unknown => Unknown case True => False
  }

  /** One stored cell. Booleans are stored as 0/1, bytes as characters 0..255, and a
      map or list column as a JSON document. */
  datatype Cell =
    | Null
    | Num(n: real)
    | Str(text: string)
    | Blob(bytes: string)
    | JsonObject(members: map<string, Cell>)
    | JsonArray(items: seq<Cell>)
  {
    /** The cells ORDER BY and the comparisons order totally. */
    predicate Scalar() {
      Num? || Str? || Blob?
    }

    /** SQLite's storage-class order: numbers, then text, then blobs. */
    function Class(): nat {
      match this
      case Null => 0
      case Num(_) => 1
      case Str(_) => 2
      case Blob(_) => 3
      case _ => 4
    }
  }

  predicate Below(a: Cell, b: Cell) {
    match (a, b)
    case (Num(x), Num(y)) => x < y
    case (Str(x), Str(y)) => Less(x, y)
    case (Blob(x), Blob(y)) => Less(x, y)
    case _ => a.Class() < b.Class()
  }

  lemma BelowTotal(a: Cell, b: Cell)
    requires a.Scalar() && b.Scalar()
    ensures Below(a, b) || a == b || Below(b, a)
    ensures !(Below(a, b) && Below(b, a))
  {
    if a.Str? && b.Str? {
      LessTotal(a.text, b.text);
    } else if a.Blob? && b.Blob? {
      LessTotal(a.bytes, b.bytes);
    }
  }

  lemma BelowTransitive(a: Cell, b: Cell, c: Cell)
    requires Below(a, b) && Below(b, c)
    ensures Below(a, c)
  {
    if a.Str? && b.Str? && c.Str? {
      LessTransitive(a.text, b.text, c.text);
    } else if a.Blob? && b.Blob? && c.Blob? {
      LessTransitive(a.bytes, b.bytes, c.bytes);
    }
  }

  /** A stored row, with the truth each verbatim SQL fragment has on it. */
  datatype Row = Row(cells: map<string, Cell>, fragments: map<string, Truth>) {
    function Get(column: string): Cell {
      if column in cells then cells[column] else Null
    }

    function Fragment(sql: string): Truth {
      if sql in fragments then fragments[sql] else Unknown
    }
  }

  /** `cell ->> key`: the member of a stored JSON object, NULL when it has none. */
  function Member(cell: Cell, key: string): Cell {
    if cell.JsonObject? && key in cell.members then cell.members[key] else Null
  }

  /** EXISTS over `json_each(cell)` filtered by key: a NULL cell yields no rows. */
  predicate HasKey(cell: Cell, key: string) {
    cell.JsonObject? && key in cell.members
  }

  /** EXISTS over `json_each(cell)` filtered by value. */
  predicate HasValue(cell: Cell, value: string) {
    match cell
    case JsonArray(items) => Str(value) in items
    case JsonObject(members) => Str(value) in members.Values
    case _ => false
  }

  /** `text LIKE pattern ESCAPE '\'`: `%` stands for any run of characters, `_` for any
      one, `\` takes the next pattern character literally, and letters match without
      regard to ASCII case. */
  predicate Like(pattern: string, text: string)
    decreases |pattern| + |text|
  {
    if pattern == [] then text == []
    else if pattern[0] == '%' then
      Like(pattern[1..], text) || (text != [] && Like(pattern, text[1..]))
    else if pattern[0] == '\\' then
      |pattern| > 1 && text != [] && LowerChar(pattern[1]) == LowerChar(text[0])
      && Like(pattern[2..], text[1..])
    else
      text != [] && (pattern[0] == '_' || LowerChar(pattern[0]) == LowerChar(text[0]))
      && Like(pattern[1..], text[1..])
  }
}

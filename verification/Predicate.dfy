/** The composable predicate, its meaning on a row, and the keyset seek. */
module Predicates {
  import opened Sql
  import opened Text

  datatype Value =
    | Null
    | Bool(b: bool)
    | Int(i: int)
    | Double(d: real)
    | Text(text: string)
    | Bytes(bytes: string)
  {
    /** The value as the driver binds it. */
    function Bound(): Cell {
      match this
      case Null => Cell.Null
      case Bool(b) => Num(if b then 1.0 else 0.0)
      case Int(i) => Num(i as real)
      case Double(d) => Num(d)
      case Text(text) => Str(text)
      case Bytes(bytes) => Blob(bytes)
    }
  }

  datatype CmpOp = Eq | Ne | Lt | Le | Gt | Ge {
    /** The operator with its operands swapped. */
    function Mirror(): CmpOp {
      match this
      case Eq => Eq
      case Ne => Ne
      case Lt => Gt
      case Le => Ge
      case Gt => Lt
      case Ge => Le
    }
  }

  datatype Direction = Asc | Desc

  datatype Column = Plain(name: string) | MapMember(column: string, key: string)

  datatype HasTest = Substring(needle: string) | Key(key: string) | Element(value: string) | Present

  datatype Predicate =
    | All(parts: seq<Predicate>)
    | Any(parts: seq<Predicate>)
    | Not(inner: Predicate)
    | Compare(column: Column, op: CmpOp, value: Value)
    | Has(name: string, test: HasTest)
    | IsNull(name: string)
    | TupleGt(columns: seq<string>, values: seq<Value>)
    | Raw(sql: string)
  {
    function Precedence(): nat {
      match this
      case Compare(_, _, _) => 4
      case Has(_, _) => 4
      case IsNull(_) => 4
      case TupleGt(_, _) => 4
      case Not(_) => 3
      case All(_) => 2
      case Any(_) => 1
      case Raw(_) => 0
    }
  }

  /** `a op b`, unknown as soon as either side is NULL. */
  function Compared(op: CmpOp, a: Cell, b: Cell): Truth {
    if a.Null? || b.Null? then Unknown else
      Known(match op
            case Eq => a == b
            case Ne => a != b
            case Lt => Below(a, b)
            case Le => !Below(b, a)
            case Gt => Below(b, a)
            case Ge => !Below(a, b))
  }

  /** Swapping the operands and the operator changes nothing: what lets `value op column`
      be written as `column op value`. */
  lemma MirrorSwaps(op: CmpOp, a: Cell, b: Cell)
    ensures Compared(op.Mirror(), a, b) == Compared(op, b, a)
    ensures op.Mirror().Mirror() == op
  {}

  function Read(column: Column, row: Row): Cell {
    match column
    case Plain(name) => row.Get(name)
    case MapMember(name, key) => Member(row.Get(name), key)
  }

  /** What each `:` test means, with the substring test stated as containment up to
      ASCII case rather than through any pattern. */
  ghost function Tested(test: HasTest, cell: Cell): Truth {
    match test
    case Substring(needle) =>
      if cell.Str? then Known(Contains(Lower(cell.text), Lower(needle))) else Unknown
    case Key(key) => Known(HasKey(cell, key))
    case Element(value) => Known(HasValue(cell, value))
    case Present => Known(!cell.Null?)
  }

  /** The row-value comparison `(a, b, ..) > (x, y, ..)`. */
  function TupleAbove(cells: seq<Cell>, bounds: seq<Cell>): Truth
    requires |cells| == |bounds|
  {
    if cells == [] then False
    else
      Either(Compared(Gt, cells[0], bounds[0]),
             Both(Compared(Eq, cells[0], bounds[0]), TupleAbove(cells[1..], bounds[1..])))
  }

  function Cells(columns: seq<string>, row: Row): (cells: seq<Cell>)
    ensures |cells| == |columns|
    ensures forall i :: 0 <= i < |columns| ==> cells[i] == row.Get(columns[i])
  {
    if columns == [] then [] else [row.Get(columns[0])] + Cells(columns[1..], row)
  }

  function Bounds(values: seq<Value>): (cells: seq<Cell>)
    ensures |cells| == |values|
    ensures forall i :: 0 <= i < |values| ==> cells[i] == values[i].Bound()
  {
    if values == [] then [] else [values[0].Bound()] + Bounds(values[1..])
  }

  ghost function Eval(p: Predicate, row: Row): Truth {
    match p
    case All(parts) => EvalAll(parts, row)
    case Any(parts) => EvalAny(parts, row)
    case Not(inner) => Negate(Eval(inner, row))
    case Compare(column, op, value) => Compared(op, Read(column, row), value.Bound())
    case Has(name, test) => Tested(test, row.Get(name))
    case IsNull(name) => Known(row.Get(name).Null?)
    case TupleGt(columns, values) =>
      if |columns| == |values| then TupleAbove(Cells(columns, row), Bounds(values)) else Unknown
    case Raw(sql) => row.Fragment(sql)
  }

  /** A conjunction is true when empty, a disjunction false. */
  ghost function EvalAll(parts: seq<Predicate>, row: Row): Truth {
    if parts == [] then True else Both(Eval(parts[0], row), EvalAll(parts[1..], row))
  }

  ghost function EvalAny(parts: seq<Predicate>, row: Row): Truth {
    if parts == [] then False else Either(Eval(parts[0], row), EvalAny(parts[1..], row))
  }
}

/** The keyset cursor seek of `Predicate::keyset_seek`. */
module Keyset {
  import opened Sql
  import opened Predicates

  datatype SeekItem = SeekItem(column: string, direction: Direction, value: Value)

  function ColumnsOf(items: seq<SeekItem>): (r: seq<string>)
    ensures |r| == |items|
  {
    if items == [] then [] else [items[0].column] + ColumnsOf(items[1..])
  }

  function ValuesOf(items: seq<SeekItem>): (r: seq<Value>)
    ensures |r| == |items|
  {
    if items == [] then [] else [items[0].value] + ValuesOf(items[1..])
  }

  /** Equality on every item: the shared prefix of a branch. */
  function Equalities(items: seq<SeekItem>): (r: seq<Predicate>) {
    if items == [] then []
    else [Compare(Plain(items[0].column), Eq, items[0].value)] + Equalities(items[1..])
  }

  /** One branch of the seek: equality before item `i`, strict comparison on it. */
  function Branch(items: seq<SeekItem>, i: nat): Predicate
    requires i < |items|
  {
    All(Equalities(items[..i])
        + [Compare(Plain(items[i].column), if items[i].direction.Desc? then Lt else Gt, items[i].value)])
  }

  function Branches(items: seq<SeekItem>, i: nat): seq<Predicate>
    requires i <= |items|
    decreases |items| - i
  {
    if i == |items| then [] else [Branch(items, i)] + Branches(items, i + 1)
  }

  function KeysetSeek(items: seq<SeekItem>): Predicate {
    if items == [] then All([])
    else if forall item :: item in items ==> item.direction.Asc? then
      TupleGt(ColumnsOf(items), ValuesOf(items))
    else Any(Branches(items, 0))
  }

  /** `cell` comes strictly later than `bound` in the given direction. */
  predicate Later(direction: Direction, cell: Cell, bound: Cell) {
    if direction.Desc? then Below(cell, bound) else Below(bound, cell)
  }

  /** The row differs from the cursor first at item `k`, where it is later. */
  ghost predicate FollowsAt(row: Row, items: seq<SeekItem>, k: nat)
    requires k < |items|
  {
    (forall j :: 0 <= j < k ==> row.Get(items[j].column) == items[j].value.Bound())
    && Later(items[k].direction, row.Get(items[k].column), items[k].value.Bound())
  }

  /** The row follows the cursor: at the first column where they differ it is later in
      that column's own direction. */
  ghost predicate Follows(row: Row, items: seq<SeekItem>) {
    exists k :: 0 <= k < |items| && FollowsAt(row, items, k)
  }

  ghost predicate NonNull(row: Row, items: seq<SeekItem>) {
    forall item :: item in items ==> !row.Get(item.column).Null? && !item.value.Null?
  }

  lemma FollowsCons(row: Row, items: seq<SeekItem>)
    requires items != []
    ensures Follows(row, items) <==>
            Later(items[0].direction, row.Get(items[0].column), items[0].value.Bound())
            || (row.Get(items[0].column) == items[0].value.Bound() && Follows(row, items[1..]))
  {
    var rest := items[1..];
    assert FollowsAt(row, items, 0) <==> Later(items[0].direction, row.Get(items[0].column), items[0].value.Bound());
    if Follows(row, items) {
      var k :| 0 <= k < |items| && FollowsAt(row, items, k);
      if k > 0 {
        assert FollowsAt(row, rest, k - 1);
      }
    }
    if row.Get(items[0].column) == items[0].value.Bound() && Follows(row, rest) {
      var k :| 0 <= k < |rest| && FollowsAt(row, rest, k);
      assert forall j :: 0 < j < |items| ==> items[j] == rest[j - 1];
      assert FollowsAt(row, items, k + 1);
    }
  }

  /** A row value is compared column by column. */
  lemma TupleCons(row: Row, items: seq<SeekItem>)
    requires items != []
    ensures var cell, bound := row.Get(items[0].column), items[0].value.Bound();
            Eval(TupleGt(ColumnsOf(items), ValuesOf(items)), row)
            == Either(Compared(Gt, cell, bound),
                      Both(Compared(Eq, cell, bound), Eval(TupleGt(ColumnsOf(items[1..]), ValuesOf(items[1..])), row)))
  {
    assert ColumnsOf(items)[1..] == ColumnsOf(items[1..]);
    assert ValuesOf(items)[1..] == ValuesOf(items[1..]);
    assert Cells(ColumnsOf(items), row)[1..] == Cells(ColumnsOf(items[1..]), row);
    assert Bounds(ValuesOf(items))[1..] == Bounds(ValuesOf(items[1..]));
  }

  /** The row-value form means "follows" on an all-ascending key. */
  lemma {:induction false} TupleFollows(row: Row, items: seq<SeekItem>)
    requires NonNull(row, items) && forall item :: item in items ==> item.direction.Asc?
    ensures Eval(TupleGt(ColumnsOf(items), ValuesOf(items)), row) == Known(Follows(row, items))
  {
    if items != [] {
      TupleFollows(row, items[1..]);
      FollowsCons(row, items);
      TupleCons(row, items);
      assert items[0] in items;
    }
  }

  /** The row equals the cursor on every item. */
  ghost predicate AllEqual(row: Row, items: seq<SeekItem>) {
    forall j :: 0 <= j < |items| ==> row.Get(items[j].column) == items[j].value.Bound()
  }

  lemma AllEqualCons(row: Row, items: seq<SeekItem>)
    requires items != []
    ensures AllEqual(row, items) <==>
            row.Get(items[0].column) == items[0].value.Bound() && AllEqual(row, items[1..])
  {
    assert forall j :: 0 < j < |items| ==> items[j] == items[1..][j - 1];
  }

  lemma {:induction false} EqualitiesThen(row: Row, items: seq<SeekItem>, last: Predicate)
    requires NonNull(row, items)
    ensures EvalAll(Equalities(items) + [last], row) == Both(Known(AllEqual(row, items)), Eval(last, row))
  {
    if items == [] {
      assert Equalities(items) + [last] == [last];
      assert [last][1..] == [];
    } else {
      var all := Equalities(items) + [last];
      assert all[1..] == Equalities(items[1..]) + [last];
      EqualitiesThen(row, items[1..], last);
      assert items[0] in items;
      AllEqualCons(row, items);
    }
  }

  lemma BranchFollows(row: Row, items: seq<SeekItem>, i: nat)
    requires i < |items| && NonNull(row, items)
    ensures Eval(Branch(items, i), row) == Known(FollowsAt(row, items, i))
  {
    assert items[i] in items;
    assert NonNull(row, items[..i]) by {
      assert forall item :: item in items[..i] ==> item in items;
    }
    var parts := Branch(items, i).parts;
    EqualitiesThen(row, items[..i], parts[|parts| - 1]);
    assert forall j :: 0 <= j < i ==> items[..i][j] == items[j];
  }

  lemma {:induction false} BranchesFollow(row: Row, items: seq<SeekItem>, i: nat)
    requires i <= |items| && NonNull(row, items)
    ensures EvalAny(Branches(items, i), row) == Known(exists k :: i <= k < |items| && FollowsAt(row, items, k))
    decreases |items| - i
  {
    if i < |items| {
      BranchFollows(row, items, i);
      BranchesFollow(row, items, i + 1);
    }
  }

  /** The seek selects exactly the rows strictly after the cursor, whatever the number of
      columns, their directions, and even when a column is repeated; without columns there
      is no cursor and it selects every row. */
  lemma KeysetSeekIsStrictlyAfter(row: Row, items: seq<SeekItem>)
    requires NonNull(row, items)
    ensures Eval(KeysetSeek(items), row) == Known(items == [] || Follows(row, items))
  {
    if items == [] {
      assert EvalAll([], row) == True;
    } else if forall item :: item in items ==> item.direction.Asc? {
      TupleFollows(row, items);
    } else {
      BranchesFollow(row, items, 0);
    }
  }

  /** On an all-ascending key the fast row-value form and the expanded form agree. */
  lemma FastFormAgrees(row: Row, items: seq<SeekItem>)
    requires NonNull(row, items) && forall item :: item in items ==> item.direction.Asc?
    ensures Eval(TupleGt(ColumnsOf(items), ValuesOf(items)), row) == Eval(Any(Branches(items, 0)), row)
  {
    TupleFollows(row, items);
    BranchesFollow(row, items, 0);
  }
}

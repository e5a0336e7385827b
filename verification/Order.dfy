/** ORDER BY items and cursor seek columns, with the key columns always appended. */
module Ordering {
  import opened Wrappers
  import opened Sql
  import opened Filters
  import opened Schemas
  import opened Predicates
  import Keyset

  datatype OrderByField = OrderByField(path: string, desc: bool)

  datatype SeekColumn = SeekColumn(column: string, fieldPath: string, ty: Type)

  datatype Order = Order(column: string, desc: bool) {
    function Direction(): Direction {
      if desc then Desc else Asc
    }
  }

  datatype Error = UnknownIdentifier(path: string)

  predicate SortsOn(orders: seq<Order>, column: string) {
    exists i :: 0 <= i < |orders| && orders[i].column == column
  }

  /** Every path the user sorts on is mapped. */
  predicate Mapped(fields: seq<OrderByField>, schema: Schema) {
    forall field :: field in fields ==> schema.Column(field.path).Some?
  }

  /** The order one of the user's fields asks for. */
  function FieldOrder(field: OrderByField, schema: Schema): Order
    requires schema.Column(field.path).Some?
  {
    Order(schema.Column(field.path).value, field.desc)
  }

  function FieldOrders(fields: seq<OrderByField>, schema: Schema): seq<Order>
    requires Mapped(fields, schema)
  {
    seq(|fields|, i requires 0 <= i < |fields| => FieldOrder(fields[i], schema))
  }

  /** The tie-break: each key column not already sorted on, ascending. */
  function WithKeys(orders: seq<Order>, keys: seq<string>): seq<Order>
    decreases |keys|
  {
    if keys == [] then orders
    else WithKeys(if SortsOn(orders, keys[0]) then orders else orders + [Order(keys[0], false)], keys[1..])
  }

  /** One seek column per order, on the same SQL column: the user's read their proto path
      at the declared type, the appended keys are text read by their own name. */
  ghost predicate SeeksOn(columns: seq<SeekColumn>, orders: seq<Order>, fields: seq<OrderByField>, schema: Schema) {
    |columns| == |orders| && |fields| <= |orders|
    && (forall i :: 0 <= i < |columns| ==> columns[i].column == orders[i].column)
    && (forall i :: 0 <= i < |fields| ==>
          columns[i].fieldPath == fields[i].path && columns[i].ty == DeclaredType(schema, columns[i].column))
    && forall i :: |fields| <= i < |columns| ==>
         columns[i].fieldPath == columns[i].column && columns[i].ty == Type.String
  }

  function DeclaredType(schema: Schema, column: string): Type {
    var declared := schema.ColumnType(column);
    if declared.Some? then declared.value else Type.String
  }

  predicate FirstUnmapped(path: string, fields: seq<OrderByField>, schema: Schema) {
    exists i :: 0 <= i < |fields| && fields[i].path == path && schema.Column(path).None? && Mapped(fields[..i], schema)
  }

  /** `transpile_order_by`: the seek columns and the orders, grown together. */
  method TranspileOrderBy(fields: seq<OrderByField>, schema: Schema, keys: seq<string>)
    returns (result: Result<(seq<SeekColumn>, seq<Order>), Error>)
    ensures result.Ok? <==> Mapped(fields, schema)
    ensures result.Ok? ==> result.value.1 == WithKeys(FieldOrders(fields, schema), keys)
    ensures result.Ok? ==> SeeksOn(result.value.0, result.value.1, fields, schema)
    ensures result.Err? ==> FirstUnmapped(result.error.path, fields, schema)
  {
    var columns: seq<SeekColumn> := [];
    var orders: seq<Order> := [];
    for i := 0 to |fields|
      invariant Mapped(fields[..i], schema)
      invariant orders == FieldOrders(fields[..i], schema)
      invariant SeeksOn(columns, orders, fields[..i], schema)
    {
      var column := schema.Column(fields[i].path);
      if column.None? {
        assert fields[i] in fields;
        return Err(UnknownIdentifier(fields[i].path));
      }
      columns := columns + [SeekColumn(column.value, fields[i].path, DeclaredType(schema, column.value))];
      orders := orders + [Order(column.value, fields[i].desc)];
      assert fields[..i + 1] == fields[..i] + [fields[i]];
      assert orders == FieldOrders(fields[..i + 1], schema);
    }
    assert fields[..|fields|] == fields;
    columns, orders := AppendKeys(columns, orders, fields, schema, keys);
    return Ok((columns, orders));
  }

  /** The second loop of `transpile_order_by`. */
  method AppendKeys(userColumns: seq<SeekColumn>, user: seq<Order>, fields: seq<OrderByField>, schema: Schema,
                    keys: seq<string>)
    returns (columns: seq<SeekColumn>, orders: seq<Order>)
    requires SeeksOn(userColumns, user, fields, schema)
    ensures orders == WithKeys(user, keys) && SeeksOn(columns, orders, fields, schema)
  {
    columns, orders := userColumns, user;
    assert keys[0..] == keys;
    for i := 0 to |keys|
      invariant SeeksOn(columns, orders, fields, schema)
      invariant WithKeys(orders, keys[i..]) == WithKeys(user, keys)
    {
      assert keys[i..][0] == keys[i] && keys[i..][1..] == keys[i + 1..];
      if SortsOn(orders, keys[i]) {
        continue;
      }
      columns := columns + [SeekColumn(keys[i], keys[i], Type.String)];
      orders := orders + [Order(keys[i], false)];
    }
    assert keys[|keys|..] == [];
  }

  /** The user's fields come first, every key column is sorted on, and nothing else. */
  lemma {:induction false} WithKeysIsComplete(orders: seq<Order>, keys: seq<string>)
    ensures |orders| <= |WithKeys(orders, keys)| && WithKeys(orders, keys)[..|orders|] == orders
    ensures forall key :: key in keys ==> SortsOn(WithKeys(orders, keys), key)
    ensures forall i :: |orders| <= i < |WithKeys(orders, keys)| ==>
              WithKeys(orders, keys)[i].column in keys && !WithKeys(orders, keys)[i].desc
    decreases |keys|
  {
    if keys != [] {
      var next := if SortsOn(orders, keys[0]) then orders else orders + [Order(keys[0], false)];
      WithKeysIsComplete(next, keys[1..]);
      var all := WithKeys(orders, keys);
      assert forall i :: 0 <= i < |orders| ==> all[i] == all[..|next|][i] == orders[i];
      assert SortsOn(all, keys[0]) by {
        var i :| 0 <= i < |next| && next[i].column == keys[0];
        assert all[..|next|][i] == all[i];
      }
      assert forall key :: key in keys ==> key == keys[0] || key in keys[1..];
      assert |next| > |orders| ==> all[|orders|] == all[..|next|][|orders|];
    }
  }

  // ----- the order on rows -----

  /** Row `b` sorts strictly after row `a`. */
  ghost predicate After(b: Row, a: Row, orders: seq<Order>) {
    exists k :: 0 <= k < |orders| && AfterAt(b, a, orders, k)
  }

  ghost predicate AfterAt(b: Row, a: Row, orders: seq<Order>, k: nat)
    requires k < |orders|
  {
    (forall j :: 0 <= j < k ==> b.Get(orders[j].column) == a.Get(orders[j].column))
    && Keyset.Later(orders[k].Direction(), b.Get(orders[k].column), a.Get(orders[k].column))
  }

  /** Every sort column of the row holds a scalar, in particular no NULL. */
  predicate Keyed(row: Row, orders: seq<Order>) {
    forall i :: 0 <= i < |orders| ==> row.Get(orders[i].column).Scalar()
  }

  lemma LaterTransitive(direction: Direction, a: Cell, b: Cell, c: Cell)
    requires Keyset.Later(direction, a, b) && Keyset.Later(direction, b, c)
    ensures Keyset.Later(direction, a, c)
  {
    if direction.Desc? {
      BelowTransitive(a, b, c);
    } else {
      BelowTransitive(c, b, a);
    }
  }

  lemma AfterTransitive(c: Row, b: Row, a: Row, orders: seq<Order>)
    requires After(c, b, orders) && After(b, a, orders)
    ensures After(c, a, orders)
  {
    var k :| 0 <= k < |orders| && AfterAt(c, b, orders, k);
    var m :| 0 <= m < |orders| && AfterAt(b, a, orders, m);
    if k < m {
      assert AfterAt(c, a, orders, k);
    } else if m < k {
      assert AfterAt(c, a, orders, m);
    } else {
      LaterTransitive(orders[k].Direction(), c.Get(orders[k].column), b.Get(orders[k].column), a.Get(orders[k].column));
      assert AfterAt(c, a, orders, k);
    }
  }

  lemma AfterAsymmetric(b: Row, a: Row, orders: seq<Order>)
    requires Keyed(a, orders) && Keyed(b, orders) && After(b, a, orders)
    ensures !After(a, b, orders) && a != b
  {
    var k :| 0 <= k < |orders| && AfterAt(b, a, orders, k);
    BelowTotal(b.Get(orders[k].column), a.Get(orders[k].column));
    BelowTotal(a.Get(orders[k].column), a.Get(orders[k].column));
    forall m | 0 <= m < |orders| ensures !AfterAt(a, b, orders, m) {
      BelowTotal(a.Get(orders[m].column), a.Get(orders[m].column));
    }
  }

  /** Rows that differ in some sort column are ordered one way or the other. */
  lemma {:induction false} DifferentIsOrdered(a: Row, b: Row, orders: seq<Order>, k: nat)
    requires Keyed(a, orders) && Keyed(b, orders)
    requires k < |orders| && a.Get(orders[k].column) != b.Get(orders[k].column)
    ensures After(a, b, orders) || After(b, a, orders)
  {
    if forall j :: 0 <= j < k ==> a.Get(orders[j].column) == b.Get(orders[j].column) {
      BelowTotal(a.Get(orders[k].column), b.Get(orders[k].column));
      assert AfterAt(a, b, orders, k) || AfterAt(b, a, orders, k);
    } else {
      var j :| 0 <= j < k && a.Get(orders[j].column) != b.Get(orders[j].column);
      DifferentIsOrdered(a, b, orders, j);
    }
  }

  /** Rows told apart by their key columns are totally ordered by what
      `transpile_order_by` returns, whatever the user sorts on. */
  lemma TieBreakIsTotal(a: Row, b: Row, orders: seq<Order>, keys: seq<string>)
    requires Keyed(a, WithKeys(orders, keys)) && Keyed(b, WithKeys(orders, keys))
    requires exists key :: key in keys && a.Get(key) != b.Get(key)
    ensures After(a, b, WithKeys(orders, keys)) || After(b, a, WithKeys(orders, keys))
  {
    WithKeysIsComplete(orders, keys);
    var key :| key in keys && a.Get(key) != b.Get(key);
    var all := WithKeys(orders, keys);
    var k :| 0 <= k < |all| && all[k].column == key;
    DifferentIsOrdered(a, b, all, k);
  }
}

/** The column schema and the walk from a filter expression to a predicate. */
module Schemas {
  import opened Wrappers
  import opened Filters

  datatype Schema = Schema(columns: map<string, string>, sortable: set<string>, types: map<string, Type>) {
    function Column(identifier: string): Option<string> {
      if identifier in columns then Some(columns[identifier]) else None
    }

    function ColumnType(column: string): Option<Type> {
      if column in types then Some(types[column]) else None
    }
  }
}

module Transpiler {
  import opened Wrappers
  import opened Filters
  import opened Predicates
  import opened Schemas

  datatype Error = Unsupported | UnknownIdentifier(name: string) | InvalidDuration

  datatype Context = Context(declarations: Declarations, schema: Schema, parse: string -> Option<real>)

  datatype Operand = ColumnOperand(column: Column) | ValueOperand(value: Value)

  function Comparison(name: string): Option<CmpOp> {
    if name == EQUALS then Some(Eq)
    else if name == NOT_EQUALS then Some(Ne)
    else if name == LESS_THAN then Some(Lt)
    else if name == LESS_EQUALS then Some(Le)
    else if name == GREATER_THAN then Some(Gt)
    else if name == GREATER_EQUALS then Some(Ge)
    else None
  }

  function Transpile(expr: Expr, ctx: Context): Result<Predicate, Error> {
    match expr
    case Call(name, args) =>
      if name == AND && |args| == 2 then
        var left :- Transpile(args[0], ctx);
        var right :- Transpile(args[1], ctx);
        Ok(All([left, right]))
      else if name == OR && |args| == 2 then
        var left :- Transpile(args[0], ctx);
        var right :- Transpile(args[1], ctx);
        Ok(Any([left, right]))
      else if name == NOT && |args| == 1 then
        var inner :- Transpile(args[0], ctx);
        Ok(Not(inner))
      else if Comparison(name).Some? && |args| == 2 then
        TranspileCompare(Comparison(name).value, args[0], args[1], ctx)
      else if name == HAS && |args| == 2 then TranspileHas(args[0], args[1], ctx)
      else Err(Unsupported)
    case _ => Err(Unsupported)
  }

  function TranspileCompare(op: CmpOp, left: Expr, right: Expr, ctx: Context): Result<Predicate, Error> {
    var l :- Classify(left, ctx);
    var r :- Classify(right, ctx);
    match (l, r)
    case (ColumnOperand(column), ValueOperand(value)) => Ok(Compare(column, op, value))
    case (ValueOperand(value), ColumnOperand(column)) => Ok(Compare(column, op.Mirror(), value))
    case _ => Err(Unsupported)
  }

  function TranspileHas(left: Expr, right: Expr, ctx: Context): Result<Predicate, Error> {
    if !(right.Const? && right.constant.Str?) then Err(Unsupported) else
      var arg := right.constant.text;
      var qualified := QualifiedName(left);
      if qualified.None? then Err(Unsupported) else
        var name := qualified.value;
        var column := ctx.schema.Column(name);
        var ty := ctx.declarations.IdentType(name);
        if column.None? || ty.None? then Err(UnknownIdentifier(name)) else
          match ty.value
          case String => Ok(Has(column.value, Substring(arg)))
          case Map(_, _) => Ok(Has(column.value, Key(arg)))
          case List(_) => Ok(Has(column.value, Element(arg)))
          case Timestamp => Ok(Has(column.value, Present))
          case _ => Err(Unsupported)
  }

  function Classify(expr: Expr, ctx: Context): Result<Operand, Error> {
    match expr
    case Ident(name) =>
      (match ctx.schema.Column(name)
       case Some(column) => Ok(ColumnOperand(Plain(column)))
       case None =>
         var ty := ctx.declarations.IdentType(name);
         if ty.Some? && ty.value.Enum? then Ok(ValueOperand(Value.Text(name))) else Err(UnknownIdentifier(name)))
    case Const(constant) => Ok(ValueOperand(ToValue(constant)))
    case Call(name, args) => ClassifyConstructor(name, args, ctx)
    case Select(_, _) => ClassifySelect(expr, ctx)
  }

  function ClassifyConstructor(name: string, args: seq<Expr>, ctx: Context): Result<Operand, Error> {
    if name == TIMESTAMP && |args| == 1 && args[0].Const? && args[0].constant.Str? then
      Ok(ValueOperand(Value.Text(args[0].constant.text)))
    else if name == DURATION && |args| == 1 && args[0].Const? && args[0].constant.Str? then
      (match ParseDurationSeconds(args[0].constant.text, ctx.parse)
       case Some(seconds) => Ok(ValueOperand(Value.Double(seconds)))
       case None => Err(InvalidDuration))
    else Err(Unsupported)
  }

  /** A fully-qualified path is its column; otherwise the base must be a column and the
      field is a key in it. */
  function ClassifySelect(expr: Expr, ctx: Context): Result<Operand, Error>
    requires expr.Select?
  {
    var qualified := QualifiedName(expr);
    if qualified.Some? && ctx.schema.Column(qualified.value).Some? then
      Ok(ColumnOperand(Plain(ctx.schema.Column(qualified.value).value)))
    else if expr.operand.Ident? && ctx.schema.Column(expr.operand.name).Some? then
      Ok(ColumnOperand(MapMember(ctx.schema.Column(expr.operand.name).value, expr.field)))
    else Err(UnknownIdentifier(if qualified.Some? then qualified.value else "<member>"))
  }

  function ToValue(constant: Constant): Value {
    match constant
    case Int(i) => Value.Int(i)
    case Uint(u) => Value.Int(u)
    case Double(d) => Value.Double(d)
    case Bool(b) => Value.Bool(b)
    case Str(text) => Value.Text(text)
    case Bytes(bytes) => Value.Bytes(bytes)
  }

  function ParseDurationSeconds(literal: string, parse: string -> Option<real>): Option<real> {
    if literal != [] && literal[|literal| - 1] == 's' then parse(literal[..|literal| - 1]) else None
  }
}

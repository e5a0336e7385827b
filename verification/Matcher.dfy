/** In-memory evaluation of a checked filter against a message. */
module Matcher {
  import opened Wrappers
  import opened Text
  import opened Filters
  import opened Messages
  import Timestamps

  datatype Error =
    | NotBoolean
    | Operator(name: string)
    | TwoFields
    | TwoLiterals
    | Mismatched
    | Uncomparable
    | EnumOnNonEnum
    | HasNeedsString
    | HasNeedsField
    | HasKind
    | NotAnOperand
    | UnknownIdentifier
    | InvalidDuration

  datatype Truth = True | False | Unknown

  function Known(value: bool): Truth {
    if value then True else False
  }

  function And(left: Truth, right: Truth): Truth {
    match (left, right)
    case (False, _) => False
    case (_, False) => False
    case (True, True) => True
    case _ => Unknown
  }

  function Or(left: Truth, right: Truth): Truth {
    match (left, right)
    case (True, _) => True
    case (_, True) => True
    case (False, False) => False
    case _ => Unknown
  }

  function Not(value: Truth): Truth {
    match value
    case True => False
    case False => True
    case Unknown => Unknown
  }

  datatype CmpOp = Eq | Ne | Lt | Le | Gt | Ge {
    function Mirror(): CmpOp {
      match this
      case Eq => Eq
      case Ne => Ne
      case Lt => Gt
      case Le => Ge
      case Gt => Lt
      case Ge => Le
    }
  }

  /** The comparison a function name stands for. */
  function Comparison(name: string): Option<CmpOp> {
    if name == EQUALS then Some(Eq)
    else if name == NOT_EQUALS then Some(Ne)
    else if name == LESS_THAN then Some(Lt)
    else if name == LESS_EQUALS then Some(Le)
    else if name == GREATER_THAN then Some(Gt)
    else if name == GREATER_EQUALS then Some(Ge)
    else None
  }

  datatype Operand = Num(n: real) | Text(text: string) | Bool(b: bool)

  datatype FieldValue = Present(field: Field, value: Value) | Absent

  datatype Side = FieldSide(fieldValue: FieldValue) | Literal

  datatype PathResult = Found(field: Field, value: Value) | Unset | NotAField {
    function IntoField(): FieldValue {
      match this
      case Found(field, value) => Present(field, value)
      case _ => Absent
    }
  }

  /** What an evaluation reads: declarations, message, and the platform's number parser. */
  datatype Context = Context(declarations: Declarations, message: Message, parse: string -> Option<real>)

  function Eval(expr: Expr, ctx: Context): Result<Truth, Error> {
    match expr
    case Call(name, args) =>
      if name == AND && |args| == 2 then
        var left :- Eval(args[0], ctx);
        var right :- Eval(args[1], ctx);
        Ok(And(left, right))
      else if name == OR && |args| == 2 then
        var left :- Eval(args[0], ctx);
        var right :- Eval(args[1], ctx);
        Ok(Or(left, right))
      else if name == NOT && |args| == 1 then
        var inner :- Eval(args[0], ctx);
        Ok(Not(inner))
      else if Comparison(name).Some? && |args| == 2 then Compare(Comparison(name).value, args[0], args[1], ctx)
      else if name == HAS && |args| == 2 then Has(args[0], args[1], ctx)
      else Err(Operator(name))
    case _ => Err(NotBoolean)
  }

  function Matches(expr: Expr, ctx: Context): Result<bool, Error> {
    var truth :- Eval(expr, ctx);
    Ok(truth == True)
  }

  function Compare(op: CmpOp, left: Expr, right: Expr, ctx: Context): Result<Truth, Error> {
    var l :- Classify(left, ctx);
    var r :- Classify(right, ctx);
    match (l, r)
    case (FieldSide(field), Literal) => EvalCompare(op, field, right, ctx)
    case (Literal, FieldSide(field)) => EvalCompare(op.Mirror(), field, left, ctx)
    case (FieldSide(_), FieldSide(_)) => Err(TwoFields)
    case (Literal, Literal) => Err(TwoLiterals)
  }

  /** An absent field makes the comparison unknown, before the literal is looked at. */
  function EvalCompare(op: CmpOp, field: FieldValue, literal: Expr, ctx: Context): Result<Truth, Error> {
    match field
    case Absent => Ok(Unknown)
    case Present(f, value) =>
      var left :- LowerField(f, value);
      var right :- LowerLiteral(literal, ctx);
      Apply(op, left, right)
  }

  datatype Ordering = Smaller | Same | Greater

  function Ordered(less: bool, equal: bool): Ordering {
    if less then Smaller else if equal then Same else Greater
  }

  function Apply(op: CmpOp, left: Operand, right: Operand): Result<Truth, Error> {
    var ordering :- (match (left, right)
                     case (Num(a), Num(b)) => Ok(Ordered(a < b, a == b))
                     case (Text(a), Text(b)) => Ok(Ordered(Less(a, b), a == b))
                     case (Bool(a), Bool(b)) => Ok(Ordered(!a && b, a == b))
                     case _ => Err(Mismatched));
    Ok(Known(match op
             case Eq => ordering == Same
             case Ne => ordering != Same
             case Lt => ordering == Smaller
             case Le => ordering != Greater
             case Gt => ordering == Greater
             case Ge => ordering != Smaller))
  }

  /** Substring search from the front. */
  function Find(needle: string, haystack: string): (found: bool)
    ensures found <==> Contains(haystack, needle)
  {
    if needle <= haystack then
      assert haystack[0..] == haystack;
      true
    else if haystack == [] then false
    else
      var found := Find(needle, haystack[1..]);
      assert forall i :: 0 <= i < |haystack| ==> haystack[1..][i..] == haystack[i + 1..];
      assert forall i :: 0 < i <= |haystack| ==> haystack[i..] == haystack[1..][i - 1..];
      found
  }

  function Has(left: Expr, right: Expr, ctx: Context): Result<Truth, Error> {
    if !(right.Const? && right.constant.Str?) then Err(HasNeedsString) else
      var arg := right.constant.text;
      var side :- Classify(left, ctx);
      match side
      case FieldSide(Absent) => Ok(False)
      case Literal => Err(HasNeedsField)
      case FieldSide(Present(field, value)) =>
        if field.cardinality.MapField? then
          Ok(Known(value.Map? && StrKey(arg) in value.entries))
        else if field.cardinality.Repeated? then
          Ok(Known(value.List? && Value.Str(arg) in value.items))
        else
          match field.kind
          case String => Ok(Known(Find(Lower(arg), Lower(if value.Str? then value.text else ""))))
          case Message(fullName) => if fullName == TIMESTAMP_NAME then Ok(True) else Err(HasKind)
          case _ => Err(HasKind)
  }

  function Classify(expr: Expr, ctx: Context): Result<Side, Error> {
    match expr
    case Const(_) => Ok(Literal)
    case Call(name, _) => if name == TIMESTAMP || name == DURATION then Ok(Literal) else Err(NotAnOperand)
    case Ident(name) =>
      // A field when the message has it; otherwise a declared enum value.
      (match ResolvePath(ctx.message, [name])
       case NotAField =>
         var ty := ctx.declarations.IdentType(name);
         if ty.Some? && ty.value.Enum? then Ok(Literal) else Err(UnknownIdentifier)
       case resolved => Ok(FieldSide(resolved.IntoField())))
    case Select(_, _) => ClassifySelect(expr, ctx)
  }

  function ClassifySelect(expr: Expr, ctx: Context): Result<Side, Error>
    requires expr.Select?
  {
    var segments := Segments(expr);
    var resolved := if segments.Some? then ResolvePath(ctx.message, segments.value) else NotAField;
    if !resolved.NotAField? then Ok(FieldSide(resolved.IntoField()))
    // Member access into a map field reads the value stored at the key.
    else if expr.operand.Ident? && ctx.message.Field(expr.operand.name).Some?
            && ctx.message.Field(expr.operand.name).value.cardinality.MapField? then
      var field := ctx.message.Field(expr.operand.name).value;
      var stored := ctx.message.Get(expr.operand.name);
      Ok(FieldSide(if stored.Map? && StrKey(expr.field) in stored.entries
                   then Present(field.Element(), stored.entries[StrKey(expr.field)]) else Absent))
    else Err(UnknownIdentifier)
  }

  /** Walk a field path, descending one singular message per non-leaf segment. */
  function ResolvePath(message: Message, segments: seq<string>): PathResult
    decreases |segments|
  {
    if segments == [] || message.Field(segments[0]).None? then NotAField else
      var field := message.Field(segments[0]).value;
      if |segments| == 1 then
        if field.SingularMessage() && !message.Has(segments[0]) then Unset
        else Found(field, message.Get(segments[0]))
      else if !field.SingularMessage() then NotAField
      else if !message.Has(segments[0]) then Unset
      else if !message.Get(segments[0]).Msg? then NotAField
      else ResolvePath(message.Get(segments[0]).message, segments[1..])
  }

  function LowerField(field: Field, value: Value): Result<Operand, Error> {
    match value
    case Bool(b) => Ok(Operand.Bool(b))
    case Int(i) => Ok(Num(i as real))
    case Uint(u) => Ok(Num(u as real))
    case Float(d) => Ok(Num(d))
    case Str(text) => Ok(Text(text))
    case EnumNumber(number) =>
      if field.kind.Enum? then Ok(Text(EnumName(field.kind.ty, number))) else Err(EnumOnNonEnum)
    case Msg(message) =>
      if message.descriptor.fullName == TIMESTAMP_NAME then Ok(Text(Rfc3339(message)))
      else if message.descriptor.fullName == DURATION_NAME then Ok(Num(DurationSeconds(message)))
      else Err(Uncomparable)
    case _ => Err(Uncomparable)
  }

  /** The value's declared name, or its decimal text when the number is unknown. */
  function EnumName(ty: EnumType, number: int): string {
    if number in ty.names then ty.names[number]
    else if number < 0 then "-" + Decimal(-number)
    else Decimal(number)
  }

  function LowerLiteral(expr: Expr, ctx: Context): Result<Operand, Error> {
    match expr
    case Const(Int(i)) => Ok(Num(i as real))
    case Const(Uint(u)) => Ok(Num(u as real))
    case Const(Double(d)) => Ok(Num(d))
    case Const(Bool(b)) => Ok(Operand.Bool(b))
    case Const(Str(text)) => Ok(Text(text))
    case Const(Bytes(_)) => Err(Uncomparable)
    case Ident(name) => Ok(Text(name))
    case Call(name, args) =>
      if name == TIMESTAMP && |args| == 1 && args[0].Const? && args[0].constant.Str? then
        Ok(Text(args[0].constant.text))
      else if name == DURATION && |args| == 1 && args[0].Const? && args[0].constant.Str? then
        (match ParseDuration(args[0].constant.text, ctx.parse)
         case Some(seconds) => Ok(Num(seconds))
         case None => Err(InvalidDuration))
      else Err(NotAnOperand)
    case Select(_, _) => Err(NotAnOperand)
  }

  /** The dotted segments of an identifier chain. */
  function Segments(expr: Expr): Option<seq<string>> {
    match expr
    case Ident(name) => Some([name])
    case Select(operand, field) =>
      (match Segments(operand)
       case Some(base) => Some(base + [field])
       case None => None)
    case _ => None
  }

  /** An integer field of a well-known message, zero when absent. */
  function IntegerField(message: Message, name: string): int {
    if message.Field(name).Some? && message.Get(name).Int? then message.Get(name).i else 0
  }

  function Rfc3339(message: Message): string {
    Timestamps.FormatTimestamp(IntegerField(message, "seconds"))
  }

  function DurationSeconds(message: Message): real {
    IntegerField(message, "seconds") as real + IntegerField(message, "nanos") as real / 1000000000.0
  }

  /** A number of seconds followed by `s`. */
  function ParseDuration(literal: string, parse: string -> Option<real>): Option<real> {
    if literal != [] && literal[|literal| - 1] == 's' then parse(literal[..|literal| - 1]) else None
  }
}

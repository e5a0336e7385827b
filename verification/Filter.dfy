/** The filter expression tree, its types and the declarations it is checked against. */
module Filters {
  import opened Wrappers

  datatype Constant =
    | Int(i: int)
    | Uint(u: nat)
    | Double(d: real)
    | Bool(b: bool)
    | Str(text: string)
    | Bytes(bytes: string)

  datatype Expr =
    | Const(constant: Constant)
    | Ident(name: string)
    | Select(operand: Expr, field: string)
    | Call(name: string, args: seq<Expr>)

  const AND := "AND"
  const OR := "OR"
  const NOT := "NOT"
  const FUZZY := "FUZZY"
  const EQUALS := "="
  const NOT_EQUALS := "!="
  const LESS_THAN := "<"
  const LESS_EQUALS := "<="
  const GREATER_THAN := ">"
  const GREATER_EQUALS := ">="
  const HAS := ":"
  const TIMESTAMP := "timestamp"
  const DURATION := "duration"

  datatype Type =
    | Int
    | Uint
    | Double
    | String
    | Bool
    | Bytes
    | Duration
    | Timestamp
    | Enum(fullName: string)
    | Message(fullName: string)
    | Map(key: Type, value: Type)
    | List(element: Type)
    | Dyn
    | Null

  datatype Overload = Overload(result: Type, params: seq<Type>)

  /** The allowlist of identifiers with their types, the declared functions, and the
      declared field paths (enum value names are identifiers but not field paths). */
  datatype Declarations = Declarations(
    idents: map<string, Type>,
    functions: map<string, seq<Overload>>,
    fieldPaths: seq<string>)
  {
    function IdentType(name: string): Option<Type> {
      if name in idents then Some(idents[name]) else None
    }
  }

  function OverBool(params: seq<seq<Type>>): (r: seq<Overload>)
    ensures |r| == |params|
    ensures forall i :: 0 <= i < |r| ==> r[i] == Overload(Type.Bool, params[i])
  {
    if params == [] then [] else [Overload(Type.Bool, params[0])] + OverBool(params[1..])
  }

  const ORDERED: seq<seq<Type>> :=
    [[Type.Int, Type.Int], [Type.Double, Type.Double], [Type.Double, Type.Int], [String, String],
     [Timestamp, Timestamp], [Timestamp, String], [Duration, Duration]]

  /** The overloads `standard_functions` declares for a name; none for FUZZY. */
  function StandardOverloads(name: string): seq<Overload> {
    if name == EQUALS || name == NOT_EQUALS then OverBool([[Type.Bool, Type.Bool]] + ORDERED)
    else if name == LESS_THAN || name == LESS_EQUALS || name == GREATER_THAN || name == GREATER_EQUALS then OverBool(ORDERED)
    else if name == HAS then
      OverBool([[String, String], [Map(String, String), String], [List(String), String], [Timestamp, String]])
    else if name == AND || name == OR then OverBool([[Type.Bool, Type.Bool]])
    else if name == NOT then OverBool([[Type.Bool]])
    else if name == TIMESTAMP then [Overload(Timestamp, [String])]
    else if name == DURATION then [Overload(Duration, [String])]
    else []
  }

  const STANDARD_NAMES: seq<string> :=
    [EQUALS, NOT_EQUALS, LESS_THAN, LESS_EQUALS, GREATER_THAN, GREATER_EQUALS, HAS, AND, OR, NOT, TIMESTAMP, DURATION]

  /** The two overloads an enum identifier adds. */
  function EnumOverload(fullName: string): Overload {
    Overload(Type.Bool, [Enum(fullName), Enum(fullName)])
  }

  predicate Allowed(name: string, overload: Overload) {
    overload in StandardOverloads(name)
    || ((name == EQUALS || name == NOT_EQUALS)
        && |overload.params| == 2 && overload.params[0].Enum?
        && overload == EnumOverload(overload.params[0].fullName))
  }

  /** Only the standard overloads and enum comparisons are declared. */
  ghost predicate Standard(declarations: Declarations) {
    forall name, overload ::
      name in declarations.functions && overload in declarations.functions[name] ==> Allowed(name, overload)
  }

  /** The function has an overload for these argument types. */
  ghost predicate Declares(declarations: Declarations, name: string, params: seq<Type>) {
    name in declarations.functions
    && exists overload :: overload in declarations.functions[name] && overload.params == params
  }

  /** No name or field holds a dot. */
  predicate PlainNames(expr: Expr) {
    match expr
    case Const(_) => true
    case Ident(name) => '.' !in name
    case Select(operand, field) => '.' !in field && PlainNames(operand)
    case Call(_, args) => forall i :: 0 <= i < |args| ==> PlainNames(args[i])
  }

  /** The dotted name of an identifier chain. */
  function QualifiedName(expr: Expr): Option<string> {
    match expr
    case Ident(name) => Some(name)
    case Select(operand, field) =>
      (match QualifiedName(operand)
       case Some(base) => Some(base + "." + field)
       case None => None)
    case _ => None
  }
}

/** The type checker. */
module Checker {
  import opened Wrappers
  import opened Filters

  datatype Error = UndeclaredIdent(name: string) | TypeError

  function ConstantType(constant: Constant): Type {
    match constant
    case Int(_) => Type.Int
    case Uint(_) => Type.Uint
    case Double(_) => Type.Double
    case Bool(_) => Type.Bool
    case Str(_) => String
    case Bytes(_) => Type.Bytes
  }

  function TypeOf(expr: Expr, declarations: Declarations): Result<Type, Error>
    decreases expr, 1
  {
    match expr
    case Const(constant) => Ok(ConstantType(constant))
    case Ident(name) =>
      (match declarations.IdentType(name) case Some(ty) => Ok(ty) case None => Err(UndeclaredIdent(name)))
    case Select(operand, _) =>
      // A fully-qualified member chain may be declared as one identifier.
      var qualified := QualifiedName(expr);
      if qualified.Some? && qualified.value in declarations.idents then Ok(declarations.idents[qualified.value])
      else
        // Otherwise the operand must be a map, and selection yields its value.
        (match TypeOf(operand, declarations)
         case Ok(Map(_, value)) => Ok(value)
         case Ok(_) => Err(TypeError)
         case Err(error) => Err(error))
    case Call(name, args) =>
      var types :- TypesOf(args, declarations);
      if name !in declarations.functions then Err(TypeError)
      else Resolve(name, args, types, declarations.functions[name])
  }

  function TypesOf(args: seq<Expr>, declarations: Declarations): (r: Result<seq<Type>, Error>)
    ensures r.Ok? ==> |r.value| == |args|
    decreases args, 0
  {
    if args == [] then Ok([])
    else
      var first :- TypeOf(args[0], declarations);
      var rest :- TypesOf(args[1..], declarations);
      Ok([first] + rest)
  }

  /** The first overload whose parameters equal the argument types; `:` on a timestamp is
      presence-only. */
  function Resolve(name: string, args: seq<Expr>, types: seq<Type>, overloads: seq<Overload>): Result<Type, Error>
    requires |args| == |types|
  {
    if overloads == [] then Err(TypeError)
    else if overloads[0].params == types then
      if name == HAS && types == [Timestamp, String]
         && args[1].Const? && args[1].constant.Str? && args[1].constant.text != "*"
      then Err(TypeError)
      else Ok(overloads[0].result)
    else Resolve(name, args, types, overloads[1..])
  }

  predicate Check(expr: Expr, declarations: Declarations) {
    TypeOf(expr, declarations) == Ok(Type.Bool)
  }

  // ----- what a successful check says -----

  lemma {:induction false} ResolvedOverload(name: string, args: seq<Expr>, types: seq<Type>, overloads: seq<Overload>)
    requires |args| == |types| && Resolve(name, args, types, overloads).Ok?
    ensures Overload(Resolve(name, args, types, overloads).value, types) in overloads
    ensures name == HAS && types == [Timestamp, String] && args[1].Const? && args[1].constant.Str?
            ==> args[1].constant.text == "*"
  {
    if overloads[0].params == types {
      assert overloads[0] == Overload(overloads[0].result, types);
    } else {
      ResolvedOverload(name, args, types, overloads[1..]);
    }
  }

  /** A checked call has checked arguments and one of the allowed overloads. */
  lemma CheckedCall(name: string, args: seq<Expr>, declarations: Declarations)
    requires Standard(declarations) && TypeOf(Call(name, args), declarations).Ok?
    ensures TypesOf(args, declarations).Ok?
    ensures Allowed(name, Overload(TypeOf(Call(name, args), declarations).value, TypesOf(args, declarations).value))
    ensures (name == HAS && TypesOf(args, declarations).value == [Timestamp, String]
             && args[1].Const? && args[1].constant.Str?) ==> args[1].constant.text == "*"
  {
    var types := TypesOf(args, declarations).value;
    ResolvedOverload(name, args, types, declarations.functions[name]);
  }

  lemma CheckedPair(args: seq<Expr>, declarations: Declarations)
    requires |args| == 2 && TypesOf(args, declarations).Ok?
    ensures TypeOf(args[0], declarations).Ok? && TypeOf(args[1], declarations).Ok?
    ensures TypesOf(args, declarations).value
         == [TypeOf(args[0], declarations).value, TypeOf(args[1], declarations).value]
  {
    assert TypesOf(args[1..], declarations).Ok?;
    assert args[1..][1..] == [];
  }
}

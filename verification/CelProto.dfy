/** Lowering the filter tree to CEL expressions with a threaded id counter, and back. */
module CelConversion {
  import opened Wrappers
  import opened Filters

  datatype CelConstant =
    | NullValue
    | BoolValue(b: bool)
    | Int64Value(i: int)
    | Uint64Value(u: nat)
    | DoubleValue(d: real)
    | StringValue(text: string)
    | BytesValue(bytes: string)
    | DurationValue
    | TimestampValue

  datatype CelExpr = CelExpr(id: int, kind: Option<CelKind>)

  datatype CelKind =
    | ConstExpr(constant: Option<CelConstant>)
    | IdentExpr(name: string)
    | SelectExpr(operand: Option<CelExpr>, field: string, testOnly: bool)
    | CallExpr(target: Option<CelExpr>, name: string, args: seq<CelExpr>)
    | ListExpr
    | StructExpr
    | ComprehensionExpr

  datatype Error = UnsupportedExpr(what: string) | UnsupportedConstant(what: string) | Missing(what: string)

  // ----- native to CEL -----

  function LowerConstant(constant: Constant): CelConstant {
    match constant
    case Int(i) => Int64Value(i)
    case Uint(u) => Uint64Value(u)
    case Double(d) => DoubleValue(d)
    case Bool(b) => BoolValue(b)
    case Str(text) => StringValue(text)
    case Bytes(bytes) => BytesValue(bytes)
  }

  /** The number of nodes. */
  function Size(e: Expr): (n: nat)
    ensures n > 0
  {
    match e
    case Select(operand, _) => 1 + Size(operand)
    case Call(_, args) => 1 + Sizes(args)
    case _ => 1
  }

  function Sizes(args: seq<Expr>): nat {
    if args == [] then 0 else Size(args[0]) + Sizes(args[1..])
  }

  /** The tree stamped from `n`, a parent before its children. */
  function Lower(e: Expr, n: int): CelExpr {
    CelExpr(n, Some(match e
                    case Const(constant) => ConstExpr(Some(LowerConstant(constant)))
                    case Ident(name) => IdentExpr(name)
                    case Select(operand, field) => SelectExpr(Some(Lower(operand, n + 1)), field, false)
                    case Call(name, args) => CallExpr(None, name, LowerAll(args, n + 1))))
  }

  function LowerAll(args: seq<Expr>, n: int): (r: seq<CelExpr>)
    ensures |r| == |args|
    decreases args
  {
    if args == [] then [] else [Lower(args[0], n)] + LowerAll(args[1..], n + Size(args[0]))
  }

  lemma LowerNext(lowered: seq<CelExpr>, args: seq<Expr>, n: int)
    requires args != []
    ensures lowered + LowerAll(args, n) == lowered + [Lower(args[0], n)] + LowerAll(args[1..], n + Size(args[0]))
  {}

  /** The counter threaded through the lowering. */
  class Counter {
    var next: int

    constructor (next: int)
      ensures this.next == next
    {
      this.next := next;
    }

    /** `build_cel_expr`. */
    method Build(e: Expr) returns (r: CelExpr)
      modifies this
      ensures r == Lower(e, old(next)) && next == old(next) + Size(e)
      decreases e
    {
      var id := next;
      next := next + 1;
      match e {
        case Const(constant) => r := CelExpr(id, Some(ConstExpr(Some(LowerConstant(constant)))));
        case Ident(name) => r := CelExpr(id, Some(IdentExpr(name)));
        case Select(operand, field) =>
          var lowered := Build(operand);
          r := CelExpr(id, Some(SelectExpr(Some(lowered), field, false)));
        case Call(name, args) =>
          var lowered: seq<CelExpr> := [];
          assert args[0..] == args;
          for i := 0 to |args|
            invariant next + Sizes(args[i..]) == id + 1 + Sizes(args)
            invariant lowered + LowerAll(args[i..], next) == LowerAll(args, id + 1)
          {
            assert args[i..][0] == args[i] && args[i..][1..] == args[i + 1..];
            LowerNext(lowered, args[i..], next);
            var arg := Build(args[i]);
            lowered := lowered + [arg];
          }
          assert args[|args|..] == [] && lowered + [] == lowered;
          r := CelExpr(id, Some(CallExpr(None, name, lowered)));
      }
    }
  }

  // ----- CEL to native -----

  function RaiseConstant(constant: Option<CelConstant>): Result<Constant, Error> {
    match constant
    case None => Err(Missing("constant kind"))
    case Some(BoolValue(b)) => Ok(Constant.Bool(b))
    case Some(Int64Value(i)) => Ok(Constant.Int(i))
    case Some(Uint64Value(u)) => Ok(Constant.Uint(u))
    case Some(DoubleValue(d)) => Ok(Constant.Double(d))
    case Some(StringValue(text)) => Ok(Str(text))
    case Some(BytesValue(bytes)) => Ok(Constant.Bytes(bytes))
    case Some(NullValue) => Err(UnsupportedConstant("null"))
    case Some(DurationValue) => Err(UnsupportedConstant("duration"))
    case Some(TimestampValue) => Err(UnsupportedConstant("timestamp"))
  }

  function Raise(c: CelExpr): Result<Expr, Error> {
    match c.kind
    case None => Err(Missing("expression kind"))
    case Some(ConstExpr(constant)) =>
      var raised :- RaiseConstant(constant);
      Ok(Const(raised))
    case Some(IdentExpr(name)) => Ok(Ident(name))
    case Some(SelectExpr(operand, field, testOnly)) =>
      if testOnly then Err(UnsupportedExpr("presence-test select"))
      else if operand.None? then Err(Missing("select operand"))
      else
        var raised :- Raise(operand.value);
        Ok(Select(raised, field))
    case Some(CallExpr(target, name, args)) =>
      if target.Some? then Err(UnsupportedExpr("method-style call"))
      else
        var raised :- RaiseAll(args);
        Ok(Call(name, raised))
    case Some(ListExpr) => Err(UnsupportedExpr("list creation"))
    case Some(StructExpr) => Err(UnsupportedExpr("struct creation"))
    case Some(ComprehensionExpr) => Err(UnsupportedExpr("comprehension"))
  }

  function RaiseAll(args: seq<CelExpr>): Result<seq<Expr>, Error> {
    if args == [] then Ok([])
    else
      var first :- Raise(args[0]);
      var rest :- RaiseAll(args[1..]);
      Ok([first] + rest)
  }

  // ----- properties -----

  /** The ids of a tree, parents before children. */
  function Ids(c: CelExpr): seq<int> {
    [c.id] + match c.kind
             case Some(SelectExpr(Some(operand), _, _)) => Ids(operand)
             case Some(CallExpr(None, _, args)) => AllIds(args)
             case Some(CallExpr(Some(target), _, args)) => Ids(target) + AllIds(args)
             case _ => []
  }

  function AllIds(args: seq<CelExpr>): seq<int> {
    if args == [] then [] else Ids(args[0]) + AllIds(args[1..])
  }

  function Range(n: int, size: nat): seq<int> {
    seq(size, i requires 0 <= i < size => n + i)
  }

  lemma RangeConcat(n: int, a: nat, b: nat)
    ensures Range(n, a) + Range(n + a, b) == Range(n, a + b)
  {}

  /** Lowering from `n` uses exactly the ids `n` up to `n + size`, in pre-order. */
  lemma {:induction false} IdsAreConsecutive(e: Expr, n: int)
    ensures Ids(Lower(e, n)) == Range(n, Size(e))
    decreases e
  {
    assert Range(n, 1) == [n];
    match e {
      case Const(_) =>
      case Ident(_) =>
      case Select(operand, _) =>
        IdsAreConsecutive(operand, n + 1);
        RangeConcat(n, 1, Size(operand));
      case Call(_, args) =>
        AllIdsAreConsecutive(args, n + 1);
        RangeConcat(n, 1, Sizes(args));
    }
  }

  lemma {:induction false} AllIdsAreConsecutive(args: seq<Expr>, n: int)
    ensures AllIds(LowerAll(args, n)) == Range(n, Sizes(args))
    decreases args
  {
    if args != [] {
      IdsAreConsecutive(args[0], n);
      AllIdsAreConsecutive(args[1..], n + Size(args[0]));
      RangeConcat(n, Size(args[0]), Sizes(args[1..]));
      assert LowerAll(args, n)[1..] == LowerAll(args[1..], n + Size(args[0]));
    }
  }

  lemma {:induction false} RaiseOfLower(e: Expr, n: int)
    ensures Raise(Lower(e, n)) == Ok(e)
    decreases e
  {
    match e {
      case Const(_) =>
      case Ident(_) =>
      case Select(operand, _) => RaiseOfLower(operand, n + 1);
      case Call(_, args) => RaiseAllOfLower(args, n + 1);
    }
  }

  lemma {:induction false} RaiseCons(c: CelExpr, rest: seq<CelExpr>, e: Expr, es: seq<Expr>)
    requires Raise(c) == Ok(e) && RaiseAll(rest) == Ok(es)
    ensures RaiseAll([c] + rest) == Ok([e] + es)
  {
    assert ([c] + rest)[1..] == rest;
  }

  lemma {:induction false} RaiseAllOfLower(args: seq<Expr>, n: int)
    ensures RaiseAll(LowerAll(args, n)) == Ok(args)
    decreases args
  {
    if args != [] {
      var e, es := args[0], args[1..];
      RaiseOfLower(e, n);
      RaiseAllOfLower(es, n + Size(e));
      RaiseCons(Lower(e, n), LowerAll(es, n + Size(e)), e, es);
      assert args == [e] + es;
    }
  }

  /** The same tree up to ids. */
  predicate SameShape(a: CelExpr, b: CelExpr) {
    match (a.kind, b.kind)
    case (Some(SelectExpr(Some(x), f, s)), Some(SelectExpr(Some(y), g, t))) => f == g && s == t && SameShape(x, y)
    case (Some(CallExpr(None, f, xs)), Some(CallExpr(None, g, ys))) => f == g && SameShapes(xs, ys)
    case _ => a.kind == b.kind
  }

  predicate SameShapes(xs: seq<CelExpr>, ys: seq<CelExpr>) {
    |xs| == |ys| && (xs != [] ==> SameShape(xs[0], ys[0]) && SameShapes(xs[1..], ys[1..]))
  }

  /** Whatever converts to a native tree is, up to its ids, what that tree lowers to: nothing
      is silently reshaped. */
  lemma {:induction false} LowerOfRaise(c: CelExpr, n: int)
    requires Raise(c).Ok?
    ensures SameShape(Lower(Raise(c).value, n), c)
    decreases c
  {
    match c.kind {
      case Some(SelectExpr(Some(operand), _, _)) => LowerOfRaise(operand, n + 1);
      case Some(CallExpr(None, _, args)) => LowerAllOfRaise(args, n + 1);
      case _ =>
    }
  }

  lemma {:induction false} LowerAllOfRaise(args: seq<CelExpr>, n: int)
    requires RaiseAll(args).Ok?
    ensures SameShapes(LowerAll(RaiseAll(args).value, n), args)
    decreases args
  {
    if args != [] {
      var first, rest := Raise(args[0]).value, RaiseAll(args[1..]).value;
      LowerOfRaise(args[0], n);
      LowerAllOfRaise(args[1..], n + Size(first));
      assert RaiseAll(args).value[1..] == rest;
      assert LowerAll(RaiseAll(args).value, n)[1..] == LowerAll(rest, n + Size(first));
    }
  }
}

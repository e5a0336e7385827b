/** What checking and transpiling a filter guarantee about evaluating it. */
module Soundness {
  import opened Wrappers
  import opened Text
  import opened Filters
  import opened Messages
  import opened Agreement
  import Checker
  import Dialect
  import Matcher
  import Predicates
  import Reading
  import Rendering
  import Sql
  import Transpiler

  // ----- the checker keeps the evaluator off its type errors -----

  /** The operand kinds values of a type lower to. */
  datatype Shape = Number | Textual | Boolean | Other

  function ShapeOf(ty: Type): Shape {
    match ty
    case Int => Number
    case Uint => Number
    case Double => Number
    case Duration => Number
    case String => Textual
    case Enum(_) => Textual
    case Timestamp => Textual
    case Bool => Boolean
    case _ => Other
  }

  function OperandShape(operand: Matcher.Operand): Shape {
    match operand case Num(_) => Number case Text(_) => Textual case Bool(_) => Boolean
  }

  predicate SameShape(params: seq<Type>) {
    |params| == 2 && ShapeOf(params[0]) == ShapeOf(params[1]) != Other
  }

  lemma OrderedShapes()
    ensures forall params :: params in [[Type.Bool, Type.Bool]] + ORDERED ==> SameShape(params)
    ensures forall params :: params in ORDERED ==> SameShape(params)
  {}

  /** Every comparison overload takes two operands of one comparable shape. */
  lemma OverloadShapes(name: string, overload: Overload)
    requires Matcher.Comparison(name).Some? && Allowed(name, overload)
    ensures SameShape(overload.params) && overload.result.Bool?
  {
    OrderedShapes();
    if overload in StandardOverloads(name) {
      var params := if name == EQUALS || name == NOT_EQUALS then [[Type.Bool, Type.Bool]] + ORDERED else ORDERED;
      InOverBool(params, overload);
    }
  }

  lemma LoweredFieldShape(field: Field, value: Value, ty: Type)
    requires FieldHasType(field, ty) && ValueConforms(field, value) && ShapeOf(ty) != Other
    ensures Matcher.LowerField(field, value).Ok?
    ensures OperandShape(Matcher.LowerField(field, value).value) == ShapeOf(ty)
  {}

  /** The errors a type check is meant to exclude. */
  predicate TypeErrorOf(error: Matcher.Error) {
    error.Mismatched? || error.Uncomparable? || error.EnumOnNonEnum?
  }

  lemma {:induction false} LoweredLiteralShape(expr: Expr, w: World)
    requires Standard(w.declarations) && Checker.TypeOf(expr, w.declarations).Ok?
    requires Matcher.Classify(expr, w.Matching()) == Ok(Matcher.Literal)
    requires ShapeOf(Checker.TypeOf(expr, w.declarations).value) != Other
    ensures match Matcher.LowerLiteral(expr, w.Matching())
            case Ok(operand) => OperandShape(operand) == ShapeOf(Checker.TypeOf(expr, w.declarations).value)
            case Err(error) => !TypeErrorOf(error)
  {
    if expr.Call? {
      ConstructorType(expr, w);
    }
  }

  /** A timestamp or duration literal has the type its name says. */
  lemma ConstructorType(expr: Expr, w: World)
    requires Standard(w.declarations) && Checker.TypeOf(expr, w.declarations).Ok? && expr.Call?
    requires expr.name == TIMESTAMP || expr.name == DURATION
    ensures Checker.TypeOf(expr, w.declarations).value == if expr.name == TIMESTAMP then Type.Timestamp else Type.Duration
  {
    Checker.CheckedCall(expr.name, expr.args, w.declarations);
  }

  /** The operand is an identifier or path declared with an enum type. */
  predicate EnumNamed(expr: Expr, w: World) {
    var name := QualifiedName(expr);
    name.Some? && name.value in w.declarations.idents && w.declarations.idents[name.value].Enum?
  }

  /** Fields that compare as text. */
  predicate TextField(field: Field) {
    field.cardinality.Singular? && (field.kind.String? || field.kind.Enum? || field.kind == Kind.Message(TIMESTAMP_NAME))
  }

  /** What an operand declared with an enum type reads from the message, if it is set,
      compares as text. An enum value name declared over another field may read anything. */
  predicate EnumReadsText(expr: Expr, w: World) {
    EnumNamed(expr, w) ==>
      var read := Matcher.ResolvePath(w.message, Split(QualifiedName(expr).value, '.'));
      read.Found? ==> TextField(read.field)
  }

  /** Exactly the text fields lower to text. */
  lemma TextFieldLowers(field: Field, value: Value)
    requires ValueConforms(field, value)
    ensures TextField(field) <==> Matcher.LowerField(field, value).Ok? && Matcher.LowerField(field, value).value.Text?
    ensures Matcher.LowerField(field, value).Err? ==> TypeErrorOf(Matcher.LowerField(field, value).error)
  {}

  /** Dropping the last segment of a found path leaves a singular message field. */
  lemma {:induction false} PrefixFound(message: Message, segments: seq<string>, last: string)
    requires segments != [] && Matcher.ResolvePath(message, segments + [last]).Found?
    ensures Matcher.ResolvePath(message, segments).Found?
    ensures Matcher.ResolvePath(message, segments).field.SingularMessage()
    decreases |segments|
  {
    var all := segments + [last];
    if |segments| > 1 {
      assert all[1..] == segments[1..] + [last];
      PrefixFound(message.Get(segments[0]).message, segments[1..], last);
    }
  }

  /** A path found in the message has the type the checker computes for it; an enum value
      name can be declared over a field of any type. */
  lemma {:induction false} FoundHasType(expr: Expr, w: World)
    requires w.Consistent() && Checker.TypeOf(expr, w.declarations).Ok? && Matcher.Segments(expr).Some?
    requires Matcher.ResolvePath(w.message, Matcher.Segments(expr).value).Found?
    ensures FieldHasType(Matcher.ResolvePath(w.message, Matcher.Segments(expr).value).field,
                         Checker.TypeOf(expr, w.declarations).value)
            || EnumNamed(expr, w)
  {
    QualifiedIsJoined(expr);
    var name := QualifiedName(expr).value;
    if name in w.declarations.idents {
      if expr.Select? {
        QualifiedIsJoined(expr.operand);
        assert name == QualifiedName(expr.operand).value + "." + expr.field;
        assert name[|QualifiedName(expr.operand).value|] == '.';
      }
      if !EnumNamed(expr, w) {
        ColumnHoldsPath(w, expr);
      }
    } else {
      QualifiedIsJoined(expr.operand);
      PrefixFound(w.message, Matcher.Segments(expr.operand).value, expr.field);
      FoundHasType(expr.operand, w);
    }
  }

  /** A field operand holds a value of the type the checker computes, or is declared with an
      enum type and reads the path it is declared for. */
  lemma FieldOperandHasType(expr: Expr, w: World)
    requires w.Consistent() && Checker.TypeOf(expr, w.declarations).Ok?
    requires Matcher.Classify(expr, w.Matching()).Ok? && Matcher.Classify(expr, w.Matching()).value.FieldSide?
    ensures var value := Matcher.Classify(expr, w.Matching()).value.fieldValue;
            value.Present? ==>
              ValueConforms(value.field, value.value)
              && (FieldHasType(value.field, Checker.TypeOf(expr, w.declarations).value)
                  || (EnumNamed(expr, w)
                      && Matcher.ResolvePath(w.message, Split(QualifiedName(expr).value, '.')) == Matcher.Found(value.field, value.value)))
  {
    QualifiedIsJoined(expr);
    var segments := Matcher.Segments(expr);
    if segments.Some? && !Matcher.ResolvePath(w.message, segments.value).NotAField? {
      if Matcher.ResolvePath(w.message, segments.value).Found? {
        FoundConforms(w.message, segments.value);
        FoundHasType(expr, w);
        ResolvedPathRejoins(w.message, segments.value);
      }
    } else {
      MapOperandHasType(expr, w);
    }
  }

  lemma MapOperandHasType(expr: Expr, w: World)
    requires w.Consistent() && Checker.TypeOf(expr, w.declarations).Ok? && expr.Select? && expr.operand.Ident?
    requires w.message.Field(expr.operand.name).Some?
    requires w.message.Field(expr.operand.name).value.cardinality.MapField?
    requires Matcher.ResolvePath(w.message, [expr.operand.name, expr.field]).NotAField?
    ensures var field := w.message.Field(expr.operand.name).value;
            var stored := w.message.Get(expr.operand.name);
            stored.Map? && forall k :: k in stored.entries ==>
              FieldHasType(field.Element(), Checker.TypeOf(expr, w.declarations).value)
              && ValueConforms(field.Element(), stored.entries[k])
  {
    var base := expr.operand.name;
    var field := w.message.Field(base).value;
    var name := base + "." + expr.field;
    assert QualifiedName(expr) == Some(name);
    assert name[|base|] == '.';
    MapMemberIsNoPath(w.message, base, expr.field);
    assert name !in w.declarations.idents;
    SubmessageConforms(w.message, base);
    SplitSingle(base, '.');
    assert base in w.schema.columns;
    assert Matcher.ResolvePath(w.message, [base]) == Matcher.Found(field, w.message.Get(base));
  }

  /** Two operands of one shape, of which a field compared with a literal reads text where
      its type is an enum. */
  lemma {:induction false} TypedCompareNeverMismatches(op: Matcher.CmpOp, left: Expr, right: Expr, w: World)
    requires w.Consistent()
    requires Checker.TypeOf(left, w.declarations).Ok? && Checker.TypeOf(right, w.declarations).Ok?
    requires SameShape([Checker.TypeOf(left, w.declarations).value, Checker.TypeOf(right, w.declarations).value])
    requires ReadsField(left, right, w) ==> EnumReadsText(left, w)
    requires ReadsField(right, left, w) ==> EnumReadsText(right, w)
    ensures var result := Matcher.Compare(op, left, right, w.Matching());
            result.Err? ==> !TypeErrorOf(result.error)
  {
    var l, r := Matcher.Classify(left, w.Matching()), Matcher.Classify(right, w.Matching());
    if ReadsField(left, right, w) {
      FieldIsTyped(left, w);
      LoweredLiteralShape(right, w);
      ShapedCompare(op, l.value.fieldValue, right, w, ShapeOf(Checker.TypeOf(left, w.declarations).value));
    } else if ReadsField(right, left, w) {
      FieldIsTyped(right, w);
      LoweredLiteralShape(left, w);
      ShapedCompare(op.Mirror(), r.value.fieldValue, left, w, ShapeOf(Checker.TypeOf(right, w.declarations).value));
    }
  }

  /** In memory the first operand is a field and the second a literal. */
  predicate ReadsField(field: Expr, literal: Expr, w: World) {
    Matcher.Classify(field, w.Matching()).Ok? && Matcher.Classify(field, w.Matching()).value.FieldSide?
    && Matcher.Classify(literal, w.Matching()) == Ok(Matcher.Literal)
  }

  /** A field and a literal of one shape compare without a type error. */
  lemma ShapedCompare(op: Matcher.CmpOp, field: Matcher.FieldValue, literal: Expr, w: World, shape: Shape)
    requires field.Present? ==>
               Matcher.LowerField(field.field, field.value).Ok?
               && OperandShape(Matcher.LowerField(field.field, field.value).value) == shape
    requires match Matcher.LowerLiteral(literal, w.Matching())
             case Ok(operand) => OperandShape(operand) == shape
             case Err(error) => !TypeErrorOf(error)
    ensures var result := Matcher.EvalCompare(op, field, literal, w.Matching());
            result.Err? ==> !TypeErrorOf(result.error)
  {}

  /** An operand with an enum type that reads a field of another kind, and a literal of that
      enum to compare it with. */
  ghost predicate Misread(place: string, literal: string, w: World) {
    place in w.declarations.idents && literal in w.declarations.idents
    && w.declarations.idents[place].Enum? && w.declarations.idents[place] == w.declarations.idents[literal]
    && literal !in w.message.descriptor.fields
    && EqualityDeclared(w.declarations.idents[place], w.declarations)
    && var read := Matcher.ResolvePath(w.message, Split(place, '.')); read.Found? && !TextField(read.field)
  }

  ghost predicate EqualityDeclared(ty: Type, declarations: Declarations) {
    Declares(declarations, EQUALS, [ty, ty]) || Declares(declarations, NOT_EQUALS, [ty, ty])
  }

  /** Nothing a filter can compare with an enum literal reads a field of another kind. */
  ghost predicate EnumsReadable(w: World) {
    forall place, literal :: !Misread(place, literal, w)
  }

  /** A literal with an enum type is an identifier that names no field. */
  lemma EnumLiteral(expr: Expr, w: World)
    requires Standard(w.declarations) && Checker.TypeOf(expr, w.declarations).Ok?
    requires Checker.TypeOf(expr, w.declarations).value.Enum? && Matcher.Classify(expr, w.Matching()) == Ok(Matcher.Literal)
    ensures expr.Ident? && expr.name in w.declarations.idents && expr.name !in w.message.descriptor.fields
    ensures w.declarations.idents[expr.name] == Checker.TypeOf(expr, w.declarations).value
  {
    if expr.Call? {
      ConstructorType(expr, w);
    }
  }

  lemma NotMisread(name: string, types: seq<Type>, field: Expr, literal: Expr, w: World)
    requires w.Consistent() && EnumsReadable(w) && Matcher.Comparison(name).Some? && Declares(w.declarations, name, types)
    requires Checker.TypeOf(field, w.declarations).Ok? && Checker.TypeOf(literal, w.declarations).Ok?
    requires var f, l := Checker.TypeOf(field, w.declarations).value, Checker.TypeOf(literal, w.declarations).value;
             types == [f, l] || types == [l, f]
    requires ReadsField(field, literal, w)
    ensures EnumReadsText(field, w)
  {
    if EnumNamed(field, w) {
      EnumsCompared(name, types, Checker.TypeOf(field, w.declarations).value, w.declarations);
      EnumLiteral(literal, w);
      assert !Misread(QualifiedName(field).value, literal.name, w);
    }
  }

  /** Of two operands compared, an enum is compared with the same enum. */
  lemma EnumsCompared(name: string, types: seq<Type>, ty: Type, declarations: Declarations)
    requires Standard(declarations) && Matcher.Comparison(name).Some? && Declares(declarations, name, types)
    requires |types| == 2 && ty in types && ty.Enum?
    ensures types == [ty, ty] && EqualityDeclared(ty, declarations)
  {
    var overload :| overload in declarations.functions[name] && overload.params == types;
    assert Allowed(name, overload);
    EnumOverloads(name, overload, ty);
    assert Declares(declarations, name, [ty, ty]);
  }

  lemma EnumOverloads(name: string, overload: Overload, ty: Type)
    requires Matcher.Comparison(name).Some? && Allowed(name, overload)
    requires |overload.params| == 2 && ty in overload.params && ty.Enum?
    ensures overload.params == [ty, ty] && (name == EQUALS || name == NOT_EQUALS)
  {
    EnumsAreEquated(name, overload);
  }

  lemma CompareNeverMismatches(name: string, args: seq<Expr>, w: World)
    requires w.Consistent() && EnumsReadable(w) && |args| == 2 && Checker.TypeOf(Call(name, args), w.declarations).Ok?
    requires Matcher.Comparison(name).Some?
    ensures var result := Matcher.Compare(Matcher.Comparison(name).value, args[0], args[1], w.Matching());
            result.Err? ==> !TypeErrorOf(result.error)
  {
    Checker.CheckedCall(name, args, w.declarations);
    Checker.CheckedPair(args, w.declarations);
    var types := Checker.TypesOf(args, w.declarations).value;
    Checker.ResolvedOverload(name, args, types, w.declarations.functions[name]);
    OverloadShapes(name, Overload(Checker.TypeOf(Call(name, args), w.declarations).value, types));
    if ReadsField(args[0], args[1], w) {
      NotMisread(name, types, args[0], args[1], w);
    }
    if ReadsField(args[1], args[0], w) {
      NotMisread(name, types, args[1], args[0], w);
    }
    TypedCompareNeverMismatches(Matcher.Comparison(name).value, args[0], args[1], w);
  }

  /** A field operand is absent or lowers to its type's shape. */
  lemma FieldIsTyped(expr: Expr, w: World)
    requires w.Consistent() && Checker.TypeOf(expr, w.declarations).Ok? && EnumReadsText(expr, w)
    requires ShapeOf(Checker.TypeOf(expr, w.declarations).value) != Other
    requires Matcher.Classify(expr, w.Matching()).Ok? && Matcher.Classify(expr, w.Matching()).value.FieldSide?
    ensures match Matcher.Classify(expr, w.Matching()).value.fieldValue
            case Present(field, value) =>
              Matcher.LowerField(field, value).Ok?
              && OperandShape(Matcher.LowerField(field, value).value) == ShapeOf(Checker.TypeOf(expr, w.declarations).value)
            case Absent => true
  {
    FieldOperandHasType(expr, w);
    var read := Matcher.Classify(expr, w.Matching()).value.fieldValue;
    if read.Present? {
      TextFieldLowers(read.field, read.value);
      if FieldHasType(read.field, Checker.TypeOf(expr, w.declarations).value) {
        LoweredFieldShape(read.field, read.value, Checker.TypeOf(expr, w.declarations).value);
      } else {
        EnumNamedIsEnum(expr, w);
      }
    }
  }

  lemma EnumNamedIsEnum(expr: Expr, w: World)
    requires EnumNamed(expr, w)
    ensures Checker.TypeOf(expr, w.declarations) == Ok(w.declarations.idents[QualifiedName(expr).value])
    ensures ShapeOf(Checker.TypeOf(expr, w.declarations).value) == Textual
  {}

  lemma HasNeverMismatches(left: Expr, right: Expr, w: World)
    ensures var result := Matcher.Has(left, right, w.Matching());
            result.Err? ==> !TypeErrorOf(result.error)
  {}

  /** Checker soundness: evaluating a checked filter never meets mismatched or incomparable
      operand types, at any depth, when no enum value name misreads a field. */
  lemma {:induction false} CheckedNeverMismatches(expr: Expr, w: World)
    requires w.Consistent() && EnumsReadable(w) && Checker.TypeOf(expr, w.declarations).Ok?
    ensures var result := Matcher.Eval(expr, w.Matching());
            result.Err? ==> !TypeErrorOf(result.error)
  {
    if expr.Call? {
      var name, args := expr.name, expr.args;
      ComparisonsAgree(name);
      if |args| == 1 {
        OneArgument(args, w.declarations);
        CheckedNeverMismatches(args[0], w);
      } else if |args| == 2 {
        Checker.CheckedPair(args, w.declarations);
        if name == AND || name == OR {
          CheckedNeverMismatches(args[0], w);
          CheckedNeverMismatches(args[1], w);
        } else if name == HAS {
          HasNeverMismatches(args[0], args[1], w);
        } else if Matcher.Comparison(name).Some? {
          CompareNeverMismatches(name, args, w);
        }
      }
    }
  }

  // ----- what transpiles can be evaluated -----

  /** No segment the matcher looks at holds a dot: those up to the first that names no set
      submessage. Only a quoted segment can hold one. */
  predicate PlainPath(message: Message, segments: seq<string>)
    decreases |segments|
  {
    segments == []
    || ('.' !in segments[0]
        && (message.Field(segments[0]).Some? && message.Has(segments[0]) && message.Get(segments[0]).Msg? ==>
              PlainPath(message.Get(segments[0]).message, segments[1..])))
  }

  /** A path whose dotted spelling resolves when split at its dots resolves as it stands
      exactly when the matcher meets no dotted segment. */
  lemma {:induction false} PlainPathResolves(message: Message, segments: seq<string>)
    requires Conforms(message) && segments != []
    requires !Matcher.ResolvePath(message, Split(Join(segments, '.'), '.')).NotAField?
    ensures !Matcher.ResolvePath(message, segments).NotAField? <==> PlainPath(message, segments)
    decreases |segments|
  {
    var head, rest := segments[0], segments[1..];
    if '.' !in head {
      if rest == [] {
        SplitSingle(head, '.');
        assert segments == [head];
      } else {
        var joined := Join(rest, '.');
        SplitCons(head, '.', joined);
        assert segments == [head] + rest;
        ResolveCons(message, head, rest);
        ResolveCons(message, head, Split(joined, '.'));
        if message.Has(head) {
          SubmessageConforms(message, head);
          PlainPathResolves(message.Get(head).message, rest);
        }
      }
    }
  }

  /** The operand, if it names a column, is spelled the way the matcher looks it up. */
  predicate PlainOperand(expr: Expr, w: World) {
    var qualified, segments := QualifiedName(expr), Matcher.Segments(expr);
    if qualified.Some? && qualified.value in w.schema.columns then
      segments.Some? && PlainPath(w.message, segments.value)
    else expr.Select? && expr.operand.Ident? && expr.operand.name in w.schema.columns ==> '.' !in expr.operand.name
  }

  /** The matcher reads a field. */
  predicate FieldOperand(expr: Expr, w: World) {
    match expr
    case Ident(name) => name in w.message.descriptor.fields
    case Select(_, _) => PlainOperand(expr, w)
    case _ => false
  }

  /** The matcher takes a literal: a constant, a constructor, or a name declared with an enum
      type that is no field. */
  predicate LiteralOperand(expr: Expr, w: World) {
    match expr
    case Const(_) => true
    case Call(name, _) => name == TIMESTAMP || name == DURATION
    case Ident(name) => name !in w.message.descriptor.fields && EnumNamed(expr, w)
    case Select(_, _) => false
  }

  /** One operand is a field, text if its type is an enum, and the other a literal. */
  predicate FieldAndLiteral(left: Expr, right: Expr, w: World) {
    (FieldOperand(left, w) && LiteralOperand(right, w) && EnumReadsText(left, w))
    || (LiteralOperand(left, w) && FieldOperand(right, w) && EnumReadsText(right, w))
  }

  /** Every comparison has a field and a literal, and every `:` test a plain operand. */
  predicate Evaluable(expr: Expr, w: World) {
    match expr
    case Call(name, args) =>
      if (name == AND || name == OR) && |args| == 2 then Evaluable(args[0], w) && Evaluable(args[1], w)
      else if name == NOT && |args| == 1 then Evaluable(args[0], w)
      else if name == HAS && |args| == 2 then PlainOperand(args[0], w)
      else if Matcher.Comparison(name).Some? && |args| == 2 then FieldAndLiteral(args[0], args[1], w)
      else true
    case _ => true
  }

  lemma {:induction false} PlainSegments(expr: Expr)
    requires PlainNames(expr) && Matcher.Segments(expr).Some?
    ensures Free(Matcher.Segments(expr).value, '.') && Matcher.Segments(expr).value != []
  {
    if expr.Select? {
      PlainSegments(expr.operand);
    }
  }

  lemma {:induction false} FreeIsPlain(message: Message, segments: seq<string>)
    requires Free(segments, '.')
    ensures PlainPath(message, segments)
    decreases |segments|
  {
    if segments != [] && message.Field(segments[0]).Some? && message.Has(segments[0]) && message.Get(segments[0]).Msg? {
      FreeIsPlain(message.Get(segments[0]).message, segments[1..]);
    }
  }

  lemma PlainNamesArePlain(expr: Expr, w: World)
    requires PlainNames(expr)
    ensures PlainOperand(expr, w)
  {
    QualifiedIsJoined(expr);
    if Matcher.Segments(expr).Some? {
      PlainSegments(expr);
      FreeIsPlain(w.message, Matcher.Segments(expr).value);
    }
  }

  /** A column spelled without dots inside its names, and an enum value to compare it with,
      of which the matcher makes no field and literal: the value is named like a field, or
      the column's declaration was taken over from a field of another kind. */
  ghost predicate Clashes(place: Expr, value: string, w: World) {
    PlainNames(place)
    && Transpiler.Classify(place, w.Transpiling()).Ok? && Transpiler.Classify(place, w.Transpiling()).value.ColumnOperand?
    && value in w.declarations.idents && value !in w.schema.columns
    && Checker.TypeOf(place, w.declarations) == Ok(w.declarations.idents[value])
    && EqualityDeclared(w.declarations.idents[value], w.declarations)
    && (value in w.message.descriptor.fields || !EnumReadsText(place, w))
  }

  /** Enum values and fields are told apart wherever a filter can compare them. */
  ghost predicate EnumsTold(w: World) {
    forall place, value :: !Clashes(place, value, w)
  }

  /** A bound value of an enum type is an unmapped name. */
  lemma EnumValueName(value: Expr, w: World)
    requires w.Consistent() && Checker.TypeOf(value, w.declarations).Ok? && Checker.TypeOf(value, w.declarations).value.Enum?
    requires Transpiler.Classify(value, w.Transpiling()).Ok? && Transpiler.Classify(value, w.Transpiling()).value.ValueOperand?
    ensures value.Ident? && value.name in w.declarations.idents && value.name !in w.schema.columns
    ensures Checker.TypeOf(value, w.declarations) == Ok(w.declarations.idents[value.name])
  {
    if value.Call? {
      ConstructorType(value, w);
    }
  }

  lemma PlainColumnReads(place: Expr, w: World)
    requires w.Consistent() && PlainNames(place) && Checker.TypeOf(place, w.declarations).Ok?
    requires Transpiler.Classify(place, w.Transpiling()).Ok? && Transpiler.Classify(place, w.Transpiling()).value.ColumnOperand?
    ensures FieldOperand(place, w) && !LiteralOperand(place, w)
  {
    PlainNamesArePlain(place, w);
    if place.Ident? {
      SplitSingle(place.name, '.');
      assert !Matcher.ResolvePath(w.message, [place.name]).NotAField?;
    }
  }

  lemma PlainPairSuffices(name: string, types: seq<Type>, left: Expr, right: Expr, w: World)
    requires w.Consistent() && EnumsTold(w) && PlainNames(left)
    requires Matcher.Comparison(name).Some? && Declares(w.declarations, name, types)
    requires Checker.TypeOf(left, w.declarations).Ok? && Checker.TypeOf(right, w.declarations).Ok?
    requires var l, r := Checker.TypeOf(left, w.declarations).value, Checker.TypeOf(right, w.declarations).value;
             types == [l, r] || types == [r, l]
    requires Transpiler.Classify(left, w.Transpiling()).Ok? && Transpiler.Classify(left, w.Transpiling()).value.ColumnOperand?
    requires Transpiler.Classify(right, w.Transpiling()).Ok? && Transpiler.Classify(right, w.Transpiling()).value.ValueOperand?
    ensures FieldOperand(left, w) && LiteralOperand(right, w) && EnumReadsText(left, w)
  {
    PlainColumnReads(left, w);
    if Checker.TypeOf(left, w.declarations).value.Enum? || right.Ident? {
      var ty := Checker.TypeOf(if right.Ident? then right else left, w.declarations).value;
      ValueIsEnum(right, w);
      EnumsCompared(name, types, ty, w.declarations);
      EnumValueName(right, w);
      assert !Clashes(left, right.name, w);
    } else {
      NotEnumNamed(left, w);
    }
  }

  lemma ValueIsEnum(value: Expr, w: World)
    requires w.Consistent() && Checker.TypeOf(value, w.declarations).Ok?
    requires Transpiler.Classify(value, w.Transpiling()).Ok? && Transpiler.Classify(value, w.Transpiling()).value.ValueOperand?
    ensures value.Ident? ==> Checker.TypeOf(value, w.declarations).value.Enum?
  {}

  lemma NotEnumNamed(expr: Expr, w: World)
    requires Checker.TypeOf(expr, w.declarations).Ok? && !Checker.TypeOf(expr, w.declarations).value.Enum?
    ensures EnumReadsText(expr, w)
  {
    if EnumNamed(expr, w) {
      EnumNamedIsEnum(expr, w);
    }
  }

  /** A checked filter that transpiles and has no dots inside its names evaluates wherever
      enum values and fields are told apart. */
  lemma {:induction false} PlainNamesSuffice(expr: Expr, w: World)
    requires w.Consistent() && EnumsTold(w) && PlainNames(expr)
    requires Checker.TypeOf(expr, w.declarations).Ok? && Transpiler.Transpile(expr, w.Transpiling()).Ok?
    ensures Evaluable(expr, w)
  {
    var name, args := expr.name, expr.args;
    ComparisonsAgree(name);
    if |args| == 1 {
      OneArgument(args, w.declarations);
      PlainNamesSuffice(args[0], w);
    } else {
      Checker.CheckedPair(args, w.declarations);
      if name == AND || name == OR {
        PlainNamesSuffice(args[0], w);
        PlainNamesSuffice(args[1], w);
      } else if name == HAS {
        PlainNamesArePlain(args[0], w);
      } else {
        PlainCompareSuffices(name, args, w);
      }
    }
  }

  lemma PlainCompareSuffices(name: string, args: seq<Expr>, w: World)
    requires w.Consistent() && EnumsTold(w) && |args| == 2 && PlainNames(args[0]) && PlainNames(args[1])
    requires Matcher.Comparison(name).Some? && Checker.TypeOf(Call(name, args), w.declarations).Ok?
    requires Transpiler.TranspileCompare(SqlOp(Matcher.Comparison(name).value), args[0], args[1], w.Transpiling()).Ok?
    ensures FieldAndLiteral(args[0], args[1], w)
  {
    Checker.CheckedPair(args, w.declarations);
    var types := Checker.TypesOf(args, w.declarations).value;
    Checker.ResolvedOverload(name, args, types, w.declarations.functions[name]);
    assert Declares(w.declarations, name, types);
    if Transpiler.Classify(args[0], w.Transpiling()).value.ColumnOperand? {
      PlainPairSuffices(name, types, args[0], args[1], w);
    } else {
      PlainPairSuffices(name, types, args[1], args[0], w);
    }
  }

  /** A mapped path resolves in the message exactly when it is plain. */
  lemma MappedPathResolves(expr: Expr, w: World)
    requires w.Consistent() && QualifiedName(expr).Some? && QualifiedName(expr).value in w.schema.columns
    ensures Matcher.Segments(expr).Some?
    ensures !Matcher.ResolvePath(w.message, Matcher.Segments(expr).value).NotAField? <==> PlainOperand(expr, w)
  {
    QualifiedIsJoined(expr);
    PlainPathResolves(w.message, Matcher.Segments(expr).value);
  }

  lemma SelectEvaluates(expr: Expr, w: World)
    requires w.Consistent() && expr.Select? && Checker.TypeOf(expr, w.declarations).Ok?
    requires Transpiler.Classify(expr, w.Transpiling()).Ok?
    ensures if PlainOperand(expr, w) then
              Matcher.Classify(expr, w.Matching()).Ok? && Matcher.Classify(expr, w.Matching()).value.FieldSide?
            else Matcher.Classify(expr, w.Matching()) == Err(Matcher.UnknownIdentifier)
  {
    if QualifiedName(expr).Some? && QualifiedName(expr).value in w.schema.columns {
      MappedPathResolves(expr, w);
      MappedIsNoMember(expr, w);
    } else {
      MemberEvaluates(expr, w);
    }
  }

  /** A mapped path is no member of a map, so only its segments can resolve it. */
  lemma MappedIsNoMember(expr: Expr, w: World)
    requires w.Consistent() && QualifiedName(expr).Some? && QualifiedName(expr).value in w.schema.columns
    ensures expr.Select? && expr.operand.Ident? && w.message.Field(expr.operand.name).Some?
            ==> w.message.Field(expr.operand.name).value.SingularMessage()
  {
    if expr.Select? && expr.operand.Ident? && w.message.Field(expr.operand.name).Some?
       && !w.message.Field(expr.operand.name).value.SingularMessage() {
      TwoSegments(expr.operand.name, expr.field);
      MapMemberIsNoPath(w.message, expr.operand.name, expr.field);
      MappedIsPath(expr.operand.name + "." + expr.field, w);
    }
  }

  lemma MappedIsPath(path: string, w: World)
    requires w.Consistent() && path in w.schema.columns
    ensures !Matcher.ResolvePath(w.message, Split(path, '.')).NotAField?
  {}

  lemma MemberEvaluates(expr: Expr, w: World)
    requires w.Consistent() && expr.Select? && Checker.TypeOf(expr, w.declarations).Ok?
    requires Transpiler.Classify(expr, w.Transpiling()).Ok?
    requires QualifiedName(expr).None? || QualifiedName(expr).value !in w.schema.columns
    ensures if PlainOperand(expr, w) then
              Matcher.Classify(expr, w.Matching()).Ok? && Matcher.Classify(expr, w.Matching()).value.FieldSide?
            else Matcher.Classify(expr, w.Matching()) == Err(Matcher.UnknownIdentifier)
  {
    CheckedSelect(expr, w);
    var base := expr.operand.name;
    assert expr == Select(Ident(base), expr.field);
    if '.' in base {
      DottedBaseIsRefused(w, base, expr.field);
    } else {
      PlainBaseReads(w, base, expr.field);
    }
  }

  lemma DottedBaseIsRefused(w: World, base: string, key: string)
    requires Conforms(w.message) && '.' in base
    ensures Matcher.Classify(Select(Ident(base), key), w.Matching()) == Err(Matcher.UnknownIdentifier)
  {
    TwoSegments(base, key);
    ResolveCons(w.message, base, [key]);
    assert [base] + [key] == [base, key];
    assert w.message.Field(base).None?;
  }

  lemma {:induction false} PlainBaseReads(w: World, base: string, key: string)
    requires w.Consistent() && base in w.schema.columns && '.' !in base
    requires base in w.declarations.idents && w.declarations.idents[base].Map?
    ensures Matcher.Classify(Select(Ident(base), key), w.Matching()).Ok?
    ensures Matcher.Classify(Select(Ident(base), key), w.Matching()).value.FieldSide?
  {
    TwoSegments(base, key);
    ResolveCons(w.message, base, [key]);
    assert [base] + [key] == [base, key];
    SplitSingle(base, '.');
    assert !Matcher.ResolvePath(w.message, [base]).NotAField?;
    if w.message.Field(base).value.SingularMessage() {
      assert Matcher.ResolvePath(w.message, [base]).Unset?;
    } else {
      StoredMember(w, base, key);
    }
  }

  /** What an operand that transpiles is in memory. */
  lemma {:induction false} OperandEvaluates(expr: Expr, w: World)
    requires w.Consistent() && Checker.TypeOf(expr, w.declarations).Ok?
    requires Transpiler.Classify(expr, w.Transpiling()).Ok?
    ensures FieldOperand(expr, w)
            <==> Matcher.Classify(expr, w.Matching()).Ok? && Matcher.Classify(expr, w.Matching()).value.FieldSide?
    ensures LiteralOperand(expr, w) <==> Matcher.Classify(expr, w.Matching()) == Ok(Matcher.Literal)
    ensures LiteralOperand(expr, w) && ShapeOf(Checker.TypeOf(expr, w.declarations).value) != Other
            ==> Matcher.LowerLiteral(expr, w.Matching()).Ok?
  {
    if expr.Select? {
      SelectEvaluates(expr, w);
    } else if expr.Ident? {
      assert Matcher.ResolvePath(w.message, [expr.name]).NotAField? <==> expr.name !in w.message.descriptor.fields;
    }
  }

  /** A comparison that transpiles evaluates exactly when one operand is a field and the
      other a literal, and a field of an enum type reads text. */
  lemma {:induction false} CompareEvaluates(op: Matcher.CmpOp, left: Expr, right: Expr, w: World)
    requires w.Consistent()
    requires Checker.TypeOf(left, w.declarations).Ok? && Checker.TypeOf(right, w.declarations).Ok?
    requires SameShape([Checker.TypeOf(left, w.declarations).value, Checker.TypeOf(right, w.declarations).value])
    requires Transpiler.TranspileCompare(SqlOp(op), left, right, w.Transpiling()).Ok?
    ensures Matcher.Compare(op, left, right, w.Matching()).Ok? <==> FieldAndLiteral(left, right, w)
  {
    OperandEvaluates(left, w);
    OperandEvaluates(right, w);
    if FieldOperand(left, w) && LiteralOperand(right, w) {
      FieldCompareEvaluates(op, left, right, w);
    } else if LiteralOperand(left, w) && FieldOperand(right, w) {
      FieldCompareEvaluates(op.Mirror(), right, left, w);
    }
  }

  lemma {:induction false} FieldCompareEvaluates(op: Matcher.CmpOp, field: Expr, literal: Expr, w: World)
    requires w.Consistent() && ReadsField(field, literal, w)
    requires Checker.TypeOf(field, w.declarations).Ok? && Checker.TypeOf(literal, w.declarations).Ok?
    requires ShapeOf(Checker.TypeOf(field, w.declarations).value) == ShapeOf(Checker.TypeOf(literal, w.declarations).value) != Other
    requires Matcher.LowerLiteral(literal, w.Matching()).Ok?
    ensures Matcher.EvalCompare(op, Matcher.Classify(field, w.Matching()).value.fieldValue, literal, w.Matching()).Ok?
            <==> EnumReadsText(field, w)
  {
    var read := Matcher.Classify(field, w.Matching()).value.fieldValue;
    if EnumReadsText(field, w) {
      FieldIsTyped(field, w);
      LoweredLiteralShape(literal, w);
      EvalCompareEvaluates(op, read, literal, w);
    } else {
      EnumReadsPath(field, w);
      EnumNamedIsEnum(field, w);
      TextualLiteral(literal, w);
      TextFieldLowers(read.field, read.value);
      TextMismatches(op, read, literal, w);
    }
  }

  /** A literal of a type compared as text is text. */
  lemma TextualLiteral(literal: Expr, w: World)
    requires Standard(w.declarations) && Checker.TypeOf(literal, w.declarations).Ok?
    requires ShapeOf(Checker.TypeOf(literal, w.declarations).value) == Textual
    requires Matcher.Classify(literal, w.Matching()) == Ok(Matcher.Literal) && Matcher.LowerLiteral(literal, w.Matching()).Ok?
    ensures Matcher.LowerLiteral(literal, w.Matching()).value.Text?
  {
    LoweredLiteralShape(literal, w);
  }

  /** A field that is no text does not compare with text. */
  lemma TextMismatches(op: Matcher.CmpOp, read: Matcher.FieldValue, literal: Expr, w: World)
    requires Matcher.LowerLiteral(literal, w.Matching()).Ok? && Matcher.LowerLiteral(literal, w.Matching()).value.Text?
    requires read.Present?
    requires match Matcher.LowerField(read.field, read.value)
             case Ok(operand) => !operand.Text?
             case Err(error) => TypeErrorOf(error)
    ensures var result := Matcher.EvalCompare(op, read, literal, w.Matching()); result.Err? && TypeErrorOf(result.error)
  {}

  /** A field operand of an enum type reads the path it is declared for. */
  lemma EnumReadsPath(expr: Expr, w: World)
    requires w.Consistent() && EnumNamed(expr, w)
    requires Matcher.Classify(expr, w.Matching()).Ok? && Matcher.Classify(expr, w.Matching()).value.FieldSide?
    requires Matcher.ResolvePath(w.message, Split(QualifiedName(expr).value, '.')).Found?
    ensures var read := Matcher.Classify(expr, w.Matching()).value.fieldValue;
            read == Matcher.ResolvePath(w.message, Split(QualifiedName(expr).value, '.')).IntoField()
            && read.Present? && ValueConforms(read.field, read.value)
  {
    EnumSegmentsResolve(expr, w);
    PathClassifies(expr, w);
    FoundConforms(w.message, Matcher.Segments(expr).value);
  }

  lemma EnumSegmentsResolve(expr: Expr, w: World)
    requires w.Consistent() && EnumNamed(expr, w)
    requires Matcher.Classify(expr, w.Matching()).Ok? && Matcher.Classify(expr, w.Matching()).value.FieldSide?
    requires Matcher.ResolvePath(w.message, Split(QualifiedName(expr).value, '.')).Found?
    ensures Matcher.Segments(expr).Some?
    ensures Matcher.ResolvePath(w.message, Matcher.Segments(expr).value)
         == Matcher.ResolvePath(w.message, Split(QualifiedName(expr).value, '.'))
  {
    QualifiedIsJoined(expr);
    var segments := Matcher.Segments(expr).value;
    if Matcher.ResolvePath(w.message, segments).NotAField? {
      ReadsAMember(expr, w);
      TwoSegments(expr.operand.name, expr.field);
      MapMemberIsNoPath(w.message, expr.operand.name, expr.field);
    } else {
      ResolvedPathRejoins(w.message, segments);
    }
  }

  /** A field operand that is no path is a member of a map. */
  lemma ReadsAMember(expr: Expr, w: World)
    requires Matcher.Segments(expr).Some? && Matcher.ResolvePath(w.message, Matcher.Segments(expr).value).NotAField?
    requires Matcher.Classify(expr, w.Matching()).Ok? && Matcher.Classify(expr, w.Matching()).value.FieldSide?
    ensures expr.Select? && expr.operand.Ident? && w.message.Field(expr.operand.name).Some?
    ensures w.message.Field(expr.operand.name).value.cardinality.MapField?
  {}

  lemma EvalCompareEvaluates(op: Matcher.CmpOp, value: Matcher.FieldValue, literal: Expr, w: World)
    requires Matcher.LowerLiteral(literal, w.Matching()).Ok?
    requires value.Present? ==>
               Matcher.LowerField(value.field, value.value).Ok?
               && OperandShape(Matcher.LowerField(value.field, value.value).value)
                  == OperandShape(Matcher.LowerLiteral(literal, w.Matching()).value)
    ensures Matcher.EvalCompare(op, value, literal, w.Matching()).Ok?
  {}

  lemma {:induction false} HasEvaluates(left: Expr, arg: string, w: World, ty: Type)
    requires w.Consistent() && QualifiedName(left).Some? && QualifiedName(left).value in w.schema.columns
    requires w.declarations.IdentType(QualifiedName(left).value) == Some(ty) && HasType(ty)
    ensures Matcher.Has(left, Const(Constant.Str(arg)), w.Matching()).Ok? <==> PlainOperand(left, w)
  {
    MappedPathResolves(left, w);
    if PlainOperand(left, w) {
      PlainHasEvaluates(left, arg, w, ty);
    } else if left.Select? {
      MappedIsNoMember(left, w);
      assert Matcher.Classify(left, w.Matching()) == Err(Matcher.UnknownIdentifier);
    }
  }

  lemma {:induction false} PlainHasEvaluates(left: Expr, arg: string, w: World, ty: Type)
    requires w.Consistent() && QualifiedName(left).Some? && QualifiedName(left).value in w.schema.columns
    requires w.declarations.IdentType(QualifiedName(left).value) == Some(ty) && HasType(ty)
    requires Matcher.Segments(left).Some? && !Matcher.ResolvePath(w.message, Matcher.Segments(left).value).NotAField?
    ensures Matcher.Has(left, Const(Constant.Str(arg)), w.Matching()).Ok?
  {
    ColumnHoldsPath(w, left);
    PathClassifies(left, w);
    var resolved := Matcher.ResolvePath(w.message, Matcher.Segments(left).value);
    if resolved.Found? {
      FoundConforms(w.message, Matcher.Segments(left).value);
      MatchedHas(left, arg, w, resolved.field, resolved.value, ty);
    }
  }

  /** A path that resolves is a field operand. */
  lemma PathClassifies(left: Expr, w: World)
    requires Matcher.Segments(left).Some?
    requires !Matcher.ResolvePath(w.message, Matcher.Segments(left).value).NotAField?
    ensures Matcher.Classify(left, w.Matching())
         == Ok(Matcher.FieldSide(Matcher.ResolvePath(w.message, Matcher.Segments(left).value).IntoField()))
  {}

  /** A checked filter that transpiles evaluates in memory exactly when every comparison has
      one field and one literal there, a field of an enum type reading text, and every `:`
      test a plain operand: the matcher finds no field of a dotted name, and takes an enum
      value named like a field for the field. */
  lemma {:induction false} TranspiledEvaluatesExactly(expr: Expr, w: World)
    requires w.Consistent() && Checker.TypeOf(expr, w.declarations).Ok?
    requires Transpiler.Transpile(expr, w.Transpiling()).Ok?
    ensures Matcher.Eval(expr, w.Matching()).Ok? <==> Evaluable(expr, w)
  {
    var name, args := expr.name, expr.args;
    ComparisonsAgree(name);
    if |args| == 1 {
      OneArgument(args, w.declarations);
      TranspiledEvaluatesExactly(args[0], w);
    } else {
      Checker.CheckedPair(args, w.declarations);
      if name == AND || name == OR {
        TranspiledEvaluatesExactly(args[0], w);
        TranspiledEvaluatesExactly(args[1], w);
      } else if name == HAS {
        HasTypes(args, w.declarations);
        assert args[1] == Const(Constant.Str(args[1].constant.text));
        HasEvaluates(args[0], args[1].constant.text, w, w.declarations.idents[QualifiedName(args[0]).value]);
      } else {
        Checker.CheckedCall(name, args, w.declarations);
        OverloadShapes(name, Overload(Checker.TypeOf(expr, w.declarations).value,
                                      Checker.TypesOf(args, w.declarations).value));
        CompareEvaluates(Matcher.Comparison(name).value, args[0], args[1], w);
      }
    }
  }

  // ----- end to end -----

  lemma {:induction false} TranspiledIsWellFormed(expr: Expr, ctx: Transpiler.Context)
    requires Transpiler.Transpile(expr, ctx).Ok?
    ensures Rendering.WellFormed(Transpiler.Transpile(expr, ctx).value)
  {
    var args := expr.args;
    if |args| > 0 && Transpiler.Transpile(args[0], ctx).Ok? {
      TranspiledIsWellFormed(args[0], ctx);
    }
    if |args| > 1 && Transpiler.Transpile(args[1], ctx).Ok? {
      TranspiledIsWellFormed(args[1], ctx);
      var l, r := Transpiler.Transpile(args[0], ctx), Transpiler.Transpile(args[1], ctx);
      if l.Ok? {
        assert [l.value, r.value][1..] == [r.value];
        assert Rendering.AllWellFormed([r.value]);
      }
    }
  }

  /** The truth the database reaches: the rendered text read back and run on the row under
      the rendered binds. */
  ghost function Queried(p: Predicates.Predicate, row: Sql.Row): Option<Sql.Truth> {
    match Reading.Parse(Dialect.Tokens(p, 0))
    case Some(clause) => Some(Reading.Run(clause, Dialect.Binds(p), row))
    case None => None
  }

  /** Check, transpile, render, read back, run: the matcher evaluates the filter exactly
      when it is evaluable, and then the result is the matcher's truth unless a leaf
      reads a place where the two sides part. */
  lemma {:induction false} CheckedFilterRunsAsMatched(expr: Expr, w: World)
    requires w.Consistent() && Checker.Check(expr, w.declarations)
    requires Transpiler.Transpile(expr, w.Transpiling()).Ok?
    ensures Matcher.Eval(expr, w.Matching()).Ok? <==> Evaluable(expr, w)
    ensures Evaluable(expr, w) && InStep(expr, w) ==>
              Queried(Transpiler.Transpile(expr, w.Transpiling()).value, w.row)
              == Some(SqlTruth(Matcher.Eval(expr, w.Matching()).value))
  {
    TranspiledEvaluatesExactly(expr, w);
    if Evaluable(expr, w) && InStep(expr, w) {
      FilterAgrees(expr, w);
      TranspiledIsWellFormed(expr, w.Transpiling());
      Rendering.RenderedMeansThePredicate(Transpiler.Transpile(expr, w.Transpiling()).value, w.row);
    }
  }

  /** Composed with any server predicate, the user's filter keeps its own meaning: the row
      is selected when the scope holds and the message matches. */
  lemma {:induction false} ScopedFilterSelects(scope: Predicates.Predicate, expr: Expr, w: World)
    requires w.Consistent() && Checker.Check(expr, w.declarations) && Evaluable(expr, w) && InStep(expr, w)
    requires Transpiler.Transpile(expr, w.Transpiling()).Ok? && Rendering.WellFormed(scope)
    ensures var filter := Transpiler.Transpile(expr, w.Transpiling()).value;
            Queried(Predicates.All([scope, filter]), w.row) == Some(Sql.True)
            <==> Predicates.Eval(scope, w.row) == Sql.True && Matcher.Matches(expr, w.Matching()) == Ok(true)
  {
    var filter := Transpiler.Transpile(expr, w.Transpiling()).value;
    CheckedFilterRunsAsMatched(expr, w);
    FilterAgrees(expr, w);
    TranspiledIsWellFormed(expr, w.Transpiling());
    assert [scope, filter][1..] == [filter];
    assert Rendering.AllWellFormed([filter]);
    Rendering.RenderedMeansThePredicate(Predicates.All([scope, filter]), w.row);
    PairMeans(scope, filter, w.row);
  }
}

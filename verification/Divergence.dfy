/** Where memory and database part, stated exactly: a string tested under an unset
    submessage, a map whose keys are not strings, a quoted segment that holds a dot, and an
    enum value named like a field. */
module Divergence {
  import opened Wrappers
  import opened Text
  import opened Filters
  import opened Messages
  import opened Schemas
  import opened Storage
  import opened Agreement
  import Checker
  import Matcher
  import Predicates
  import Soundness
  import Sql
  import Transpiler

  // ----- strings under unset submessages -----

  /** No mapped string path lies under an unset submessage. */
  ghost predicate StringsSet(w: World) {
    forall path :: path in w.schema.columns && w.declarations.IdentType(path) == Some(Type.String) ==>
      !Matcher.ResolvePath(w.message, Split(path, '.')).Unset?
  }

  /** A filter that passes the checker and that both sides accept. */
  ghost predicate Admitted(expr: Expr, w: World) {
    Checker.Check(expr, w.declarations)
    && Transpiler.Transpile(expr, w.Transpiling()).Ok? && Matcher.Eval(expr, w.Matching()).Ok?
  }

  /** The message is selected in memory exactly when its row is selected. */
  ghost predicate SameSelection(expr: Expr, w: World)
    requires Admitted(expr, w)
  {
    Matcher.Matches(expr, w.Matching()) == Ok(true)
    <==> Predicates.Eval(Transpiler.Transpile(expr, w.Transpiling()).value, w.row) == Sql.True
  }

  /** The identifier chain of a path. */
  function Chain(parts: seq<string>): Expr
    requires parts != []
  {
    if |parts| == 1 then Ident(parts[0]) else Select(Chain(parts[..|parts| - 1]), parts[|parts| - 1])
  }

  lemma {:induction false} ChainNames(parts: seq<string>)
    requires parts != []
    ensures Matcher.Segments(Chain(parts)) == Some(parts)
    ensures QualifiedName(Chain(parts)) == Some(Join(parts, '.'))
  {
    if |parts| > 1 {
      var front := parts[..|parts| - 1];
      ChainNames(front);
      assert parts == front + [parts[|parts| - 1]];
      JoinSnoc(front, '.', parts[|parts| - 1]);
    } else {
      assert parts == [parts[0]];
    }
  }

  lemma {:induction false} ResolveFinds(name: string, args: seq<Expr>, types: seq<Type>, overloads: seq<Overload>)
    requires |args| == |types| && types != [Type.Timestamp, Type.String]
    requires exists overload :: overload in overloads && overload.params == types
    ensures Checker.Resolve(name, args, types, overloads).Ok?
  {
    if overloads[0].params != types {
      assert forall overload :: overload in overloads ==> overload == overloads[0] || overload in overloads[1..];
      ResolveFinds(name, args, types, overloads[1..]);
    }
  }

  lemma BooleanResults(name: string, overload: Overload)
    requires (name == HAS || name == NOT) && Allowed(name, overload)
    ensures overload.result.Bool?
  {}

  lemma {:induction false} CallIsBoolean(name: string, args: seq<Expr>, types: seq<Type>, declarations: Declarations)
    requires Standard(declarations) && (name == HAS || name == NOT) && Declares(declarations, name, types)
    requires Checker.TypesOf(args, declarations) == Ok(types) && types != [Type.Timestamp, Type.String]
    ensures Checker.TypeOf(Call(name, args), declarations) == Ok(Type.Bool)
  {
    CallResolves(name, args, types, declarations);
    ResolveFinds(name, args, types, declarations.functions[name]);
    Checker.CheckedCall(name, args, declarations);
    BooleanResults(name, Overload(Checker.TypeOf(Call(name, args), declarations).value, types));
  }

  lemma CallResolves(name: string, args: seq<Expr>, types: seq<Type>, declarations: Declarations)
    requires name in declarations.functions && Checker.TypesOf(args, declarations) == Ok(types)
    ensures Checker.TypeOf(Call(name, args), declarations) == Checker.Resolve(name, args, types, declarations.functions[name])
  {}

  lemma OneType(a: Expr, ty: Type, declarations: Declarations)
    requires Checker.TypeOf(a, declarations) == Ok(ty)
    ensures Checker.TypesOf([a], declarations) == Ok([ty])
  {
    assert [a][1..] == [];
    assert Checker.TypesOf([a][1..], declarations) == Ok([]);
    assert [ty] + [] == [ty];
  }

  lemma TwoTypes(a: Expr, b: Expr, s: Type, t: Type, declarations: Declarations)
    requires Checker.TypeOf(a, declarations) == Ok(s) && Checker.TypeOf(b, declarations) == Ok(t)
    ensures Checker.TypesOf([a, b], declarations) == Ok([s, t])
  {
    OneType(b, t, declarations);
    assert [a, b][1..] == [b];
    assert [s] + [t] == [s, t];
  }

  lemma ChainHasType(path: string, ty: Type, declarations: Declarations)
    requires declarations.IdentType(path) == Some(ty)
    ensures Checker.TypeOf(Chain(Split(path, '.')), declarations) == Ok(ty)
    ensures QualifiedName(Chain(Split(path, '.'))) == Some(path)
    ensures Matcher.Segments(Chain(Split(path, '.'))) == Some(Split(path, '.'))
  {
    ChainNames(Split(path, '.'));
    JoinOfSplit(path, '.');
  }

  const PROBE := Const(Constant.Str("x"))

  /** The filter `path:"x"`. */
  function Test(path: string): Expr {
    Call(HAS, [Chain(Split(path, '.')), PROBE])
  }

  /** The filter `NOT path:"x"`. */
  function NegatedTest(path: string): Expr {
    Call(NOT, [Test(path)])
  }

  lemma TestChecks(path: string, declarations: Declarations)
    requires Standard(declarations) && declarations.IdentType(path) == Some(Type.String)
    requires Declares(declarations, HAS, [Type.String, Type.String])
    ensures Checker.TypeOf(Test(path), declarations) == Ok(Type.Bool)
  {
    ChainHasType(path, Type.String, declarations);
    TwoTypes(Chain(Split(path, '.')), PROBE, Type.String, Type.String, declarations);
    CallIsBoolean(HAS, [Chain(Split(path, '.')), PROBE], [Type.String, Type.String], declarations);
  }

  lemma NegatedTestChecks(path: string, declarations: Declarations)
    requires Standard(declarations) && declarations.IdentType(path) == Some(Type.String)
    requires Declares(declarations, HAS, [Type.String, Type.String]) && Declares(declarations, NOT, [Type.Bool])
    ensures Checker.Check(NegatedTest(path), declarations)
  {
    TestChecks(path, declarations);
    OneType(Test(path), Type.Bool, declarations);
    CallIsBoolean(NOT, [Test(path)], [Type.Bool], declarations);
  }

  lemma {:induction false} TestDiverges(path: string, w: World)
    requires w.Consistent() && path in w.schema.columns && w.declarations.IdentType(path) == Some(Type.String)
    requires Matcher.ResolvePath(w.message, Split(path, '.')).Unset?
    ensures Matcher.Eval(Test(path), w.Matching()) == Ok(Matcher.False)
    ensures Transpiler.Transpile(Test(path), w.Transpiling())
         == Ok(Predicates.Has(w.schema.columns[path], Predicates.Substring("x")))
    ensures Predicates.Eval(Predicates.Has(w.schema.columns[path], Predicates.Substring("x")), w.row) == Sql.Unknown
  {
    ChainHasType(path, Type.String, w.declarations);
    var chain := Chain(Split(path, '.'));
    assert Matcher.Classify(chain, w.Matching()) == Ok(Matcher.FieldSide(Matcher.Absent));
    TranspiledHas(chain, "x", w, Type.String);
    HasCalls(chain, PROBE, w);
    EvalHas(w.schema.columns[path], Predicates.Substring("x"), w.row);
  }

  /** A `:` call is evaluated and transpiled as its test. */
  lemma HasCalls(left: Expr, right: Expr, w: World)
    ensures Matcher.Eval(Call(HAS, [left, right]), w.Matching()) == Matcher.Has(left, right, w.Matching())
    ensures Transpiler.Transpile(Call(HAS, [left, right]), w.Transpiling())
         == Transpiler.TranspileHas(left, right, w.Transpiling())
  {
    ComparisonsAgree(HAS);
  }

  /** NOT is evaluated and transpiled as the negation of its operand. */
  lemma NotCalls(test: Expr, w: World)
    requires Matcher.Eval(test, w.Matching()).Ok? && Transpiler.Transpile(test, w.Transpiling()).Ok?
    ensures Matcher.Eval(Call(NOT, [test]), w.Matching()) == Ok(Matcher.Not(Matcher.Eval(test, w.Matching()).value))
    ensures Transpiler.Transpile(Call(NOT, [test]), w.Transpiling())
         == Ok(Predicates.Not(Transpiler.Transpile(test, w.Transpiling()).value))
  {}

  lemma {:induction false} NegatedTestEvaluates(path: string, w: World)
    requires w.Consistent() && path in w.schema.columns && w.declarations.IdentType(path) == Some(Type.String)
    requires Matcher.ResolvePath(w.message, Split(path, '.')).Unset?
    ensures Matcher.Eval(NegatedTest(path), w.Matching()) == Ok(Matcher.True)
    ensures Transpiler.Transpile(NegatedTest(path), w.Transpiling()).Ok?
    ensures Predicates.Eval(Transpiler.Transpile(NegatedTest(path), w.Transpiling()).value, w.row) == Sql.Unknown
  {
    TestDiverges(path, w);
    NotCalls(Test(path), w);
    NegatedUnknown(Predicates.Has(w.schema.columns[path], Predicates.Substring("x")), w.row);
  }

  lemma NegatedUnknown(p: Predicates.Predicate, row: Sql.Row)
    requires Predicates.Eval(p, row) == Sql.Unknown
    ensures Predicates.Eval(Predicates.Not(p), row) == Sql.Unknown
  {}

  /** Under an unset submessage the negated test selects the message in memory but not the
      row in the database. */
  lemma NegatedTestDiverges(path: string, w: World)
    requires w.Consistent() && path in w.schema.columns && w.declarations.IdentType(path) == Some(Type.String)
    requires Declares(w.declarations, HAS, [Type.String, Type.String]) && Declares(w.declarations, NOT, [Type.Bool])
    requires Matcher.ResolvePath(w.message, Split(path, '.')).Unset?
    ensures Admitted(NegatedTest(path), w) && !SameSelection(NegatedTest(path), w)
  {
    NegatedTestChecks(path, w.declarations);
    NegatedTestEvaluates(path, w);
  }

  // ----- maps whose keys are not strings -----

  lemma MapFieldHoldsMap(message: Message, base: string)
    requires Conforms(message) && message.Field(base).Some? && message.Field(base).value.cardinality.MapField?
    ensures '.' !in base && message.Get(base).Map?
    ensures forall k :: k in message.Get(base).entries ==>
              KeyConforms(message.Field(base).value.cardinality.key, k)
  {
    if message.Has(base) {
      assert ValueConforms(message.descriptor.fields[base], message.values[base]);
    }
  }

  /** The matcher finds no member of a map with non-string keys. */
  lemma MemberIsAbsent(w: World, base: string, key: string)
    requires Conforms(w.message) && NonStringKeyed(w.message, base)
    ensures Matcher.Classify(Select(Ident(base), key), w.Matching()) == Ok(Matcher.FieldSide(Matcher.Absent))
  {
    MapFieldHoldsMap(w.message, base);
    assert StrKey(key) !in w.message.Get(base).entries;
    assert [base] + [key] == [base, key];
    ResolveCons(w.message, base, [key]);
    assert Matcher.Segments(Ident(base)) == Some([base]);
  }

  /** The transpiler reads the member under its JSON key. */
  lemma TranspiledMember(w: World, base: string, key: string)
    requires w.Consistent() && base in w.schema.columns && NonStringKeyed(w.message, base)
    ensures QualifiedName(Select(Ident(base), key)) == Some(base + "." + key) && base + "." + key !in w.schema.columns
    ensures Transpiler.Classify(Select(Ident(base), key), w.Transpiling())
         == Ok(Transpiler.ColumnOperand(Predicates.MapMember(w.schema.columns[base], key)))
  {
    MapMemberIsNoPath(w.message, base, key);
    MemberColumn(base, key, w.Transpiling());
  }

  lemma MemberColumn(base: string, key: string, ctx: Transpiler.Context)
    requires base in ctx.schema.columns && base + "." + key !in ctx.schema.columns
    ensures QualifiedName(Select(Ident(base), key)) == Some(base + "." + key)
    ensures Transpiler.Classify(Select(Ident(base), key), ctx)
         == Ok(Transpiler.ColumnOperand(Predicates.MapMember(ctx.schema.columns[base], key)))
  {
    assert QualifiedName(Ident(base)) == Some(base);
  }

  lemma MemberCell(w: World, base: string, key: string)
    requires w.Consistent() && base in w.schema.columns && NonStringKeyed(w.message, base)
    ensures Sql.Member(w.row.Get(w.schema.columns[base]), key).Null? <==> !SpelledKey(w.message.Get(base), key)
  {
    var field, stored := w.message.Field(base).value, w.message.Get(base);
    MapFieldHoldsMap(w.message, base);
    SplitSingle(base, '.');
    assert Matcher.ResolvePath(w.message, [base]) == Matcher.Found(field, stored);
    assert w.row.Get(w.schema.columns[base]) == FieldCell(field, stored);
    MemberIsSpelled(field, stored, key);
  }

  /** Comparing a member of a map whose keys are not strings: the matcher, which looks for
      a string key, always answers unknown; the transpiled comparison reads the JSON key.
      They agree exactly when no stored key is spelled that way. */
  lemma NonStringKeyAgreesExactly(w: World, base: string, key: string, op: Matcher.CmpOp, literal: Constant)
    requires w.Consistent() && base in w.schema.columns && NonStringKeyed(w.message, base)
    ensures Matcher.Compare(op, Select(Ident(base), key), Const(literal), w.Matching()) == Ok(Matcher.Unknown)
    ensures var transpiled := Transpiler.TranspileCompare(SqlOp(op), Select(Ident(base), key), Const(literal), w.Transpiling());
            transpiled.Ok?
            && (Predicates.Eval(transpiled.value, w.row) == Sql.Unknown <==> !SpelledKey(w.message.Get(base), key))
  {
    MemberIsAbsent(w, base, key);
    TranspiledMember(w, base, key);
    MemberCell(w, base, key);
    MemberCompared(op, Select(Ident(base), key), Const(literal), w);
  }

  /** An operand absent in memory and a map member in the database, against a literal. */
  lemma {:induction false} MemberCompared(op: Matcher.CmpOp, member: Expr, literal: Expr, w: World)
    requires Matcher.Classify(member, w.Matching()) == Ok(Matcher.FieldSide(Matcher.Absent))
    requires Matcher.Classify(literal, w.Matching()) == Ok(Matcher.Literal)
    requires Transpiler.Classify(member, w.Transpiling()).Ok? && Transpiler.Classify(literal, w.Transpiling()).Ok?
    requires Transpiler.Classify(member, w.Transpiling()).value.ColumnOperand?
    requires Transpiler.Classify(literal, w.Transpiling()).value.ValueOperand?
    ensures Matcher.Compare(op, member, literal, w.Matching()) == Ok(Matcher.Unknown)
    ensures var transpiled := Transpiler.TranspileCompare(SqlOp(op), member, literal, w.Transpiling());
            transpiled.Ok?
            && (Predicates.Eval(transpiled.value, w.row) == Sql.Unknown
                <==> Predicates.Read(Transpiler.Classify(member, w.Transpiling()).value.column, w.row).Null?)
  {
    ValueIsApart(literal, w);
  }

  // ----- all filters -----

  /** The name is a value of the enum type to both sides. */
  predicate PlainValue(name: string, ty: Type, w: World) {
    name in w.declarations.idents && w.declarations.idents[name] == ty
    && name !in w.schema.columns && name !in w.message.descriptor.fields
  }

  /** A filter can spell a literal to compare with a value of this type, and the comparison
      is declared. */
  ghost predicate Spellable(ty: Type, w: World) {
    match ty
    case Int => true
    case Double => true
    case Bool => true
    case String => true
    case Timestamp => true
    case Duration => exists text :: w.parse(text).Some?
    case Enum(_) =>
      Soundness.EqualityDeclared(ty, w.declarations) && exists name :: PlainValue(name, ty, w)
    case _ => false
  }

  /** The map under `base` is mapped, declared with values a filter can compare, and stored
      under keys that are not strings. */
  ghost predicate ComparableMap(w: World, base: string) {
    base in w.schema.columns && NonStringKeyed(w.message, base)
    && base in w.declarations.idents && w.declarations.idents[base].Map?
    && Spellable(w.declarations.idents[base].value, w)
  }

  /** Every map with non-string keys that a filter can compare is empty. */
  ghost predicate KeysReadable(w: World) {
    forall base :: ComparableMap(w, base) ==> w.message.Get(base) == Value.Map(map[])
  }

  /** The standard functions are declared with all their overloads. */
  ghost predicate StandardDeclared(declarations: Declarations) {
    forall name, overload :: overload in StandardOverloads(name) ==>
      name in declarations.functions && overload in declarations.functions[name]
  }

  /** The types a comparison overload can take. */
  predicate Comparable(ty: Type) {
    ty.Int? || ty.Double? || ty.Bool? || ty.String? || ty.Timestamp? || ty.Duration? || ty.Enum?
  }

  lemma ComparedTypes(name: string, overload: Overload)
    requires Matcher.Comparison(name).Some? && Allowed(name, overload)
    ensures |overload.params| == 2 && Comparable(overload.params[0]) && Comparable(overload.params[1])
    ensures forall i :: 0 <= i < 2 && (overload.params[i].Duration? || overload.params[i].Enum?) ==>
              overload.params == [overload.params[i], overload.params[i]]
    ensures overload.params[0].Enum? ==> name == EQUALS || name == NOT_EQUALS
  {
    if overload in StandardOverloads(name) {
      var params := if name == EQUALS || name == NOT_EQUALS then [[Type.Bool, Type.Bool]] + ORDERED else ORDERED;
      InOverBool(params, overload);
      OrderedTypes(overload.params);
    }
  }

  lemma OrderedTypes(params: seq<Type>)
    requires params in [[Type.Bool, Type.Bool]] + ORDERED || params in ORDERED
    ensures |params| == 2 && Comparable(params[0]) && Comparable(params[1])
    ensures forall i :: 0 <= i < 2 ==> !params[i].Enum? && (params[i].Duration? ==> params == [params[i], params[i]])
  {}

  /** What a literal of the other operand's type shows of that type. */
  lemma LiteralSpells(literal: Expr, w: World, ty: Type)
    requires Standard(w.declarations) && Checker.TypeOf(literal, w.declarations) == Ok(ty)
    requires Transpiler.Classify(literal, w.Transpiling()).Ok?
    requires Transpiler.Classify(literal, w.Transpiling()).value.ValueOperand?
    ensures ty.Duration? ==> exists text :: w.parse(text).Some?
    ensures ty.Enum? && Matcher.Classify(literal, w.Matching()) == Ok(Matcher.Literal) ==> exists name :: PlainValue(name, ty, w)
  {
    if literal.Ident? && ty.Enum? && Matcher.Classify(literal, w.Matching()) == Ok(Matcher.Literal) {
      assert PlainValue(literal.name, ty, w);
    } else if literal.Call? {
      Checker.CheckedCall(literal.name, literal.args, w.declarations);
      if literal.name == DURATION {
        var text := literal.args[0].constant.text;
        assert w.parse(text[..|text| - 1]).Some?;
      }
    }
  }

  /** The place a comparison reads has a type some literal spells. */
  lemma PlaceIsSpellable(name: string, place: Expr, literal: Expr, types: seq<Type>, w: World)
    requires Standard(w.declarations) && Matcher.Comparison(name).Some? && Declares(w.declarations, name, types)
    requires Checker.TypeOf(place, w.declarations).Ok? && Checker.TypeOf(literal, w.declarations).Ok?
    requires var p, l := Checker.TypeOf(place, w.declarations).value, Checker.TypeOf(literal, w.declarations).value;
             types == [p, l] || types == [l, p]
    requires Transpiler.Classify(literal, w.Transpiling()).Ok?
    requires Transpiler.Classify(literal, w.Transpiling()).value.ValueOperand?
    requires Matcher.Classify(literal, w.Matching()) == Ok(Matcher.Literal)
    ensures Spellable(Checker.TypeOf(place, w.declarations).value, w)
  {
    var overload :| overload in w.declarations.functions[name] && overload.params == types;
    ComparedTypes(name, overload);
    LiteralSpells(literal, w, Checker.TypeOf(literal, w.declarations).value);
  }

  /** If nothing stored can divide the two sides, no checked filter does. */
  lemma {:induction false} PlaceIsApart(place: Expr, w: World)
    requires w.Consistent() && KeysReadable(w) && Checker.TypeOf(place, w.declarations).Ok?
    requires Transpiler.Classify(place, w.Transpiling()).Ok?
    requires Spellable(Checker.TypeOf(place, w.declarations).value, w)
    ensures KeyApart(place, w)
  {
    if place.Select? && place.operand.Ident? && NonStringKeyed(w.message, place.operand.name) {
      var base := place.operand.name;
      if QualifiedName(place).Some? && QualifiedName(place).value in w.schema.columns {
        MappedIsApart(place, w);
      } else {
        CheckedSelect(place, w);
        assert QualifiedName(place) == Some(base + "." + place.field) && '.' in base + "." + place.field;
        assert base + "." + place.field !in w.declarations.idents;
        assert ComparableMap(w, base);
      }
    }
  }

  /** A path and an enum value that the two sides read crosswise and compare as text. */
  ghost predicate Crossable(place: string, value: string, w: World) {
    place in w.schema.columns && place !in w.message.descriptor.fields
    && value !in w.schema.columns && value in w.message.descriptor.fields
    && place in w.declarations.idents && w.declarations.idents[place].Enum?
    && value in w.declarations.idents && w.declarations.idents[value] == w.declarations.idents[place]
    && Soundness.EqualityDeclared(w.declarations.idents[place], w.declarations)
    && var read := Matcher.ResolvePath(w.message, [value]); read.Found? ==> Soundness.TextField(read.field)
  }

  /** Whatever two names cross reads the same both ways. */
  ghost predicate CrossingsAlike(w: World) {
    forall place, value :: Crossable(place, value, w) ==> CrossedAlike(place, value, w)
  }

  lemma MemberOrCrossed(name: string, place: Expr, literal: Expr, types: seq<Type>, w: World)
    requires w.Consistent() && KeysReadable(w) && CrossingsAlike(w)
    requires Matcher.Comparison(name).Some? && Declares(w.declarations, name, types)
    requires Checker.TypeOf(place, w.declarations).Ok? && Checker.TypeOf(literal, w.declarations).Ok?
    requires var p, l := Checker.TypeOf(place, w.declarations).value, Checker.TypeOf(literal, w.declarations).value;
             types == [p, l] || types == [l, p]
    requires Transpiler.Classify(place, w.Transpiling()).Ok? && Transpiler.Classify(place, w.Transpiling()).value.ColumnOperand?
    requires Transpiler.Classify(literal, w.Transpiling()).Ok? && Transpiler.Classify(literal, w.Transpiling()).value.ValueOperand?
    requires Matcher.Classify(place, w.Matching()).Ok? && Matcher.Classify(literal, w.Matching()).Ok?
    requires if Crossed(place, literal, w) then
               Matcher.Classify(literal, w.Matching()).value.FieldSide?
               && exists op :: Matcher.EvalCompare(op, Matcher.Classify(literal, w.Matching()).value.fieldValue, place, w.Matching()).Ok?
             else Matcher.Classify(literal, w.Matching()).value.Literal?
    ensures KeyApart(place, w) && KeyApart(literal, w)
    ensures Crossed(place, literal, w) ==> CrossedAlike(place.name, literal.name, w)
    ensures !Crossed(literal, place, w)
  {
    ValueIsApart(literal, w);
    if Crossed(place, literal, w) {
      CrossedIsCrossable(name, place.name, literal.name, types, w);
    } else {
      PlaceIsSpellable(name, place, literal, types, w);
      PlaceIsApart(place, w);
    }
  }

  lemma CrossedIsCrossable(name: string, place: string, value: string, types: seq<Type>, w: World)
    requires w.Consistent() && Matcher.Comparison(name).Some? && Declares(w.declarations, name, types)
    requires Crossed(Ident(place), Ident(value), w)
    requires Checker.TypeOf(Ident(place), w.declarations).Ok? && Checker.TypeOf(Ident(value), w.declarations).Ok?
    requires var p, l := w.declarations.idents[place], w.declarations.idents[value]; types == [p, l] || types == [l, p]
    requires Matcher.Classify(Ident(place), w.Matching()).Ok? && Matcher.Classify(Ident(value), w.Matching()).Ok?
    requires Matcher.Classify(Ident(value), w.Matching()).value.FieldSide?
    requires exists op :: Matcher.EvalCompare(op, Matcher.Classify(Ident(value), w.Matching()).value.fieldValue,
                                              Ident(place), w.Matching()).Ok?
    ensures Crossable(place, value, w)
  {
    var overload :| overload in w.declarations.functions[name] && overload.params == types;
    EnumsAreEquated(name, overload);
    assert Matcher.Classify(Ident(value), w.Matching()).value.fieldValue == Matcher.ResolvePath(w.message, [value]).IntoField();
    if Matcher.ResolvePath(w.message, [value]).Found? {
      FoundConforms(w.message, [value]);
      ComparesAsText(Matcher.Classify(Ident(value), w.Matching()).value.fieldValue, place, w);
    }
  }

  /** What compares with a name is text. */
  lemma ComparesAsText(read: Matcher.FieldValue, name: string, w: World)
    requires read.Present? && ValueConforms(read.field, read.value)
    requires exists op :: Matcher.EvalCompare(op, read, Ident(name), w.Matching()).Ok?
    ensures Soundness.TextField(read.field)
  {
    Soundness.TextFieldLowers(read.field, read.value);
  }

  lemma CheckedCompare(name: string, args: seq<Expr>, w: World)
    requires w.Consistent() && KeysReadable(w) && CrossingsAlike(w)
    requires |args| == 2 && Checker.TypeOf(Call(name, args), w.declarations).Ok?
    requires Matcher.Comparison(name).Some?
    requires Transpiler.TranspileCompare(SqlOp(Matcher.Comparison(name).value), args[0], args[1], w.Transpiling()).Ok?
    requires Matcher.Compare(Matcher.Comparison(name).value, args[0], args[1], w.Matching()).Ok?
    ensures CompareInStep(args[0], args[1], w)
  {
    Checker.CheckedPair(args, w.declarations);
    var op := Matcher.Comparison(name).value;
    var types := Checker.TypesOf(args, w.declarations).value;
    Checker.ResolvedOverload(name, args, types, w.declarations.functions[name]);
    assert Declares(w.declarations, name, types);
    CompareShape(op, args[0], args[1], w);
    if Transpiler.Classify(args[0], w.Transpiling()).value.ColumnOperand? {
      MemberOrCrossed(name, args[0], args[1], types, w);
    } else {
      MemberOrCrossed(name, args[1], args[0], types, w);
    }
  }

  lemma StringIsSet(left: Expr, w: World)
    requires w.Consistent() && StringsSet(w) && QualifiedName(left).Some? && QualifiedName(left).value in w.schema.columns
    ensures HasOperandSet(left, w)
  {
    QualifiedIsJoined(left);
    if !Matcher.ResolvePath(w.message, Matcher.Segments(left).value).NotAField? {
      ResolvedPathRejoins(w.message, Matcher.Segments(left).value);
    }
  }

  lemma {:induction false} NothingDivides(expr: Expr, w: World)
    requires w.Consistent() && StringsSet(w) && KeysReadable(w) && CrossingsAlike(w)
    requires Checker.TypeOf(expr, w.declarations).Ok?
    requires Transpiler.Transpile(expr, w.Transpiling()).Ok? && Matcher.Eval(expr, w.Matching()).Ok?
    ensures InStep(expr, w)
  {
    var name, args := expr.name, expr.args;
    ComparisonsAgree(name);
    if |args| == 1 {
      OneArgument(args, w.declarations);
      NothingDivides(args[0], w);
    } else {
      Checker.CheckedPair(args, w.declarations);
      if name == AND || name == OR {
        NothingDivides(args[0], w);
        NothingDivides(args[1], w);
      } else if name == HAS {
        StringIsSet(args[0], w);
      } else {
        CheckedCompare(name, args, w);
      }
    }
  }

  // ----- a filter that divides -----

  /** A literal that compares with values of the type, and the comparison's name. */
  ghost function Literal(ty: Type, w: World): (literal: Expr)
    requires Spellable(ty, w)
  {
    match ty
    case Int => Const(Constant.Int(0))
    case Double => Const(Constant.Double(0.0))
    case Bool => Const(Constant.Bool(false))
    case Duration =>
      var text :| w.parse(text).Some?;
      Call(DURATION, [Const(Constant.Str(text + "s"))])
    case Enum(_) =>
      var name :| PlainValue(name, ty, w);
      Ident(name)
    case _ => Const(Constant.Str(""))
  }

  ghost function Comparator(ty: Type, w: World): string {
    if ty.Enum? && !Declares(w.declarations, EQUALS, [ty, ty]) then NOT_EQUALS else EQUALS
  }

  function LiteralType(ty: Type): Type {
    if ty.Timestamp? then Type.String else ty
  }

  lemma OverloadListed(params: seq<seq<Type>>, i: nat)
    requires i < |params|
    ensures Overload(Type.Bool, params[i]) in OverBool(params)
  {
    assert OverBool(params)[i] == Overload(Type.Bool, params[i]);
  }

  lemma StandardDeclares(name: string, overload: Overload, declarations: Declarations)
    requires StandardDeclared(declarations) && overload in StandardOverloads(name)
    ensures Declares(declarations, name, overload.params)
  {}

  lemma {:induction false} ComparisonDeclared(ty: Type, w: World)
    requires StandardDeclared(w.declarations) && Spellable(ty, w)
    ensures Declares(w.declarations, Comparator(ty, w), [ty, LiteralType(ty)])
  {
    if !ty.Enum? {
      var params := [[Type.Bool, Type.Bool]] + ORDERED;
      var i := match ty
               case Bool => 0
               case Int => 1
               case Double => 2
               case String => 4
               case Timestamp => 6
               case _ => 7;
      assert params[i] == [ty, LiteralType(ty)];
      OverloadListed(params, i);
      StandardDeclares(EQUALS, Overload(Type.Bool, params[i]), w.declarations);
    }
  }

  lemma DurationChecks(text: string, declarations: Declarations)
    requires Standard(declarations) && StandardDeclared(declarations)
    ensures Checker.TypeOf(Call(DURATION, [Const(Constant.Str(text))]), declarations) == Ok(Type.Duration)
  {
    var args := [Const(Constant.Str(text))];
    OneType(args[0], Type.String, declarations);
    StandardDeclares(DURATION, StandardOverloads(DURATION)[0], declarations);
    ResolveFinds(DURATION, args, [Type.String], declarations.functions[DURATION]);
    Checker.CheckedCall(DURATION, args, declarations);
  }

  lemma LiteralChecks(ty: Type, w: World)
    requires Standard(w.declarations) && StandardDeclared(w.declarations) && Spellable(ty, w)
    ensures Checker.TypeOf(Literal(ty, w), w.declarations) == Ok(LiteralType(ty))
    ensures Transpiler.Classify(Literal(ty, w), w.Transpiling()).Ok?
    ensures Transpiler.Classify(Literal(ty, w), w.Transpiling()).value.ValueOperand?
  {
    if ty.Duration? {
      var text := Literal(ty, w).args[0].constant.text;
      DurationChecks(text, w.declarations);
      var seconds :| w.parse(seconds).Some? && text == seconds + "s";
      assert text[..|text| - 1] == seconds;
    }
  }

  /** The filter `base.key = literal` for a stored key. */
  ghost function KeyTest(w: World, base: string, key: string): Expr
    requires ComparableMap(w, base)
  {
    var ty := w.declarations.idents[base].value;
    Call(Comparator(ty, w), [Select(Ident(base), key), Literal(ty, w)])
  }

  lemma ComparisonIsBoolean(name: string, args: seq<Expr>, types: seq<Type>, declarations: Declarations)
    requires Standard(declarations) && Matcher.Comparison(name).Some? && Declares(declarations, name, types)
    requires Checker.TypesOf(args, declarations) == Ok(types)
    ensures Checker.TypeOf(Call(name, args), declarations) == Ok(Type.Bool)
  {
    CallResolves(name, args, types, declarations);
    ResolvedCompare(name, args, types, declarations.functions[name]);
    Checker.CheckedCall(name, args, declarations);
    Soundness.OverloadShapes(name, Overload(Checker.TypeOf(Call(name, args), declarations).value, types));
  }

  lemma {:induction false} ResolvedCompare(name: string, args: seq<Expr>, types: seq<Type>, overloads: seq<Overload>)
    requires |args| == |types| && name != HAS
    requires exists overload :: overload in overloads && overload.params == types
    ensures Checker.Resolve(name, args, types, overloads).Ok?
  {
    if overloads[0].params != types {
      assert forall overload :: overload in overloads ==> overload == overloads[0] || overload in overloads[1..];
      ResolvedCompare(name, args, types, overloads[1..]);
    }
  }

  /** The checker gives a member its map's value type. */
  lemma {:induction false} MemberHasType(w: World, base: string, key: string)
    requires w.Consistent() && base in w.schema.columns && NonStringKeyed(w.message, base)
    requires base in w.declarations.idents && w.declarations.idents[base].Map?
    ensures Checker.TypeOf(Select(Ident(base), key), w.declarations) == Ok(w.declarations.idents[base].value)
  {
    TranspiledMember(w, base, key);
    assert '.' in base + "." + key;
    assert base + "." + key !in w.declarations.idents;
    UndeclaredMemberType(base, key, w.declarations);
  }

  lemma UndeclaredMemberType(base: string, key: string, declarations: Declarations)
    requires base + "." + key !in declarations.idents && base in declarations.idents && declarations.idents[base].Map?
    ensures Checker.TypeOf(Select(Ident(base), key), declarations) == Ok(declarations.idents[base].value)
  {
    TwoSegments(base, key);
    assert Checker.TypeOf(Ident(base), declarations) == Ok(declarations.idents[base]);
  }

  lemma KeyTestChecks(w: World, base: string, key: string)
    requires w.Consistent() && StandardDeclared(w.declarations) && ComparableMap(w, base)
    ensures Checker.TypeOf(KeyTest(w, base, key), w.declarations) == Ok(Type.Bool)
  {
    var ty := w.declarations.idents[base].value;
    var member := Select(Ident(base), key);
    MemberHasType(w, base, key);
    LiteralChecks(ty, w);
    TwoTypes(member, Literal(ty, w), ty, LiteralType(ty), w.declarations);
    ComparisonDeclared(ty, w);
    ComparisonIsBoolean(Comparator(ty, w), [member, Literal(ty, w)], [ty, LiteralType(ty)], w.declarations);
  }

  /** Of a stored key the test is unknown in memory and known in the database. */
  lemma {:induction false} KeyTestDiffers(w: World, base: string, key: string)
    requires w.Consistent() && StandardDeclared(w.declarations) && ComparableMap(w, base)
    requires SpelledKey(w.message.Get(base), key)
    ensures Matcher.Eval(KeyTest(w, base, key), w.Matching()) == Ok(Matcher.Unknown)
    ensures Transpiler.Transpile(KeyTest(w, base, key), w.Transpiling()).Ok?
    ensures Predicates.Eval(Transpiler.Transpile(KeyTest(w, base, key), w.Transpiling()).value, w.row) != Sql.Unknown
  {
    var ty := w.declarations.idents[base].value;
    var name, literal := Comparator(ty, w), Literal(ty, w);
    TranspiledMember(w, base, key);
    MemberIsAbsent(w, base, key);
    MemberCell(w, base, key);
    LiteralChecks(ty, w);
    LiteralIsLiteral(literal, w);
    MemberCompared(Matcher.Comparison(name).value, Select(Ident(base), key), literal, w);
    ComparisonCalls(name, Select(Ident(base), key), literal, w);
  }

  /** A comparison call is evaluated and transpiled as its comparison. */
  lemma ComparisonCalls(name: string, left: Expr, right: Expr, w: World)
    requires Matcher.Comparison(name).Some?
    ensures Matcher.Eval(Call(name, [left, right]), w.Matching())
         == Matcher.Compare(Matcher.Comparison(name).value, left, right, w.Matching())
    ensures Transpiler.Transpile(Call(name, [left, right]), w.Transpiling())
         == Transpiler.TranspileCompare(SqlOp(Matcher.Comparison(name).value), left, right, w.Transpiling())
  {
    ComparisonsAgree(name);
  }

  /** What the transpiler binds is a literal in memory. */
  lemma LiteralIsLiteral(literal: Expr, w: World)
    requires w.Consistent() && Checker.TypeOf(literal, w.declarations).Ok? && !literal.Select?
    requires Transpiler.Classify(literal, w.Transpiling()).Ok?
    requires Transpiler.Classify(literal, w.Transpiling()).value.ValueOperand? && !Shadowing(literal, w)
    ensures Matcher.Classify(literal, w.Matching()) == Ok(Matcher.Literal)
  {}

  /** The key test, or its negation, is selected in the database and not in memory. */
  lemma KeyTestDivides(w: World, base: string, key: string) returns (expr: Expr)
    requires w.Consistent() && StandardDeclared(w.declarations) && ComparableMap(w, base)
    requires SpelledKey(w.message.Get(base), key)
    ensures Admitted(expr, w) && !SameSelection(expr, w)
  {
    KeyTestChecks(w, base, key);
    KeyTestDiffers(w, base, key);
    expr := ApartDivides(KeyTest(w, base, key), w);
  }

  /** A test with two truths divides, as it stands or negated. */
  lemma ApartDivides(test: Expr, w: World) returns (expr: Expr)
    requires Standard(w.declarations) && StandardDeclared(w.declarations)
    requires Checker.TypeOf(test, w.declarations) == Ok(Type.Bool)
    requires Matcher.Eval(test, w.Matching()).Ok? && Transpiler.Transpile(test, w.Transpiling()).Ok?
    requires Predicates.Eval(Transpiler.Transpile(test, w.Transpiling()).value, w.row)
          != SqlTruth(Matcher.Eval(test, w.Matching()).value)
    ensures Admitted(expr, w) && !SameSelection(expr, w)
  {
    var p := Transpiler.Transpile(test, w.Transpiling()).value;
    if Predicates.Eval(p, w.row) == Sql.True || Matcher.Eval(test, w.Matching()).value == Matcher.True {
      expr := test;
    } else {
      expr := Call(NOT, [test]);
      NegationChecks(test, w.declarations);
      NotCalls(test, w);
      NegatedIsTrue(p, w.row);
    }
  }

  lemma NegatedIsTrue(p: Predicates.Predicate, row: Sql.Row)
    ensures Predicates.Eval(Predicates.Not(p), row) == Sql.True <==> Predicates.Eval(p, row) == Sql.False
  {}

  lemma NegationChecks(test: Expr, declarations: Declarations)
    requires Standard(declarations) && StandardDeclared(declarations)
    requires Checker.TypeOf(test, declarations) == Ok(Type.Bool)
    ensures Checker.TypeOf(Call(NOT, [test]), declarations) == Ok(Type.Bool)
  {
    TestDeclared(declarations);
    OneType(test, Type.Bool, declarations);
    CallIsBoolean(NOT, [test], [Type.Bool], declarations);
  }

  lemma UnsetStringDivides(w: World)
    requires w.Consistent() && StandardDeclared(w.declarations) && !StringsSet(w)
    ensures exists expr :: Admitted(expr, w) && !SameSelection(expr, w)
  {
    var path :| path in w.schema.columns && w.declarations.IdentType(path) == Some(Type.String)
                && Matcher.ResolvePath(w.message, Split(path, '.')).Unset?;
    TestDeclared(w.declarations);
    NegatedTestDiverges(path, w);
  }

  lemma TestDeclared(declarations: Declarations)
    requires StandardDeclared(declarations)
    ensures Declares(declarations, HAS, [Type.String, Type.String]) && Declares(declarations, NOT, [Type.Bool])
  {
    StandardTests();
    StandardDeclares(HAS, Overload(Type.Bool, [Type.String, Type.String]), declarations);
    StandardDeclares(NOT, Overload(Type.Bool, [Type.Bool]), declarations);
  }

  lemma StandardTests()
    ensures Overload(Type.Bool, [Type.String, Type.String]) in StandardOverloads(HAS)
    ensures Overload(Type.Bool, [Type.Bool]) in StandardOverloads(NOT)
  {
    OverloadListed([[Type.String, Type.String], [Type.Map(Type.String, Type.String), Type.String],
                    [Type.List(Type.String), Type.String], [Type.Timestamp, Type.String]], 0);
    OverloadListed([[Type.Bool]], 0);
  }

  lemma StoredKeyDivides(w: World)
    requires w.Consistent() && StandardDeclared(w.declarations) && !KeysReadable(w)
    ensures exists expr :: Admitted(expr, w) && !SameSelection(expr, w)
  {
    var base :| ComparableMap(w, base) && w.message.Get(base) != Value.Map(map[]);
    MapFieldHoldsMap(w.message, base);
    var k := StoredKey(w.message.Get(base));
    var expr := KeyTestDivides(w, base, KeyText(k));
  }

  /** `place = value`, or `!=` where that is all the enum declares. */
  ghost function CrossedTest(place: string, value: string, w: World): Expr
    requires place in w.declarations.idents
  {
    Call(Comparator(w.declarations.idents[place], w), [Ident(place), Ident(value)])
  }

  lemma CrossedTestChecks(place: string, value: string, w: World)
    requires w.Consistent() && Crossable(place, value, w)
    ensures Checker.TypeOf(CrossedTest(place, value, w), w.declarations) == Ok(Type.Bool)
  {
    var ty := w.declarations.idents[place];
    TwoTypes(Ident(place), Ident(value), ty, ty, w.declarations);
    ComparisonIsBoolean(Comparator(ty, w), [Ident(place), Ident(value)], [ty, ty], w.declarations);
  }

  /** The test compares the field with the path's spelling in memory, and the column with
      the value's name in the database. */
  lemma CrossedTestEvaluates(place: string, value: string, w: World)
    requires w.Consistent() && Crossable(place, value, w)
    ensures Transpiler.Transpile(CrossedTest(place, value, w), w.Transpiling()).Ok?
    ensures Matcher.Eval(CrossedTest(place, value, w), w.Matching()).Ok?
    ensures Predicates.Eval(Transpiler.Transpile(CrossedTest(place, value, w), w.Transpiling()).value, w.row)
            == SqlTruth(Matcher.Eval(CrossedTest(place, value, w), w.Matching()).value)
            <==> CrossedAlike(place, value, w)
  {
    var op := Matcher.Comparison(Comparator(w.declarations.idents[place], w)).value;
    ComparisonCalls(Comparator(w.declarations.idents[place], w), Ident(place), Ident(value), w);
    assert op.Mirror() == op;
    CrossedReads(op, place, value, w);
    CrossedTranspiles(place, value, w);
    CrossedAgrees(op, Ident(place), Ident(value), w);
  }

  lemma ValueName(name: string, w: World)
    requires name in w.declarations.idents && w.declarations.idents[name].Enum? && name !in w.message.descriptor.fields
    ensures Matcher.Classify(Ident(name), w.Matching()) == Ok(Matcher.Literal)
  {
    assert Matcher.ResolvePath(w.message, [name]).NotAField?;
  }

  lemma FieldName(name: string, w: World)
    requires name in w.message.descriptor.fields
    ensures Matcher.Classify(Ident(name), w.Matching())
         == Ok(Matcher.FieldSide(Matcher.ResolvePath(w.message, [name]).IntoField()))
  {}

  /** In memory the path is the literal and the value the field. */
  lemma CrossedReads(op: Matcher.CmpOp, place: string, value: string, w: World)
    requires w.Consistent() && Crossable(place, value, w)
    ensures Matcher.Classify(Ident(place), w.Matching()) == Ok(Matcher.Literal)
    ensures var side := Matcher.Classify(Ident(value), w.Matching());
            side.Ok? && side.value.FieldSide?
            && Matcher.EvalCompare(op, side.value.fieldValue, Ident(place), w.Matching()).Ok?
  {
    ValueName(place, w);
    FieldName(value, w);
    var read := Matcher.ResolvePath(w.message, [value]);
    if read.Found? {
      FoundConforms(w.message, [value]);
      TextCompares(op, read.IntoField(), place, w);
    }
  }

  lemma TextCompares(op: Matcher.CmpOp, read: Matcher.FieldValue, name: string, w: World)
    requires read.Present? && ValueConforms(read.field, read.value) && Soundness.TextField(read.field)
    ensures Matcher.EvalCompare(op, read, Ident(name), w.Matching()).Ok?
  {
    Soundness.TextFieldLowers(read.field, read.value);
  }

  /** In the database the path is the column and the value the text. */
  lemma CrossedTranspiles(place: string, value: string, w: World)
    requires Crossable(place, value, w)
    ensures Transpiler.Classify(Ident(place), w.Transpiling())
         == Ok(Transpiler.ColumnOperand(Predicates.Plain(w.schema.columns[place])))
    ensures Transpiler.Classify(Ident(value), w.Transpiling()) == Ok(Transpiler.ValueOperand(Predicates.Text(value)))
  {}

  lemma CrossedPairDivides(w: World)
    requires w.Consistent() && StandardDeclared(w.declarations) && !CrossingsAlike(w)
    ensures exists expr :: Admitted(expr, w) && !SameSelection(expr, w)
  {
    var place, value :| Crossable(place, value, w) && !CrossedAlike(place, value, w);
    CrossedTestChecks(place, value, w);
    CrossedTestEvaluates(place, value, w);
    var expr := ApartDivides(CrossedTest(place, value, w), w);
  }

  lemma AgreesWhenReadable(expr: Expr, w: World)
    requires w.Consistent() && StringsSet(w) && KeysReadable(w) && CrossingsAlike(w) && Admitted(expr, w)
    ensures SameSelection(expr, w)
  {
    NothingDivides(expr, w);
    FilterAgrees(expr, w);
  }

  /** For a consistent message and row and the standard functions, every checked filter both
      sides accept selects the same in memory and in the database if and only if no mapped
      string lies under an unset submessage, no comparable map with non-string keys holds an
      entry, and every path and enum value read crosswise read alike. */
  lemma SelectionAgreesExactly(w: World)
    requires w.Consistent() && StandardDeclared(w.declarations)
    ensures (forall expr :: Admitted(expr, w) ==> SameSelection(expr, w))
            <==> StringsSet(w) && KeysReadable(w) && CrossingsAlike(w)
  {
    if !StringsSet(w) {
      UnsetStringDivides(w);
    } else if !KeysReadable(w) {
      StoredKeyDivides(w);
    } else if !CrossingsAlike(w) {
      CrossedPairDivides(w);
    } else {
      forall expr | Admitted(expr, w) ensures SameSelection(expr, w) {
        AgreesWhenReadable(expr, w);
      }
    }
  }

  lemma StoredKey(stored: Value) returns (k: MapKey)
    requires stored.Map? && stored != Value.Map(map[])
    ensures k in stored.entries && SpelledKey(stored, KeyText(k))
  {
    assert stored.entries != map[];
    k :| k in stored.entries;
  }

  // ----- concrete messages -----

  /** A message whose only field, a submessage, is unset; the declared string below it is
      stored as NULL. */
  function UnsetPlace(outer: string, inner: string): World {
    var path := outer + "." + inner;
    World(
      Declarations(map[path := Type.String],
                   map[HAS := StandardOverloads(HAS), NOT := StandardOverloads(NOT)], [path]),
      Schema(map[path := "city"], {}, map[]),
      Message.Message(Descriptor("Place", map[outer := Field(Kind.Message("Location"), Singular)]), map[]),
      Sql.Row(map["city" := Sql.Null], map[]),
      s => None)
  }

  lemma {:induction false} UnsetPlaceIsValid(outer: string, inner: string)
    requires '.' !in outer && '.' !in inner
    ensures UnsetPlace(outer, inner).Consistent()
    ensures Matcher.ResolvePath(UnsetPlace(outer, inner).message, Split(outer + "." + inner, '.')).Unset?
  {
    var w := UnsetPlace(outer, inner);
    SplitCons(outer, '.', inner);
    SplitSingle(inner, '.');
    ResolveCons(w.message, outer, [inner]);
  }

  lemma {:induction false} UnsetPlaceDeclares(outer: string, inner: string)
    ensures Declares(UnsetPlace(outer, inner).declarations, HAS, [Type.String, Type.String])
    ensures Declares(UnsetPlace(outer, inner).declarations, NOT, [Type.Bool])
  {
    assert StandardOverloads(HAS)[0] in StandardOverloads(HAS);
    assert StandardOverloads(NOT)[0] in StandardOverloads(NOT);
  }

  /** `NOT loc.city:"x"` selects a place without location in memory and drops its row in
      the database. */
  lemma UnsetPlaceDiverges()
    ensures Admitted(NegatedTest("loc" + "." + "city"), UnsetPlace("loc", "city"))
    ensures !SameSelection(NegatedTest("loc" + "." + "city"), UnsetPlace("loc", "city"))
  {
    UnsetPlaceIsValid("loc", "city");
    UnsetPlaceDeclares("loc", "city");
    NegatedTestDiverges("loc" + "." + "city", UnsetPlace("loc", "city"));
  }

  /** The standard functions under a set of names. */
  function Functions(names: seq<string>): map<string, seq<Overload>> {
    map name | name in names :: StandardOverloads(name)
  }

  lemma ListedComparison(name: string, names: seq<string>)
    requires Matcher.Comparison(name).Some?
    requires |names| == 12 && names[..6] == [EQUALS, NOT_EQUALS, LESS_THAN, LESS_EQUALS, GREATER_THAN, GREATER_EQUALS]
    ensures name in names
  {
    var i := match Matcher.Comparison(name).value case Eq => 0 case Ne => 1 case Lt => 2 case Le => 3 case Gt => 4 case Ge => 5;
    assert names[..6][i] == names[i] == name;
  }

  lemma ListedOther(name: string, names: seq<string>)
    requires name in [HAS, AND, OR, NOT, TIMESTAMP, DURATION]
    requires |names| == 12 && names[6..] == [HAS, AND, OR, NOT, TIMESTAMP, DURATION]
    ensures name in names
  {
    assert name in names[6..];
  }

  /** Every name with a standard overload is listed. */
  lemma {:induction false} Listed(name: string)
    requires StandardOverloads(name) != []
    ensures name in STANDARD_NAMES
  {
    if Matcher.Comparison(name).Some? {
      ListedComparison(name, STANDARD_NAMES);
    } else {
      ListedOther(name, STANDARD_NAMES);
    }
  }

  lemma ListedFunctions(declarations: Declarations, names: seq<string>)
    requires declarations.functions == Functions(names)
    requires forall name :: StandardOverloads(name) != [] ==> name in names
    ensures Standard(declarations) && StandardDeclared(declarations)
  {}

  lemma AllFunctions(declarations: Declarations)
    requires declarations.functions == Functions(STANDARD_NAMES)
    ensures Standard(declarations) && StandardDeclared(declarations)
  {
    forall name | StandardOverloads(name) != [] ensures name in STANDARD_NAMES {
      Listed(name);
    }
    ListedFunctions(declarations, STANDARD_NAMES);
  }

  /** A host with one map field from port numbers to names, holding port 7. */
  ghost function Ports(base: string): World {
    var field := Field(Kind.String, MapField(IntKey));
    var stored := Value.Map(map[IntegerKey(7) := Value.Str("echo")]);
    World(
      Declarations(map[base := Type.Map(Type.Int, Type.String)], Functions(STANDARD_NAMES), [base]),
      Schema(map[base := "ports"], {}, map[]),
      Message.Message(Descriptor("Host", map[base := field]), map[base := stored]),
      Sql.Row(map["ports" := FieldCell(field, stored)], map[]),
      s => None)
  }

  lemma {:induction false} PortsIsConsistent(base: string)
    requires '.' !in base
    ensures Ports(base).Consistent() && StandardDeclared(Ports(base).declarations)
    ensures ComparableMap(Ports(base), base) && SpelledKey(Ports(base).message.Get(base), "7")
  {
    var w := Ports(base);
    AllFunctions(w.declarations);
    SplitSingle(base, '.');
    assert KeyText(IntegerKey(7)) == "7";
    PortsConforms(base);
    assert Matcher.ResolvePath(w.message, [base]) == Matcher.Found(w.message.descriptor.fields[base], w.message.values[base]);
  }

  lemma PortsConforms(base: string)
    requires '.' !in base
    ensures Conforms(Ports(base).message)
  {
    var message := Ports(base).message;
    assert ValueConforms(message.descriptor.fields[base], message.values[base]);
  }

  /** `ports.7 = "echo"`. */
  function PortTest(base: string): Expr {
    Call(EQUALS, [Select(Ident(base), "7"), Const(Constant.Str("echo"))])
  }

  lemma PortMember(base: string)
    requires '.' !in base
    ensures Sql.Member(Ports(base).row.Get("ports"), "7") == Sql.Str("echo")
  {
    var field := Field(Kind.String, MapField(IntKey));
    var entries := map[IntegerKey(7) := Value.Str("echo")];
    assert KeyText(IntegerKey(7)) == "7";
    MemberIsSpelled(field, Value.Map(entries), "7");
    assert KeyOf(entries, "7") == IntegerKey(7);
  }

  lemma PortTestChecks(base: string)
    requires '.' !in base
    ensures Checker.Check(PortTest(base), Ports(base).declarations)
  {
    var w := Ports(base);
    PortsIsConsistent(base);
    MemberHasType(w, base, "7");
    StringComparisonChecks(Select(Ident(base), "7"), "echo", w.declarations);
  }

  lemma StringComparisonChecks(place: Expr, text: string, declarations: Declarations)
    requires Standard(declarations) && StandardDeclared(declarations)
    requires Checker.TypeOf(place, declarations) == Ok(Type.String)
    ensures Checker.Check(Call(EQUALS, [place, Const(Constant.Str(text))]), declarations)
  {
    var literal := Const(Constant.Str(text));
    TwoTypes(place, literal, Type.String, Type.String, declarations);
    OverloadListed([[Type.Bool, Type.Bool]] + ORDERED, 4);
    StandardDeclares(EQUALS, Overload(Type.Bool, [Type.String, Type.String]), declarations);
    ComparisonIsBoolean(EQUALS, [place, literal], [Type.String, Type.String], declarations);
  }

  lemma PortTestDivides(base: string)
    requires '.' !in base
    ensures Admitted(PortTest(base), Ports(base)) && !SameSelection(PortTest(base), Ports(base))
    ensures Matcher.Eval(PortTest(base), Ports(base).Matching()) == Ok(Matcher.Unknown)
  {
    PortsIsConsistent(base);
    PortTestChecks(base);
    PortTestSelected(base);
  }

  lemma PortTestSelected(base: string)
    requires '.' !in base && Ports(base).Consistent()
    ensures Matcher.Eval(PortTest(base), Ports(base).Matching()) == Ok(Matcher.Unknown)
    ensures var transpiled := Transpiler.Transpile(PortTest(base), Ports(base).Transpiling());
            transpiled.Ok? && Predicates.Eval(transpiled.value, Ports(base).row) == Sql.True
  {
    PortMember(base);
    StoredNameSelected(Ports(base), base, "7", "echo");
  }

  /** A stored name compared with itself under a key that is no string. */
  lemma StoredNameSelected(w: World, base: string, key: string, name: string)
    requires w.Consistent() && base in w.schema.columns && NonStringKeyed(w.message, base)
    requires Sql.Member(w.row.Get(w.schema.columns[base]), key) == Sql.Str(name)
    ensures var test := Call(EQUALS, [Select(Ident(base), key), Const(Constant.Str(name))]);
            var transpiled := Transpiler.Transpile(test, w.Transpiling());
            Matcher.Eval(test, w.Matching()) == Ok(Matcher.Unknown)
            && transpiled.Ok? && Predicates.Eval(transpiled.value, w.row) == Sql.True
  {
    var member, literal := Select(Ident(base), key), Const(Constant.Str(name));
    TranspiledMember(w, base, key);
    NonStringKeyAgreesExactly(w, base, key, Matcher.Eq, literal.constant);
    EqualsCalls(member, literal, w);
    NameSelected(member, name, w);
  }

  lemma NameSelected(place: Expr, name: string, w: World)
    requires Transpiler.Classify(place, w.Transpiling()).Ok? && Transpiler.Classify(place, w.Transpiling()).value.ColumnOperand?
    requires Predicates.Read(Transpiler.Classify(place, w.Transpiling()).value.column, w.row) == Sql.Str(name)
    ensures var transpiled := Transpiler.Transpile(Call(EQUALS, [place, Const(Constant.Str(name))]), w.Transpiling());
            transpiled.Ok? && Predicates.Eval(transpiled.value, w.row) == Sql.True
  {
    EqualsCalls(place, Const(Constant.Str(name)), w);
    ColumnCompared(place, Const(Constant.Str(name)), w);
    ReadsName(Transpiler.Classify(place, w.Transpiling()).value.column, name, w.row);
  }

  lemma ReadsName(column: Predicates.Column, name: string, row: Sql.Row)
    requires Predicates.Read(column, row) == Sql.Str(name)
    ensures Predicates.Eval(Predicates.Compare(column, Predicates.Eq, Predicates.Text(name)), row) == Sql.True
  {}

  lemma EqualsCalls(left: Expr, right: Expr, w: World)
    ensures Matcher.Eval(Call(EQUALS, [left, right]), w.Matching()) == Matcher.Compare(Matcher.Eq, left, right, w.Matching())
    ensures Transpiler.Transpile(Call(EQUALS, [left, right]), w.Transpiling())
         == Transpiler.TranspileCompare(Predicates.Eq, left, right, w.Transpiling())
  {
    ComparisonCalls(EQUALS, left, right, w);
  }

  lemma ColumnCompared(place: Expr, literal: Expr, w: World)
    requires Transpiler.Classify(place, w.Transpiling()).Ok? && Transpiler.Classify(place, w.Transpiling()).value.ColumnOperand?
    requires literal.Const?
    ensures Transpiler.TranspileCompare(Predicates.Eq, place, literal, w.Transpiling())
         == Ok(Predicates.Compare(Transpiler.Classify(place, w.Transpiling()).value.column, Predicates.Eq,
                                  Transpiler.ToValue(literal.constant)))
  {}

  /** `ports.7 = "echo"` selects the row of a host with that port and not its message. */
  lemma PortsDiverge()
    ensures Admitted(PortTest("ports"), Ports("ports")) && !SameSelection(PortTest("ports"), Ports("ports"))
  {
    PortTestDivides("ports");
  }

  // ----- quoted segments -----

  /** `head."rest" = "x"`, with the rest of a mapped path in one quoted segment. */
  function QuotedTest(head: string, rest: string): Expr {
    Call(EQUALS, [Select(Ident(head), rest), PROBE])
  }

  lemma QuotedIsNotPlain(w: World, head: string, rest: string)
    requires w.Consistent() && '.' !in head && '.' in rest && head + "." + rest in w.schema.columns && w.message.Has(head)
    ensures !Soundness.PlainOperand(Select(Ident(head), rest), w)
  {
    SplitCons(head, '.', rest);
    ResolveCons(w.message, head, Split(rest, '.'));
    SubmessageConforms(w.message, head);
    DottedTailIsNotPlain(w.message, head, rest);
    TwoSegments(head, rest);
  }

  lemma DottedTailIsNotPlain(message: Message, head: string, rest: string)
    requires '.' in rest && message.Field(head).Some? && message.Has(head) && message.Get(head).Msg?
    ensures !Soundness.PlainPath(message, [head, rest])
  {
    assert [head, rest][1..] == [rest];
    assert !Soundness.PlainPath(message.Get(head).message, [rest]);
  }

  lemma QuotedTestChecks(w: World, head: string, rest: string)
    requires w.Consistent() && StandardDeclared(w.declarations)
    requires w.declarations.IdentType(head + "." + rest) == Some(Type.String)
    ensures Checker.Check(QuotedTest(head, rest), w.declarations)
  {
    QuotedPlaceIsString(head, rest, w.declarations);
    StringComparisonChecks(Select(Ident(head), rest), "x", w.declarations);
  }

  lemma QuotedPlaceIsString(head: string, rest: string, declarations: Declarations)
    requires declarations.IdentType(head + "." + rest) == Some(Type.String)
    ensures Checker.TypeOf(Select(Ident(head), rest), declarations) == Ok(Type.String)
  {
    TwoSegments(head, rest);
  }

  lemma QuotedColumn(head: string, rest: string, ctx: Transpiler.Context)
    requires head + "." + rest in ctx.schema.columns
    ensures Transpiler.Classify(Select(Ident(head), rest), ctx)
         == Ok(Transpiler.ColumnOperand(Predicates.Plain(ctx.schema.columns[head + "." + rest])))
  {
    TwoSegments(head, rest);
  }

  /** A mapped path whose tail is written as one quoted segment checks and transpiles, and
      the matcher refuses it once the head is set. */
  lemma QuotedTailIsRefused(w: World, head: string, rest: string)
    requires w.Consistent() && StandardDeclared(w.declarations) && '.' !in head && '.' in rest
    requires head + "." + rest in w.schema.columns && w.declarations.IdentType(head + "." + rest) == Some(Type.String)
    requires w.message.Has(head)
    ensures Checker.Check(QuotedTest(head, rest), w.declarations)
    ensures Transpiler.Transpile(QuotedTest(head, rest), w.Transpiling()).Ok?
    ensures Matcher.Eval(QuotedTest(head, rest), w.Matching()) == Err(Matcher.UnknownIdentifier)
  {
    var place := Select(Ident(head), rest);
    QuotedTestChecks(w, head, rest);
    QuotedColumn(head, rest, w.Transpiling());
    QuotedIsNotPlain(w, head, rest);
    QuotedPlaceIsString(head, rest, w.declarations);
    Soundness.SelectEvaluates(place, w);
    EqualsCalls(place, PROBE, w);
    ColumnCompared(place, PROBE, w);
  }

  /** A site whose region is set and whose zone below it is not. */
  function Site(a: string, b: string, c: string): World {
    var path := a + "." + (b + "." + c);
    World(
      Declarations(map[path := Type.String], Functions(STANDARD_NAMES), [path]),
      Schema(map[path := "code"], {}, map[]),
      Message.Message(
        Descriptor("Site", map[a := Field(Kind.Message("Region"), Singular)]),
        map[a := Value.Msg(Message.Message(Descriptor("Region", map[b := Field(Kind.Message("Zone"), Singular)]), map[]))]),
      Sql.Row(map["code" := Sql.Null], map[]),
      s => None)
  }

  lemma {:induction false} SiteIsConsistent(a: string, b: string, c: string)
    requires '.' !in a && '.' !in b && '.' !in c
    ensures Site(a, b, c).Consistent() && StandardDeclared(Site(a, b, c).declarations)
  {
    AllFunctions(Site(a, b, c).declarations);
    SiteConforms(a, b, c);
    SiteResolves(a, b, c);
  }

  lemma SiteConforms(a: string, b: string, c: string)
    requires '.' !in a && '.' !in b
    ensures Conforms(Site(a, b, c).message)
  {
    var message := Site(a, b, c).message;
    assert Conforms(message.values[a].message);
    assert ValueConforms(message.descriptor.fields[a], message.values[a]);
  }

  lemma SiteResolves(a: string, b: string, c: string)
    requires '.' !in a && '.' !in b
    ensures Matcher.ResolvePath(Site(a, b, c).message, Split(a + "." + (b + "." + c), '.')).Unset?
  {
    var message := Site(a, b, c).message;
    SplitCons(a, '.', b + "." + c);
    SplitCons(b, '.', c);
    ResolveCons(message, a, Split(b + "." + c, '.'));
    ResolveCons(message.values[a].message, b, Split(c, '.'));
  }

  /** `a."b.c" = "x"` on a concrete site: checked, transpiled and refused in memory. */
  lemma SiteRefusesQuotedTail()
    ensures var w, test := Site("a", "b", "c"), QuotedTest("a", "b" + "." + "c");
            Checker.Check(test, w.declarations) && Transpiler.Transpile(test, w.Transpiling()).Ok?
            && Matcher.Eval(test, w.Matching()) == Err(Matcher.UnknownIdentifier)
  {
    SiteIsConsistent("a", "b", "c");
    QuotedTailIsRefused(Site("a", "b", "c"), "a", "b" + "." + "c");
  }

  // ----- enum values named like a field -----

  /** An enum value name is a literal to the transpiler; to the matcher it is one exactly
      when the message has no field of that name. */
  lemma ShadowedValueExactly(name: string, w: World)
    requires w.declarations.IdentType(name).Some? && w.declarations.IdentType(name).value.Enum?
    requires name !in w.schema.columns
    ensures Transpiler.Classify(Ident(name), w.Transpiling()) == Ok(Transpiler.ValueOperand(Predicates.Text(name)))
    ensures Matcher.Classify(Ident(name), w.Matching()) == Ok(Matcher.Literal) <==> name !in w.message.descriptor.fields
  {
    assert Matcher.ResolvePath(w.message, [name]).NotAField? <==> name !in w.message.descriptor.fields;
  }

  /** `place = value`, of one enum type. */
  function ValueTest(place: Expr, value: string): Expr {
    Call(EQUALS, [place, Ident(value)])
  }

  lemma ValueTestChecks(place: Expr, value: string, w: World)
    requires Standard(w.declarations) && w.declarations.IdentType(value).Some?
    requires var ty := w.declarations.IdentType(value).value;
             Checker.TypeOf(place, w.declarations) == Ok(ty) && Declares(w.declarations, EQUALS, [ty, ty])
    ensures Checker.Check(ValueTest(place, value), w.declarations)
  {
    var ty := w.declarations.IdentType(value).value;
    TwoTypes(place, Ident(value), ty, ty, w.declarations);
    ComparisonIsBoolean(EQUALS, [place, Ident(value)], [ty, ty], w.declarations);
  }

  /** So an enum compared with a value named like a field checks, transpiles and is refused
      in memory, as a comparison of two fields. */
  lemma ShadowedValueIsRefused(place: Expr, value: string, w: World)
    requires Standard(w.declarations) && w.declarations.IdentType(value).Some?
    requires var ty := w.declarations.IdentType(value).value;
             ty.Enum? && Checker.TypeOf(place, w.declarations) == Ok(ty) && Declares(w.declarations, EQUALS, [ty, ty])
    requires value !in w.schema.columns && value in w.message.descriptor.fields
    requires Transpiler.Classify(place, w.Transpiling()).Ok? && Transpiler.Classify(place, w.Transpiling()).value.ColumnOperand?
    requires Matcher.Classify(place, w.Matching()).Ok? && Matcher.Classify(place, w.Matching()).value.FieldSide?
    ensures Checker.Check(ValueTest(place, value), w.declarations)
    ensures Transpiler.Transpile(ValueTest(place, value), w.Transpiling()).Ok?
    ensures Matcher.Eval(ValueTest(place, value), w.Matching()) == Err(Matcher.TwoFields)
  {
    ValueTestChecks(place, value, w);
    ShadowedValueExactly(value, w);
    EqualsCalls(place, Ident(value), w);
  }

  /** Evaluating the filter meets operand types it cannot compare. */
  predicate Mismatches(expr: Expr, w: World) {
    var result := Matcher.Eval(expr, w.Matching());
    result.Err? && Soundness.TypeErrorOf(result.error)
  }

  /** The path compared with the literal, as the enum's declaration allows. */
  ghost function MisreadTest(place: string, literal: string, w: World): Expr
    requires place in w.declarations.idents
  {
    Call(Comparator(w.declarations.idents[place], w), [Chain(Split(place, '.')), Ident(literal)])
  }

  lemma MisreadTestChecks(place: string, literal: string, w: World)
    requires w.Consistent() && Soundness.Misread(place, literal, w)
    ensures Checker.Check(MisreadTest(place, literal, w), w.declarations)
  {
    var ty := w.declarations.idents[place];
    var chain := Chain(Split(place, '.'));
    ChainHasType(place, ty, w.declarations);
    TwoTypes(chain, Ident(literal), ty, ty, w.declarations);
    ComparisonIsBoolean(Comparator(ty, w), [chain, Ident(literal)], [ty, ty], w.declarations);
  }

  /** In memory the test reads the field and takes the enum's value for a literal. */
  lemma MisreadTestReads(place: string, literal: string, w: World)
    requires w.Consistent() && Soundness.Misread(place, literal, w)
    ensures var read := Matcher.ResolvePath(w.message, Split(place, '.'));
            read.Found? && ValueConforms(read.field, read.value)
            && Matcher.Classify(Chain(Split(place, '.')), w.Matching()) == Ok(Matcher.FieldSide(read.IntoField()))
    ensures Matcher.Classify(Ident(literal), w.Matching()) == Ok(Matcher.Literal)
  {
    ChainHasType(place, w.declarations.idents[place], w.declarations);
    Soundness.PathClassifies(Chain(Split(place, '.')), w);
    FoundConforms(w.message, Split(place, '.'));
    assert Matcher.ResolvePath(w.message, [literal]).NotAField?;
  }

  lemma MisreadTestMismatches(place: string, literal: string, w: World)
    requires w.Consistent() && Soundness.Misread(place, literal, w)
    ensures Mismatches(MisreadTest(place, literal, w), w)
  {
    var name := Comparator(w.declarations.idents[place], w);
    var read := Matcher.ResolvePath(w.message, Split(place, '.'));
    MisreadTestReads(place, literal, w);
    ComparisonCalls(name, Chain(Split(place, '.')), Ident(literal), w);
    UntextualMismatches(Matcher.Comparison(name).value, read.IntoField(), Ident(literal), w);
  }

  lemma UntextualMismatches(op: Matcher.CmpOp, read: Matcher.FieldValue, literal: Expr, w: World)
    requires read.Present? && ValueConforms(read.field, read.value) && !Soundness.TextField(read.field) && literal.Ident?
    ensures var result := Matcher.EvalCompare(op, read, literal, w.Matching());
            result.Err? && Soundness.TypeErrorOf(result.error)
  {
    Soundness.TextFieldLowers(read.field, read.value);
    Soundness.TextMismatches(op, read, literal, w);
  }

  /** No checked filter meets a type error if and only if no enum value name, or path taken
      over by one, reads a field of another kind that a literal of the enum can be compared
      with. */
  lemma NeverMismatchesExactly(w: World)
    requires w.Consistent()
    ensures (forall expr :: Checker.Check(expr, w.declarations) ==> !Mismatches(expr, w)) <==> Soundness.EnumsReadable(w)
  {
    if Soundness.EnumsReadable(w) {
      forall expr | Checker.Check(expr, w.declarations) ensures !Mismatches(expr, w) {
        Soundness.CheckedNeverMismatches(expr, w);
      }
    } else {
      var place, literal :| Soundness.Misread(place, literal, w);
      MisreadTestChecks(place, literal, w);
      MisreadTestMismatches(place, literal, w);
    }
  }

  // ----- filters without dots inside their names -----

  /** The column compared with the value it clashes with. */
  ghost function ClashTest(place: Expr, value: string, w: World): Expr
    requires value in w.declarations.idents
  {
    Call(Comparator(w.declarations.idents[value], w), [place, Ident(value)])
  }

  lemma ClashTestChecks(place: Expr, value: string, w: World)
    requires w.Consistent() && Soundness.Clashes(place, value, w)
    ensures PlainNames(ClashTest(place, value, w)) && Checker.Check(ClashTest(place, value, w), w.declarations)
  {
    var ty := w.declarations.idents[value];
    TwoTypes(place, Ident(value), ty, ty, w.declarations);
    ComparisonIsBoolean(Comparator(ty, w), [place, Ident(value)], [ty, ty], w.declarations);
  }

  lemma ClashTestRefused(place: Expr, value: string, w: World)
    requires w.Consistent() && Soundness.Clashes(place, value, w)
    ensures Transpiler.Transpile(ClashTest(place, value, w), w.Transpiling()).Ok?
    ensures Matcher.Eval(ClashTest(place, value, w), w.Matching()).Err?
  {
    var name := Comparator(w.declarations.idents[value], w);
    ClashTestChecks(place, value, w);
    ComparisonCalls(name, place, Ident(value), w);
    ClashTranspiles(SqlOp(Matcher.Comparison(name).value), place, value, w);
    Soundness.PlainColumnReads(place, w);
    Soundness.TranspiledEvaluatesExactly(ClashTest(place, value, w), w);
  }

  lemma ClashTranspiles(op: Predicates.CmpOp, place: Expr, value: string, w: World)
    requires w.Consistent() && Soundness.Clashes(place, value, w)
    ensures Transpiler.TranspileCompare(op, place, Ident(value), w.Transpiling()).Ok?
  {
    ShadowedValueExactly(value, w);
  }

  /** A checked filter without dots inside its names that transpiles. */
  ghost predicate Plain(expr: Expr, w: World) {
    PlainNames(expr) && Checker.Check(expr, w.declarations) && Transpiler.Transpile(expr, w.Transpiling()).Ok?
  }

  /** Every checked filter without dots inside its names that transpiles evaluates if and only
      if enum values and fields are told apart wherever such a filter can compare them. */
  lemma PlainFiltersEvaluateExactly(w: World)
    requires w.Consistent()
    ensures (forall expr :: Plain(expr, w) ==> Matcher.Eval(expr, w.Matching()).Ok?) <==> Soundness.EnumsTold(w)
  {
    if Soundness.EnumsTold(w) {
      forall expr | Plain(expr, w) ensures Matcher.Eval(expr, w.Matching()).Ok? {
        Soundness.PlainNamesSuffice(expr, w);
        Soundness.TranspiledEvaluatesExactly(expr, w);
      }
    } else {
      var place, value :| Soundness.Clashes(place, value, w);
      ClashTestChecks(place, value, w);
      ClashTestRefused(place, value, w);
      assert Plain(ClashTest(place, value, w), w);
    }
  }
}

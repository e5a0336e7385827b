/** How a message is stored as a row: one column per declared path, NULL under an unset
    submessage, maps and lists as JSON. */
module Storage {
  import opened Text
  import opened Sql
  import opened Messages
  import opened Schemas
  import Matcher

  /** JSON object keys are text. */
  function KeyText(key: MapKey): string {
    match key
    case StrKey(text) => text
    case IntegerKey(i) => if i < 0 then "-" + Decimal(-i) else Decimal(i)
    case BooleanKey(b) => if b then "true" else "false"
  }

  /** A single value: an enum by name, a timestamp as RFC 3339 text, a duration as its
      seconds; any other message as a document whose content no filter can reach. */
  function ElementCell(kind: Kind, value: Value): Cell {
    match value
    case Bool(b) => Num(if b then 1.0 else 0.0)
    case Int(i) => Num(i as real)
    case Uint(u) => Num(u as real)
    case Float(d) => Num(d)
    case Str(text) => Cell.Str(text)
    case Bytes(bytes) => Blob(bytes)
    case EnumNumber(number) => if kind.Enum? then Cell.Str(Matcher.EnumName(kind.ty, number)) else Num(number as real)
    case Msg(message) =>
      if message.descriptor.fullName == TIMESTAMP_NAME then Cell.Str(Matcher.Rfc3339(message))
      else if message.descriptor.fullName == DURATION_NAME then Num(Matcher.DurationSeconds(message))
      else JsonObject(map[])
    case _ => JsonObject(map[])
  }

  ghost function KeyOf(entries: map<MapKey, Value>, text: string): (key: MapKey)
    requires exists k :: k in entries && KeyText(k) == text
    ensures key in entries && KeyText(key) == text
  {
    var k :| k in entries && KeyText(k) == text;
    k
  }

  ghost function FieldCell(field: Field, value: Value): Cell {
    match value
    case List(items) => JsonArray(seq(|items|, i requires 0 <= i < |items| => ElementCell(field.kind, items[i])))
    case Map(entries) =>
      JsonObject(map text | text in (set k | k in entries :: KeyText(k)) ::
                   ElementCell(field.kind, entries[KeyOf(entries, text)]))
    case _ => ElementCell(field.kind, value)
  }

  ghost function PathCell(message: Message, segments: seq<string>): Cell {
    match Matcher.ResolvePath(message, segments)
    case Found(field, value) => FieldCell(field, value)
    case _ => Null
  }

  /** The row stores the message: each mapped path's column holds the path's value. */
  ghost predicate Stores(row: Row, schema: Schema, message: Message) {
    forall path :: path in schema.columns ==>
      row.Get(schema.columns[path]) == PathCell(message, Split(path, '.'))
  }
}

/** The theorem the matcher is written for: a filter selects the same messages in memory
    and in the database. */
module Agreement {
  import opened Wrappers
  import opened Text
  import opened Filters
  import opened Messages
  import opened Schemas
  import opened Storage
  import Checker
  import Matcher
  import Predicates
  import Sql
  import Transpiler

  // ----- coherence of declarations, schema and message -----

  /** The type a field of this kind is declared with. */
  predicate KindHasType(kind: Kind, ty: Type) {
    match ty
    case Bool => kind.Bool?
    case Int => kind.Int?
    case Uint => kind.Uint?
    case Double => kind.Float?
    case String => kind.String?
    case Enum(fullName) => kind.Enum? && kind.ty.fullName == fullName
    case Timestamp => kind == Kind.Message(TIMESTAMP_NAME)
    case Duration => kind == Kind.Message(DURATION_NAME)
    case _ => false
  }

  predicate KeyHasType(key: KeyKind, ty: Type) {
    match key
    case StringKey => ty.String?
    case IntKey => ty.Int?
    case UintKey => ty.Uint?
    case BoolKey => ty.Bool?
  }

  predicate FieldHasType(field: Field, ty: Type) {
    match field.cardinality
    case Singular => KindHasType(field.kind, ty)
    case Repeated => ty.List? && KindHasType(field.kind, ty.element)
    case MapField(key) => ty.Map? && KeyHasType(key, ty.key) && KindHasType(field.kind, ty.value)
  }

  /** Every mapped path is a field path of the message with the declared type, unless an enum
      value of the same name took the declaration over; a declared identifier that is not
      mapped is an enum value name, which like every such name holds no dot. */
  ghost predicate Coherent(declarations: Declarations, schema: Schema, message: Message) {
    (forall path :: path in schema.columns ==>
       var resolved := Matcher.ResolvePath(message, Split(path, '.'));
       !resolved.NotAField?
       && (resolved.Found? && path in declarations.idents && !declarations.idents[path].Enum? ==>
             FieldHasType(resolved.field, declarations.idents[path])))
    && (forall name :: name in declarations.idents ==>
          name in schema.columns || (declarations.idents[name].Enum? && '.' !in name))
  }

  /** Everything the two evaluations share. */
  datatype World = World(
    declarations: Declarations,
    schema: Schema,
    message: Message,
    row: Sql.Row,
    parse: string -> Option<real>)
  {
    function Matching(): Matcher.Context {
      Matcher.Context(declarations, message, parse)
    }

    function Transpiling(): Transpiler.Context {
      Transpiler.Context(declarations, schema, parse)
    }

    /** Declarations, schema, message and row belong together. */
    ghost predicate Consistent() {
      Standard(declarations) && Conforms(message)
      && Coherent(declarations, schema, message) && Stores(row, schema, message)
    }
  }

  /** The matcher's three truths as SQL's. */
  function SqlTruth(t: Matcher.Truth): Sql.Truth {
    match t case True => Sql.True case False => Sql.False case Unknown => Sql.Unknown
  }

  // ----- paths -----

  /** The qualified name of a chain is its segments joined by dots. */
  lemma {:induction false} QualifiedIsJoined(expr: Expr)
    ensures QualifiedName(expr).Some? <==> Matcher.Segments(expr).Some?
    ensures QualifiedName(expr).Some? ==>
              Matcher.Segments(expr).value != [] && QualifiedName(expr).value == Join(Matcher.Segments(expr).value, '.')
  {
    if expr.Select? {
      QualifiedIsJoined(expr.operand);
      if QualifiedName(expr.operand).Some? {
        JoinSnoc(Matcher.Segments(expr.operand).value, '.', expr.field);
      }
    }
  }

  lemma TwoSegments(head: string, rest: string)
    ensures QualifiedName(Select(Ident(head), rest)) == Some(head + "." + rest)
    ensures Matcher.Segments(Select(Ident(head), rest)) == Some([head, rest])
  {
    assert QualifiedName(Ident(head)) == Some(head) && Matcher.Segments(Ident(head)) == Some([head]);
    assert [head] + [rest] == [head, rest];
  }

  /** The matcher's step below a segment that is not the last. */
  function Below(message: Message, head: string, rest: seq<string>): Matcher.PathResult {
    if message.Field(head).None? || !message.Field(head).value.SingularMessage() then Matcher.NotAField
    else if !message.Has(head) then Matcher.Unset
    else if !message.Get(head).Msg? then Matcher.NotAField
    else Matcher.ResolvePath(message.Get(head).message, rest)
  }

  lemma ResolveCons(message: Message, head: string, rest: seq<string>)
    requires rest != []
    ensures Matcher.ResolvePath(message, [head] + rest) == Below(message, head, rest)
  {
    assert ([head] + rest)[1..] == rest;
  }

  lemma SubmessageConforms(message: Message, head: string)
    requires Conforms(message) && message.Field(head).Some?
    ensures '.' !in head
    ensures message.Field(head).value.SingularMessage() && message.Has(head)
            ==> message.Get(head).Msg? && Conforms(message.Get(head).message)
    ensures ValueConforms(message.Field(head).value, message.Get(head)) || !message.Has(head)
  {
    if message.Has(head) {
      assert ValueConforms(message.descriptor.fields[head], message.values[head]);
    }
  }

  /** A path the matcher resolves is the same path after joining and splitting, even when
      a segment the matcher never looks at holds a dot. */
  lemma {:induction false} ResolvedPathRejoins(message: Message, segments: seq<string>)
    requires Conforms(message) && segments != []
    requires !Matcher.ResolvePath(message, segments).NotAField?
    ensures Matcher.ResolvePath(message, Split(Join(segments, '.'), '.')) == Matcher.ResolvePath(message, segments)
    decreases |segments|
  {
    var head, rest := segments[0], segments[1..];
    if rest == [] {
      SplitSingle(head, '.');
      assert segments == [head];
    } else {
      var joined := Join(rest, '.');
      SplitCons(head, '.', joined);
      assert segments == [head] + rest;
      ResolveCons(message, head, rest);
      ResolveCons(message, head, Split(joined, '.'));
      if message.Has(head) {
        SubmessageConforms(message, head);
        ResolvedPathRejoins(message.Get(head).message, rest);
      }
    }
  }

  /** A member of a map field is no field path, however the key is spelled. */
  lemma MapMemberIsNoPath(message: Message, base: string, key: string)
    requires Conforms(message) && message.Field(base).Some?
    requires !message.Field(base).value.SingularMessage()
    ensures Matcher.ResolvePath(message, [base, key]).NotAField?
    ensures Matcher.ResolvePath(message, Split(base + "." + key, '.')).NotAField?
  {
    SplitCons(base, '.', key);
    assert |[base] + Split(key, '.')| > 1;
  }

  /** A chain the matcher resolves as a path and the schema maps reads the same cell. */
  lemma ColumnHoldsPath(w: World, expr: Expr)
    requires w.Consistent() && QualifiedName(expr).Some? && QualifiedName(expr).value in w.schema.columns
    requires Matcher.Segments(expr).Some?
    requires !Matcher.ResolvePath(w.message, Matcher.Segments(expr).value).NotAField?
    ensures w.row.Get(w.schema.columns[QualifiedName(expr).value])
         == PathCell(w.message, Matcher.Segments(expr).value)
    ensures var resolved := Matcher.ResolvePath(w.message, Matcher.Segments(expr).value);
            resolved.Found? && QualifiedName(expr).value in w.declarations.idents
            && !w.declarations.idents[QualifiedName(expr).value].Enum?
            ==> FieldHasType(resolved.field, w.declarations.idents[QualifiedName(expr).value])
  {
    QualifiedIsJoined(expr);
    ResolvedPathRejoins(w.message, Matcher.Segments(expr).value);
  }

  // ----- operands -----

  function OperandCell(operand: Matcher.Operand): Sql.Cell {
    match operand
    case Num(n) => Sql.Num(n)
    case Text(text) => Sql.Str(text)
    case Bool(b) => Sql.Num(if b then 1.0 else 0.0)
  }

  ghost function FieldValueCell(value: Matcher.FieldValue): Sql.Cell {
    match value
    case Present(field, v) => FieldCell(field, v)
    case Absent => Sql.Null
  }

  function SqlOp(op: Matcher.CmpOp): Predicates.CmpOp {
    match op
    case Eq => Predicates.Eq
    case Ne => Predicates.Ne
    case Lt => Predicates.Lt
    case Le => Predicates.Le
    case Gt => Predicates.Gt
    case Ge => Predicates.Ge
  }

  /** Comparing lowered operands is comparing their cells. */
  lemma ApplyIsCompared(op: Matcher.CmpOp, a: Matcher.Operand, b: Matcher.Operand)
    requires Matcher.Apply(op, a, b).Ok?
    ensures SqlTruth(Matcher.Apply(op, a, b).value) == Predicates.Compared(SqlOp(op), OperandCell(a), OperandCell(b))
  {
    if a.Text? && b.Text? {
      LessTotal(a.text, b.text);
    }
  }

  lemma LoweredFieldIsStored(field: Field, value: Value)
    requires Matcher.LowerField(field, value).Ok?
    ensures FieldCell(field, value) == OperandCell(Matcher.LowerField(field, value).value)
  {}

  lemma LoweredLiteralIsBound(expr: Expr, w: World)
    requires Transpiler.Classify(expr, w.Transpiling()).Ok?
    requires Transpiler.Classify(expr, w.Transpiling()).value.ValueOperand?
    requires Matcher.LowerLiteral(expr, w.Matching()).Ok?
    ensures Transpiler.Classify(expr, w.Transpiling()).value.value.Bound()
         == OperandCell(Matcher.LowerLiteral(expr, w.Matching()).value)
  {}

  /** Some stored key is spelled like `key` in the stored JSON. */
  ghost predicate SpelledKey(stored: Value, key: string) {
    stored.Map? && exists k :: k in stored.entries && KeyText(k) == key
  }

  /** A stored map column has a member where some key is spelled that way. */
  lemma MemberIsSpelled(field: Field, stored: Value, key: string)
    requires stored.Map?
    ensures Sql.Member(FieldCell(field, stored), key).Null? <==> !SpelledKey(stored, key)
    ensures Sql.HasKey(FieldCell(field, stored), key) <==> SpelledKey(stored, key)
  {
    var texts := set k | k in stored.entries :: KeyText(k);
    assert key in texts <==> SpelledKey(stored, key);
  }

  /** A map with string keys read by key. */
  lemma MemberIsStored(field: Field, stored: Value, key: string)
    requires field.cardinality == MapField(StringKey) && ValueConforms(field, stored)
    ensures Sql.Member(FieldCell(field, stored), key)
         == if StrKey(key) in stored.entries then ElementCell(field.kind, stored.entries[StrKey(key)]) else Sql.Null
    ensures Sql.HasKey(FieldCell(field, stored), key) <==> StrKey(key) in stored.entries
  {
    MemberIsSpelled(field, stored, key);
    if StrKey(key) in stored.entries {
      assert KeyText(StrKey(key)) == key;
      assert KeyOf(stored.entries, key) == StrKey(key);
    } else {
      assert forall k :: k in stored.entries ==> KeyText(k) != key;
    }
  }

  /** An element or map value cannot itself be a list or a map. */
  lemma ElementIsScalar(field: Field, value: Value)
    requires ScalarConforms(field.kind, value)
    ensures FieldCell(field.Element(), value) == ElementCell(field.kind, value)
  {}

  lemma {:induction false} CheckedSelect(expr: Expr, w: World)
    requires w.Consistent() && expr.Select? && Checker.TypeOf(expr, w.declarations).Ok?
    requires QualifiedName(expr).None? || QualifiedName(expr).value !in w.schema.columns
    requires expr.operand.Ident? && expr.operand.name in w.schema.columns
    ensures expr.operand.name in w.declarations.idents && w.declarations.idents[expr.operand.name].Map?
  {
    var name := expr.operand.name + "." + expr.field;
    assert QualifiedName(expr) == Some(name);
    assert '.' in name;
    assert name !in w.declarations.idents;
  }

  lemma IdentAgrees(name: string, w: World)
    requires w.Consistent()
    requires Transpiler.Classify(Ident(name), w.Transpiling()).Ok? && Matcher.Classify(Ident(name), w.Matching()).Ok?
    ensures Sides(Ident(name), Transpiler.Classify(Ident(name), w.Transpiling()).value,
                  Matcher.Classify(Ident(name), w.Matching()).value, w)
  {
    if name in w.schema.columns {
      if w.message.Field(name).Some? {
        SubmessageConforms(w.message, name);
        ColumnHoldsPath(w, Ident(name));
      }
    }
  }

  /** The message holds a map under `base` whose keys are not strings. */
  predicate NonStringKeyed(message: Message, base: string) {
    message.Field(base).Some? && message.Field(base).value.cardinality.MapField?
    && !message.Field(base).value.cardinality.key.StringKey?
  }

  /** The operand is no member of a map with non-string keys that a stored key is spelled
      like. The matcher looks such a member up as a string and finds nothing; the database
      finds the JSON key. */
  ghost predicate KeyApart(expr: Expr, w: World) {
    expr.Select? && expr.operand.Ident? && NonStringKeyed(w.message, expr.operand.name) ==>
      !SpelledKey(w.message.Get(expr.operand.name), expr.field)
  }

  lemma StoredMember(w: World, base: string, key: string)
    requires w.Consistent() && base in w.schema.columns && '.' !in base
    requires base in w.declarations.idents && w.declarations.idents[base].Map?
    requires w.message.Field(base).Some? && !w.message.Field(base).value.SingularMessage()
    ensures w.message.Field(base).value.cardinality.MapField? && w.message.Get(base).Map?
    ensures var field, stored := w.message.Field(base).value, w.message.Get(base);
            var member := Sql.Member(w.row.Get(w.schema.columns[base]), key);
            if StrKey(key) in stored.entries then
              KeyApart(Select(Ident(base), key), w) && member == FieldCell(field.Element(), stored.entries[StrKey(key)])
            else member.Null? <==> KeyApart(Select(Ident(base), key), w)
  {
    var field, stored := w.message.Field(base).value, w.message.Get(base);
    SplitSingle(base, '.');
    assert Matcher.ResolvePath(w.message, [base]) == Matcher.Found(field, stored);
    assert FieldHasType(field, w.declarations.idents[base]);
    SubmessageConforms(w.message, base);
    assert ValueConforms(field, stored);
    MemberIsSpelled(field, stored, key);
    if field.cardinality.key.StringKey? {
      MemberIsStored(field, stored, key);
      if StrKey(key) in stored.entries {
        ElementIsScalar(field, stored.entries[StrKey(key)]);
      }
    }
  }

  /** An enum value name to the database, a field of the message to the matcher. */
  predicate Shadowing(expr: Expr, w: World) {
    expr.Ident? && expr.name !in w.schema.columns && expr.name in w.message.descriptor.fields
  }

  /** A column to the database, no field to the matcher: a dotted path as one identifier. */
  predicate Unfielded(expr: Expr, w: World) {
    expr.Ident? && expr.name in w.schema.columns && expr.name !in w.message.descriptor.fields
  }

  /** A bound value stands for a literal, unless it names a field. A column is a field, unless
      it is a dotted identifier; it reads what the field holds, except at a member that is
      not apart, where the matcher finds nothing and the database does. */
  ghost predicate Sides(expr: Expr, t: Transpiler.Operand, m: Matcher.Side, w: World) {
    (t.ValueOperand? ==> (m.FieldSide? <==> Shadowing(expr, w)))
    && (t.ColumnOperand? ==> (m.Literal? <==> Unfielded(expr, w)))
    && (t.ColumnOperand? && m.FieldSide? ==>
          if KeyApart(expr, w) then Predicates.Read(t.column, w.row) == FieldValueCell(m.fieldValue)
          else m.fieldValue.Absent? && !Predicates.Read(t.column, w.row).Null?)
  }

  lemma {:induction false} SelectAgrees(expr: Expr, w: World)
    requires w.Consistent() && expr.Select? && Checker.TypeOf(expr, w.declarations).Ok?
    requires Transpiler.Classify(expr, w.Transpiling()).Ok? && Matcher.Classify(expr, w.Matching()).Ok?
    ensures Sides(expr, Transpiler.Classify(expr, w.Transpiling()).value, Matcher.Classify(expr, w.Matching()).value, w)
  {
    QualifiedIsJoined(expr);
    var segments := Matcher.Segments(expr);
    var qualified := QualifiedName(expr);
    if qualified.Some? && qualified.value in w.schema.columns {
      MappedIsApart(expr, w);
      if Matcher.ResolvePath(w.message, segments.value).NotAField? {
        MapMemberIsNoPath(w.message, expr.operand.name, expr.field);
      } else {
        ColumnHoldsPath(w, expr);
      }
    } else {
      var base := expr.operand.name;
      CheckedSelect(expr, w);
      assert segments.value == [base, expr.field];
      ResolveCons(w.message, base, [expr.field]);
      SubmessageConforms(w.message, base);
      SplitSingle(base, '.');
      if w.message.Field(base).value.SingularMessage() {
        assert Matcher.ResolvePath(w.message, [base]).Unset?;
      } else {
        StoredMember(w, base, expr.field);
      }
    }
  }

  /** A mapped path is no map member. */
  lemma MappedIsApart(expr: Expr, w: World)
    requires w.Consistent() && QualifiedName(expr).Some? && QualifiedName(expr).value in w.schema.columns
    ensures KeyApart(expr, w)
  {
    if expr.Select? && expr.operand.Ident? && NonStringKeyed(w.message, expr.operand.name) {
      MapMemberIsNoPath(w.message, expr.operand.name, expr.field);
    }
  }

  lemma OperandAgrees(expr: Expr, w: World)
    requires w.Consistent() && Checker.TypeOf(expr, w.declarations).Ok?
    requires Transpiler.Classify(expr, w.Transpiling()).Ok? && Matcher.Classify(expr, w.Matching()).Ok?
    ensures Sides(expr, Transpiler.Classify(expr, w.Transpiling()).value, Matcher.Classify(expr, w.Matching()).value, w)
  {
    match expr
    case Ident(name) => IdentAgrees(name, w);
    case Select(_, _) => SelectAgrees(expr, w);
    case _ =>
  }

  // ----- leaves -----

  lemma MirrorAgrees(op: Matcher.CmpOp)
    ensures SqlOp(op.Mirror()) == SqlOp(op).Mirror()
  {}

  lemma EvalCompareAgrees(op: Matcher.CmpOp, value: Matcher.FieldValue, literal: Expr, column: Predicates.Column, w: World)
    requires Transpiler.Classify(literal, w.Transpiling()).Ok?
    requires Transpiler.Classify(literal, w.Transpiling()).value.ValueOperand?
    requires Predicates.Read(column, w.row) == FieldValueCell(value)
    requires Matcher.EvalCompare(op, value, literal, w.Matching()).Ok?
    ensures Predicates.Compared(SqlOp(op), Predicates.Read(column, w.row),
                                Transpiler.Classify(literal, w.Transpiling()).value.value.Bound())
         == SqlTruth(Matcher.EvalCompare(op, value, literal, w.Matching()).value)
  {
    if value.Present? {
      var left := Matcher.LowerField(value.field, value.value).value;
      var right := Matcher.LowerLiteral(literal, w.Matching()).value;
      LoweredFieldIsStored(value.field, value.value);
      LoweredLiteralIsBound(literal, w);
      ApplyIsCompared(op, left, right);
    }
  }

  /** Each side takes for a literal what the other reads: a dotted path as one identifier
      against an enum value named like a field. */
  predicate Crossed(place: Expr, value: Expr, w: World) {
    Unfielded(place, w) && Shadowing(value, w)
  }

  /** When one side transpiles to a column and the other to a value, the matcher compares
      the same field with the same literal, or the two are crossed. */
  lemma CompareShape(op: Matcher.CmpOp, left: Expr, right: Expr, w: World)
    requires w.Consistent()
    requires Checker.TypeOf(left, w.declarations).Ok? && Checker.TypeOf(right, w.declarations).Ok?
    requires Transpiler.TranspileCompare(SqlOp(op), left, right, w.Transpiling()).Ok?
    requires Matcher.Compare(op, left, right, w.Matching()).Ok?
    ensures var l := Transpiler.Classify(left, w.Transpiling()).value;
            var r := Transpiler.Classify(right, w.Transpiling()).value;
            var ml := Matcher.Classify(left, w.Matching()).value;
            var mr := Matcher.Classify(right, w.Matching()).value;
            if l.ColumnOperand? then
              r.ValueOperand? && Sides(left, l, ml, w) && !Crossed(right, left, w)
              && (if Crossed(left, right, w) then ml.Literal? && mr.FieldSide? else ml.FieldSide? && mr.Literal?)
            else
              r.ColumnOperand? && Sides(right, r, mr, w) && !Crossed(left, right, w)
              && (if Crossed(right, left, w) then mr.Literal? && ml.FieldSide? else mr.FieldSide? && ml.Literal?)
  {
    OperandAgrees(left, w);
    OperandAgrees(right, w);
  }

  /** An operand that is a value in the database is no map member and never NULL. */
  lemma ValueIsApart(expr: Expr, w: World)
    requires Transpiler.Classify(expr, w.Transpiling()).Ok? && Transpiler.Classify(expr, w.Transpiling()).value.ValueOperand?
    ensures KeyApart(expr, w) && !Transpiler.Classify(expr, w.Transpiling()).value.value.Null?
  {}

  /** A field absent in memory and stored in the database makes the comparison differ. */
  lemma AbsentDiffers(op: Matcher.CmpOp, literal: Expr, column: Predicates.Column, value: Predicates.Value, w: World)
    requires !Predicates.Read(column, w.row).Null? && !value.Null?
    ensures Matcher.EvalCompare(op, Matcher.Absent, literal, w.Matching()) == Ok(Matcher.Unknown)
    ensures Predicates.Eval(Predicates.Compare(column, SqlOp(op), value), w.row) != Sql.Unknown
  {}

  /** Both operands of a comparison read places where the two sides agree. */
  ghost predicate KeysApart(left: Expr, right: Expr, w: World) {
    KeyApart(left, w) && KeyApart(right, w)
  }

  /** Of a crossed pair: the field is unset where the column is NULL, and reads the path's
      spelling exactly where the column holds the value's name. */
  ghost predicate CrossedAlike(place: string, value: string, w: World)
    requires place in w.schema.columns
  {
    var read, cell := Matcher.ResolvePath(w.message, [value]), w.row.Get(w.schema.columns[place]);
    if read.Found? then
      !cell.Null? && (Matcher.LowerField(read.field, read.value) == Ok(Matcher.Text(place)) <==> cell == Sql.Str(value))
    else cell.Null?
  }

  /** The comparison reads the same on both sides. */
  ghost predicate CompareInStep(left: Expr, right: Expr, w: World) {
    KeysApart(left, right, w)
    && (Crossed(left, right, w) ==> CrossedAlike(left.name, right.name, w))
    && (Crossed(right, left, w) ==> CrossedAlike(right.name, left.name, w))
  }

  /** A comparison agrees if and only if neither operand is a member of a map with
      non-string keys that a stored key is spelled like, and a crossed pair is alike. The
      checker lets only equality compare enums, and so only equality be crossed. */
  lemma CompareAgreesExactly(op: Matcher.CmpOp, left: Expr, right: Expr, w: World)
    requires w.Consistent()
    requires Checker.TypeOf(left, w.declarations).Ok? && Checker.TypeOf(right, w.declarations).Ok?
    requires Transpiler.TranspileCompare(SqlOp(op), left, right, w.Transpiling()).Ok?
    requires Matcher.Compare(op, left, right, w.Matching()).Ok?
    requires Crossed(left, right, w) || Crossed(right, left, w) ==> op.Eq? || op.Ne?
    ensures Predicates.Eval(Transpiler.TranspileCompare(SqlOp(op), left, right, w.Transpiling()).value, w.row)
            == SqlTruth(Matcher.Compare(op, left, right, w.Matching()).value)
            <==> CompareInStep(left, right, w)
  {
    CompareShape(op, left, right, w);
    var l := Transpiler.Classify(left, w.Transpiling()).value;
    MirrorAgrees(op);
    if l.ColumnOperand? {
      ValueIsApart(right, w);
      if Crossed(left, right, w) {
        CrossedIsApart(left, w);
        CrossedAgrees(op, left, right, w);
      } else {
        OneSideAgrees(op, left, right, w);
      }
    } else {
      ValueIsApart(left, w);
      if Crossed(right, left, w) {
        CrossedIsApart(right, w);
        CrossedAgrees(op, right, left, w);
      } else {
        OneSideAgrees(op.Mirror(), right, left, w);
      }
    }
  }

  lemma CrossedIsApart(place: Expr, w: World)
    requires place.Ident?
    ensures KeyApart(place, w)
  {}

  /** Crossed, the matcher compares the field with the path's spelling and the database the
      column with the value's name. */
  lemma CrossedAgrees(op: Matcher.CmpOp, place: Expr, value: Expr, w: World)
    requires Crossed(place, value, w) && (op.Eq? || op.Ne?)
    requires Matcher.Classify(value, w.Matching()).Ok? && Matcher.Classify(value, w.Matching()).value.FieldSide?
    requires Matcher.EvalCompare(op, Matcher.Classify(value, w.Matching()).value.fieldValue, place, w.Matching()).Ok?
    ensures var column, read := Predicates.Plain(w.schema.columns[place.name]), Matcher.Classify(value, w.Matching()).value.fieldValue;
            Predicates.Eval(Predicates.Compare(column, SqlOp(op), Predicates.Text(value.name)), w.row)
            == SqlTruth(Matcher.EvalCompare(op, read, place, w.Matching()).value)
            <==> CrossedAlike(place.name, value.name, w)
  {
    var read := Matcher.Classify(value, w.Matching()).value.fieldValue;
    assert read == Matcher.ResolvePath(w.message, [value.name]).IntoField();
    if read.Present? {
      var lowered := Matcher.LowerField(read.field, read.value).value;
      LessTotal(lowered.text, place.name);
    }
  }

  /** `place op literal`, whichever side the place was written on. */
  lemma OneSideAgrees(op: Matcher.CmpOp, place: Expr, literal: Expr, w: World)
    requires Transpiler.Classify(place, w.Transpiling()).Ok? && Matcher.Classify(place, w.Matching()).Ok?
    requires Transpiler.Classify(literal, w.Transpiling()).Ok?
    requires Transpiler.Classify(place, w.Transpiling()).value.ColumnOperand?
    requires Transpiler.Classify(literal, w.Transpiling()).value.ValueOperand?
    requires Matcher.Classify(place, w.Matching()).value.FieldSide?
    requires Sides(place, Transpiler.Classify(place, w.Transpiling()).value, Matcher.Classify(place, w.Matching()).value, w)
    requires Matcher.EvalCompare(op, Matcher.Classify(place, w.Matching()).value.fieldValue, literal, w.Matching()).Ok?
    ensures var column := Transpiler.Classify(place, w.Transpiling()).value.column;
            var value := Transpiler.Classify(literal, w.Transpiling()).value.value;
            Predicates.Eval(Predicates.Compare(column, SqlOp(op), value), w.row)
            == SqlTruth(Matcher.EvalCompare(op, Matcher.Classify(place, w.Matching()).value.fieldValue, literal, w.Matching()).value)
            <==> KeyApart(place, w)
  {
    var column := Transpiler.Classify(place, w.Transpiling()).value.column;
    if KeyApart(place, w) {
      EvalCompareAgrees(op, Matcher.Classify(place, w.Matching()).value.fieldValue, literal, column, w);
    } else {
      ValueIsApart(literal, w);
      AbsentDiffers(op, literal, column, Transpiler.Classify(literal, w.Transpiling()).value.value, w);
    }
  }

  /** The has operand is not a string field under an unset submessage: there the matcher
      answers false where SQL answers NULL. */
  predicate HasOperandSet(left: Expr, w: World) {
    var name := QualifiedName(left);
    var segments := Matcher.Segments(left);
    name.Some? && segments.Some? && w.declarations.IdentType(name.value) == Some(Type.String)
    ==> !Matcher.ResolvePath(w.message, segments.value).Unset?
  }

  lemma ElementIsStored(items: seq<Value>, kind: Kind, arg: string)
    requires kind.String? && forall i :: 0 <= i < |items| ==> ScalarConforms(kind, items[i])
    ensures Sql.HasValue(FieldCell(Field(kind, Repeated), Value.List(items)), arg) <==> Value.Str(arg) in items
  {
    var cells := FieldCell(Field(kind, Repeated), Value.List(items)).items;
    assert forall i :: 0 <= i < |items| ==> cells[i] == Sql.Str(items[i].text);
    if Value.Str(arg) in items {
      var i :| 0 <= i < |items| && items[i] == Value.Str(arg);
      assert cells[i] == Sql.Str(arg);
    }
  }

  /** A has test on a present field of the declared type. */
  lemma HasTestAgrees(field: Field, value: Value, ty: Type, arg: string, test: Predicates.HasTest)
    requires FieldHasType(field, ty) && ValueConforms(field, value)
    requires (ty.String? && test == Predicates.Substring(arg))
             || (ty == Type.Map(Type.String, Type.String) && test == Predicates.Key(arg))
             || (ty == Type.List(Type.String) && test == Predicates.Element(arg))
             || (ty.Timestamp? && test == Predicates.Present)
    ensures Predicates.Tested(test, FieldCell(field, value))
         == Sql.Known(if field.cardinality.MapField? then value.Map? && StrKey(arg) in value.entries
                      else if field.cardinality.Repeated? then value.List? && Value.Str(arg) in value.items
                      else ty.Timestamp? || Matcher.Find(Lower(arg), Lower(if value.Str? then value.text else "")))
  {
    if ty.Map? {
      MemberIsStored(field, value, arg);
    } else if ty.List? {
      ElementIsStored(value.items, field.kind, arg);
    } else if ty.String? {
      assert Matcher.Find(Lower(arg), Lower(value.text)) <==> Contains(Lower(value.text), Lower(arg));
    }
  }

  lemma DefaultConforms(field: Field)
    requires !field.SingularMessage()
    ensures ValueConforms(field, Default(field))
  {}

  lemma {:induction false} FoundConforms(message: Message, segments: seq<string>)
    requires Conforms(message) && Matcher.ResolvePath(message, segments).Found?
    ensures var found := Matcher.ResolvePath(message, segments); ValueConforms(found.field, found.value)
    decreases |segments|
  {
    var head := segments[0];
    SubmessageConforms(message, head);
    if |segments| == 1 {
      if !message.Has(head) {
        DefaultConforms(message.Field(head).value);
      }
    } else {
      FoundConforms(message.Get(head).message, segments[1..]);
    }
  }

  /** A has operand that both sides accept is a plain path. */
  lemma {:induction false} HasPath(left: Expr, w: World)
    requires w.Consistent() && QualifiedName(left).Some? && QualifiedName(left).value in w.schema.columns
    requires Matcher.Classify(left, w.Matching()).Ok? && Matcher.Classify(left, w.Matching()).value.FieldSide?
    ensures Matcher.Segments(left).Some?
    ensures var resolved := Matcher.ResolvePath(w.message, Matcher.Segments(left).value);
            !resolved.NotAField? && Matcher.Classify(left, w.Matching()).value.fieldValue == resolved.IntoField()
  {
    QualifiedIsJoined(left);
    if left.Select? && Matcher.ResolvePath(w.message, Matcher.Segments(left).value).NotAField? {
      MapMemberIsNoPath(w.message, left.operand.name, left.field);
    }
  }

  predicate HasType(ty: Type) {
    ty in {Type.String, Type.Map(Type.String, Type.String), Type.List(Type.String), Type.Timestamp}
  }

  function TestFor(ty: Type, arg: string): Predicates.HasTest
    requires HasType(ty)
  {
    match ty
    case String => Predicates.Substring(arg)
    case Map(_, _) => Predicates.Key(arg)
    case List(_) => Predicates.Element(arg)
    case Timestamp => Predicates.Present
  }

  lemma TranspiledHas(left: Expr, arg: string, w: World, ty: Type)
    requires QualifiedName(left).Some? && QualifiedName(left).value in w.schema.columns
    requires w.declarations.IdentType(QualifiedName(left).value) == Some(ty) && HasType(ty)
    ensures Transpiler.TranspileHas(left, Const(Constant.Str(arg)), w.Transpiling())
         == Ok(Predicates.Has(w.schema.columns[QualifiedName(left).value], TestFor(ty, arg)))
  {}

  lemma MatchedHas(left: Expr, arg: string, w: World, field: Field, value: Value, ty: Type)
    requires Matcher.Classify(left, w.Matching()) == Ok(Matcher.FieldSide(Matcher.Present(field, value)))
    requires FieldHasType(field, ty) && HasType(ty) && ValueConforms(field, value)
    ensures Matcher.Has(left, Const(Constant.Str(arg)), w.Matching()).Ok?
    ensures SqlTruth(Matcher.Has(left, Const(Constant.Str(arg)), w.Matching()).value)
         == Predicates.Tested(TestFor(ty, arg), FieldCell(field, value))
  {
    HasTestAgrees(field, value, ty, arg, TestFor(ty, arg));
  }

  /** Over an unset submessage the matcher answers false; so does every test but LIKE. */
  lemma UnsetHas(ty: Type, arg: string)
    requires HasType(ty)
    ensures Predicates.Tested(TestFor(ty, arg), Sql.Null) == if ty.String? then Sql.Unknown else Sql.False
  {}

  lemma {:induction false} HasOnPath(left: Expr, arg: string, w: World, ty: Type)
    requires w.Consistent() && QualifiedName(left).Some? && QualifiedName(left).value in w.schema.columns
    requires w.declarations.IdentType(QualifiedName(left).value) == Some(ty) && HasType(ty)
    requires Matcher.Has(left, Const(Constant.Str(arg)), w.Matching()).Ok?
    ensures SqlTruth(Matcher.Has(left, Const(Constant.Str(arg)), w.Matching()).value)
            == Predicates.Tested(TestFor(ty, arg), w.row.Get(w.schema.columns[QualifiedName(left).value]))
            <==> HasOperandSet(left, w)
  {
    HasPath(left, w);
    ColumnHoldsPath(w, left);
    var resolved := Matcher.ResolvePath(w.message, Matcher.Segments(left).value);
    if resolved.Found? {
      FoundConforms(w.message, Matcher.Segments(left).value);
      MatchedHas(left, arg, w, resolved.field, resolved.value, ty);
    } else {
      UnsetHas(ty, arg);
    }
  }

  /** The leaf `:` agrees if and only if its operand is not a string under an unset
      submessage. The checker admits no other operand types. */
  lemma HasAgreesExactly(left: Expr, arg: string, w: World, ty: Type)
    requires w.Consistent() && QualifiedName(left).Some? && QualifiedName(left).value in w.schema.columns
    requires w.declarations.IdentType(QualifiedName(left).value) == Some(ty) && HasType(ty)
    requires Matcher.Has(left, Const(Constant.Str(arg)), w.Matching()).Ok?
    ensures var transpiled := Transpiler.TranspileHas(left, Const(Constant.Str(arg)), w.Transpiling());
            transpiled.Ok?
            && (Predicates.Eval(transpiled.value, w.row)
                == SqlTruth(Matcher.Has(left, Const(Constant.Str(arg)), w.Matching()).value)
                <==> HasOperandSet(left, w))
  {
    TranspiledHas(left, arg, w, ty);
    HasOnPath(left, arg, w, ty);
    EvalHas(w.schema.columns[QualifiedName(left).value], TestFor(ty, arg), w.row);
  }

  lemma EvalHas(column: string, test: Predicates.HasTest, row: Sql.Row)
    ensures Predicates.Eval(Predicates.Has(column, test), row) == Predicates.Tested(test, row.Get(column))
  {}

  /** The checker lets `:` apply to exactly four operand types. */
  lemma HasTypes(args: seq<Expr>, declarations: Declarations)
    requires Standard(declarations) && |args| == 2 && Checker.TypeOf(Call(HAS, args), declarations).Ok?
    requires QualifiedName(args[0]).Some? && QualifiedName(args[0]).value in declarations.idents
    ensures HasType(declarations.idents[QualifiedName(args[0]).value])
  {
    Checker.CheckedCall(HAS, args, declarations);
    Checker.CheckedPair(args, declarations);
    var types := Checker.TypesOf(args, declarations).value;
    assert types[0] == declarations.idents[QualifiedName(args[0]).value];
    var overload := Overload(Checker.TypeOf(Call(HAS, args), declarations).value, types);
    assert overload in StandardOverloads(HAS);
  }

  // ----- whole filters -----

  /** No leaf of the filter reads a place where memory and database part: no `:` a string
      under an unset submessage, no comparison a non-string key or a crossed pair. */
  ghost predicate InStep(expr: Expr, w: World) {
    match expr
    case Call(name, args) =>
      if (name == AND || name == OR) && |args| == 2 then InStep(args[0], w) && InStep(args[1], w)
      else if name == NOT && |args| == 1 then InStep(args[0], w)
      else if name == HAS && |args| == 2 then HasOperandSet(args[0], w)
      else if Matcher.Comparison(name).Some? && |args| == 2 then CompareInStep(args[0], args[1], w)
      else true
    case _ => true
  }

  lemma ConnectivesAgree(l: Matcher.Truth, r: Matcher.Truth)
    ensures SqlTruth(Matcher.And(l, r)) == Sql.Both(SqlTruth(l), SqlTruth(r))
    ensures SqlTruth(Matcher.Or(l, r)) == Sql.Either(SqlTruth(l), SqlTruth(r))
    ensures SqlTruth(Matcher.Not(l)) == Sql.Negate(SqlTruth(l))
  {}

  lemma PairMeans(a: Predicates.Predicate, b: Predicates.Predicate, row: Sql.Row)
    ensures Predicates.Eval(Predicates.All([a, b]), row) == Sql.Both(Predicates.Eval(a, row), Predicates.Eval(b, row))
    ensures Predicates.Eval(Predicates.Any([a, b]), row) == Sql.Either(Predicates.Eval(a, row), Predicates.Eval(b, row))
  {
    assert [a, b][1..] == [b] && [b][1..] == [];
    assert Predicates.EvalAll([b], row) == Sql.Both(Predicates.Eval(b, row), Predicates.EvalAll([], row));
    assert Predicates.EvalAny([b], row) == Sql.Either(Predicates.Eval(b, row), Predicates.EvalAny([], row));
    assert Predicates.EvalAll([a, b], row) == Sql.Both(Predicates.Eval(a, row), Predicates.EvalAll([b], row));
    assert Predicates.EvalAny([a, b], row) == Sql.Either(Predicates.Eval(a, row), Predicates.EvalAny([b], row));
  }

  lemma ComparisonsAgree(name: string)
    ensures Transpiler.Comparison(name).Some? <==> Matcher.Comparison(name).Some?
    ensures Matcher.Comparison(name).Some? ==> Transpiler.Comparison(name).value == SqlOp(Matcher.Comparison(name).value)
    ensures name in {AND, OR, NOT, HAS} ==> Matcher.Comparison(name).None?
  {}

  lemma OneArgument(args: seq<Expr>, declarations: Declarations)
    requires |args| == 1 && Checker.TypesOf(args, declarations).Ok?
    ensures Checker.TypeOf(args[0], declarations).Ok?
  {}

  /** The checker compares enums for equality only. */
  lemma EnumsAreEquated(name: string, overload: Overload)
    requires Matcher.Comparison(name).Some? && Allowed(name, overload) && |overload.params| == 2
    requires overload.params[0].Enum? || overload.params[1].Enum?
    ensures (name == EQUALS || name == NOT_EQUALS) && overload.params[0] == overload.params[1] && overload.result.Bool?
  {
    if overload in StandardOverloads(name) {
      var params := if name == EQUALS || name == NOT_EQUALS then [[Type.Bool, Type.Bool]] + ORDERED else ORDERED;
      InOverBool(params, overload);
      NoEnumOrdered();
    }
  }

  lemma InOverBool(params: seq<seq<Type>>, overload: Overload)
    requires overload in OverBool(params)
    ensures overload.result.Bool? && overload.params in params
  {}

  lemma NoEnumOrdered()
    ensures forall params: seq<Type> :: params in [[Type.Bool, Type.Bool]] + ORDERED || params in ORDERED ==>
              |params| == 2 && !params[0].Enum? && !params[1].Enum?
  {}

  lemma CrossedIsEquality(name: string, args: seq<Expr>, w: World)
    requires w.Consistent() && |args| == 2 && Checker.TypeOf(Call(name, args), w.declarations).Ok?
    requires Matcher.Comparison(name).Some?
    requires Transpiler.Classify(args[0], w.Transpiling()).Ok? && Transpiler.Classify(args[1], w.Transpiling()).Ok?
    ensures Crossed(args[0], args[1], w) || Crossed(args[1], args[0], w) ==> name == EQUALS || name == NOT_EQUALS
  {
    if Crossed(args[0], args[1], w) || Crossed(args[1], args[0], w) {
      Checker.CheckedCall(name, args, w.declarations);
      Checker.CheckedPair(args, w.declarations);
      EnumsAreEquated(name, Overload(Checker.TypeOf(Call(name, args), w.declarations).value,
                                     Checker.TypesOf(args, w.declarations).value));
    }
  }

  /** A checked filter has the same truth in memory and, once transpiled, on the stored
      row, for any nesting of AND, OR and NOT. */
  lemma {:induction false} FilterAgrees(expr: Expr, w: World)
    requires w.Consistent() && Checker.TypeOf(expr, w.declarations).Ok? && InStep(expr, w)
    requires Transpiler.Transpile(expr, w.Transpiling()).Ok? && Matcher.Eval(expr, w.Matching()).Ok?
    ensures Predicates.Eval(Transpiler.Transpile(expr, w.Transpiling()).value, w.row)
         == SqlTruth(Matcher.Eval(expr, w.Matching()).value)
  {
    var name, args := expr.name, expr.args;
    ComparisonsAgree(name);
    if |args| == 1 {
      OneArgument(args, w.declarations);
      FilterAgrees(args[0], w);
      ConnectivesAgree(Matcher.Eval(args[0], w.Matching()).value, Matcher.True);
    } else {
      Checker.CheckedPair(args, w.declarations);
      if name == AND || name == OR {
        FilterAgrees(args[0], w);
        FilterAgrees(args[1], w);
        ConnectivesAgree(Matcher.Eval(args[0], w.Matching()).value, Matcher.Eval(args[1], w.Matching()).value);
        PairMeans(Transpiler.Transpile(args[0], w.Transpiling()).value, Transpiler.Transpile(args[1], w.Transpiling()).value, w.row);
      } else if name == HAS {
        HasLeafAgrees(args, w);
      } else {
        CrossedIsEquality(name, args, w);
        CompareAgreesExactly(Matcher.Comparison(name).value, args[0], args[1], w);
      }
    }
  }

  lemma HasLeafAgrees(args: seq<Expr>, w: World)
    requires w.Consistent() && |args| == 2 && Checker.TypeOf(Call(HAS, args), w.declarations).Ok?
    requires HasOperandSet(args[0], w)
    requires Transpiler.TranspileHas(args[0], args[1], w.Transpiling()).Ok?
    requires Matcher.Has(args[0], args[1], w.Matching()).Ok?
    ensures Predicates.Eval(Transpiler.TranspileHas(args[0], args[1], w.Transpiling()).value, w.row)
         == SqlTruth(Matcher.Has(args[0], args[1], w.Matching()).value)
  {
    HasTypes(args, w.declarations);
    var arg := args[1].constant.text;
    assert args[1] == Const(Constant.Str(arg));
    HasAgreesExactly(args[0], arg, w, w.declarations.idents[QualifiedName(args[0]).value]);
  }
}

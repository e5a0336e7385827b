/** Deriving declarations and the column schema from a message descriptor, so that the
    checker, the transpiler and the message agree by construction. */
module DeclarationsBuilding {
  import opened Wrappers
  import opened Text
  import opened Filters
  import opened Messages

  datatype Error = UnknownField(path: string) | UnfilterableField(path: string) | NoDescriptor

  /** Message descriptors by full name. */
  type Pool = map<string, Descriptor>

  datatype Resolved = Scalar(ty: Type) | EnumOf(enumType: EnumType)

  function KeyType(key: KeyKind): Type {
    match key
    case StringKey => Type.String
    case IntKey => Type.Int
    case UintKey => Type.Uint
    case BoolKey => Type.Bool
  }

  /** The filter type of an element kind; bytes, enums and other messages have none. */
  function KindToType(kind: Kind): Option<Type> {
    match kind
    case Float => Some(Type.Double)
    case Int => Some(Type.Int)
    case Uint => Some(Type.Uint)
    case Bool => Some(Type.Bool)
    case String => Some(Type.String)
    case Message(fullName) => if fullName == TIMESTAMP_NAME then Some(Type.Timestamp) else None
    case _ => None
  }

  function ResolveLeaf(field: Field, path: string): Result<Resolved, Error> {
    if field.cardinality.Singular? && field.kind.Enum? then Ok(EnumOf(field.kind.ty))
    else
      match KindToType(field.kind)
      case None => Err(UnfilterableField(path))
      case Some(ty) =>
        Ok(Scalar(match field.cardinality
                  case MapField(key) => Type.Map(KeyType(key), ty)
                  case Repeated => Type.List(ty)
                  case Singular => ty))
  }

  /** The field a path names, descending through singular message fields only. */
  function FieldAt(pool: Pool, descriptor: Descriptor, segments: seq<string>): Option<Field>
    decreases |segments|
  {
    if segments == [] || segments[0] !in descriptor.fields then None
    else
      var field := descriptor.fields[segments[0]];
      if |segments| == 1 then Some(field)
      else if field.SingularMessage() && field.kind.fullName in pool then
        FieldAt(pool, pool[field.kind.fullName], segments[1..])
      else None
  }

  function ResolvePath(pool: Pool, descriptor: Descriptor, path: string): Result<Resolved, Error> {
    match FieldAt(pool, descriptor, Split(path, '.'))
    case Some(field) => ResolveLeaf(field, path)
    case None => Err(UnknownField(path))
  }

  // ----- what each builder step does to the declarations -----

  function DeclareIdent(d: Declarations, name: string, ty: Type): Declarations {
    Declarations(d.idents[name := ty], d.functions, if name in d.fieldPaths then d.fieldPaths else d.fieldPaths + [name])
  }

  function DeclareFunction(d: Declarations, name: string, overloads: seq<Overload>): Declarations {
    d.(functions := d.functions[name := (if name in d.functions then d.functions[name] else []) + overloads])
  }

  function DeclareStandard(d: Declarations, names: seq<string>): Declarations
    decreases |names|
  {
    if names == [] then d else DeclareStandard(DeclareFunction(d, names[0], StandardOverloads(names[0])), names[1..])
  }

  /** An enum declares its path, its comparison overloads and its value names; a value name
      is an identifier but no field path. */
  function DeclareEnum(d: Declarations, name: string, ty: EnumType): Declarations {
    var e := Type.Enum(ty.fullName);
    var overloads := [EnumOverload(ty.fullName)];
    var declared := DeclareFunction(DeclareFunction(DeclareIdent(d, name, e), EQUALS, overloads), NOT_EQUALS, overloads);
    declared.(idents := declared.idents + map value | value in ty.names.Values :: e)
  }

  function DeclareField(d: Declarations, path: string, resolved: Resolved): Declarations {
    match resolved
    case Scalar(ty) => DeclareIdent(d, path, ty)
    case EnumOf(ty) => DeclareEnum(d, path, ty)
  }

  /** Deriving stops at the first path that fails. */
  function DeclareFields(d: Declarations, pool: Pool, descriptor: Descriptor, paths: seq<string>): Result<Declarations, Error>
    decreases |paths|
  {
    if paths == [] then Ok(d)
    else
      var resolved :- ResolvePath(pool, descriptor, paths[0]);
      DeclareFields(DeclareField(d, paths[0], resolved), pool, descriptor, paths[1..])
  }

  /** Without a descriptor no path can be derived. */
  function DeclarePaths(d: Declarations, pool: Pool, descriptor: Option<Descriptor>, paths: seq<string>):
    Result<Declarations, Error>
  {
    if descriptor.Some? then DeclareFields(d, pool, descriptor.value, paths)
    else if paths == [] then Ok(d)
    else Err(NoDescriptor)
  }

  const EMPTY := Declarations(map[], map[], [])

  /** The standard functions plus the derived fields of a message. */
  function Derived(pool: Pool, descriptor: Descriptor, paths: seq<string>): Result<Declarations, Error> {
    DeclareFields(DeclareStandard(EMPTY, STANDARD_NAMES), pool, descriptor, paths)
  }

  class DeclarationsBuilder {
    var idents: map<string, Type>
    var functions: map<string, seq<Overload>>
    var fieldPaths: seq<string>
    var descriptor: Option<Descriptor>
    var deferred: Option<Error>

    /** The declarations built so far. */
    function Declared(): Declarations
      reads this
    {
      Declarations(idents, functions, fieldPaths)
    }

    constructor ()
      ensures Declared() == EMPTY && descriptor == None && deferred == None
    {
      idents, functions, fieldPaths := map[], map[], [];
      descriptor, deferred := None, None;
    }

    constructor ForMessage(d: Descriptor)
      ensures Declared() == EMPTY && descriptor == Some(d) && deferred == None
    {
      idents, functions, fieldPaths := map[], map[], [];
      descriptor, deferred := Some(d), None;
    }

    method Function(name: string, overloads: seq<Overload>)
      modifies this`functions
      ensures Declared() == DeclareFunction(old(Declared()), name, overloads)
    {
      var declared := if name in functions then functions[name] else [];
      functions := functions[name := declared + overloads];
    }

    method StandardFunctions()
      modifies this`functions
      ensures Declared() == DeclareStandard(old(Declared()), STANDARD_NAMES)
    {
      for i := 0 to |STANDARD_NAMES|
        invariant idents == old(idents) && fieldPaths == old(fieldPaths)
        invariant DeclareStandard(Declared(), STANDARD_NAMES[i..]) == DeclareStandard(old(Declared()), STANDARD_NAMES)
      {
        assert STANDARD_NAMES[i..][0] == STANDARD_NAMES[i] && STANDARD_NAMES[i..][1..] == STANDARD_NAMES[i + 1..];
        Function(STANDARD_NAMES[i], StandardOverloads(STANDARD_NAMES[i]));
      }
      assert STANDARD_NAMES[|STANDARD_NAMES|..] == [];
    }

    method Ident(name: string, ty: Type)
      modifies this`idents, this`fieldPaths
      ensures Declared() == DeclareIdent(old(Declared()), name, ty)
    {
      idents := idents[name := ty];
      if name !in fieldPaths {
        fieldPaths := fieldPaths + [name];
      }
    }

    method EnumIdent(name: string, ty: EnumType)
      modifies this`idents, this`fieldPaths, this`functions
      ensures Declared() == DeclareEnum(old(Declared()), name, ty)
    {
      var e := Type.Enum(ty.fullName);
      Ident(name, e);
      Function(EQUALS, [EnumOverload(ty.fullName)]);
      Function(NOT_EQUALS, [EnumOverload(ty.fullName)]);
      DeclareValues(ty.names.Values, e);
    }

    /** Every value name is an identifier of the enum's type. */
    method DeclareValues(names: set<string>, ty: Type)
      modifies this`idents
      ensures idents == old(idents) + map value | value in names :: ty
    {
      var rest := names;
      while rest != {}
        invariant rest <= names && idents == old(idents) + map value | value in names - rest :: ty
        decreases |rest|
      {
        var value :| value in rest;
        idents := idents[value := ty];
        rest := rest - {value};
      }
      assert names - {} == names;
    }

    /** Derive one identifier per path, stopping at the first failure; an earlier failure
        stands and derives nothing more. */
    method Fields(pool: Pool, paths: seq<string>)
      modifies this`idents, this`fieldPaths, this`functions, this`deferred
      ensures old(deferred).Some? ==> deferred == old(deferred) && Declared() == old(Declared())
      ensures old(deferred).None? ==>
                match DeclarePaths(old(Declared()), pool, descriptor, paths)
                case Ok(declared) => deferred.None? && Declared() == declared
                case Err(error) => deferred == Some(error)
    {
      for i := 0 to |paths|
        invariant old(deferred).Some? ==> i == 0 && deferred == old(deferred) && Declared() == old(Declared())
        invariant old(deferred).None? ==>
                    deferred.None?
                    && DeclarePaths(Declared(), pool, descriptor, paths[i..])
                       == DeclarePaths(old(Declared()), pool, descriptor, paths)
      {
        if deferred.Some? {
          return;
        }
        if descriptor.None? {
          deferred := Some(NoDescriptor);
          return;
        }
        assert paths[i..][0] == paths[i] && paths[i..][1..] == paths[i + 1..];
        match ResolvePath(pool, descriptor.value, paths[i])
        case Ok(Scalar(ty)) => Ident(paths[i], ty);
        case Ok(EnumOf(ty)) => EnumIdent(paths[i], ty);
        case Err(error) =>
          deferred := Some(error);
          return;
      }
      assert paths[|paths|..] == [];
    }

    /** The declarations, unless deriving a field failed. */
    method TryBuild() returns (r: Result<Declarations, Error>)
      ensures r == if deferred.Some? then Err(deferred.value) else Ok(Declared())
    {
      return if deferred.Some? then Err(deferred.value) else Ok(Declarations(idents, functions, fieldPaths));
    }
  }

  /** The whole derivation on a fresh builder: the declarations of the specification, or its
      first error. */
  method Derive(descriptor: Descriptor, pool: Pool, paths: seq<string>) returns (r: Result<Declarations, Error>)
    ensures r == Derived(pool, descriptor, paths)
  {
    var builder := new DeclarationsBuilder.ForMessage(descriptor);
    builder.StandardFunctions();
    builder.Fields(pool, paths);
    r := builder.TryBuild();
  }
}

/** The column schema derived from declarations. */
module SchemaBuilding {
  import opened Filters
  import opened Schemas

  predicate SortableType(ty: Type) {
    ty.String? || ty.Int? || ty.Uint? || ty.Double? || ty.Bool? || ty.Timestamp?
  }

  /** The columns of the schema derived from declarations. */
  function DerivedColumns(declarations: Declarations): map<string, string> {
    map path | path in declarations.fieldPaths :: path
  }

  /** The builder's maps cover the first `n` declared paths. */
  ghost predicate Seeded(columns: map<string, string>, types: map<string, Type>, sortable: set<string>,
                         declarations: Declarations, n: nat)
    requires n <= |declarations.fieldPaths|
    requires forall path :: path in declarations.fieldPaths ==> path in declarations.idents
  {
    columns == (map path | path in declarations.fieldPaths[..n] :: path)
    && types == (map path | path in declarations.fieldPaths[..n] :: declarations.idents[path])
    && sortable == set path | path in declarations.fieldPaths[..n] && SortableType(declarations.idents[path])
  }

  lemma SeedOne(columns: map<string, string>, types: map<string, Type>, sortable: set<string>,
                declarations: Declarations, n: nat)
    requires n < |declarations.fieldPaths|
    requires forall path :: path in declarations.fieldPaths ==> path in declarations.idents
    requires Seeded(columns, types, sortable, declarations, n)
    ensures var path := declarations.fieldPaths[n];
            Seeded(columns[path := path], types[path := declarations.idents[path]],
                   if SortableType(declarations.idents[path]) then sortable + {path} else sortable, declarations, n + 1)
  {
    var paths := declarations.fieldPaths;
    assert paths[..n + 1] == paths[..n] + [paths[n]];
    assert forall path :: path in paths[..n + 1] <==> path in paths[..n] || path == paths[n];
  }

  class SchemaBuilder {
    var columns: map<string, string>
    var sortable: set<string>
    var types: map<string, Type>

    /** One column per declared field path, named after it, sortable by type. */
    constructor ForDeclarations(declarations: Declarations)
      requires forall path :: path in declarations.fieldPaths ==> path in declarations.idents
      ensures columns == DerivedColumns(declarations)
      ensures types == map path | path in declarations.fieldPaths :: declarations.idents[path]
      ensures sortable == set path | path in declarations.fieldPaths && SortableType(declarations.idents[path])
    {
      columns, sortable, types := map[], {}, map[];
      new;
      for i := 0 to |declarations.fieldPaths|
        invariant Seeded(columns, types, sortable, declarations, i)
      {
        var path := declarations.fieldPaths[i];
        SeedOne(columns, types, sortable, declarations, i);
        columns := columns[path := path];
        types := types[path := declarations.idents[path]];
        if SortableType(declarations.idents[path]) {
          sortable := sortable + {path};
        }
      }
      assert declarations.fieldPaths[..|declarations.fieldPaths|] == declarations.fieldPaths;
    }

    /** Map an identifier to a column, filterable and sortable; renames a derived one. */
    method Column(identifier: string, column: string)
      modifies this`columns, this`sortable
      ensures columns == old(columns)[identifier := column] && sortable == old(sortable) + {identifier}
    {
      columns := columns[identifier := column];
      sortable := sortable + {identifier};
    }

    /** Re-key the declared types onto their columns. */
    method Build() returns (schema: Schema)
      ensures schema.columns == columns && schema.sortable == sortable
      ensures forall path :: path in columns && path in types ==> columns[path] in schema.types
      ensures forall column :: column in schema.types ==>
                exists path :: path in columns && path in types && columns[path] == column && schema.types[column] == types[path]
    {
      var byColumn: map<string, Type> := map[];
      var rest := columns.Keys;
      while rest != {}
        invariant rest <= columns.Keys
        invariant forall path :: path in columns && path !in rest && path in types ==> columns[path] in byColumn
        invariant forall column :: column in byColumn ==>
                    exists path :: path in columns && path in types && columns[path] == column && byColumn[column] == types[path]
        decreases |rest|
      {
        var path :| path in rest;
        rest := rest - {path};
        if path in types {
          byColumn := byColumn[columns[path] := types[path]];
        }
      }
      schema := Schema(columns, sortable, byColumn);
    }
  }
}

/** Derived declarations and schema are coherent with every message of the descriptor. */
module Derivation {
  import opened Wrappers
  import opened Text
  import opened Filters
  import opened Messages
  import opened Schemas
  import opened Agreement
  import opened DeclarationsBuilding
  import opened SchemaBuilding
  import Checker
  import Divergence
  import Matcher
  import Soundness
  import Sql
  import Storage
  import Transpiler

  /** The message and everything below it are of the pool's types. */
  ghost predicate Typed(pool: Pool, message: Message)
    decreases message
  {
    forall name ::
      (name in message.values && name in message.descriptor.fields
       && message.descriptor.fields[name].SingularMessage()) ==>
      message.values[name].Msg?
      && message.descriptor.fields[name].kind.fullName in pool
      && message.values[name].message.descriptor == pool[message.descriptor.fields[name].kind.fullName]
      && Typed(pool, message.values[name].message)
  }

  /** A field path of the descriptor resolves in the message, to the same field if set. */
  lemma {:induction false} FieldResolves(pool: Pool, message: Message, segments: seq<string>)
    requires Conforms(message) && Typed(pool, message) && FieldAt(pool, message.descriptor, segments).Some?
    ensures var resolved := Matcher.ResolvePath(message, segments);
            !resolved.NotAField?
            && (resolved.Found? ==> resolved.field == FieldAt(pool, message.descriptor, segments).value)
    decreases |segments|
  {
    if |segments| > 1 && message.Has(segments[0]) {
      SubmessageConforms(message, segments[0]);
      FieldResolves(pool, message.Get(segments[0]).message, segments[1..]);
    }
  }

  /** What the builder keeps: allowed overloads, and every identifier either a field path,
      typed unless an enum value name took its declaration over, or an enum value name. */
  ghost predicate Sound(d: Declarations, pool: Pool, descriptor: Descriptor) {
    Standard(d)
    && (forall path :: path in d.fieldPaths ==>
          path in d.idents && FieldAt(pool, descriptor, Split(path, '.')).Some?
          && (d.idents[path].Enum? || FieldHasType(FieldAt(pool, descriptor, Split(path, '.')).value, d.idents[path])))
    && (forall name :: name in d.idents ==> name in d.fieldPaths || (d.idents[name].Enum? && '.' !in name))
  }

  /** Enum value names are identifiers and hold no dot. They may be named like fields. */
  ghost predicate PlainValues(ty: EnumType) {
    forall value :: value in ty.names.Values ==> '.' !in value
  }

  lemma LeafHasType(field: Field, path: string)
    requires ResolveLeaf(field, path).Ok?
    ensures match ResolveLeaf(field, path).value
            case Scalar(ty) => FieldHasType(field, ty)
            case EnumOf(ty) => FieldHasType(field, Type.Enum(ty.fullName))
  {}

  lemma FunctionKeepsStandard(d: Declarations, name: string, overloads: seq<Overload>)
    requires Standard(d) && forall overload :: overload in overloads ==> Allowed(name, overload)
    ensures Standard(DeclareFunction(d, name, overloads))
  {}

  lemma IdentKeepsSound(d: Declarations, pool: Pool, descriptor: Descriptor, path: string, ty: Type)
    requires Sound(d, pool, descriptor)
    requires FieldAt(pool, descriptor, Split(path, '.')).Some?
    requires FieldHasType(FieldAt(pool, descriptor, Split(path, '.')).value, ty)
    ensures Sound(DeclareIdent(d, path, ty), pool, descriptor)
  {}

  lemma {:induction false} EnumKeepsSound(d: Declarations, pool: Pool, descriptor: Descriptor, path: string, ty: EnumType)
    requires Sound(d, pool, descriptor) && PlainValues(ty)
    requires FieldAt(pool, descriptor, Split(path, '.')).Some?
    requires FieldHasType(FieldAt(pool, descriptor, Split(path, '.')).value, Type.Enum(ty.fullName))
    ensures Sound(DeclareEnum(d, path, ty), pool, descriptor)
  {
    var e := Type.Enum(ty.fullName);
    var overloads := [EnumOverload(ty.fullName)];
    var named := DeclareIdent(d, path, e);
    IdentKeepsSound(d, pool, descriptor, path, e);
    FunctionKeepsStandard(named, EQUALS, overloads);
    FunctionKeepsStandard(DeclareFunction(named, EQUALS, overloads), NOT_EQUALS, overloads);
  }

  /** The enums among the derived paths have plain value names. */
  ghost predicate PlainEnums(pool: Pool, descriptor: Descriptor, paths: seq<string>) {
    forall i ::
      (0 <= i < |paths| && ResolvePath(pool, descriptor, paths[i]).Ok?
       && ResolvePath(pool, descriptor, paths[i]).value.EnumOf?) ==>
      PlainValues(ResolvePath(pool, descriptor, paths[i]).value.enumType)
  }

  lemma {:induction false} FieldsKeepSound(d: Declarations, pool: Pool, descriptor: Descriptor, paths: seq<string>)
    requires Sound(d, pool, descriptor) && PlainEnums(pool, descriptor, paths)
    requires DeclareFields(d, pool, descriptor, paths).Ok?
    ensures Sound(DeclareFields(d, pool, descriptor, paths).value, pool, descriptor)
    decreases |paths|
  {
    if paths != [] {
      var field := FieldAt(pool, descriptor, Split(paths[0], '.')).value;
      var resolved := ResolvePath(pool, descriptor, paths[0]).value;
      LeafHasType(field, paths[0]);
      match resolved {
        case Scalar(ty) => IdentKeepsSound(d, pool, descriptor, paths[0], ty);
        case EnumOf(ty) => EnumKeepsSound(d, pool, descriptor, paths[0], ty);
      }
      FieldsKeepSound(DeclareField(d, paths[0], resolved), pool, descriptor, paths[1..]);
    }
  }

  lemma {:induction false} StandardIsSound(d: Declarations, names: seq<string>, pool: Pool, descriptor: Descriptor)
    requires Sound(d, pool, descriptor)
    ensures Sound(DeclareStandard(d, names), pool, descriptor)
    decreases |names|
  {
    if names != [] {
      FunctionKeepsStandard(d, names[0], StandardOverloads(names[0]));
      StandardIsSound(DeclareFunction(d, names[0], StandardOverloads(names[0])), names[1..], pool, descriptor);
    }
  }

  /** Declarations and schema derived from one descriptor are coherent with every message
      of it, whatever paths are declared. */
  lemma DerivedIsCoherent(pool: Pool, descriptor: Descriptor, paths: seq<string>, schema: Schema, message: Message)
    requires Derived(pool, descriptor, paths).Ok? && PlainEnums(pool, descriptor, paths)
    requires schema.columns == DerivedColumns(Derived(pool, descriptor, paths).value)
    requires message.descriptor == descriptor && Conforms(message) && Typed(pool, message)
    ensures Standard(Derived(pool, descriptor, paths).value)
    ensures Coherent(Derived(pool, descriptor, paths).value, schema, message)
  {
    var d := Derived(pool, descriptor, paths).value;
    StandardIsSound(EMPTY, STANDARD_NAMES, pool, descriptor);
    FieldsKeepSound(DeclareStandard(EMPTY, STANDARD_NAMES), pool, descriptor, paths);
    forall path | path in schema.columns
      ensures var resolved := Matcher.ResolvePath(message, Split(path, '.'));
              !resolved.NotAField? && (resolved.Found? && !d.idents[path].Enum? ==> FieldHasType(resolved.field, d.idents[path]))
    {
      FieldResolves(pool, message, Split(path, '.'));
    }
  }

  lemma DerivedIsConsistent(pool: Pool, paths: seq<string>, w: World)
    requires Derived(pool, w.message.descriptor, paths) == Ok(w.declarations)
    requires PlainEnums(pool, w.message.descriptor, paths)
    requires w.schema.columns == DerivedColumns(w.declarations)
    requires Conforms(w.message) && Typed(pool, w.message) && Storage.Stores(w.row, w.schema, w.message)
    ensures w.Consistent()
  {
    DerivedIsCoherent(pool, w.message.descriptor, paths, w.schema, w.message);
  }

  /** Renaming a derived column keeps coherence: only the paths matter to it. */
  lemma RenameKeepsCoherence(d: Declarations, schema: Schema, message: Message, path: string, column: string)
    requires Coherent(d, schema, message) && path in schema.columns
    ensures Coherent(d, schema.(columns := schema.columns[path := column]), message)
  {}

  /** The whole chain from a descriptor: declarations and schema derived, filter checked,
      transpiled, rendered, read back and run on the stored row, for any message of the
      descriptor; the database's truth is the matcher's. */
  lemma {:induction false} DerivedFilterRunsAsMatched(pool: Pool, paths: seq<string>, w: World, expr: Expr)
    requires Derived(pool, w.message.descriptor, paths) == Ok(w.declarations)
    requires PlainEnums(pool, w.message.descriptor, paths)
    requires w.schema.columns == DerivedColumns(w.declarations)
    requires Conforms(w.message) && Typed(pool, w.message) && Storage.Stores(w.row, w.schema, w.message)
    requires Checker.Check(expr, w.declarations) && Transpiler.Transpile(expr, w.Transpiling()).Ok?
    ensures Matcher.Eval(expr, w.Matching()).Ok? <==> Soundness.Evaluable(expr, w)
    ensures Soundness.Evaluable(expr, w) && InStep(expr, w) ==>
              Soundness.Queried(Transpiler.Transpile(expr, w.Transpiling()).value, w.row)
              == Some(SqlTruth(Matcher.Eval(expr, w.Matching()).value))
  {
    DerivedIsConsistent(pool, paths, w);
    Soundness.CheckedFilterRunsAsMatched(expr, w);
  }

  // ----- the standard functions stay declared -----

  /** The function is declared with all its standard overloads. */
  ghost predicate Offers(d: Declarations, name: string) {
    forall overload :: overload in StandardOverloads(name) ==> name in d.functions && overload in d.functions[name]
  }

  lemma FunctionOffers(d: Declarations, name: string, overloads: seq<Overload>, other: string)
    requires Offers(d, other) || (name == other && overloads == StandardOverloads(name))
    ensures Offers(DeclareFunction(d, name, overloads), other)
  {}

  lemma FieldOffers(d: Declarations, path: string, resolved: Resolved, other: string)
    requires Offers(d, other)
    ensures Offers(DeclareField(d, path, resolved), other)
  {
    if resolved.EnumOf? {
      var overloads := [EnumOverload(resolved.enumType.fullName)];
      var named := DeclareIdent(d, path, Type.Enum(resolved.enumType.fullName));
      FunctionOffers(named, EQUALS, overloads, other);
      FunctionOffers(DeclareFunction(named, EQUALS, overloads), NOT_EQUALS, overloads, other);
    }
  }

  lemma {:induction false} FieldsOffer(d: Declarations, pool: Pool, descriptor: Descriptor, paths: seq<string>, other: string)
    requires Offers(d, other) && DeclareFields(d, pool, descriptor, paths).Ok?
    ensures Offers(DeclareFields(d, pool, descriptor, paths).value, other)
    decreases |paths|
  {
    if paths != [] {
      var resolved := ResolvePath(pool, descriptor, paths[0]).value;
      FieldOffers(d, paths[0], resolved, other);
      FieldsOffer(DeclareField(d, paths[0], resolved), pool, descriptor, paths[1..], other);
    }
  }

  lemma {:induction false} StandardOffers(d: Declarations, names: seq<string>, other: string)
    requires Offers(d, other) || other in names
    ensures Offers(DeclareStandard(d, names), other)
    decreases |names|
  {
    if names != [] {
      var declared := DeclareFunction(d, names[0], StandardOverloads(names[0]));
      if Offers(d, other) || other == names[0] {
        FunctionOffers(d, names[0], StandardOverloads(names[0]), other);
      }
      StandardOffers(declared, names[1..], other);
    }
  }

  lemma DerivedDeclaresStandard(pool: Pool, descriptor: Descriptor, paths: seq<string>)
    requires Derived(pool, descriptor, paths).Ok?
    ensures Divergence.StandardDeclared(Derived(pool, descriptor, paths).value)
  {
    var d := Derived(pool, descriptor, paths).value;
    forall name, overload | overload in StandardOverloads(name) ensures name in d.functions && overload in d.functions[name] {
      Divergence.Listed(name);
      StandardOffers(EMPTY, STANDARD_NAMES, name);
      FieldsOffer(DeclareStandard(EMPTY, STANDARD_NAMES), pool, descriptor, paths, name);
      assert Offers(d, name);
    }
  }

  /** With derived declarations and schema every checked filter selects the same messages in
      memory and in the database if and only if no declared string lies under an unset
      submessage, no comparable map with non-string keys holds an entry, and every path and
      enum value read crosswise read alike. */
  lemma DerivedSelectionAgreesExactly(pool: Pool, paths: seq<string>, w: World)
    requires Derived(pool, w.message.descriptor, paths) == Ok(w.declarations)
    requires PlainEnums(pool, w.message.descriptor, paths)
    requires w.schema.columns == DerivedColumns(w.declarations)
    requires Conforms(w.message) && Typed(pool, w.message) && Storage.Stores(w.row, w.schema, w.message)
    ensures (forall expr :: Divergence.Admitted(expr, w) ==> Divergence.SameSelection(expr, w))
            <==> Divergence.StringsSet(w) && Divergence.KeysReadable(w) && Divergence.CrossingsAlike(w)
  {
    DerivedIsConsistent(pool, paths, w);
    DerivedDeclaresStandard(pool, w.message.descriptor, paths);
    Divergence.SelectionAgreesExactly(w);
  }

  // ----- a host whose enum has a value named like its number -----

  function HostState(number: string, active: string): EnumType {
    EnumType("State", map[0 := active, 1 := number])
  }

  function HostDescriptor(state: string, number: string, active: string): Descriptor {
    Descriptor("Host", map[state := Field(Kind.Enum(HostState(number, active)), Singular), number := Field(Kind.Int, Singular)])
  }

  /** A host in its default state. */
  function HostMessage(state: string, number: string, active: string): Message {
    Message.Message(HostDescriptor(state, number, active), map[])
  }

  /** The declarations derived for the enum field alone. */
  function HostDeclarations(state: string, number: string, active: string): Declarations {
    DeclareEnum(DeclareStandard(EMPTY, STANDARD_NAMES), state, HostState(number, active))
  }

  /** The host with those declarations. */
  function Host(state: string, number: string, active: string): World {
    var declarations := HostDeclarations(state, number, active);
    World(
      declarations,
      Schema(DerivedColumns(declarations), {}, map[]),
      HostMessage(state, number, active),
      Sql.Row(map[state := Sql.Str(active)], map[]),
      s => None)
  }

  predicate ThreeNames(state: string, number: string, active: string) {
    '.' !in state && '.' !in number && '.' !in active && state != number && number != active && active != state
  }

  lemma OneField(d: Declarations, pool: Pool, descriptor: Descriptor, path: string)
    requires ResolvePath(pool, descriptor, path).Ok?
    ensures DeclareFields(d, pool, descriptor, [path]) == Ok(DeclareField(d, path, ResolvePath(pool, descriptor, path).value))
  {
    var declared := DeclareField(d, path, ResolvePath(pool, descriptor, path).value);
    assert [path][1..] == [];
    assert DeclareFields(declared, pool, descriptor, []) == Ok(declared);
  }

  lemma HostIsDerived(state: string, number: string, active: string)
    requires ThreeNames(state, number, active)
    ensures Derived(map[], HostDescriptor(state, number, active), [state]) == Ok(HostDeclarations(state, number, active))
    ensures PlainEnums(map[], HostDescriptor(state, number, active), [state])
  {
    var descriptor := HostDescriptor(state, number, active);
    SplitSingle(state, '.');
    assert FieldAt(map[], descriptor, [state]) == Some(Field(Kind.Enum(HostState(number, active)), Singular));
    assert ResolvePath(map[], descriptor, state) == Ok(EnumOf(HostState(number, active)));
    OneField(DeclareStandard(EMPTY, STANDARD_NAMES), map[], descriptor, state);
  }

  lemma {:induction false} StandardKeepsPaths(d: Declarations, names: seq<string>)
    ensures DeclareStandard(d, names).fieldPaths == d.fieldPaths && DeclareStandard(d, names).idents == d.idents
    decreases |names|
  {
    if names != [] {
      StandardKeepsPaths(DeclareFunction(d, names[0], StandardOverloads(names[0])), names[1..]);
    }
  }

  lemma TwoValues(first: string, second: string)
    ensures map[0 := first, 1 := second].Values == {first, second}
  {
    var names := map[0 := first, 1 := second];
    assert names[0] == first && names[1] == second;
  }

  lemma EnumDeclares(d: Declarations, name: string, ty: EnumType)
    ensures Declares(DeclareEnum(d, name, ty), EQUALS, [Type.Enum(ty.fullName), Type.Enum(ty.fullName)])
    ensures DeclareEnum(d, name, ty).idents == d.idents[name := Type.Enum(ty.fullName)]
                                               + map value | value in ty.names.Values :: Type.Enum(ty.fullName)
  {
    var overloads := DeclareFunction(d, EQUALS, [EnumOverload(ty.fullName)]).functions[EQUALS];
    assert overloads[|overloads| - 1] == EnumOverload(ty.fullName);
  }

  lemma HostDeclares(state: string, number: string, active: string)
    requires ThreeNames(state, number, active)
    ensures var d := HostDeclarations(state, number, active);
            d.fieldPaths == [state] && d.idents.Keys == {state, number, active}
            && (forall name :: name in d.idents ==> d.idents[name] == Type.Enum("State"))
            && Declares(d, EQUALS, [Type.Enum("State"), Type.Enum("State")])
  {
    StandardKeepsPaths(EMPTY, STANDARD_NAMES);
    EnumDeclares(DeclareStandard(EMPTY, STANDARD_NAMES), state, HostState(number, active));
    TwoValues(active, number);
  }

  lemma HostIsStored(state: string, number: string, active: string, schema: Schema)
    requires ThreeNames(state, number, active) && schema.columns == map[state := state]
    ensures Storage.Stores(Sql.Row(map[state := Sql.Str(active)], map[]), schema, HostMessage(state, number, active))
  {
    var message, field := HostMessage(state, number, active), Field(Kind.Enum(HostState(number, active)), Singular);
    SplitSingle(state, '.');
    assert Matcher.ResolvePath(message, [state]) == Matcher.Found(field, EnumNumber(0));
    assert Storage.FieldCell(field, EnumNumber(0)) == Sql.Str(active);
  }

  lemma HostConforms(state: string, number: string, active: string)
    requires ThreeNames(state, number, active)
    ensures Conforms(HostMessage(state, number, active)) && Typed(map[], HostMessage(state, number, active))
  {}

  lemma HostColumns(state: string, number: string, active: string)
    requires ThreeNames(state, number, active)
    ensures DerivedColumns(HostDeclarations(state, number, active)) == map[state := state]
  {
    HostDeclares(state, number, active);
  }

  lemma HostIsConsistent(state: string, number: string, active: string)
    requires ThreeNames(state, number, active)
    ensures Host(state, number, active).Consistent()
  {
    var w := Host(state, number, active);
    HostColumns(state, number, active);
    HostConforms(state, number, active);
    HostIsDerived(state, number, active);
    HostIsStored(state, number, active, w.schema);
    DerivedIsConsistent(map[], [state], w);
  }

  lemma HostReadsNumber(state: string, number: string, active: string)
    requires ThreeNames(state, number, active)
    ensures var w := Host(state, number, active);
            Matcher.Classify(Ident(number), w.Matching())
            == Ok(Matcher.FieldSide(Matcher.Present(Field(Kind.Int, Singular), Value.Int(0))))
            && Matcher.ResolvePath(w.message, [active]).NotAField?
  {
    var message := HostMessage(state, number, active);
    assert Matcher.ResolvePath(message, [number]) == Matcher.Found(Field(Kind.Int, Singular), Value.Int(0));
  }

  lemma HostMisreads(state: string, number: string, active: string)
    requires ThreeNames(state, number, active)
    ensures var w, test := Host(state, number, active), Divergence.ValueTest(Ident(number), active);
            Checker.Check(test, w.declarations) && Matcher.Eval(test, w.Matching()) == Err(Matcher.Mismatched)
  {
    var w := Host(state, number, active);
    HostIsConsistent(state, number, active);
    HostDeclares(state, number, active);
    HostReadsNumber(state, number, active);
    Divergence.ValueTestChecks(Ident(number), active, w);
    NumberMismatches(number, active, w);
  }

  lemma NumberMismatches(number: string, value: string, w: World)
    requires w.declarations.IdentType(value).Some? && w.declarations.IdentType(value).value.Enum?
    requires Matcher.ResolvePath(w.message, [value]).NotAField?
    requires Matcher.Classify(Ident(number), w.Matching())
          == Ok(Matcher.FieldSide(Matcher.Present(Field(Kind.Int, Singular), Value.Int(0))))
    ensures Matcher.Eval(Divergence.ValueTest(Ident(number), value), w.Matching()) == Err(Matcher.Mismatched)
  {
    Divergence.EqualsCalls(Ident(number), Ident(value), w);
  }

  lemma HostRefuses(state: string, number: string, active: string)
    requires ThreeNames(state, number, active)
    ensures var w, test := Host(state, number, active), Divergence.ValueTest(Ident(state), number);
            Checker.Check(test, w.declarations) && Transpiler.Transpile(test, w.Transpiling()).Ok?
            && Matcher.Eval(test, w.Matching()) == Err(Matcher.TwoFields)
  {
    HostIsConsistent(state, number, active);
    HostDeclares(state, number, active);
    Divergence.ShadowedValueIsRefused(Ident(state), number, Host(state, number, active));
  }

  /** On a concrete host, with the declarations derived for its enum field: `kind = ACTIVE`
      passes the checker and fails in memory on its operand types; `state = kind` passes the
      checker and transpiles, and is refused in memory as a comparison of two fields. */
  lemma HostTellsApart()
    ensures Derived(map[], HostDescriptor("state", "kind", "ACTIVE"), ["state"])
         == Ok(Host("state", "kind", "ACTIVE").declarations)
    ensures Host("state", "kind", "ACTIVE").Consistent()
    ensures var w, test := Host("state", "kind", "ACTIVE"), Divergence.ValueTest(Ident("kind"), "ACTIVE");
            Checker.Check(test, w.declarations) && Matcher.Eval(test, w.Matching()) == Err(Matcher.Mismatched)
    ensures var w, test := Host("state", "kind", "ACTIVE"), Divergence.ValueTest(Ident("state"), "kind");
            Checker.Check(test, w.declarations) && Transpiler.Transpile(test, w.Transpiling()).Ok?
            && Matcher.Eval(test, w.Matching()) == Err(Matcher.TwoFields)
  {
    HostIsDerived("state", "kind", "ACTIVE");
    HostIsConsistent("state", "kind", "ACTIVE");
    HostMisreads("state", "kind", "ACTIVE");
    HostRefuses("state", "kind", "ACTIVE");
  }
}

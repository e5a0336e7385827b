/** Protobuf messages as trees of named fields. Only a singular message field can be unset;
    every other field holds at least its default. */
module Messages {
  import opened Wrappers

  datatype EnumType = EnumType(fullName: string, names: map<int, string>)

  datatype KeyKind = StringKey | IntKey | UintKey | BoolKey

  datatype Kind =
    | Bool
    | Int
    | Uint
    | Float
    | String
    | Bytes
    | Enum(ty: EnumType)
    | Message(fullName: string)

  datatype Cardinality = Singular | Repeated | MapField(key: KeyKind)

  /** A field; `kind` is the element kind of a list and the value kind of a map. */
  datatype Field = Field(kind: Kind, cardinality: Cardinality) {
    predicate SingularMessage() {
      kind.Message? && cardinality.Singular?
    }

    /** The field an element or map value is read through. */
    function Element(): Field {
      Field(kind, Singular)
    }
  }

  datatype Descriptor = Descriptor(fullName: string, fields: map<string, Field>)

  datatype MapKey = StrKey(text: string) | IntegerKey(i: int) | BooleanKey(b: bool)

  datatype Value =
    | Bool(b: bool)
    | Int(i: int)
    | Uint(u: nat)
    | Float(d: real)
    | Str(text: string)
    | Bytes(bytes: string)
    | EnumNumber(number: int)
    | Msg(message: Message)
    | List(items: seq<Value>)
    | Map(entries: map<MapKey, Value>)

  datatype Message = Message(descriptor: Descriptor, values: map<string, Value>) {
    function Field(name: string): Option<Field> {
      if name in descriptor.fields then Some(descriptor.fields[name]) else None
    }

    predicate Has(name: string) {
      name in values
    }

    /** The field's value, or its default when it is unset. */
    function Get(name: string): Value
      requires name in descriptor.fields
    {
      if name in values then values[name] else Default(descriptor.fields[name])
    }
  }

  const TIMESTAMP_NAME := "google.protobuf.Timestamp"
  const DURATION_NAME := "google.protobuf.Duration"

  function Default(field: Field): Value {
    match field.cardinality
    case Repeated => List([])
    case MapField(_) => Map(map[])
    case Singular =>
      match field.kind
      case Bool => Value.Bool(false)
      case Int => Value.Int(0)
      case Uint => Value.Uint(0)
      case Float => Value.Float(0.0)
      case String => Str("")
      case Bytes => Value.Bytes("")
      case Enum(_) => EnumNumber(0)
      case Message(fullName) => Msg(Message.Message(Descriptor(fullName, map[]), map[]))
  }

  // ----- conformance: values have the shape their field declares -----

  predicate KeyConforms(kind: KeyKind, key: MapKey) {
    match kind
    case StringKey => key.StrKey?
    case IntKey => key.IntegerKey?
    case UintKey => key.IntegerKey?
    case BoolKey => key.BooleanKey?
  }

  ghost predicate ScalarConforms(kind: Kind, value: Value)
    decreases value, 0
  {
    match kind
    case Bool => value.Bool?
    case Int => value.Int?
    case Uint => value.Uint?
    case Float => value.Float?
    case String => value.Str?
    case Bytes => value.Bytes?
    case Enum(_) => value.EnumNumber?
    case Message(fullName) => value.Msg? && value.message.descriptor.fullName == fullName && Conforms(value.message)
  }

  ghost predicate ValueConforms(field: Field, value: Value)
    decreases value, 1
  {
    match field.cardinality
    case Singular => ScalarConforms(field.kind, value)
    case Repeated => value.List? && forall i :: 0 <= i < |value.items| ==> ScalarConforms(field.kind, value.items[i])
    case MapField(keyKind) =>
      value.Map? && forall k :: k in value.entries ==> KeyConforms(keyKind, k) && ScalarConforms(field.kind, value.entries[k])
  }

  /** Set fields are declared and conform, and no field name holds a dot. */
  ghost predicate Conforms(message: Message)
    decreases message
  {
    (forall name :: name in message.descriptor.fields ==> '.' !in name)
    && forall name :: name in message.values ==>
         name in message.descriptor.fields && ValueConforms(message.descriptor.fields[name], message.values[name])
  }
}

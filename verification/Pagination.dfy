/** Cursor values, page tokens and page splitting. The token text is modelled by what its
    decoding can find in it: base64, a version byte, a payload. */
module Pagination {
  import opened Wrappers
  import opened Text
  import opened Messages
  import Matcher
  import Predicates

  datatype CursorValue = Bool(b: bool) | Int(i: int) | Double(d: real) | Text(text: string) | Bytes(bytes: string) {
    /** The value as the handler binds it. */
    function ToSql(): Predicates.Value {
      match this
      case Bool(b) => Predicates.Bool(b)
      case Int(i) => Predicates.Int(i)
      case Double(d) => Predicates.Double(d)
      case Text(text) => Predicates.Text(text)
      case Bytes(bytes) => Predicates.Bytes(bytes)
    }
  }

  datatype CursorEntry = CursorEntry(column: string, value: CursorValue)

  datatype CursorKind = BoolKind | IntKind | DoubleKind | TextKind

  datatype CursorColumn = CursorColumn(column: string, fieldPath: string, kind: CursorKind)

  datatype PageToken = PageToken(cursor: seq<CursorEntry>, checksum: nat)

  /** What a page token string decodes to. */
  datatype Token =
    | NoToken
    | NotBase64
    | Versionless
    | Versioned(version: nat, payload: Option<PageToken>)

  datatype Error =
    | Malformed
    | UnsupportedVersion(found: nat, expected: nat)
    | ChecksumMismatch
    | Decode
    | NegativePageSize(requested: int)

  const PAGE_TOKEN_VERSION := 2

  // ----- minting cursor entries off a message -----

  /** The crate's own copy of the path walk; an unset or unknown place is absent. */
  function ResolveSegments(message: Message, segments: seq<string>): Option<(Field, Value)>
    decreases |segments|
  {
    if segments == [] || message.Field(segments[0]).None? then None else
      var field := message.Field(segments[0]).value;
      if |segments| == 1 then
        if field.SingularMessage() && !message.Has(segments[0]) then None
        else Some((field, message.Get(segments[0])))
      else if !field.SingularMessage() || !message.Has(segments[0]) then None
      else if !message.Get(segments[0]).Msg? then None
      else ResolveSegments(message.Get(segments[0]).message, segments[1..])
  }

  /** It finds exactly what the filter matcher's walk finds. */
  lemma {:induction false} WalksAgree(message: Message, segments: seq<string>)
    ensures var found := Matcher.ResolvePath(message, segments);
            ResolveSegments(message, segments)
            == if found.Found? then Some((found.field, found.value)) else None
    decreases |segments|
  {
    if |segments| > 1 && message.Field(segments[0]).Some? && message.Field(segments[0]).value.SingularMessage()
       && message.Has(segments[0]) && message.Get(segments[0]).Msg? {
      WalksAgree(message.Get(segments[0]).message, segments[1..]);
    }
  }

  function TextValue(field: Field, value: Value): string {
    match value
    case Str(text) => text
    case EnumNumber(number) =>
      if field.kind.Enum? then Matcher.EnumName(field.kind.ty, number)
      else if number < 0 then "-" + Decimal(-number)
      else Decimal(number)
    case Msg(message) => if message.descriptor.fullName == TIMESTAMP_NAME then Matcher.Rfc3339(message) else ""
    case _ => ""
  }

  function ReflectValue(message: Message, fieldPath: string, kind: CursorKind): CursorValue {
    var resolved := ResolveSegments(message, Split(fieldPath, '.'));
    match kind
    case BoolKind => CursorValue.Bool(resolved.Some? && resolved.value.1.Bool? && resolved.value.1.b)
    case IntKind =>
      CursorValue.Int(if resolved.Some? && resolved.value.1.Int? then resolved.value.1.i
                      else if resolved.Some? && resolved.value.1.Uint? then resolved.value.1.u
                      else 0)
    case DoubleKind => Double(if resolved.Some? && resolved.value.1.Float? then resolved.value.1.d else 0.0)
    case TextKind => Text(if resolved.Some? then TextValue(resolved.value.0, resolved.value.1) else "")
  }

  /** One entry per column: a key column's value comes from the resource name, any other is
      reflected off the message. */
  function CursorEntries(message: Message, columns: seq<CursorColumn>, keys: map<string, string>): (entries: seq<CursorEntry>)
    ensures |entries| == |columns|
    ensures forall i :: 0 <= i < |columns| ==>
              entries[i] == CursorEntry(columns[i].column,
                                        if columns[i].column in keys then Text(keys[columns[i].column])
                                        else ReflectValue(message, columns[i].fieldPath, columns[i].kind))
  {
    seq(|columns|, i requires 0 <= i < |columns| =>
      CursorEntry(columns[i].column,
                  if columns[i].column in keys then Text(keys[columns[i].column])
                  else ReflectValue(message, columns[i].fieldPath, columns[i].kind)))
  }

  // ----- tokens -----

  function Encode(cursor: seq<CursorEntry>, checksum: nat): Token {
    Versioned(PAGE_TOKEN_VERSION, Some(PageToken(cursor, checksum)))
  }

  function DecodeToken(token: Token): Result<PageToken, Error>
    requires !token.NoToken?
  {
    match token
    case NotBase64 => Err(Decode)
    case Versionless => Err(Malformed)
    case Versioned(version, payload) =>
      if version != PAGE_TOKEN_VERSION then Err(UnsupportedVersion(version, PAGE_TOKEN_VERSION))
      else if payload.None? then Err(Decode)
      else Ok(payload.value)
  }

  function ParseToken(token: Token, checksum: nat): Result<Option<seq<CursorEntry>>, Error> {
    if token.NoToken? then Ok(None) else
      var decoded :- DecodeToken(token);
      if decoded.checksum != checksum then Err(ChecksumMismatch) else Ok(Some(decoded.cursor))
  }

  /** A token is accepted exactly when it is the encoding of a cursor under this version and
      checksum number, and then it yields that cursor. */
  lemma AcceptedExactlyWhenMinted(token: Token, checksum: nat, cursor: seq<CursorEntry>)
    ensures ParseToken(token, checksum) == Ok(Some(cursor)) <==> token == Encode(cursor, checksum)
  {}

  /** A token minted under another checksum number is told so. Whether requests that differ
      have different numbers is the hash's matter. */
  lemma ChangedRequestIsRejected(cursor: seq<CursorEntry>, minted: nat, checksum: nat)
    requires minted != checksum
    ensures ParseToken(Encode(cursor, minted), checksum) == Err(ChecksumMismatch)
  {}

  // ----- pages -----

  datatype SizeLimits = SizeLimits(default: int, max: int)

  function ResolveSize(requested: int, limits: SizeLimits): Result<nat, Error> {
    if requested < 0 then Err(NegativePageSize(requested)) else
      var base := if requested == 0 then limits.default else requested;
      var capped := if base < limits.max then base else limits.max;
      Ok(if capped < 0 then 0 else capped)
  }

  /** A page is never larger than the maximum nor than what was asked for, and it is only
      ever empty by a misconfigured policy. */
  lemma ResolvedSizeIsWithinLimits(requested: int, limits: SizeLimits)
    ensures ResolveSize(requested, limits).Ok? <==> requested >= 0
    ensures requested >= 0 ==>
              var size := ResolveSize(requested, limits).value;
              (size == 0 <==> limits.max <= 0 || (requested == 0 && limits.default <= 0))
              && (limits.max >= 0 ==> size <= limits.max)
              && (requested > 0 ==> size <= requested)
              && (0 < requested <= limits.max ==> size == requested)
  {}

  datatype Page = Page(cursor: Option<seq<CursorEntry>>, size: nat, checksum: nat) {
    function FetchLimit(): nat {
      size + 1
    }

    /** The rows without the probe row; a next token exactly when it was there. */
    ghost predicate Splits<T(!new)>(rows: seq<T>, toCursor: T -> seq<CursorEntry>, kept: seq<T>, token: Token) {
      kept <= rows && |kept| == (if |rows| <= size then |rows| else size)
      && (token.NoToken? <==> |rows| <= size || size == 0)
      && (!token.NoToken? ==> token == Encode(toCursor(rows[size - 1]), checksum))
    }

    method SplitOverfetch<T(!new)>(rows: seq<T>, toCursor: T -> seq<CursorEntry>) returns (kept: seq<T>, token: Token)
      ensures Splits(rows, toCursor, kept, token)
    {
      kept := rows;
      var hasMore := |kept| > size;
      if hasMore {
        kept := kept[..size];
      }
      if hasMore && kept != [] {
        token := Encode(toCursor(kept[|kept| - 1]), checksum);
      } else {
        token := NoToken;
      }
    }
  }

  /** `Page::parse`: the token is verified before the size is resolved. */
  function ParsePage(token: Token, requested: int, checksum: nat, limits: SizeLimits): Result<Page, Error> {
    var cursor :- ParseToken(token, checksum);
    var size :- ResolveSize(requested, limits);
    Ok(Page(cursor, size, checksum))
  }
}

/** The cursor seek of a list handler: from the decoded cursor to the seek predicate. */
module CursorSeeking {
  import opened Wrappers
  import opened Text
  import opened Filters
  import opened Messages
  import opened Pagination
  import opened Ordering
  import opened Storage
  import Agreement
  import Keyset
  import Matcher
  import Predicates
  import Sql

  predicate ValueMatches(value: CursorValue, ty: Type) {
    match value
    case Text(_) => ty.String? || ty.Timestamp? || ty.Enum?
    case Int(_) => ty.Int? || ty.Uint?
    case Double(_) => ty.Double?
    case Bool(_) => ty.Bool?
    case Bytes(_) => false
  }

  function KindOf(ty: Type): CursorKind {
    match ty
    case Bool => BoolKind
    case Int => IntKind
    case Uint => IntKind
    case Double => DoubleKind
    case _ => TextKind
  }

  function Views(columns: seq<SeekColumn>): (views: seq<CursorColumn>)
    ensures |views| == |columns|
  {
    seq(|columns|, i requires 0 <= i < |columns| =>
      CursorColumn(columns[i].column, columns[i].fieldPath, KindOf(columns[i].ty)))
  }

  /** Every entry names its seek column and has a value of its type. */
  predicate Fits(cursor: seq<CursorEntry>, columns: seq<SeekColumn>, orders: seq<Order>) {
    |cursor| == |columns| == |orders|
    && forall i :: 0 <= i < |cursor| ==>
         cursor[i].column == columns[i].column && ValueMatches(cursor[i].value, columns[i].ty)
  }

  function SeekItems(cursor: seq<CursorEntry>, orders: seq<Order>): seq<Keyset.SeekItem>
    requires |cursor| == |orders|
  {
    seq(|cursor|, i requires 0 <= i < |cursor| =>
      Keyset.SeekItem(cursor[i].column, orders[i].Direction(), cursor[i].value.ToSql()))
  }

  /** No cursor seeks nothing; one that does not fit the ordering is refused. */
  function CursorSeek(cursor: Option<seq<CursorEntry>>, columns: seq<SeekColumn>, orders: seq<Order>)
    : Result<Option<Predicates.Predicate>, ()>
  {
    if cursor.None? then Ok(None)
    else if !Fits(cursor.value, columns, orders) then Err(())
    else Ok(Some(Keyset.KeysetSeek(SeekItems(cursor.value, orders))))
  }

  /** A stored resource: the message, its resource-name variables and its row. */
  datatype Record = Record(message: Message, keys: map<string, string>, row: Sql.Row)

  predicate SeekableType(ty: Type) {
    ty.Bool? || ty.Int? || ty.Uint? || ty.Double? || ty.String? || ty.Timestamp? || ty.Enum?
  }

  /** The record holds a value for the seek column: the text of a key variable, or a set
      field of the declared, comparable type, stored in that column. */
  ghost predicate Holds(record: Record, column: SeekColumn) {
    if column.column in record.keys then
      record.row.Get(column.column) == Sql.Str(record.keys[column.column])
      && (column.ty.String? || column.ty.Timestamp? || column.ty.Enum?)
    else
      var found := Matcher.ResolvePath(record.message, Split(column.fieldPath, '.'));
      found.Found? && SeekableType(column.ty) && Agreement.FieldHasType(found.field, column.ty)
      && record.row.Get(column.column) == FieldCell(found.field, found.value)
  }

  ghost predicate Recorded(record: Record, columns: seq<SeekColumn>) {
    Conforms(record.message) && forall i :: 0 <= i < |columns| ==> Holds(record, columns[i])
  }

  function Cursor(record: Record, columns: seq<SeekColumn>): seq<CursorEntry> {
    CursorEntries(record.message, Views(columns), record.keys)
  }

  /** The value minted for a column binds to the very cell the row stores, and the decode
      side accepts it. */
  lemma {:induction false} MintedIsStored(record: Record, columns: seq<SeekColumn>, i: nat)
    requires i < |columns| && Conforms(record.message) && Holds(record, columns[i])
    ensures Cursor(record, columns)[i].value.ToSql().Bound() == record.row.Get(columns[i].column)
    ensures ValueMatches(Cursor(record, columns)[i].value, columns[i].ty)
    ensures record.row.Get(columns[i].column).Scalar() && !Cursor(record, columns)[i].value.ToSql().Null?
  {
    var column := columns[i];
    if column.column !in record.keys {
      var segments := Split(column.fieldPath, '.');
      var found := Matcher.ResolvePath(record.message, segments);
      WalksAgree(record.message, segments);
      Agreement.FoundConforms(record.message, segments);
      ReflectedIsStored(record.message, column.fieldPath, column.ty, found.field, found.value);
    }
  }

  /** The value reflected off a set field binds to the cell the field is stored as. */
  lemma ReflectedIsStored(message: Message, path: string, ty: Type, field: Field, value: Value)
    requires ResolveSegments(message, Split(path, '.')) == Some((field, value))
    requires SeekableType(ty) && Agreement.FieldHasType(field, ty) && ValueConforms(field, value)
    ensures var minted, cell := ReflectValue(message, path, KindOf(ty)), FieldCell(field, value);
            minted.ToSql().Bound() == cell && ValueMatches(minted, ty) && cell.Scalar() && !minted.ToSql().Null?
  {}
}

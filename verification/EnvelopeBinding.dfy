/** The additional data an envelope is encrypted under: its owner, its row and its column. */
module EnvelopeBinding {
  import opened Bytes
  import opened LetterCase
  import opened Options
  import opened Utf8Text
  import opened Uuids

  const FIELD_ABSENT: byte := 0
  const FIELD_TEXT: byte := 1
  const FIELD_UUID: byte := 2
  const FIELD_BYTES: byte := 3
  const FIELD_INTEGER: byte := 4
  // Every one of these types is followed by its body; there is no counted header here.
  const NONE_COUNTED: set<byte> := {}

  datatype BoundColumn =
    | PasswordPhc | TotpSecret | IdentityAccessToken | IdentityRefreshToken | IdentityIdToken | PkceVerifier

  function ColumnText(c: BoundColumn): string {
    match c
    case PasswordPhc => "password_credential.phc"
    case TotpSecret => "totp_credential.secret_enc"
    case IdentityAccessToken => "identity.access_token_enc"
    case IdentityRefreshToken => "identity.refresh_token_enc"
    case IdentityIdToken => "identity.id_token_enc"
    case PkceVerifier => "oauth_flow.pkce_verifier_enc"
  }

  datatype Row = UuidRow(id: string) | BytesRow(key: seq<byte>)

  datatype Binding = Binding(column: BoundColumn, owner: Option<string>, row: Row)

  datatype RowPart = AbsentPart | TextPart(text: seq<byte>) | BytesPart(bytes: seq<byte>)

  function UuidBytes(id: string): seq<byte> {
    match UuidOf(id) case Some(b) => b case None => []
  }

  function Typed(tag: byte, body: seq<byte>): seq<byte> {
    Field(tag, |body|, body)
  }

  function IntegerBytes(v: int): seq<byte> {
    BigEndian(v % TWO_TO_THE_32, LENGTH_BYTES)
  }

  function OwnerField(owner: Option<string>): seq<byte> {
    match owner
    case None => Typed(FIELD_ABSENT, [])
    case Some(id) => Typed(FIELD_UUID, UuidBytes(id))
  }

  function RowField(row: Row): seq<byte> {
    match row
    case UuidRow(id) => Typed(FIELD_UUID, UuidBytes(id))
    case BytesRow(key) => Typed(FIELD_BYTES, key)
  }

  /** The context, the algorithm, the key version, the column, the owner and the row, in order. */
  function BoundFields(context: seq<byte>, algorithm: seq<byte>, b: Binding, keyVersion: int): seq<seq<byte>> {
    [Typed(FIELD_TEXT, context), Typed(FIELD_TEXT, algorithm), Typed(FIELD_INTEGER, IntegerBytes(keyVersion)),
     Typed(FIELD_TEXT, Utf8(ColumnText(b.column))), OwnerField(b.owner), RowField(b.row)]
  }

  predicate SpellsUuids(b: Binding) {
    && (b.owner.Some? ==> UuidOf(b.owner.value).Some?)
    && (b.row.UuidRow? ==> UuidOf(b.row.id).Some?)
  }

  /** None where an identifier is no uuid and the encoder throws. */
  function BoundAdditionalData(
      context: seq<byte>, algorithm: seq<byte>, b: Binding, keyVersion: int): Option<seq<byte>>
  {
    if SpellsUuids(b) then Some(Concat(BoundFields(context, algorithm, b, keyVersion))) else None
  }

  function PartField(p: RowPart): seq<byte> {
    match p
    case AbsentPart => Typed(FIELD_ABSENT, [])
    case TextPart(text) => Typed(FIELD_TEXT, text)
    case BytesPart(bytes) => Typed(FIELD_BYTES, bytes)
  }

  function PartFields(parts: seq<RowPart>): (r: seq<seq<byte>>)
    ensures |r| == |parts| && forall i | 0 <= i < |parts| :: r[i] == PartField(parts[i])
  {
    seq(|parts|, i requires 0 <= i < |parts| => PartField(parts[i]))
  }

  /** A row named by several columns, written as one byte key. */
  function RowOfParts(parts: seq<RowPart>): seq<byte> {
    Concat(PartFields(parts))
  }

  lemma TypedIsDelimited(tag: byte, body: seq<byte>)
    requires |body| < TWO_TO_THE_32
    ensures Delimited(Typed(tag, body), NONE_COUNTED)
  {
    FieldIsDelimited(tag, |body|, body, NONE_COUNTED);
  }

  lemma TypedApart(t: byte, b: seq<byte>, t': byte, b': seq<byte>)
    requires Typed(t, b) == Typed(t', b')
    ensures t == t' && b == b'
  {
    FieldInjective(t, |b|, b, t', |b'|, b');
  }

  lemma ColumnsApart(c: BoundColumn, d: BoundColumn)
    requires ColumnText(c) == ColumnText(d)
    ensures c == d
  {
    assert "totp_credential.secret_enc"[0] == 't' && "identity.refresh_token_enc"[0] == 'i';
  }

  predicate SameOwner(a: Option<string>, b: Option<string>) {
    a.Some? == b.Some? && (a.Some? ==> Lower(a.value) == Lower(b.value))
  }

  predicate SameRowId(a: Row, b: Row) {
    match (a, b)
    case (UuidRow(i), UuidRow(j)) => Lower(i) == Lower(j)
    case (BytesRow(k), BytesRow(l)) => k == l
    case _ => false
  }

  /** Column, owner, row and key version agree, the version up to what four bytes hold. */
  predicate SameBinding(a: Binding, v: int, b: Binding, w: int) {
    && a.column == b.column && SameOwner(a.owner, b.owner) && SameRowId(a.row, b.row)
    && v % TWO_TO_THE_32 == w % TWO_TO_THE_32
  }

  lemma FieldsAreDelimited(context: seq<byte>, algorithm: seq<byte>, b: Binding, keyVersion: int)
    requires |context| < TWO_TO_THE_32 && |algorithm| < TWO_TO_THE_32 && SpellsUuids(b)
    requires b.row.BytesRow? ==> |b.row.key| < TWO_TO_THE_32
    ensures forall f | f in BoundFields(context, algorithm, b, keyVersion) :: Delimited(f, NONE_COUNTED)
  {
    TypedIsDelimited(FIELD_TEXT, context);
    TypedIsDelimited(FIELD_TEXT, algorithm);
    TypedIsDelimited(FIELD_INTEGER, IntegerBytes(keyVersion));
    Utf8Length(ColumnText(b.column));
    TypedIsDelimited(FIELD_TEXT, Utf8(ColumnText(b.column)));
    TypedIsDelimited(FIELD_ABSENT, []);
    if b.owner.Some? {
      TypedIsDelimited(FIELD_UUID, UuidBytes(b.owner.value));
    }
    match b.row
    case UuidRow(id) => TypedIsDelimited(FIELD_UUID, UuidBytes(id));
    case BytesRow(key) => TypedIsDelimited(FIELD_BYTES, key);
  }

  lemma OwnersApart(a: Option<string>, b: Option<string>)
    requires a.Some? ==> UuidOf(a.value).Some?
    requires b.Some? ==> UuidOf(b.value).Some?
    ensures OwnerField(a) == OwnerField(b) <==> SameOwner(a, b)
  {
    assert OwnerField(a)[0] == if a.Some? then FIELD_UUID else FIELD_ABSENT;
    assert OwnerField(b)[0] == if b.Some? then FIELD_UUID else FIELD_ABSENT;
    if a.Some? && b.Some? {
      SameUuid(a.value, b.value);
      if OwnerField(a) == OwnerField(b) {
        TypedApart(FIELD_UUID, UuidBytes(a.value), FIELD_UUID, UuidBytes(b.value));
      }
    }
  }

  lemma RowsApart(a: Row, b: Row)
    requires a.UuidRow? ==> UuidOf(a.id).Some?
    requires b.UuidRow? ==> UuidOf(b.id).Some?
    ensures RowField(a) == RowField(b) <==> SameRowId(a, b)
  {
    assert RowField(a)[0] == if a.UuidRow? then FIELD_UUID else FIELD_BYTES;
    assert RowField(b)[0] == if b.UuidRow? then FIELD_UUID else FIELD_BYTES;
    if a.UuidRow? && b.UuidRow? {
      SameUuid(a.id, b.id);
      if RowField(a) == RowField(b) {
        TypedApart(FIELD_UUID, UuidBytes(a.id), FIELD_UUID, UuidBytes(b.id));
      }
    } else if a.BytesRow? && b.BytesRow? && RowField(a) == RowField(b) {
      TypedApart(FIELD_BYTES, a.key, FIELD_BYTES, b.key);
    }
  }

  lemma VersionsApart(v: int, w: int)
    ensures IntegerBytes(v) == IntegerBytes(w) <==> v % TWO_TO_THE_32 == w % TWO_TO_THE_32
  {
    hide BigEndian, Pow256;
    if IntegerBytes(v) == IntegerBytes(w) {
      Pow256Values();
      BigEndianInjective(v % TWO_TO_THE_32, w % TWO_TO_THE_32, 4);
    }
  }

  /** A version that can be stored is held by four bytes whole. */
  lemma StorableVersionsApart(v: int, w: int)
    requires 1 <= v <= 0x7FFF_FFFF && 1 <= w <= 0x7FFF_FFFF
    ensures IntegerBytes(v) == IntegerBytes(w) <==> v == w
  {
    VersionsApart(v, w);
  }

  /** The main result: two envelopes are bound alike exactly when they are one binding. */
  lemma BoundDataIsInjective(
      context: seq<byte>, algorithm: seq<byte>, a: Binding, v: int, b: Binding, w: int)
    requires |context| < TWO_TO_THE_32 && |algorithm| < TWO_TO_THE_32 && SpellsUuids(a) && SpellsUuids(b)
    requires a.row.BytesRow? ==> |a.row.key| < TWO_TO_THE_32
    requires b.row.BytesRow? ==> |b.row.key| < TWO_TO_THE_32
    ensures BoundAdditionalData(context, algorithm, a, v) == BoundAdditionalData(context, algorithm, b, w)
      <==> SameBinding(a, v, b, w)
  {
    FieldsAreRead(context, algorithm, a, v, b, w);
    FieldsMeaning(context, algorithm, a, v, b, w);
  }

  lemma FieldsAreRead(context: seq<byte>, algorithm: seq<byte>, a: Binding, v: int, b: Binding, w: int)
    requires |context| < TWO_TO_THE_32 && |algorithm| < TWO_TO_THE_32 && SpellsUuids(a) && SpellsUuids(b)
    requires a.row.BytesRow? ==> |a.row.key| < TWO_TO_THE_32
    requires b.row.BytesRow? ==> |b.row.key| < TWO_TO_THE_32
    ensures BoundAdditionalData(context, algorithm, a, v) == BoundAdditionalData(context, algorithm, b, w)
      <==> BoundFields(context, algorithm, a, v) == BoundFields(context, algorithm, b, w)
  {
    var x, y := BoundFields(context, algorithm, a, v), BoundFields(context, algorithm, b, w);
    if Concat(x) == Concat(y) {
      FieldsAreDelimited(context, algorithm, a, v);
      FieldsAreDelimited(context, algorithm, b, w);
      UniquelyDecodable(x, y, NONE_COUNTED);
    }
  }

  lemma FieldsMeaning(context: seq<byte>, algorithm: seq<byte>, a: Binding, v: int, b: Binding, w: int)
    requires SpellsUuids(a) && SpellsUuids(b)
    ensures BoundFields(context, algorithm, a, v) == BoundFields(context, algorithm, b, w)
      <==> SameBinding(a, v, b, w)
  {
    var x, y := BoundFields(context, algorithm, a, v), BoundFields(context, algorithm, b, w);
    OwnersApart(a.owner, b.owner);
    RowsApart(a.row, b.row);
    VersionsApart(v, w);
    if x == y {
      assert x[2] == y[2] && x[3] == y[3] && x[4] == y[4] && x[5] == y[5];
      TypedApart(FIELD_INTEGER, IntegerBytes(v), FIELD_INTEGER, IntegerBytes(w));
      ColumnFieldsApart(a.column, b.column);
    }
  }

  lemma ColumnFieldsApart(c: BoundColumn, d: BoundColumn)
    requires Typed(FIELD_TEXT, Utf8(ColumnText(c))) == Typed(FIELD_TEXT, Utf8(ColumnText(d)))
    ensures c == d
  {
    TypedApart(FIELD_TEXT, Utf8(ColumnText(c)), FIELD_TEXT, Utf8(ColumnText(d)));
    Utf8Injective(ColumnText(c), ColumnText(d));
    ColumnsApart(c, d);
  }

  predicate FitsPart(p: RowPart) {
    match p
    case AbsentPart => true
    case TextPart(text) => |text| < TWO_TO_THE_32
    case BytesPart(bytes) => |bytes| < TWO_TO_THE_32
  }

  /** A row named by several columns keeps their number, their order, their types and their values. */
  lemma RowOfPartsIsInjective(xs: seq<RowPart>, ys: seq<RowPart>)
    requires forall p | p in xs + ys :: FitsPart(p)
    requires RowOfParts(xs) == RowOfParts(ys)
    ensures xs == ys
  {
    PartsAreDelimited(xs);
    PartsAreDelimited(ys);
    UniquelyDecodable(PartFields(xs), PartFields(ys), NONE_COUNTED);
    assert |xs| == |ys|;
    forall i | 0 <= i < |xs|
      ensures xs[i] == ys[i]
    {
      assert PartFields(xs)[i] == PartFields(ys)[i];
      PartsApart(xs[i], ys[i]);
    }
  }

  /** Tables whose rows are named by several columns: two of their envelopes are bound alike exactly
      when column, owner and key version agree and the row is named by the same parts. */
  lemma CompositeRowsAreBoundApart(
      context: seq<byte>, algorithm: seq<byte>, c: BoundColumn, owner: Option<string>, xs: seq<RowPart>, v: int,
      d: BoundColumn, other: Option<string>, ys: seq<RowPart>, w: int)
    requires |context| < TWO_TO_THE_32 && |algorithm| < TWO_TO_THE_32
    requires (owner.Some? ==> UuidOf(owner.value).Some?) && (other.Some? ==> UuidOf(other.value).Some?)
    requires forall p | p in xs + ys :: FitsPart(p)
    requires |RowOfParts(xs)| < TWO_TO_THE_32 && |RowOfParts(ys)| < TWO_TO_THE_32
    ensures BoundAdditionalData(context, algorithm, Binding(c, owner, BytesRow(RowOfParts(xs))), v)
         == BoundAdditionalData(context, algorithm, Binding(d, other, BytesRow(RowOfParts(ys))), w)
      <==> c == d && SameOwner(owner, other) && xs == ys && v % TWO_TO_THE_32 == w % TWO_TO_THE_32
  {
    hide BoundAdditionalData, RowOfParts, FitsPart;
    var a, b := Binding(c, owner, BytesRow(RowOfParts(xs))), Binding(d, other, BytesRow(RowOfParts(ys)));
    BoundDataIsInjective(context, algorithm, a, v, b, w);
    if RowOfParts(xs) == RowOfParts(ys) {
      RowOfPartsIsInjective(xs, ys);
    }
  }

  lemma PartsApart(p: RowPart, q: RowPart)
    requires PartField(p) == PartField(q)
    ensures p == q
  {
    assert PartField(p)[0] == if p.AbsentPart? then FIELD_ABSENT else if p.TextPart? then FIELD_TEXT else FIELD_BYTES;
    assert PartField(q)[0] == if q.AbsentPart? then FIELD_ABSENT else if q.TextPart? then FIELD_TEXT else FIELD_BYTES;
    match p
    case AbsentPart =>
    case TextPart(text) => TypedApart(FIELD_TEXT, text, FIELD_TEXT, q.text);
    case BytesPart(bytes) => TypedApart(FIELD_BYTES, bytes, FIELD_BYTES, q.bytes);
  }

  lemma PartsAreDelimited(parts: seq<RowPart>)
    requires forall p | p in parts :: FitsPart(p)
    ensures forall f | f in PartFields(parts) :: Delimited(f, NONE_COUNTED)
  {
    forall f | f in PartFields(parts)
      ensures Delimited(f, NONE_COUNTED)
    {
      var i :| 0 <= i < |parts| && f == PartField(parts[i]);
      assert parts[i] in parts;
      match parts[i]
      case AbsentPart => TypedIsDelimited(FIELD_ABSENT, []);
      case TextPart(text) => TypedIsDelimited(FIELD_TEXT, text);
      case BytesPart(bytes) => TypedIsDelimited(FIELD_BYTES, bytes);
    }
  }
}

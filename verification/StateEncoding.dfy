/** The canonical byte encoding every seal digest is taken over. */
module StateEncoding {
  import opened Bytes
  import opened EncodingOrder
  import opened Options
  import opened Uuids

  // Text is its UTF-8 bytes throughout.
  type Text = seq<byte>

  // ---- the sealed state, as the encoder is given it

  datatype Purpose = EmailVerify | PasswordReset | EmailChange | MagicLink

  datatype TokenGenerations = TokenGenerations(
    emailVerify: int, passwordReset: int, emailChange: int, magicLink: int)
  {
    function At(purpose: Purpose): int {
      match purpose
      case EmailVerify => emailVerify
      case PasswordReset => passwordReset
      case EmailChange => emailChange
      case MagicLink => magicLink
    }

    function With(purpose: Purpose, generation: int): TokenGenerations {
      match purpose
      case EmailVerify => this.(emailVerify := generation)
      case PasswordReset => this.(passwordReset := generation)
      case EmailChange => this.(emailChange := generation)
      case MagicLink => this.(magicLink := generation)
    }
  }

  datatype Generations = Generations(
    componentsVersion: int, sessionGeneration: int, attemptGeneration: int, attemptLast: Option<seq<byte>>,
    tokenGenerations: TokenGenerations, tokenLast: Option<seq<byte>>)

  const FIRST_GENERATIONS := Generations(1, 1, 1, None, TokenGenerations(1, 1, 1, 1), None)

  datatype Password = Password(phcSha256: seq<byte>, keyVersion: int, setBySessionId: Option<string>)
  datatype Totp = Totp(confirmed: bool, secretSha256: seq<byte>, keyVersion: int)
  datatype Passkey = Passkey(credentialId: seq<byte>, publicKey: seq<byte>)
  datatype Identity = Identity(provider: Text, subject: Text)
  datatype RecoveryCode = RecoveryCode(keyVersion: int, codeHmac: seq<byte>)

  datatype Components = Components(
    email: Option<Text>, emailVerified: bool, disabled: bool, password: Option<Password>,
    passwordResetRequired: bool, totp: Option<Totp>,
    passkeys: seq<Passkey>, identities: seq<Identity>, recoveryCodes: seq<RecoveryCode>)

  datatype State = State(
    userId: string, version: int, sessionEpoch: int, generations: Generations, components: Components)

  // ---- what two states must share to be the same state

  datatype CanonicalPassword = CanonicalPassword(
    phcSha256: seq<byte>, keyVersion: int, setBySessionId: Option<seq<byte>>)

  /** Components with the row order and the spelling of identifiers taken away. */
  datatype CanonicalComponents = CanonicalComponents(
    email: Option<Text>, emailVerified: bool, disabled: bool, password: Option<CanonicalPassword>,
    passwordResetRequired: bool, totp: Option<Totp>,
    passkeys: multiset<Passkey>, identities: multiset<Identity>, recoveryCodes: multiset<RecoveryCode>)

  datatype CanonicalState = CanonicalState(
    userId: seq<byte>, version: int, sessionEpoch: int, generations: Generations, components: CanonicalComponents)

  function UuidOrEmpty(text: string): seq<byte> {
    match UuidOf(text)
    case Some(bytes) => bytes
    case None => []
  }

  function CanonicalPasswordOf(p: Password): CanonicalPassword {
    CanonicalPassword(p.phcSha256, p.keyVersion,
      match p.setBySessionId case Some(id) => Some(UuidOrEmpty(id)) case None => None)
  }

  function CanonicalComponentsOf(c: Components): CanonicalComponents {
    CanonicalComponents(
      c.email, c.emailVerified, c.disabled,
      match c.password case Some(p) => Some(CanonicalPasswordOf(p)) case None => None,
      c.passwordResetRequired, c.totp,
      multiset(c.passkeys), multiset(c.identities), multiset(c.recoveryCodes))
  }

  function CanonicalOf(s: State): CanonicalState {
    CanonicalState(UuidOrEmpty(s.userId), s.version, s.sessionEpoch, s.generations, CanonicalComponentsOf(s.components))
  }

  // ---- what the encoder refuses, and the lengths its four-byte numbers can carry

  const MAX_SAFE_INTEGER := 0x1F_FFFF_FFFF_FFFF
  const SHA256_BYTES := 32

  predicate IsSafe(v: int) {
    -MAX_SAFE_INTEGER <= v <= MAX_SAFE_INTEGER
  }

  predicate DigestOrNone(d: Option<seq<byte>>) {
    d.Some? ==> |d.value| == SHA256_BYTES
  }

  predicate EncodableGenerations(g: Generations) {
    && IsSafe(g.componentsVersion) && IsSafe(g.sessionGeneration) && IsSafe(g.attemptGeneration)
    && DigestOrNone(g.attemptLast) && DigestOrNone(g.tokenLast)
    && IsSafe(g.tokenGenerations.emailVerify) && IsSafe(g.tokenGenerations.passwordReset)
    && IsSafe(g.tokenGenerations.emailChange) && IsSafe(g.tokenGenerations.magicLink)
  }

  predicate EncodablePassword(p: Password) {
    |p.phcSha256| == SHA256_BYTES && IsSafe(p.keyVersion) && (p.setBySessionId.Some? ==> UuidOf(p.setBySessionId.value).Some?)
  }

  predicate EncodableTotp(t: Totp) {
    |t.secretSha256| == SHA256_BYTES && IsSafe(t.keyVersion)
  }

  predicate EncodableComponents(c: Components) {
    && (c.password.Some? ==> EncodablePassword(c.password.value))
    && (c.totp.Some? ==> EncodableTotp(c.totp.value))
    && (forall r | r in c.recoveryCodes :: IsSafe(r.keyVersion))
  }

  predicate Encodable(s: State) {
    && UuidOf(s.userId).Some? && IsSafe(s.version) && IsSafe(s.sessionEpoch)
    && EncodableGenerations(s.generations) && EncodableComponents(s.components)
  }

  predicate FitsPasskey(p: Passkey) { |p.credentialId| + |p.publicKey| + 10 < TWO_TO_THE_32 }
  predicate FitsIdentity(i: Identity) { |i.provider| + |i.subject| + 10 < TWO_TO_THE_32 }
  predicate FitsCode(r: RecoveryCode) { |r.codeHmac| + 18 < TWO_TO_THE_32 && IsSafe(r.keyVersion) }

  predicate Fits(c: Components) {
    && (c.email.Some? ==> |c.email.value| < TWO_TO_THE_32)
    && (forall p | p in c.passkeys :: FitsPasskey(p))
    && (forall i | i in c.identities :: FitsIdentity(i))
    && (forall r | r in c.recoveryCodes :: FitsCode(r))
  }

  // ---- the fields

  const ABSENT: byte := 0
  const TEXT: byte := 1
  const BYTES: byte := 2
  const LIST: byte := 3
  const INTEGER: byte := 4
  const BOOLEAN: byte := 5
  const UUID: byte := 6
  const RECORD: byte := 7
  const COUNTED: set<byte> := {LIST}

  // velve-auth/security-state/v1
  const SEAL_CONTEXT: Text :=
    [118, 101, 108, 118, 101, 45, 97, 117, 116, 104, 47, 115, 101, 99, 117, 114, 105, 116, 121, 45, 115, 116, 97, 116, 101, 47, 118, 49]

  function AbsentField(): seq<byte> { Field(ABSENT, 0, []) }
  function TextField(v: Text): seq<byte> { Field(TEXT, |v|, v) }
  function BytesField(v: seq<byte>): seq<byte> { Field(BYTES, |v|, v) }
  function BooleanField(v: bool): seq<byte> { Field(BOOLEAN, 1, [if v then 1 else 0]) }
  function UuidField(v: string): seq<byte> { Field(UUID, UUID_BYTES, UuidOrEmpty(v)) }

  /** setBigInt64: two's complement in eight bytes. */
  function Int64(v: int): (b: seq<byte>)
    ensures |b| == 8
  {
    BigEndian(v % 0x1_0000_0000_0000_0000, 8)
  }

  function IntegerField(v: int): seq<byte> { Field(INTEGER, 8, Int64(v)) }

  function RecordField(parts: seq<seq<byte>>): seq<byte> {
    Field(RECORD, |Concat(parts)|, Concat(parts))
  }

  function OptionalBytes(v: Option<seq<byte>>): seq<byte> {
    match v case Some(b) => BytesField(b) case None => AbsentField()
  }

  function PasswordParts(p: Password): seq<seq<byte>> {
    [BytesField(p.phcSha256), IntegerField(p.keyVersion),
     match p.setBySessionId case Some(id) => UuidField(id) case None => AbsentField()]
  }

  function TotpParts(t: Totp): seq<seq<byte>> {
    [BooleanField(t.confirmed), BytesField(t.secretSha256), IntegerField(t.keyVersion)]
  }

  function PasskeyField(p: Passkey): seq<byte> {
    RecordField([BytesField(p.credentialId), BytesField(p.publicKey)])
  }

  function IdentityField(i: Identity): seq<byte> {
    RecordField([TextField(i.provider), TextField(i.subject)])
  }

  function CodeField(r: RecoveryCode): seq<byte> {
    RecordField([IntegerField(r.keyVersion), BytesField(r.codeHmac)])
  }

  /** The count of the elements, then the elements in their encoding order. */
  function ListFields(elements: seq<seq<byte>>): (fields: seq<seq<byte>>)
    ensures |fields| == 1 + |elements|
  {
    [Field(LIST, |elements|, [])] + Sort(elements)
  }

  function GenerationFields(g: Generations): seq<seq<byte>> {
    [IntegerField(g.componentsVersion), IntegerField(g.sessionGeneration), IntegerField(g.attemptGeneration),
     OptionalBytes(g.attemptLast),
     IntegerField(g.tokenGenerations.emailVerify), IntegerField(g.tokenGenerations.passwordReset),
     IntegerField(g.tokenGenerations.emailChange), IntegerField(g.tokenGenerations.magicLink),
     OptionalBytes(g.tokenLast)]
  }

  function SingleFields(c: Components): seq<seq<byte>> {
    [match c.email case Some(e) => TextField(e) case None => AbsentField(),
     BooleanField(c.emailVerified), BooleanField(c.disabled),
     match c.password case Some(p) => RecordField(PasswordParts(p)) case None => AbsentField(),
     BooleanField(c.passwordResetRequired),
     match c.totp case Some(t) => RecordField(TotpParts(t)) case None => AbsentField()]
  }

  function HeaderFields(s: State): seq<seq<byte>> {
    [TextField(SEAL_CONTEXT), UuidField(s.userId), IntegerField(s.version), IntegerField(s.sessionEpoch)]
  }

  function RowFields(c: Components): seq<seq<byte>> {
    ListFields(Map(PasskeyField, c.passkeys))
    + ListFields(Map(IdentityField, c.identities))
    + ListFields(Map(CodeField, c.recoveryCodes))
  }

  function FieldsOf(s: State): seq<seq<byte>> {
    HeaderFields(s) + GenerationFields(s.generations) + SingleFields(s.components) + RowFields(s.components)
  }

  /** The bytes a seal is taken over, or None where the encoder throws a RangeError. */
  function Encode(s: State): Option<seq<byte>> {
    if Encodable(s) then Some(Concat(FieldsOf(s))) else None
  }
}

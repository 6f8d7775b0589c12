/** The bytes a token row's MAC is taken over, and that two different rows never share them. */
module TokenBinding {
  import opened Bytes
  import opened CanonicalJson
  import opened LetterCase
  import opened Options
  import opened Sequences
  import opened StateEncoding
  import opened StateEncodingTheorems
  import opened Utf8Text
  import opened Uuids

  /** The kind of row a token hash stands in. */
  datatype RowPurpose = Session | PendingAuthentication | WebauthnChallenge | OneTimeToken(purpose: Purpose)

  datatype Content =
    | SessionContent(
        sessionId: string, factors: seq<StateEncoding.Text>, sessionEpoch: int, createdAtMicros: int,
        sessionGeneration: int, idleExpiresAt: StateEncoding.Text, absoluteExpiresAt: StateEncoding.Text)
    | PendingContent(
        factors: seq<StateEncoding.Text>, attempts: int, sessionEpoch: int, attemptGeneration: int)
    | CeremonyContent(ceremony: StateEncoding.Text)
    | PayloadContent(payload: Option<Json>)

  datatype Binding = Binding(
    purpose: RowPurpose, ownerId: Option<string>, tokenSha256: seq<byte>, content: Content)

  // velve-auth/token-binding/v1
  const BINDING_CONTEXT: StateEncoding.Text :=
    [118, 101, 108, 118, 101, 45, 97, 117, 116, 104, 47, 116, 111, 107, 101, 110, 45, 98, 105, 110, 100, 105, 110, 103, 47, 118, 49]

  function PurposeText(p: RowPurpose): string {
    match p
    case Session => "session"
    case PendingAuthentication => "pending_authentication"
    case WebauthnChallenge => "webauthn_challenge"
    case OneTimeToken(EmailVerify) => "email_verify"
    case OneTimeToken(PasswordReset) => "password_reset"
    case OneTimeToken(EmailChange) => "email_change"
    case OneTimeToken(MagicLink) => "magic_link"
  }

  function OptionalText(v: Option<seq<byte>>): seq<byte> {
    match v case Some(t) => TextField(t) case None => AbsentField()
  }

  function OwnerText(owner: Option<string>): Option<seq<byte>> {
    match owner case Some(id) => Some(Utf8(CanonicalText(id))) case None => None
  }

  function PayloadText(payload: Option<Json>): Option<seq<byte>> {
    match payload case Some(v) => Some(CanonicalJsonOf(v)) case None => None
  }

  /** Every item in the order it is stored, repetitions and all. */
  function TextFields(items: seq<StateEncoding.Text>): (r: seq<seq<byte>>)
    ensures |r| == |items|
    ensures forall i | 0 <= i < |items| :: r[i] == TextField(items[i])
  {
    seq(|items|, i requires 0 <= i < |items| => TextField(items[i]))
  }

  function CountField(items: seq<StateEncoding.Text>): seq<byte> {
    Field(LIST, |TextFields(items)|, [])
  }

  function AfterTheFactors(c: Content): seq<seq<byte>>
    requires c.SessionContent? || c.PendingContent?
  {
    match c
    case SessionContent(_, _, epoch, created, generation, idle, absolute) =>
      [IntegerField(epoch), IntegerField(created), IntegerField(generation), TextField(idle), TextField(absolute)]
    case PendingContent(_, attempts, epoch, generation) =>
      [IntegerField(attempts), IntegerField(epoch), IntegerField(generation)]
  }

  function ContentFields(c: Content): seq<seq<byte>> {
    match c
    case SessionContent(id, factors, _, _, _, _, _) =>
      [TextField(Utf8(CanonicalText(id)))] + ([CountField(factors)] + TextFields(factors) + AfterTheFactors(c))
    case PendingContent(factors, _, _, _) =>
      [CountField(factors)] + TextFields(factors) + AfterTheFactors(c)
    case CeremonyContent(ceremony) => [TextField(ceremony)]
    case PayloadContent(payload) => [OptionalText(PayloadText(payload))]
  }

  function HeadFields(b: Binding): seq<seq<byte>> {
    [TextField(BINDING_CONTEXT), TextField(Utf8(PurposeText(b.purpose))), OptionalText(OwnerText(b.ownerId)),
     BytesField(b.tokenSha256)]
  }

  predicate IntegersAreSafe(c: Content) {
    match c
    case SessionContent(_, _, epoch, created, generation, _, _) => IsSafe(epoch) && IsSafe(created) && IsSafe(generation)
    case PendingContent(_, attempts, epoch, generation) => IsSafe(attempts) && IsSafe(epoch) && IsSafe(generation)
    case _ => true
  }

  /** None where an integer past the exact ones makes the encoder throw. */
  function EncodeBinding(b: Binding): Option<seq<byte>> {
    if IntegersAreSafe(b.content) then Some(Concat(HeadFields(b) + ContentFields(b.content))) else None
  }

  // ---- which rows are one row

  predicate KindFollows(b: Binding) {
    match b.purpose
    case Session => b.content.SessionContent?
    case PendingAuthentication => b.content.PendingContent?
    case WebauthnChallenge => b.content.CeremonyContent?
    case OneTimeToken(_) => b.content.PayloadContent?
  }

  /** One identifier, however it is spelled; a spelling of no uuid only up to letter case. */
  predicate SameId(a: string, b: string) {
    DigitsOf(a) == DigitsOf(b) && (DigitsOf(a).None? ==> Lower(a) == Lower(b))
  }

  predicate SameContent(c: Content, d: Content) {
    match (c, d)
    case (SessionContent(i, _, _, _, _, _, _), SessionContent(j, _, _, _, _, _, _)) =>
      SameId(i, j) && c.(sessionId := j) == d
    case (PayloadContent(Some(v)), PayloadContent(Some(w))) => MeaningOf(v) == MeaningOf(w)
    case _ => c == d
  }

  predicate SameHead(a: Binding, b: Binding) {
    && a.purpose == b.purpose && a.tokenSha256 == b.tokenSha256
    && a.ownerId.Some? == b.ownerId.Some?
    && (a.ownerId.Some? ==> SameId(a.ownerId.value, b.ownerId.value))
  }

  predicate SameRow(a: Binding, b: Binding) {
    SameHead(a, b) && SameContent(a.content, b.content)
  }

  /** A ceremony whose text is the canonical JSON of the other row's payload. */
  predicate CeremonySpells(c: Content, d: Content) {
    && c.CeremonyContent? && d.PayloadContent? && d.payload.Some?
    && c.ceremony == CanonicalJsonOf(d.payload.value)
  }

  // ---- the lengths four bytes can carry

  predicate ShortTexts(items: seq<StateEncoding.Text>) {
    forall t | t in items :: |t| < TWO_TO_THE_32
  }

  predicate FitsContent(c: Content) {
    match c
    case SessionContent(id, factors, _, _, _, idle, absolute) =>
      && |Utf8(CanonicalText(id))| < TWO_TO_THE_32 && ShortTexts(factors)
      && |idle| < TWO_TO_THE_32 && |absolute| < TWO_TO_THE_32
    case PendingContent(factors, _, _, _) => ShortTexts(factors)
    case CeremonyContent(ceremony) => |ceremony| < TWO_TO_THE_32
    case PayloadContent(None) => true
    case PayloadContent(Some(v)) => CanonicalJson.WellFormed(v) && |CanonicalJsonOf(v)| < TWO_TO_THE_32
  }

  predicate FitsBinding(b: Binding) {
    && (b.ownerId.Some? ==> |Utf8(CanonicalText(b.ownerId.value))| < TWO_TO_THE_32)
    && |b.tokenSha256| < TWO_TO_THE_32 && IntegersAreSafe(b.content) && FitsContent(b.content)
  }

  // ---- every field can be told from what follows it

  lemma OptionalTextIsDelimited(v: Option<seq<byte>>)
    requires v.Some? ==> |v.value| < TWO_TO_THE_32
    ensures Delimited(OptionalText(v), COUNTED)
  {
    SmallFieldsAreDelimited(0, true);
    if v.Some? {
      BytesAreDelimited(v.value);
    }
  }

  lemma FactorsAreDelimited(items: seq<StateEncoding.Text>)
    requires ShortTexts(items)
    ensures forall f | f in [CountField(items)] + TextFields(items) :: Delimited(f, COUNTED)
  {
    FieldIsDelimited(LIST, |items|, [], COUNTED);
    forall f | f in TextFields(items)
      ensures Delimited(f, COUNTED)
    {
      var i :| 0 <= i < |items| && f == TextField(items[i]);
      assert items[i] in items;
      BytesAreDelimited(items[i]);
    }
  }

  lemma TailIsDelimited(c: Content)
    requires c.SessionContent? || c.PendingContent?
    requires FitsContent(c)
    ensures forall f | f in AfterTheFactors(c) :: Delimited(f, COUNTED)
  {
    hide Delimited;
    match c
    case SessionContent(_, _, epoch, created, generation, idle, absolute) =>
      SmallFieldsAreDelimited(epoch, true);
      SmallFieldsAreDelimited(created, true);
      SmallFieldsAreDelimited(generation, true);
      BytesAreDelimited(idle);
      BytesAreDelimited(absolute);
    case PendingContent(_, attempts, epoch, generation) =>
      SmallFieldsAreDelimited(attempts, true);
      SmallFieldsAreDelimited(epoch, true);
      SmallFieldsAreDelimited(generation, true);
  }

  lemma ContentIsDelimited(c: Content)
    requires FitsContent(c)
    ensures forall f | f in ContentFields(c) :: Delimited(f, COUNTED)
  {
    match c
    case SessionContent(id, factors, _, _, _, _, _) =>
      BytesAreDelimited(Utf8(CanonicalText(id)));
      FactorsAreDelimited(factors);
      TailIsDelimited(c);
    case PendingContent(factors, _, _, _) =>
      FactorsAreDelimited(factors);
      TailIsDelimited(c);
    case CeremonyContent(ceremony) => BytesAreDelimited(ceremony);
    case PayloadContent(payload) => OptionalTextIsDelimited(PayloadText(payload));
  }

  lemma HeadIsDelimited(b: Binding)
    requires FitsBinding(b)
    ensures forall f | f in HeadFields(b) :: Delimited(f, COUNTED)
  {
    hide Delimited, Utf8, CanonicalText, FitsContent, IntegersAreSafe;
    BytesAreDelimited(BINDING_CONTEXT);
    Utf8Length(PurposeText(b.purpose));
    BytesAreDelimited(Utf8(PurposeText(b.purpose)));
    OptionalTextIsDelimited(OwnerText(b.ownerId));
    BytesAreDelimited(b.tokenSha256);
  }

  // ---- field by field

  lemma OptionalTextApart(a: Option<seq<byte>>, b: Option<seq<byte>>)
    requires OptionalText(a) == OptionalText(b)
    ensures a == b
  {
    assert OptionalText(a)[0] == if a.Some? then TEXT else ABSENT;
    assert OptionalText(b)[0] == if b.Some? then TEXT else ABSENT;
    if a.Some? && b.Some? {
      TextApart(a.value, b.value);
    }
  }

  lemma IdsApart(a: string, b: string)
    ensures Utf8(CanonicalText(a)) == Utf8(CanonicalText(b)) <==> SameId(a, b)
  {
    if Utf8(CanonicalText(a)) == Utf8(CanonicalText(b)) {
      Utf8Injective(CanonicalText(a), CanonicalText(b));
    }
    CanonicalTextMeaning(a, b);
  }

  lemma PurposesApart(p: RowPurpose, q: RowPurpose)
    requires PurposeText(p) == PurposeText(q)
    ensures p == q
  {
    assert "email_verify"[6] == 'v' && "email_change"[6] == 'c';
  }

  lemma HeadsApart(a: Binding, b: Binding)
    requires HeadFields(a) == HeadFields(b)
    ensures a.purpose == b.purpose && a.tokenSha256 == b.tokenSha256
    ensures OwnerText(a.ownerId) == OwnerText(b.ownerId)
  {
    var x, y := HeadFields(a), HeadFields(b);
    assert x[1] == y[1] && x[2] == y[2] && x[3] == y[3];
    TextApart(Utf8(PurposeText(a.purpose)), Utf8(PurposeText(b.purpose)));
    Utf8Injective(PurposeText(a.purpose), PurposeText(b.purpose));
    PurposesApart(a.purpose, b.purpose);
    OptionalTextApart(OwnerText(a.ownerId), OwnerText(b.ownerId));
    BytesApart(a.tokenSha256, b.tokenSha256);
  }

  lemma TextsHaveTheirTag(items: seq<StateEncoding.Text>)
    ensures AllHaveTag(TextFields(items), TEXT)
  {
  }

  /** The integers after the factors end their list. */
  lemma IntegersEndTheFactors(c: Content)
    requires c.SessionContent? || c.PendingContent?
    ensures EndsTheRun(AfterTheFactors(c), TEXT)
  {
    assert AfterTheFactors(c)[0][0] == INTEGER;
  }

  lemma FactorsApart(xs: seq<StateEncoding.Text>, s: seq<seq<byte>>, ys: seq<StateEncoding.Text>, t: seq<seq<byte>>)
    requires EndsTheRun(s, TEXT) && EndsTheRun(t, TEXT)
    requires [CountField(xs)] + TextFields(xs) + s == [CountField(ys)] + TextFields(ys) + t
    ensures xs == ys && s == t
  {
    TextsHaveTheirTag(xs);
    TextsHaveTheirTag(ys);
    CountedApart(|TextFields(xs)|, TextFields(xs), s, |TextFields(ys)|, TextFields(ys), t, TEXT);
    assert |xs| == |ys|;
    forall i | 0 <= i < |xs|
      ensures xs[i] == ys[i]
    {
      assert TextFields(xs)[i] == TextFields(ys)[i];
      TextApart(xs[i], ys[i]);
    }
  }

  lemma TailsApart(c: Content, d: Content)
    requires (c.SessionContent? && d.SessionContent?) || (c.PendingContent? && d.PendingContent?)
    requires IntegersAreSafe(c) && IntegersAreSafe(d) && AfterTheFactors(c) == AfterTheFactors(d)
    ensures c.SessionContent? ==> c.(sessionId := d.sessionId, factors := d.factors) == d
    ensures c.PendingContent? ==>
      c.attempts == d.attempts && c.sessionEpoch == d.sessionEpoch && c.attemptGeneration == d.attemptGeneration
  {
    var x, y := AfterTheFactors(c), AfterTheFactors(d);
    assert x[0] == y[0] && x[1] == y[1] && x[2] == y[2];
    match c
    case SessionContent(_, _, epoch, created, generation, idle, absolute) =>
      assert x[3] == y[3] && x[4] == y[4];
      IntegerApart(epoch, d.sessionEpoch);
      IntegerApart(created, d.createdAtMicros);
      IntegerApart(generation, d.sessionGeneration);
      TextApart(idle, d.idleExpiresAt);
      TextApart(absolute, d.absoluteExpiresAt);
    case PendingContent(_, attempts, epoch, generation) =>
      IntegerApart(attempts, d.attempts);
      IntegerApart(epoch, d.sessionEpoch);
      IntegerApart(generation, d.attemptGeneration);
  }

  lemma SessionsApart(c: Content, d: Content)
    requires c.SessionContent? && d.SessionContent?
    requires FitsContent(c) && FitsContent(d) && IntegersAreSafe(c) && IntegersAreSafe(d)
    requires ContentFields(c) == ContentFields(d)
    ensures SameContent(c, d)
  {
    var x, y := ContentFields(c), ContentFields(d);
    assert x[0] == y[0] && x[1..] == y[1..];
    TextApart(Utf8(CanonicalText(c.sessionId)), Utf8(CanonicalText(d.sessionId)));
    IdsApart(c.sessionId, d.sessionId);
    assert x[1..] == [CountField(c.factors)] + TextFields(c.factors) + AfterTheFactors(c);
    assert y[1..] == [CountField(d.factors)] + TextFields(d.factors) + AfterTheFactors(d);
    IntegersEndTheFactors(c);
    IntegersEndTheFactors(d);
    FactorsApart(c.factors, AfterTheFactors(c), d.factors, AfterTheFactors(d));
    TailsApart(c, d);
  }

  lemma ContentsApart(c: Content, d: Content)
    requires c.SessionContent? == d.SessionContent? && c.PendingContent? == d.PendingContent?
    requires c.CeremonyContent? == d.CeremonyContent?
    requires FitsContent(c) && FitsContent(d) && IntegersAreSafe(c) && IntegersAreSafe(d)
    requires ContentFields(c) == ContentFields(d)
    ensures SameContent(c, d)
  {
    match c
    case SessionContent(_, _, _, _, _, _, _) => SessionsApart(c, d);
    case PendingContent(factors, _, _, _) =>
      IntegersEndTheFactors(c);
      IntegersEndTheFactors(d);
      FactorsApart(factors, AfterTheFactors(c), d.factors, AfterTheFactors(d));
      TailsApart(c, d);
    case CeremonyContent(ceremony) =>
      assert ContentFields(c)[0] == ContentFields(d)[0];
      TextApart(ceremony, d.ceremony);
    case PayloadContent(payload) =>
      assert ContentFields(c)[0] == ContentFields(d)[0];
      OptionalTextApart(PayloadText(payload), PayloadText(d.payload));
      if payload.Some? {
        CanonicalJsonIsTheMeaning(payload.value, d.payload.value);
      }
  }

  /** Contents of two kinds: their first fields or the number of their fields tell them apart, but
      for a ceremony that spells a payload. */
  lemma KindsApart(c: Content, d: Content)
    requires c.SessionContent? != d.SessionContent? || c.PendingContent? != d.PendingContent?
          || c.CeremonyContent? != d.CeremonyContent?
    requires ContentFields(c) == ContentFields(d)
    ensures CeremonySpells(c, d) || CeremonySpells(d, c)
  {
    FirstTag(c);
    FirstTag(d);
    if c.CeremonyContent? && d.PayloadContent? {
      SpelledApart(c, d);
    }
    if d.CeremonyContent? && c.PayloadContent? {
      SpelledApart(d, c);
    }
  }

  lemma FirstTag(c: Content)
    ensures var x := ContentFields(c);
            && x != [] && x[0] != []
            && (c.SessionContent? ==> |x| > 1 && x[0][0] == TEXT)
            && (c.PendingContent? ==> |x| > 1 && x[0][0] == LIST)
            && (c.CeremonyContent? || c.PayloadContent? ==> |x| == 1)
  {
  }

  lemma SpelledApart(c: Content, d: Content)
    requires c.CeremonyContent? && d.PayloadContent? && ContentFields(c) == ContentFields(d)
    ensures CeremonySpells(c, d)
  {
    assert ContentFields(c)[0] == ContentFields(d)[0];
    assert ContentFields(c)[0] == OptionalText(Some(c.ceremony));
    OptionalTextApart(Some(c.ceremony), PayloadText(d.payload));
  }

  lemma SameContentSameFields(c: Content, d: Content)
    requires FitsContent(c) && FitsContent(d) && SameContent(c, d)
    ensures ContentFields(c) == ContentFields(d)
  {
    if c.SessionContent? {
      IdsApart(c.sessionId, d.sessionId);
      assert AfterTheFactors(c) == AfterTheFactors(d);
    }
    if c.PayloadContent? && c.payload.Some? {
      CanonicalJsonIsTheMeaning(c.payload.value, d.payload.value);
    }
  }

  lemma SameHeadSameFields(a: Binding, b: Binding)
    requires SameHead(a, b)
    ensures HeadFields(a) == HeadFields(b)
  {
    if a.ownerId.Some? {
      IdsApart(a.ownerId.value, b.ownerId.value);
    }
  }

  lemma HeadsMeaning(a: Binding, b: Binding)
    ensures HeadFields(a) == HeadFields(b) <==> SameHead(a, b)
  {
    if HeadFields(a) == HeadFields(b) {
      HeadsApart(a, b);
      if a.ownerId.Some? {
        IdsApart(a.ownerId.value, b.ownerId.value);
      }
    }
    if SameHead(a, b) {
      SameHeadSameFields(a, b);
    }
  }

  lemma ContentsMeaning(c: Content, d: Content)
    requires FitsContent(c) && FitsContent(d) && IntegersAreSafe(c) && IntegersAreSafe(d)
    ensures ContentFields(c) == ContentFields(d)
      <==> SameContent(c, d) || CeremonySpells(c, d) || CeremonySpells(d, c)
  {
    hide ContentFields, FitsContent, IntegersAreSafe, SameContent;
    if ContentFields(c) == ContentFields(d) {
      if c.SessionContent? != d.SessionContent? || c.PendingContent? != d.PendingContent?
         || c.CeremonyContent? != d.CeremonyContent? {
        KindsApart(c, d);
      } else {
        ContentsApart(c, d);
      }
    }
    if SameContent(c, d) {
      SameContentSameFields(c, d);
    }
    if CeremonySpells(c, d) {
      SpelledAlike(c, d);
    }
    if CeremonySpells(d, c) {
      SpelledAlike(d, c);
    }
  }

  lemma SpelledAlike(c: Content, d: Content)
    requires CeremonySpells(c, d)
    ensures ContentFields(c) == ContentFields(d)
  {
  }

  /** The main result, whatever kind of content stands under whatever purpose: two rows are bound
      alike exactly when they are one row up to the spelling of uuids and the order of JSON members,
      or agree on all but a ceremony that spells the other's payload. */
  lemma BoundAlikeExactly(a: Binding, b: Binding)
    requires FitsBinding(a) && FitsBinding(b)
    ensures EncodeBinding(a) == EncodeBinding(b)
      <==> SameHead(a, b)
           && (SameContent(a.content, b.content)
               || CeremonySpells(a.content, b.content) || CeremonySpells(b.content, a.content))
  {
    FieldsAreRead(a, b);
    HeadsMeaning(a, b);
    ContentsMeaning(a.content, b.content);
  }

  lemma FieldsAreRead(a: Binding, b: Binding)
    requires FitsBinding(a) && FitsBinding(b)
    ensures EncodeBinding(a) == EncodeBinding(b)
      <==> HeadFields(a) == HeadFields(b) && ContentFields(a.content) == ContentFields(b.content)
  {
    var h, c := HeadFields(a), ContentFields(a.content);
    var h', c' := HeadFields(b), ContentFields(b.content);
    assert |h| == 4 == |h'|;
    if EncodeBinding(a) == EncodeBinding(b) {
      HeadIsDelimited(a);
      ContentIsDelimited(a.content);
      HeadIsDelimited(b);
      ContentIsDelimited(b.content);
      hide HeadFields, ContentFields, Delimited, FitsContent;
      UniquelyDecodable(h + c, h' + c', COUNTED);
      SplitAt(h, c, h', c');
    }
  }

  /** Where the content kind follows from the purpose, as for every caller, no ceremony stands beside
      a payload, and two rows are bound alike exactly when they are one row. */
  lemma BindingIsInjective(a: Binding, b: Binding)
    requires FitsBinding(a) && FitsBinding(b) && KindFollows(a) && KindFollows(b)
    ensures EncodeBinding(a) == EncodeBinding(b) <==> SameRow(a, b)
  {
    hide EncodeBinding, SameContent, FitsBinding;
    BoundAlikeExactly(a, b);
  }

  lemma FirstOfConcat(x: seq<seq<byte>>, first: seq<byte>)
    requires x != [] && x[0] == first
    ensures Concat(x) == first + Concat(x[1..])
  {
  }

  /** What is sealed and what is bound are never the same bytes, so a MAC over one is none over the other. */
  lemma NoStateIsABinding(s: State, b: Binding)
    requires Encodable(s) && IntegersAreSafe(b.content)
    ensures Encode(s) != EncodeBinding(b)
  {
    var x, y := FieldsOf(s), HeadFields(b) + ContentFields(b.content);
    FirstOfConcat(x, TextField(SEAL_CONTEXT));
    FirstOfConcat(y, TextField(BINDING_CONTEXT));
    if Concat(x) == Concat(y) {
      BytesAreDelimited(SEAL_CONTEXT);
      BytesAreDelimited(BINDING_CONTEXT);
      ContextsDiffer();
      hide TextField, FieldsOf, HeadFields, ContentFields, Delimited;
      DelimitedSplit(TextField(SEAL_CONTEXT), Concat(x[1..]), TextField(BINDING_CONTEXT), Concat(y[1..]), COUNTED);
      assert false;
    }
  }

  lemma ContextsDiffer()
    ensures TextField(SEAL_CONTEXT) != TextField(BINDING_CONTEXT)
  {
    assert |TextField(SEAL_CONTEXT)| != |TextField(BINDING_CONTEXT)|;
  }

  /** An instance of that exception: a ceremony spelled {} and an empty payload are bound alike. */
  lemma KindsOutsideTheirPurposeCollide(purpose: RowPurpose, owner: Option<string>, hash: seq<byte>)
    ensures var a := Binding(purpose, owner, hash, CeremonyContent([123, 125]));
            var b := Binding(purpose, owner, hash, PayloadContent(Some(Obj([]))));
            EncodeBinding(a) == EncodeBinding(b) && a.content != b.content && !(KindFollows(a) && KindFollows(b))
  {
    assert SortByKey(OrderedEntries([])) == [];
    assert CanonicalJsonOf(Obj([])) == [123, 125];
  }
}

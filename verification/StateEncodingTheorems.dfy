/** No two different states share an encoding, and one state has one encoding. */
module StateEncodingTheorems {
  import opened Bytes
  import opened EncodingOrder
  import opened Options
  import opened Sequences
  import opened Uuids
  import opened StateEncoding

  // ---- single fields

  lemma IntegerApart(v: int, w: int)
    requires IsSafe(v) && IsSafe(w) && IntegerField(v) == IntegerField(w)
    ensures v == w
  {
    FieldInjective(INTEGER, 8, Int64(v), INTEGER, 8, Int64(w));
    Int64Apart(v, w);
  }

  lemma Int64Apart(v: int, w: int)
    requires IsSafe(v) && IsSafe(w) && Int64(v) == Int64(w)
    ensures v == w
  {
    Pow256Values();
    TwosComplement(v);
    TwosComplement(w);
    EightBytesHold(v % 0x1_0000_0000_0000_0000, w % 0x1_0000_0000_0000_0000);
  }

  lemma TwosComplement(v: int)
    requires IsSafe(v)
    ensures v % 0x1_0000_0000_0000_0000 == if v < 0 then v + 0x1_0000_0000_0000_0000 else v
  {
  }

  lemma UuidApart(a: string, b: string)
    requires UuidOf(a).Some? && UuidOf(b).Some? && UuidField(a) == UuidField(b)
    ensures UuidOrEmpty(a) == UuidOrEmpty(b)
  {
    FieldInjective(UUID, UUID_BYTES, UuidOrEmpty(a), UUID, UUID_BYTES, UuidOrEmpty(b));
  }

  lemma BooleanApart(a: bool, b: bool)
    requires BooleanField(a) == BooleanField(b)
    ensures a == b
  {
    FieldInjective(BOOLEAN, 1, [if a then 1 else 0], BOOLEAN, 1, [if b then 1 else 0]);
  }

  lemma BytesApart(a: seq<byte>, b: seq<byte>)
    requires BytesField(a) == BytesField(b)
    ensures a == b
  {
    FieldInjective(BYTES, |a|, a, BYTES, |b|, b);
  }

  lemma TextApart(a: Text, b: Text)
    requires TextField(a) == TextField(b)
    ensures a == b
  {
    FieldInjective(TEXT, |a|, a, TEXT, |b|, b);
  }

  lemma OptionalBytesApart(a: Option<seq<byte>>, b: Option<seq<byte>>)
    requires OptionalBytes(a) == OptionalBytes(b)
    ensures a == b
  {
    assert OptionalBytes(a)[0] == if a.Some? then BYTES else ABSENT;
    assert OptionalBytes(b)[0] == if b.Some? then BYTES else ABSENT;
    if a.Some? && b.Some? {
      BytesApart(a.value, b.value);
    }
  }

  lemma RecordApart(xs: seq<seq<byte>>, ys: seq<seq<byte>>)
    requires forall x | x in xs :: Delimited(x, COUNTED)
    requires forall y | y in ys :: Delimited(y, COUNTED)
    requires RecordField(xs) == RecordField(ys)
    ensures xs == ys
  {
    FieldInjective(RECORD, |Concat(xs)|, Concat(xs), RECORD, |Concat(ys)|, Concat(ys));
    UniquelyDecodable(xs, ys, COUNTED);
  }

  // ---- every field can be told from what follows it

  lemma SmallFieldsAreDelimited(v: int, b: bool)
    ensures Delimited(IntegerField(v), COUNTED) && Delimited(BooleanField(b), COUNTED) && Delimited(AbsentField(), COUNTED)
  {
    FieldIsDelimited(INTEGER, 8, Int64(v), COUNTED);
    FieldIsDelimited(BOOLEAN, 1, [if b then 1 else 0], COUNTED);
    FieldIsDelimited(ABSENT, 0, [], COUNTED);
  }

  lemma BytesAreDelimited(v: seq<byte>)
    requires |v| < TWO_TO_THE_32
    ensures Delimited(BytesField(v), COUNTED) && Delimited(TextField(v), COUNTED)
  {
    FieldIsDelimited(BYTES, |v|, v, COUNTED);
    FieldIsDelimited(TEXT, |v|, v, COUNTED);
  }

  lemma UuidIsDelimited(id: string)
    requires UuidOf(id).Some?
    ensures Delimited(UuidField(id), COUNTED)
  {
    FieldIsDelimited(UUID, UUID_BYTES, UuidOrEmpty(id), COUNTED);
  }

  lemma ConcatOfTwo(a: seq<byte>, b: seq<byte>)
    ensures Concat([a, b]) == a + b
  {
    assert [a, b][1..] == [b] && [b][1..] == [];
    assert Concat([b]) == b + [];
  }

  lemma ConcatOfThree(a: seq<byte>, b: seq<byte>, c: seq<byte>)
    ensures Concat([a, b, c]) == a + b + c
  {
    assert [a, b, c][1..] == [b, c];
    ConcatOfTwo(b, c);
  }

  lemma PasswordIsDelimited(p: Password)
    requires EncodablePassword(p)
    ensures forall f | f in PasswordParts(p) :: Delimited(f, COUNTED)
    ensures Delimited(RecordField(PasswordParts(p)), COUNTED)
  {
    BytesAreDelimited(p.phcSha256);
    SmallFieldsAreDelimited(p.keyVersion, true);
    if p.setBySessionId.Some? {
      UuidIsDelimited(p.setBySessionId.value);
    }
    var parts := PasswordParts(p);
    ConcatOfThree(parts[0], parts[1], parts[2]);
    FieldIsDelimited(RECORD, |Concat(parts)|, Concat(parts), COUNTED);
  }

  lemma TotpIsDelimited(t: Totp)
    requires EncodableTotp(t)
    ensures forall f | f in TotpParts(t) :: Delimited(f, COUNTED)
    ensures Delimited(RecordField(TotpParts(t)), COUNTED)
  {
    SmallFieldsAreDelimited(t.keyVersion, t.confirmed);
    BytesAreDelimited(t.secretSha256);
    var parts := TotpParts(t);
    ConcatOfThree(parts[0], parts[1], parts[2]);
    FieldIsDelimited(RECORD, |Concat(parts)|, Concat(parts), COUNTED);
  }

  lemma PairIsDelimited(a: seq<byte>, b: seq<byte>)
    requires Delimited(a, COUNTED) && Delimited(b, COUNTED) && |a| + |b| < TWO_TO_THE_32
    ensures Delimited(RecordField([a, b]), COUNTED)
  {
    ConcatOfTwo(a, b);
    FieldIsDelimited(RECORD, |Concat([a, b])|, Concat([a, b]), COUNTED);
  }

  lemma PairApart(a: seq<byte>, b: seq<byte>, c: seq<byte>, d: seq<byte>)
    requires Delimited(a, COUNTED) && Delimited(b, COUNTED) && Delimited(c, COUNTED) && Delimited(d, COUNTED)
    requires RecordField([a, b]) == RecordField([c, d])
    ensures a == c && b == d
  {
    RecordApart([a, b], [c, d]);
    assert [a, b][0] == [c, d][0] && [a, b][1] == [c, d][1];
  }

  lemma PasskeyApart(p: Passkey, q: Passkey)
    requires FitsPasskey(p) && FitsPasskey(q)
    ensures Delimited(PasskeyField(p), COUNTED)
    ensures PasskeyField(p) == PasskeyField(q) ==> p == q
  {
    BytesAreDelimited(p.credentialId);
    BytesAreDelimited(p.publicKey);
    BytesAreDelimited(q.credentialId);
    BytesAreDelimited(q.publicKey);
    PairIsDelimited(BytesField(p.credentialId), BytesField(p.publicKey));
    if PasskeyField(p) == PasskeyField(q) {
      PairApart(BytesField(p.credentialId), BytesField(p.publicKey), BytesField(q.credentialId), BytesField(q.publicKey));
      BytesApart(p.credentialId, q.credentialId);
      BytesApart(p.publicKey, q.publicKey);
    }
  }

  lemma IdentityApart(p: Identity, q: Identity)
    requires FitsIdentity(p) && FitsIdentity(q)
    ensures Delimited(IdentityField(p), COUNTED)
    ensures IdentityField(p) == IdentityField(q) ==> p == q
  {
    BytesAreDelimited(p.provider);
    BytesAreDelimited(p.subject);
    BytesAreDelimited(q.provider);
    BytesAreDelimited(q.subject);
    PairIsDelimited(TextField(p.provider), TextField(p.subject));
    if IdentityField(p) == IdentityField(q) {
      PairApart(TextField(p.provider), TextField(p.subject), TextField(q.provider), TextField(q.subject));
      TextApart(p.provider, q.provider);
      TextApart(p.subject, q.subject);
    }
  }

  lemma CodeApart(p: RecoveryCode, q: RecoveryCode)
    requires FitsCode(p) && FitsCode(q)
    ensures Delimited(CodeField(p), COUNTED)
    ensures CodeField(p) == CodeField(q) ==> p == q
  {
    SmallFieldsAreDelimited(p.keyVersion, true);
    SmallFieldsAreDelimited(q.keyVersion, true);
    BytesAreDelimited(p.codeHmac);
    BytesAreDelimited(q.codeHmac);
    PairIsDelimited(IntegerField(p.keyVersion), BytesField(p.codeHmac));
    if CodeField(p) == CodeField(q) {
      PairApart(IntegerField(p.keyVersion), BytesField(p.codeHmac), IntegerField(q.keyVersion), BytesField(q.codeHmac));
      IntegerApart(p.keyVersion, q.keyVersion);
      BytesApart(p.codeHmac, q.codeHmac);
    }
  }

  // ---- lists

  lemma ListIsDelimited(elements: seq<seq<byte>>)
    requires forall e | e in elements :: Delimited(e, COUNTED)
    ensures forall f | f in ListFields(elements) :: Delimited(f, COUNTED)
  {
    FieldIsDelimited(LIST, |elements|, [], COUNTED);
    forall f | f in ListFields(elements)
      ensures Delimited(f, COUNTED)
    {
      if f != Field(LIST, |elements|, []) {
        assert f in Sort(elements);
        assert f in multiset(Sort(elements));
      }
    }
  }

  predicate HasTag(f: seq<byte>, tag: byte) {
    f != [] && f[0] == tag
  }

  predicate AllHaveTag(fields: seq<seq<byte>>, tag: byte) {
    forall f | f in fields :: HasTag(f, tag)
  }

  /** What comes after a list does not look like one more element of it. */
  predicate EndsTheRun(rest: seq<seq<byte>>, tag: byte) {
    rest != [] ==> !HasTag(rest[0], tag)
  }

  /** A list ends before the first field of another type, whatever its count has wrapped to. */
  lemma ListsApart(xs: seq<seq<byte>>, s: seq<seq<byte>>, ys: seq<seq<byte>>, t: seq<seq<byte>>)
    requires AllHaveTag(xs, RECORD) && AllHaveTag(ys, RECORD) && EndsTheRun(s, RECORD) && EndsTheRun(t, RECORD)
    requires ListFields(xs) + s == ListFields(ys) + t
    ensures multiset(xs) == multiset(ys) && s == t
  {
    SortKeepsTags(xs, RECORD);
    SortKeepsTags(ys, RECORD);
    CountedApart(|xs|, Sort(xs), s, |ys|, Sort(ys), t, RECORD);
  }

  lemma SortKeepsTags(xs: seq<seq<byte>>, tag: byte)
    requires AllHaveTag(xs, tag)
    ensures AllHaveTag(Sort(xs), tag)
  {
    forall f | f in Sort(xs)
      ensures HasTag(f, tag)
    {
      assert f in multiset(Sort(xs));
    }
  }

  lemma CountedApart(
      m: nat, p: seq<seq<byte>>, s: seq<seq<byte>>, n: nat, q: seq<seq<byte>>, t: seq<seq<byte>>, tag: byte)
    requires AllHaveTag(p, tag) && AllHaveTag(q, tag) && EndsTheRun(s, tag) && EndsTheRun(t, tag)
    requires [Field(LIST, m, [])] + p + s == [Field(LIST, n, [])] + q + t
    ensures p == q && s == t
  {
    hide Field, HasTag;
    HeadsFirst(Field(LIST, m, []), p, s, Field(LIST, n, []), q, t);
    RunIsNotLonger(p, s, q, t, tag);
    RunIsNotLonger(q, t, p, s, tag);
    SplitAt(p, s, q, t);
  }

  lemma RunIsNotLonger(p: seq<seq<byte>>, s: seq<seq<byte>>, q: seq<seq<byte>>, t: seq<seq<byte>>, tag: byte)
    requires AllHaveTag(q, tag) && EndsTheRun(s, tag) && p + s == q + t
    ensures |q| <= |p|
  {
    hide HasTag;
    NextAfter(p, s, q, t);
  }

  lemma NextAfter<T>(p: seq<T>, s: seq<T>, q: seq<T>, t: seq<T>)
    requires p + s == q + t
    ensures |p| < |q| ==> s != [] && s[0] == q[|p|]
  {
    if |p| < |q| {
      assert s[0] == (p + s)[|p|] == (q + t)[|p|];
    }
  }

  lemma HeadsFirst<T>(x: T, p: seq<T>, s: seq<T>, y: T, q: seq<T>, t: seq<T>)
    requires [x] + p + s == [y] + q + t
    ensures x == y && p + s == q + t
  {
    assert x == ([x] + p + s)[0] && y == ([y] + q + t)[0];
    assert p + s == ([x] + p + s)[1..] && q + t == ([y] + q + t)[1..];
  }

  lemma ThreeListsApart(
      p: seq<seq<byte>>, q: seq<seq<byte>>, r: seq<seq<byte>>,
      p': seq<seq<byte>>, q': seq<seq<byte>>, r': seq<seq<byte>>)
    requires AllHaveTag(p, RECORD) && AllHaveTag(q, RECORD) && AllHaveTag(r, RECORD)
    requires AllHaveTag(p', RECORD) && AllHaveTag(q', RECORD) && AllHaveTag(r', RECORD)
    requires ListFields(p) + ListFields(q) + ListFields(r) == ListFields(p') + ListFields(q') + ListFields(r')
    ensures multiset(p) == multiset(p') && multiset(q) == multiset(q') && multiset(r) == multiset(r')
  {
    hide AllHaveTag;
    ListStarts(q, ListFields(r));
    ListStarts(q', ListFields(r'));
    ListStarts(r, []);
    ListStarts(r', []);
    hide ListFields, EndsTheRun;
    var fp, fq, fr := ListFields(p), ListFields(q), ListFields(r);
    var gp, gq, gr := ListFields(p'), ListFields(q'), ListFields(r');
    Associate(fp, fq, fr);
    Associate(gp, gq, gr);
    assert fr + [] == fr && gr + [] == gr;
    ListsApart(p, fq + fr, p', gq + gr);
    ListsApart(q, fr, q', gr);
    ListsApart(r, [], r', []);
  }

  lemma ListStarts(xs: seq<seq<byte>>, rest: seq<seq<byte>>)
    ensures EndsTheRun(ListFields(xs) + rest, RECORD) && EndsTheRun([], RECORD)
  {
    assert (ListFields(xs) + rest)[0] == Field(LIST, |xs|, []);
  }

  lemma RowsAreRecords(c: Components)
    ensures AllHaveTag(Map(PasskeyField, c.passkeys), RECORD)
    ensures AllHaveTag(Map(IdentityField, c.identities), RECORD)
    ensures AllHaveTag(Map(CodeField, c.recoveryCodes), RECORD)
  {
  }

  lemma SameList(xs: seq<seq<byte>>, ys: seq<seq<byte>>)
    requires multiset(xs) == multiset(ys)
    ensures ListFields(xs) == ListFields(ys)
  {
    SortedIsUnique(Sort(xs), Sort(ys));
    assert |xs| == |multiset(xs)| == |multiset(ys)| == |ys|;
  }

  // ---- the whole state

  lemma RowsAreDelimited(c: Components)
    requires Fits(c)
    ensures forall f | f in RowFields(c) :: Delimited(f, COUNTED)
  {
    var ps, links, rs := Map(PasskeyField, c.passkeys), Map(IdentityField, c.identities), Map(CodeField, c.recoveryCodes);
    forall e | e in ps
      ensures Delimited(e, COUNTED)
    {
      var k :| 0 <= k < |ps| && ps[k] == e;
      assert c.passkeys[k] in c.passkeys;
      PasskeyApart(c.passkeys[k], c.passkeys[k]);
    }
    forall e | e in links
      ensures Delimited(e, COUNTED)
    {
      var k :| 0 <= k < |links| && links[k] == e;
      assert c.identities[k] in c.identities;
      IdentityApart(c.identities[k], c.identities[k]);
    }
    forall e | e in rs
      ensures Delimited(e, COUNTED)
    {
      var k :| 0 <= k < |rs| && rs[k] == e;
      assert c.recoveryCodes[k] in c.recoveryCodes;
      CodeApart(c.recoveryCodes[k], c.recoveryCodes[k]);
    }
    ListIsDelimited(ps);
    ListIsDelimited(links);
    ListIsDelimited(rs);
  }

  lemma GenerationsAreDelimited(g: Generations)
    requires EncodableGenerations(g)
    ensures forall f | f in GenerationFields(g) :: Delimited(f, COUNTED)
  {
    SmallFieldsAreDelimited(g.componentsVersion, true);
    SmallFieldsAreDelimited(g.sessionGeneration, true);
    SmallFieldsAreDelimited(g.attemptGeneration, true);
    SmallFieldsAreDelimited(g.tokenGenerations.emailVerify, true);
    SmallFieldsAreDelimited(g.tokenGenerations.passwordReset, true);
    SmallFieldsAreDelimited(g.tokenGenerations.emailChange, true);
    SmallFieldsAreDelimited(g.tokenGenerations.magicLink, true);
    if g.attemptLast.Some? {
      BytesAreDelimited(g.attemptLast.value);
    }
    if g.tokenLast.Some? {
      BytesAreDelimited(g.tokenLast.value);
    }
  }

  lemma SinglesAreDelimited(c: Components)
    requires EncodableComponents(c) && Fits(c)
    ensures forall f | f in SingleFields(c) :: Delimited(f, COUNTED)
  {
    hide Delimited, TextField, BooleanField, AbsentField, RecordField, PasswordParts, TotpParts;
    SmallFieldsAreDelimited(0, c.emailVerified);
    SmallFieldsAreDelimited(0, c.disabled);
    SmallFieldsAreDelimited(0, c.passwordResetRequired);
    if c.email.Some? {
      BytesAreDelimited(c.email.value);
    }
    if c.password.Some? {
      PasswordIsDelimited(c.password.value);
    }
    if c.totp.Some? {
      TotpIsDelimited(c.totp.value);
    }
    var x := SingleFields(c);
    assert forall i | 0 <= i < 6 :: Delimited(x[i], COUNTED);
  }

  lemma FieldsAreDelimited(s: State)
    requires Encodable(s) && Fits(s.components)
    ensures forall f | f in FieldsOf(s) :: Delimited(f, COUNTED)
  {
    HeaderIsDelimited(s);
    GenerationsAreDelimited(s.generations);
    SinglesAreDelimited(s.components);
    RowsAreDelimited(s.components);
    AllDelimited(HeaderFields(s), GenerationFields(s.generations), SingleFields(s.components), RowFields(s.components));
  }

  lemma HeaderIsDelimited(s: State)
    requires Encodable(s)
    ensures forall f | f in HeaderFields(s) :: Delimited(f, COUNTED)
  {
    BytesAreDelimited(SEAL_CONTEXT);
    UuidIsDelimited(s.userId);
    SmallFieldsAreDelimited(s.version, true);
    SmallFieldsAreDelimited(s.sessionEpoch, true);
  }

  lemma AllDelimited(p: seq<seq<byte>>, q: seq<seq<byte>>, r: seq<seq<byte>>, t: seq<seq<byte>>)
    requires forall f | f in p :: Delimited(f, COUNTED)
    requires forall f | f in q :: Delimited(f, COUNTED)
    requires forall f | f in r :: Delimited(f, COUNTED)
    requires forall f | f in t :: Delimited(f, COUNTED)
    ensures forall f | f in p + q + r + t :: Delimited(f, COUNTED)
  {
  }

  lemma PasswordsApart(a: Option<Password>, b: Option<Password>)
    requires a.Some? ==> EncodablePassword(a.value)
    requires b.Some? ==> EncodablePassword(b.value)
    requires (match a case Some(p) => RecordField(PasswordParts(p)) case None => AbsentField())
          == (match b case Some(p) => RecordField(PasswordParts(p)) case None => AbsentField())
    ensures a.Some? == b.Some?
    ensures a.Some? ==> CanonicalPasswordOf(a.value) == CanonicalPasswordOf(b.value)
  {
    assert AbsentField()[0] == ABSENT;
    if a.Some? {
      assert RecordField(PasswordParts(a.value))[0] == RECORD;
    }
    if b.Some? {
      assert RecordField(PasswordParts(b.value))[0] == RECORD;
    }
    if a.Some? && b.Some? {
      var p, q := a.value, b.value;
      PasswordIsDelimited(p);
      PasswordIsDelimited(q);
      RecordApart(PasswordParts(p), PasswordParts(q));
      assert PasswordParts(p)[0] == PasswordParts(q)[0] && PasswordParts(p)[1] == PasswordParts(q)[1];
      assert PasswordParts(p)[2] == PasswordParts(q)[2];
      BytesApart(p.phcSha256, q.phcSha256);
      IntegerApart(p.keyVersion, q.keyVersion);
      if p.setBySessionId.Some? {
        assert UuidField(p.setBySessionId.value)[0] == UUID;
      }
      if q.setBySessionId.Some? {
        assert UuidField(q.setBySessionId.value)[0] == UUID;
      }
      if p.setBySessionId.Some? && q.setBySessionId.Some? {
        UuidApart(p.setBySessionId.value, q.setBySessionId.value);
      }
    }
  }

  lemma TotpsApart(a: Option<Totp>, b: Option<Totp>)
    requires a.Some? ==> EncodableTotp(a.value)
    requires b.Some? ==> EncodableTotp(b.value)
    requires (match a case Some(t) => RecordField(TotpParts(t)) case None => AbsentField())
          == (match b case Some(t) => RecordField(TotpParts(t)) case None => AbsentField())
    ensures a == b
  {
    assert AbsentField()[0] == ABSENT;
    if a.Some? {
      assert RecordField(TotpParts(a.value))[0] == RECORD;
    }
    if b.Some? {
      assert RecordField(TotpParts(b.value))[0] == RECORD;
    }
    if a.Some? && b.Some? {
      var p, q := a.value, b.value;
      TotpIsDelimited(p);
      TotpIsDelimited(q);
      RecordApart(TotpParts(p), TotpParts(q));
      assert TotpParts(p)[0] == TotpParts(q)[0] && TotpParts(p)[1] == TotpParts(q)[1] && TotpParts(p)[2] == TotpParts(q)[2];
      BooleanApart(p.confirmed, q.confirmed);
      BytesApart(p.secretSha256, q.secretSha256);
      IntegerApart(p.keyVersion, q.keyVersion);
    }
  }

  lemma RowsApart(a: Components, b: Components)
    requires Fits(a) && Fits(b) && RowFields(a) == RowFields(b)
    ensures multiset(a.passkeys) == multiset(b.passkeys)
    ensures multiset(a.identities) == multiset(b.identities)
    ensures multiset(a.recoveryCodes) == multiset(b.recoveryCodes)
  {
    var pa, ia, ra := Map(PasskeyField, a.passkeys), Map(IdentityField, a.identities), Map(CodeField, a.recoveryCodes);
    var pb, ib, rb := Map(PasskeyField, b.passkeys), Map(IdentityField, b.identities), Map(CodeField, b.recoveryCodes);
    RowsAreRecords(a);
    RowsAreRecords(b);
    ThreeListsApart(pa, ia, ra, pb, ib, rb);
    PasskeysApart(a.passkeys, b.passkeys);
    IdentitiesApart(a.identities, b.identities);
    CodesApart(a.recoveryCodes, b.recoveryCodes);
  }

  lemma PasskeysApart(xs: seq<Passkey>, ys: seq<Passkey>)
    requires forall x | x in xs + ys :: FitsPasskey(x)
    requires multiset(Map(PasskeyField, xs)) == multiset(Map(PasskeyField, ys))
    ensures multiset(xs) == multiset(ys)
  {
    forall x, y | x in xs && y in ys && PasskeyField(x) == PasskeyField(y)
      ensures x == y
    {
      assert x in xs + ys && y in xs + ys;
      PasskeyApart(x, y);
    }
    EncodedApart(PasskeyField, xs, ys);
  }

  lemma IdentitiesApart(xs: seq<Identity>, ys: seq<Identity>)
    requires forall x | x in xs + ys :: FitsIdentity(x)
    requires multiset(Map(IdentityField, xs)) == multiset(Map(IdentityField, ys))
    ensures multiset(xs) == multiset(ys)
  {
    forall x, y | x in xs && y in ys && IdentityField(x) == IdentityField(y)
      ensures x == y
    {
      assert x in xs + ys && y in xs + ys;
      IdentityApart(x, y);
    }
    EncodedApart(IdentityField, xs, ys);
  }

  lemma CodesApart(xs: seq<RecoveryCode>, ys: seq<RecoveryCode>)
    requires forall x | x in xs + ys :: FitsCode(x)
    requires multiset(Map(CodeField, xs)) == multiset(Map(CodeField, ys))
    ensures multiset(xs) == multiset(ys)
  {
    forall x, y | x in xs && y in ys && CodeField(x) == CodeField(y)
      ensures x == y
    {
      assert x in xs + ys && y in xs + ys;
      CodeApart(x, y);
    }
    EncodedApart(CodeField, xs, ys);
  }

  lemma GenerationsApart(a: Generations, b: Generations)
    requires EncodableGenerations(a) && EncodableGenerations(b)
    requires GenerationFields(a) == GenerationFields(b)
    ensures a == b
  {
    var x, y := GenerationFields(a), GenerationFields(b);
    assert x[0] == y[0] && x[1] == y[1] && x[2] == y[2] && x[3] == y[3] && x[4] == y[4];
    assert x[5] == y[5] && x[6] == y[6] && x[7] == y[7] && x[8] == y[8];
    IntegerApart(a.componentsVersion, b.componentsVersion);
    IntegerApart(a.sessionGeneration, b.sessionGeneration);
    IntegerApart(a.attemptGeneration, b.attemptGeneration);
    OptionalBytesApart(a.attemptLast, b.attemptLast);
    IntegerApart(a.tokenGenerations.emailVerify, b.tokenGenerations.emailVerify);
    IntegerApart(a.tokenGenerations.passwordReset, b.tokenGenerations.passwordReset);
    IntegerApart(a.tokenGenerations.emailChange, b.tokenGenerations.emailChange);
    IntegerApart(a.tokenGenerations.magicLink, b.tokenGenerations.magicLink);
    OptionalBytesApart(a.tokenLast, b.tokenLast);
  }

  lemma EmailsApart(a: Option<Text>, b: Option<Text>)
    requires (match a case Some(e) => TextField(e) case None => AbsentField())
          == (match b case Some(e) => TextField(e) case None => AbsentField())
    ensures a == b
  {
    assert AbsentField()[0] == ABSENT;
    if a.Some? {
      assert TextField(a.value)[0] == TEXT;
    }
    if b.Some? {
      assert TextField(b.value)[0] == TEXT;
    }
    if a.Some? && b.Some? {
      TextApart(a.value, b.value);
    }
  }

  lemma SinglesApart(a: Components, b: Components)
    requires EncodableComponents(a) && EncodableComponents(b)
    requires SingleFields(a) == SingleFields(b)
    ensures a.email == b.email && a.emailVerified == b.emailVerified && a.disabled == b.disabled
    ensures CanonicalComponentsOf(a).password == CanonicalComponentsOf(b).password
    ensures a.passwordResetRequired == b.passwordResetRequired && a.totp == b.totp
  {
    hide TextField, BooleanField, AbsentField, RecordField, PasswordParts, TotpParts, EncodablePassword, EncodableTotp;
    hide CanonicalPasswordOf;
    var x, y := SingleFields(a), SingleFields(b);
    assert x[0] == y[0] && x[1] == y[1] && x[2] == y[2] && x[3] == y[3] && x[4] == y[4] && x[5] == y[5];
    EmailsApart(a.email, b.email);
    BooleanApart(a.emailVerified, b.emailVerified);
    BooleanApart(a.disabled, b.disabled);
    PasswordsApart(a.password, b.password);
    BooleanApart(a.passwordResetRequired, b.passwordResetRequired);
    TotpsApart(a.totp, b.totp);
  }

  lemma FieldsApart(a: State, b: State)
    requires Encodable(a) && Encodable(b) && Fits(a.components) && Fits(b.components)
    requires FieldsOf(a) == FieldsOf(b)
    ensures CanonicalOf(a) == CanonicalOf(b)
  {
    var h, g, c := HeaderFields(a), GenerationFields(a.generations), SingleFields(a.components);
    var h', g', c' := HeaderFields(b), GenerationFields(b.generations), SingleFields(b.components);
    SplitAt(h + g + c, RowFields(a.components), h' + g' + c', RowFields(b.components));
    SplitAt(h + g, c, h' + g', c');
    SplitAt(h, g, h', g');
    HeadersApart(a, b);
    GenerationsApart(a.generations, b.generations);
    SinglesApart(a.components, b.components);
    RowsApart(a.components, b.components);
  }

  lemma HeadersApart(a: State, b: State)
    requires Encodable(a) && Encodable(b) && HeaderFields(a) == HeaderFields(b)
    ensures UuidOrEmpty(a.userId) == UuidOrEmpty(b.userId) && a.version == b.version && a.sessionEpoch == b.sessionEpoch
  {
    var x, y := HeaderFields(a), HeaderFields(b);
    assert x[1] == y[1] && x[2] == y[2] && x[3] == y[3];
    UuidApart(a.userId, b.userId);
    IntegerApart(a.version, b.version);
    IntegerApart(a.sessionEpoch, b.sessionEpoch);
  }

  lemma SameRows(a: Components, b: Components)
    requires CanonicalComponentsOf(a) == CanonicalComponentsOf(b)
    ensures RowFields(a) == RowFields(b)
  {
    EqualContentsEncodeAlike(PasskeyField, a.passkeys, b.passkeys);
    EqualContentsEncodeAlike(IdentityField, a.identities, b.identities);
    EqualContentsEncodeAlike(CodeField, a.recoveryCodes, b.recoveryCodes);
    SameList(Map(PasskeyField, a.passkeys), Map(PasskeyField, b.passkeys));
    SameList(Map(IdentityField, a.identities), Map(IdentityField, b.identities));
    SameList(Map(CodeField, a.recoveryCodes), Map(CodeField, b.recoveryCodes));
  }

  lemma SameSingles(a: Components, b: Components)
    requires CanonicalComponentsOf(a) == CanonicalComponentsOf(b)
    ensures SingleFields(a) == SingleFields(b)
  {
    if a.password.Some? {
      var p, q := a.password.value, b.password.value;
      assert CanonicalPasswordOf(p) == CanonicalPasswordOf(q);
      assert PasswordParts(p) == PasswordParts(q);
    }
  }

  /** The main result: two states the encoder accepts are written alike exactly when they are the
      same state up to row order and the letter case of identifiers. */
  lemma EncodingIsCanonical(a: State, b: State)
    requires Encodable(a) && Encodable(b) && Fits(a.components) && Fits(b.components)
    ensures Encode(a) == Encode(b) <==> CanonicalOf(a) == CanonicalOf(b)
  {
    if Encode(a) == Encode(b) {
      FieldsAreDelimited(a);
      FieldsAreDelimited(b);
      UniquelyDecodable(FieldsOf(a), FieldsOf(b), COUNTED);
      FieldsApart(a, b);
    }
    if CanonicalOf(a) == CanonicalOf(b) {
      SameSingles(a.components, b.components);
      SameRows(a.components, b.components);
      assert HeaderFields(a) == HeaderFields(b);
    }
  }

  // ---- where the numbers stand

  lemma ConcatOne(first: seq<byte>, rest: seq<seq<byte>>)
    ensures Concat([first] + rest) == first + Concat(rest)
  {
    assert ([first] + rest)[1..] == rest;
  }

  lemma ConcatOfFour(a: seq<byte>, b: seq<byte>, c: seq<byte>, d: seq<byte>, rest: seq<seq<byte>>)
    ensures Concat([a, b, c, d] + rest) == a + b + c + d + Concat(rest)
  {
    ConcatSplits([a, b, c, d], rest);
    ConcatOne(a, [b, c, d]);
    assert [a] + [b, c, d] == [a, b, c, d];
    ConcatOfThree(b, c, d);
    assert a + (b + c + d) == a + b + c + d;
  }

  /** Eight bytes of an integer field that stands behind so many bytes. */
  lemma IntegerStands(before: seq<byte>, v: int, after: seq<byte>)
    ensures (before + IntegerField(v) + after)[|before| + 5..|before| + 13] == Int64(v)
  {
    assert IntegerField(v)[5..] == Int64(v);
    assert (before + IntegerField(v) + after)[|before|..|before| + 13] == IntegerField(v);
  }

  /** The version and the session epoch stand at fixed places of the sealed bytes, after the context and the
      account, and the components version after them. */
  lemma HeaderStands(s: State)
    requires Encodable(s)
    ensures var b := Encode(s).value;
            && |b| >= 93 && b[..33] == TextField(SEAL_CONTEXT) && b[33..54] == UuidField(s.userId)
            && b[59..67] == Int64(s.version) && b[72..80] == Int64(s.sessionEpoch)
            && b[85..93] == Int64(s.generations.componentsVersion)
  {
    var t, u, v, e := TextField(SEAL_CONTEXT), UuidField(s.userId), IntegerField(s.version), IntegerField(s.sessionEpoch);
    var c := IntegerField(s.generations.componentsVersion);
    var g := GenerationFields(s.generations);
    var rest := g[1..] + SingleFields(s.components) + RowFields(s.components);
    HeaderFirst(s, c, rest);
    ConcatOfFour(t, u, v, e, [c] + rest);
    ConcatOne(c, rest);
    assert |t| == 33 && |u| == 21 && |v| == |e| == |c| == 13;
    hide TextField, UuidField, IntegerField, GenerationFields, SingleFields, RowFields, Int64, FieldsOf;
    LaidOut(t, u, s.version, s.sessionEpoch, s.generations.componentsVersion, Concat(rest), Encode(s).value);
  }

  lemma HeaderFirst(s: State, c: seq<byte>, rest: seq<seq<byte>>)
    requires c == IntegerField(s.generations.componentsVersion)
    requires rest == GenerationFields(s.generations)[1..] + SingleFields(s.components) + RowFields(s.components)
    ensures FieldsOf(s) ==
      [TextField(SEAL_CONTEXT), UuidField(s.userId), IntegerField(s.version), IntegerField(s.sessionEpoch)] + ([c] + rest)
  {
    var g := GenerationFields(s.generations);
    FirstOfGenerations(s.generations);
    hide TextField, UuidField, IntegerField, GenerationFields, SingleFields, RowFields;
    Regrouped(HeaderFields(s), c, g[1..], SingleFields(s.components), RowFields(s.components));
  }

  lemma FirstOfGenerations(g: Generations)
    ensures GenerationFields(g) == [IntegerField(g.componentsVersion)] + GenerationFields(g)[1..]
  {
    hide IntegerField;
  }

  lemma Regrouped<T>(h: seq<T>, c: T, g: seq<T>, s: seq<T>, r: seq<T>)
    ensures h + ([c] + g) + s + r == h + ([c] + (g + s + r))
  {
    Associate(h, [c] + g, s);
    Associate(h, [c] + g + s, r);
    Associate([c], g, s);
    Associate([c], g + s, r);
  }

  lemma LaidOut(t: seq<byte>, u: seq<byte>, v: int, e: int, c: int, rest: seq<byte>, b: seq<byte>)
    requires |t| == 33 && |u| == 21
    requires b == t + u + IntegerField(v) + IntegerField(e) + (IntegerField(c) + rest)
    ensures |b| >= 93 && b[..33] == t && b[33..54] == u
    ensures b[59..67] == Int64(v) && b[72..80] == Int64(e) && b[85..93] == Int64(c)
  {
    var fv, fe, fc := IntegerField(v), IntegerField(e), IntegerField(c);
    assert |fv| == |fe| == |fc| == 13;
    IntegerStands(t + u, v, fe + (fc + rest));
    IntegerStands(t + u + fv, e, fc + rest);
    IntegerStands(t + u + fv + fe, c, rest);
    hide IntegerField, Int64;
    assert t + u + fv + (fe + (fc + rest)) == b;
    assert t + u + fv + fe + fc + rest == b;
  }

  /** Why the kept-seal shortcut is sound: components found equal under the fixed comparison header
      are written alike under every header. */
  lemma EqualUnderOneHeaderIsEqualUnderAll(
      fixed: State, header: State, before: Components, after: Components)
    requires Encodable(fixed.(components := before)) && Encodable(fixed.(components := after))
    requires Encodable(header.(components := before)) && Encodable(header.(components := after))
    requires Fits(before) && Fits(after)
    ensures Encode(fixed.(components := before)) == Encode(fixed.(components := after))
      ==> Encode(header.(components := before)) == Encode(header.(components := after))
    ensures Encode(fixed.(components := before)) == Encode(fixed.(components := after))
      <==> CanonicalComponentsOf(before) == CanonicalComponentsOf(after)
  {
    EncodingIsCanonical(fixed.(components := before), fixed.(components := after));
    EncodingIsCanonical(header.(components := before), header.(components := after));
  }

  /** Past the lengths four bytes can carry the encoding is no longer injective: whatever the two
      bytes strings x and y are, these two passkeys differ and are written alike. */
  lemma LengthsPastFourBytesCollide(x: seq<byte>, y: seq<byte>)
    requires |x| == TWO_TO_THE_32 - 5 && |y| < TWO_TO_THE_32
    ensures var long := Passkey(BytesField(y)[..5] + x, y);
            var short := Passkey([], x + BytesField(y));
            long != short && PasskeyField(long) == PasskeyField(short)
            && !FitsPasskey(long) && !FitsPasskey(short)
  {
    var long := Passkey(BytesField(y)[..5] + x, y);
    var short := Passkey([], x + BytesField(y));
    SameConcatenation(x, y);
    ConcatOfTwo(BytesField(long.credentialId), BytesField(y));
    ConcatOfTwo(BytesField([]), BytesField(short.publicKey));
  }

  function BytesHeader(n: nat): seq<byte> {
    [BYTES] + BigEndian(n, LENGTH_BYTES)
  }

  lemma SameConcatenation(x: seq<byte>, y: seq<byte>)
    requires |x| == TWO_TO_THE_32 - 5 && |y| < TWO_TO_THE_32
    ensures BytesField(BytesField(y)[..5] + x) + BytesField(y) == BytesField([]) + BytesField(x + BytesField(y))
  {
    var a, b := BytesHeader(0), BytesHeader(|y|);
    assert BytesField(y) == b + y && BytesField(y)[..5] == b && |b| == 5;
    HeaderWraps(0);
    HeaderWraps(|y|);
    assert BytesField(b + x) == a + (b + x);
    assert BytesField(x + (b + y)) == b + (x + (b + y));
    Reassociate(a, b, x, b + y);
    assert BytesField([]) == a;
  }

  lemma Reassociate(a: seq<byte>, b: seq<byte>, x: seq<byte>, z: seq<byte>)
    ensures (a + (b + x)) + z == a + (b + (x + z))
  {
  }

  lemma HeaderWraps(n: nat)
    ensures BytesHeader(TWO_TO_THE_32 + n) == BytesHeader(n)
  {
    Pow256Values();
    BigEndianWraps(n, 4);
  }
}

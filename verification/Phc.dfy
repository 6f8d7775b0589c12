/** Password hash strings: one text for each well-formed value, and no text for any other. */
module Phc {
  import opened Base64
  import opened Bytes
  import opened Options
  import opened Sequences
  import opened Text

  datatype Parameter = Parameter(name: string, value: string)

  datatype Phc = Phc(
    id: string, version: Option<nat>, parameters: seq<Parameter>, salt: Option<seq<byte>>, hash: Option<seq<byte>>)

  const MAXIMUM_FIELDS := 5
  const MAXIMUM_VERSION := 9_999_999_999

  // ---- the lexical forms

  predicate IsNameChar(c: char) {
    'a' <= c <= 'z' || '0' <= c <= '9' || c == '-'
  }

  predicate IsName(s: string) {
    1 <= |s| <= 32 && forall i | 0 <= i < |s| :: IsNameChar(s[i])
  }

  predicate IsValueChar(c: char) {
    'A' <= c <= 'Z' || 'a' <= c <= 'z' || '0' <= c <= '9' || c in ['+', '/', '.', '_', '-']
  }

  /** Empty, or begun by anything but padding. */
  predicate IsValue(s: string) {
    s == [] || (IsValueChar(s[0]) && forall i | 1 <= i < |s| :: IsValueChar(s[i]) || s[i] == '=')
  }

  predicate IsVersionField(s: string) {
    |s| >= 3 && s[..2] == "v=" && IsCanonicalDecimal(s[2..]) && |s[2..]| <= 10
  }

  function PairOf(pair: string): Parameter {
    var separator := IndexOf(pair, '=');
    if separator < |pair| then Parameter(pair[..separator], pair[separator + 1..]) else Parameter([], [])
  }

  predicate IsPair(pair: string) {
    0 < IndexOf(pair, '=') < |pair| && IsName(PairOf(pair).name) && IsValue(PairOf(pair).value)
  }

  function PairsOf(texts: seq<string>): (ps: seq<Parameter>)
    ensures |ps| == |texts| && forall i | 0 <= i < |texts| :: ps[i] == PairOf(texts[i])
  {
    seq(|texts|, i requires 0 <= i < |texts| => PairOf(texts[i]))
  }

  predicate SomeValue(ps: seq<Parameter>) {
    exists i | 0 <= i < |ps| :: ps[i].value != []
  }

  predicate IsParameterList(field: string) {
    var texts := Split(field, ',');
    (forall i | 0 <= i < |texts| :: IsPair(texts[i])) && SomeValue(PairsOf(texts))
  }

  predicate NamesDiffer(ps: seq<Parameter>) {
    forall i, j | 0 <= i < j < |ps| :: ps[i].name != ps[j].name
  }

  // ---- parsing

  /** The version, if the first field is one, and the fields after it. */
  function TakeVersion(fields: seq<string>): (Option<nat>, seq<string>) {
    if fields != [] && IsVersionField(fields[0]) then (Some(ValueOf(fields[0][2..], 10)), fields[1..])
    else (None, fields)
  }

  /** The parameters, if the first field lists them, or None where a name comes twice. */
  function TakeParameters(fields: seq<string>): (Option<seq<Parameter>>, seq<string>) {
    if fields == [] || !IsParameterList(fields[0]) then (Some([]), fields)
    else
      var ps := PairsOf(Split(fields[0], ','));
      (if NamesDiffer(ps) then Some(ps) else None, fields[1..])
  }

  function DecodedField(fields: seq<string>, i: nat): Option<seq<byte>> {
    if i < |fields| then DecodedPadded(Standard, fields[i]) else None
  }

  function ParsePhc(text: string): Option<Phc> {
    if text == [] || text[0] != '$' then None else ParseFields(Split(text[1..], '$'))
  }

  function ParseFields(fields: seq<string>): Option<Phc>
    requires fields != []
  {
    if |fields| > MAXIMUM_FIELDS || !IsName(fields[0]) || "" in fields[1..] then None
    else
      var (version, afterVersion) := TakeVersion(fields[1..]);
      var (parameters, rest) := TakeParameters(afterVersion);
      if parameters.None? || |rest| > 2 then None
      else if exists i | 0 <= i < |rest| :: DecodedPadded(Standard, rest[i]).None? then None
      else Some(Phc(fields[0], version, parameters.value, DecodedField(rest, 0), DecodedField(rest, 1)))
  }

  /** The loop over the pairs, which fills a map and stops at a name it holds already. */
  method ReadParameters(field: string) returns (parameters: Option<seq<Parameter>>)
    ensures parameters ==
      (var ps := PairsOf(Split(field, ',')); if NamesDiffer(ps) then Some(ps) else None)
  {
    var texts := Split(field, ',');
    ghost var ps := PairsOf(texts);
    var names: set<string> := {};
    var read := [];
    for i := 0 to |texts|
      invariant read == ps[..i]
      invariant forall n :: n in names <==> exists k | 0 <= k < i :: ps[k].name == n
      invariant NamesDiffer(ps[..i])
    {
      var pair := PairOf(texts[i]);
      if pair.name in names {
        return None;
      }
      names := names + {pair.name};
      read := read + [pair];
    }
    assert ps[..|texts|] == ps;
    parameters := Some(read);
  }

  // ---- formatting

  function PairText(p: Parameter): string {
    p.name + "=" + p.value
  }

  function PairTexts(ps: seq<Parameter>): (ts: seq<string>)
    ensures |ts| == |ps| && forall i | 0 <= i < |ps| :: ts[i] == PairText(ps[i])
  {
    seq(|ps|, i requires 0 <= i < |ps| => PairText(ps[i]))
  }

  function VersionFields(v: Option<nat>): seq<string> {
    if v.Some? then ["v=" + Numeral(v.value, 10)] else []
  }

  function ParameterFields(ps: seq<Parameter>): seq<string> {
    if ps != [] then [Join(PairTexts(ps), ',')] else []
  }

  function BytesFields(b: Option<seq<byte>>): seq<string> {
    if b.Some? then [Encoded(Standard, b.value)] else []
  }

  function FieldsOf(x: Phc): seq<string> {
    [x.id] + VersionFields(x.version) + ParameterFields(x.parameters) + BytesFields(x.salt) + BytesFields(x.hash)
  }

  function FormatPhc(x: Phc): string {
    "$" + Join(FieldsOf(x), '$')
  }

  method WritePhc(x: Phc) returns (text: string)
    ensures text == FormatPhc(x)
  {
    var fields := [x.id];
    if x.version.Some? {
      fields := fields + ["v=" + Numeral(x.version.value, 10)];
    }
    assert fields == [x.id] + VersionFields(x.version);
    if |x.parameters| > 0 {
      fields := fields + [Join(PairTexts(x.parameters), ',')];
    }
    assert fields == [x.id] + VersionFields(x.version) + ParameterFields(x.parameters);
    fields := PushBytes(fields, x.salt);
    fields := PushBytes(fields, x.hash);
    text := "$" + Join(fields, '$');
  }

  method PushBytes(fields: seq<string>, b: Option<seq<byte>>) returns (longer: seq<string>)
    ensures longer == fields + BytesFields(b)
  {
    if b.None? {
      return fields;
    }
    var text := Encode(Standard, b.value);
    longer := fields + [text];
  }

  /** The layout of a full text. */
  lemma TextLayout(id: string, version: nat, p: Parameter, salt: seq<byte>, hash: seq<byte>)
    ensures FormatPhc(Phc(id, Some(version), [p], Some(salt), Some(hash)))
      == "$" + (id + "$" + ("v=" + Numeral(version, 10)) + "$" + (p.name + "=" + p.value)
                + "$" + Encoded(Standard, salt) + "$" + Encoded(Standard, hash))
  {
    hide Numeral, Encoded;
    var a, b, c, d := "v=" + Numeral(version, 10), PairText(p), Encoded(Standard, salt), Encoded(Standard, hash);
    OneListed(p);
    hide PairText, PairTexts, Join;
    assert FieldsOf(Phc(id, Some(version), [p], Some(salt), Some(hash))) == [id, a, b, c, d];
    JoinOfFive(id, a, b, c, d);
  }

  lemma OneListed(p: Parameter)
    ensures Join(PairTexts([p]), ',') == PairText(p)
  {
    assert PairTexts([p]) == [PairText(p)];
  }

  lemma JoinOfMore(first: string, rest: seq<string>)
    requires rest != []
    ensures Join([first] + rest, '$') == first + "$" + Join(rest, '$')
  {
    assert ([first] + rest)[1..] == rest;
  }

  lemma JoinOfFive(a: string, b: string, c: string, d: string, e: string)
    ensures Join([a, b, c, d, e], '$') == a + "$" + b + "$" + c + "$" + d + "$" + e
  {
    assert Join([e], '$') == e;
    hide Join;
    JoinOfMore(d, [e]);
    JoinOfMore(c, [d] + [e]);
    JoinOfMore(b, [c] + ([d] + [e]));
    JoinOfMore(a, [b] + ([c] + ([d] + [e])));
    assert [a] + ([b] + ([c] + ([d] + [e]))) == [a, b, c, d, e];
    Associate(a + "$", b + "$", c + "$" + (d + "$" + e));
    Associate(a + "$" + (b + "$"), c + "$", d + "$" + e);
  }

  // ---- which values have a text

  predicate IsLoneVersion(x: Phc) {
    x.version.None? && |x.parameters| == 1 && IsVersionField(PairText(x.parameters[0]))
  }

  predicate WellFormed(x: Phc) {
    && IsName(x.id) && (x.version.Some? ==> x.version.value <= MAXIMUM_VERSION)
    && (forall i | 0 <= i < |x.parameters| :: IsName(x.parameters[i].name) && IsValue(x.parameters[i].value))
    && NamesDiffer(x.parameters) && (x.parameters != [] ==> SomeValue(x.parameters))
    && (x.salt.Some? ==> x.salt.value != []) && (x.hash.Some? ==> x.hash.value != [] && x.salt.Some?)
    && !IsLoneVersion(x)
  }

  // ---- fields

  predicate CannotBeList(s: string) {
    !IsVersionField(s) && !IsParameterList(s)
  }

  /** Nothing the decoder accepts, padded or not, reads as a version or as a parameter list. */
  lemma EncodedBytesAreNoList(s: string)
    requires s != [] && DecodedPadded(Standard, s).Some?
    ensures CannotBeList(s)
  {
    var t := AcceptedShape(s);
    ShapeIsNoList(t, s);
  }

  /** What the decoder accepts: letters of the alphabet and then at most two paddings. */
  lemma AcceptedShape(s: string) returns (t: string)
    requires DecodedPadded(Standard, s).Some?
    ensures s == t || s == t + "=" || s == t + "=="
    ensures forall i | 0 <= i < |t| :: t[i] != '=' && t[i] != ',' && t[i] != '$'
    ensures s != [] ==> t != []
  {
    hide Decoded, DecodedPadded, WithoutPadding, AllIn;
    AcceptedText(s);
    t := WithoutPadding(s).value;
    NothingBeforePadding(t);
    PaddingShape(s);
  }

  lemma AcceptedText(s: string)
    requires DecodedPadded(Standard, s).Some?
    ensures WithoutPadding(s).Some? && AllIn(Standard, WithoutPadding(s).value)
  {
    hide AllIn, SpareBits, AllZero, BytesIn, WithoutPadding;
  }

  lemma PaddingShape(s: string)
    requires WithoutPadding(s).Some?
    ensures var t := WithoutPadding(s).value;
            (s == t || s == t + "=" || s == t + "==") && (s != [] ==> t != [])
  {
    hide IndexOf;
    var start := IndexOf(s, '=');
    assert s == s[..start] + s[start..];
  }

  lemma ShapeIsNoList(t: string, s: string)
    requires s == t || s == t + "=" || s == t + "=="
    requires forall i | 0 <= i < |t| :: t[i] != '=' && t[i] != ','
    ensures CannotBeList(s)
  {
    hide IsVersionField, IsParameterList, Free;
    NoComma(t, s);
    ShapeIsNoPair(t, s);
    OnePartIsNoList(s);
    ShapeIsNoVersion(t, s);
  }

  /** Its first equals sign has nothing or a second one after it. */
  lemma ShapeIsNoPair(t: string, s: string)
    requires s == t || s == t + "=" || s == t + "=="
    requires forall i | 0 <= i < |t| :: t[i] != '='
    ensures PairOf(s).value == "" || !IsPair(s)
  {
    FirstPadding(t, s);
    assert !IsValue("=");
  }

  lemma OnePartIsNoList(s: string)
    requires Free(s, ',') && (PairOf(s).value == "" || !IsPair(s))
    ensures !IsParameterList(s)
  {
    hide PairOf, IsPair, Free;
    SplitWhole(s, ',');
    var ps := PairsOf([s]);
    assert ps == [PairOf(s)];
    assert [s][0] == s;
  }

  lemma FirstPadding(t: string, s: string)
    requires s == t || s == t + "=" || s == t + "=="
    requires forall i | 0 <= i < |t| :: t[i] != '='
    ensures IndexOf(s, '=') == |t|
    ensures |t| < |s| ==> PairOf(s).value == "" || PairOf(s).value == "="
  {
    if s == t + "=" {
      IndexOfFirst(t, "", '=');
      assert s == t + ['='] + "";
    } else if s == t + "==" {
      IndexOfFirst(t, "=", '=');
      assert s == t + ['='] + "=";
    }
  }

  lemma ShapeIsNoVersion(t: string, s: string)
    requires s == t || s == t + "=" || s == t + "=="
    requires forall i | 0 <= i < |t| :: t[i] != '='
    ensures !IsVersionField(s)
  {
    if |s| >= 3 && s[..2] == "v=" {
      assert s[1] == s[..2][1] == '=';
      assert |t| <= 1;
      assert s[2..][0] == '=';
    }
  }

  lemma NothingBeforePadding(t: string)
    requires AllIn(Standard, t)
    ensures forall i | 0 <= i < |t| :: t[i] != '=' && t[i] != ',' && t[i] != '$'
  {
    assert SextetOf(Standard, '=').None? && SextetOf(Standard, ',').None? && SextetOf(Standard, '$').None?;
  }

  lemma NoComma(t: string, s: string)
    requires forall i | 0 <= i < |t| :: t[i] != ','
    requires s == t || s == t + "=" || s == t + "=="
    ensures Free(s, ',')
  {
  }

  lemma {:induction false} IndexOfFirst(s: string, t: string, c: char)
    requires Free(s, c)
    ensures IndexOf(s + [c] + t, c) == |s|
  {
    if s != [] {
      assert (s + [c] + t)[1..] == s[1..] + [c] + t;
      IndexOfFirst(s[1..], t, c);
    }
  }

  lemma PairRoundTrip(p: Parameter)
    requires IsName(p.name) && IsValue(p.value)
    ensures PairOf(PairText(p)) == p && IsPair(PairText(p))
    ensures Free(PairText(p), ',') && Free(PairText(p), '$')
  {
    PairBack(p);
    PairIsFree(p);
  }

  lemma PairBack(p: Parameter)
    requires Free(p.name, '=')
    ensures PairOf(PairText(p)) == p && IndexOf(PairText(p), '=') == |p.name| < |PairText(p)|
  {
    hide IndexOf;
    var text := PairText(p);
    assert text == p.name + ['='] + p.value;
    IndexOfFirst(p.name, p.value, '=');
    assert text[..|p.name|] == p.name && text[|p.name| + 1..] == p.value;
  }

  lemma PairIsFree(p: Parameter)
    requires IsName(p.name) && IsValue(p.value)
    ensures Free(PairText(p), ',') && Free(PairText(p), '$')
  {
    FreeSum(p.name, p.value, ',');
    FreeSum(p.name, p.value, '$');
  }

  lemma FreeSum(s: string, t: string, c: char)
    requires Free(s, c) && Free(t, c) && c != '='
    ensures Free(s + "=" + t, c)
  {
  }

  lemma ParametersRoundTrip(ps: seq<Parameter>)
    requires ps != [] && SomeValue(ps)
    requires forall i | 0 <= i < |ps| :: IsName(ps[i].name) && IsValue(ps[i].value)
    ensures var field := Join(PairTexts(ps), ',');
            Split(field, ',') == PairTexts(ps) && PairsOf(Split(field, ',')) == ps && IsParameterList(field)
            && field != [] && Free(field, '$')
  {
    var ts := PairTexts(ps);
    forall i | 0 <= i < |ps|
      ensures PairOf(ts[i]) == ps[i] && IsPair(ts[i]) && Free(ts[i], ',') && Free(ts[i], '$')
    {
      PairRoundTrip(ps[i]);
    }
    SplitJoin(ts, ',');
    assert PairsOf(ts) == ps;
    JoinIsFree(ts, ',', '$');
  }

  lemma {:induction false} JoinIsFree(ts: seq<string>, c: char, d: char)
    requires ts != [] && c != d && (forall i | 0 <= i < |ts| :: Free(ts[i], d) && ts[i] != [])
    ensures Free(Join(ts, c), d) && Join(ts, c) != []
  {
    if |ts| > 1 {
      JoinIsFree(ts[1..], c, d);
    }
  }

  lemma VersionRoundTrip(v: nat)
    requires v <= MAXIMUM_VERSION
    ensures var s := "v=" + Numeral(v, 10);
            IsVersionField(s) && ValueOf(s[2..], 10) == v && Free(s, '$')
  {
    var s := "v=" + Numeral(v, 10);
    assert s[2..] == Numeral(v, 10) && s[..2] == "v=";
    DecimalIsCanonical(v);
    NumeralValue(v, 10);
    assert Pow(10, 5) == 100_000;
    assert Pow(10, 10) == 10_000_000_000;
    NumeralLength(v, 10, 10);
    assert forall i | 0 <= i < |s| :: s[i] == 'v' || s[i] == '=' || s[i] == s[2..][i - 2] || i < 2;
  }

  lemma BytesRoundTrip(b: seq<byte>)
    requires b != []
    ensures var s := Encoded(Standard, b);
            s != [] && DecodedPadded(Standard, s) == Some(b) && CannotBeList(s) && Free(s, '$')
  {
    var s := Encoded(Standard, b);
    RoundTrip(Standard, b, s);
    EncodedBytesAreNoList(s);
    NothingBeforePadding(s);
  }

  /** Fields that read neither as a version nor as parameters. */
  ghost predicate Plain(fields: seq<string>) {
    forall f | f in fields :: f != [] && Free(f, '$') && CannotBeList(f)
  }

  lemma BytesFieldsRoundTrip(b: Option<seq<byte>>)
    requires b.Some? ==> b.value != []
    ensures Plain(BytesFields(b)) && |BytesFields(b)| == if b.Some? then 1 else 0
    ensures b.Some? ==> DecodedPadded(Standard, BytesFields(b)[0]) == b
  {
    if b.Some? {
      BytesRoundTrip(b.value);
    }
  }

  ghost predicate GoodParameters(ps: seq<Parameter>) {
    && NamesDiffer(ps) && (ps != [] ==> SomeValue(ps))
    && forall i | 0 <= i < |ps| :: IsName(ps[i].name) && IsValue(ps[i].value)
  }

  lemma VersionTaken(v: nat, rest: seq<string>)
    requires v <= MAXIMUM_VERSION
    ensures TakeVersion(VersionFields(Some(v)) + rest) == (Some(v), rest)
  {
    var field := "v=" + Numeral(v, 10);
    VersionRoundTrip(v);
    assert ([field] + rest)[0] == field && ([field] + rest)[1..] == rest;
  }

  lemma NoVersionTaken(ps: seq<Parameter>, bytes: seq<string>)
    requires GoodParameters(ps) && Plain(bytes)
    requires |ps| == 1 ==> !IsVersionField(PairText(ps[0]))
    ensures TakeVersion(ParameterFields(ps) + bytes) == (None, ParameterFields(ps) + bytes)
  {
    var rest := ParameterFields(ps) + bytes;
    if ps == [] {
      assert rest == bytes;
      assert rest != [] ==> rest[0] in bytes;
    } else {
      assert rest[0] == Join(PairTexts(ps), ',');
      if IsVersionField(rest[0]) {
        OneField(ps);
      }
    }
  }

  lemma TakeVersionBack(v: Option<nat>, ps: seq<Parameter>, bytes: seq<string>)
    requires v.Some? ==> v.value <= MAXIMUM_VERSION
    requires GoodParameters(ps) && Plain(bytes)
    requires v.None? && |ps| == 1 ==> !IsVersionField(PairText(ps[0]))
    ensures TakeVersion(VersionFields(v) + (ParameterFields(ps) + bytes)) == (v, ParameterFields(ps) + bytes)
  {
    if v.Some? {
      VersionTaken(v.value, ParameterFields(ps) + bytes);
    } else {
      NoVersionTaken(ps, bytes);
      assert VersionFields(v) + (ParameterFields(ps) + bytes) == ParameterFields(ps) + bytes;
    }
  }

  /** A parameter list that reads as a version is a single pair. */
  lemma OneField(ps: seq<Parameter>)
    requires ps != [] && IsVersionField(Join(PairTexts(ps), ','))
    requires GoodParameters(ps)
    ensures |ps| == 1 && IsVersionField(PairText(ps[0]))
  {
    var field := Join(PairTexts(ps), ',');
    ParametersRoundTrip(ps);
    assert Free(field, ',') by {
      assert field == field[..2] + field[2..];
      assert forall i | 2 <= i < |field| :: field[i] == field[2..][i - 2];
    }
    SplitWhole(field, ',');
  }

  lemma TakeParametersBack(ps: seq<Parameter>, bytes: seq<string>)
    requires GoodParameters(ps) && Plain(bytes)
    ensures TakeParameters(ParameterFields(ps) + bytes) == (Some(ps), bytes)
  {
    var fields := ParameterFields(ps) + bytes;
    if ps != [] {
      ParametersRoundTrip(ps);
      assert fields[0] == Join(PairTexts(ps), ',') && fields[1..] == bytes;
    } else {
      assert fields == bytes;
      assert bytes != [] ==> bytes[0] in bytes;
    }
  }

  ghost predicate Clean(fields: seq<string>) {
    forall f | f in fields :: f != [] && Free(f, '$')
  }

  lemma CleanSum(fields: seq<string>, more: seq<string>)
    requires Clean(fields) && Clean(more)
    ensures Clean(fields + more)
  {
  }

  lemma CleanParts(v: Option<nat>, ps: seq<Parameter>)
    requires (v.Some? ==> v.value <= MAXIMUM_VERSION) && GoodParameters(ps)
    ensures Clean(VersionFields(v)) && Clean(ParameterFields(ps))
  {
    if v.Some? {
      VersionRoundTrip(v.value);
    }
    if ps != [] {
      ParametersRoundTrip(ps);
    }
  }

  lemma FieldsAreFree(id: string, v: Option<nat>, ps: seq<Parameter>, bytes: seq<string>)
    requires IsName(id) && (v.Some? ==> v.value <= MAXIMUM_VERSION) && GoodParameters(ps) && Plain(bytes)
    ensures forall f | f in [id] + (VersionFields(v) + (ParameterFields(ps) + bytes)) :: Free(f, '$')
    ensures "" !in VersionFields(v) + (ParameterFields(ps) + bytes)
  {
    CleanParts(v, ps);
    CleanSum(ParameterFields(ps), bytes);
    CleanSum(VersionFields(v), ParameterFields(ps) + bytes);
    CleanSum([id], VersionFields(v) + (ParameterFields(ps) + bytes));
  }

  /** What parsing does with fields, once the text is split. */
  lemma ParsedFields(fields: seq<string>)
    requires fields != [] && (forall f | f in fields :: Free(f, '$'))
    ensures ParsePhc("$" + Join(fields, '$')) == ParseFields(fields)
  {
    SplitJoin(fields, '$');
    assert ("$" + Join(fields, '$'))[1..] == Join(fields, '$');
  }

  lemma FieldsAreRead(fields: seq<string>, v: Option<nat>, afterVersion: seq<string>, ps: seq<Parameter>, rest: seq<string>)
    requires 1 <= |fields| <= MAXIMUM_FIELDS && IsName(fields[0]) && "" !in fields[1..] && |rest| <= 2
    requires TakeVersion(fields[1..]) == (v, afterVersion) && TakeParameters(afterVersion) == (Some(ps), rest)
    requires forall i | 0 <= i < |rest| :: DecodedPadded(Standard, rest[i]).Some?
    ensures ParseFields(fields) == Some(Phc(fields[0], v, ps, DecodedField(rest, 0), DecodedField(rest, 1)))
  {
  }

  /** The fields of a text come apart again, whatever bytes its last two fields hold. */
  lemma FieldsAreTaken(id: string, v: Option<nat>, ps: seq<Parameter>, bytes: seq<string>)
    requires IsName(id) && (v.Some? ==> v.value <= MAXIMUM_VERSION) && GoodParameters(ps) && Plain(bytes) && |bytes| <= 2
    requires v.None? && |ps| == 1 ==> !IsVersionField(PairText(ps[0]))
    requires forall i | 0 <= i < |bytes| :: DecodedPadded(Standard, bytes[i]).Some?
    ensures ParsePhc("$" + Join([id] + (VersionFields(v) + (ParameterFields(ps) + bytes)), '$'))
      == Some(Phc(id, v, ps, DecodedField(bytes, 0), DecodedField(bytes, 1)))
  {
    var rest := VersionFields(v) + (ParameterFields(ps) + bytes);
    FieldsAreFree(id, v, ps, bytes);
    ParsedFields([id] + rest);
    assert ([id] + rest)[1..] == rest && |rest| <= 4;
    TakeVersionBack(v, ps, bytes);
    TakeParametersBack(ps, bytes);
    FieldsAreRead([id] + rest, v, ParameterFields(ps) + bytes, ps, bytes);
  }

  /** Every well-formed value is parsed back from its text. */
  lemma ParseAfterFormat(x: Phc)
    requires WellFormed(x)
    ensures ParsePhc(FormatPhc(x)) == Some(x)
  {
    hide FieldsOf, VersionFields, ParameterFields, ParsePhc, PairText, IsVersionField, DecodedPadded;
    var s, h := BytesFields(x.salt), BytesFields(x.hash);
    BytesFieldsRoundTrip(x.salt);
    BytesFieldsRoundTrip(x.hash);
    Regrouped(x, s + h);
    FieldsAreTaken(x.id, x.version, x.parameters, s + h);
  }

  lemma Regrouped(x: Phc, bytes: seq<string>)
    requires bytes == BytesFields(x.salt) + BytesFields(x.hash)
    ensures FieldsOf(x) == [x.id] + (VersionFields(x.version) + (ParameterFields(x.parameters) + bytes))
  {
    hide VersionFields, ParameterFields, BytesFields;
    var v, ps, s, h := VersionFields(x.version), ParameterFields(x.parameters), BytesFields(x.salt), BytesFields(x.hash);
    Associate([x.id] + v + ps, s, h);
    Associate([x.id] + v, ps, s + h);
    Associate([x.id], v, ps + (s + h));
  }

  lemma NonEmptyDecodes(s: string)
    requires s != [] && DecodedPadded(Standard, s).Some?
    ensures DecodedPadded(Standard, s).value != []
  {
    var t := WithoutPadding(s).value;
    var _ := AcceptedShape(s);
    assert t != [] by {
      if '=' in s {
        PaddingIsExact(Standard, s);
      }
    }
    DecodedMeaning(Standard, t, DecodedPadded(Standard, s).value);
  }

  lemma TakenVersionIsSmall(fields: seq<string>)
    ensures TakeVersion(fields).0.Some? ==> TakeVersion(fields).0.value <= MAXIMUM_VERSION
  {
    if TakeVersion(fields).0.Some? {
      var s := fields[0][2..];
      ValueBelow(s, 10);
      assert Pow(10, 5) == 100_000;
      assert Pow(10, 10) == 10_000_000_000;
      PowGrows(|s|, 10);
    }
  }

  lemma {:induction false} PowGrows(j: nat, k: nat)
    requires j <= k
    ensures Pow(10, j) <= Pow(10, k)
    decreases k
  {
    if j < k {
      PowGrows(j, k - 1);
    }
  }

  lemma TakenParametersAreGood(fields: seq<string>)
    ensures var (taken, rest) := TakeParameters(fields);
            && (forall f | f in rest :: f in fields)
            && (taken.Some? ==> GoodParameters(taken.value))
            && (taken.Some? && |taken.value| == 1 ==> fields != [] && PairText(taken.value[0]) == fields[0])
  {
    if fields != [] && IsParameterList(fields[0]) {
      var texts := Split(fields[0], ',');
      if |texts| == 1 {
        SplitParts(fields[0], ',');
        PairTextBack(texts[0]);
      }
    }
  }

  lemma TakenBytesAreSome(rest: seq<string>, i: nat)
    requires "" !in rest && forall k | 0 <= k < |rest| :: DecodedPadded(Standard, rest[k]).Some?
    ensures DecodedField(rest, i).Some? ==> DecodedField(rest, i).value != []
  {
    if i < |rest| {
      assert rest[i] in rest;
      NonEmptyDecodes(rest[i]);
    }
  }

  /** A text that parses parses to a well-formed value: the two conditions are one. */
  lemma ParsedIsWellFormed(text: string)
    requires ParsePhc(text).Some?
    ensures WellFormed(ParsePhc(text).value)
  {
    hide TakeParameters, DecodedPadded, Split, NamesDiffer, SomeValue, IsName, IsValue;
    var fields := Split(text[1..], '$');
    var afterVersion := TakeVersion(fields[1..]).1;
    var rest := TakeParameters(afterVersion).1;
    TakenVersionIsSmall(fields[1..]);
    TakenParametersAreGood(afterVersion);
    assert forall f | f in afterVersion :: f in fields[1..];
    TakenBytesAreSome(rest, 0);
    TakenBytesAreSome(rest, 1);
  }

  lemma PairTextBack(s: string)
    requires IsPair(s)
    ensures PairText(PairOf(s)) == s
  {
    var i := IndexOf(s, '=');
    assert s == s[..i] + [s[i]] + s[i + 1..];
  }

  /** The main result: a value is parsed back from its text exactly when it is well-formed. */
  lemma RoundTripsExactlyIfWellFormed(x: Phc)
    ensures ParsePhc(FormatPhc(x)) == Some(x) <==> WellFormed(x)
  {
    if WellFormed(x) {
      ParseAfterFormat(x);
    }
    if ParsePhc(FormatPhc(x)) == Some(x) {
      ParsedIsWellFormed(FormatPhc(x));
    }
  }
}

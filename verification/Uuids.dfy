/** The spellings of a uuid and the identifier they stand for. */
module Uuids {
  import opened Bytes
  import opened LetterCase
  import opened Options

  const UUID_BYTES := 16

  predicate IsHexDigit(c: char) {
    '0' <= c <= '9' || 'a' <= c <= 'f'
  }

  function HexValue(c: char): (v: nat)
    requires IsHexDigit(c)
    ensures v < 16
  {
    if c <= '9' then c as int - '0' as int else c as int - 'a' as int + 10
  }

  function Without(s: string, c: char): string {
    if s == [] then [] else (if s[0] == c then [] else [s[0]]) + Without(s[1..], c)
  }

  predicate AllHex(s: string) {
    forall i | 0 <= i < |s| :: IsHexDigit(s[i])
  }

  /** Eight, four, four, four and twelve lower-case hex digits joined by dashes. */
  predicate IsUuidText(s: string) {
    && |s| == 36
    && s[8] == s[13] == s[18] == s[23] == '-'
    && AllHex(s[..8]) && AllHex(s[9..13]) && AllHex(s[14..18]) && AllHex(s[19..23]) && AllHex(s[24..])
  }

  function Groups(s: string): string
    requires |s| == 36
  {
    s[..8] + s[9..13] + s[14..18] + s[19..23] + s[24..]
  }

  /** Digits and a dash before the rest. */
  lemma {:induction false} OneGroupUndashed(s: string, t: string)
    requires AllHex(s)
    ensures Without(s + "-" + t, '-') == s + Without(t, '-')
  {
    if s == [] {
      assert (s + "-" + t)[1..] == t;
    } else {
      OneGroupUndashed(s[1..], t);
      assert (s + "-" + t)[1..] == s[1..] + "-" + t;
    }
  }

  lemma {:induction false} HexHasNoDash(s: string)
    requires AllHex(s)
    ensures Without(s, '-') == s
  {
    if s != [] {
      HexHasNoDash(s[1..]);
      assert s == [s[0]] + s[1..];
    }
  }

  lemma GroupAt(s: string, i: nat, j: nat)
    requires i <= j < |s| && s[j] == '-' && AllHex(s[i..j])
    ensures Without(s[i..], '-') == s[i..j] + Without(s[j + 1..], '-')
  {
    OneGroupUndashed(s[i..j], s[j + 1..]);
    assert s[i..] == s[i..j] + "-" + s[j + 1..];
  }

  lemma UndashedIsGroups(s: string)
    requires IsUuidText(s)
    ensures Without(s, '-') == Groups(s) && |Groups(s)| == 32 && AllHex(Groups(s))
  {
    hide Without, IsHexDigit;
    assert s[0..] == s && s[0..8] == s[..8];
    GroupAt(s, 0, 8);
    GroupAt(s, 9, 13);
    GroupAt(s, 14, 18);
    GroupAt(s, 19, 23);
    HexHasNoDash(s[24..]);
    FiveParts(s[..8], s[9..13], s[14..18], s[19..23], s[24..]);
  }

  lemma FiveParts(a: string, b: string, c: string, d: string, e: string)
    requires AllHex(a) && AllHex(b) && AllHex(c) && AllHex(d) && AllHex(e)
    ensures a + (b + (c + (d + e))) == a + b + c + d + e && AllHex(a + b + c + d + e)
  {
    hide IsHexDigit;
  }

  function PairBytes(hex: string): (b: seq<byte>)
    requires AllHex(hex) && |hex| == 32
    ensures |b| == UUID_BYTES
  {
    seq(UUID_BYTES, i requires 0 <= i < UUID_BYTES => 16 * HexValue(hex[2 * i]) + HexValue(hex[2 * i + 1]))
  }

  lemma PairBytesInjective(a: string, b: string)
    requires AllHex(a) && |a| == 32 && AllHex(b) && |b| == 32
    requires PairBytes(a) == PairBytes(b)
    ensures a == b
  {
    forall k | 0 <= k < 32
      ensures a[k] == b[k]
    {
      var i := k / 2;
      assert PairBytes(a)[i] == PairBytes(b)[i];
      assert HexValue(a[2 * i]) == HexValue(b[2 * i]) && HexValue(a[2 * i + 1]) == HexValue(b[2 * i + 1]);
      assert k == 2 * i || k == 2 * i + 1;
    }
  }

  /** The identifier a spelling names, or None where the library refuses the spelling. */
  function UuidOf(text: string): (u: Option<seq<byte>>)
    ensures u.Some? ==> |u.value| == UUID_BYTES
  {
    var normalised := Lower(text);
    if !IsUuidText(normalised) then
      None
    else
      UndashedIsGroups(normalised);
      Some(PairBytes(Without(normalised, '-')))
  }

  function GroupIndex(k: nat): int {
    if k < 8 then k else if k < 13 then k - 1 else if k < 18 then k - 2 else if k < 23 then k - 3 else k - 4
  }

  lemma GroupsAt(s: string, k: nat)
    requires IsUuidText(s) && k < 36 && k !in [8, 13, 18, 23]
    ensures 0 <= GroupIndex(k) < |Groups(s)| && Groups(s)[GroupIndex(k)] == s[k]
  {
    hide AllHex;
  }

  lemma GroupsInjective(s: string, t: string)
    requires IsUuidText(s) && IsUuidText(t) && Groups(s) == Groups(t)
    ensures s == t
  {
    hide Groups, AllHex;
    forall k | 0 <= k < 36
      ensures s[k] == t[k]
    {
      if k !in [8, 13, 18, 23] {
        GroupsAt(s, k);
        GroupsAt(t, k);
      }
    }
  }

  /** One identifier has one spelling up to the case of its letters. */
  lemma SameUuid(a: string, b: string)
    requires UuidOf(a).Some? && UuidOf(b).Some?
    ensures UuidOf(a) == UuidOf(b) <==> Lower(a) == Lower(b)
  {
    var s, t := Lower(a), Lower(b);
    UndashedIsGroups(s);
    UndashedIsGroups(t);
    if UuidOf(a) == UuidOf(b) {
      PairBytesInjective(Groups(s), Groups(t));
      GroupsInjective(s, t);
    }
  }

  /** The loop both encoders read the hex digits with, two at a time. */
  method UuidBody(hex: string) returns (body: seq<byte>)
    requires AllHex(hex) && |hex| == 32
    ensures body == PairBytes(hex)
  {
    var buffer := new byte[UUID_BYTES](_ => 0);
    for index := 0 to UUID_BYTES
      invariant forall i | 0 <= i < index :: buffer[i] == PairBytes(hex)[i]
    {
      buffer[index] := 16 * HexValue(hex[2 * index]) + HexValue(hex[2 * index + 1]);
    }
    body := buffer[..];
  }

  // ---- the wider reading of the token binding, which also takes braces and any dashes

  predicate EndsALine(s: string) {
    exists i | 0 <= i < |s| :: s[i] in ['\n', '\r', '\U{2028}', '\U{2029}']
  }

  function Unbraced(s: string): string {
    if |s| >= 2 && s[0] == '{' && s[|s| - 1] == '}' && !EndsALine(s[1..|s| - 1]) then s[1..|s| - 1] else s
  }

  /** The 32 digits of any spelling PostgreSQL reads as a uuid. */
  function DigitsOf(uuid: string): Option<string> {
    var digits := Without(Unbraced(Lower(uuid)), '-');
    if |digits| == 32 && AllHex(digits) then Some(digits) else None
  }

  function Dashed(d: string): string
    requires |d| == 32
  {
    d[..8] + "-" + d[8..12] + "-" + d[12..16] + "-" + d[16..20] + "-" + d[20..]
  }

  function CanonicalText(uuid: string): string {
    match DigitsOf(uuid)
    case Some(digits) => Dashed(digits)
    case None => Lower(uuid)
  }

  lemma DashedIsUuidText(d: string)
    requires |d| == 32 && AllHex(d)
    ensures IsUuidText(Dashed(d)) && Groups(Dashed(d)) == d
    ensures Lower(Dashed(d)) == Dashed(d) && DigitsOf(Dashed(d)) == Some(d)
  {
    var s := Dashed(d);
    DashedGroups(d);
    DashedIsLower(d);
    assert s[0] == d[0];
    assert AllHex(d[..8]) && AllHex(d[8..12]) && AllHex(d[12..16]) && AllHex(d[16..20]) && AllHex(d[20..]);
    hide Dashed;
    UndashedIsGroups(s);
  }

  lemma DashedGroups(d: string)
    requires |d| == 32
    ensures var s := Dashed(d);
            && |s| == 36 && s[..8] == d[..8] && s[9..13] == d[8..12] && s[14..18] == d[12..16]
            && s[19..23] == d[16..20] && s[24..] == d[20..]
            && s[8] == s[13] == s[18] == s[23] == '-' && Groups(s) == d
  {
    hide Groups;
    var s := Dashed(d);
    assert s[..8] == d[..8] && s[9..13] == d[8..12] && s[14..18] == d[12..16];
    assert s[19..23] == d[16..20] && s[24..] == d[20..];
    assert d == d[..8] + d[8..12] + d[12..16] + d[16..20] + d[20..];
    GroupsOf(s);
  }

  lemma GroupsOf(s: string)
    requires |s| == 36
    ensures Groups(s) == s[..8] + s[9..13] + s[14..18] + s[19..23] + s[24..]
  {
  }

  lemma DashedIsLower(d: string)
    requires |d| == 32 && AllHex(d)
    ensures Lower(Dashed(d)) == Dashed(d)
  {
    var s := Dashed(d);
    assert forall i | 0 <= i < |s| :: s[i] == '-' || s[i] in d;
  }

  lemma LowerIsIdempotent(s: string)
    ensures Lower(Lower(s)) == Lower(s)
  {
  }

  /** Two spellings bind alike exactly when they name one uuid, or neither names any and they
      differ in letter case alone. */
  lemma CanonicalTextMeaning(a: string, b: string)
    ensures CanonicalText(a) == CanonicalText(b)
      <==> DigitsOf(a) == DigitsOf(b) && (DigitsOf(a).None? ==> Lower(a) == Lower(b))
  {
    LowerIsIdempotent(a);
    LowerIsIdempotent(b);
    if DigitsOf(a).Some? {
      DashedIsUuidText(DigitsOf(a).value);
    }
    if DigitsOf(b).Some? {
      DashedIsUuidText(DigitsOf(b).value);
    }
    assert DigitsOf(Lower(a)) == DigitsOf(a);
    assert DigitsOf(Lower(b)) == DigitsOf(b);
  }
}

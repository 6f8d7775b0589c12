/** Base64 and base64url (sections 4 and 5 of RFC 4648) over a 32-bit bit buffer. */
module Base64 {
  import opened Bits
  import opened Bytes
  import opened Options
  import opened Sequences

  datatype Alphabet = Standard | UrlSafe

  function CharOf(a: Alphabet, v: nat): char
    requires v < 64
  {
    if v < 26 then ('A' as int + v) as char
    else if v < 52 then ('a' as int + v - 26) as char
    else if v < 62 then ('0' as int + v - 52) as char
    else if v == 62 then (if a.Standard? then '+' else '-')
    else (if a.Standard? then '/' else '_')
  }

  function SextetOf(a: Alphabet, c: char): (v: Option<nat>)
    ensures v.Some? ==> v.value < 64 && CharOf(a, v.value) == c
  {
    if 'A' <= c <= 'Z' then Some(c as int - 'A' as int)
    else if 'a' <= c <= 'z' then Some(c as int - 'a' as int + 26)
    else if '0' <= c <= '9' then Some(c as int - '0' as int + 52)
    else if c == (if a.Standard? then '+' else '-') then Some(62)
    else if c == (if a.Standard? then '/' else '_') then Some(63)
    else None
  }

  predicate AllIn(a: Alphabet, t: string) {
    forall i | 0 <= i < |t| :: SextetOf(a, t[i]).Some?
  }

  function Sextets(a: Alphabet, t: string): (vs: seq<nat>)
    requires AllIn(a, t)
    ensures |vs| == |t| && forall i | 0 <= i < |t| :: vs[i] == SextetOf(a, t[i]).value
  {
    seq(|t|, i requires 0 <= i < |t| => SextetOf(a, t[i]).value)
  }

  function TextBits(a: Alphabet, t: string): seq<bool>
    requires AllIn(a, t)
  {
    BitsOfAll(Sextets(a, t), 6)
  }

  function ByteBits(b: seq<byte>): seq<bool> {
    BitsOfAll(b, 8)
  }

  /** The text spells the bytes: its bits are theirs, filled up with fewer than six zeros. */
  predicate Spells(a: Alphabet, t: string, b: seq<byte>) {
    && AllIn(a, t) && 8 * |b| <= 6 * |t| < 8 * |b| + 6
    && TextBits(a, t) == ByteBits(b) + Zeros(6 * |t| - 8 * |b|)
  }

  lemma OneSpellingEach(a: Alphabet, s: string, t: string, b: seq<byte>)
    requires Spells(a, s, b) && Spells(a, t, b)
    ensures s == t
  {
    Pow2Values();
    BitsOfAllInjective(Sextets(a, s), Sextets(a, t), 6);
    forall i | 0 <= i < |s|
      ensures s[i] == t[i]
    {
      assert Sextets(a, s)[i] == Sextets(a, t)[i];
    }
  }

  lemma OneMeaningEach(a: Alphabet, t: string, b: seq<byte>, c: seq<byte>)
    requires Spells(a, t, b) && Spells(a, t, c)
    ensures b == c
  {
    BitsOfAllLength(b, 8);
    BitsOfAllLength(c, 8);
    assert |b| == |c|;
    SamePrefix(ByteBits(b), ByteBits(c), Zeros(6 * |t| - 8 * |b|));
    Pow2Values();
    BitsOfAllInjective(b, c, 8);
  }

  lemma SamePrefix<T>(p: seq<T>, q: seq<T>, r: seq<T>)
    requires |p| == |q| && p + r == q + r
    ensures p == q
  {
    assert p == (p + r)[..|p|] && q == (q + r)[..|q|];
  }

  // ---- encoding

  function TextOf(a: Alphabet, vs: seq<nat>): (t: string)
    requires forall i | 0 <= i < |vs| :: vs[i] < 64
    ensures |t| == |vs| && AllIn(a, t) && Sextets(a, t) == vs
  {
    seq(|vs|, i requires 0 <= i < |vs| => CharOf(a, vs[i]))
  }

  function Encoded(a: Alphabet, b: seq<byte>): (t: string)
    ensures Spells(a, t, b)
  {
    BitsOfAllLength(b, 8);
    Pow2Values();
    var k := (8 * |b| + 5) / 6;
    var bits := ByteBits(b) + Zeros(6 * k - 8 * |b|);
    BitsOfGrouped(bits, 6, k);
    TextOf(a, Grouped(bits, 6, k))
  }

  lemma AppendedChar(a: Alphabet, t: string, v: nat)
    requires AllIn(a, t) && v < 64
    ensures AllIn(a, t + [CharOf(a, v)])
    ensures TextBits(a, t + [CharOf(a, v)]) == TextBits(a, t) + BitsOf(v, 6)
  {
    assert Sextets(a, t + [CharOf(a, v)]) == Sextets(a, t) + [v];
    BitsOfOneMore(Sextets(a, t), v, 6);
  }

  lemma NextByte(bytes: seq<byte>, i: nat)
    requires i < |bytes|
    ensures ByteBits(bytes[..i + 1]) == ByteBits(bytes[..i]) + BitsOf(bytes[i], 8)
  {
    assert bytes[..i + 1] == bytes[..i] + [bytes[i]];
    BitsOfOneMore(bytes[..i], bytes[i], 8);
  }

  lemma SextetWritten(p: seq<bool>, buffer: int, kept: nat)
    ensures 0 <= ShiftRight(buffer, kept) % 64 < 64
    ensures p + BitsOf(buffer, kept + 6) == p + BitsOf(ShiftRight(buffer, kept) % 64, 6) + BitsOf(buffer, kept)
  {
    BitsSplit(buffer, 6, kept);
    Pow2Values();
    BitsOfRemainder(ShiftRight(buffer, kept), 6);
    Associate(p, BitsOf(ShiftRight(buffer, kept) % 64, 6), BitsOf(buffer, kept));
  }

  lemma ByteBuffered(p: seq<bool>, all: seq<bool>, buffer: int, kept: nat, b: byte)
    requires kept <= 24 && p + BitsOf(buffer, kept) == all
    ensures p + BitsOf(ShiftIn(buffer, 8, b), kept + 8) == all + BitsOf(b, 8)
  {
    Pow2Values();
    ShiftInBits(buffer, kept, 8, b);
    Associate(p, BitsOf(buffer, kept), BitsOf(b, 8));
  }

  lemma LastSextet(buffer: int, kept: nat)
    requires kept <= 6
    ensures BitsOf(ToInt32(buffer * Pow2(6 - kept)) % 64, 6) == BitsOf(buffer, kept) + Zeros(6 - kept)
  {
    var n := 6 - kept;
    ShiftInBits(buffer, kept, n, 0);
    BitsOfZero(n);
    Pow2Values();
    BitsOfRemainder(ToInt32(buffer * Pow2(n)), 6);
  }

  /** The encoder's loops: eight bits in, six bits out, and the rest at the end. */
  method Encode(a: Alphabet, bytes: seq<byte>) returns (text: string)
    ensures text == Encoded(a, bytes)
  {
    hide Encoded, ShiftIn, ShiftRight;
    text := "";
    var bitBuffer := 0;
    var bufferedBits: nat := 0;
    assert TextBits(a, text) + BitsOf(bitBuffer, bufferedBits) == ByteBits(bytes[..0]);
    for i := 0 to |bytes|
      invariant AllIn(a, text) && bufferedBits < 6
      invariant 8 * i == 6 * |text| + bufferedBits
      invariant TextBits(a, text) + BitsOf(bitBuffer, bufferedBits) == ByteBits(bytes[..i])
    {
      ByteBuffered(TextBits(a, text), ByteBits(bytes[..i]), bitBuffer, bufferedBits, bytes[i]);
      NextByte(bytes, i);
      bitBuffer := ShiftIn(bitBuffer, 8, bytes[i]);
      bufferedBits := bufferedBits + 8;
      while bufferedBits >= 6
        invariant AllIn(a, text)
        invariant 8 * (i + 1) == 6 * |text| + bufferedBits
        invariant TextBits(a, text) + BitsOf(bitBuffer, bufferedBits) == ByteBits(bytes[..i + 1])
      {
        bufferedBits := bufferedBits - 6;
        SextetWritten(TextBits(a, text), bitBuffer, bufferedBits);
        AppendedChar(a, text, ShiftRight(bitBuffer, bufferedBits) % 64);
        text := text + [CharOf(a, ShiftRight(bitBuffer, bufferedBits) % 64)];
      }
    }
    assert bytes[..|bytes|] == bytes;
    if bufferedBits > 0 {
      LastSextet(bitBuffer, bufferedBits);
      ghost var before := TextBits(a, text);
      AppendedChar(a, text, ToInt32(bitBuffer * Pow2(6 - bufferedBits)) % 64);
      text := text + [CharOf(a, ToInt32(bitBuffer * Pow2(6 - bufferedBits)) % 64)];
      Associate(before, BitsOf(bitBuffer, bufferedBits), Zeros(6 - bufferedBits));
    }
    assert ByteBits(bytes) + [] == ByteBits(bytes);
    OneSpellingEach(a, text, Encoded(a, bytes), bytes);
  }

  // ---- decoding

  function IndexOf(t: string, c: char): (i: nat)
    ensures i <= |t| && (i < |t| ==> t[i] == c) && forall k | 0 <= k < i :: t[k] != c
  {
    if t == [] then 0 else if t[0] == c then 0 else IndexOf(t[1..], c) + 1
  }

  /** The text before its padding, or None where the padding is not the one its length asks for. */
  function WithoutPadding(text: string): Option<string> {
    var start := IndexOf(text, '=');
    if start == |text| then Some(text)
    else if |text| % 4 != 0 || text[start..] !in ["=", "=="] then None
    else Some(text[..start])
  }

  predicate AllZero(b: seq<bool>) {
    forall i | 0 <= i < |b| :: !b[i]
  }

  /** The number of whole bytes in a text. */
  function WholeBytes(t: string): nat {
    3 * |t| / 4
  }

  /** What is left of the text's bits after its whole bytes. */
  function SpareBits(a: Alphabet, t: string): seq<bool>
    requires AllIn(a, t)
  {
    BitsOfAllLength(Sextets(a, t), 6);
    TextBits(a, t)[8 * WholeBytes(t)..]
  }

  predicate Decodable(a: Alphabet, t: string) {
    AllIn(a, t) && |t| % 4 != 1 && AllZero(SpareBits(a, t))
  }

  function BytesIn(a: Alphabet, t: string): (b: seq<byte>)
    requires AllIn(a, t)
    ensures |b| == WholeBytes(t)
  {
    BitsOfAllLength(Sextets(a, t), 6);
    Pow2Values();
    Grouped(TextBits(a, t)[..8 * WholeBytes(t)], 8, WholeBytes(t))
  }

  function Decoded(a: Alphabet, t: string): Option<seq<byte>> {
    if Decodable(a, t) then Some(BytesIn(a, t)) else None
  }

  lemma DecodableSpells(a: Alphabet, t: string)
    requires Decodable(a, t)
    ensures Spells(a, t, BytesIn(a, t))
  {
    hide TextBits, ByteBits, BytesIn, Sextets;
    BytesInBits(a, t);
    ZerosAreAllZero(SpareBits(a, t));
    TakeAndDrop(TextBits(a, t), 8 * WholeBytes(t));
  }

  lemma BytesInBits(a: Alphabet, t: string)
    requires AllIn(a, t)
    ensures 8 * WholeBytes(t) <= |TextBits(a, t)| == 6 * |t|
    ensures ByteBits(BytesIn(a, t)) == TextBits(a, t)[..8 * WholeBytes(t)]
  {
    BitsOfAllLength(Sextets(a, t), 6);
    BitsOfGrouped(TextBits(a, t)[..8 * WholeBytes(t)], 8, WholeBytes(t));
  }

  lemma ZerosAreAllZero(b: seq<bool>)
    ensures AllZero(b) <==> b == Zeros(|b|)
  {
  }

  lemma TakeAndDrop<T>(s: seq<T>, k: nat)
    requires k <= |s|
    ensures s == s[..k] + s[k..]
  {
  }

  lemma SpelledIsDecodable(a: Alphabet, t: string, b: seq<byte>)
    requires Spells(a, t, b)
    ensures Decodable(a, t)
  {
    BitsOfAllLength(b, 8);
    assert |b| == WholeBytes(t) && |t| % 4 != 1;
    assert SpareBits(a, t) == Zeros(6 * |t| - 8 * |b|);
  }

  /** The decoder accepts exactly the texts that spell something, and gives what they spell. */
  lemma DecodedMeaning(a: Alphabet, t: string, b: seq<byte>)
    ensures Decoded(a, t) == Some(b) <==> Spells(a, t, b)
  {
    if Decodable(a, t) {
      DecodableSpells(a, t);
    }
    if Spells(a, t, b) {
      SpelledIsDecodable(a, t, b);
      OneMeaningEach(a, t, BytesIn(a, t), b);
    }
  }

  lemma SextetBuffered(p: seq<bool>, all: seq<bool>, buffer: int, kept: nat, v: nat)
    requires kept <= 26 && v < 64 && p + BitsOf(buffer, kept) == all
    ensures p + BitsOf(ShiftIn(buffer, 6, v), kept + 6) == all + BitsOf(v, 6)
  {
    Pow2Values();
    ShiftInBits(buffer, kept, 6, v);
    Associate(p, BitsOf(buffer, kept), BitsOf(v, 6));
  }

  lemma ByteWritten(p: seq<bool>, buffer: int, kept: nat)
    ensures 0 <= ShiftRight(buffer, kept) % 256 < 256
    ensures p + BitsOf(buffer, kept + 8) == p + BitsOf(ShiftRight(buffer, kept) % 256, 8) + BitsOf(buffer, kept)
  {
    BitsSplit(buffer, 8, kept);
    Pow2Values();
    BitsOfRemainder(ShiftRight(buffer, kept), 8);
    Associate(p, BitsOf(ShiftRight(buffer, kept) % 256, 8), BitsOf(buffer, kept));
  }

  lemma NextSextet(a: Alphabet, t: string, i: nat)
    requires i < |t| && AllIn(a, t[..i + 1])
    ensures AllIn(a, t[..i]) && SextetOf(a, t[i]).Some?
    ensures TextBits(a, t[..i + 1]) == TextBits(a, t[..i]) + BitsOf(SextetOf(a, t[i]).value, 6)
  {
    assert forall k | 0 <= k < i :: t[..i][k] == t[..i + 1][k];
    assert t[..i + 1][i] == t[i];
    assert Sextets(a, t[..i + 1]) == Sextets(a, t[..i]) + [SextetOf(a, t[i]).value];
    BitsOfOneMore(Sextets(a, t[..i]), SextetOf(a, t[i]).value, 6);
  }

  /** `(bitBuffer & ((1 << bufferedBits) - 1)) !== 0` asks for exactly the bits left over. */
  lemma LeftOverBits(buffer: int, kept: nat)
    ensures buffer % Pow2(kept) == 0 <==> AllZero(BitsOf(buffer, kept))
  {
    BitsOfRemainder(buffer, kept);
    BitsOfZero(kept);
    if AllZero(BitsOf(buffer, kept)) {
      assert BitsOf(buffer % Pow2(kept), kept) == BitsOf(0, kept);
      BitsInjective(buffer % Pow2(kept), 0, kept);
    }
  }

  lemma NotAllIn(a: Alphabet, t: string, i: nat)
    requires i < |t| && SextetOf(a, t[i]).None?
    ensures Decoded(a, t).None?
  {
  }

  /** After i characters: the bytes written and the bits kept are what those characters hold. */
  ghost predicate HasRead(a: Alphabet, t: string, i: nat, out: seq<byte>, buffer: int, kept: nat) {
    && i <= |t| && AllIn(a, t[..i]) && kept < 8 && 6 * i == 8 * |out| + kept
    && ByteBits(out) + BitsOf(buffer, kept) == TextBits(a, t[..i])
  }

  method Decode(a: Alphabet, text: string) returns (result: Option<seq<byte>>)
    ensures result == DecodedPadded(a, text)
  {
    var unpadded := WithoutPadding(text);
    if unpadded.None? || |unpadded.value| % 4 == 1 {
      return None;
    }
    result := DecodeUnpadded(a, unpadded.value);
  }

  /** The decoder's loop: six bits in, eight bits out, and nothing may be left over. */
  method DecodeUnpadded(a: Alphabet, unpadded: string) returns (result: Option<seq<byte>>)
    requires |unpadded| % 4 != 1
    ensures result == Decoded(a, unpadded)
  {
    hide HasRead, Decoded, ShiftIn, ShiftRight;
    var bytes := new byte[|unpadded| * 3 / 4](_ => 0);
    var bitBuffer := 0;
    var bufferedBits: nat := 0;
    var written := 0;
    ghost var out: seq<byte> := [];
    NothingRead(a, unpadded);
    for i := 0 to |unpadded|
      invariant |out| == written <= bytes.Length == WholeBytes(unpadded)
      invariant forall k | 0 <= k < written :: bytes[k] == out[k]
      invariant HasRead(a, unpadded, i, out, bitBuffer, bufferedBits)
    {
      var value := SextetOf(a, unpadded[i]);
      if value.None? {
        NotAllIn(a, unpadded, i);
        return None;
      }
      DecoderStep(a, unpadded, i, out, bitBuffer, bufferedBits);
      bitBuffer := ShiftIn(bitBuffer, 6, value.value);
      bufferedBits := bufferedBits + 6;
      if bufferedBits >= 8 {
        bufferedBits := bufferedBits - 8;
        bytes[written] := ShiftRight(bitBuffer, bufferedBits) % 256;
        out := out + [bytes[written]];
        written := written + 1;
      }
    }
    DecoderEnd(a, unpadded, out, bitBuffer, bufferedBits);
    assert bytes[..] == out;
    if bufferedBits > 0 && bitBuffer % Pow2(bufferedBits) != 0 {
      return None;
    }
    result := Some(bytes[..]);
  }

  lemma NothingRead(a: Alphabet, t: string)
    ensures HasRead(a, t, 0, [], 0, 0)
  {
  }

  lemma DecoderEnd(a: Alphabet, t: string, out: seq<byte>, buffer: int, kept: nat)
    requires |t| % 4 != 1 && HasRead(a, t, |t|, out, buffer, kept)
    ensures |out| == WholeBytes(t)
    ensures Decoded(a, t) == if kept > 0 && buffer % Pow2(kept) != 0 then None else Some(out)
  {
    assert t[..|t|] == t;
    LeftOverBits(buffer, kept);
    LeftOverDecides(a, t, out, BitsOf(buffer, kept));
  }

  /** One character more: either its bits stay in the buffer or they complete a byte. */
  lemma DecoderStep(a: Alphabet, t: string, i: nat, out: seq<byte>, buffer: int, kept: nat)
    requires i < |t| && HasRead(a, t, i, out, buffer, kept) && SextetOf(a, t[i]).Some?
    ensures var next := ShiftIn(buffer, 6, SextetOf(a, t[i]).value);
            if kept + 6 < 8 then HasRead(a, t, i + 1, out, next, kept + 6)
            else
              && 0 <= ShiftRight(next, kept - 2) % 256 < 256 && |out| < WholeBytes(t)
              && HasRead(a, t, i + 1, out + [ShiftRight(next, kept - 2) % 256], next, kept - 2)
  {
    OneMoreIn(a, t, i);
    NextSextet(a, t, i);
    var v := SextetOf(a, t[i]).value;
    SextetBuffered(ByteBits(out), TextBits(a, t[..i]), buffer, kept, v);
    if kept + 6 >= 8 {
      var next := ShiftIn(buffer, 6, v);
      ByteWritten(ByteBits(out), next, kept - 2);
      BitsOfOneMore(out, ShiftRight(next, kept - 2) % 256, 8);
    }
  }

  lemma OneMoreIn(a: Alphabet, t: string, i: nat)
    requires i < |t| && AllIn(a, t[..i]) && SextetOf(a, t[i]).Some?
    ensures AllIn(a, t[..i + 1])
  {
    assert forall k | 0 <= k < i :: t[..i + 1][k] == t[..i][k];
  }

  lemma LeftOverDecides(a: Alphabet, t: string, b: seq<byte>, left: seq<bool>)
    requires AllIn(a, t) && |t| % 4 != 1 && |b| == WholeBytes(t) && |left| == 6 * |t| - 8 * |b|
    requires ByteBits(b) + left == TextBits(a, t)
    ensures Decoded(a, t) == if AllZero(left) then Some(b) else None
  {
    hide TextBits, BytesIn, Sextets, AllIn, AllZero;
    BitsOfAllLength(b, 8);
    AfterThePrefix(ByteBits(b), left, TextBits(a, t));
    ZerosAreAllZero(left);
    if AllZero(left) {
      DecodedMeaning(a, t, b);
    }
  }

  lemma AfterThePrefix<T>(p: seq<T>, q: seq<T>, all: seq<T>)
    requires p + q == all
    ensures all[|p|..] == q
  {
  }

  // ---- the main results

  lemma {:induction false} NoPaddingInside(a: Alphabet, t: string)
    requires AllIn(a, t)
    ensures WithoutPadding(t) == Some(t)
  {
    assert forall k | 0 <= k < |t| :: t[k] != '=' by {
      assert SextetOf(a, '=').None?;
    }
  }

  function DecodedPadded(a: Alphabet, text: string): Option<seq<byte>> {
    match WithoutPadding(text) case Some(t) => Decoded(a, t) case None => None
  }

  /** Every byte string is decoded from its encoding, and every text that decodes is that encoding,
      with or without its padding: each byte string has one accepted unpadded spelling. */
  lemma RoundTrip(a: Alphabet, b: seq<byte>, text: string)
    ensures DecodedPadded(a, Encoded(a, b)) == Some(b)
    ensures DecodedPadded(a, text) == Some(b) <==> WithoutPadding(text) == Some(Encoded(a, b))
  {
    var t := Encoded(a, b);
    NoPaddingInside(a, t);
    DecodedMeaning(a, t, b);
    if DecodedPadded(a, text) == Some(b) {
      DecodedMeaning(a, WithoutPadding(text).value, b);
      OneSpellingEach(a, WithoutPadding(text).value, t, b);
    }
  }

  /** A padded text decodes only with exactly the padding its encoding lacks to a multiple of four. */
  lemma PaddingIsExact(a: Alphabet, text: string)
    requires DecodedPadded(a, text).Some? && '=' in text
    ensures |text| % 4 == 0
    ensures var t := WithoutPadding(text).value; text == t + "=" || text == t + "=="
  {
    var start := IndexOf(text, '=');
    assert text == text[..start] + text[start..];
  }
}

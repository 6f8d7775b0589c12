/** IP addresses as text: parsing, the one canonical spelling, and the network an address lies in. */
module IpAddress {
  import opened Bits
  import opened Bytes
  import opened Options
  import opened Text

  const IPV4_BYTES := 4
  const IPV6_BYTES := 16

  datatype Address = Ipv4(bytes: seq<byte>) | Ipv6(bytes: seq<byte>) {
    predicate Valid() {
      |bytes| == if Ipv4? then IPV4_BYTES else IPV6_BYTES
    }
  }

  // ---- IPv4

  predicate IsOctet(s: string) {
    IsCanonicalDecimal(s) && |s| <= 3 && ValueOf(s, 10) <= 255
  }

  function Ipv4Bytes(text: string): (b: Option<seq<byte>>)
    ensures b.Some? ==> |b.value| == IPV4_BYTES
  {
    var parts := Split(text, '.');
    if |parts| == IPV4_BYTES && forall i | 0 <= i < |parts| :: IsOctet(parts[i])
    then Some(OctetValues(parts))
    else None
  }

  function OctetValue(s: string): byte
    requires IsOctet(s)
  {
    ValueOf(s, 10)
  }

  function OctetValues(parts: seq<string>): (b: seq<byte>)
    requires forall i | 0 <= i < |parts| :: IsOctet(parts[i])
    ensures |b| == |parts| && forall i | 0 <= i < |b| :: b[i] == OctetValue(parts[i])
  {
    seq(|parts|, i requires 0 <= i < |parts| && IsOctet(parts[i]) => OctetValue(parts[i]))
  }

  method ReadIpv4(text: string) returns (b: Option<seq<byte>>)
    ensures b == Ipv4Bytes(text)
  {
    var parts := Split(text, '.');
    if |parts| != IPV4_BYTES {
      return None;
    }
    var bytes: seq<byte> := [];
    for i := 0 to |parts|
      invariant |bytes| == i
      invariant forall k | 0 <= k < i :: IsOctet(parts[k]) && bytes[k] == OctetValue(parts[k])
    {
      var part := parts[i];
      if !IsCanonicalDecimal(part) || |part| > 3 {
        return None;
      }
      var value := ValueOf(part, 10);
      if value > 255 {
        return None;
      }
      bytes := bytes + [value];
    }
    assert bytes == OctetValues(parts);
    b := Some(bytes);
  }

  function Octets(b: seq<byte>): (ts: seq<string>)
    ensures |ts| == |b| && forall i | 0 <= i < |b| :: ts[i] == Numeral(b[i], 10)
  {
    seq(|b|, i requires 0 <= i < |b| => Numeral(b[i], 10))
  }

  function Ipv4Text(b: seq<byte>): string {
    Join(Octets(b), '.')
  }

  // ---- IPv6: groups of sixteen bits

  type group = g: nat | g < 65536

  function High(g: group): byte {
    g / 256
  }

  function Low(g: group): byte {
    g % 256
  }

  function TwoBytes(g: group): seq<byte> {
    [High(g), Low(g)]
  }

  function Paired(high: byte, low: byte): (g: group)
    ensures High(g) == high && Low(g) == low
  {
    256 * high + low
  }

  predicate IsGroup(s: string) {
    1 <= |s| <= 4 && AllDigits(s, 16)
  }

  function BytesOf(groups: seq<group>): (b: seq<byte>)
    ensures |b| == 2 * |groups|
  {
    if groups == [] then [] else TwoBytes(groups[0]) + BytesOf(groups[1..])
  }

  function Groups(b: seq<byte>): (gs: seq<group>)
    ensures |gs| == |b| / 2
  {
    if |b| < 2 then [] else [Paired(b[0], b[1])] + Groups(b[2..])
  }

  /** The bytes of the parts between colons; the last part, and no other, may be an IPv4 address. */
  function PartBytes(parts: seq<string>): Option<seq<byte>> {
    if parts == [] then Some([])
    else if |parts| == 1 && '.' in parts[0] then Ipv4Bytes(parts[0])
    else if !IsGroup(parts[0]) then None
    else
      Prepended(TwoBytes(GroupValue(parts[0])), PartBytes(parts[1..]))
  }

  function Prepended(first: seq<byte>, rest: Option<seq<byte>>): Option<seq<byte>> {
    if rest.Some? then Some(first + rest.value) else None
  }

  function GroupValue(s: string): group
    requires IsGroup(s)
  {
    ValueBelow(s, 16);
    HexPowers();
    ValueOf(s, 16)
  }

  lemma HexPowers()
    ensures Pow(16, 1) == 16 && Pow(16, 2) == 256 && Pow(16, 3) == 4096 && Pow(16, 4) == 65536
  {
  }

  function GroupBytes(text: string): (b: Option<seq<byte>>)
    ensures b.Some? ==> |b.value| <= IPV6_BYTES
  {
    if text == "" then Some([])
    else
      var b := PartBytes(Split(text, ':'));
      if b.Some? && |b.value| <= IPV6_BYTES then b else None
  }

  /** The loop over the parts, which appends two bytes for a group and four for an IPv4 address. */
  method ReadGroups(text: string) returns (b: Option<seq<byte>>)
    ensures b == GroupBytes(text)
  {
    if text == "" {
      return Some([]);
    }
    var parts := Split(text, ':');
    var bytes: seq<byte> := [];
    assert parts[0..] == parts;
    NothingPrepended(PartBytes(parts));
    for index := 0 to |parts|
      invariant PartBytes(parts) == Prepended(bytes, PartBytes(parts[index..]))
    {
      var part := parts[index];
      OnePart(parts, index);
      if index == |parts| - 1 && '.' in part {
        var embedded := ReadIpv4(part);
        if embedded.None? {
          return None;
        }
        PrependTwice(bytes, embedded.value, Some([]));
        NothingPrepended(embedded);
        bytes := bytes + embedded.value;
      } else {
        if !IsGroup(part) {
          return None;
        }
        var value := GroupValue(part);
        PrependTwice(bytes, TwoBytes(value), PartBytes(parts[index + 1..]));
        bytes := bytes + TwoBytes(value);
      }
    }
    assert parts[|parts|..] == [];
    NothingPrepended(Some(bytes));
    b := if |bytes| > IPV6_BYTES then None else Some(bytes);
  }

  lemma OnePart(parts: seq<string>, i: nat)
    requires i < |parts|
    ensures PartBytes(parts[i..]) ==
      if i == |parts| - 1 && '.' in parts[i] then Ipv4Bytes(parts[i])
      else if !IsGroup(parts[i]) then None
      else Prepended(TwoBytes(GroupValue(parts[i])), PartBytes(parts[i + 1..]))
    ensures i == |parts| - 1 ==> PartBytes(parts[i + 1..]) == Some([])
  {
    assert parts[i..][1..] == parts[i + 1..];
  }

  lemma NothingPrepended(rest: Option<seq<byte>>)
    ensures Prepended([], rest) == rest
    ensures rest.Some? ==> Prepended(rest.value, Some([])) == rest
  {
    assert rest.Some? ==> [] + rest.value == rest.value + [] == rest.value;
  }

  lemma PrependTwice(a: seq<byte>, b: seq<byte>, rest: Option<seq<byte>>)
    ensures Prepended(a, Prepended(b, rest)) == Prepended(a + b, rest)
  {
    if rest.Some? {
      assert a + (b + rest.value) == a + b + rest.value;
    }
  }

  /** The text cut at each pair of colons, from the left. */
  function Halves(s: string): (hs: seq<string>)
    ensures |hs| >= 1
  {
    if |s| < 2 then [s]
    else if s[..2] == "::" then [""] + Halves(s[2..])
    else
      var rest := Halves(s[1..]);
      [[s[0]] + rest[0]] + rest[1..]
  }

  function Ipv6Bytes(text: string): (b: Option<seq<byte>>)
    ensures b.Some? ==> |b.value| == IPV6_BYTES
  {
    var halves := Halves(text);
    if |halves| > 2 then None
    else if |halves| == 1 then
      var leading := GroupBytes(halves[0]);
      if leading.Some? && |leading.value| == IPV6_BYTES then leading else None
    else Filled(GroupBytes(halves[0]), GroupBytes(halves[1]))
  }

  /** Two halves and the zeros between them, of which there must be two at least. */
  function Filled(leading: Option<seq<byte>>, trailing: Option<seq<byte>>): (b: Option<seq<byte>>)
    ensures b.Some? ==> |b.value| == IPV6_BYTES
  {
    if leading.None? || trailing.None? then None
    else
      var elided := IPV6_BYTES - |leading.value| - |trailing.value|;
      if elided < 2 then None else Some(leading.value + ZeroBytes(elided) + trailing.value)
  }

  function ZeroBytes(n: nat): (b: seq<byte>)
    ensures |b| == n
  {
    seq(n, _ => 0)
  }

  // ---- the elided run

  datatype ZeroRun = ZeroRun(start: int, length: nat)

  const NO_RUN := ZeroRun(-1, 0)

  predicate AllZeroIn(gs: seq<nat>, i: nat, j: nat)
    requires j <= |gs|
  {
    forall k | i <= k < j :: gs[k] == 0
  }

  /** Within the first n groups: no run of zeros is longer, and none as long starts before. */
  ghost predicate LeftmostLongest(gs: seq<nat>, n: nat, run: ZeroRun)
    requires n <= |gs|
  {
    && (if run == NO_RUN then forall k | 0 <= k < n :: gs[k] != 0
        else 0 <= run.start < run.start + run.length <= n && AllZeroIn(gs, run.start, run.start + run.length))
    && forall i, j | 0 <= i < j <= n && AllZeroIn(gs, i, j) ::
         j - i < run.length || (j - i == run.length && run.start <= i)
  }

  /** Where the run of zeros ending just before n starts. */
  function RunStart(gs: seq<nat>, n: nat): (start: nat)
    requires n <= |gs|
    ensures start <= n && AllZeroIn(gs, start, n) && (start > 0 ==> gs[start - 1] != 0)
  {
    if n == 0 || gs[n - 1] != 0 then n else RunStart(gs, n - 1)
  }

  function FirstLongest(gs: seq<nat>, n: nat): ZeroRun
    requires n <= |gs|
  {
    if n == 0 then NO_RUN
    else
      var shorter, length := FirstLongest(gs, n - 1), n - RunStart(gs, n);
      if length > shorter.length then ZeroRun(RunStart(gs, n), length) else shorter
  }

  function ElidedRun(gs: seq<nat>): ZeroRun {
    var longest := FirstLongest(gs, |gs|);
    if longest.length > 1 then longest else NO_RUN
  }

  lemma {:induction false} FirstLongestIsLeftmost(gs: seq<nat>, n: nat)
    requires n <= |gs|
    ensures LeftmostLongest(gs, n, FirstLongest(gs, n))
  {
    if n > 0 {
      FirstLongestIsLeftmost(gs, n - 1);
      assert forall i | 0 <= i < n && AllZeroIn(gs, i, n) :: RunStart(gs, n) <= i;
    }
  }

  /** What "::" stands for: the leftmost longest run of zeros where two zeros stand side by side,
      and nothing where none do (sections 4.2.2 and 4.2.3 of RFC 5952). */
  lemma ElidedRunMeaning(gs: seq<nat>)
    ensures if exists i :: 0 <= i < |gs| - 1 && gs[i] == 0 == gs[i + 1]
            then ElidedRun(gs).length >= 2 && LeftmostLongest(gs, |gs|, ElidedRun(gs))
            else ElidedRun(gs) == NO_RUN
  {
    var longest := FirstLongest(gs, |gs|);
    FirstLongestIsLeftmost(gs, |gs|);
    if longest.length > 1 {
      assert gs[longest.start] == 0 == gs[longest.start + 1];
    } else {
      forall i | 0 <= i < |gs| - 1
        ensures !(gs[i] == 0 == gs[i + 1])
      {
        assert gs[i] == 0 == gs[i + 1] ==> AllZeroIn(gs, i, i + 2);
      }
    }
  }

  method LongestZeroRun(gs: seq<nat>) returns (run: ZeroRun)
    ensures run == ElidedRun(gs)
  {
    var longest := NO_RUN;
    var start := -1;
    for index := 0 to |gs|
      invariant start == (if RunStart(gs, index) == index then -1 else RunStart(gs, index))
      invariant longest == FirstLongest(gs, index)
    {
      if gs[index] == 0 && start == -1 {
        start := index;
      }
      if gs[index] != 0 {
        start := -1;
        continue;
      }
      var length := index - start + 1;
      if length > longest.length {
        longest := ZeroRun(start, length);
      }
    }
    run := if longest.length > 1 then longest else NO_RUN;
  }

  // ---- IPv6 text

  function Hexes(gs: seq<group>): (ts: seq<string>)
    ensures |ts| == |gs| && forall i | 0 <= i < |gs| :: ts[i] == Numeral(gs[i], 16)
  {
    seq(|gs|, i requires 0 <= i < |gs| => Numeral(gs[i], 16))
  }

  lemma RunIsWithin(gs: seq<group>)
    ensures var run := ElidedRun(gs);
            run == NO_RUN || (0 <= run.start < run.start + run.length <= |gs| && run.length >= 2
                              && AllZeroIn(gs, run.start, run.start + run.length))
  {
    ElidedRunMeaning(gs);
  }

  function Ipv6Text(b: seq<byte>): string {
    GroupsText(Groups(b))
  }

  function GroupsText(gs: seq<group>): string {
    var run := ElidedRun(gs);
    RunIsWithin(gs);
    if run == NO_RUN then Join(Hexes(gs), ':') else ElidedText(gs, run.start, run.start + run.length)
  }

  function ElidedText(gs: seq<group>, i: nat, j: nat): string
    requires i <= j <= |gs|
  {
    Join(Hexes(gs[..i]), ':') + "::" + Join(Hexes(gs[j..]), ':')
  }

  method WriteIpv6(bytes: seq<byte>) returns (text: string)
    requires |bytes| == IPV6_BYTES
    ensures text == Ipv6Text(bytes)
  {
    var groups: seq<group> := [];
    var index := 0;
    while index < |bytes|
      invariant 0 <= index <= |bytes| && index % 2 == 0
      invariant groups + Groups(bytes[index..]) == Groups(bytes)
    {
      assert bytes[index..][2..] == bytes[index + 2..];
      groups := groups + [Paired(bytes[index], bytes[index + 1])];
      index := index + 2;
    }
    assert groups == Groups(bytes);
    var run := LongestZeroRun(groups);
    RunIsWithin(groups);
    if run.start == -1 {
      return Join(Hexes(groups), ':');
    }
    var head, tail := Hexes(groups[..run.start]), Hexes(groups[run.start + run.length..]);
    text := Join(head, ':') + "::" + Join(tail, ':');
  }

  // ---- an IPv4 address back from its text

  lemma Ipv4RoundTrip(b: seq<byte>)
    requires |b| == IPV4_BYTES
    ensures Ipv4Bytes(Ipv4Text(b)) == Some(b)
  {
    var ts := Octets(b);
    forall i | 0 <= i < |b|
      ensures IsOctet(ts[i]) && ValueOf(ts[i], 10) == b[i] && Free(ts[i], '.')
    {
      OctetRoundTrip(b[i]);
    }
    SplitJoin(ts, '.');
    assert OctetValues(ts) == b;
  }

  lemma OctetRoundTrip(v: byte)
    ensures var s := Numeral(v, 10); IsOctet(s) && ValueOf(s, 10) == v && Free(s, '.') && Free(s, ':')
  {
    DecimalIsCanonical(v);
    NumeralValue(v, 10);
    assert Pow(10, 3) == 1000;
    NumeralLength(v, 10, 3);
  }

  // ---- an IPv6 address back from its text

  lemma HexRoundTrip(v: group)
    ensures var s := Numeral(v, 16);
            IsGroup(s) && ValueOf(s, 16) == v && Free(s, '.') && Free(s, ':') && s != ""
  {
    NumeralValue(v, 16);
    HexPowers();
    NumeralLength(v, 16, 4);
  }

  lemma {:induction false} BytesOfSum(xs: seq<group>, ys: seq<group>)
    ensures BytesOf(xs + ys) == BytesOf(xs) + BytesOf(ys)
  {
    if xs == [] {
      assert xs + ys == ys;
    } else {
      assert (xs + ys)[1..] == xs[1..] + ys;
      BytesOfSum(xs[1..], ys);
    }
  }

  lemma {:induction false} BytesOfGroups(b: seq<byte>)
    requires |b| % 2 == 0
    ensures BytesOf(Groups(b)) == b
  {
    if |b| >= 2 {
      BytesOfGroups(b[2..]);
      assert Groups(b)[1..] == Groups(b[2..]);
      assert b == [b[0], b[1]] + b[2..];
    }
  }

  lemma {:induction false} BytesOfZeros(gs: seq<group>)
    requires forall i | 0 <= i < |gs| :: gs[i] == 0
    ensures BytesOf(gs) == ZeroBytes(2 * |gs|)
  {
    if gs != [] {
      BytesOfZeros(gs[1..]);
    }
  }

  lemma {:induction false} PartsBack(gs: seq<group>)
    ensures PartBytes(Hexes(gs)) == Some(BytesOf(gs))
  {
    if gs != [] {
      HexRoundTrip(gs[0]);
      assert Hexes(gs)[1..] == Hexes(gs[1..]);
      PartsBack(gs[1..]);
    }
  }

  lemma HexesAreFree(gs: seq<group>)
    ensures forall t | t in Hexes(gs) :: Free(t, ':') && t != ""
  {
    forall i | 0 <= i < |gs|
      ensures Free(Hexes(gs)[i], ':') && Hexes(gs)[i] != ""
    {
      HexRoundTrip(gs[i]);
    }
  }

  lemma GroupsBack(gs: seq<group>)
    requires |gs| <= 8
    ensures GroupBytes(Join(Hexes(gs), ':')) == Some(BytesOf(gs))
  {
    if gs != [] {
      HexesAreFree(gs);
      SplitJoin(Hexes(gs), ':');
      PartsBack(gs);
      assert Hexes(gs)[0] in Hexes(gs);
      assert Join(Hexes(gs), ':') != "";
    }
  }

  /** No two colons side by side, and none at either end. */
  predicate Sparse(s: string) {
    && (s != "" ==> s[0] != ':' && s[|s| - 1] != ':')
    && forall i | 0 <= i < |s| - 1 :: s[i] != ':' || s[i + 1] != ':'
  }

  lemma {:induction false} JoinIsSparse(ts: seq<string>)
    requires forall t | t in ts :: Free(t, ':') && t != ""
    ensures Sparse(Join(ts, ':')) && (ts != [] ==> Join(ts, ':') != "")
  {
    if ts != [] {
      assert ts[0] in ts;
      JoinIsSparse(ts[1..]);
    }
  }

  lemma {:induction false} HalvesOfSparse(s: string)
    requires forall i | 0 <= i < |s| - 1 :: s[i] != ':' || s[i + 1] != ':'
    ensures Halves(s) == [s]
  {
    if |s| >= 2 {
      HalvesOfSparse(s[1..]);
      assert s == [s[0]] + s[1..];
      assert s[..2] == [s[0], s[1]];
    }
  }

  lemma {:induction false} HalvesJoined(h: string, t: string)
    requires h != "" ==> h[|h| - 1] != ':'
    requires forall i | 0 <= i < |h| - 1 :: h[i] != ':' || h[i + 1] != ':'
    requires Sparse(t)
    ensures Halves(h + "::" + t) == [h, t]
  {
    var s := h + "::" + t;
    if h == "" {
      assert s[..2] == "::" && s[2..] == t;
      HalvesOfSparse(t);
    } else {
      assert s[1..] == h[1..] + "::" + t;
      HalvesJoined(h[1..], t);
      assert s[..2] == [s[0], s[1]];
      assert h == [h[0]] + h[1..];
    }
  }

  lemma WholeBack(gs: seq<group>)
    requires |gs| == 8
    ensures Ipv6Bytes(Join(Hexes(gs), ':')) == Some(BytesOf(gs))
  {
    HexesAreFree(gs);
    JoinIsSparse(Hexes(gs));
    HalvesOfSparse(Join(Hexes(gs), ':'));
    GroupsBack(gs);
  }

  lemma HexesAreSparse(gs: seq<group>)
    ensures Sparse(Join(Hexes(gs), ':'))
  {
    HexesAreFree(gs);
    JoinIsSparse(Hexes(gs));
  }

  lemma FilledBack(leading: Option<seq<byte>>, trailing: Option<seq<byte>>, b: seq<byte>, c: seq<byte>, elided: nat)
    requires leading == Some(b) && trailing == Some(c) && elided >= 2 && |b| + elided + |c| == IPV6_BYTES
    ensures Filled(leading, trailing) == Some(b + ZeroBytes(elided) + c)
  {
  }

  lemma HalvesFilled(s: string, h: string, t: string)
    requires Halves(s) == [h, t]
    ensures Ipv6Bytes(s) == Filled(GroupBytes(h), GroupBytes(t))
  {
  }

  ghost predicate Spelled(t: string, gs: seq<group>) {
    Sparse(t) && GroupBytes(t) == Some(BytesOf(gs))
  }

  lemma HexesSpell(gs: seq<group>)
    requires |gs| <= 8
    ensures Spelled(Join(Hexes(gs), ':'), gs)
  {
    HexesAreSparse(gs);
    GroupsBack(gs);
  }

  lemma ElidedBack(gs: seq<group>, start: nat, length: nat)
    requires start + length <= |gs| == 8 && AllZeroIn(gs, start, start + length)
    ensures BytesOf(gs[..start]) + ZeroBytes(2 * length) + BytesOf(gs[start + length..]) == BytesOf(gs)
  {
    hide BytesOf, ZeroBytes;
    var head, run, tail := gs[..start], gs[start..start + length], gs[start + length..];
    BytesOfZeros(run);
    BytesOfSum(head, run);
    BytesOfSum(head + run, tail);
    assert gs == head + run + tail;
  }

  lemma ElidedTextBack(gs: seq<group>, start: nat, length: nat)
    requires start + length <= |gs| == 8 && length >= 2 && AllZeroIn(gs, start, start + length)
    ensures Ipv6Bytes(ElidedText(gs, start, start + length)) == Some(BytesOf(gs))
  {
    var head, tail := gs[..start], gs[start + length..];
    HexesSpell(head);
    HexesSpell(tail);
    var h, t := Join(Hexes(head), ':'), Join(Hexes(tail), ':');
    HalvesJoined(h, t);
    HalvesFilled(h + "::" + t, h, t);
    FilledBack(GroupBytes(h), GroupBytes(t), BytesOf(head), BytesOf(tail), 2 * length);
    ElidedBack(gs, start, length);
  }

  lemma GroupsTextBack(gs: seq<group>)
    requires |gs| == 8
    ensures Ipv6Bytes(GroupsText(gs)) == Some(BytesOf(gs))
  {
    var run := ElidedRun(gs);
    RunIsWithin(gs);
    if run == NO_RUN {
      WholeBack(gs);
    } else {
      ElidedTextBack(gs, run.start, run.length);
    }
  }

  /** Every sixteen bytes are read back from their text. */
  lemma Ipv6RoundTrip(b: seq<byte>)
    requires |b| == IPV6_BYTES
    ensures Ipv6Bytes(Ipv6Text(b)) == Some(b)
  {
    BytesOfGroups(b);
    GroupsTextBack(Groups(b));
  }

  // ---- one spelling for each address

  predicate IsMapped(b: seq<byte>)
    requires |b| == IPV6_BYTES
  {
    (forall i | 0 <= i < 10 :: b[i] == 0) && b[10] == 255 && b[11] == 255
  }

  /** An IPv6 address that maps an IPv4 address is that IPv4 address. */
  function Unmapped(b: seq<byte>): (a: Address)
    requires |b| == IPV6_BYTES
    ensures a.Valid()
  {
    if IsMapped(b) then Ipv4(b[12..]) else Ipv6(b)
  }

  function Parse(text: string): (a: Option<Address>)
    ensures a.Some? ==> a.value.Valid()
    ensures a.Some? && a.value.Ipv6? ==> !IsMapped(a.value.bytes)
  {
    ParseTrimmed(Trim(text))
  }

  function ParseTrimmed(text: string): (a: Option<Address>)
    ensures a.Some? ==> a.value.Valid()
    ensures a.Some? && a.value.Ipv6? ==> !IsMapped(a.value.bytes)
  {
    if Ipv4Bytes(text).Some? then Some(Ipv4(Ipv4Bytes(text).value))
    else
      var b := Ipv6Bytes(text);
      if b.Some? then Some(Unmapped(b.value)) else None
  }

  function AddressText(a: Address): string {
    if a.Ipv4? then Ipv4Text(a.bytes) else Ipv6Text(a.bytes)
  }

  function CanonicalIpAddress(text: string): Option<string> {
    var a := Parse(text);
    if a.Some? then Some(AddressText(a.value)) else None
  }

  /** The characters of an address: hexadecimal digits, and the separator of its family. */
  predicate IsAddressChar(c: char, separator: char) {
    IsDigit(c, 16) || c == separator
  }

  predicate AddressChars(s: string, separator: char) {
    forall i | 0 <= i < |s| :: IsAddressChar(s[i], separator)
  }

  lemma {:induction false} JoinChars(ts: seq<string>, separator: char)
    requires forall i | 0 <= i < |ts| :: AddressChars(ts[i], separator)
    ensures AddressChars(Join(ts, separator), separator)
  {
    if |ts| > 1 {
      JoinChars(ts[1..], separator);
    }
  }

  lemma HexesChars(gs: seq<group>)
    ensures AddressChars(Join(Hexes(gs), ':'), ':')
  {
    forall i | 0 <= i < |gs|
      ensures AddressChars(Hexes(gs)[i], ':')
    {
      HexRoundTrip(gs[i]);
    }
    JoinChars(Hexes(gs), ':');
  }

  lemma Ipv4Chars(b: seq<byte>)
    requires |b| == IPV4_BYTES
    ensures AddressChars(Ipv4Text(b), '.') && Ipv4Text(b) != "" && Free(Ipv4Text(b), ':')
  {
    forall i | 0 <= i < |b|
      ensures AddressChars(Octets(b)[i], '.')
    {
      OctetRoundTrip(b[i]);
    }
    JoinChars(Octets(b), '.');
  }

  lemma GroupsTextChars(gs: seq<group>)
    requires |gs| == 8
    ensures AddressChars(GroupsText(gs), ':') && ':' in GroupsText(gs)
  {
    var run := ElidedRun(gs);
    RunIsWithin(gs);
    if run == NO_RUN {
      HexesChars(gs);
      var ts := Hexes(gs);
      assert Join(ts, ':') == ts[0] + [':'] + Join(ts[1..], ':');
      assert Join(ts, ':')[|ts[0]|] == ':';
    } else {
      HexesChars(gs[..run.start]);
      HexesChars(gs[run.start + run.length..]);
      assert GroupsText(gs)[|Join(Hexes(gs[..run.start]), ':')|] == ':';
    }
  }

  lemma Ipv4SpelledChars(s: string)
    requires Ipv4Bytes(s).Some?
    ensures AddressChars(s, '.')
  {
    SplitParts(s, '.');
    JoinChars(Split(s, '.'), '.');
  }

  lemma TrimNothing(s: string, separator: char)
    requires AddressChars(s, separator) && !IsWhitespace(separator)
    ensures Trim(s) == s
  {
    assert s != "" ==> !IsWhitespace(s[0]) && !IsWhitespace(s[|s| - 1]);
  }

  /** An address is read back from its text. */
  lemma ParseBack(a: Address)
    requires a.Valid() && (a.Ipv6? ==> !IsMapped(a.bytes))
    ensures Parse(AddressText(a)) == Some(a)
  {
    var text := AddressText(a);
    if a.Ipv4? {
      Ipv4Chars(a.bytes);
      TrimNothing(text, '.');
      Ipv4RoundTrip(a.bytes);
    } else {
      GroupsTextChars(Groups(a.bytes));
      TrimNothing(text, ':');
      Ipv6RoundTrip(a.bytes);
      if Ipv4Bytes(text).Some? {
        Ipv4SpelledChars(text);
        assert false;
      }
    }
  }

  lemma EmbeddedParts(b: seq<byte>)
    requires |b| == IPV4_BYTES
    ensures PartBytes(["ffff", Ipv4Text(b)]) == Some([255, 255] + b)
  {
    var parts := ["ffff", Ipv4Text(b)];
    Ipv4RoundTrip(b);
    ThreeDots(Octets(b));
    assert parts[1..] == [Ipv4Text(b)];
    assert ValueOf("f", 16) == 15 && "ff"[..1] == "f" && "fff"[..2] == "ff" && "ffff"[..3] == "fff";
    assert ValueOf("ff", 16) == 255 && ValueOf("fff", 16) == 4095 && ValueOf("ffff", 16) == 65535;
    assert TwoBytes(GroupValue("ffff")) == [255, 255];
    assert PartBytes(parts) == Prepended([255, 255], Ipv4Bytes(Ipv4Text(b)));
  }

  lemma ThreeDots(ts: seq<string>)
    requires |ts| > 1
    ensures '.' in Join(ts, '.')
  {
    assert Join(ts, '.')[|ts[0]|] == '.';
  }

  /** An IPv4 address written as an IPv6 address that maps it is that IPv4 address. */
  lemma MappedIsIpv4(b: seq<byte>)
    requires |b| == IPV4_BYTES
    ensures Parse("::ffff:" + Ipv4Text(b)) == Some(Ipv4(b))
    ensures CanonicalIpAddress("::ffff:" + Ipv4Text(b)) == Some(Ipv4Text(b))
  {
    hide PartBytes, Ipv4Text, TrimStart, TrimEnd, Halves;
    var last, text := "ffff:" + Ipv4Text(b), "::ffff:" + Ipv4Text(b);
    Ipv4Chars(b);
    MappedTextIsTrimmed(b, text);
    assert text[0] == ':';
    if Ipv4Bytes(text).Some? {
      Ipv4SpelledChars(text);
      assert false;
    }
    assert last == "ffff" + [':'] + Ipv4Text(b);
    SplitFirst("ffff", Ipv4Text(b), ':');
    SplitWhole(Ipv4Text(b), ':');
    assert ["ffff"] + [Ipv4Text(b)] == ["ffff", Ipv4Text(b)];
    EmbeddedParts(b);
    HalvesJoinedLast(b, last);
    assert text == "" + "::" + last;
    HalvesFilled(text, "", last);
    FilledBack(Some([]), Some([255, 255] + b), [], [255, 255] + b, 10);
    var whole := [] + ZeroBytes(10) + ([255, 255] + b);
    assert IsMapped(whole) && whole[12..] == b;
  }

  lemma MappedTextIsTrimmed(b: seq<byte>, text: string)
    requires |b| == IPV4_BYTES && text == "::ffff:" + Ipv4Text(b)
    ensures Trim(text) == text
  {
    hide Ipv4Text;
    Ipv4Chars(b);
    var t := Ipv4Text(b);
    assert text[|text| - 1] == t[|t| - 1] && text[0] == ':';
  }

  lemma HalvesJoinedLast(b: seq<byte>, last: string)
    requires |b| == IPV4_BYTES && last == "ffff:" + Ipv4Text(b)
    ensures Halves("" + "::" + last) == ["", last]
  {
    hide Ipv4Text;
    Ipv4Chars(b);
    var t := Ipv4Text(b);
    assert last[|last| - 1] == t[|t| - 1];
    assert forall i | 5 <= i < |last| :: last[i] == t[i - 5];
    HalvesJoined("", last);
  }

  // ---- an IPv4 part before the gap

  /** The bytes of parts none of which may be an IPv4 address. */
  function HexBytes(parts: seq<string>): Option<seq<byte>> {
    if parts == [] then Some([])
    else if !IsGroup(parts[0]) then None
    else Prepended(TwoBytes(GroupValue(parts[0])), HexBytes(parts[1..]))
  }

  function HexGroupBytes(text: string): Option<seq<byte>> {
    if text == "" then Some([])
    else
      var b := HexBytes(Split(text, ':'));
      if b.Some? && |b.value| <= IPV6_BYTES then b else None
  }

  /** The reader of section 2.2 of RFC 4291, which takes an IPv4 address at the end of the whole
      text and nowhere else. */
  function StrictIpv6Bytes(text: string): Option<seq<byte>> {
    var halves := Halves(text);
    if |halves| == 2 then Filled(HexGroupBytes(halves[0]), GroupBytes(halves[1])) else Ipv6Bytes(text)
  }

  /** The text has a gap, and a dot before it. */
  predicate DotBeforeTheGap(text: string) {
    |Halves(text)| >= 2 && '.' in Halves(text)[0]
  }

  lemma {:induction false} HalvesCover(s: string)
    ensures |Halves(s)| == 2 ==> s == Halves(s)[0] + "::" + Halves(s)[1]
    ensures |Halves(s)| == 1 ==> s == Halves(s)[0]
  {
    if |s| >= 2 {
      if s[..2] == "::" {
        HalvesCover(s[2..]);
        assert s == "" + "::" + s[2..];
      } else {
        var h := Halves(s[1..]);
        HalvesCover(s[1..]);
        assert s == [s[0]] + s[1..];
        assert Halves(s)[0] == [s[0]] + h[0];
        if |h| == 2 {
          assert Halves(s)[1] == h[1];
          OneMoreBefore(s[0], h[0], h[1]);
        }
      }
    }
  }

  lemma OneMoreBefore(c: char, h: string, t: string)
    ensures [c] + (h + "::" + t) == ([c] + h) + "::" + t
  {
  }

  ghost predicate SomeHolds(parts: seq<string>, d: char) {
    exists p | p in parts :: d in p
  }

  lemma FirstOrRest(first: string, rest: seq<string>, d: char)
    ensures SomeHolds([first] + rest, d) <==> d in first || SomeHolds(rest, d)
  {
    var parts := [first] + rest;
    assert first in parts && forall p | p in rest :: p in parts;
  }

  lemma {:induction false} PartsHoldTheChars(s: string, c: char, d: char)
    requires c != d
    ensures d in s <==> SomeHolds(Split(s, c), d)
  {
    if s != [] {
      var rest := Split(s[1..], c);
      PartsHoldTheChars(s[1..], c, d);
      assert s == [s[0]] + s[1..];
      if s[0] == c {
        FirstOrRest("", rest, d);
      } else {
        assert rest == [rest[0]] + rest[1..];
        FirstOrRest(rest[0], rest[1..], d);
        FirstOrRest([s[0]] + rest[0], rest[1..], d);
      }
    }
  }

  lemma {:induction false} WithoutDots(parts: seq<string>)
    ensures HexBytes(parts) == if SomeHolds(parts, '.') then None else PartBytes(parts)
  {
    if parts != [] {
      WithoutDots(parts[1..]);
      assert IsGroup(parts[0]) ==> '.' !in parts[0];
      assert parts == [parts[0]] + parts[1..];
      FirstOrRest(parts[0], parts[1..], '.');
    }
  }

  lemma HexGroupsExactly(text: string)
    ensures HexGroupBytes(text) == if '.' in text then None else GroupBytes(text)
  {
    hide HexBytes, PartBytes, Split;
    PartsHoldTheChars(text, ':', '.');
    WithoutDots(Split(text, ':'));
  }

  /** The code's reader accepts what the strict one does, with the same bytes, and besides exactly
      the texts with a dot before the gap that it accepts. */
  lemma StrictExactly(text: string)
    ensures StrictIpv6Bytes(text) == if DotBeforeTheGap(text) then None else Ipv6Bytes(text)
    ensures StrictIpv6Bytes(text) != Ipv6Bytes(text) <==> Ipv6Bytes(text).Some? && DotBeforeTheGap(text)
    ensures DotBeforeTheGap(text) && Ipv6Bytes(text).Some? ==>
      exists before, after :: text == before + "::" + after && '.' in before
  {
    hide HexGroupBytes, GroupBytes, Halves;
    if |Halves(text)| == 2 {
      HexGroupsExactly(Halves(text)[0]);
      HalvesCover(text);
    }
  }

  /** Every IPv4 address is read before the gap. */
  lemma Ipv4BeforeTheGap(b: seq<byte>)
    requires |b| == IPV4_BYTES
    ensures Ipv6Bytes(Ipv4Text(b) + "::") == Some(b + ZeroBytes(12))
    ensures StrictIpv6Bytes(Ipv4Text(b) + "::").None?
  {
    hide Ipv4Text, Halves;
    var t := Ipv4Text(b);
    Ipv4Chars(b);
    assert t + "::" + "" == t + "::";
    HalvesJoined(t, "");
    HalvesFilled(t + "::", t, "");
    Ipv4Alone(b);
    FilledBack(Some(b), Some([]), b, [], 12);
    assert b + ZeroBytes(12) + [] == b + ZeroBytes(12);
    HexGroupsExactly(t);
  }

  lemma Ipv4Alone(b: seq<byte>)
    requires |b| == IPV4_BYTES
    ensures '.' in Ipv4Text(b) && GroupBytes(Ipv4Text(b)) == Some(b)
  {
    var t := Ipv4Text(b);
    Ipv4Chars(b);
    ThreeDots(Octets(b));
    Ipv4RoundTrip(b);
    hide Ipv4Text, Ipv4Bytes;
    SplitWhole(t, ':');
    assert PartBytes([t]) == Ipv4Bytes(t);
  }

  /** The canonical text names the same address, is its own canonical text, and is one for all the
      texts of that address. */
  lemma CanonicalMeaning(t: string, u: string)
    ensures CanonicalIpAddress(t).Some? <==> Parse(t).Some?
    ensures CanonicalIpAddress(t).Some? ==>
      Parse(CanonicalIpAddress(t).value) == Parse(t)
      && CanonicalIpAddress(CanonicalIpAddress(t).value) == CanonicalIpAddress(t)
    ensures CanonicalIpAddress(t) == CanonicalIpAddress(u) <==> Parse(t) == Parse(u)
  {
    if Parse(t).Some? {
      ParseBack(Parse(t).value);
    }
    if Parse(u).Some? {
      ParseBack(Parse(u).value);
    }
  }

  // ---- networks

  function KeptBits(prefixLength: int): (k: nat)
    ensures k <= 8
  {
    if prefixLength < 0 then 0 else if prefixLength > 8 then 8 else prefixLength
  }

  /** The byte under a mask of k leading ones. */
  function Masked(v: byte, k: nat): (m: byte)
    requires k <= 8
  {
    MaskedIsByte(v, Pow2(8 - k));
    v / Pow2(8 - k) * Pow2(8 - k)
  }

  lemma MaskedIsByte(v: byte, p: int)
    requires p > 0
    ensures 0 <= v / p * p <= v
  {
    DivisionWithRemainder(v, p);
  }

  function NetworkBytes(b: seq<byte>, prefixLength: int): (n: seq<byte>)
    ensures |n| == |b|
  {
    seq(|b|, i requires 0 <= i < |b| => Masked(b[i], KeptBits(prefixLength - 8 * i)))
  }

  datatype PrefixLengths = PrefixLengths(ipv4: nat, ipv6: nat)

  function PrefixLengthOf(a: Address, lengths: PrefixLengths): nat {
    if a.Ipv4? then lengths.ipv4 else lengths.ipv6
  }

  function NetworkText(a: Address, lengths: PrefixLengths): string {
    var prefixLength := PrefixLengthOf(a, lengths);
    AddressText(a.(bytes := NetworkBytes(a.bytes, prefixLength))) + ("/" + Numeral(prefixLength, 10))
  }

  function IpAddressNetwork(text: string, lengths: PrefixLengths): Option<string> {
    var a := Parse(text);
    if a.Some? then Some(NetworkText(a.value, lengths)) else None
  }

  function AddressBits(a: Address): seq<bool> {
    BitsOfAll(a.bytes, 8)
  }

  function Clamped(n: int, most: nat): (c: nat)
    ensures c <= most
  {
    if n < 0 then 0 else if n > most then most else n
  }

  /** The first n bits, and zeros in the place of the others. */
  function Cleared(bits: seq<bool>, n: int): seq<bool> {
    bits[..Clamped(n, |bits|)] + Zeros(|bits| - Clamped(n, |bits|))
  }

  lemma MaskedBits(v: byte, k: nat)
    requires k <= 8
    ensures BitsOf(Masked(v, k), 8) == Cleared(BitsOf(v, 8), k)
  {
    var m := 8 - k;
    BitsSplit(v, k, m);
    BitsConcatenate(v / Pow2(m), k, 0, m);
    BitsOfZero(m);
    assert BitsOf(v, 8)[..k] == BitsOf(v / Pow2(m), k);
  }

  lemma {:induction false} ZerosJoin(n: nat, m: nat)
    ensures Zeros(n) + Zeros(m) == Zeros(n + m)
    decreases n
  {
    forall i | 0 <= i < n + m
      ensures (Zeros(n) + Zeros(m))[i] == Zeros(n + m)[i]
    {
    }
  }

  lemma ClearedInParts(x: seq<bool>, y: seq<bool>, n: int)
    ensures Cleared(x + y, n) == Cleared(x, n) + Cleared(y, n - |x|)
  {
    if n <= |x| {
      ZerosJoin(|x| - Clamped(n, |x|), |y|);
    }
  }

  lemma {:induction false} NetworkBits(b: seq<byte>, prefixLength: int)
    ensures BitsOfAll(NetworkBytes(b, prefixLength), 8) == Cleared(BitsOfAll(b, 8), prefixLength)
  {
    if b != [] {
      var n := NetworkBytes(b, prefixLength);
      NetworkRest(b, prefixLength);
      hide NetworkBytes, Masked;
      NetworkBits(b[1..], prefixLength - 8);
      ClearedInParts(BitsOf(b[0], 8), BitsOfAll(b[1..], 8), prefixLength);
      hide Cleared;
    }
  }

  lemma NetworkRest(b: seq<byte>, prefixLength: int)
    requires b != []
    ensures NetworkBytes(b, prefixLength)[1..] == NetworkBytes(b[1..], prefixLength - 8)
    ensures BitsOf(NetworkBytes(b, prefixLength)[0], 8) == Cleared(BitsOf(b[0], 8), prefixLength)
  {
    var n := NetworkBytes(b, prefixLength);
    assert n[1..] == NetworkBytes(b[1..], prefixLength - 8);
    MaskedBits(b[0], KeptBits(prefixLength));
  }

  lemma SameCleared(x: seq<bool>, y: seq<bool>, n: int)
    requires |x| == |y|
    ensures Cleared(x, n) == Cleared(y, n) <==> x[..Clamped(n, |x|)] == y[..Clamped(n, |x|)]
  {
    var k := Clamped(n, |x|);
    if Cleared(x, n) == Cleared(y, n) {
      assert Cleared(x, n)[..k] == x[..k] && Cleared(y, n)[..k] == y[..k];
    }
  }

  /** Two addresses of one family lie in one network exactly when their first bits agree. */
  lemma SameNetworkBytes(b: seq<byte>, c: seq<byte>, n: int)
    requires |b| == |c|
    ensures |BitsOfAll(b, 8)| == |BitsOfAll(c, 8)| == 8 * |b|
    ensures NetworkBytes(b, n) == NetworkBytes(c, n)
      <==> BitsOfAll(b, 8)[..Clamped(n, 8 * |b|)] == BitsOfAll(c, 8)[..Clamped(n, 8 * |b|)]
  {
    BitsOfAllLength(b, 8);
    BitsOfAllLength(c, 8);
    NetworkBits(b, n);
    NetworkBits(c, n);
    SameCleared(BitsOfAll(b, 8), BitsOfAll(c, 8), n);
    if BitsOfAll(NetworkBytes(b, n), 8) == BitsOfAll(NetworkBytes(c, n), 8) {
      Pow2Values();
      BitsOfAllInjective(NetworkBytes(b, n), NetworkBytes(c, n), 8);
    }
  }

  lemma AddressTextInjective(a: Address, b: Address)
    requires a.Valid() && b.Valid() && a.Ipv4? == b.Ipv4? && AddressText(a) == AddressText(b)
    ensures a == b
  {
    if a.Ipv4? {
      Ipv4RoundTrip(a.bytes);
      Ipv4RoundTrip(b.bytes);
    } else {
      Ipv6RoundTrip(a.bytes);
      Ipv6RoundTrip(b.bytes);
    }
  }

  lemma FamiliesApart(a: Address, b: Address, lengths: PrefixLengths)
    requires a.Valid() && b.Valid() && a.Ipv4? && b.Ipv6?
    ensures NetworkText(a, lengths) != NetworkText(b, lengths)
  {
    var m, n := NetworkBytes(a.bytes, lengths.ipv4), NetworkBytes(b.bytes, lengths.ipv6);
    Ipv4Chars(m);
    GroupsTextChars(Groups(n));
    NumeralValue(lengths.ipv4, 10);
    assert ':' !in NetworkText(a, lengths);
    assert ':' in NetworkText(b, lengths);
  }

  predicate SameNetwork(a: Address, b: Address, lengths: PrefixLengths)
    requires a.Valid() && b.Valid()
  {
    BitsOfAllLength(a.bytes, 8);
    BitsOfAllLength(b.bytes, 8);
    var n := Clamped(PrefixLengthOf(a, lengths), 8 * |a.bytes|);
    a.Ipv4? == b.Ipv4? && AddressBits(a)[..n] == AddressBits(b)[..n]
  }

  /** Two texts of addresses have one network text exactly when the addresses are of one family and agree
      on the bits of the prefix. */
  lemma IpAddressNetworkMeaning(t: string, u: string, lengths: PrefixLengths)
    requires Parse(t).Some? && Parse(u).Some?
    ensures IpAddressNetwork(t, lengths) == IpAddressNetwork(u, lengths)
      <==> SameNetwork(Parse(t).value, Parse(u).value, lengths)
  {
    NetworkMeaning(Parse(t).value, Parse(u).value, lengths);
  }

  /** The bits of a network address: those of the address up to the prefix length, and zeros after it. */
  ghost predicate IsNetworkOf(n: seq<byte>, b: seq<byte>, prefixLength: nat) {
    var bits := BitsOfAll(b, 8);
    |n| == |b| && |bits| == 8 * |b|
    && if prefixLength >= 8 * |b| then n == b
       else BitsOfAll(n, 8) == bits[..prefixLength] + Zeros(8 * |b| - prefixLength)
  }

  lemma NetworkBytesMeaning(b: seq<byte>, prefixLength: nat)
    ensures IsNetworkOf(NetworkBytes(b, prefixLength), b, prefixLength)
  {
    BitsOfAllLength(b, 8);
    NetworkBits(b, prefixLength);
    var n := NetworkBytes(b, prefixLength);
    if prefixLength >= 8 * |b| {
      assert BitsOfAll(b, 8)[..8 * |b|] + Zeros(0) == BitsOfAll(b, 8);
      Pow2Values();
      BitsOfAllInjective(n, b, 8);
    }
  }

  /** The network of an IPv4 address: that many of its bits as that length of the configuration says, which
      is the number after the slash; the length for the other family plays no part. */
  lemma Ipv4Network(text: string, b: seq<byte>, lengths: PrefixLengths) returns (n: seq<byte>)
    requires Parse(text) == Some(Ipv4(b))
    ensures IsNetworkOf(n, b, lengths.ipv4)
    ensures IpAddressNetwork(text, lengths) == Some(Ipv4Text(n) + ("/" + Numeral(lengths.ipv4, 10)))
    ensures forall other: nat :: IpAddressNetwork(text, lengths.(ipv6 := other)) == IpAddressNetwork(text, lengths)
  {
    n := NetworkBytes(b, lengths.ipv4);
    NetworkBytesMeaning(b, lengths.ipv4);
  }

  lemma Ipv6Network(text: string, b: seq<byte>, lengths: PrefixLengths) returns (n: seq<byte>)
    requires Parse(text) == Some(Ipv6(b))
    ensures IsNetworkOf(n, b, lengths.ipv6)
    ensures IpAddressNetwork(text, lengths) == Some(Ipv6Text(n) + ("/" + Numeral(lengths.ipv6, 10)))
    ensures forall other: nat :: IpAddressNetwork(text, lengths.(ipv4 := other)) == IpAddressNetwork(text, lengths)
  {
    n := NetworkBytes(b, lengths.ipv6);
    NetworkBytesMeaning(b, lengths.ipv6);
  }

  lemma NetworkMeaning(a: Address, b: Address, lengths: PrefixLengths)
    requires a.Valid() && b.Valid()
    ensures NetworkText(a, lengths) == NetworkText(b, lengths) <==> SameNetwork(a, b, lengths)
  {
    if a.Ipv4? != b.Ipv4? {
      FamiliesApart(if a.Ipv4? then a else b, if a.Ipv4? then b else a, lengths);
    } else {
      SameNetworkBytes(a.bytes, b.bytes, PrefixLengthOf(a, lengths));
      NetworkTextInjective(a, b, lengths);
    }
  }

  lemma NetworkTextInjective(a: Address, b: Address, lengths: PrefixLengths)
    requires a.Valid() && b.Valid() && a.Ipv4? == b.Ipv4?
    ensures var n := PrefixLengthOf(a, lengths);
            NetworkText(a, lengths) == NetworkText(b, lengths) <==> NetworkBytes(a.bytes, n) == NetworkBytes(b.bytes, n)
  {
    var n := PrefixLengthOf(a, lengths);
    var na, nb := a.(bytes := NetworkBytes(a.bytes, n)), b.(bytes := NetworkBytes(b.bytes, n));
    if NetworkText(a, lengths) == NetworkText(b, lengths) {
      SuffixedInjective(na, nb, "/" + Numeral(n, 10));
    }
  }

  lemma SuffixedInjective(a: Address, b: Address, suffix: string)
    requires a.Valid() && b.Valid() && a.Ipv4? == b.Ipv4? && AddressText(a) + suffix == AddressText(b) + suffix
    ensures a == b
  {
    SameBeforeSuffix(AddressText(a), AddressText(b), suffix);
    AddressTextInjective(a, b);
  }

  lemma SameBeforeSuffix(s: string, t: string, suffix: string)
    requires s + suffix == t + suffix
    ensures s == t
  {
    assert |s| == |t|;
    assert s == (s + suffix)[..|s|] && t == (t + suffix)[..|t|];
  }
}

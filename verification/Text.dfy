/** Splitting and joining texts, and numerals. */
module Text {

  function Split(s: string, c: char): (parts: seq<string>)
    ensures |parts| >= 1
  {
    if s == [] then [""]
    else if s[0] == c then [""] + Split(s[1..], c)
    else
      var rest := Split(s[1..], c);
      [[s[0]] + rest[0]] + rest[1..]
  }

  function Join(parts: seq<string>, c: char): string {
    if parts == [] then ""
    else if |parts| == 1 then parts[0]
    else parts[0] + [c] + Join(parts[1..], c)
  }

  predicate Free(s: string, c: char) {
    forall i | 0 <= i < |s| :: s[i] != c
  }

  lemma {:induction false} SplitWhole(s: string, c: char)
    requires Free(s, c)
    ensures Split(s, c) == [s]
  {
    if s != [] {
      SplitWhole(s[1..], c);
      assert s == [s[0]] + s[1..];
    }
  }

  lemma {:induction false} SplitFirst(s: string, t: string, c: char)
    requires Free(s, c)
    ensures Split(s + [c] + t, c) == [s] + Split(t, c)
  {
    if s == [] {
      assert (s + [c] + t)[1..] == t;
    } else {
      SplitFirst(s[1..], t, c);
      assert (s + [c] + t)[1..] == s[1..] + [c] + t;
      assert [s[0]] + s[1..] == s;
    }
  }

  /** What was joined splits into the same parts. */
  lemma {:induction false} SplitJoin(parts: seq<string>, c: char)
    requires parts != [] && forall p | p in parts :: Free(p, c)
    ensures Split(Join(parts, c), c) == parts
  {
    if |parts| == 1 {
      assert parts[0] in parts;
      SplitWhole(parts[0], c);
    } else {
      assert parts[0] in parts;
      SplitJoin(parts[1..], c);
      SplitFirst(parts[0], Join(parts[1..], c), c);
      assert parts == [parts[0]] + parts[1..];
    }
  }

  lemma JoinFirst(p: string, parts: seq<string>, c: char)
    requires parts != []
    ensures Join([p + parts[0]] + parts[1..], c) == p + Join(parts, c)
  {
    var longer := [p + parts[0]] + parts[1..];
    assert longer[1..] == parts[1..];
    if |parts| > 1 {
      var rest := [c] + Join(parts[1..], c);
      assert Join(parts, c) == parts[0] + rest;
      assert Join(longer, c) == (p + parts[0]) + rest;
    }
  }

  lemma {:induction false} SplitParts(s: string, c: char)
    ensures forall p | p in Split(s, c) :: Free(p, c)
    ensures Join(Split(s, c), c) == s
  {
    if s != [] {
      SplitParts(s[1..], c);
      var rest := Split(s[1..], c);
      assert rest[0] in rest;
      assert s == [s[0]] + s[1..];
      if s[0] == c {
        var parts := [""] + rest;
        assert parts[1..] == rest;
        assert Join(parts, c) == "" + [c] + Join(rest, c);
      } else {
        var first := [s[0]] + rest[0];
        assert Free(first, c);
        JoinFirst([s[0]], rest, c);
      }
    }
  }

  // ---- numerals, decimal and hexadecimal

  type Base = b: nat | b == 10 || b == 16 witness 10

  function Quotient(n: nat, base: Base): (q: nat)
    ensures n >= base ==> q < n
  {
    if base == 10 then n / 10 else n / 16
  }

  function Remainder(n: nat, base: Base): (r: nat)
    ensures r < base
  {
    if base == 10 then n % 10 else n % 16
  }

  function Scaled(base: Base, v: nat): nat {
    if base == 10 then 10 * v else 16 * v
  }

  lemma QuotientAndRemainder(n: nat, base: Base)
    ensures n == Scaled(base, Quotient(n, base)) + Remainder(n, base)
  {
  }

  function DigitChar(d: nat): char
    requires d < 16
  {
    if d < 10 then ('0' as int + d) as char else ('a' as int + d - 10) as char
  }

  predicate IsDigit(c: char, base: Base) {
    '0' <= c <= '9' || (base == 16 && ('a' <= c <= 'f' || 'A' <= c <= 'F'))
  }

  function DigitOf(c: char, base: Base): (d: nat)
    requires IsDigit(c, base)
    ensures d < base
  {
    if '0' <= c <= '9' then c as int - '0' as int
    else if 'a' <= c <= 'f' then c as int - 'a' as int + 10
    else c as int - 'A' as int + 10
  }

  lemma DigitRoundTrip(d: nat, base: Base)
    requires d < base
    ensures IsDigit(DigitChar(d), base) && DigitOf(DigitChar(d), base) == d
  {
  }

  predicate AllDigits(s: string, base: Base) {
    forall i | 0 <= i < |s| :: IsDigit(s[i], base)
  }

  /** n.toString(base): no leading zero, lower case. */
  function Numeral(n: nat, base: Base): (s: string)
    ensures s != []
    decreases n
  {
    if n < base then [DigitChar(n)] else Numeral(Quotient(n, base), base) + [DigitChar(Remainder(n, base))]
  }

  function ValueOf(s: string, base: Base): nat
    requires AllDigits(s, base)
  {
    if s == [] then 0 else Scaled(base, ValueOf(s[..|s| - 1], base)) + DigitOf(s[|s| - 1], base)
  }

  lemma {:induction false} NumeralValue(n: nat, base: Base)
    ensures AllDigits(Numeral(n, base), base) && ValueOf(Numeral(n, base), base) == n
    decreases n
  {
    var s := Numeral(n, base);
    if n < base {
      DigitRoundTrip(n, base);
      assert s[..0] == [];
    } else {
      NumeralValue(Quotient(n, base), base);
      DigitRoundTrip(Remainder(n, base), base);
      assert s[..|s| - 1] == Numeral(Quotient(n, base), base);
      QuotientAndRemainder(n, base);
    }
  }

  function Pow(base: Base, k: nat): nat {
    if k == 0 then 1 else Scaled(base, Pow(base, k - 1))
  }

  lemma {:induction false} NumeralLength(n: nat, base: Base, k: nat)
    requires k > 0 && n < Pow(base, k)
    ensures |Numeral(n, base)| <= k
    decreases k
  {
    if n >= base {
      assert Pow(base, 1) == base;
      QuotientAndRemainder(n, base);
      NumeralLength(Quotient(n, base), base, k - 1);
    }
  }

  /** Enough digits bound the value. */
  lemma {:induction false} ValueBelow(s: string, base: Base)
    requires AllDigits(s, base)
    ensures ValueOf(s, base) < Pow(base, |s|)
  {
    if s != [] {
      ValueBelow(s[..|s| - 1], base);
    }
  }

  /** A canonical decimal: one digit, or several of which the first is no zero. */
  predicate IsCanonicalDecimal(s: string) {
    s != [] && AllDigits(s, 10) && (s[0] == '0' ==> |s| == 1)
  }

  lemma {:induction false} DecimalIsCanonical(n: nat)
    ensures IsCanonicalDecimal(Numeral(n, 10))
    ensures n > 0 ==> Numeral(n, 10)[0] != '0'
    decreases n
  {
    NumeralValue(n, 10);
    if n >= 10 {
      DecimalIsCanonical(n / 10);
      assert Numeral(n, 10)[0] == Numeral(n / 10, 10)[0];
    }
  }

  /** Each number has one canonical decimal. */
  lemma {:induction false} CanonicalDecimal(s: string)
    requires IsCanonicalDecimal(s)
    ensures Numeral(ValueOf(s, 10), 10) == s
    ensures s[0] != '0' ==> ValueOf(s, 10) > 0
  {
    var init, last := s[..|s| - 1], DigitOf(s[|s| - 1], 10);
    assert s == init + [s[|s| - 1]];
    assert DigitChar(last) == s[|s| - 1];
    if |s| > 1 {
      assert init[0] == s[0];
      CanonicalDecimal(init);
      var v := ValueOf(init, 10);
      assert (10 * v + last) / 10 == v && (10 * v + last) % 10 == last;
    }
  }

  // ---- whitespace

  predicate IsWhitespace(c: char) {
    var n := c as int;
    || 9 <= n <= 13 || n in [0x20, 0xA0, 0x1680, 0x2028, 0x2029, 0x202F, 0x205F, 0x3000, 0xFEFF] || 0x2000 <= n <= 0x200A
  }

  function TrimStart(s: string): string {
    if s != "" && IsWhitespace(s[0]) then TrimStart(s[1..]) else s
  }

  function TrimEnd(s: string): string {
    if s != "" && IsWhitespace(s[|s| - 1]) then TrimEnd(s[..|s| - 1]) else s
  }

  function Trim(s: string): string {
    TrimEnd(TrimStart(s))
  }
}

/** UTF-8, for the identifiers and names that are written as text fields. */
module Utf8Text {
  import opened Bytes

  /** One to four bytes per character, the first of which tells how many follow. */
  function Utf8Char(c: char): (b: seq<byte>)
    ensures 1 <= |b| <= 4
  {
    var n := c as int;
    if n < 0x80 then [n]
    else if n < 0x800 then [0xC0 + n / 64, 0x80 + n % 64]
    else if n < 0x1_0000 then [0xE0 + n / 4096, 0x80 + n / 64 % 64, 0x80 + n % 64]
    else [0xF0 + n / 262144, 0x80 + n / 4096 % 64, 0x80 + n / 64 % 64, 0x80 + n % 64]
  }

  function Utf8(s: string): (b: seq<byte>)
    ensures |b| >= |s|
  {
    if s == [] then [] else Utf8Char(s[0]) + Utf8(s[1..])
  }

  lemma {:induction false} Utf8Length(s: string)
    ensures |Utf8(s)| <= 4 * |s|
  {
    if s != [] {
      Utf8Length(s[1..]);
    }
  }

  lemma Utf8CharApart(c: char, x: seq<byte>, d: char, y: seq<byte>)
    requires Utf8Char(c) + x == Utf8Char(d) + y
    ensures c == d && x == y
  {
    var p, q := Utf8Char(c), Utf8Char(d);
    assert p[0] == (p + x)[0] == (q + y)[0] == q[0];
    assert |p| == |q|;
    assert p == (p + x)[..|p|] && q == (q + y)[..|q|];
    assert x == (p + x)[|p|..] && y == (q + y)[|q|..];
    FromItsDigits(c as int);
    FromItsDigits(d as int);
    assert |p| > 1 ==> p[1] == q[1];
    assert |p| > 2 ==> p[2] == q[2];
    assert |p| > 3 ==> p[3] == q[3];
    assert c as int == d as int;
  }

  lemma FromItsDigits(n: nat)
    ensures n == 262144 * (n / 262144) + 4096 * (n / 4096 % 64) + 64 * (n / 64 % 64) + n % 64
    ensures n / 4096 == 64 * (n / 262144) + n / 4096 % 64
    ensures n / 64 == 64 * (n / 4096) + n / 64 % 64
  {
    var a := n / 64;
    var b := a / 64;
    assert n == 64 * a + n % 64;
    assert a == 64 * b + a % 64 && b == n / 4096;
    assert b == 64 * (b / 64) + b % 64 && b / 64 == n / 262144;
  }

  /** Two texts with one encoding are one text. */
  lemma {:induction false} Utf8Injective(s: string, t: string)
    requires Utf8(s) == Utf8(t)
    ensures s == t
  {
    if s != [] && t != [] {
      Utf8CharApart(s[0], Utf8(s[1..]), t[0], Utf8(t[1..]));
      Utf8Injective(s[1..], t[1..]);
      assert s == [s[0]] + s[1..] && t == [t[0]] + t[1..];
    }
  }
}

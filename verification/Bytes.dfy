/** Byte strings, big-endian numbers and the typed, length-prefixed fields that the seal,
    the token binding and the envelope binding are all written in. */
module Bytes {

  type byte = x: int | 0 <= x < 256

  const LENGTH_BYTES := 4
  const TWO_TO_THE_32 := 0x1_0000_0000

  function Pow256(k: nat): (p: nat)
    ensures p > 0
  {
    if k == 0 then 1 else 256 * Pow256(k - 1)
  }

  /** The last k bytes of n, most significant first, as DataView writes them. */
  function BigEndian(n: nat, k: nat): (b: seq<byte>)
    ensures |b| == k
  {
    if k == 0 then [] else BigEndian(n / 256, k - 1) + [n % 256]
  }

  function FromBigEndian(b: seq<byte>): nat {
    if b == [] then 0 else 256 * FromBigEndian(b[..|b| - 1]) + b[|b| - 1]
  }

  /** Reading back what was written loses exactly the part that did not fit. */
  lemma {:induction false} BigEndianRoundTrip(n: nat, k: nat)
    ensures FromBigEndian(BigEndian(n, k)) == n % Pow256(k)
  {
    if k > 0 {
      BigEndianRoundTrip(n / 256, k - 1);
      var p := Pow256(k - 1);
      var b := BigEndian(n, k);
      assert b[..k - 1] == BigEndian(n / 256, k - 1);
      DigitsModulo(n, p);
    }
  }

  lemma DigitsModulo(n: nat, p: nat)
    requires p > 0
    ensures n % (256 * p) == 256 * (n / 256 % p) + n % 256
  {
    var q, r := n / 256, n % 256;
    var a, c := q / p, q % p;
    assert n == 256 * (a * p + c) + r;
    assert 256 * (a * p + c) == a * (256 * p) + 256 * c;
    assert 0 <= 256 * c + r < 256 * p;
    ModuloOfSum(a, 256 * p, 256 * c + r);
  }

  lemma ModuloOfSum(a: nat, m: nat, c: nat)
    requires c < m
    ensures (a * m + c) % m == c
  {
    var x := a * m + c;
    SameRemainder(x / m, x % m, a, c, m);
  }

  lemma SameRemainder(q1: int, r1: int, q2: int, r2: int, m: int)
    requires 0 <= r1 < m && 0 <= r2 < m
    requires q1 * m + r1 == q2 * m + r2
    ensures q1 == q2 && r1 == r2
  {
    if q1 > q2 {
      ProductAtLeast(q1 - q2, m);
    } else if q2 > q1 {
      ProductAtLeast(q2 - q1, m);
    }
    assert (q1 - q2) * m == q1 * m - q2 * m;
    assert (q2 - q1) * m == q2 * m - q1 * m;
  }

  lemma ProductAtLeast(k: int, m: int)
    requires k >= 1 && m >= 0
    ensures k * m >= m
  {
  }

  lemma BigEndianInjective(m: nat, n: nat, k: nat)
    requires BigEndian(m, k) == BigEndian(n, k)
    ensures m % Pow256(k) == n % Pow256(k)
  {
    BigEndianRoundTrip(m, k);
    BigEndianRoundTrip(n, k);
  }

  lemma {:induction false} BigEndianWraps(n: nat, k: nat)
    ensures BigEndian(Pow256(k) + n, k) == BigEndian(n, k)
  {
    if k > 0 {
      var p := Pow256(k - 1);
      assert (256 * p + n) / 256 == p + n / 256;
      assert (256 * p + n) % 256 == n % 256;
      BigEndianWraps(n / 256, k - 1);
    }
  }

  lemma EightBytesHold(m: nat, n: nat)
    requires m < Pow256(8) && n < Pow256(8) && BigEndian(m, 8) == BigEndian(n, 8)
    ensures m == n
  {
    hide BigEndian, Pow256;
    BigEndianInjective(m, n, 8);
  }

  lemma Pow256Values()
    ensures Pow256(4) == TWO_TO_THE_32
    ensures Pow256(8) == 0x1_0000_0000_0000_0000
  {
    assert Pow256(2) == 65536;
    assert Pow256(4) == 65536 * 65536;
    assert Pow256(6) == 65536 * 65536 * 65536;
  }

  /** A type byte, a number in four bytes and a body; the number wraps as setUint32 wraps it. */
  function Field(tag: byte, number: nat, body: seq<byte>): (f: seq<byte>)
    ensures |f| == 1 + LENGTH_BYTES + |body|
  {
    [tag] + BigEndian(number, LENGTH_BYTES) + body
  }

  /** A field whose end can be told from its own first five bytes: a header of a type in
      `counted` has no body, and any other type is followed by as many bytes as its number says. */
  predicate Delimited(f: seq<byte>, counted: set<byte>) {
    && |f| >= 1 + LENGTH_BYTES
    && |f| == 1 + LENGTH_BYTES + (if f[0] in counted then 0 else FromBigEndian(f[1..5]))
  }

  lemma FieldIsDelimited(tag: byte, number: nat, body: seq<byte>, counted: set<byte>)
    requires if tag in counted then body == [] else |body| == number < TWO_TO_THE_32
    ensures Delimited(Field(tag, number, body), counted)
  {
    if tag !in counted {
      var f := Field(tag, number, body);
      assert f[1..5] == BigEndian(number, 4);
      BigEndianRoundTrip(number, 4);
      Pow256Values();
    }
  }

  lemma FieldInjective(t1: byte, n1: nat, b1: seq<byte>, t2: byte, n2: nat, b2: seq<byte>)
    requires Field(t1, n1, b1) == Field(t2, n2, b2)
    ensures t1 == t2 && n1 % TWO_TO_THE_32 == n2 % TWO_TO_THE_32 && b1 == b2
  {
    var f, g := Field(t1, n1, b1), Field(t2, n2, b2);
    assert f[0] == t1 && g[0] == t2;
    assert f[1..5] == BigEndian(n1, 4) && g[1..5] == BigEndian(n2, 4);
    assert f[5..] == b1 && g[5..] == b2;
    BigEndianInjective(n1, n2, 4);
    Pow256Values();
  }

  function Concat(parts: seq<seq<byte>>): seq<byte> {
    if parts == [] then [] else parts[0] + Concat(parts[1..])
  }

  lemma {:induction false} ConcatSplits(xs: seq<seq<byte>>, ys: seq<seq<byte>>)
    ensures Concat(xs + ys) == Concat(xs) + Concat(ys)
  {
    if xs == [] {
      assert xs + ys == ys;
    } else {
      ConcatSplits(xs[1..], ys);
      TailOfSum(xs, ys);
      ConcatOfSum(xs[0], Concat(xs[1..]), Concat(ys));
    }
  }

  lemma TailOfSum<T>(xs: seq<T>, ys: seq<T>)
    requires xs != []
    ensures xs + ys != [] && (xs + ys)[0] == xs[0] && (xs + ys)[1..] == xs[1..] + ys
  {
  }

  lemma ConcatOfSum(a: seq<byte>, b: seq<byte>, c: seq<byte>)
    ensures a + (b + c) == a + b + c
  {
  }

  lemma DelimitedSplit(f: seq<byte>, s: seq<byte>, g: seq<byte>, t: seq<byte>, counted: set<byte>)
    requires Delimited(f, counted) && Delimited(g, counted)
    requires f + s == g + t
    ensures f == g && s == t
  {
    assert f[0] == (f + s)[0] == (g + t)[0] == g[0];
    assert f[1..5] == (f + s)[1..5] == (g + t)[1..5] == g[1..5];
    assert f == (f + s)[..|f|];
    assert s == (f + s)[|f|..];
    assert t == (g + t)[|g|..];
  }

  /** No two different sequences of delimited fields are written as the same bytes. */
  lemma {:induction false} UniquelyDecodable(xs: seq<seq<byte>>, ys: seq<seq<byte>>, counted: set<byte>)
    requires forall x | x in xs :: Delimited(x, counted)
    requires forall y | y in ys :: Delimited(y, counted)
    requires Concat(xs) == Concat(ys)
    ensures xs == ys
  {
    assert xs != [] ==> xs[0] in xs && |Concat(xs)| >= |xs[0]|;
    assert ys != [] ==> ys[0] in ys && |Concat(ys)| >= |ys[0]|;
    if xs != [] && ys != [] {
      DelimitedSplit(xs[0], Concat(xs[1..]), ys[0], Concat(ys[1..]), counted);
      UniquelyDecodable(xs[1..], ys[1..], counted);
      assert xs == [xs[0]] + xs[1..] && ys == [ys[0]] + ys[1..];
    }
  }

  /** The three copies of `field` fill a buffer of exactly the size they need. */
  method WriteField(tag: byte, length: nat, body: seq<byte>) returns (encoded: seq<byte>)
    ensures encoded == Field(tag, length, body)
  {
    var buffer := new byte[1 + LENGTH_BYTES + |body|](_ => 0);
    buffer[0] := tag;
    var number := BigEndian(length, LENGTH_BYTES);
    forall i | 0 <= i < LENGTH_BYTES {
      buffer[1 + i] := number[i];
    }
    forall i | 0 <= i < |body| {
      buffer[1 + LENGTH_BYTES + i] := body[i];
    }
    assert buffer[..] == Field(tag, length, body);
    encoded := buffer[..];
  }

  function TotalLength(parts: seq<seq<byte>>): nat {
    if parts == [] then 0 else |parts[0]| + TotalLength(parts[1..])
  }

  lemma {:induction false} ConcatPrefix(parts: seq<seq<byte>>, i: nat)
    requires i < |parts|
    ensures Concat(parts[..i + 1]) == Concat(parts[..i]) + parts[i]
    ensures |Concat(parts)| == |Concat(parts[..i])| + |parts[i]| + |Concat(parts[i + 1..])|
  {
    assert parts[..i + 1] == parts[..i] + [parts[i]];
    ConcatSplits(parts[..i], [parts[i]]);
    assert parts == parts[..i + 1] + parts[i + 1..];
    ConcatSplits(parts[..i + 1], parts[i + 1..]);
  }

  lemma {:induction false} ConcatLength(parts: seq<seq<byte>>)
    ensures |Concat(parts)| == TotalLength(parts)
  {
    if parts != [] {
      ConcatLength(parts[1..]);
    }
  }

  /** `concatenated` copies each part behind the last one. */
  method Concatenated(parts: seq<seq<byte>>) returns (joined: seq<byte>)
    ensures joined == Concat(parts)
  {
    ConcatLength(parts);
    var buffer := new byte[TotalLength(parts)](_ => 0);
    var offset := 0;
    for i := 0 to |parts|
      invariant offset == |Concat(parts[..i])| <= buffer.Length
      invariant buffer[..offset] == Concat(parts[..i])
    {
      ConcatPrefix(parts, i);
      ghost var before := buffer[..offset];
      forall k | 0 <= k < |parts[i]| {
        buffer[offset + k] := parts[i][k];
      }
      assert buffer[..offset] == before;
      assert buffer[offset..offset + |parts[i]|] == parts[i];
      offset := offset + |parts[i]|;
      assert buffer[..offset] == before + parts[i];
    }
    assert parts[..|parts|] == parts;
    assert buffer[..] == buffer[..offset];
    joined := buffer[..];
  }
}

/** Numbers as bit strings, and the 32-bit integers JavaScript shifts. */
module Bits {
  import opened Bytes
  import opened Sequences

  function Pow2(n: nat): (p: nat)
    ensures p > 0
  {
    if n == 0 then 1 else 2 * Pow2(n - 1)
  }

  /** The last n bits of v, most significant first; a negative v is read in two's complement. */
  function BitsOf(v: int, n: nat): (b: seq<bool>)
    ensures |b| == n
    decreases n, v
  {
    if n == 0 then [] else BitsOf(v / 2, n - 1) + [v % 2 == 1]
  }

  function ValueOfBits(b: seq<bool>): (v: nat)
    ensures v < Pow2(|b|)
  {
    if b == [] then 0 else 2 * ValueOfBits(b[..|b| - 1]) + if b[|b| - 1] then 1 else 0
  }

  function Zeros(n: nat): (b: seq<bool>)
    ensures |b| == n
  {
    seq(n, _ => false)
  }

  lemma {:induction false} BitsOfValue(b: seq<bool>)
    ensures BitsOf(ValueOfBits(b), |b|) == b
  {
    if b != [] {
      BitsOfValue(b[..|b| - 1]);
      assert ValueOfBits(b) / 2 == ValueOfBits(b[..|b| - 1]);
      assert b == b[..|b| - 1] + [b[|b| - 1]];
    }
  }

  lemma {:induction false} ValueOfItsBits(v: nat, n: nat)
    requires v < Pow2(n)
    ensures ValueOfBits(BitsOf(v, n)) == v
  {
    if n > 0 {
      ValueOfItsBits(v / 2, n - 1);
      var b := BitsOf(v, n);
      assert b[..n - 1] == BitsOf(v / 2, n - 1);
    }
  }

  lemma BitsInjective(v: nat, w: nat, n: nat)
    requires v < Pow2(n) && w < Pow2(n) && BitsOf(v, n) == BitsOf(w, n)
    ensures v == w
  {
    ValueOfItsBits(v, n);
    ValueOfItsBits(w, n);
  }

  lemma Doubled(a: int, b: int)
    ensures a * (2 * b) == 2 * (a * b)
  {
  }

  lemma Halves(t: int, w: int)
    ensures (2 * t + w) / 2 == t + w / 2 && (2 * t + w) % 2 == w % 2
  {
  }

  lemma {:induction false} BitsConcatenate(v: int, n: nat, w: nat, m: nat)
    requires w < Pow2(m)
    ensures BitsOf(v * Pow2(m) + w, n + m) == BitsOf(v, n) + BitsOf(w, m)
  {
    if m > 0 {
      Doubled(v, Pow2(m - 1));
      Halves(v * Pow2(m - 1), w);
      BitsConcatenate(v, n, w / 2, m - 1);
    }
  }

  /** The last n bits do not see a multiple of 2^n. */
  lemma {:induction false} BitsIgnoreMultiples(v: int, q: int, n: nat)
    ensures BitsOf(v + q * Pow2(n), n) == BitsOf(v, n)
    decreases n, v
  {
    if n > 0 {
      Doubled(q, Pow2(n - 1));
      Halves(q * Pow2(n - 1), v);
      BitsIgnoreMultiples(v / 2, q, n - 1);
    }
  }

  lemma BitsOfRemainder(v: int, n: nat)
    ensures BitsOf(v % Pow2(n), n) == BitsOf(v, n)
  {
    DivisionWithRemainder(v, Pow2(n));
    BitsIgnoreMultiples(v % Pow2(n), v / Pow2(n), n);
  }

  lemma DivisionWithRemainder(v: int, p: int)
    requires p > 0
    ensures v == v % p + (v / p) * p && 0 <= v % p < p
  {
  }

  lemma {:induction false} BitsOfZero(n: nat)
    ensures BitsOf(0, n) == Zeros(n)
  {
    if n > 0 {
      BitsOfZero(n - 1);
    }
  }

  /** The upper part of a buffer, shifted down, and the lower part that stays in it. */
  lemma BitsSplit(v: int, n: nat, m: nat)
    ensures BitsOf(v, n + m) == BitsOf(v / Pow2(m), n) + BitsOf(v, m)
  {
    DivisionWithRemainder(v, Pow2(m));
    BitsConcatenate(v / Pow2(m), n, v % Pow2(m), m);
    BitsOfRemainder(v, m);
  }

  lemma {:induction false} Pow2Splits(n: nat, m: nat)
    ensures Pow2(n + m) == Pow2(n) * Pow2(m)
  {
    if n > 0 {
      Pow2Splits(n - 1, m);
      assert Pow2(n + m) == 2 * Pow2(n - 1 + m);
    }
  }

  lemma Pow2Values()
    ensures Pow2(6) == 64 && Pow2(8) == 256 && Pow2(32) == TWO_TO_THE_32
  {
    assert Pow2(4) == 16 && Pow2(8) == 256;
    Pow2Splits(8, 8);
    Pow2Splits(16, 16);
  }

  // ---- JavaScript's 32-bit integers

  /** What a shift leaves of a number: its last 32 bits as a signed integer. */
  function ToInt32(x: int): (r: int)
    ensures -0x8000_0000 <= r < 0x8000_0000
  {
    (x + 0x8000_0000) % TWO_TO_THE_32 - 0x8000_0000
  }

  /** `buffer << n | low` for a low part that fits into the n bits the shift clears. */
  function ShiftIn(buffer: int, n: nat, low: nat): int {
    ToInt32(buffer * Pow2(n)) + low
  }

  /** `buffer >> n`, which keeps the sign and so rounds down. */
  function ShiftRight(buffer: int, n: nat): int {
    buffer / Pow2(n)
  }

  /** The wrap at 32 bits is not seen by the bits that are still to be written. */
  lemma ShiftInBits(buffer: int, kept: nat, n: nat, low: nat)
    requires low < Pow2(n) && kept + n <= 32
    ensures BitsOf(ShiftIn(buffer, n, low), kept + n) == BitsOf(buffer, kept) + BitsOf(low, n)
  {
    var x := buffer * Pow2(n);
    var q := -((x + 0x8000_0000) / TWO_TO_THE_32);
    assert ToInt32(x) == x + q * TWO_TO_THE_32;
    var rest := 32 - (kept + n);
    Pow2Splits(rest, kept + n);
    Pow2Values();
    assert q * TWO_TO_THE_32 == (q * Pow2(rest)) * Pow2(kept + n) by {
      Associates(q, Pow2(rest), Pow2(kept + n));
    }
    BitsIgnoreMultiples(x + low, q * Pow2(rest), kept + n);
    BitsConcatenate(buffer, kept, low, n);
  }

  lemma Associates(a: int, b: int, c: int)
    ensures a * (b * c) == (a * b) * c
  {
  }

  // ---- sequences of n-bit numbers

  function BitsOfAll(vs: seq<nat>, n: nat): seq<bool> {
    if vs == [] then [] else BitsOf(vs[0], n) + BitsOfAll(vs[1..], n)
  }

  lemma {:induction false} BitsOfAllLength(vs: seq<nat>, n: nat)
    ensures |BitsOfAll(vs, n)| == n * |vs|
  {
    if vs != [] {
      BitsOfAllLength(vs[1..], n);
      OneGroupLess(n, |vs|);
    }
  }

  lemma {:induction false} BitsOfAllSplits(xs: seq<nat>, ys: seq<nat>, n: nat)
    ensures BitsOfAll(xs + ys, n) == BitsOfAll(xs, n) + BitsOfAll(ys, n)
  {
    if xs == [] {
      assert xs + ys == ys;
    } else {
      BitsOfAllSplits(xs[1..], ys, n);
      assert (xs + ys)[1..] == xs[1..] + ys;
      Associate(BitsOf(xs[0], n), BitsOfAll(xs[1..], n), BitsOfAll(ys, n));
    }
  }

  lemma BitsOfOneMore(xs: seq<nat>, x: nat, n: nat)
    ensures BitsOfAll(xs + [x], n) == BitsOfAll(xs, n) + BitsOf(x, n)
  {
    BitsOfAllSplits(xs, [x], n);
    assert [x][1..] == [];
    assert BitsOfAll([x], n) == BitsOf(x, n) + BitsOfAll([], n);
  }

  lemma {:induction false} BitsOfAllInjective(xs: seq<nat>, ys: seq<nat>, n: nat)
    requires |xs| == |ys| && BitsOfAll(xs, n) == BitsOfAll(ys, n)
    requires forall i | 0 <= i < |xs| :: xs[i] < Pow2(n) && ys[i] < Pow2(n)
    ensures xs == ys
  {
    if xs != [] {
      var p, q := BitsOfAll(xs, n), BitsOfAll(ys, n);
      assert p[..n] == BitsOf(xs[0], n) && q[..n] == BitsOf(ys[0], n);
      assert p[n..] == BitsOfAll(xs[1..], n) && q[n..] == BitsOfAll(ys[1..], n);
      BitsInjective(xs[0], ys[0], n);
      BitsOfAllInjective(xs[1..], ys[1..], n);
      assert xs == [xs[0]] + xs[1..] && ys == [ys[0]] + ys[1..];
    }
  }

  /** The k numbers of n bits a bit string is made of. */
  function Grouped(b: seq<bool>, n: nat, k: nat): (vs: seq<nat>)
    requires |b| == n * k
    ensures |vs| == k
    ensures forall i | 0 <= i < |vs| :: vs[i] < Pow2(n)
    decreases k
  {
    if k == 0 then []
    else
      OneGroupLess(n, k);
      [ValueOfBits(b[..n])] + Grouped(b[n..], n, k - 1)
  }

  lemma OneGroupLess(n: nat, k: nat)
    requires k > 0
    ensures n <= n * k && n * k - n == n * (k - 1)
  {
    assert n * k == n * (k - 1) + n;
  }

  lemma {:induction false} BitsOfGrouped(b: seq<bool>, n: nat, k: nat)
    requires |b| == n * k
    ensures BitsOfAll(Grouped(b, n, k), n) == b
    decreases k
  {
    hide BitsOf, ValueOfBits;
    if k > 0 {
      OneGroupLess(n, k);
      BitsOfValue(b[..n]);
      BitsOfGrouped(b[n..], n, k - 1);
      assert b == b[..n] + b[n..];
      var vs := Grouped(b, n, k);
      assert vs[1..] == Grouped(b[n..], n, k - 1);
    }
  }
}

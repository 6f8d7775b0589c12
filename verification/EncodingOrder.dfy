/** The order list elements are sealed in, and why any sort by it gives the same list. */
module EncodingOrder {
  import opened Bytes

  /** Byte-wise lexicographic order, a prefix before what it begins. */
  predicate AtMost(left: seq<byte>, right: seq<byte>) {
    || left == []
    || (right != [] && (left[0] < right[0] || (left[0] == right[0] && AtMost(left[1..], right[1..]))))
  }

  predicate Sorted(s: seq<seq<byte>>) {
    forall i, j | 0 <= i < j < |s| :: AtMost(s[i], s[j])
  }

  lemma {:induction false} AtMostIsTotal(a: seq<byte>, b: seq<byte>)
    ensures AtMost(a, b) || AtMost(b, a)
    ensures AtMost(a, b) && AtMost(b, a) ==> a == b
  {
    if a != [] && b != [] {
      AtMostIsTotal(a[1..], b[1..]);
      assert a == [a[0]] + a[1..] && b == [b[0]] + b[1..];
    }
  }

  lemma {:induction false} AtMostIsTransitive(a: seq<byte>, b: seq<byte>, c: seq<byte>)
    requires AtMost(a, b) && AtMost(b, c)
    ensures AtMost(a, c)
  {
    if a != [] && a[0] == b[0] == c[0] {
      AtMostIsTransitive(a[1..], b[1..], c[1..]);
    }
  }

  /** The comparator: negative, zero or positive as the left element comes first, ties or follows. */
  method InEncodingOrder(left: seq<byte>, right: seq<byte>) returns (difference: int)
    ensures difference <= 0 <==> AtMost(left, right)
    ensures difference >= 0 <==> AtMost(right, left)
    ensures difference == 0 <==> left == right
  {
    var shared := if |left| < |right| then |left| else |right|;
    var index := 0;
    while index < shared
      invariant 0 <= index <= shared
      invariant left[..index] == right[..index]
      invariant AtMost(left, right) == AtMost(left[index..], right[index..])
      invariant AtMost(right, left) == AtMost(right[index..], left[index..])
    {
      difference := left[index] as int - right[index] as int;
      if difference != 0 {
        return;
      }
      assert left[index..][1..] == left[index + 1..];
      assert right[index..][1..] == right[index + 1..];
      index := index + 1;
    }
    difference := |left| - |right|;
    assert left[..shared] == right[..shared];
    assert left == left[..shared] + left[shared..];
    assert right == right[..shared] + right[shared..];
  }

  /** One sort by the comparator; SortedIsUnique makes every other one equal to it. */
  function Sort(s: seq<seq<byte>>): (r: seq<seq<byte>>)
    ensures Sorted(r) && multiset(r) == multiset(s) && |r| == |s|
  {
    if s == [] then
      []
    else
      assert s == [s[0]] + s[1..];
      Insert(s[0], Sort(s[1..]))
  }

  function Insert(e: seq<byte>, s: seq<seq<byte>>): (r: seq<seq<byte>>)
    requires Sorted(s)
    ensures Sorted(r) && multiset(r) == multiset(s) + multiset{e} && |r| == |s| + 1
  {
    if s == [] then
      [e]
    else if AtMost(e, s[0]) then
      FirstComesBeforeAll(e, s);
      [e] + s
    else
      InsertBehind(e, s, Insert(e, s[1..]));
      [s[0]] + Insert(e, s[1..])
  }

  lemma InsertBehind(e: seq<byte>, s: seq<seq<byte>>, rest: seq<seq<byte>>)
    requires s != [] && Sorted(s) && !AtMost(e, s[0])
    requires Sorted(rest) && multiset(rest) == multiset(s[1..]) + multiset{e}
    ensures Sorted([s[0]] + rest) && multiset([s[0]] + rest) == multiset(s) + multiset{e}
  {
    AtMostIsTotal(e, s[0]);
    forall j | 0 <= j < |rest|
      ensures AtMost(s[0], rest[j])
    {
      assert rest[j] in multiset(rest);
      if rest[j] != e {
        assert rest[j] in s[1..];
        FirstIsLeast(s, rest[j]);
      }
    }
    HeadAndTail(s);
  }

  lemma HeadAndTail<T>(s: seq<T>)
    requires s != []
    ensures multiset(s) == multiset(s[1..]) + multiset{s[0]}
    ensures s == [s[0]] + s[1..]
  {
    assert s == [s[0]] + s[1..];
  }

  lemma FirstComesBeforeAll(e: seq<byte>, s: seq<seq<byte>>)
    requires s != [] && Sorted(s) && AtMost(e, s[0])
    ensures forall j | 0 <= j < |s| :: AtMost(e, s[j])
  {
    forall j | 0 < j < |s|
      ensures AtMost(e, s[j])
    {
      AtMostIsTransitive(e, s[0], s[j]);
    }
  }

  /** The database may return the rows in any order: equal contents sort to equal lists. */
  lemma {:induction false} SortedIsUnique(a: seq<seq<byte>>, b: seq<seq<byte>>)
    requires Sorted(a) && Sorted(b) && multiset(a) == multiset(b)
    ensures a == b
  {
    assert |a| == |multiset(a)| == |multiset(b)| == |b|;
    if a != [] {
      SameHead(a, b);
      HeadAndTail(a);
      HeadAndTail(b);
      assert multiset(a[1..]) == multiset(a) - multiset{a[0]};
      assert multiset(b[1..]) == multiset(b) - multiset{a[0]};
      SortedIsUnique(a[1..], b[1..]);
    }
  }

  lemma SameHead(a: seq<seq<byte>>, b: seq<seq<byte>>)
    requires a != [] && b != []
    requires Sorted(a) && Sorted(b) && multiset(a) == multiset(b)
    ensures a[0] == b[0]
  {
    assert a[0] in multiset(b) && b[0] in multiset(a);
    FirstIsLeast(a, b[0]);
    FirstIsLeast(b, a[0]);
    AtMostIsTotal(a[0], b[0]);
  }

  lemma FirstIsLeast(s: seq<seq<byte>>, x: seq<byte>)
    requires Sorted(s) && x in s
    ensures AtMost(s[0], x)
  {
    AtMostIsTotal(x, x);
  }

  function Map<T>(f: T -> seq<byte>, xs: seq<T>): (r: seq<seq<byte>>)
    ensures |r| == |xs|
    ensures forall i | 0 <= i < |xs| :: r[i] == f(xs[i])
  {
    seq(|xs|, i requires 0 <= i < |xs| => f(xs[i]))
  }

  lemma MapRemoves<T>(f: T -> seq<byte>, xs: seq<T>, j: nat)
    requires j < |xs|
    ensures multiset(Map(f, xs)) == multiset(Map(f, xs[..j] + xs[j + 1..])) + multiset{f(xs[j])}
    ensures multiset(xs) == multiset(xs[..j] + xs[j + 1..]) + multiset{xs[j]}
  {
    var rest := xs[..j] + xs[j + 1..];
    var m, n := Map(f, xs), Map(f, rest);
    assert m == n[..j] + [f(xs[j])] + n[j..];
    assert n == n[..j] + n[j..];
    assert xs == xs[..j] + [xs[j]] + xs[j + 1..];
  }

  lemma Cancel<T>(a: multiset<T>, b: multiset<T>, x: T)
    requires a + multiset{x} == b + multiset{x}
    ensures a == b
  {
    assert a == (a + multiset{x}) - multiset{x};
    assert b == (b + multiset{x}) - multiset{x};
  }

  /** Equal contents have equal sorted encodings; the converse needs elements encoded apart. */
  lemma {:induction false} EqualContentsEncodeAlike<T>(f: T -> seq<byte>, xs: seq<T>, ys: seq<T>)
    requires multiset(xs) == multiset(ys)
    ensures multiset(Map(f, xs)) == multiset(Map(f, ys))
    decreases |xs|
  {
    hide Map;
    if xs == [] {
      assert |ys| == |multiset(ys)| == 0;
      assert xs == ys;
    } else {
      assert xs[0] in multiset(ys);
      var j :| 0 <= j < |ys| && ys[j] == xs[0];
      MapRemoves(f, xs, 0);
      MapRemoves(f, ys, j);
      var xr, yr := xs[..0] + xs[1..], ys[..j] + ys[j + 1..];
      Cancel(multiset(xr), multiset(yr), xs[0]);
      EqualContentsEncodeAlike(f, xr, yr);
    }
  }

  lemma {:induction false} EncodedApart<T>(f: T -> seq<byte>, xs: seq<T>, ys: seq<T>)
    requires forall x, y | x in xs && y in ys && f(x) == f(y) :: x == y
    requires multiset(Map(f, xs)) == multiset(Map(f, ys))
    ensures multiset(xs) == multiset(ys)
    decreases |xs|
  {
    hide Map;
    var mx, my := Map(f, xs), Map(f, ys);
    if xs == [] {
      assert |my| == |multiset(my)| == |multiset(mx)| == 0;
    } else {
      assert mx[0] in multiset(my);
      var j :| 0 <= j < |my| && my[j] == mx[0];
      assert xs[0] in xs && ys[j] in ys;
      MapRemoves(f, xs, 0);
      MapRemoves(f, ys, j);
      var xr, yr := xs[..0] + xs[1..], ys[..j] + ys[j + 1..];
      Cancel(multiset(Map(f, xr)), multiset(Map(f, yr)), mx[0]);
      EncodedApart(f, xr, yr);
    }
  }
}

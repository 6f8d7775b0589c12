/** The one spelling a JSON value is bound in: members in key order, no white space. */
module CanonicalJson {
  import opened Bytes
  import opened EncodingOrder
  import opened Sequences

  type Text = seq<byte>

  /** A value as JSON.parse returns it. A number is its shortest decimal spelling. */
  datatype Json =
    | Null
    | Bool(value: bool)
    | Num(spelling: Text)
    | Str(text: Text)
    | Arr(items: seq<Json>)
    | Obj(entries: seq<Entry>)

  datatype Entry = Entry(key: Text, value: Json)

  /** What a value means: an object is a map from its keys. */
  datatype Meaning =
    | MNull
    | MBool(value: bool)
    | MNum(spelling: Text)
    | MStr(text: Text)
    | MArr(items: seq<Meaning>)
    | MObj(members: map<Text, Meaning>)

  predicate IsNumberByte(c: byte) {
    48 <= c <= 57 || c == 45 || c == 43 || c == 46 || c == 101
  }

  predicate IsNumberText(t: Text) {
    && t != [] && (48 <= t[0] <= 57 || t[0] == 45)
    && forall i | 0 <= i < |t| :: IsNumberByte(t[i])
  }

  predicate KeysDiffer(es: seq<Entry>) {
    forall i, j | 0 <= i < j < |es| :: es[i].key != es[j].key
  }

  predicate WellFormed(v: Json) {
    match v
    case Num(n) => IsNumberText(n)
    case Arr(items) => forall x | x in items :: WellFormed(x)
    case Obj(es) => KeysDiffer(es) && forall e | e in es :: WellFormed(e.value)
    case _ => true
  }

  function MeaningOf(v: Json): Meaning {
    match v
    case Null => MNull
    case Bool(b) => MBool(b)
    case Num(n) => MNum(n)
    case Str(t) => MStr(t)
    case Arr(items) => MArr(MeaningsOf(items))
    case Obj(es) => MObj(MembersOf(es))
  }

  function MeaningsOf(items: seq<Json>): (r: seq<Meaning>)
    ensures |r| == |items|
    ensures forall i | 0 <= i < |items| :: r[i] == MeaningOf(items[i])
  {
    if items == [] then [] else [MeaningOf(items[0])] + MeaningsOf(items[1..])
  }

  function MembersOf(es: seq<Entry>): map<Text, Meaning> {
    if es == [] then map[] else MembersOf(es[1..])[es[0].key := MeaningOf(es[0].value)]
  }

  // ---- sorting the members

  function KeysOf(es: seq<Entry>): (ks: seq<seq<byte>>)
    ensures |ks| == |es| && forall i | 0 <= i < |es| :: ks[i] == es[i].key
  {
    seq(|es|, i requires 0 <= i < |es| => es[i].key)
  }

  predicate ByKey(es: seq<Entry>) {
    Sorted(KeysOf(es))
  }

  function InsertByKey(e: Entry, es: seq<Entry>): (r: seq<Entry>)
    ensures multiset(r) == multiset(es) + multiset{e} && |r| == |es| + 1
  {
    if es == [] then [e]
    else if AtMost(e.key, es[0].key) then [e] + es
    else
      assert es == [es[0]] + es[1..];
      [es[0]] + InsertByKey(e, es[1..])
  }

  function SortByKey(es: seq<Entry>): (r: seq<Entry>)
    ensures multiset(r) == multiset(es) && |r| == |es|
  {
    if es == [] then []
    else
      assert es == [es[0]] + es[1..];
      InsertByKey(es[0], SortByKey(es[1..]))
  }

  lemma {:induction false} InsertKeys(e: Entry, es: seq<Entry>)
    requires ByKey(es)
    ensures KeysOf(InsertByKey(e, es)) == Insert(e.key, KeysOf(es))
  {
    hide KeysOf, ByKey, AtMost;
    if es == [] {
      KeysOfMore(e, []);
      assert [e] + [] == [e];
      assert [e.key] + [] == [e.key];
    } else {
      TailIsByKey(es);
      assert es == [es[0]] + es[1..];
      KeysOfMore(es[0], es[1..]);
      KeysOfMore(e, es);
      if !AtMost(e.key, es[0].key) {
        InsertKeys(e, es[1..]);
        KeysOfMore(es[0], InsertByKey(e, es[1..]));
        assert KeysOf(es)[1..] == KeysOf(es[1..]);
      }
    }
  }

  lemma KeysOfMore(e: Entry, es: seq<Entry>)
    ensures KeysOf([e] + es) == [e.key] + KeysOf(es)
    ensures KeysOf([]) == []
  {
  }

  lemma TailIsByKey(es: seq<Entry>)
    requires es != [] && ByKey(es)
    ensures ByKey(es[1..]) && Sorted(KeysOf(es)) && Sorted(KeysOf(es[1..]))
  {
    assert KeysOf(es)[1..] == KeysOf(es[1..]);
  }

  lemma {:induction false} SortKeys(es: seq<Entry>)
    ensures KeysOf(SortByKey(es)) == Sort(KeysOf(es))
  {
    if es != [] {
      SortKeys(es[1..]);
      assert KeysOf(es)[1..] == KeysOf(es[1..]);
      InsertKeys(es[0], SortByKey(es[1..]));
    }
  }

  /** The value with the members of every object in key order. */
  function Ordered(v: Json): Json {
    match v
    case Arr(items) => Arr(OrderedItems(items))
    case Obj(es) => Obj(SortByKey(OrderedEntries(es)))
    case _ => v
  }

  function OrderedItems(items: seq<Json>): (r: seq<Json>)
    ensures |r| == |items|
    ensures forall i | 0 <= i < |items| :: r[i] == Ordered(items[i])
  {
    if items == [] then [] else [Ordered(items[0])] + OrderedItems(items[1..])
  }

  function OrderedEntries(es: seq<Entry>): (r: seq<Entry>)
    ensures |r| == |es|
    ensures forall i | 0 <= i < |es| :: r[i] == Entry(es[i].key, Ordered(es[i].value))
  {
    if es == [] then [] else [Entry(es[0].key, Ordered(es[0].value))] + OrderedEntries(es[1..])
  }

  // ---- writing

  const QUOTE: byte := 34
  const COMMA: byte := 44
  const COLON: byte := 58
  const OPEN_LIST: byte := 91
  const BACKSLASH: byte := 92
  const CLOSE_LIST: byte := 93
  const OPEN_OBJECT: byte := 123
  const CLOSE_OBJECT: byte := 125

  function HexByte(d: nat): byte
    requires d < 16
  {
    if d < 10 then 48 + d else 87 + d
  }

  /** One byte of a string literal as JSON.stringify writes it. */
  function Escaped(c: byte): seq<byte> {
    if c == QUOTE || c == BACKSLASH then [BACKSLASH, c]
    else if c == 8 then [BACKSLASH, 98]
    else if c == 9 then [BACKSLASH, 116]
    else if c == 10 then [BACKSLASH, 110]
    else if c == 12 then [BACKSLASH, 102]
    else if c == 13 then [BACKSLASH, 114]
    else if c < 32 then [BACKSLASH, 117, 48, 48, HexByte(c / 16), HexByte(c % 16)]
    else [c]
  }

  function EscapedAll(t: Text): seq<byte> {
    if t == [] then [] else Escaped(t[0]) + EscapedAll(t[1..])
  }

  function Quoted(t: Text): seq<byte> {
    [QUOTE] + EscapedAll(t) + [QUOTE]
  }

  function Print(v: Json): seq<byte> {
    match v
    case Null => [110, 117, 108, 108]
    case Bool(b) => if b then [116, 114, 117, 101] else [102, 97, 108, 115, 101]
    case Num(n) => n
    case Str(t) => Quoted(t)
    case Arr(items) => [OPEN_LIST] + PrintItems(items) + [CLOSE_LIST]
    case Obj(es) => [OPEN_OBJECT] + PrintEntries(es) + [CLOSE_OBJECT]
  }

  function PrintItems(items: seq<Json>): seq<byte> {
    if items == [] then []
    else if |items| == 1 then Print(items[0])
    else Print(items[0]) + [COMMA] + PrintItems(items[1..])
  }

  function PrintEntry(e: Entry): seq<byte> {
    Quoted(e.key) + [COLON] + Print(e.value)
  }

  function PrintEntries(es: seq<Entry>): seq<byte> {
    if es == [] then []
    else if |es| == 1 then PrintEntry(es[0])
    else PrintEntry(es[0]) + [COMMA] + PrintEntries(es[1..])
  }

  function CanonicalJsonOf(v: Json): seq<byte> {
    Print(Ordered(v))
  }

  // ---- reading back: every value can be told from what follows it

  lemma EscapedApart(c: byte, x: seq<byte>, d: byte, y: seq<byte>)
    requires Escaped(c) + x == Escaped(d) + y
    ensures c == d && x == y
  {
    var p, q := Escaped(c), Escaped(d);
    assert p[0] == (p + x)[0] == (q + y)[0] == q[0];
    assert |p| >= 2 ==> p[1] == (p + x)[1];
    assert |q| >= 2 ==> q[1] == (q + y)[1];
    assert |p| == |q|;
    assert p == (p + x)[..|p|] && q == (q + y)[..|q|];
    assert x == (p + x)[|p|..] && y == (q + y)[|q|..];
    if |p| == 6 {
      assert p[4] == q[4] && p[5] == q[5];
    }
  }

  lemma EscapedFirst(c: byte)
    ensures Escaped(c) != [] && Escaped(c)[0] != QUOTE
  {
  }

  lemma FirstOf(a: seq<byte>, b: seq<byte>, c: seq<byte>)
    requires a != []
    ensures a + b + c == a + (b + c) && (a + (b + c))[0] == a[0]
  {
  }

  lemma EscapedBegins(s: Text, x: seq<byte>)
    ensures s == [] ==> EscapedAll(s) + ([QUOTE] + x) == [QUOTE] + x
    ensures s != [] ==> EscapedAll(s) + ([QUOTE] + x) == Escaped(s[0]) + (EscapedAll(s[1..]) + ([QUOTE] + x))
    ensures s != [] ==> (EscapedAll(s) + ([QUOTE] + x))[0] != QUOTE
  {
    if s != [] {
      EscapedFirst(s[0]);
      FirstOf(Escaped(s[0]), EscapedAll(s[1..]), [QUOTE] + x);
    }
  }

  lemma {:induction false} EscapedAllApart(s: Text, x: seq<byte>, t: Text, y: seq<byte>)
    requires EscapedAll(s) + ([QUOTE] + x) == EscapedAll(t) + ([QUOTE] + y)
    ensures s == t && x == y
  {
    EscapedBegins(s, x);
    EscapedBegins(t, y);
    var p, q := [QUOTE] + x, [QUOTE] + y;
    assert p[0] == q[0] == QUOTE && p[1..] == x && q[1..] == y;
    if s != [] && t != [] {
      EscapedApart(s[0], EscapedAll(s[1..]) + p, t[0], EscapedAll(t[1..]) + q);
      EscapedAllApart(s[1..], x, t[1..], y);
      assert s == [s[0]] + s[1..] && t == [t[0]] + t[1..];
    }
  }

  lemma QuotedApart(s: Text, x: seq<byte>, t: Text, y: seq<byte>)
    requires Quoted(s) + x == Quoted(t) + y
    ensures s == t && x == y
  {
    Peel(QUOTE, EscapedAll(s), [QUOTE], x);
    Peel(QUOTE, EscapedAll(t), [QUOTE], y);
    EscapedAllApart(s, x, t, y);
  }

  lemma Peel(a: byte, s: seq<byte>, z: seq<byte>, x: seq<byte>)
    ensures ([a] + s + z + x)[1..] == s + (z + x)
  {
  }

  predicate Ends(x: seq<byte>) {
    x == [] || !IsNumberByte(x[0])
  }

  lemma {:induction false} NumbersApart(m: Text, x: seq<byte>, n: Text, y: seq<byte>)
    requires forall i | 0 <= i < |m| :: IsNumberByte(m[i])
    requires forall i | 0 <= i < |n| :: IsNumberByte(n[i])
    requires Ends(x) && Ends(y) && m + x == n + y
    ensures m == n && x == y
  {
    assert m == [] ==> x == n + y;
    assert n == [] ==> y == m + x;
    if m != [] && n != [] {
      assert (m + x)[0] == (n + y)[0];
      assert (m + x)[1..] == m[1..] + x && (n + y)[1..] == n[1..] + y;
      NumbersApart(m[1..], x, n[1..], y);
      assert m == [m[0]] + m[1..] && n == [n[0]] + n[1..];
    }
  }

  function FirstByte(v: Json): byte
    requires WellFormed(v)
  {
    match v
    case Null => 110
    case Bool(b) => if b then 116 else 102
    case Num(n) => n[0]
    case Str(_) => QUOTE
    case Arr(_) => OPEN_LIST
    case Obj(_) => OPEN_OBJECT
  }

  lemma PrintBegins(v: Json)
    requires WellFormed(v)
    ensures Print(v) != [] && Print(v)[0] == FirstByte(v)
    ensures FirstByte(v) !in {COMMA, CLOSE_LIST, CLOSE_OBJECT}
  {
  }

  lemma {:induction false} PrintApart(v: Json, x: seq<byte>, w: Json, y: seq<byte>)
    requires WellFormed(v) && WellFormed(w) && Ends(x) && Ends(y)
    requires Print(v) + x == Print(w) + y
    ensures v == w && x == y
    decreases v, 1
  {
    PrintBegins(v);
    PrintBegins(w);
    assert FirstByte(v) == (Print(v) + x)[0] == (Print(w) + y)[0] == FirstByte(w);
    match v
    case Null => LiteralApart(Print(v), x, Print(w), y);
    case Bool(_) => LiteralApart(Print(v), x, Print(w), y);
    case Num(m) => NumbersApart(m, x, w.spelling, y);
    case Str(s) => QuotedApart(s, x, w.text, y);
    case Arr(items) =>
      Peel(OPEN_LIST, PrintItems(items), [CLOSE_LIST], x);
      Peel(OPEN_LIST, PrintItems(w.items), [CLOSE_LIST], y);
      ItemsApart(items, x, w.items, y);
    case Obj(es) =>
      Peel(OPEN_OBJECT, PrintEntries(es), [CLOSE_OBJECT], x);
      Peel(OPEN_OBJECT, PrintEntries(w.entries), [CLOSE_OBJECT], y);
      EntriesApart(es, x, w.entries, y);
  }

  lemma LiteralApart(p: seq<byte>, x: seq<byte>, q: seq<byte>, y: seq<byte>)
    requires p == q && p + x == q + y
    ensures x == y
  {
    assert x == (p + x)[|p|..] && y == (q + y)[|q|..];
  }

  function AfterItem(items: seq<Json>, x: seq<byte>): seq<byte>
    requires items != []
  {
    if |items| == 1 then [CLOSE_LIST] + x else [COMMA] + (PrintItems(items[1..]) + ([CLOSE_LIST] + x))
  }

  lemma ItemsBegin(xs: seq<Json>, x: seq<byte>)
    requires forall v | v in xs :: WellFormed(v)
    ensures xs == [] ==> PrintItems(xs) + ([CLOSE_LIST] + x) == [CLOSE_LIST] + x
    ensures xs != [] ==> PrintItems(xs) + ([CLOSE_LIST] + x) == Print(xs[0]) + AfterItem(xs, x)
    ensures xs != [] ==> (Print(xs[0]) + AfterItem(xs, x))[0] != CLOSE_LIST
  {
    hide Print, WellFormed, FirstByte;
    if xs != [] {
      PrintBegins(xs[0]);
      if |xs| > 1 {
        Associate(Print(xs[0]) + [COMMA], PrintItems(xs[1..]), [CLOSE_LIST] + x);
        Associate(Print(xs[0]), [COMMA], PrintItems(xs[1..]) + ([CLOSE_LIST] + x));
      }
    }
  }

  lemma {:induction false} ItemsApart(xs: seq<Json>, x: seq<byte>, ys: seq<Json>, y: seq<byte>)
    requires forall v | v in xs :: WellFormed(v)
    requires forall w | w in ys :: WellFormed(w)
    requires PrintItems(xs) + ([CLOSE_LIST] + x) == PrintItems(ys) + ([CLOSE_LIST] + y)
    ensures xs == ys && x == y
    decreases xs, 0
  {
    ItemsStart(xs, x, ys, y);
    if xs != [] {
      PrintApart(xs[0], AfterItem(xs, x), ys[0], AfterItem(ys, y));
      AfterItemApart(xs, x, ys, y);
      if |xs| > 1 {
        ItemsApart(xs[1..], x, ys[1..], y);
      }
      HeadAndTailAgree(xs, ys);
    }
  }

  lemma ItemsStart(xs: seq<Json>, x: seq<byte>, ys: seq<Json>, y: seq<byte>)
    requires forall v | v in xs :: WellFormed(v)
    requires forall w | w in ys :: WellFormed(w)
    requires PrintItems(xs) + ([CLOSE_LIST] + x) == PrintItems(ys) + ([CLOSE_LIST] + y)
    ensures xs == [] <==> ys == []
    ensures xs == [] ==> x == y
    ensures xs != [] ==> Print(xs[0]) + AfterItem(xs, x) == Print(ys[0]) + AfterItem(ys, y)
  {
    ItemsBegin(xs, x);
    ItemsBegin(ys, y);
    var p, q := [CLOSE_LIST] + x, [CLOSE_LIST] + y;
    assert p[0] == q[0] == CLOSE_LIST && p[1..] == x && q[1..] == y;
  }

  lemma AfterItemApart(xs: seq<Json>, x: seq<byte>, ys: seq<Json>, y: seq<byte>)
    requires xs != [] && ys != [] && AfterItem(xs, x) == AfterItem(ys, y)
    ensures |xs| == 1 <==> |ys| == 1
    ensures |xs| == 1 ==> x == y
    ensures |xs| > 1 ==> PrintItems(xs[1..]) + ([CLOSE_LIST] + x) == PrintItems(ys[1..]) + ([CLOSE_LIST] + y)
  {
    var p, q := AfterItem(xs, x), AfterItem(ys, y);
    assert p[0] == q[0] && p[1..] == q[1..];
    assert p[1..] == if |xs| == 1 then x else PrintItems(xs[1..]) + ([CLOSE_LIST] + x);
    assert q[1..] == if |ys| == 1 then y else PrintItems(ys[1..]) + ([CLOSE_LIST] + y);
  }

  function AfterEntry(es: seq<Entry>, x: seq<byte>): seq<byte>
    requires es != []
  {
    if |es| == 1 then [CLOSE_OBJECT] + x else [COMMA] + (PrintEntries(es[1..]) + ([CLOSE_OBJECT] + x))
  }

  lemma EntriesBegin(xs: seq<Entry>, x: seq<byte>)
    ensures xs == [] ==> PrintEntries(xs) + ([CLOSE_OBJECT] + x) == [CLOSE_OBJECT] + x
    ensures xs != [] ==>
      PrintEntries(xs) + ([CLOSE_OBJECT] + x)
      == Quoted(xs[0].key) + ([COLON] + (Print(xs[0].value) + AfterEntry(xs, x)))
  {
    if xs != [] {
      var k, v, z := Quoted(xs[0].key), Print(xs[0].value), [CLOSE_OBJECT] + x;
      if |xs| == 1 {
        Reassociate(k, [COLON], v, z);
      } else {
        var rest := PrintEntries(xs[1..]);
        Reassociate(k + [COLON] + v, [COMMA], rest, z);
        Reassociate(k, [COLON], v, [COMMA] + (rest + z));
      }
    }
  }

  lemma Reassociate(a: seq<byte>, b: seq<byte>, c: seq<byte>, d: seq<byte>)
    ensures a + b + c + d == a + (b + (c + d))
  {
  }

  lemma {:induction false} EntriesApart(xs: seq<Entry>, x: seq<byte>, ys: seq<Entry>, y: seq<byte>)
    requires forall v | v in xs :: WellFormed(v.value)
    requires forall w | w in ys :: WellFormed(w.value)
    requires PrintEntries(xs) + ([CLOSE_OBJECT] + x) == PrintEntries(ys) + ([CLOSE_OBJECT] + y)
    ensures xs == ys && x == y
    decreases xs, 0
  {
    EntriesStart(xs, x, ys, y);
    if xs != [] {
      PrintApart(xs[0].value, AfterEntry(xs, x), ys[0].value, AfterEntry(ys, y));
      AfterEntryApart(xs, x, ys, y);
      if |xs| > 1 {
        EntriesApart(xs[1..], x, ys[1..], y);
      }
      HeadAndTailAgree(xs, ys);
    }
  }

  lemma EntriesStart(xs: seq<Entry>, x: seq<byte>, ys: seq<Entry>, y: seq<byte>)
    requires PrintEntries(xs) + ([CLOSE_OBJECT] + x) == PrintEntries(ys) + ([CLOSE_OBJECT] + y)
    ensures xs == [] <==> ys == []
    ensures xs == [] ==> x == y
    ensures xs != [] ==> xs[0].key == ys[0].key
    ensures xs != [] ==> Print(xs[0].value) + AfterEntry(xs, x) == Print(ys[0].value) + AfterEntry(ys, y)
  {
    EntriesBegin(xs, x);
    EntriesBegin(ys, y);
    var p, q := [CLOSE_OBJECT] + x, [CLOSE_OBJECT] + y;
    assert p[0] == q[0] == CLOSE_OBJECT && p[1..] == x && q[1..] == y;
    if xs != [] && ys != [] {
      EntryApart(xs[0].key, Print(xs[0].value) + AfterEntry(xs, x), ys[0].key, Print(ys[0].value) + AfterEntry(ys, y));
    }
  }

  lemma HeadAndTailAgree<T>(xs: seq<T>, ys: seq<T>)
    requires xs != [] && ys != [] && xs[0] == ys[0]
    requires |xs| == 1 <==> |ys| == 1
    requires |xs| > 1 ==> xs[1..] == ys[1..]
    ensures xs == ys
  {
    assert xs == [xs[0]] + xs[1..] && ys == [ys[0]] + ys[1..];
  }

  lemma EntryApart(k: Text, r: seq<byte>, l: Text, s: seq<byte>)
    requires Quoted(k) + ([COLON] + r) == Quoted(l) + ([COLON] + s)
    ensures k == l && r == s
  {
    QuotedApart(k, [COLON] + r, l, [COLON] + s);
    assert r == ([COLON] + r)[1..] && s == ([COLON] + s)[1..];
  }

  lemma AfterEntryApart(xs: seq<Entry>, x: seq<byte>, ys: seq<Entry>, y: seq<byte>)
    requires xs != [] && ys != [] && AfterEntry(xs, x) == AfterEntry(ys, y)
    ensures |xs| == 1 <==> |ys| == 1
    ensures |xs| == 1 ==> x == y
    ensures |xs| > 1 ==> PrintEntries(xs[1..]) + ([CLOSE_OBJECT] + x) == PrintEntries(ys[1..]) + ([CLOSE_OBJECT] + y)
  {
    var p, q := AfterEntry(xs, x), AfterEntry(ys, y);
    assert p[0] == q[0] && p[1..] == q[1..];
    assert p[1..] == if |xs| == 1 then x else PrintEntries(xs[1..]) + ([CLOSE_OBJECT] + x);
    assert q[1..] == if |ys| == 1 then y else PrintEntries(ys[1..]) + ([CLOSE_OBJECT] + y);
  }

  // ---- the order taken away: what is left is the meaning

  lemma {:induction false} MemberAt(es: seq<Entry>, i: nat)
    requires KeysDiffer(es) && i < |es|
    ensures es[i].key in MembersOf(es) && MembersOf(es)[es[i].key] == MeaningOf(es[i].value)
  {
    if i > 0 {
      assert es[i] == es[1..][i - 1];
      MemberAt(es[1..], i - 1);
      assert es[0].key != es[i].key;
    }
  }

  lemma {:induction false} MemberIsEntry(es: seq<Entry>, k: Text) returns (i: nat)
    requires k in MembersOf(es)
    ensures i < |es| && es[i].key == k
  {
    if es[0].key == k {
      i := 0;
    } else {
      i := MemberIsEntry(es[1..], k);
      i := i + 1;
    }
  }

  /** Some entry has this one's key and a value of the same meaning. */
  predicate InMeaning(e: Entry, es: seq<Entry>) {
    exists f | f in es :: f.key == e.key && MeaningOf(f.value) == MeaningOf(e.value)
  }

  lemma SameMembers(xs: seq<Entry>, ys: seq<Entry>)
    requires KeysDiffer(xs) && KeysDiffer(ys)
    requires (forall e | e in xs :: InMeaning(e, ys)) && (forall f | f in ys :: InMeaning(f, xs))
    ensures MembersOf(xs) == MembersOf(ys)
  {
    forall k | k in MembersOf(xs)
      ensures k in MembersOf(ys) && MembersOf(xs)[k] == MembersOf(ys)[k]
    {
      var i := MemberIsEntry(xs, k);
      MemberAt(xs, i);
      assert xs[i] in xs;
      var f :| f in ys && f.key == xs[i].key && MeaningOf(f.value) == MeaningOf(xs[i].value);
      var j :| 0 <= j < |ys| && ys[j] == f;
      MemberAt(ys, j);
    }
    forall k | k in MembersOf(ys)
      ensures k in MembersOf(xs)
    {
      var j := MemberIsEntry(ys, k);
      assert ys[j] in ys;
      assert InMeaning(ys[j], xs);
      var e :| e in xs && e.key == ys[j].key && MeaningOf(e.value) == MeaningOf(ys[j].value);
      var i :| 0 <= i < |xs| && xs[i] == e;
      MemberAt(xs, i);
    }
  }

  lemma SortedKeysDiffer(es: seq<Entry>, sorted: seq<Entry>)
    requires KeysDiffer(es) && multiset(sorted) == multiset(es)
    ensures KeysDiffer(sorted)
  {
    forall i, j | 0 <= i < j < |sorted|
      ensures sorted[i].key != sorted[j].key
    {
      if sorted[i].key == sorted[j].key {
        TwoAreIn(sorted, i, j);
        assert sorted[i] in multiset(es) && sorted[j] in multiset(es);
        var a :| 0 <= a < |es| && es[a] == sorted[i];
        var b :| 0 <= b < |es| && es[b] == sorted[j];
        assert a == b;
        OnlyOnce(es, a);
      }
    }
  }

  lemma TwoAreIn<T>(s: seq<T>, i: nat, j: nat)
    requires i < j < |s|
    ensures s[i] == s[j] ==> multiset(s)[s[i]] >= 2
  {
    assert s == s[..j] + [s[j]] + s[j + 1..];
    assert s[i] in s[..j];
    assert s[i] in multiset(s[..j]);
  }

  lemma OnlyOnce(es: seq<Entry>, a: nat)
    requires KeysDiffer(es) && a < |es|
    ensures multiset(es)[es[a]] == 1
  {
    assert es == es[..a] + [es[a]] + es[a + 1..];
    assert es[a] !in es[..a] && es[a] !in es[a + 1..];
    assert es[a] !in multiset(es[..a]) && es[a] !in multiset(es[a + 1..]);
  }

  lemma {:induction false} OrderedKeeps(v: Json)
    requires WellFormed(v)
    ensures WellFormed(Ordered(v)) && MeaningOf(Ordered(v)) == MeaningOf(v)
  {
    match v
    case Arr(items) =>
      forall i | 0 <= i < |items|
        ensures WellFormed(Ordered(items[i])) && MeaningOf(Ordered(items[i])) == MeaningOf(items[i])
      {
        assert items[i] in items;
        OrderedKeeps(items[i]);
      }
      assert MeaningsOf(OrderedItems(items)) == MeaningsOf(items);
    case Obj(es) =>
      forall i | 0 <= i < |es|
        ensures WellFormed(Ordered(es[i].value)) && MeaningOf(Ordered(es[i].value)) == MeaningOf(es[i].value)
      {
        assert es[i] in es;
        OrderedKeeps(es[i].value);
      }
      OrderedEntriesKeep(es);
    case _ =>
  }

  lemma OrderedEntriesKeep(es: seq<Entry>)
    requires KeysDiffer(es)
    requires forall i | 0 <= i < |es| ::
      WellFormed(Ordered(es[i].value)) && MeaningOf(Ordered(es[i].value)) == MeaningOf(es[i].value)
    ensures WellFormed(Obj(SortByKey(OrderedEntries(es)))) && MembersOf(SortByKey(OrderedEntries(es))) == MembersOf(es)
  {
    hide InMeaning, MembersOf, OrderedEntries, SortByKey;
    var sorted := SortByKey(OrderedEntries(es));
    SortedKeysDiffer(OrderedEntries(es), sorted);
    forall e | e in sorted
      ensures WellFormed(e.value) && InMeaning(e, es)
    {
      SortedIsMeant(es, e);
    }
    forall f | f in es
      ensures InMeaning(f, sorted)
    {
      MeantIsSorted(es, f);
    }
    SameMembers(sorted, es);
  }

  lemma SortedIsMeant(es: seq<Entry>, e: Entry)
    requires e in SortByKey(OrderedEntries(es))
    requires forall i | 0 <= i < |es| ::
      WellFormed(Ordered(es[i].value)) && MeaningOf(Ordered(es[i].value)) == MeaningOf(es[i].value)
    ensures WellFormed(e.value) && InMeaning(e, es)
  {
    hide WellFormed, MeaningOf, Ordered, SortByKey, OrderedEntries, InMeaning;
    var i := PlaceOf(OrderedEntries(es), e);
    StandsFor(e, es, i);
  }

  lemma PlaceOf(mid: seq<Entry>, e: Entry) returns (i: nat)
    requires e in SortByKey(mid)
    ensures i < |mid| && mid[i] == e
  {
    hide SortByKey;
    assert e in multiset(SortByKey(mid));
    i :| i < |mid| && mid[i] == e;
  }

  lemma StandsFor(e: Entry, es: seq<Entry>, i: nat)
    requires i < |es| && e.key == es[i].key && MeaningOf(e.value) == MeaningOf(es[i].value)
    ensures InMeaning(e, es)
  {
    assert es[i] in es;
  }

  lemma MeantIsSorted(es: seq<Entry>, f: Entry)
    requires f in es
    requires forall i | 0 <= i < |es| ::
      WellFormed(Ordered(es[i].value)) && MeaningOf(Ordered(es[i].value)) == MeaningOf(es[i].value)
    ensures InMeaning(f, SortByKey(OrderedEntries(es)))
  {
    hide WellFormed, MeaningOf, Ordered, SortByKey, OrderedEntries;
    var mid := OrderedEntries(es);
    var i :| 0 <= i < |es| && es[i] == f;
    assert mid[i] in multiset(SortByKey(mid));
  }

  lemma {:induction false} MeaningFixesOrder(v: Json, w: Json)
    requires WellFormed(v) && WellFormed(w) && MeaningOf(v) == MeaningOf(w)
    ensures Ordered(v) == Ordered(w)
  {
    match v
    case Arr(items) =>
      forall i | 0 <= i < |items|
        ensures Ordered(items[i]) == Ordered(w.items[i])
      {
        assert items[i] in items && w.items[i] in w.items;
        assert MeaningsOf(items)[i] == MeaningsOf(w.items)[i];
        MeaningFixesOrder(items[i], w.items[i]);
      }
      assert OrderedItems(items) == OrderedItems(w.items);
    case Obj(es) =>
      forall i, j | 0 <= i < |es| && 0 <= j < |w.entries| && es[i].key == w.entries[j].key
        ensures Ordered(es[i].value) == Ordered(w.entries[j].value)
      {
        assert es[i] in es && w.entries[j] in w.entries;
        MemberAt(es, i);
        MemberAt(w.entries, j);
        MeaningFixesOrder(es[i].value, w.entries[j].value);
      }
      EntriesFixOrder(es, w.entries);
    case _ =>
  }

  lemma EntriesFixOrder(xs: seq<Entry>, ys: seq<Entry>)
    requires KeysDiffer(xs) && KeysDiffer(ys) && MembersOf(xs) == MembersOf(ys)
    requires forall i, j | 0 <= i < |xs| && 0 <= j < |ys| && xs[i].key == ys[j].key ::
      Ordered(xs[i].value) == Ordered(ys[j].value)
    ensures SortByKey(OrderedEntries(xs)) == SortByKey(OrderedEntries(ys))
  {
    var a, b := OrderedEntries(xs), OrderedEntries(ys);
    EntriesWithin(xs, ys);
    EntriesWithin(ys, xs);
    SameContents(a, b);
    SortKeys(a);
    SortKeys(b);
    SortedIsUniqueByKey(SortByKey(a), SortByKey(b), a);
  }

  lemma EntriesWithin(xs: seq<Entry>, ys: seq<Entry>)
    requires KeysDiffer(xs) && KeysDiffer(ys) && MembersOf(xs) == MembersOf(ys)
    requires forall i, j | 0 <= i < |xs| && 0 <= j < |ys| && xs[i].key == ys[j].key ::
      Ordered(xs[i].value) == Ordered(ys[j].value)
    ensures forall e | e in OrderedEntries(xs) :: e in OrderedEntries(ys)
  {
    var a, b := OrderedEntries(xs), OrderedEntries(ys);
    forall e | e in a
      ensures e in b
    {
      var i :| 0 <= i < |a| && a[i] == e;
      MemberAt(xs, i);
      var j := MemberIsEntry(ys, xs[i].key);
      assert b[j] == e;
    }
  }

  lemma SameContents(a: seq<Entry>, b: seq<Entry>)
    requires KeysDiffer(a) && KeysDiffer(b)
    requires (forall e | e in a :: e in b) && (forall e | e in b :: e in a)
    ensures multiset(a) == multiset(b)
  {
    forall e
      ensures multiset(a)[e] == multiset(b)[e]
    {
      if e in a {
        var i :| 0 <= i < |a| && a[i] == e;
        var j :| 0 <= j < |b| && b[j] == e;
        OnlyOnce(a, i);
        OnlyOnce(b, j);
      } else {
        assert e !in multiset(a) && e !in multiset(b);
      }
    }
  }

  lemma SortedIsUniqueByKey(s: seq<Entry>, t: seq<Entry>, a: seq<Entry>)
    requires KeysDiffer(a) && multiset(s) == multiset(t) == multiset(a)
    requires ByKey(s) && ByKey(t)
    ensures s == t
  {
    KeysTogether(s, t);
    SortedIsUnique(KeysOf(s), KeysOf(t));
    SortedKeysDiffer(a, s);
    assert |s| == |multiset(s)| == |multiset(t)| == |t|;
    forall i | 0 <= i < |s|
      ensures s[i] == t[i]
    {
      assert KeysOf(s)[i] == KeysOf(t)[i];
      assert t[i] in multiset(s);
      var j :| 0 <= j < |s| && s[j] == t[i];
    }
  }

  lemma {:induction false} KeysTogether(s: seq<Entry>, t: seq<Entry>)
    requires multiset(s) == multiset(t)
    ensures multiset(KeysOf(s)) == multiset(KeysOf(t))
  {
    var key := (e: Entry) => e.key;
    EqualContentsEncodeAlike(key, s, t);
    assert KeysOf(s) == Map(key, s) && KeysOf(t) == Map(key, t);
  }

  /** The main result: two values are written alike exactly when they are equal as JSON, whatever
      the order their members were stored in. */
  lemma CanonicalJsonIsTheMeaning(v: Json, w: Json)
    requires WellFormed(v) && WellFormed(w)
    ensures CanonicalJsonOf(v) == CanonicalJsonOf(w) <==> MeaningOf(v) == MeaningOf(w)
  {
    OrderedKeeps(v);
    OrderedKeeps(w);
    if CanonicalJsonOf(v) == CanonicalJsonOf(w) {
      PrintApart(Ordered(v), [], Ordered(w), []);
    }
    if MeaningOf(v) == MeaningOf(w) {
      MeaningFixesOrder(v, w);
    }
  }
}

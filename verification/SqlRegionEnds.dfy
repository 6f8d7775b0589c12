/** Where each region of an SQL text begins and ends, told by the characters and not by the walks that
    find it. */
module SqlRegionEnds {
  import opened Options
  import opened Sequences
  import opened SqlRegions

  // ---- block comments

  predicate Opens(sql: string, i: int) {
    0 <= i < |sql| - 1 && sql[i] == '/' && sql[i + 1] == '*'
  }

  predicate Closes(sql: string, i: int) {
    0 <= i < |sql| - 1 && sql[i] == '*' && sql[i + 1] == '/'
  }

  predicate NoMarkIn(sql: string, i: int, j: int) {
    forall k | i <= k < j :: !Opens(sql, k) && !Closes(sql, k)
  }

  /** The marks of a comment begun at start, one after another: each is the first that begins no earlier
      than the last one ended. */
  predicate AreMarks(sql: string, start: nat, marks: seq<nat>) {
    && marks != [] && marks[0] == start && Opens(sql, start)
    && (forall i | 0 <= i < |marks| :: Opens(sql, marks[i]) || Closes(sql, marks[i]))
    && forall i | 0 < i < |marks| :: marks[i - 1] + 2 <= marks[i] && NoMarkIn(sql, marks[i - 1] + 2, marks[i])
  }

  /** How many more of the marks open than close. */
  function Depth(sql: string, marks: seq<nat>): int {
    if marks == [] then 0
    else Depth(sql, marks[..|marks| - 1]) + if Opens(sql, marks[|marks| - 1]) then 1 else -1
  }

  predicate OpenSoFar(sql: string, marks: seq<nat>, n: int) {
    n <= |marks| && forall k | 0 < k <= n :: Depth(sql, marks[..k]) > 0
  }

  /** At the first mark that closes as many as were opened, or the end of the text where none does. */
  predicate EndsTheBlock(sql: string, start: nat, marks: seq<nat>, end: nat) {
    && AreMarks(sql, start, marks) && OpenSoFar(sql, marks, |marks| - 1)
    && if Depth(sql, marks) == 0 then end == marks[|marks| - 1] + 2 <= |sql|
       else Depth(sql, marks) > 0 && end == |sql| && NoMarkIn(sql, marks[|marks| - 1] + 2, |sql|)
  }

  lemma OneMoreMark(sql: string, start: nat, marks: seq<nat>, i: nat)
    requires AreMarks(sql, start, marks) && OpenSoFar(sql, marks, |marks|)
    requires marks[|marks| - 1] + 2 <= i && NoMarkIn(sql, marks[|marks| - 1] + 2, i) && (Opens(sql, i) || Closes(sql, i))
    ensures AreMarks(sql, start, marks + [i]) && OpenSoFar(sql, marks + [i], |marks|)
    ensures Depth(sql, marks + [i]) == Depth(sql, marks) + if Opens(sql, i) then 1 else -1
  {
    hide Opens, Closes, NoMarkIn, Depth, OpenSoFar;
    DepthOfMore(sql, marks, i);
    assert forall k | 0 <= k < |marks| :: (marks + [i])[k] == marks[k];
  }

  lemma DepthOfMore(sql: string, marks: seq<nat>, i: nat)
    requires OpenSoFar(sql, marks, |marks|)
    ensures OpenSoFar(sql, marks + [i], |marks|)
    ensures Depth(sql, marks + [i]) == Depth(sql, marks) + if Opens(sql, i) then 1 else -1
  {
    hide Opens;
    var more := marks + [i];
    assert more[..|more| - 1] == marks;
    assert forall k | 0 <= k <= |marks| :: more[..k] == marks[..k];
  }

  lemma AllOpen(sql: string, marks: seq<nat>)
    requires marks != [] && OpenSoFar(sql, marks, |marks| - 1) && Depth(sql, marks) > 0
    ensures OpenSoFar(sql, marks, |marks|)
  {
    assert marks[..|marks|] == marks;
  }

  lemma {:induction false} BlockWalk(sql: string, start: nat, marks: seq<nat>, i: nat) returns (all: seq<nat>)
    requires AreMarks(sql, start, marks) && OpenSoFar(sql, marks, |marks|) && Depth(sql, marks) > 0
    requires marks[|marks| - 1] + 2 <= i <= |sql| && NoMarkIn(sql, marks[|marks| - 1] + 2, i)
    ensures EndsTheBlock(sql, start, all, BlockEnd(sql, i, Depth(sql, marks)))
    decreases |sql| - i
  {
    var depth := Depth(sql, marks);
    BlockStep(sql, i, depth);
    MarksAreTwo(sql, i);
    if i == |sql| {
      OpenBefore(sql, marks);
      return marks;
    }
    if Opens(sql, i) || Closes(sql, i) {
      hide BlockEnd;
      OneMoreMark(sql, start, marks, i);
      all := marks + [i];
      if Depth(sql, all) > 0 {
        AllOpen(sql, all);
        all := BlockWalk(sql, start, all, i + 2);
      }
    } else {
      all := BlockWalk(sql, start, marks, i + 1);
    }
  }

  lemma OpenBefore(sql: string, marks: seq<nat>)
    requires OpenSoFar(sql, marks, |marks|) && marks != []
    ensures OpenSoFar(sql, marks, |marks| - 1)
  {
  }

  lemma MarksAreTwo(sql: string, i: nat)
    ensures Opens(sql, i) <==> TwoAt(sql, i, '/', '*')
    ensures Closes(sql, i) <==> TwoAt(sql, i, '*', '/')
    ensures !(Opens(sql, i) && Closes(sql, i))
  {
  }

  lemma BlockEndMeaning(sql: string, start: nat) returns (marks: seq<nat>)
    requires Opens(sql, start)
    ensures EndsTheBlock(sql, start, marks, BlockEnd(sql, start + 2, 1))
  {
    var first := [start];
    assert first[..1] == first && first[..0] == [];
    assert Depth(sql, first) == 1;
    marks := BlockWalk(sql, start, first, start + 2);
  }

  // ---- strings and quoted identifiers

  /** What a quoted text is made of: a character as it stands, a doubled quote, an escaped character. */
  datatype Unit = Plain(c: char) | DoubledQuote | Escaped(c: char)

  predicate IsUnit(u: Unit, quote: char, escapes: bool) {
    match u
    case Plain(c) => c != quote && !(escapes && c == '\\')
    case DoubledQuote => true
    case Escaped(_) => escapes
  }

  function UnitText(u: Unit, quote: char): string {
    match u case Plain(c) => [c] case DoubledQuote => [quote, quote] case Escaped(c) => ['\\', c]
  }

  function Spelled(units: seq<Unit>, quote: char): string {
    if units == [] then "" else UnitText(units[0], quote) + Spelled(units[1..], quote)
  }

  predicate AreUnits(units: seq<Unit>, quote: char, escapes: bool) {
    forall u | u in units :: IsUnit(u, quote, escapes)
  }

  /** Directly after the first quote that is neither doubled nor escaped, or the end of the text where
      there is none, in the middle of an escape or not. */
  predicate EndsTheQuoted(sql: string, i: nat, quote: char, escapes: bool, units: seq<Unit>, end: nat) {
    && i <= end <= |sql| && AreUnits(units, quote, escapes)
    && (|| (sql[i..end] == Spelled(units, quote) + [quote] && (end < |sql| ==> sql[end] != quote))
        || (end == |sql| && sql[i..] == Spelled(units, quote))
        || (end == |sql| && escapes && sql[i..] == Spelled(units, quote) + "\\"))
  }

  ghost predicate QuotedEnds(sql: string, i: nat, quote: char, escapes: bool, end: nat) {
    exists units :: EndsTheQuoted(sql, i, quote, escapes, units, end)
  }

  lemma UnitBefore(u: Unit, units: seq<Unit>, sql: string, i: nat, quote: char, escapes: bool, end: nat)
    requires IsUnit(u, quote, escapes)
    requires i + |UnitText(u, quote)| <= |sql| && sql[i..i + |UnitText(u, quote)|] == UnitText(u, quote)
    requires EndsTheQuoted(sql, i + |UnitText(u, quote)|, quote, escapes, units, end)
    ensures EndsTheQuoted(sql, i, quote, escapes, [u] + units, end)
  {
    hide IsUnit;
    var j := i + |UnitText(u, quote)|;
    assert ([u] + units)[1..] == units;
    assert Spelled([u] + units, quote) == UnitText(u, quote) + Spelled(units, quote);
    assert sql[i..end] == sql[i..j] + sql[j..end];
    assert sql[i..] == sql[i..j] + sql[j..];
    Associate(UnitText(u, quote), Spelled(units, quote), [quote]);
    Associate(UnitText(u, quote), Spelled(units, quote), "\\");
  }

  /** No unit more: the text is at its end, breaks off in an escape, or closes here. */
  lemma NoUnitMore(sql: string, i: nat, quote: char, escapes: bool, end: nat)
    requires i <= end <= |sql|
    requires || (i == end == |sql|)
             || (escapes && i + 1 == |sql| == end && sql[i] == '\\')
             || (i + 1 == end && sql[i] == quote && (end < |sql| ==> sql[end] != quote))
    ensures EndsTheQuoted(sql, i, quote, escapes, [], end)
  {
    if i == |sql| {
      assert sql[i..] == "";
    } else if sql[i] == quote && i + 1 == end {
      assert sql[i..end] == "" + [quote];
    } else {
      assert sql[i..] == "" + "\\";
    }
  }

  lemma OneUnitFirst(u: Unit, sql: string, i: nat, quote: char, escapes: bool)
    requires IsUnit(u, quote, escapes)
    requires match u
             case Plain(c) => i < |sql| && sql[i] == c
             case DoubledQuote => i + 1 < |sql| && sql[i] == sql[i + 1] == quote
             case Escaped(c) => i + 1 < |sql| && sql[i] == '\\' && sql[i + 1] == c
    ensures i + |UnitText(u, quote)| <= |sql| && sql[i..i + |UnitText(u, quote)|] == UnitText(u, quote)
    ensures |UnitText(u, quote)| == if u.Plain? then 1 else 2
  {
  }

  lemma {:induction false} QuotedEndMeaning(sql: string, i: nat, quote: char, escapes: bool) returns (units: seq<Unit>)
    requires i <= |sql| && quote != '\\'
    ensures EndsTheQuoted(sql, i, quote, escapes, units, QuotedEnd(sql, i, quote, escapes))
    decreases |sql| - i
  {
    var end := QuotedEnd(sql, i, quote, escapes);
    QuotedStep(sql, i, quote, escapes);
    QuotedAtTheEnd(sql, i + 2, quote, escapes);
    hide QuotedEnd, EndsTheQuoted;
    units := [];
    if i == |sql| || (escapes && sql[i] == '\\' && i + 1 == |sql|) || QuotedSkip(sql, i, quote, escapes) == 0 {
      NoUnitMore(sql, i, quote, escapes, end);
    } else {
      var u := if escapes && sql[i] == '\\' then Escaped(sql[i + 1])
               else if sql[i] != quote then Plain(sql[i]) else DoubledQuote;
      OneUnitFirst(u, sql, i, quote, escapes);
      units := QuotedEndMeaning(sql, i + QuotedSkip(sql, i, quote, escapes), quote, escapes);
      hide IsUnit;
      UnitBefore(u, units, sql, i, quote, escapes, end);
      units := [u] + units;
    }
  }

  lemma QuotedAtTheEnd(sql: string, i: nat, quote: char, escapes: bool)
    ensures i >= |sql| ==> QuotedEnd(sql, i, quote, escapes) == |sql|
  {
  }

  // ---- dollar-quoted bodies

  /** A dollar quote's tag: two dollar signs with nothing or an identifier between them. */
  predicate IsTag(t: string) {
    && |t| >= 2 && t[0] == '$' == t[|t| - 1] && (|t| > 2 ==> IsWordStart(t[1]))
    && forall k | 1 <= k < |t| - 1 :: IsTagCharacter(t[k])
  }

  lemma {:induction false} TagWordMeaning(sql: string, i: nat)
    requires i <= |sql|
    ensures forall k | i <= k < TagWordEnd(sql, i) :: IsTagCharacter(sql[k])
    decreases |sql| - i
  {
    if i < |sql| && IsTagCharacter(sql[i]) {
      TagWordMeaning(sql, i + 1);
    }
  }

  lemma TagIsTag(sql: string, i: nat)
    requires TagEnd(sql, i).Some?
    ensures IsTag(sql[i..TagEnd(sql, i).value])
  {
    if sql[i + 1] != '$' {
      TagWordMeaning(sql, i + 1);
      var t := sql[i..TagEnd(sql, i).value];
      assert forall k | 0 <= k < |t| :: t[k] == sql[i + k];
    }
  }

  lemma {:induction false} TagWordRuns(sql: string, i: nat, e: nat)
    requires i <= e < |sql| && !IsTagCharacter(sql[e]) && forall k | i <= k < e :: IsTagCharacter(sql[k])
    ensures TagWordEnd(sql, i) == e
    decreases e - i
  {
    if i < e {
      TagWordRuns(sql, i + 1, e);
    }
  }

  lemma TagIsFound(sql: string, i: nat, e: nat)
    requires i <= e <= |sql| && IsTag(sql[i..e])
    ensures TagEnd(sql, i) == Some(e)
  {
    var t := sql[i..e];
    assert forall k | 0 <= k < |t| :: t[k] == sql[i + k];
    assert forall k | i + 1 <= k < e - 1 :: sql[k] == t[k - i];
    if |t| > 2 {
      TagWordRuns(sql, i + 1, e - 1);
    }
  }

  /** A tag stands at i exactly where one is found, and it is that one. */
  lemma TagMeaning(sql: string, i: nat, e: nat)
    requires i <= e <= |sql|
    ensures TagEnd(sql, i) == Some(e) <==> IsTag(sql[i..e])
  {
    if TagEnd(sql, i) == Some(e) {
      TagIsTag(sql, i);
    }
    if IsTag(sql[i..e]) {
      TagIsFound(sql, i, e);
    }
  }

  /** Directly after the first occurrence of the tag from i, or the end of the text where there is none. */
  ghost predicate EndsTheBody(sql: string, i: nat, tag: string, end: nat) {
    || (exists j | i <= j :: Found(sql, i, tag, j) && end == j + |tag|)
    || (end == |sql| && forall k | i <= k :: !StandsAt(sql, k, tag))
  }

  predicate Found(sql: string, i: nat, tag: string, j: nat) {
    StandsAt(sql, j, tag) && forall k | i <= k < j :: !StandsAt(sql, k, tag)
  }

  lemma {:induction false} ClosingEndMeaning(sql: string, i: nat, tag: string)
    requires i <= |sql| && tag != ""
    ensures EndsTheBody(sql, i, tag, ClosingEnd(sql, i, tag))
    decreases |sql| - i
  {
    if i < |sql| {
      if StandsAt(sql, i, tag) {
        assert Found(sql, i, tag, i);
      } else {
        ClosingEndMeaning(sql, i + 1, tag);
        LaterFound(sql, i, tag, ClosingEnd(sql, i + 1, tag));
      }
    }
  }

  lemma LaterFound(sql: string, i: nat, tag: string, end: nat)
    requires !StandsAt(sql, i, tag) && EndsTheBody(sql, i + 1, tag, end)
    ensures EndsTheBody(sql, i, tag, end)
  {
    hide StandsAt;
    if !(end == |sql| && forall k | i + 1 <= k :: !StandsAt(sql, k, tag)) {
      var j :| i + 1 <= j && Found(sql, i + 1, tag, j) && end == j + |tag|;
      assert Found(sql, i, tag, j);
    }
  }

  // ---- every boundary

  /** What stands at i opens a region of this kind. */
  ghost predicate OpensRegion(sql: string, i: nat, kind: RegionKind)
    requires i < |sql|
  {
    match kind
    case Code => false
    case Comment => TwoAt(sql, i, '-', '-') || TwoAt(sql, i, '/', '*')
    case String => sql[i] == '\''
    case QuotedIdentifier => sql[i] == '"'
    case DollarQuoted => exists e | i <= e <= |sql| :: IsTag(sql[i..e])
  }

  /** An E directly before the quote, which ends no longer word. */
  predicate MarkedE(sql: string, i: nat)
    requires i <= |sql|
  {
    && i >= 1 && (sql[i - 1] == 'E' || sql[i - 1] == 'e')
    && (i >= 2 ==> var c := sql[i - 2]; !('A' <= c <= 'Z' || 'a' <= c <= 'z' || '0' <= c <= '9' || c == '_' || c == '$'))
  }

  /** The region that opens at i ends at end. */
  ghost predicate EndsRegion(sql: string, i: nat, end: nat)
    requires i < |sql|
  {
    if TwoAt(sql, i, '-', '-') then EndsTheLine(sql, i, end)
    else if TwoAt(sql, i, '/', '*') then exists marks :: EndsTheBlock(sql, i, marks, end)
    else if sql[i] == '\'' then QuotedEnds(sql, i + 1, '\'', MarkedE(sql, i), end)
    else if sql[i] == '"' then QuotedEnds(sql, i + 1, '"', false, end)
    else exists e | i <= e <= |sql| :: IsTag(sql[i..e]) && EndsTheBody(sql, e, sql[i..e], end)
  }

  /** The main result: a boundary stands exactly where a region opens, with its kind, and ends where
      that region does. */
  lemma BoundaryMeaning(sql: string, i: nat)
    requires i < |sql|
    ensures BoundaryAt(sql, i).None? <==> forall kind :: !OpensRegion(sql, i, kind)
    ensures BoundaryAt(sql, i).Some? ==>
      && OpensRegion(sql, i, BoundaryAt(sql, i).value.kind)
      && (forall kind | OpensRegion(sql, i, kind) :: kind == BoundaryAt(sql, i).value.kind)
      && EndsRegion(sql, i, BoundaryAt(sql, i).value.end)
  {
    OneKindOpens(sql, i);
    if TwoAt(sql, i, '-', '-') {
      LineCommentEnds(sql, i);
      assert OpensRegion(sql, i, Comment);
    } else if TwoAt(sql, i, '/', '*') {
      MarksAreTwo(sql, i);
      var marks := BlockEndMeaning(sql, i);
      assert OpensRegion(sql, i, Comment);
    } else if sql[i] == '\'' {
      var units := QuotedEndMeaning(sql, i + 1, '\'', BackslashesEscape(sql, i));
      assert OpensRegion(sql, i, String);
    } else if sql[i] == '"' {
      var units := QuotedEndMeaning(sql, i + 1, '"', false);
      assert OpensRegion(sql, i, QuotedIdentifier);
    } else if TagEnd(sql, i).Some? {
      DollarQuoteEnds(sql, i);
      assert OpensRegion(sql, i, DollarQuoted);
    } else {
      forall e: nat | i <= e <= |sql|
        ensures !IsTag(sql[i..e])
      {
        TagMeaning(sql, i, e);
      }
    }
  }

  lemma LineCommentEnds(sql: string, i: nat)
    requires TwoAt(sql, i, '-', '-')
    ensures EndsTheLine(sql, i, LineEnd(sql, i + 2))
  {
    LineEndMeaning(sql, i + 2);
  }

  lemma DollarQuoteEnds(sql: string, i: nat)
    requires i < |sql| && TagEnd(sql, i).Some?
    ensures var e := TagEnd(sql, i).value;
            IsTag(sql[i..e]) && EndsTheBody(sql, e, sql[i..e], ClosingEnd(sql, e, sql[i..e]))
  {
    var e := TagEnd(sql, i).value;
    TagIsTag(sql, i);
    ClosingEndMeaning(sql, e, sql[i..e]);
  }

  lemma OneKindOpens(sql: string, i: nat)
    requires i < |sql|
    ensures forall kind, other | OpensRegion(sql, i, kind) && OpensRegion(sql, i, other) :: kind == other
  {
    assert (exists e | i <= e <= |sql| :: IsTag(sql[i..e])) ==> sql[i] == '$';
  }
}

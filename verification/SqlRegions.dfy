/** The regions of an SQL text: code, comments, strings, quoted identifiers and dollar-quoted bodies. */
module SqlRegions {
  import opened Options
  import opened Sequences

  datatype RegionKind = Code | Comment | String | QuotedIdentifier | DollarQuoted

  datatype Region = Region(kind: RegionKind, text: string)

  datatype Boundary = Boundary(kind: RegionKind, end: nat)

  predicate IsWordStart(c: char) {
    'A' <= c <= 'Z' || 'a' <= c <= 'z' || c == '_'
  }

  predicate IsTagCharacter(c: char) {
    IsWordStart(c) || '0' <= c <= '9'
  }

  predicate IsWordCharacter(c: char) {
    IsTagCharacter(c) || c == '$'
  }

  /** Both characters stand at i. */
  predicate TwoAt(sql: string, i: int, c: char, d: char) {
    0 <= i < |sql| - 1 && sql[i] == c && sql[i + 1] == d
  }

  predicate StandsAt(sql: string, i: nat, text: string) {
    i + |text| <= |sql| && sql[i..i + |text|] == text
  }

  // ---- where each kind of region ends

  function LineEnd(sql: string, i: nat): (end: nat)
    requires i <= |sql|
    ensures i <= end <= |sql|
    decreases |sql| - i
  {
    if i == |sql| then i else if sql[i] == '\n' then i + 1 else LineEnd(sql, i + 1)
  }

  /** Directly after the first newline from i, or the end of the text where there is none. */
  predicate EndsTheLine(sql: string, i: nat, end: nat) {
    && i <= end <= |sql| && (i < |sql| ==> i < end) && (forall k | i <= k < end - 1 :: sql[k] != '\n')
    && (end == |sql| || sql[end - 1] == '\n')
  }

  lemma {:induction false} LineEndMeaning(sql: string, i: nat)
    requires i <= |sql|
    ensures EndsTheLine(sql, i, LineEnd(sql, i))
    decreases |sql| - i
  {
    if i < |sql| && sql[i] != '\n' {
      LineEndMeaning(sql, i + 1);
    }
  }

  /** Block comments nest. */
  function BlockEnd(sql: string, i: nat, depth: int): (end: nat)
    ensures end <= |sql| && (i <= |sql| ==> i <= end) && (i < |sql| ==> i < end)
    decreases |sql| - i
  {
    if i >= |sql| then |sql|
    else if TwoAt(sql, i, '/', '*') then BlockEnd(sql, i + 2, depth + 1)
    else if TwoAt(sql, i, '*', '/') then if depth == 1 then i + 2 else BlockEnd(sql, i + 2, depth - 1)
    else BlockEnd(sql, i + 1, depth)
  }

  // One step of the walk through a block comment: how far it goes, to what depth, and whether it ends there.

  function BlockSkip(sql: string, i: nat): (k: nat)
    ensures 1 <= k <= 2
  {
    if TwoAt(sql, i, '/', '*') || TwoAt(sql, i, '*', '/') then 2 else 1
  }

  function BlockDepth(sql: string, i: nat, depth: int): int {
    if TwoAt(sql, i, '/', '*') then depth + 1 else if TwoAt(sql, i, '*', '/') then depth - 1 else depth
  }

  predicate BlockCloses(sql: string, i: nat, depth: int) {
    TwoAt(sql, i, '*', '/') && depth == 1
  }

  lemma BlockStep(sql: string, i: nat, depth: int)
    ensures BlockEnd(sql, i, depth) ==
      if i >= |sql| then |sql|
      else if BlockCloses(sql, i, depth) then i + 2
      else BlockEnd(sql, i + BlockSkip(sql, i), BlockDepth(sql, i, depth))
    ensures i + 1 < |sql| ==> i + 1 < BlockEnd(sql, i, depth)
  {
  }

  /** Whether a backslash escapes in the string opened at q: an E before it that ends no longer word. */
  predicate BackslashesEscape(sql: string, q: nat)
    requires q <= |sql|
  {
    q >= 1 && sql[q - 1] in ['E', 'e'] && !(q >= 2 && IsWordCharacter(sql[q - 2]))
  }

  function QuotedEnd(sql: string, i: nat, quote: char, escapes: bool): (end: nat)
    ensures end <= |sql| && (i <= |sql| ==> i <= end) && (i < |sql| ==> i < end)
    decreases |sql| - i
  {
    if i >= |sql| then |sql|
    else if escapes && sql[i] == '\\' then QuotedEnd(sql, i + 2, quote, escapes)
    else if sql[i] != quote then QuotedEnd(sql, i + 1, quote, escapes)
    else if i + 1 < |sql| && sql[i + 1] == quote then QuotedEnd(sql, i + 2, quote, escapes)
    else i + 1
  }

  /** How far one step of the walk through a string goes, or 0 where the quote at i closes it. */
  function QuotedSkip(sql: string, i: nat, quote: char, escapes: bool): (k: nat)
    requires i < |sql|
    ensures k <= 2
  {
    if escapes && sql[i] == '\\' then 2
    else if sql[i] != quote then 1
    else if i + 1 < |sql| && sql[i + 1] == quote then 2
    else 0
  }

  lemma QuotedStep(sql: string, i: nat, quote: char, escapes: bool)
    ensures QuotedEnd(sql, i, quote, escapes) ==
      if i >= |sql| then |sql|
      else
        var k := QuotedSkip(sql, i, quote, escapes);
        if k == 0 then i + 1 else QuotedEnd(sql, i + k, quote, escapes)
  {
  }

  /** The end of the run of tag characters from i. */
  function TagWordEnd(sql: string, i: nat): (end: nat)
    requires i <= |sql|
    ensures i <= end <= |sql| && (end < |sql| ==> !IsTagCharacter(sql[end]))
    decreases |sql| - i
  {
    if i < |sql| && IsTagCharacter(sql[i]) then TagWordEnd(sql, i + 1) else i
  }

  /** The end of the dollar quote's tag opened at i, if one is. */
  function TagEnd(sql: string, i: nat): (end: Option<nat>)
    ensures end.Some? ==> i + 2 <= end.value <= |sql| && sql[i] == sql[end.value - 1] == '$'
  {
    if i + 1 >= |sql| || sql[i] != '$' then None
    else if sql[i + 1] == '$' then Some(i + 2)
    else if !IsWordStart(sql[i + 1]) then None
    else
      var end := TagWordEnd(sql, i + 1);
      if end < |sql| && sql[end] == '$' then Some(end + 1) else None
  }

  function ClosingEnd(sql: string, i: nat, tag: string): (end: nat)
    ensures end <= |sql| && (i <= |sql| ==> i <= end)
    decreases |sql| - i
  {
    if i >= |sql| then |sql| else if StandsAt(sql, i, tag) then i + |tag| else ClosingEnd(sql, i + 1, tag)
  }

  function BoundaryAt(sql: string, i: nat): (b: Option<Boundary>)
    requires i < |sql|
    ensures b.Some? ==> i < b.value.end <= |sql| && b.value.kind != Code
  {
    if TwoAt(sql, i, '-', '-') then Some(Boundary(Comment, LineEnd(sql, i + 2)))
    else if TwoAt(sql, i, '/', '*') then Some(Boundary(Comment, BlockEnd(sql, i + 2, 1)))
    else if sql[i] == '\'' then Some(Boundary(String, QuotedEnd(sql, i + 1, '\'', BackslashesEscape(sql, i))))
    else if sql[i] == '"' then Some(Boundary(QuotedIdentifier, QuotedEnd(sql, i + 1, '"', false)))
    else
      var tagEnd := TagEnd(sql, i);
      if tagEnd.None? then None
      else Some(Boundary(DollarQuoted, ClosingEnd(sql, tagEnd.value, sql[i..tagEnd.value])))
  }

  // ---- the loops that find these ends

  method EndOfLineComment(sql: string, start: nat) returns (end: nat)
    requires TwoAt(sql, start, '-', '-')
    ensures end == LineEnd(sql, start + 2) && EndsTheLine(sql, start + 2, end)
  {
    LineEndMeaning(sql, start + 2);
    var newline := start;
    while newline < |sql| && sql[newline] != '\n'
      invariant start <= newline <= |sql|
      invariant LineEnd(sql, start) == LineEnd(sql, newline)
    {
      newline := newline + 1;
    }
    end := if newline == |sql| then |sql| else newline + 1;
  }

  method EndOfBlockComment(sql: string, start: nat) returns (end: nat)
    requires TwoAt(sql, start, '/', '*')
    ensures end == BlockEnd(sql, start + 2, 1)
  {
    var depth := 0;
    var index := start;
    while index < |sql|
      invariant depth >= 0 && (depth == 0 ==> index == start)
      invariant BlockEnd(sql, start, 0) == BlockEnd(sql, index, depth)
    {
      if TwoAt(sql, index, '/', '*') {
        depth := depth + 1;
        index := index + 2;
        continue;
      }
      if TwoAt(sql, index, '*', '/') {
        depth := depth - 1;
        index := index + 2;
        if depth == 0 {
          return index;
        }
        continue;
      }
      index := index + 1;
    }
    end := |sql|;
  }

  method EndOfQuoted(sql: string, start: nat, quote: char) returns (end: nat)
    requires start < |sql|
    ensures end == QuotedEnd(sql, start + 1, quote, quote == '\'' && BackslashesEscape(sql, start))
  {
    var escapes := quote == '\'' && BackslashesEscape(sql, start);
    var index := start + 1;
    while index < |sql|
      invariant QuotedEnd(sql, start + 1, quote, escapes) == QuotedEnd(sql, index, quote, escapes)
    {
      if escapes && sql[index] == '\\' {
        index := index + 2;
        continue;
      }
      if sql[index] == quote {
        if index + 1 < |sql| && sql[index + 1] == quote {
          index := index + 2;
          continue;
        }
        return index + 1;
      }
      index := index + 1;
    }
    end := |sql|;
  }

  // ---- regions

  function CodeRegion(sql: string, i: nat, j: nat): seq<Region>
    requires i <= j <= |sql|
  {
    if i < j then [Region(Code, sql[i..j])] else []
  }

  /** The regions from codeStart on, of which the code before index has been passed. */
  function RegionsFrom(sql: string, codeStart: nat, index: nat): seq<Region>
    requires codeStart <= index <= |sql|
    decreases |sql| - index
  {
    if index == |sql| then CodeRegion(sql, codeStart, index)
    else
      var b := BoundaryAt(sql, index);
      if b.None? then RegionsFrom(sql, codeStart, index + 1)
      else CodeRegion(sql, codeStart, index) + [Region(b.value.kind, sql[index..b.value.end])]
           + RegionsFrom(sql, b.value.end, b.value.end)
  }

  function Regions(sql: string): seq<Region> {
    RegionsFrom(sql, 0, 0)
  }

  lemma RegionsStep(sql: string, codeStart: nat, index: nat)
    requires codeStart <= index <= |sql|
    ensures RegionsFrom(sql, codeStart, index) ==
      if index == |sql| then CodeRegion(sql, codeStart, index)
      else
        var b := BoundaryAt(sql, index);
        if b.None? then RegionsFrom(sql, codeStart, index + 1)
        else CodeRegion(sql, codeStart, index) + [Region(b.value.kind, sql[index..b.value.end])]
             + RegionsFrom(sql, b.value.end, b.value.end)
  {
  }

  method SplitIntoRegions(sql: string) returns (regions: seq<Region>)
    ensures regions == Regions(sql)
  {
    hide RegionsFrom, BoundaryAt;
    regions := [];
    var index := 0;
    var codeStart := 0;
    assert regions + RegionsFrom(sql, 0, 0) == Regions(sql);
    while index < |sql|
      invariant codeStart <= index <= |sql|
      invariant regions + RegionsFrom(sql, codeStart, index) == Regions(sql)
    {
      RegionsStep(sql, codeStart, index);
      var boundary := BoundaryAt(sql, index);
      if boundary.None? {
        index := index + 1;
        continue;
      }
      var end := boundary.value.end;
      ThreeParts(regions, CodeRegion(sql, codeStart, index), [Region(boundary.value.kind, sql[index..end])],
                 RegionsFrom(sql, end, end));
      if index > codeStart {
        regions := regions + [Region(Code, sql[codeStart..index])];
      }
      regions := regions + [Region(boundary.value.kind, sql[index..end])];
      index := end;
      codeStart := index;
    }
    RegionsStep(sql, codeStart, |sql|);
    if codeStart < |sql| {
      assert sql[codeStart..] == sql[codeStart..|sql|];
      regions := regions + [Region(Code, sql[codeStart..])];
    }
  }

  lemma ThreeParts<T>(a: seq<T>, b: seq<T>, c: seq<T>, d: seq<T>)
    ensures a + (b + c + d) == a + b + c + d
    ensures b == [] ==> a + b == a
  {
  }

  function Texts(regions: seq<Region>): string {
    if regions == [] then "" else regions[0].text + Texts(regions[1..])
  }

  /** The first region from codeStart ends at end, and the others are those from there on. */
  ghost predicate StartsWith(sql: string, codeStart: nat, index: nat, kind: RegionKind, end: nat)
    requires codeStart <= index <= |sql| && codeStart <= end <= |sql|
  {
    RegionsFrom(sql, codeStart, index) == [Region(kind, sql[codeStart..end])] + RegionsFrom(sql, end, end)
  }

  lemma CodeToTheEnd(sql: string, codeStart: nat)
    requires codeStart < |sql|
    ensures StartsWith(sql, codeStart, |sql|, Code, |sql|)
  {
    RegionsStep(sql, codeStart, |sql|);
    RegionsStep(sql, |sql|, |sql|);
    hide RegionsFrom;
    assert [Region(Code, sql[codeStart..|sql|])] + [] == [Region(Code, sql[codeStart..|sql|])];
  }

  lemma BoundaryFirst(sql: string, index: nat)
    requires index < |sql| && BoundaryAt(sql, index).Some?
    ensures StartsWith(sql, index, index, BoundaryAt(sql, index).value.kind, BoundaryAt(sql, index).value.end)
  {
    RegionsStep(sql, index, index);
    hide RegionsFrom, BoundaryAt;
    var b := BoundaryAt(sql, index).value;
    assert [] + [Region(b.kind, sql[index..b.end])] == [Region(b.kind, sql[index..b.end])];
  }

  lemma CodeFirst(sql: string, codeStart: nat, index: nat)
    requires codeStart < index < |sql| && BoundaryAt(sql, index).Some?
    ensures StartsWith(sql, codeStart, index, Code, index)
  {
    RegionsStep(sql, codeStart, index);
    BoundaryFirst(sql, index);
    hide RegionsFrom, BoundaryAt;
    var b := BoundaryAt(sql, index).value;
    Associate([Region(Code, sql[codeStart..index])], [Region(b.kind, sql[index..b.end])], RegionsFrom(sql, b.end, b.end));
  }

  /** The first region from a region's start, and where it ends. */
  lemma {:induction false} FirstRegion(sql: string, codeStart: nat, index: nat) returns (end: nat)
    requires codeStart <= index <= |sql| && codeStart < |sql|
    requires forall j | codeStart <= j < index :: BoundaryAt(sql, j).None?
    ensures codeStart < end <= |sql|
    ensures var rs := RegionsFrom(sql, codeStart, index);
            && rs != [] && rs[0].text == sql[codeStart..end] && rs[1..] == RegionsFrom(sql, end, end)
            && (if rs[0].kind == Code then forall j | codeStart <= j < end :: BoundaryAt(sql, j).None?
                else index == codeStart && BoundaryAt(sql, index) == Some(Boundary(rs[0].kind, end)))
            && (rs[0].kind == Code && end < |sql| ==> BoundaryAt(sql, end).Some?)
    decreases |sql| - index
  {
    if index == |sql| {
      CodeToTheEnd(sql, codeStart);
      hide RegionsFrom, BoundaryAt;
      end := index;
    } else if BoundaryAt(sql, index).None? {
      RegionsStep(sql, codeStart, index);
      hide RegionsFrom, BoundaryAt;
      end := FirstRegion(sql, codeStart, index + 1);
    } else if codeStart < index {
      CodeFirst(sql, codeStart, index);
      hide RegionsFrom, BoundaryAt;
      end := index;
    } else {
      BoundaryFirst(sql, index);
      hide RegionsFrom, BoundaryAt;
      end := BoundaryAt(sql, index).value.end;
    }
  }

  /** The regions are the text, cut: none is empty, and code lies only between boundaries. */
  lemma {:induction false} RegionsCoverTheText(sql: string, i: nat)
    requires i <= |sql|
    ensures var rs := RegionsFrom(sql, i, i);
            && Texts(rs) == sql[i..] && (forall k | 0 <= k < |rs| :: rs[k].text != "")
            && forall k | 0 <= k < |rs| - 1 :: rs[k].kind != Code || rs[k + 1].kind != Code
    decreases |sql| - i
  {
    hide BoundaryAt;
    if i < |sql| {
      var end := FirstRegion(sql, i, i);
      RegionsCoverTheText(sql, end);
      var rs := RegionsFrom(sql, i, i);
      assert rs == [rs[0]] + rs[1..];
      assert sql[i..] == sql[i..end] + sql[end..];
      forall k | 0 <= k < |rs| - 1
        ensures rs[k].kind != Code || rs[k + 1].kind != Code
      {
        assert rs[k + 1] == rs[1..][k];
        if k > 0 {
          assert rs[k] == rs[1..][k - 1];
        } else if end < |sql| {
          var _ := FirstRegion(sql, end, end);
        }
      }
      assert forall k | 1 <= k < |rs| :: rs[k] == rs[1..][k - 1];
    }
  }
}

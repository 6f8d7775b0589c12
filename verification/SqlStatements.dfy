/** Cutting an SQL text into statements, and why a statement cut out stays one statement. */
module SqlStatements {
  import opened Options
  import opened Sequences
  import opened SqlRegions
  import opened Text

  /** The first semicolon in code from the code position i on, or the end of the text. */
  function NextSemicolon(sql: string, i: nat): (end: nat)
    requires i <= |sql|
    ensures i <= end <= |sql| && (end < |sql| ==> sql[end] == ';' && BoundaryAt(sql, end).None?)
    decreases |sql| - i
  {
    if i == |sql| then i
    else
      var b := BoundaryAt(sql, i);
      if b.Some? then NextSemicolon(sql, b.value.end)
      else if sql[i] == ';' then i
      else NextSemicolon(sql, i + 1)
  }

  /** The texts between those semicolons, where the first began at start and code is passed up to i. */
  function Pieces(sql: string, start: nat, i: nat): (pieces: seq<string>)
    requires start <= i <= |sql|
    ensures |pieces| >= 1
    decreases |sql| - i
  {
    var end := NextSemicolon(sql, i);
    if end == |sql| then [sql[start..]] else [sql[start..end]] + Pieces(sql, end + 1, end + 1)
  }

  function Kept(pieces: seq<string>): seq<string> {
    if pieces == [] then []
    else (if Trim(pieces[0]) != "" then [Trim(pieces[0])] else []) + Kept(pieces[1..])
  }

  function Statements(sql: string): seq<string> {
    Kept(Pieces(sql, 0, 0))
  }

  // ---- the loop over the regions

  lemma PassBoundary(sql: string, start: nat, i: nat)
    requires start <= i < |sql| && BoundaryAt(sql, i).Some?
    ensures Pieces(sql, start, i) == Pieces(sql, start, BoundaryAt(sql, i).value.end)
  {
    SemicolonAfterBoundary(sql, i);
    hide NextSemicolon, BoundaryAt;
  }

  lemma SemicolonAfterBoundary(sql: string, i: nat)
    requires i < |sql| && BoundaryAt(sql, i).Some?
    ensures NextSemicolon(sql, i) == NextSemicolon(sql, BoundaryAt(sql, i).value.end)
  {
    hide BoundaryAt;
  }

  lemma PassCode(sql: string, start: nat, i: nat)
    requires start <= i < |sql| && BoundaryAt(sql, i).None?
    ensures Pieces(sql, start, i)
      == if sql[i] == ';' then [sql[start..i]] + Pieces(sql, i + 1, i + 1) else Pieces(sql, start, i + 1)
  {
    hide BoundaryAt;
  }

  /** What the loop over a code region holds at its index: what it has cut off, and what is unfinished. */
  ghost predicate HasCut(sql: string, start: nat, position: nat, at: nat,
                         statements: seq<string>, unfinished: string, newStart: nat)
    requires start <= position <= at <= |sql|
  {
    && newStart <= at && unfinished == sql[newStart..at]
    && Pieces(sql, start, position) == statements + Pieces(sql, newStart, at)
  }

  ghost predicate AllCode(sql: string, i: nat, j: nat)
    requires j <= |sql|
  {
    forall k | i <= k < j :: BoundaryAt(sql, k).None?
  }

  lemma CutMore(sql: string, start: nat, position: nat, end: nat, at: nat,
                statements: seq<string>, unfinished: string, newStart: nat)
    requires start <= position <= at < end <= |sql| && AllCode(sql, position, end)
    requires HasCut(sql, start, position, at, statements, unfinished, newStart)
    ensures if sql[at] == ';' then HasCut(sql, start, position, at + 1, statements + [unfinished], "", at + 1)
            else HasCut(sql, start, position, at + 1, statements, unfinished + [sql[at]], newStart)
  {
    PassCode(sql, newStart, at);
    SliceAppend(sql, newStart, at);
    if sql[at] == ';' {
      Associate(statements, [unfinished], Pieces(sql, at + 1, at + 1));
    }
  }

  lemma NothingCut(sql: string, start: nat, position: nat, current: string)
    requires start <= position <= |sql| && current == sql[start..position]
    ensures HasCut(sql, start, position, position, [], current, start)
  {
  }

  lemma OneMoreCarried(carried: string, text: string, i: nat, j: nat)
    requires i <= j < |text|
    ensures carried + text[i..j + 1] == carried + text[i..j] + [text[j]]
  {
    SliceAppend(text, i, j);
    Associate(carried, text[i..j], [text[j]]);
  }

  lemma NothingCarried(text: string, i: nat)
    requires i <= |text|
    ensures "" + text[i..i] == ""
  {
  }

  /** One code region: each semicolon in it ends a statement. */
  method SplitCode(text: string, current: string, ghost sql: string, ghost start: nat, ghost position: nat, ghost end: nat)
    returns (statements: seq<string>, unfinished: string, ghost newStart: nat)
    requires start <= position <= end <= |sql| && text == sql[position..end] && current == sql[start..position]
    requires AllCode(sql, position, end)
    ensures HasCut(sql, start, position, end, statements, unfinished, newStart)
  {
    hide BoundaryAt, Pieces, HasCut, AllCode;
    statements := [];
    var carried := current;
    newStart := start;
    var from := 0;
    NothingCut(sql, start, position, current);
    assert current + text[0..0] == current;
    for index := 0 to |text|
      invariant from <= index
      invariant HasCut(sql, start, position, position + index, statements, carried + text[from..index], newStart)
    {
      ghost var unended := carried + text[from..index];
      CutMore(sql, start, position, end, position + index, statements, unended, newStart);
      OneMoreCarried(carried, text, from, index);
      if text[index] == ';' {
        statements := statements + [carried + text[from..index]];
        carried := "";
        from := index + 1;
        newStart := position + index + 1;
        NothingCarried(text, from);
      }
    }
    unfinished := carried + text[from..|text|];
  }

  /** What the loop over the regions holds at one's start. */
  ghost predicate HasSplit(sql: string, start: nat, position: nat, statements: seq<string>, current: string)
    requires position <= |sql|
  {
    start <= position && current == sql[start..position] && statements + Pieces(sql, start, position) == Pieces(sql, 0, 0)
  }

  lemma RegionPassed(sql: string, start: nat, position: nat, statements: seq<string>, current: string)
    requires position < |sql| && BoundaryAt(sql, position).Some?
    requires HasSplit(sql, start, position, statements, current)
    ensures var end := BoundaryAt(sql, position).value.end;
            HasSplit(sql, start, end, statements, current + sql[position..end])
  {
    var end := BoundaryAt(sql, position).value.end;
    PassBoundary(sql, start, position);
    assert sql[start..end] == sql[start..position] + sql[position..end];
  }

  lemma RegionCut(sql: string, start: nat, position: nat, statements: seq<string>, current: string,
                  end: nat, more: seq<string>, unfinished: string, newStart: nat)
    requires position <= end <= |sql| && HasSplit(sql, start, position, statements, current)
    requires HasCut(sql, start, position, end, more, unfinished, newStart)
    ensures HasSplit(sql, newStart, end, statements + more, unfinished)
  {
    Associate(statements, more, Pieces(sql, newStart, end));
  }

  lemma LastPiece(sql: string, start: nat, statements: seq<string>, current: string)
    requires HasSplit(sql, start, |sql|, statements, current)
    ensures statements + [current] == Pieces(sql, 0, 0)
  {
    assert sql[start..|sql|] == sql[start..];
  }

  method SplitStatements(sql: string) returns (kept: seq<string>)
    ensures kept == Statements(sql)
  {
    hide BoundaryAt, HasCut, Pieces;
    var statements: seq<string> := [];
    var current := "";
    var regions := SplitIntoRegions(sql);
    ghost var position: nat, start: nat := 0, 0;
    assert regions[0..] == regions && statements + Pieces(sql, 0, 0) == Pieces(sql, 0, 0);
    for k := 0 to |regions|
      invariant position <= |sql| && regions[k..] == RegionsFrom(sql, position, position)
      invariant HasSplit(sql, start, position, statements, current)
    {
      var region := regions[k];
      ghost var end := OneRegion(sql, position, regions, k);
      if region.kind != Code {
        RegionPassed(sql, start, position, statements, current);
        current := current + region.text;
      } else {
        var more, unfinished; ghost var newStart;
        more, unfinished, newStart := SplitCode(region.text, current, sql, start, position, end);
        RegionCut(sql, start, position, statements, current, end, more, unfinished, newStart);
        statements := statements + more;
        current := unfinished;
        start := newStart;
      }
      position := end;
    }
    RegionsEnd(sql, position);
    LastPiece(sql, start, statements, current);
    statements := statements + [current];
    kept := Trimmed(statements);
  }

  lemma RegionsEnd(sql: string, position: nat)
    requires position <= |sql|
    ensures RegionsFrom(sql, position, position) == [] ==> position == |sql|
  {
    if position < |sql| {
      var _ := FirstRegion(sql, position, position);
    }
  }

  lemma OneRegion(sql: string, position: nat, regions: seq<Region>, k: nat) returns (end: nat)
    requires position <= |sql| && k < |regions| && regions[k..] == RegionsFrom(sql, position, position)
    ensures position < end <= |sql| && regions[k].text == sql[position..end]
    ensures regions[k + 1..] == RegionsFrom(sql, end, end)
    ensures if regions[k].kind == Code then AllCode(sql, position, end)
            else BoundaryAt(sql, position) == Some(Boundary(regions[k].kind, end))
  {
    assert regions[k] == regions[k..][0] && regions[k..][1..] == regions[k + 1..];
    assert position < |sql|;
    end := FirstRegion(sql, position, position);
  }

  lemma {:induction false} KeptJoin(a: seq<string>, b: string)
    ensures Kept(a + [b]) == Kept(a) + (if Trim(b) != "" then [Trim(b)] else [])
  {
    hide Trim;
    if a == [] {
      assert a + [b] == [b];
    } else {
      assert (a + [b])[1..] == a[1..] + [b];
      KeptJoin(a[1..], b);
    }
  }

  method Trimmed(statements: seq<string>) returns (kept: seq<string>)
    ensures kept == Kept(statements)
  {
    kept := [];
    for k := 0 to |statements|
      invariant kept == Kept(statements[..k])
    {
      assert statements[..k + 1] == statements[..k] + [statements[k]];
      KeptJoin(statements[..k], statements[k]);
      var statement := Trim(statements[k]);
      if statement != "" {
        kept := kept + [statement];
      }
    }
    assert statements[..|statements|] == statements;
  }

  /** Nothing is lost: the pieces and the semicolons between them are the text. */
  lemma {:induction false} PiecesJoin(sql: string, start: nat)
    requires start <= |sql|
    ensures Join(Pieces(sql, start, start), ';') == sql[start..]
    decreases |sql| - start
  {
    hide BoundaryAt;
    hide NextSemicolon;
    var end := NextSemicolon(sql, start);
    if end < |sql| {
      PiecesJoin(sql, end + 1);
      FirstOfJoin(sql[start..end], Pieces(sql, end + 1, end + 1));
      assert sql[start..] == sql[start..end] + [';'] + sql[end + 1..];
    }
  }

  lemma FirstOfJoin(first: string, rest: seq<string>)
    requires rest != []
    ensures Join([first] + rest, ';') == first + [';'] + Join(rest, ';')
  {
    assert ([first] + rest)[1..] == rest;
  }

  // ---- a window of the text

  /** The text from a to b, which a boundary ending at e beyond b overruns by whitespace at most. */
  ghost predicate Fits(sql: string, b: nat, e: nat)
    requires b <= |sql| && e <= |sql|
  {
    forall j | b <= j < e :: IsWhitespace(sql[j])
  }

  function Within(a: nat, b: nat, e: nat): int {
    (if e <= b then e else b) - a
  }

  lemma {:induction false} WindowLine(sql: string, a: nat, b: nat, i: nat)
    requires a <= i <= b <= |sql|
    ensures LineEnd(sql[a..b], i - a) == Within(a, b, LineEnd(sql, i))
    decreases b - i
  {
    if i < b && sql[i] != '\n' {
      WindowLine(sql, a, b, i + 1);
    }
  }

  lemma WindowBlockStep(sql: string, a: nat, b: nat, i: nat, depth: int)
    requires a <= i < b <= |sql| && Fits(sql, b, BlockEnd(sql, i, depth))
    ensures var w := sql[a..b];
            && BlockSkip(w, i - a) == BlockSkip(sql, i) && BlockDepth(w, i - a, depth) == BlockDepth(sql, i, depth)
            && BlockCloses(w, i - a, depth) == BlockCloses(sql, i, depth)
    ensures BlockCloses(sql, i, depth) ==> i + 1 < b
  {
    BlockStep(sql, i, depth);
    hide BlockEnd;
    var w := sql[a..b];
    assert w[i - a] == sql[i];
    if i + 1 < b {
      assert w[i + 1 - a] == sql[i + 1];
    } else if i + 1 < |sql| {
      assert IsWhitespace(sql[b]);
    }
  }

  lemma {:induction false} WindowBlock(sql: string, a: nat, b: nat, i: nat, depth: int)
    requires a <= i && a <= b <= |sql| && Fits(sql, b, BlockEnd(sql, i, depth))
    ensures BlockEnd(sql[a..b], i - a, depth) == Within(a, b, BlockEnd(sql, i, depth))
    decreases |sql| - i
  {
    BlockStep(sql, i, depth);
    if i < b {
      WindowBlockStep(sql, a, b, i, depth);
      WindowBlockGoes(sql, a, b, i, depth);
      hide Fits, BlockEnd, BlockSkip, BlockDepth, BlockCloses;
      if !BlockCloses(sql, i, depth) {
        WindowBlock(sql, a, b, i + BlockSkip(sql, i), BlockDepth(sql, i, depth));
      }
    } else {
      BlockStep(sql[a..b], i - a, depth);
      hide Fits, BlockEnd, BlockSkip, BlockDepth, BlockCloses;
    }
  }

  lemma WindowBlockGoes(sql: string, a: nat, b: nat, i: nat, depth: int)
    requires a <= i < b <= |sql|
    requires var w := sql[a..b];
             && BlockSkip(w, i - a) == BlockSkip(sql, i) && BlockDepth(w, i - a, depth) == BlockDepth(sql, i, depth)
             && BlockCloses(w, i - a, depth) == BlockCloses(sql, i, depth)
    ensures BlockEnd(sql[a..b], i - a, depth) ==
      if BlockCloses(sql, i, depth) then i + 2 - a
      else BlockEnd(sql[a..b], i + BlockSkip(sql, i) - a, BlockDepth(sql, i, depth))
  {
    BlockStep(sql[a..b], i - a, depth);
    hide BlockEnd, BlockSkip, BlockDepth, BlockCloses;
    assert i - a + BlockSkip(sql, i) == i + BlockSkip(sql, i) - a;
  }

  lemma WindowQuotedStep(sql: string, a: nat, b: nat, i: nat, quote: char, escapes: bool)
    requires a <= i < b <= |sql| && !IsWhitespace(quote) && Fits(sql, b, QuotedEnd(sql, i, quote, escapes))
    ensures QuotedSkip(sql[a..b], i - a, quote, escapes) == QuotedSkip(sql, i, quote, escapes)
  {
    QuotedStep(sql, i, quote, escapes);
    hide QuotedEnd, IsWhitespace;
    var w := sql[a..b];
    assert w[i - a] == sql[i];
    if i + 1 < b {
      assert w[i + 1 - a] == sql[i + 1];
    }
    assert b < QuotedEnd(sql, i, quote, escapes) ==> IsWhitespace(sql[b]);
  }

  lemma {:induction false} WindowQuoted(sql: string, a: nat, b: nat, i: nat, quote: char, escapes: bool)
    requires a <= i && a <= b <= |sql| && !IsWhitespace(quote) && Fits(sql, b, QuotedEnd(sql, i, quote, escapes))
    ensures QuotedEnd(sql[a..b], i - a, quote, escapes) == Within(a, b, QuotedEnd(sql, i, quote, escapes))
    decreases |sql| - i
  {
    QuotedStep(sql, i, quote, escapes);
    if i < b {
      WindowQuotedStep(sql, a, b, i, quote, escapes);
      WindowQuotedGoes(sql, a, b, i, quote, escapes);
      hide Fits, QuotedEnd, QuotedSkip, IsWhitespace;
      var k := QuotedSkip(sql, i, quote, escapes);
      if k != 0 {
        WindowQuoted(sql, a, b, i + k, quote, escapes);
      }
    } else {
      QuotedStep(sql[a..b], i - a, quote, escapes);
      hide Fits, QuotedEnd, QuotedSkip, IsWhitespace;
    }
  }

  lemma WindowQuotedGoes(sql: string, a: nat, b: nat, i: nat, quote: char, escapes: bool)
    requires a <= i < b <= |sql|
    requires QuotedSkip(sql[a..b], i - a, quote, escapes) == QuotedSkip(sql, i, quote, escapes)
    ensures QuotedEnd(sql[a..b], i - a, quote, escapes) ==
      var k := QuotedSkip(sql, i, quote, escapes);
      if k == 0 then i + 1 - a else QuotedEnd(sql[a..b], i + k - a, quote, escapes)
  {
    QuotedStep(sql[a..b], i - a, quote, escapes);
    hide QuotedEnd, QuotedSkip;
    assert i - a + QuotedSkip(sql, i, quote, escapes) == i + QuotedSkip(sql, i, quote, escapes) - a;
  }

  lemma WindowStands(sql: string, a: nat, b: nat, i: nat, text: string)
    requires a <= i <= b <= |sql|
    ensures StandsAt(sql[a..b], i - a, text) <==> StandsAt(sql, i, text) && i + |text| <= b
  {
    if i + |text| <= b {
      SliceOfSlice(sql, a, b, i, i + |text|);
    }
  }

  lemma {:induction false} WindowClosing(sql: string, a: nat, b: nat, i: nat, tag: string)
    requires a <= i && a <= b <= |sql| && tag != "" && !IsWhitespace(tag[|tag| - 1])
    requires Fits(sql, b, ClosingEnd(sql, i, tag))
    ensures ClosingEnd(sql[a..b], i - a, tag) == Within(a, b, ClosingEnd(sql, i, tag))
    decreases |sql| - i
  {
    if i < b {
      WindowStands(sql, a, b, i, tag);
      if StandsAt(sql, i, tag) {
        assert sql[i + |tag| - 1] == sql[i..i + |tag|][|tag| - 1];
      } else {
        WindowClosing(sql, a, b, i + 1, tag);
      }
    }
  }

  lemma {:induction false} WindowTagWord(sql: string, a: nat, b: nat, i: nat)
    requires a <= i <= b <= |sql|
    ensures TagWordEnd(sql[a..b], i - a) == Within(a, b, TagWordEnd(sql, i))
    decreases b - i
  {
    if i < b && IsTagCharacter(sql[i]) {
      WindowTagWord(sql, a, b, i + 1);
    }
  }

  lemma WindowTag(sql: string, a: nat, b: nat, i: nat)
    requires a <= i < b <= |sql|
    ensures TagEnd(sql[a..b], i - a)
      == if TagEnd(sql, i).Some? && TagEnd(sql, i).value <= b then Some(TagEnd(sql, i).value - a) else None
  {
    if i + 1 < b {
      WindowTagWord(sql, a, b, i + 1);
    }
  }

  /** Before the window stands nothing that a string opened in it could take for a marker. */
  ghost predicate FreshAt(sql: string, a: nat)
    requires a <= |sql|
  {
    a > 0 ==> !IsWordCharacter(sql[a - 1])
  }

  lemma WindowEscape(sql: string, a: nat, b: nat, q: nat)
    requires a <= q < b <= |sql| && FreshAt(sql, a)
    ensures BackslashesEscape(sql[a..b], q - a) == BackslashesEscape(sql, q)
  {
  }

  lemma WindowDollar(sql: string, a: nat, b: nat, i: nat)
    requires a <= i < b <= |sql| && TagEnd(sql, i).Some? && TagEnd(sql, i).value <= b
    requires Fits(sql, b, ClosingEnd(sql, TagEnd(sql, i).value, sql[i..TagEnd(sql, i).value]))
    ensures var end, w := TagEnd(sql, i).value, sql[a..b];
            ClosingEnd(w, end - a, w[i - a..end - a]) == Within(a, b, ClosingEnd(sql, end, sql[i..end]))
  {
    var end := TagEnd(sql, i).value;
    SliceOfSlice(sql, a, b, i, end);
    WindowClosing(sql, a, b, end, sql[i..end]);
  }

  ghost predicate SameBoundary(sql: string, a: nat, b: nat, i: nat)
    requires a <= i < b <= |sql|
  {
    BoundaryAt(sql[a..b], i - a)
      == if BoundaryAt(sql, i).None? then None
         else Some(Boundary(BoundaryAt(sql, i).value.kind, Within(a, b, BoundaryAt(sql, i).value.end)))
  }

  lemma WindowComment(sql: string, a: nat, b: nat, i: nat)
    requires a <= i < b <= |sql| && (TwoAt(sql, i, '-', '-') || TwoAt(sql, i, '/', '*'))
    requires Fits(sql, b, BoundaryAt(sql, i).value.end)
    ensures SameBoundary(sql, a, b, i)
  {
    assert i + 1 < BoundaryAt(sql, i).value.end;
    assert i + 1 < b;
    if TwoAt(sql, i, '-', '-') {
      WindowLine(sql, a, b, i + 2);
    } else {
      WindowBlock(sql, a, b, i + 2, 1);
    }
  }

  lemma WindowString(sql: string, a: nat, b: nat, i: nat)
    requires a <= i < b <= |sql| && FreshAt(sql, a) && (sql[i] == '\'' || sql[i] == '"')
    requires Fits(sql, b, BoundaryAt(sql, i).value.end)
    ensures SameBoundary(sql, a, b, i)
  {
    WindowEscape(sql, a, b, i);
    WindowQuoted(sql, a, b, i + 1, sql[i], sql[i] == '\'' && BackslashesEscape(sql, i));
  }

  lemma WindowOther(sql: string, a: nat, b: nat, i: nat)
    requires a <= i < b <= |sql| && !TwoAt(sql, i, '-', '-') && !TwoAt(sql, i, '/', '*')
    requires sql[i] != '\'' && sql[i] != '"'
    requires BoundaryAt(sql, i).Some? ==> Fits(sql, b, BoundaryAt(sql, i).value.end)
    ensures SameBoundary(sql, a, b, i)
  {
    WindowTag(sql, a, b, i);
    if TagEnd(sql, i).Some? {
      assert sql[TagEnd(sql, i).value - 1] == '$';
      WindowDollar(sql, a, b, i);
    }
  }

  /** In the window a boundary begins where one begins in the text, of the same kind, and ends where that
      one does or with the window. */
  lemma WindowBoundary(sql: string, a: nat, b: nat, i: nat)
    requires a <= i < b <= |sql| && FreshAt(sql, a)
    requires BoundaryAt(sql, i).Some? ==> Fits(sql, b, BoundaryAt(sql, i).value.end)
    ensures SameBoundary(sql, a, b, i)
  {
    if TwoAt(sql, i, '-', '-') || TwoAt(sql, i, '/', '*') {
      WindowComment(sql, a, b, i);
    } else if sql[i] == '\'' || sql[i] == '"' {
      WindowString(sql, a, b, i);
    } else {
      WindowOther(sql, a, b, i);
    }
  }

  // ---- a statement cut out

  lemma PassedBoundary(sql: string, i: nat)
    requires i < |sql| && BoundaryAt(sql, i).Some?
    ensures NextSemicolon(sql, i) == NextSemicolon(sql, BoundaryAt(sql, i).value.end)
  {
  }

  lemma PassedCode(sql: string, i: nat)
    requires i < |sql| && BoundaryAt(sql, i).None?
    ensures NextSemicolon(sql, i) == if sql[i] == ';' then i else NextSemicolon(sql, i + 1)
  {
  }

  lemma WindowCode(sql: string, a: nat, b: nat, i: nat)
    requires a <= i < b <= |sql| && b <= NextSemicolon(sql, i) && FreshAt(sql, a) && BoundaryAt(sql, i).None?
    ensures NextSemicolon(sql, i) == NextSemicolon(sql, i + 1)
    ensures NextSemicolon(sql[a..b], i - a) == NextSemicolon(sql[a..b], i + 1 - a)
  {
    WindowBoundary(sql, a, b, i);
    PassedCode(sql, i);
    PassedCode(sql[a..b], i - a);
  }

  lemma WindowPassed(sql: string, a: nat, b: nat, i: nat)
    requires a <= i < b <= |sql| && FreshAt(sql, a) && BoundaryAt(sql, i).Some?
    requires Fits(sql, b, NextSemicolon(sql, i))
    ensures NextSemicolon(sql, i) == NextSemicolon(sql, BoundaryAt(sql, i).value.end)
    ensures NextSemicolon(sql[a..b], i - a)
      == NextSemicolon(sql[a..b], Within(a, b, BoundaryAt(sql, i).value.end))
  {
    hide BoundaryAt, TagEnd;
    PassedBoundary(sql, i);
    assert Fits(sql, b, BoundaryAt(sql, i).value.end);
    WindowBoundary(sql, a, b, i);
    PassedBoundary(sql[a..b], i - a);
  }

  /** From a code position inside, the window runs to its end without a semicolon in code. */
  lemma {:induction false} WindowStatement(sql: string, a: nat, b: nat, i: nat)
    requires a <= i <= b <= |sql| && b <= NextSemicolon(sql, i)
    requires FreshAt(sql, a) && Fits(sql, b, NextSemicolon(sql, i))
    ensures NextSemicolon(sql[a..b], i - a) == b - a
    decreases b - i
  {
    hide BoundaryAt, NextSemicolon;
    if i < b {
      if BoundaryAt(sql, i).None? {
        WindowCode(sql, a, b, i);
        WindowStatement(sql, a, b, i + 1);
      } else {
        var end := BoundaryAt(sql, i).value.end;
        WindowPassed(sql, a, b, i);
        if end <= b {
          WindowStatement(sql, a, b, end);
        }
      }
    }
  }

  lemma WhitespaceIsCode(sql: string, i: nat)
    requires i < |sql| && IsWhitespace(sql[i])
    ensures BoundaryAt(sql, i).None? && NextSemicolon(sql, i) == NextSemicolon(sql, i + 1)
  {
  }

  lemma {:induction false} TrimStartDrops(s: string) returns (k: nat)
    ensures k <= |s| && TrimStart(s) == s[k..] && (forall j | 0 <= j < k :: IsWhitespace(s[j]))
    ensures k < |s| ==> !IsWhitespace(s[k])
  {
    if s != "" && IsWhitespace(s[0]) {
      k := TrimStartDrops(s[1..]);
      assert s[1..][k..] == s[k + 1..];
      k := k + 1;
    } else {
      k := 0;
    }
  }

  lemma {:induction false} TrimEndDrops(s: string) returns (k: nat)
    ensures k <= |s| && TrimEnd(s) == s[..k] && (forall j | k <= j < |s| :: IsWhitespace(s[j]))
    ensures k > 0 ==> !IsWhitespace(s[k - 1])
  {
    if s != "" && IsWhitespace(s[|s| - 1]) {
      k := TrimEndDrops(s[..|s| - 1]);
      assert s[..|s| - 1][..k] == s[..k];
    } else {
      k := |s|;
    }
  }

  lemma TrimmedStays(t: string)
    requires t != "" && !IsWhitespace(t[0]) && !IsWhitespace(t[|t| - 1])
    ensures Trim(t) == t
  {
  }

  lemma {:induction false} SkipWhitespace(sql: string, i: nat, a: nat)
    requires i <= a <= |sql| && forall j | i <= j < a :: IsWhitespace(sql[j])
    ensures NextSemicolon(sql, i) == NextSemicolon(sql, a)
    decreases a - i
  {
    hide BoundaryAt;
    if i < a {
      WhitespaceIsCode(sql, i);
      SkipWhitespace(sql, i + 1, a);
    }
  }

  /** Where a trimmed piece lies in the text. */
  lemma TrimmedPiece(sql: string, start: nat, end: nat) returns (a: nat, b: nat)
    requires start <= end <= |sql|
    ensures start <= a <= b <= end && Trim(sql[start..end]) == sql[a..b]
    ensures (forall j | start <= j < a :: IsWhitespace(sql[j])) && (forall j | b <= j < end :: IsWhitespace(sql[j]))
    ensures a < b ==> !IsWhitespace(sql[a]) && !IsWhitespace(sql[b - 1])
  {
    hide TrimStart, TrimEnd, IsWhitespace;
    var piece := sql[start..end];
    var k := TrimStartDrops(piece);
    var m := TrimEndDrops(piece[k..]);
    a, b := start + k, start + k + m;
    assert piece[k..] == sql[a..end] && piece[k..][..m] == sql[a..b];
    assert forall j | start <= j < a :: sql[j] == piece[j - start];
    assert forall j | b <= j < end :: sql[j] == piece[k..][j - a];
  }

  lemma OnePiece(t: string)
    requires t != "" && !IsWhitespace(t[0]) && !IsWhitespace(t[|t| - 1]) && NextSemicolon(t, 0) == |t|
    ensures Statements(t) == [t]
  {
    hide BoundaryAt;
    TrimmedStays(t);
    assert t[0..] == t;
    assert Pieces(t, 0, 0) == [t];
    assert Kept([t]) == [t] + Kept([]);
  }

  /** Every semicolon stands in a comment, a string, a quoted identifier or a dollar-quoted body. */
  predicate NoSemicolonIn(regions: seq<Region>) {
    forall r | r in regions && r.kind == Code :: ';' !in r.text
  }

  ghost predicate StandsAlone(t: string) {
    Statements(t) == [t] && NoSemicolonIn(Regions(t))
  }

  lemma {:induction false} NoneInTheCode(sql: string, i: nat, end: nat)
    requires i <= end <= |sql| && NextSemicolon(sql, i) == |sql| && AllCode(sql, i, end)
    ensures NextSemicolon(sql, end) == |sql| && forall j | i <= j < end :: sql[j] != ';'
    decreases end - i
  {
    hide BoundaryAt;
    if i < end {
      NoneInTheCode(sql, i + 1, end);
    }
  }

  lemma {:induction false} NoneInTheRegions(sql: string, i: nat)
    requires i <= |sql| && NextSemicolon(sql, i) == |sql|
    ensures NoSemicolonIn(RegionsFrom(sql, i, i))
    decreases |sql| - i
  {
    hide BoundaryAt, RegionsFrom, NextSemicolon;
    if i < |sql| {
      var end := FirstRegion(sql, i, i);
      var rs := RegionsFrom(sql, i, i);
      if rs[0].kind == Code {
        NoneInTheCode(sql, i, end);
      } else {
        SemicolonAfterBoundary(sql, i);
      }
      NoneInTheRegions(sql, end);
      assert rs == [rs[0]] + rs[1..];
    } else {
      RegionsStep(sql, i, i);
    }
  }

  /** The piece from start, trimmed, is nothing or is one statement by itself. */
  lemma PieceStandsAlone(sql: string, start: nat)
    requires start <= |sql| && FreshAt(sql, start)
    ensures var t := Trim(sql[start..NextSemicolon(sql, start)]); t != "" ==> StandsAlone(t)
  {
    hide BoundaryAt, NextSemicolon, Statements;
    var end := NextSemicolon(sql, start);
    var a, b := TrimmedPiece(sql, start, end);
    if a < b {
      var t := sql[a..b];
      SkipWhitespace(sql, start, a);
      WindowStatement(sql, a, b, a);
      assert t[0] == sql[a] && t[|t| - 1] == sql[b - 1];
      OnePiece(t);
      NoneInTheRegions(t, 0);
    }
  }

  lemma {:induction false} PiecesStandAlone(sql: string, start: nat)
    requires start <= |sql| && FreshAt(sql, start)
    ensures forall t | t in Kept(Pieces(sql, start, start)) :: StandsAlone(t)
    decreases |sql| - start
  {
    hide BoundaryAt, StandsAlone, NextSemicolon, Kept, Trim, FreshAt;
    var end := NextSemicolon(sql, start);
    PieceStandsAlone(sql, start);
    if end < |sql| {
      FreshAfterSemicolon(sql, end);
      PiecesStandAlone(sql, end + 1);
      KeptOfMore(sql[start..end], Pieces(sql, end + 1, end + 1));
    } else {
      assert sql[start..] == sql[start..|sql|];
      KeptOfMore(sql[start..], []);
      assert [sql[start..]] + [] == [sql[start..]];
    }
  }

  lemma FreshAfterSemicolon(sql: string, end: nat)
    requires end < |sql| && sql[end] == ';'
    ensures FreshAt(sql, end + 1)
  {
  }

  lemma KeptOfMore(first: string, rest: seq<string>)
    ensures forall t | t in Kept([first] + rest) :: (t == Trim(first) && t != "") || t in Kept(rest)
    ensures Kept([]) == []
  {
    hide Trim;
    assert ([first] + rest)[1..] == rest;
  }

  /** Each statement, split again, is that statement alone, and none of its code holds a semicolon. */
  lemma StatementsStandAlone(sql: string)
    ensures forall t | t in Statements(sql) :: Statements(t) == [t]
    ensures forall t | t in Statements(sql) :: NoSemicolonIn(Regions(t))
  {
    PiecesStandAlone(sql, 0);
  }
}

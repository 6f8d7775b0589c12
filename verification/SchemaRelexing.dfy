/** Which schema names leave the regions of a rewritten migration where they were. */
module SchemaRelexing {
  import opened LetterCase
  import opened Options
  import opened SchemaRewrite
  import opened Sequences
  import opened SqlRegions

  // ---- where a boundary begins, read from the rest of the text

  /** The first character that is no tag character. */
  function StopCharacter(s: string): Option<char> {
    if s == "" then None else if IsTagCharacter(s[0]) then StopCharacter(s[1..]) else Some(s[0])
  }

  /** What follows a dollar sign completes a tag. */
  predicate Closes(s: string) {
    s != "" && (s[0] == '$' || (IsWordStart(s[0]) && StopCharacter(s) == Some('$')))
  }

  predicate Opens(s: string) {
    || TwoAt(s, 0, '-', '-') || TwoAt(s, 0, '/', '*')
    || (s != "" && (s[0] == '\'' || s[0] == '"' || (s[0] == '$' && Closes(s[1..]))))
  }

  lemma {:induction false} StopMeaning(sql: string, i: nat)
    requires i <= |sql|
    ensures var end := TagWordEnd(sql, i);
            StopCharacter(sql[i..]) == if end < |sql| then Some(sql[end]) else None
    decreases |sql| - i
  {
    if i < |sql| && IsTagCharacter(sql[i]) {
      StopMeaning(sql, i + 1);
      assert sql[i..][1..] == sql[i + 1..];
    }
  }

  lemma OpensMeaning(sql: string, i: nat)
    requires i < |sql|
    ensures BoundaryAt(sql, i).Some? <==> Opens(sql[i..])
  {
    hide LineEnd, BlockEnd, QuotedEnd, ClosingEnd, BackslashesEscape;
    if i + 1 < |sql| {
      assert sql[i..][1..] == sql[i + 1..];
      StopMeaning(sql, i + 1);
    }
  }

  // ---- a plain schema name

  predicate IsSchemaName(s: string) {
    s != "" && s[0] in "abcdefghijklmnopqrstuvwxyz_" && forall i | 0 <= i < |s| ::
      'a' <= s[i] <= 'z' || '0' <= s[i] <= '9' || s[i] == '_' || s[i] == '$'
  }

  predicate LexesAlone(s: string) {
    '$' !in s && s != "e"
  }

  ghost predicate Plain(s: string) {
    s != "" && IsWordStart(s[0]) && (forall i | 0 <= i < |s| :: IsTagCharacter(s[i])) && s != "e" && s != "E"
  }

  // ---- code stays code

  ghost predicate NoneOpens(code: string, rest: string) {
    forall j | 0 <= j < |code| :: !Opens(code[j..] + rest)
  }

  /** Two rests that begin alike, as far as what stands before them can tell. */
  ghost predicate Alike(s: string, t: string) {
    && (s == "" <==> t == "") && StopCharacter(s) == StopCharacter(t)
    && (s != "" ==> s[0] == t[0] || (IsWordStart(s[0]) && IsWordStart(t[0])))
  }

  /** Rests at which a word has ended. */
  ghost predicate Stops(s: string, t: string) {
    Alike(s, t) && (s != "" ==> s[0] == t[0] && !IsTagCharacter(s[0]))
  }

  lemma {:induction false} StopAfter(u: string, s: string, t: string)
    requires StopCharacter(s) == StopCharacter(t)
    ensures StopCharacter(u + s) == StopCharacter(u + t)
  {
    if u == "" {
      assert u + s == s && u + t == t;
    } else {
      StopAfter(u[1..], s, t);
      assert (u + s)[1..] == u[1..] + s && (u + t)[1..] == u[1..] + t;
    }
  }

  lemma {:induction false} StopBeyond(u: string, s: string)
    requires forall i | 0 <= i < |u| :: IsTagCharacter(u[i])
    ensures StopCharacter(u + s) == StopCharacter(s)
  {
    if u == "" {
      assert u + s == s;
    } else {
      assert (u + s)[1..] == u[1..] + s;
      StopBeyond(u[1..], s);
    }
  }

  lemma ClosesAlike(s: string, t: string)
    requires Alike(s, t)
    ensures Closes(s) == Closes(t)
  {
  }

  /** One character before the rests. */
  lemma OneBefore(c: char, s: string, t: string)
    requires Alike(s, t)
    ensures Opens([c] + s) == Opens([c] + t)
    ensures Alike([c] + s, [c] + t)
  {
    ClosesAlike(s, t);
    assert ([c] + s)[1..] == s && ([c] + t)[1..] == t;
    StopAfter([c], s, t);
  }

  lemma WordOpensAlike(word: string, k: nat, s: string, t: string)
    requires k < |word| && Alike(s, t) && !Opens(word[k..] + s) && IsWordCharacter(word[k])
    ensures !Opens(word[k..] + t)
  {
    hide Closes, StopCharacter;
    var u := word[k + 1..];
    assert word[k..] + s == [word[k]] + (u + s) && word[k..] + t == [word[k]] + (u + t);
    assert ([word[k]] + (u + s))[1..] == u + s && ([word[k]] + (u + t))[1..] == u + t;
    PrefixAlike(u, s, t);
    ClosesAlike(u + s, u + t);
  }

  lemma PrefixAlike(u: string, s: string, t: string)
    requires Alike(s, t)
    ensures Alike(u + s, u + t)
  {
    StopAfter(u, s, t);
    if u == "" {
      assert u + s == s && u + t == t;
    }
  }

  lemma TagCharactersOpenNothing(u: string, k: nat, t: string)
    requires k < |u| && forall i | 0 <= i < |u| :: IsTagCharacter(u[i])
    ensures !Opens(u[k..] + t)
  {
    assert (u[k..] + t)[0] == u[k];
  }

  /** The parts of the code at i: what stands before each rest, and the rests. */
  lemma CodeParts(code: string, i: nat, schema: string, t: TrackerState, rest: string, newRest: string)
    requires i < |code|
    ensures !IsWordStart(code[i]) ==>
      code[i..] + rest == [code[i]] + (code[i + 1..] + rest)
      && Rewritten(code, i, schema, t) + newRest == [code[i]] + (Rewritten(code, i + 1, schema, t) + newRest)
    ensures IsWordStart(code[i]) ==>
      var end := WordEnd(code, i); var word := code[i..end];
      code[i..] + rest == word + (code[end..] + rest)
      && Rewritten(code, i, schema, t) + newRest
         == (if Replaces(code, i, t) then schema else word) + (Rewritten(code, end, schema, AfterWord(t, word)) + newRest)
  {
    hide Replaces, AfterWord;
  }

  lemma ShippedWordHasNoDollar(code: string, i: nat, t: TrackerState)
    requires i <= |code| && Replaces(code, i, t)
    ensures var end := WordEnd(code, i); end == i + 5 && forall k | i <= k < end :: IsTagCharacter(code[k])
  {
    var end := WordEnd(code, i);
    var word := code[i..end];
    assert |Lower(word)| == 5;
    forall k | 0 <= k < 5
      ensures IsTagCharacter(word[k])
    {
      assert Lower(word)[k] == LowerChar(word[k]);
    }
    assert forall k | i <= k < end :: code[k] == word[k - i];
  }

  /** Rewritten code begins as the code did, for what stands before it. */
  lemma {:induction false} CodeAlike(code: string, i: nat, schema: string, t: TrackerState, rest: string, newRest: string)
    requires i <= |code| && Plain(schema) && Stops(rest, newRest)
    ensures Alike(code[i..] + rest, Rewritten(code, i, schema, t) + newRest)
    ensures i == |code| || !IsTagCharacter(code[i]) ==> Stops(code[i..] + rest, Rewritten(code, i, schema, t) + newRest)
    decreases |code| - i
  {
    hide Replaces, AfterWord, StopCharacter;
    if i == |code| {
      assert code[i..] + rest == rest && "" + newRest == newRest;
    } else {
      CodeParts(code, i, schema, t, rest, newRest);
      if !IsWordStart(code[i]) {
        CodeAlike(code, i + 1, schema, t, rest, newRest);
        OneBefore(code[i], code[i + 1..] + rest, Rewritten(code, i + 1, schema, t) + newRest);
      } else {
        WordAlike(code, i, schema, t, rest, newRest);
      }
    }
  }

  lemma {:induction false} WordAlike(code: string, i: nat, schema: string, t: TrackerState, rest: string, newRest: string)
    requires i < |code| && IsWordStart(code[i]) && Plain(schema) && Stops(rest, newRest)
    ensures Alike(code[i..] + rest, Rewritten(code, i, schema, t) + newRest)
    decreases |code| - i, 0
  {
    hide Replaces, AfterWord, StopCharacter;
    var end := WordEnd(code, i);
    var word := code[i..end];
    var next := AfterWord(t, word);
    CodeParts(code, i, schema, t, rest, newRest);
    CodeAlike(code, end, schema, next, rest, newRest);
    var s, n := code[end..] + rest, Rewritten(code, end, schema, next) + newRest;
    if Replaces(code, i, t) {
      ShippedWordHasNoDollar(code, i, t);
      assert forall k | 0 <= k < |word| :: word[k] == code[i + k];
      StopBeyond(word, s);
      StopBeyond(schema, n);
    } else {
      PrefixAlike(word, s, n);
    }
  }

  lemma TailOpens(code: string, i: nat, rest: string, j: nat)
    requires i <= j < |code| && NoneOpens(code[i..], rest)
    ensures !Opens(code[j..] + rest)
  {
    assert code[i..][j - i..] == code[j..];
  }

  lemma {:induction false} FromNoneOpens(code: string, i: nat, j: nat, rest: string)
    requires i <= j <= |code| && NoneOpens(code[i..], rest)
    ensures NoneOpens(code[j..], rest)
  {
    hide Opens;
    forall k | 0 <= k < |code[j..]|
      ensures !Opens(code[j..][k..] + rest)
    {
      TailOpens(code, i, rest, j + k);
      assert code[j..][k..] == code[j + k..];
    }
  }

  /** Nothing opens in a prefix and nothing in what follows it. */
  lemma NoneOpensJoin(u: string, v: string, rest: string)
    requires NoneOpens(v, rest) && forall k | 0 <= k < |u| :: !Opens(u[k..] + (v + rest))
    ensures NoneOpens(u + v, rest)
  {
    hide Opens;
    forall k | 0 <= k < |u + v|
      ensures !Opens((u + v)[k..] + rest)
    {
      if k < |u| {
        assert (u + v)[k..] + rest == u[k..] + (v + rest);
      } else {
        assert (u + v)[k..] == v[k - |u|..];
      }
    }
  }

  /** Code in which nothing opens is rewritten to code in which nothing opens. */
  lemma {:induction false} CodeStaysCode(code: string, i: nat, schema: string, t: TrackerState, rest: string, newRest: string)
    requires i <= |code| && Plain(schema) && Stops(rest, newRest) && NoneOpens(code[i..], rest)
    ensures NoneOpens(Rewritten(code, i, schema, t), newRest)
    decreases |code| - i
  {
    hide Replaces, AfterWord, StopCharacter, Opens, Alike, Stops, NoneOpens, Plain;
    if i == |code| {
      NothingOpensInNothing(newRest);
    } else if !IsWordStart(code[i]) {
      FromNoneOpens(code, i, i + 1, rest);
      CodeStaysCode(code, i + 1, schema, t, rest, newRest);
      CharacterStaysCode(code, i, schema, t, rest, newRest);
    } else {
      var end := WordEnd(code, i);
      FromNoneOpens(code, i, end, rest);
      CodeStaysCode(code, end, schema, AfterWord(t, code[i..end]), rest, newRest);
      WordStaysCode(code, i, schema, t, rest, newRest);
    }
  }

  lemma NothingOpensInNothing(rest: string)
    ensures NoneOpens("", rest)
  {
  }

  lemma CharacterStaysCode(code: string, i: nat, schema: string, t: TrackerState, rest: string, newRest: string)
    requires i < |code| && !IsWordStart(code[i]) && Plain(schema) && Stops(rest, newRest) && NoneOpens(code[i..], rest)
    requires NoneOpens(Rewritten(code, i + 1, schema, t), newRest)
    ensures NoneOpens(Rewritten(code, i, schema, t), newRest)
  {
    hide Replaces, AfterWord, StopCharacter, Opens;
    var v := Rewritten(code, i + 1, schema, t);
    CodeParts(code, i, schema, t, rest, newRest);
    CodeAlike(code, i + 1, schema, t, rest, newRest);
    OneBefore(code[i], code[i + 1..] + rest, v + newRest);
    TailOpens(code, i, rest, i);
    assert [code[i]][0..] == [code[i]];
    NoneOpensJoin([code[i]], v, newRest);
  }

  lemma WordStaysCode(code: string, i: nat, schema: string, t: TrackerState, rest: string, newRest: string)
    requires i < |code| && IsWordStart(code[i]) && Plain(schema) && Stops(rest, newRest) && NoneOpens(code[i..], rest)
    requires NoneOpens(Rewritten(code, WordEnd(code, i), schema, AfterWord(t, code[i..WordEnd(code, i)])), newRest)
    ensures NoneOpens(Rewritten(code, i, schema, t), newRest)
  {
    hide Replaces, AfterWord, StopCharacter, Opens;
    var end := WordEnd(code, i);
    var word := code[i..end];
    var v := Rewritten(code, end, schema, AfterWord(t, word));
    if Replaces(code, i, t) {
      forall k | 0 <= k < |schema|
        ensures !Opens(schema[k..] + (v + newRest))
      {
        TagCharactersOpenNothing(schema, k, v + newRest);
      }
      NoneOpensJoin(schema, v, newRest);
    } else {
      CodeAlike(code, end, schema, AfterWord(t, word), rest, newRest);
      forall k | 0 <= k < |word|
        ensures !Opens(word[k..] + (v + newRest))
      {
        TailOpens(code, i, rest, i + k);
        assert code[i + k..] + rest == word[k..] + (code[end..] + rest);
        WordOpensAlike(word, k, code[end..] + rest, v + newRest);
      }
      NoneOpensJoin(word, v, newRest);
    }
  }

  // ---- every other region stays what it is

  /** Two texts hold the same characters from i to e of the first, d further on in the second, and end
      there together or not at all. */
  ghost predicate Same(sql: string, out: string, d: int, i: nat, e: nat) {
    && e <= |sql| && 0 <= i + d && e + d <= |out| && (e == |sql| <==> e + d == |out|)
    && forall k | i <= k < e :: sql[k] == out[k + d]
  }

  lemma {:induction false} SameLine(sql: string, out: string, d: int, i: nat)
    requires i <= |sql| && Same(sql, out, d, i, LineEnd(sql, i))
    ensures LineEnd(out, i + d) == LineEnd(sql, i) + d
    decreases |sql| - i
  {
    if i < |sql| && sql[i] != '\n' {
      SameLine(sql, out, d, i + 1);
    }
  }

  lemma SameLater(sql: string, out: string, d: int, i: nat, j: nat, e: nat)
    requires Same(sql, out, d, i, e) && i <= j
    ensures Same(sql, out, d, j, e)
  {
  }

  lemma SameEnds(sql: string, out: string, d: int, i: nat, e: nat)
    requires Same(sql, out, d, i, e)
    ensures e + d <= |out| && (e == |sql| <==> e + d == |out|)
  {
  }

  lemma SameBlockStep(sql: string, out: string, d: int, i: nat, depth: int)
    requires i < |sql| && Same(sql, out, d, i, BlockEnd(sql, i, depth))
    ensures BlockSkip(out, i + d) == BlockSkip(sql, i) && BlockDepth(out, i + d, depth) == BlockDepth(sql, i, depth)
    ensures BlockCloses(out, i + d, depth) == BlockCloses(sql, i, depth) && i + d < |out|
  {
    BlockStep(sql, i, depth);
    hide BlockEnd;
    assert sql[i] == out[i + d];
    assert i + 1 < |sql| ==> sql[i + 1] == out[i + 1 + d];
  }

  lemma {:induction false} SameBlock(sql: string, out: string, d: int, i: nat, depth: int)
    requires 0 <= i + d && Same(sql, out, d, i, BlockEnd(sql, i, depth))
    ensures BlockEnd(out, i + d, depth) == BlockEnd(sql, i, depth) + d
    decreases |sql| - i
  {
    BlockStep(sql, i, depth);
    BlockStep(out, i + d, depth);
    SameEnds(sql, out, d, i, BlockEnd(sql, i, depth));
    hide BlockEnd, BlockSkip, BlockDepth, BlockCloses, Same;
    if i < |sql| {
      SameBlockStep(sql, out, d, i, depth);
      assert i + d + BlockSkip(sql, i) == i + BlockSkip(sql, i) + d;
      if !BlockCloses(sql, i, depth) {
        SameLater(sql, out, d, i, i + BlockSkip(sql, i), BlockEnd(sql, i, depth));
        SameBlock(sql, out, d, i + BlockSkip(sql, i), BlockDepth(sql, i, depth));
      }
    }
  }

  lemma SameQuotedStep(sql: string, out: string, d: int, i: nat, quote: char, escapes: bool)
    requires i < |sql| && Same(sql, out, d, i, QuotedEnd(sql, i, quote, escapes))
    requires var e := QuotedEnd(sql, i, quote, escapes); e < |sql| ==> out[e + d] != quote
    ensures i + d < |out| && QuotedSkip(out, i + d, quote, escapes) == QuotedSkip(sql, i, quote, escapes)
  {
    QuotedStep(sql, i, quote, escapes);
    hide QuotedEnd;
    assert sql[i] == out[i + d];
    assert i + 1 < QuotedEnd(sql, i, quote, escapes) ==> sql[i + 1] == out[i + 1 + d];
  }

  lemma SameQuotedGoes(sql: string, out: string, d: int, i: nat, quote: char, escapes: bool)
    requires i < |sql| && 0 <= i + d < |out|
    requires QuotedSkip(out, i + d, quote, escapes) == QuotedSkip(sql, i, quote, escapes)
    ensures var k := QuotedSkip(sql, i, quote, escapes);
            && QuotedEnd(sql, i, quote, escapes) == (if k == 0 then i + 1 else QuotedEnd(sql, i + k, quote, escapes))
            && QuotedEnd(out, i + d, quote, escapes)
            == (if k == 0 then i + d + 1 else QuotedEnd(out, i + k + d, quote, escapes))
  {
    QuotedStep(sql, i, quote, escapes);
    QuotedStep(out, i + d, quote, escapes);
    hide QuotedEnd, QuotedSkip;
    assert i + d + QuotedSkip(sql, i, quote, escapes) == i + QuotedSkip(sql, i, quote, escapes) + d;
  }

  lemma {:induction false} SameQuoted(sql: string, out: string, d: int, i: nat, quote: char, escapes: bool)
    requires 0 <= i + d && Same(sql, out, d, i, QuotedEnd(sql, i, quote, escapes))
    requires var e := QuotedEnd(sql, i, quote, escapes); e < |sql| ==> out[e + d] != quote
    ensures QuotedEnd(out, i + d, quote, escapes) == QuotedEnd(sql, i, quote, escapes) + d
    decreases |sql| - i
  {
    if i < |sql| {
      SameQuotedStep(sql, out, d, i, quote, escapes);
      SameQuotedGoes(sql, out, d, i, quote, escapes);
      hide QuotedEnd, QuotedSkip, Same;
      var k := QuotedSkip(sql, i, quote, escapes);
      if k != 0 {
        SameLater(sql, out, d, i, i + k, QuotedEnd(sql, i, quote, escapes));
        SameQuoted(sql, out, d, i + k, quote, escapes);
      }
    } else {
      SameEnds(sql, out, d, i, |sql|);
    }
  }

  lemma {:induction false} SameTagWord(sql: string, out: string, d: int, i: nat, e: nat)
    requires i <= |sql| && TagWordEnd(sql, i) < e && Same(sql, out, d, i, e)
    ensures TagWordEnd(out, i + d) == TagWordEnd(sql, i) + d
    decreases |sql| - i
  {
    if i < |sql| && IsTagCharacter(sql[i]) {
      SameTagWord(sql, out, d, i + 1, e);
    }
  }

  lemma SameTag(sql: string, out: string, d: int, i: nat, e: nat)
    requires TagEnd(sql, i).Some? && TagEnd(sql, i).value <= e && Same(sql, out, d, i, e)
    ensures TagEnd(out, i + d) == Some(TagEnd(sql, i).value + d)
    ensures out[i + d..TagEnd(sql, i).value + d] == sql[i..TagEnd(sql, i).value]
  {
    if sql[i + 1] != '$' {
      SameTagWord(sql, out, d, i + 1, e);
    }
  }

  lemma {:induction false} ClosingIsFar(sql: string, i: nat, tag: string)
    requires i <= |sql|
    ensures ClosingEnd(sql, i, tag) < |sql| ==> i + |tag| <= ClosingEnd(sql, i, tag)
    decreases |sql| - i
  {
    if i < |sql| && !StandsAt(sql, i, tag) {
      ClosingIsFar(sql, i + 1, tag);
    }
  }

  lemma SameStands(sql: string, out: string, d: int, i: nat, e: nat, tag: string)
    requires i <= e && Same(sql, out, d, i, e) && (i + |tag| <= e || e == |sql|)
    ensures StandsAt(out, i + d, tag) == StandsAt(sql, i, tag)
  {
    if i + |tag| <= e {
      assert out[i + d..i + d + |tag|] == sql[i..i + |tag|];
    }
  }

  lemma {:induction false} SameClosing(sql: string, out: string, d: int, i: nat, tag: string)
    requires i <= |sql| && Same(sql, out, d, i, ClosingEnd(sql, i, tag))
    ensures ClosingEnd(out, i + d, tag) == ClosingEnd(sql, i, tag) + d
    decreases |sql| - i
  {
    if i < |sql| {
      ClosingIsFar(sql, i, tag);
      SameStands(sql, out, d, i, ClosingEnd(sql, i, tag), tag);
      if !StandsAt(sql, i, tag) {
        SameClosing(sql, out, d, i + 1, tag);
      }
    }
  }

  lemma {:induction false} QuotedStops(sql: string, i: nat, quote: char, escapes: bool)
    ensures var e := QuotedEnd(sql, i, quote, escapes); e < |sql| ==> sql[e] != quote
    decreases |sql| - i
  {
    if i < |sql| {
      if escapes && sql[i] == '\\' {
        QuotedStops(sql, i + 2, quote, escapes);
      } else if sql[i] != quote {
        QuotedStops(sql, i + 1, quote, escapes);
      } else if i + 1 < |sql| && sql[i + 1] == quote {
        QuotedStops(sql, i + 2, quote, escapes);
      }
    }
  }

  /** What follows the boundary is what followed it, or begins a word in both texts. */
  ghost predicate FollowedAlike(sql: string, out: string, d: int, e: nat) {
    e < |sql| && 0 <= e + d < |out| ==> out[e + d] == sql[e] || IsWordStart(out[e + d])
  }

  lemma SameComment(sql: string, out: string, d: int, p: nat)
    requires p < |sql| && BoundaryAt(sql, p).Some? && Same(sql, out, d, p, BoundaryAt(sql, p).value.end)
    requires TwoAt(sql, p, '-', '-') || TwoAt(sql, p, '/', '*')
    ensures BoundaryAt(out, p + d) == Some(Boundary(BoundaryAt(sql, p).value.kind, BoundaryAt(sql, p).value.end + d))
  {
    hide LineEnd, BlockEnd, QuotedEnd, TagEnd, ClosingEnd, BackslashesEscape;
    var e := BoundaryAt(sql, p).value.end;
    assert sql[p] == out[p + d] && sql[p + 1] == out[p + 1 + d];
    SameLater(sql, out, d, p, p + 2, e);
    hide Same;
    if TwoAt(sql, p, '-', '-') {
      SameLine(sql, out, d, p + 2);
    } else {
      SameBlock(sql, out, d, p + 2, 1);
    }
  }

  lemma SameString(sql: string, out: string, d: int, p: nat)
    requires p < |sql| && BoundaryAt(sql, p).Some? && Same(sql, out, d, p, BoundaryAt(sql, p).value.end)
    requires FollowedAlike(sql, out, d, BoundaryAt(sql, p).value.end)
    requires BackslashesEscape(sql, p) == BackslashesEscape(out, p + d)
    requires sql[p] == '\'' || sql[p] == '"'
    ensures BoundaryAt(out, p + d) == Some(Boundary(BoundaryAt(sql, p).value.kind, BoundaryAt(sql, p).value.end + d))
  {
    hide LineEnd, BlockEnd, QuotedEnd, TagEnd, ClosingEnd, BackslashesEscape;
    var e, escapes := BoundaryAt(sql, p).value.end, sql[p] == '\'' && BackslashesEscape(sql, p);
    assert sql[p] == out[p + d];
    SameLater(sql, out, d, p, p + 1, e);
    hide Same;
    QuotedStops(sql, p + 1, sql[p], escapes);
    SameQuoted(sql, out, d, p + 1, sql[p], escapes);
  }

  lemma SameRegion(sql: string, out: string, d: int, p: nat)
    requires p < |sql| && BoundaryAt(sql, p).Some? && Same(sql, out, d, p, BoundaryAt(sql, p).value.end)
    requires FollowedAlike(sql, out, d, BoundaryAt(sql, p).value.end)
    requires BackslashesEscape(sql, p) == BackslashesEscape(out, p + d)
    ensures BoundaryAt(out, p + d) == Some(Boundary(BoundaryAt(sql, p).value.kind, BoundaryAt(sql, p).value.end + d))
  {
    hide BackslashesEscape, ClosingEnd, LineEnd, BlockEnd, QuotedEnd, TagEnd;
    if TwoAt(sql, p, '-', '-') || TwoAt(sql, p, '/', '*') {
      SameComment(sql, out, d, p);
    } else if sql[p] == '\'' || sql[p] == '"' {
      SameString(sql, out, d, p);
    } else {
      assert sql[p] == out[p + d];
      SameTag(sql, out, d, p, BoundaryAt(sql, p).value.end);
      SameClosing(sql, out, d, TagEnd(sql, p).value, sql[p..TagEnd(sql, p).value]);
    }
  }

  /** A region that something follows has two characters at least. */
  lemma ClosedIsLong(sql: string, p: nat)
    requires p < |sql| && BoundaryAt(sql, p).Some? && BoundaryAt(sql, p).value.end < |sql|
    ensures BoundaryAt(sql, p).value.end >= p + 2
  {
  }

  // ---- what a string sees before it

  /** The text ends as an escape string's marker does. */
  predicate Marks(s: string) {
    s != "" && s[|s| - 1] in ['E', 'e'] && !(|s| >= 2 && IsWordCharacter(s[|s| - 2]))
  }

  ghost predicate EndAlike(s: string, t: string) {
    (s == "" <==> t == "") && (s != "" ==> s[|s| - 1] == t[|t| - 1])
  }

  lemma {:induction false} MarksAlike(code: string, i: nat, schema: string, t: TrackerState, before: string, newBefore: string)
    requires i <= |code| && Plain(schema) && Marks(before) == Marks(newBefore)
    requires i < |code| && IsWordStart(code[i]) ==> EndAlike(before, newBefore)
    ensures Marks(before + code[i..]) == Marks(newBefore + Rewritten(code, i, schema, t))
    decreases |code| - i
  {
    hide Replaces, AfterWord, Marks, Plain;
    if i == |code| {
      assert before + code[i..] == before && newBefore + "" == newBefore;
    } else if !IsWordStart(code[i]) {
      CharacterMarksAlike(before, newBefore, code[i]);
      MarksAlike(code, i + 1, schema, t, before + [code[i]], newBefore + [code[i]]);
      assert before + code[i..] == before + [code[i]] + code[i + 1..];
      Associate(newBefore, [code[i]], Rewritten(code, i + 1, schema, t));
    } else {
      var end := WordEnd(code, i);
      var word := code[i..end];
      var put := if Replaces(code, i, t) then schema else word;
      WordMarksAlike(code, i, schema, t, before, newBefore);
      MarksAlike(code, end, schema, AfterWord(t, word), before + word, newBefore + put);
      assert before + code[i..] == before + word + code[end..];
      Associate(newBefore, put, Rewritten(code, end, schema, AfterWord(t, word)));
    }
  }

  lemma CharacterMarksAlike(before: string, newBefore: string, c: char)
    requires !IsWordStart(c)
    ensures !Marks(before + [c]) && !Marks(newBefore + [c]) && EndAlike(before + [c], newBefore + [c])
  {
  }

  lemma LastTwoMark(before: string, u: string)
    requires |u| >= 2
    ensures Marks(before + u) == Marks(u)
  {
  }

  lemma LastOneMarks(before: string, u: string)
    requires |u| == 1
    ensures Marks(before + u) <==> u[0] in ['E', 'e'] && !(before != "" && IsWordCharacter(before[|before| - 1]))
  {
  }

  lemma SchemaMarksNothing(before: string, schema: string)
    requires Plain(schema)
    ensures !Marks(before + schema)
  {
    if |schema| >= 2 {
      LastTwoMark(before, schema);
    } else {
      LastOneMarks(before, schema);
      assert schema == [schema[0]];
      assert schema[0] == 'e' ==> schema == "e";
      assert schema[0] == 'E' ==> schema == "E";
    }
  }

  lemma WordMarksAlike(code: string, i: nat, schema: string, t: TrackerState, before: string, newBefore: string)
    requires i < |code| && IsWordStart(code[i]) && Plain(schema) && EndAlike(before, newBefore)
    ensures var word := code[i..WordEnd(code, i)];
            Marks(before + word) == Marks(newBefore + (if Replaces(code, i, t) then schema else word))
  {
    hide Replaces, Marks, Plain;
    var word := code[i..WordEnd(code, i)];
    if Replaces(code, i, t) {
      ShippedWordHasNoDollar(code, i, t);
      LastTwoMark(before, word);
      WordCharactersMarkNothing(word);
      SchemaMarksNothing(newBefore, schema);
    } else if |word| >= 2 {
      LastTwoMark(before, word);
      LastTwoMark(newBefore, word);
    } else {
      LastOneMarks(before, word);
      LastOneMarks(newBefore, word);
    }
  }

  lemma WordCharactersMarkNothing(word: string)
    requires |word| >= 2 && forall k | 0 <= k < |word| :: IsWordCharacter(word[k])
    ensures !Marks(word)
  {
  }

  // ---- the rewritten text, region by region

  ghost function NewText(sql: string, p: nat, schema: string, t: TrackerState): string
    requires p <= |sql|
  {
    Texts(RewrittenRegions(RegionsFrom(sql, p, p), schema, t))
  }

  /** The first region and the rest of the new text. */
  lemma NewTextStep(sql: string, p: nat, schema: string, t: TrackerState) returns (end: nat)
    requires p < |sql|
    ensures p < end <= |sql| && sql[p..] == sql[p..end] + sql[end..]
    ensures var rs := RegionsFrom(sql, p, p);
            && rs != [] && rs[0].text == sql[p..end] && rs[1..] == RegionsFrom(sql, end, end)
            && (rs[0].kind == Code ==> forall j | p <= j < end :: BoundaryAt(sql, j).None?)
            && (rs[0].kind == Code && end < |sql| ==> BoundaryAt(sql, end).Some?)
            && (rs[0].kind != Code ==> BoundaryAt(sql, p) == Some(Boundary(rs[0].kind, end)))
            && NewText(sql, p, schema, t)
               == if rs[0].kind != Code then sql[p..end] + NewText(sql, end, schema, t)
                  else Rewritten(sql[p..end], 0, schema, t) + NewText(sql, end, schema, Tracked(sql[p..end], 0, t))
  {
    hide BoundaryAt, Rewritten, Tracked;
    end := FirstRegion(sql, p, p);
    var rs := RegionsFrom(sql, p, p);
    var after := if rs[0].kind == Code then Tracked(sql[p..end], 0, t) else t;
    assert RewrittenRegions(rs, schema, t)[1..] == RewrittenRegions(rs[1..], schema, after);
  }

  /** From a region's start on, the new text begins as the old one does. */
  lemma {:induction false} RestAlike(sql: string, p: nat, schema: string, t: TrackerState)
    requires p <= |sql| && Plain(schema)
    ensures Alike(sql[p..], NewText(sql, p, schema, t))
    ensures (p < |sql| && BoundaryAt(sql, p).None?) || Stops(sql[p..], NewText(sql, p, schema, t))
    decreases |sql| - p
  {
    hide BoundaryAt, Rewritten, Tracked, Alike, Stops, Plain, NewText;
    if p == |sql| {
      NothingLeft(sql, schema, t);
    } else {
      var end := NewTextStep(sql, p, schema, t);
      if BoundaryAt(sql, p).Some? {
        RestAlike(sql, end, schema, t);
        PrefixAlike(sql[p..end], sql[end..], NewText(sql, end, schema, t));
        BoundaryStops(sql, p, end, NewText(sql, end, schema, t));
      } else {
        var code := sql[p..end];
        var after := Tracked(code, 0, t);
        RestAlike(sql, end, schema, after);
        CodeAlike(code, 0, schema, t, sql[end..], NewText(sql, end, schema, after));
        assert code[0..] == code;
      }
    }
  }

  lemma NothingLeft(sql: string, schema: string, t: TrackerState)
    ensures sql[|sql|..] == NewText(sql, |sql|, schema, t) == "" && Stops("", "")
  {
  }

  lemma BoundaryStops(sql: string, p: nat, end: nat, rest: string)
    requires p < end <= |sql| && BoundaryAt(sql, p).Some? && Alike(sql[p..], sql[p..end] + rest)
    ensures Stops(sql[p..], sql[p..end] + rest)
  {
    assert sql[p..][0] == sql[p] == (sql[p..end] + rest)[0];
  }

  /** What the first region at p in the old text and at q in the new one sees before it is alike. */
  ghost predicate SeenAlike(sql: string, p: nat, out: string, q: nat)
    requires p <= |sql| && q <= |out|
  {
    p < |sql| ==>
      Marks(sql[..p]) == Marks(out[..q]) && (BoundaryAt(sql, p).None? ==> EndAlike(sql[..p], out[..q]))
  }

  lemma {:induction false} AllCodePassed(sql: string, i: nat, j: nat, k: nat)
    requires i <= j <= k <= |sql| && forall m | j <= m < k :: BoundaryAt(sql, m).None?
    ensures RegionsFrom(sql, i, j) == RegionsFrom(sql, i, k)
    decreases k - j
  {
    hide BoundaryAt;
    if j < k {
      AllCodePassed(sql, i, j + 1, k);
    }
  }

  /** A region that is no code, at p in the old text and at q in the new one. */
  lemma OtherRegionStays(sql: string, p: nat, out: string, q: nat, end: nat, schema: string, t: TrackerState)
    requires p < end <= |sql| && q <= |out| && Plain(schema) && SeenAlike(sql, p, out, q)
    requires BoundaryAt(sql, p).Some? && BoundaryAt(sql, p).value.end == end
    requires out[q..] == sql[p..end] + NewText(sql, end, schema, t)
    ensures q + (end - p) <= |out| && out[q + (end - p)..] == NewText(sql, end, schema, t)
    ensures BoundaryAt(out, q) == Some(Boundary(BoundaryAt(sql, p).value.kind, q + (end - p)))
    ensures out[q..q + (end - p)] == sql[p..end] && SeenAlike(sql, end, out, q + (end - p))
  {
    hide BoundaryAt, NewText, RegionsFrom, Plain, Stops, BackslashesEscape, StopCharacter, Marks;
    var mid, rest := q + (end - p), NewText(sql, end, schema, t);
    RestAlike(sql, end, schema, t);
    SplitOff(out, q, sql[p..end], rest);
    assert forall k | p <= k < end :: sql[k] == sql[p..end][k - p] == out[k + (q - p)];
    assert end < |sql| ==> sql[end] == sql[end..][0] && out[mid] == rest[0];
    EscapeIsMark(sql, p);
    EscapeIsMark(out, q);
    SameRegion(sql, out, q - p, p);
    if end < |sql| {
      ClosedIsLong(sql, p);
      LastTwoSeen(sql, end, out, mid);
    }
  }

  lemma LastTwoSeen(sql: string, e: nat, out: string, m: nat)
    requires 2 <= e <= |sql| && 2 <= m <= |out| && sql[e - 1] == out[m - 1] && sql[e - 2] == out[m - 2]
    ensures SeenAlike(sql, e, out, m)
  {
    hide BoundaryAt;
  }

  lemma SplitOff(out: string, q: nat, u: string, rest: string)
    requires q <= |out| && out[q..] == u + rest
    ensures q + |u| <= |out| && out[q..q + |u|] == u && out[q + |u|..] == rest
    ensures rest == "" <==> q + |u| == |out|
    ensures forall k | 0 <= k < |u| :: out[q + k] == u[k]
    ensures forall k | 0 <= k <= |u| :: out[q + k..] == u[k..] + rest
  {
    assert |out| - q == |u| + |rest|;
    forall k | 0 <= k < |u|
      ensures out[q + k] == u[k]
    {
      assert out[q..][k] == out[q + k];
    }
    forall k | 0 <= k < |rest|
      ensures out[q + |u| + k] == rest[k]
    {
      assert out[q..][|u| + k] == out[q + |u| + k];
    }
  }

  lemma EscapeIsMark(sql: string, q: nat)
    requires q <= |sql|
    ensures BackslashesEscape(sql, q) == Marks(sql[..q])
  {
  }

  lemma NoneOpensInCode(sql: string, p: nat, end: nat)
    requires p <= end <= |sql| && forall j | p <= j < end :: BoundaryAt(sql, j).None?
    ensures NoneOpens(sql[p..end], sql[end..])
  {
    hide BoundaryAt, Opens;
    forall j | 0 <= j < end - p
      ensures !Opens(sql[p..end][j..] + sql[end..])
    {
      OpensMeaning(sql, p + j);
      assert sql[p..end][j..] + sql[end..] == sql[p + j..];
    }
  }

  lemma NoneOpensThere(out: string, q: nat, code: string, rest: string)
    requires q <= |out| && out[q..] == code + rest && NoneOpens(code, rest)
    ensures q + |code| <= |out| && forall j | q <= j < q + |code| :: BoundaryAt(out, j).None?
  {
    hide BoundaryAt, Opens;
    SplitOff(out, q, code, rest);
    forall j | q <= j < q + |code|
      ensures BoundaryAt(out, j).None?
    {
      assert out[q + (j - q)..] == code[j - q..] + rest;
      OpensMeaning(out, j);
    }
  }

  /** A code region at p in the old text, rewritten at q in the new one. */
  lemma CodeRegionStays(sql: string, p: nat, out: string, q: nat, end: nat, schema: string, t: TrackerState)
    requires p < end <= |sql| && q <= |out| && Plain(schema) && SeenAlike(sql, p, out, q)
    requires (forall j | p <= j < end :: BoundaryAt(sql, j).None?) && (end < |sql| ==> BoundaryAt(sql, end).Some?)
    requires var after := Tracked(sql[p..end], 0, t);
             out[q..] == Rewritten(sql[p..end], 0, schema, t) + NewText(sql, end, schema, after)
    ensures var code := Rewritten(sql[p..end], 0, schema, t); var mid := q + |code|;
            && mid <= |out| && out[mid..] == NewText(sql, end, schema, Tracked(sql[p..end], 0, t))
            && out[q..mid] == code && SeenAlike(sql, end, out, mid)
            && (forall j | q <= j < mid :: BoundaryAt(out, j).None?)
  {
    hide BoundaryAt, NewText, RegionsFrom, Plain, Stops, NoneOpens, Rewritten, Tracked, Marks, EndAlike;
    var was, after := sql[p..end], Tracked(sql[p..end], 0, t);
    var code, rest := Rewritten(was, 0, schema, t), NewText(sql, end, schema, after);
    assert was[0..] == was;
    RestAlike(sql, end, schema, after);
    SplitOff(out, q, code, rest);
    NoneOpensInCode(sql, p, end);
    CodeStaysCode(was, 0, schema, t, sql[end..], rest);
    NoneOpensThere(out, q, code, rest);
    MarksAlike(was, 0, schema, t, sql[..p], out[..q]);
    assert sql[..p] + was == sql[..end] && out[..q] + code == out[..q + |code|];
  }

  lemma RewrittenIsSome(code: string, schema: string, t: TrackerState)
    requires code != "" && Plain(schema)
    ensures Rewritten(code, 0, schema, t) != ""
  {
    hide Replaces, AfterWord;
  }

  /** The new text's regions from q on are the old text's from p on, rewritten. */
  lemma {:induction false} RegionsStay(sql: string, p: nat, out: string, q: nat, schema: string, t: TrackerState)
    requires p <= |sql| && q <= |out| && Plain(schema) && SeenAlike(sql, p, out, q)
    requires out[q..] == NewText(sql, p, schema, t)
    ensures RegionsFrom(out, q, q) == RewrittenRegions(RegionsFrom(sql, p, p), schema, t)
    decreases |sql| - p
  {
    hide BoundaryAt, NewText, Rewritten, Tracked, SeenAlike, Plain;
    if p == |sql| {
      NothingLeft(sql, schema, t);
      assert q == |out|;
    } else {
      var end := NewTextStep(sql, p, schema, t);
      var rs := RegionsFrom(sql, p, p);
      if rs[0].kind != Code {
        var mid := q + (end - p);
        OtherRegionStays(sql, p, out, q, end, schema, t);
        BoundaryFirst(out, q);
        hide RegionsFrom;
        RegionsStay(sql, end, out, mid, schema, t);
      } else {
        hide RegionsFrom;
        var after, code := Tracked(sql[p..end], 0, t), Rewritten(sql[p..end], 0, schema, t);
        var mid := q + |code|;
        CodeRegionStays(sql, p, out, q, end, schema, t);
        RegionsStay(sql, end, out, mid, schema, after);
        RewrittenIsSome(sql[p..end], schema, t);
        CodeRegionFirst(sql, end, out, q, mid, schema, after);
      }
    }
  }

  lemma CodeRegionFirst(sql: string, end: nat, out: string, q: nat, mid: nat, schema: string, t: TrackerState)
    requires end <= |sql| && q < mid <= |out| && (end < |sql| ==> BoundaryAt(sql, end).Some?)
    requires out[mid..] == NewText(sql, end, schema, t) && Plain(schema)
    requires forall j | q <= j < mid :: BoundaryAt(out, j).None?
    requires RegionsFrom(out, mid, mid) == RewrittenRegions(RegionsFrom(sql, end, end), schema, t)
    ensures RegionsFrom(out, q, q) == [Region(Code, out[q..mid])] + RegionsFrom(out, mid, mid)
  {
    hide BoundaryAt, NewText, Rewritten, Tracked, Plain;
    AllCodePassed(out, q, q, mid);
    RestAlike(sql, end, schema, t);
    if mid < |out| {
      var _ := FirstRegion(sql, end, end);
      var _ := FirstRegion(out, mid, mid);
      assert BoundaryAt(out, mid).Some?;
    } else {
      assert RegionsFrom(out, mid, mid) == [];
    }
  }

  lemma PlainNames(schema: string)
    requires IsSchemaName(schema) && LexesAlone(schema)
    ensures Plain(schema)
  {
  }

  ghost predicate RegionsKept(sql: string, schema: string) {
    Regions(SchemaApplied(sql, schema)) == RewrittenRegions(Regions(sql), schema, INITIAL)
  }

  lemma PlainNameKeepsRegions(sql: string, schema: string)
    requires Plain(schema) && schema != SHIPPED_SCHEMA_NAME
    ensures RegionsKept(sql, schema)
  {
    hide BoundaryAt, Rewritten, Tracked, Plain, RegionsFrom;
    var out := SchemaApplied(sql, schema);
    assert out[0..] == out && sql[..0] == out[..0] == "";
    RegionsStay(sql, 0, out, 0, schema, INITIAL);
  }

  // ---- the names that move regions

  lemma {:induction false} StopAtDollar(s: string, rest: string)
    requires '$' in s && forall i | 0 <= i < |s| :: IsWordCharacter(s[i])
    ensures StopCharacter(s + rest) == Some('$')
  {
    assert (s + rest)[1..] == s[1..] + rest;
    if s[0] != '$' {
      StopAtDollar(s[1..], rest);
    }
  }

  const DOLLAR_CASE := "$velve."

  lemma DollarCaseRewritten(schema: string)
    ensures Rewritten(DOLLAR_CASE, 0, schema, INITIAL) == "$" + schema + "."
  {
    var c, word := DOLLAR_CASE, DOLLAR_CASE[1..6];
    assert WordEnd(c, 1) == 6 by {
      assert WordEnd(c, 6) == 6 && WordEnd(c, 5) == WordEnd(c, 6) && WordEnd(c, 4) == WordEnd(c, 5);
      assert WordEnd(c, 3) == WordEnd(c, 4) && WordEnd(c, 2) == WordEnd(c, 3) && WordEnd(c, 1) == WordEnd(c, 2);
    }
    assert Lower(word) == word == SHIPPED_SCHEMA_NAME;
    assert Rewritten(c, 7, schema, AfterWord(INITIAL, word)) == "";
    assert Rewritten(c, 6, schema, AfterWord(INITIAL, word)) == ".";
    assert Rewritten(c, 1, schema, INITIAL) == schema + ".";
    assert Rewritten(c, 0, schema, INITIAL) == "$" + (schema + ".");
  }

  lemma DollarCaseIsCode()
    ensures Regions(DOLLAR_CASE) == [Region(Code, DOLLAR_CASE)]
  {
    hide ClosingEnd, LineEnd, BlockEnd, QuotedEnd;
    var c := DOLLAR_CASE;
    StopMeaning(c, 1);
    assert StopCharacter(c[1..]) == Some('.') by {
      assert c[1..] == "velve" + ".";
      StopBeyond("velve", ".");
    }
    assert BoundaryAt(c, 0).None?;
    assert forall j | 1 <= j < 7 :: BoundaryAt(c, j).None?;
    AllCodePassed(c, 0, 0, 7);
    assert c[0..7] == c;
  }

  lemma DollarNameOpens(schema: string)
    requires IsSchemaName(schema) && '$' in schema
    ensures BoundaryAt("$" + schema + ".", 0).Some?
  {
    hide BoundaryAt, StopCharacter;
    var out := "$" + schema + ".";
    assert out[1..] == schema + "." && out[0..] == out;
    StopAtDollar(schema, ".");
    assert IsWordStart(schema[0]);
    OpensMeaning(out, 0);
  }

  lemma OneCodeRegion(sql: string, schema: string)
    requires schema != SHIPPED_SCHEMA_NAME && Regions(sql) == [Region(Code, sql)]
    ensures var out := Rewritten(sql, 0, schema, INITIAL);
            SchemaApplied(sql, schema) == out && RewrittenRegions(Regions(sql), schema, INITIAL) == [Region(Code, out)]
  {
    hide Rewritten, RegionsFrom, Tracked;
    var rs, out := Regions(sql), Rewritten(sql, 0, schema, INITIAL);
    assert rs[1..] == [];
    assert RewrittenRegions(rs[1..], schema, Tracked(sql, 0, INITIAL)) == [];
    assert [Region(Code, out)][1..] == [];
    assert Texts([Region(Code, out)]) == out + Texts([]) == out;
  }

  /** A name with a dollar sign, put after a dollar sign, opens a dollar quote there. */
  lemma DollarNameMovesRegions(schema: string)
    requires IsSchemaName(schema) && '$' in schema
    ensures !RegionsKept(DOLLAR_CASE, schema)
  {
    hide BoundaryAt, StopCharacter, Rewritten, RewrittenRegions, SchemaApplied, IsSchemaName;
    var out := "$" + schema + ".";
    DollarCaseIsCode();
    DollarCaseRewritten(schema);
    OneCodeRegion(DOLLAR_CASE, schema);
    DollarNameOpens(schema);
    var end := FirstRegion(out, 0, 0);
    assert RegionsFrom(out, 0, 0)[0].kind != Code;
  }

  // ---- the name that marks an escape string

  const DROP_CASE := "drop schema velve"
  const ESCAPE_CASE := DROP_CASE + "'\\'x"

  lemma {:induction false} WordAt(code: string, i: nat, end: nat)
    requires i <= end <= |code| && (forall k | i <= k < end :: IsWordCharacter(code[k]))
    requires end < |code| ==> !IsWordCharacter(code[end])
    ensures WordEnd(code, i) == end
    decreases end - i
  {
    if i < end {
      WordAt(code, i + 1, end);
    }
  }

  lemma OtherWord(code: string, i: nat, end: nat, schema: string, t: TrackerState, after: TrackerState)
    requires i < end <= |code| && IsWordStart(code[i]) && forall k | i <= k < end :: IsWordCharacter(code[k])
    requires end < |code| ==> !IsWordCharacter(code[end])
    requires Lower(code[i..end]) != SHIPPED_SCHEMA_NAME && AfterWord(t, code[i..end]) == after
    ensures Rewritten(code, i, schema, t) == code[i..end] + Rewritten(code, end, schema, after)
  {
    hide AfterWord, Lower;
    WordAt(code, i, end);
  }

  lemma DeclaredWord(code: string, i: nat, schema: string, t: TrackerState)
    requires i < |code| && IsWordStart(code[i]) && forall k | i <= k < |code| :: IsWordCharacter(code[k])
    requires Lower(code[i..]) == SHIPPED_SCHEMA_NAME && Declares(t, code[i..])
    ensures Rewritten(code, i, schema, t) == schema
  {
    hide AfterWord, Lower, Declares, DotFollows;
    var end := |code|;
    WordAt(code, i, end);
    assert code[i..] == code[i..end];
    assert Rewritten(code, end, schema, AfterWord(t, code[i..end])) == "";
    assert schema + "" == schema;
  }

  lemma DropWord()
    ensures var c := DROP_CASE;
            c[0..4] == "drop" && Lower(c[0..4]) == "drop" && AfterWord(INITIAL, "drop") == TrackerState("drop", false)
  {
  }

  lemma SchemaWord()
    ensures var c := DROP_CASE;
            && c[5..11] == "schema" && Lower(c[5..11]) == "schema"
            && AfterWord(TrackerState("drop", false), "schema") == TrackerState("schema", true)
  {
  }

  lemma ShippedWord()
    ensures var c := DROP_CASE;
            c[12..] == "velve" && Lower(c[12..]) == "velve" && Declares(TrackerState("schema", true), "velve")
  {
  }

  lemma DropCaseRewritten()
    ensures Rewritten(DROP_CASE, 0, "e", INITIAL) == "drop schema e"
  {
    hide Rewritten, Lower, AfterWord, Declares;
    var c := DROP_CASE;
    var t1, t2 := TrackerState("drop", false), TrackerState("schema", true);
    DropWord();
    OtherWord(c, 0, 4, "e", INITIAL, t1);
    SpaceAt(c, 4, "e", t1);
    SchemaWord();
    OtherWord(c, 5, 11, "e", t1, t2);
    SpaceAt(c, 11, "e", t2);
    ShippedWord();
    DeclaredWord(c, 12, "e", t2);
  }

  lemma SpaceAt(code: string, i: nat, schema: string, t: TrackerState)
    requires i < |code| && code[i] == ' '
    ensures Rewritten(code, i, schema, t) == " " + Rewritten(code, i + 1, schema, t)
  {
  }

  lemma EscapeCaseRegions()
    ensures Regions(ESCAPE_CASE)
      == [Region(Code, DROP_CASE), Region(String, "'\\'"), Region(Code, "x")]
  {
    hide TagEnd, LineEnd, BlockEnd, ClosingEnd;
    var sql := ESCAPE_CASE;
    assert |DROP_CASE| == 17 && |sql| == 21;
    assert forall j | 0 <= j < 17 :: sql[j] == DROP_CASE[j];
    PlainCharactersOpenNothing(sql, 0, 17);
    PlainCharactersOpenNothing(sql, 20, 21);
    AllCodePassed(sql, 0, 0, 17);
    AllCodePassed(sql, 20, 20, 21);
    assert !BackslashesEscape(sql, 17);
    assert QuotedEnd(sql, 19, '\'', false) == 20 && QuotedEnd(sql, 18, '\'', false) == 20;
    assert BoundaryAt(sql, 17) == Some(Boundary(String, 20));
    assert sql[0..17] == DROP_CASE && sql[17..20] == "'\\'" && sql[20..21] == "x";
  }

  lemma PlainCharactersOpenNothing(sql: string, i: nat, end: nat)
    requires end <= |sql| && forall j | i <= j < end :: sql[j] !in ['-', '/', '\'', '"', '$']
    ensures forall j | i <= j < end :: BoundaryAt(sql, j).None?
  {
  }

  const ESCAPED := "drop schema e'\\'x"

  lemma EscapeCaseRewritten()
    ensures SchemaApplied(ESCAPE_CASE, "e") == ESCAPED
    ensures RewrittenRegions(Regions(ESCAPE_CASE), "e", INITIAL)
      == [Region(Code, "drop schema e"), Region(String, "'\\'"), Region(Code, "x")]
  {
    hide RegionsFrom, Tracked, Rewritten, Texts, RewrittenRegions;
    EscapeCaseRegions();
    DropCaseRewritten();
    var t := Tracked(DROP_CASE, 0, INITIAL);
    KeptTailRewritten(t);
    var kept := [Region(String, "'\\'"), Region(Code, "x")];
    CodeFirstRewritten(DROP_CASE, kept, "e", INITIAL);
    assert [Region(Code, DROP_CASE)] + kept == Regions(ESCAPE_CASE);
    TextsOfMore(Region(Code, "drop schema e"), kept);
    assert "drop schema e" + "'\\'x" == ESCAPED;
  }

  lemma CodeFirstRewritten(code: string, rest: seq<Region>, schema: string, t: TrackerState)
    ensures RewrittenRegions([Region(Code, code)] + rest, schema, t)
      == [Region(Code, Rewritten(code, 0, schema, t))] + RewrittenRegions(rest, schema, Tracked(code, 0, t))
  {
    hide Rewritten, Tracked;
    assert ([Region(Code, code)] + rest)[1..] == rest;
  }

  lemma TextsOfMore(first: Region, rest: seq<Region>)
    ensures Texts([first] + rest) == first.text + Texts(rest)
  {
    assert ([first] + rest)[1..] == rest;
  }

  lemma KeptTailRewritten(t: TrackerState)
    ensures var kept := [Region(String, "'\\'"), Region(Code, "x")];
            RewrittenRegions(kept, "e", t) == kept && Texts(kept) == "'\\'x"
  {
    hide Rewritten, Tracked;
    XStays(t);
    var last, kept := [Region(Code, "x")], [Region(String, "'\\'"), Region(Code, "x")];
    assert kept[1..] == last && last[1..] == [];
    assert RewrittenRegions(last, "e", t) == [Region(Code, "x")] + RewrittenRegions([], "e", Tracked("x", 0, t));
    assert RewrittenRegions(kept, "e", t) == [kept[0]] + last;
    assert Texts(last) == "x" + Texts([]) && Texts(kept) == "'\\'" + "x";
  }

  lemma XStays(t: TrackerState)
    ensures Rewritten("x", 0, "e", t) == "x"
  {
    hide AfterWord, Declares;
    WordAt("x", 0, 1);
    assert "x"[0..1] == "x" && |Lower("x")| == 1;
    assert Rewritten("x", 1, "e", AfterWord(t, "x")) == "";
  }

  lemma CodeAndRest(sql: string, p: nat, kind: RegionKind)
    requires 0 < p < |sql| && BoundaryAt(sql, p) == Some(Boundary(kind, |sql|))
    requires forall j | 0 <= j < p :: BoundaryAt(sql, j).None?
    ensures Regions(sql) == [Region(Code, sql[0..p]), Region(kind, sql[p..])]
  {
    hide BoundaryAt;
    AllCodePassed(sql, 0, 0, p);
    assert sql[p..|sql|] == sql[p..];
  }

  lemma EscapedBoundary()
    ensures BoundaryAt(ESCAPED, 13) == Some(Boundary(String, |ESCAPED|))
  {
    hide TagEnd, LineEnd, BlockEnd, ClosingEnd;
    var out := ESCAPED;
    assert |out| == 17 && out[13] == '\'' && out[14] == '\\' && out[16] == 'x';
    assert BackslashesEscape(out, 13);
    assert QuotedEnd(out, 16, '\'', true) == 17 && QuotedEnd(out, 14, '\'', true) == 17;
  }

  lemma EscapedRegions()
    ensures Regions(ESCAPED) == [Region(Code, "drop schema e"), Region(String, "'\\'x")]
  {
    hide BoundaryAt, RegionsFrom, Regions;
    var out := ESCAPED;
    PlainCharactersOpenNothing(out, 0, 13);
    EscapedBoundary();
    CodeAndRest(out, 13, String);
    assert out[0..13] == "drop schema e" && out[13..] == "'\\'x";
  }

  /** The name "e" directly before a string makes an escape string of it. */
  lemma NameEMovesRegions()
    ensures !RegionsKept(ESCAPE_CASE, "e")
  {
    hide RegionsFrom, RewrittenRegions, Regions, SchemaApplied;
    EscapeCaseRewritten();
    EscapedRegions();
    var kept, moved := [Region(Code, "drop schema e"), Region(String, "'\\'"), Region(Code, "x")],
      [Region(Code, "drop schema e"), Region(String, "'\\'x")];
    assert |kept| != |moved|;
  }

  /** A schema name leaves the regions of every migration where they were, its code rewritten and all else
      untouched, exactly when it holds no dollar sign and is not the marker of an escape string. */
  lemma RegionsKeptExactly(schema: string)
    requires IsSchemaName(schema) && schema != SHIPPED_SCHEMA_NAME
    ensures (forall sql :: RegionsKept(sql, schema)) <==> LexesAlone(schema)
  {
    hide RegionsKept;
    if LexesAlone(schema) {
      PlainNames(schema);
      forall sql
        ensures RegionsKept(sql, schema)
      {
        PlainNameKeepsRegions(sql, schema);
      }
    } else if '$' in schema {
      DollarNameMovesRegions(schema);
    } else {
      NameEMovesRegions();
    }
  }
}

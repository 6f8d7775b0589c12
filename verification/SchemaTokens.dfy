/** What rewriting does to a migration, told by its words: which of them are the schema's name, without
    the tracker and without the walk over the code. */
module SchemaTokens {
  import opened LetterCase
  import opened Sequences
  import opened SqlRegions
  import opened SchemaRewrite
  import opened Text

  datatype Token = Word(text: string) | Other(c: char)

  function TokenText(t: Token): string {
    match t case Word(text) => text case Other(c) => [c]
  }

  function Spelling(tokens: seq<Token>): string {
    if tokens == [] then "" else TokenText(tokens[0]) + Spelling(tokens[1..])
  }

  predicate IsToken(t: Token) {
    match t
    case Word(text) => text != "" && IsWordStart(text[0]) && forall k | 0 <= k < |text| :: IsWordCharacter(text[k])
    case Other(c) => !IsWordStart(c)
  }

  /** A word is as long as it can be. */
  predicate AreTokens(tokens: seq<Token>) {
    && (forall t | t in tokens :: IsToken(t))
    && forall k | 0 <= k < |tokens| - 1 && tokens[k].Word? :: tokens[k + 1].Other? && !IsWordCharacter(tokens[k + 1].c)
  }

  function WordsOf(tokens: seq<Token>): seq<string> {
    if tokens == [] then []
    else (if tokens[0].Word? then [tokens[0].text] else []) + WordsOf(tokens[1..])
  }

  /** A full stop with nothing but whitespace before it. */
  predicate DotComesNext(s: string) {
    exists k | 0 <= k < |s| :: s[k] == '.' && forall j | 0 <= j < k :: IsWhitespace(s[j])
  }

  /** The word is the shipped schema's name: it qualifies what follows, or stands where the words before
      it create, drop or alter a schema. */
  ghost predicate IsTheName(words: seq<string>, word: string, rest: string) {
    Lower(word) == "velve" && (DotComesNext(rest) || exists k :: OpensDeclaration(words, k))
  }

  /** The text with that name replaced, after the given words, and every other character as it was. */
  ghost function Renamed(tokens: seq<Token>, words: seq<string>, schema: string): string {
    if tokens == [] then ""
    else if tokens[0].Other? then [tokens[0].c] + Renamed(tokens[1..], words, schema)
    else
      var word := tokens[0].text;
      (if IsTheName(words, word, Spelling(tokens[1..])) then schema else word)
      + Renamed(tokens[1..], words + [word], schema)
  }

  lemma {:induction false} DotMeaning(code: string, i: nat)
    requires i <= |code|
    ensures DotFollows(code, i) <==> DotComesNext(code[i..])
    decreases |code| - i
  {
    var s := code[i..];
    if i < |code| {
      if IsWhitespace(code[i]) {
        DotMeaning(code, i + 1);
        OneMoreBlank(s);
        assert s[1..] == code[i + 1..];
      } else {
        assert DotComesNext(s) ==> s[0] == '.';
      }
    }
  }

  lemma OneMoreBlank(s: string)
    requires s != "" && IsWhitespace(s[0])
    ensures DotComesNext(s) <==> DotComesNext(s[1..])
  {
    hide IsWhitespace;
    DotIsNoBlank();
    if DotComesNext(s) {
      var k :| 0 <= k < |s| && s[k] == '.' && forall j | 0 <= j < k :: IsWhitespace(s[j]);
      assert s[1..][k - 1] == '.';
    }
    if DotComesNext(s[1..]) {
      var k :| 0 <= k < |s[1..]| && s[1..][k] == '.' && forall j | 0 <= j < k :: IsWhitespace(s[1..][j]);
      assert s[k + 1] == '.';
      assert forall j | 0 < j < k + 1 :: s[j] == s[1..][j - 1];
    }
  }

  lemma DotIsNoBlank()
    ensures !IsWhitespace('.')
  {
  }

  lemma NameIsNoModifier(word: string)
    requires Lower(word) == "velve"
    ensures !IsModifier(Lower(word))
  {
    assert "velve"[0] == 'v' && "if"[0] == 'i' && "not"[0] == 'n' && "exists"[0] == 'e' && "authorization"[0] == 'a';
  }

  lemma ReplacedIsTheName(code: string, i: nat, words: seq<string>)
    requires i <= |code|
    ensures var end := WordEnd(code, i);
            Replaces(code, i, AfterWords(words)) <==> IsTheName(words, code[i..end], code[end..])
  {
    var end := WordEnd(code, i);
    DotMeaning(code, end);
    AwaitingMeaning(words);
    hide AfterWords, OpensDeclaration, DotFollows, DotComesNext;
    if Lower(code[i..end]) == "velve" {
      NameIsNoModifier(code[i..end]);
    }
  }

  lemma TokenBefore(t: Token, tokens: seq<Token>)
    requires AreTokens(tokens) && IsToken(t)
    requires t.Word? && tokens != [] ==> tokens[0].Other? && !IsWordCharacter(tokens[0].c)
    ensures AreTokens([t] + tokens) && Spelling([t] + tokens) == TokenText(t) + Spelling(tokens)
    ensures WordsOf([t] + tokens) == (if t.Word? then [t.text] else []) + WordsOf(tokens)
  {
    hide IsToken;
    var all := [t] + tokens;
    assert all[1..] == tokens;
    forall k | 0 <= k < |all| - 1 && all[k].Word?
      ensures all[k + 1].Other? && !IsWordCharacter(all[k + 1].c)
    {
      if k > 0 {
        assert all[k] == tokens[k - 1] && all[k + 1] == tokens[k];
      }
    }
  }

  lemma RenamedFirst(t: Token, tokens: seq<Token>, words: seq<string>, schema: string)
    ensures Renamed([t] + tokens, words, schema) ==
      if t.Other? then [t.c] + Renamed(tokens, words, schema)
      else (if IsTheName(words, t.text, Spelling(tokens)) then schema else t.text) + Renamed(tokens, words + [t.text], schema)
  {
    hide IsTheName;
    assert ([t] + tokens)[1..] == tokens;
  }

  /** After a word comes what is no word character, or nothing. */
  lemma FirstToken(tokens: seq<Token>, s: string)
    requires AreTokens(tokens) && Spelling(tokens) == s && (s != "" ==> !IsWordCharacter(s[0]))
    ensures tokens != [] ==> tokens[0].Other? && !IsWordCharacter(tokens[0].c)
  {
    if tokens != [] {
      assert tokens[0] in tokens && TokenText(tokens[0]) != "" && s[0] == TokenText(tokens[0])[0];
    }
  }

  /** What stands between a word and the next is read as it stands, and the words with their tracker. */
  lemma {:induction false} RewrittenMeaning(code: string, i: nat, schema: string, words: seq<string>)
    returns (tokens: seq<Token>)
    requires i <= |code|
    ensures AreTokens(tokens) && Spelling(tokens) == code[i..]
    ensures Rewritten(code, i, schema, AfterWords(words)) == Renamed(tokens, words, schema)
    ensures Tracked(code, i, AfterWords(words)) == AfterWords(words + WordsOf(tokens))
    decreases |code| - i
  {
    hide AfterWords, AreTokens, IsToken, Renamed, Spelling, WordsOf, IsTheName, Replaces, Lower, IsWordStart, IsWordCharacter;
    if i == |code| {
      tokens := [];
      NothingToRename(words, schema);
      assert words + [] == words;
    } else if !IsWordStart(code[i]) {
      tokens := RewrittenMeaning(code, i + 1, schema, words);
      OtherFirst(code, i, tokens, words, schema);
      tokens := [Other(code[i])] + tokens;
    } else {
      var end := WordEnd(code, i);
      var word := code[i..end];
      WordIsToken(code, i);
      tokens := RewrittenMeaning(code, end, schema, words + [word]);
      AfterOneMore(words, word);
      ReplacedIsTheName(code, i, words);
      FirstToken(tokens, code[end..]);
      TokenBefore(Word(word), tokens);
      RenamedFirst(Word(word), tokens, words, schema);
      assert code[i..] == word + code[end..];
      assert words + ([word] + WordsOf(tokens)) == words + [word] + WordsOf(tokens);
      tokens := [Word(word)] + tokens;
    }
  }

  lemma NothingToRename(words: seq<string>, schema: string)
    ensures Renamed([], words, schema) == "" && Spelling([]) == "" && WordsOf([]) == [] && AreTokens([])
  {
  }

  lemma OtherFirst(code: string, i: nat, tokens: seq<Token>, words: seq<string>, schema: string)
    requires i < |code| && !IsWordStart(code[i]) && AreTokens(tokens) && Spelling(tokens) == code[i + 1..]
    ensures AreTokens([Other(code[i])] + tokens) && Spelling([Other(code[i])] + tokens) == code[i..]
    ensures Renamed([Other(code[i])] + tokens, words, schema) == [code[i]] + Renamed(tokens, words, schema)
    ensures WordsOf([Other(code[i])] + tokens) == WordsOf(tokens)
  {
    TokenBefore(Other(code[i]), tokens);
    RenamedFirst(Other(code[i]), tokens, words, schema);
    assert code[i..] == [code[i]] + code[i + 1..];
    assert [] + WordsOf(tokens) == WordsOf(tokens);
  }

  lemma WordIsToken(code: string, i: nat)
    requires i < |code| && IsWordStart(code[i])
    ensures i < WordEnd(code, i) && IsToken(Word(code[i..WordEnd(code, i)]))
    ensures var rest := code[WordEnd(code, i)..]; rest != "" ==> !IsWordCharacter(rest[0])
  {
  }

  lemma AfterOneMore(words: seq<string>, word: string)
    ensures AfterWords(words + [word]) == AfterWord(AfterWords(words), word)
  {
    assert (words + [word])[..|words|] == words;
  }

  // ---- a whole migration

  /** The words of the code regions before the k-th. */
  function WordsBefore(tokens: seq<seq<Token>>, k: nat): seq<string>
    requires k <= |tokens|
  {
    if k == 0 then [] else WordsBefore(tokens, k - 1) + WordsOf(tokens[k - 1])
  }

  /** A region of code with the schema's name replaced, or any other as it was. */
  ghost predicate IsRenamed(before: Region, after: Region, tokens: seq<Token>, words: seq<string>, schema: string) {
    if before.kind == Code then
      AreTokens(tokens) && Spelling(tokens) == before.text && after == Region(Code, Renamed(tokens, words, schema))
    else tokens == [] && after == before
  }

  /** The first region and the tracker after it. */
  lemma FirstRenamed(regions: seq<Region>, schema: string, words: seq<string>) returns (tokens: seq<Token>)
    requires regions != []
    ensures var rs := RewrittenRegions(regions, schema, AfterWords(words));
            && IsRenamed(regions[0], rs[0], tokens, words, schema)
            && rs[1..] == RewrittenRegions(regions[1..], schema, AfterWords(words + WordsOf(tokens)))
  {
    hide AfterWords, AreTokens, Spelling, Renamed, Rewritten, Tracked;
    if regions[0].kind == Code {
      tokens := RewrittenMeaning(regions[0].text, 0, schema, words);
      assert regions[0].text[0..] == regions[0].text;
    } else {
      tokens := [];
      assert WordsOf([]) == [] && words + [] == words;
    }
  }

  /** Every region of code comes out with the schema's name replaced where the words of the migration up
      to there make a word that name. */
  lemma {:induction false} AppliedMeaning(regions: seq<Region>, schema: string, words: seq<string>)
    returns (tokens: seq<seq<Token>>)
    ensures |tokens| == |regions|
    ensures forall k | 0 <= k < |regions| ::
      IsRenamed(regions[k], RewrittenRegions(regions, schema, AfterWords(words))[k], tokens[k],
                words + WordsBefore(tokens, k), schema)
  {
    hide AfterWords, IsRenamed, WordsOf, RewrittenRegions, WordsBefore;
    tokens := [];
    if regions != [] {
      var after := RewrittenRegions(regions, schema, AfterWords(words));
      var first := FirstRenamed(regions, schema, words);
      var rest := AppliedMeaning(regions[1..], schema, words + WordsOf(first));
      tokens := [first] + rest;
      NoWordsBefore(tokens);
      assert words + [] == words;
      forall k | 0 < k < |regions|
        ensures IsRenamed(regions[k], after[k], tokens[k], words + WordsBefore(tokens, k), schema)
      {
        LaterIsRenamed(regions, after, first, rest, words, schema, k);
      }
    }
  }

  lemma LaterIsRenamed(regions: seq<Region>, after: seq<Region>, first: seq<Token>, rest: seq<seq<Token>>,
                       words: seq<string>, schema: string, k: nat)
    requires 0 < k < |regions| == |after| == |rest| + 1
    requires IsRenamed(regions[1..][k - 1], after[1..][k - 1], rest[k - 1],
                       words + WordsOf(first) + WordsBefore(rest, k - 1), schema)
    ensures IsRenamed(regions[k], after[k], ([first] + rest)[k], words + WordsBefore([first] + rest, k), schema)
  {
    hide IsRenamed, WordsOf, WordsBefore;
    WordsBeforeMore(first, rest, k - 1);
    Associate(words, WordsOf(first), WordsBefore(rest, k - 1));
  }

  lemma NoWordsBefore(tokens: seq<seq<Token>>)
    ensures WordsBefore(tokens, 0) == []
  {
  }

  lemma {:induction false} WordsBeforeMore(first: seq<Token>, rest: seq<seq<Token>>, k: nat)
    requires k <= |rest|
    ensures WordsBefore([first] + rest, k + 1) == WordsOf(first) + WordsBefore(rest, k)
  {
    hide WordsOf;
    var all := [first] + rest;
    if k == 0 {
      assert WordsBefore(all, 0) + WordsOf(all[0]) == WordsOf(first) + [];
    } else {
      WordsBeforeMore(first, rest, k - 1);
      assert all[k] == rest[k - 1];
      Associate(WordsOf(first), WordsBefore(rest, k - 1), WordsOf(rest[k - 1]));
    }
  }

  /** The main result: rewriting replaces exactly the words that are the shipped schema's name. */
  lemma SchemaAppliedMeaning(sql: string, schema: string) returns (tokens: seq<seq<Token>>)
    requires schema != SHIPPED_SCHEMA_NAME
    ensures var before, after := Regions(sql), RewrittenRegions(Regions(sql), schema, INITIAL);
            && SchemaApplied(sql, schema) == Texts(after) && |tokens| == |before| == |after|
            && forall k | 0 <= k < |before| ::
                 IsRenamed(before[k], after[k], tokens[k], WordsBefore(tokens, k), schema)
  {
    tokens := AppliedMeaning(Regions(sql), schema, []);
    assert AfterWords([]) == INITIAL;
    hide IsRenamed, Texts, Regions, RewrittenRegions;
    assert forall k | 0 <= k < |tokens| :: [] + WordsBefore(tokens, k) == WordsBefore(tokens, k);
  }
}

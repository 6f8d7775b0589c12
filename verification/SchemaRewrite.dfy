/** Rewriting the shipped schema's name in the code of a migration. */
module SchemaRewrite {
  import opened LetterCase
  import opened Options
  import opened Sequences
  import opened SqlRegions
  import opened Text

  const SHIPPED_SCHEMA_NAME := "velve"
  const REWRITE_PROBE := "velve_probe"
  const SCHEMA_NAME_MODIFIERS := ["if", "not", "exists", "authorization"]
  const SCHEMA_STATEMENTS := ["create", "drop", "alter"]

  // ---- words

  function WordEnd(code: string, i: nat): (end: nat)
    requires i <= |code|
    ensures i <= end <= |code| && (forall k | i <= k < end :: IsWordCharacter(code[k]))
    ensures end < |code| ==> !IsWordCharacter(code[end])
    decreases |code| - i
  {
    if i < |code| && IsWordCharacter(code[i]) then WordEnd(code, i + 1) else i
  }

  method ReadWord(code: string, start: nat) returns (word: string)
    requires start <= |code|
    ensures word == code[start..WordEnd(code, start)]
  {
    var end := start;
    while end < |code| && IsWordCharacter(code[end])
      invariant start <= end <= |code| && WordEnd(code, end) == WordEnd(code, start)
    {
      end := end + 1;
    }
    word := code[start..end];
  }

  /** Whether the next character from i that is no whitespace is a full stop. */
  predicate DotFollows(code: string, i: nat)
    decreases |code| - i
  {
    i < |code| && if IsWhitespace(code[i]) then DotFollows(code, i + 1) else code[i] == '.'
  }

  method NextSignificantCharacter(code: string, start: nat) returns (c: Option<char>)
    requires start <= |code|
    ensures c == Some('.') <==> DotFollows(code, start)
  {
    var index := start;
    while index < |code| && IsWhitespace(code[index])
      invariant start <= index <= |code| && DotFollows(code, index) == DotFollows(code, start)
    {
      index := index + 1;
    }
    c := if index < |code| then Some(code[index]) else None;
  }

  // ---- the tracker

  datatype TrackerState = TrackerState(previousWord: string, awaitingName: bool)

  const INITIAL := TrackerState("", false)

  predicate IsModifier(word: string) {
    word in SCHEMA_NAME_MODIFIERS
  }

  predicate IsSchemaStatement(word: string) {
    word in SCHEMA_STATEMENTS
  }

  predicate Declares(t: TrackerState, word: string) {
    t.awaitingName && !IsModifier(Lower(word))
  }

  function AfterWord(t: TrackerState, word: string): TrackerState {
    TrackerState(
      Lower(word),
      if Declares(t, word) then false
      else t.awaitingName || (Lower(word) == "schema" && IsSchemaStatement(t.previousWord)))
  }

  function AfterWords(words: seq<string>): TrackerState {
    if words == [] then INITIAL else AfterWord(AfterWords(words[..|words| - 1]), words[|words| - 1])
  }

  /** The words from k on say "schema", after a statement that may declare one, and then modifiers only. */
  predicate OpensDeclaration(words: seq<string>, k: nat) {
    && 1 <= k < |words| && Lower(words[k]) == "schema" && IsSchemaStatement(Lower(words[k - 1]))
    && forall j | k < j < |words| :: IsModifier(Lower(words[j]))
  }

  /** What the tracker waits for, told without it: a name is awaited exactly after create, drop or alter
      schema with nothing but modifiers since. */
  lemma {:induction false} AwaitingMeaning(words: seq<string>)
    ensures AfterWords(words).previousWord == if words == [] then "" else Lower(words[|words| - 1])
    ensures AfterWords(words).awaitingName <==> exists k :: OpensDeclaration(words, k)
  {
    hide IsModifier, IsSchemaStatement, Lower;
    if words != [] {
      var before, last := words[..|words| - 1], Lower(words[|words| - 1]);
      AwaitingMeaning(before);
      ModifiersAreNoStatements(last);
      assert !IsSchemaStatement("") by {
        EmptyIsNoStatement();
      }
      if AfterWords(words).awaitingName {
        if IsModifier(last) {
          var k :| OpensDeclaration(before, k);
          assert OpensDeclaration(words, k);
        } else {
          assert last == "schema" && |words| >= 2;
          assert OpensDeclaration(words, |words| - 1);
        }
      }
      forall k: nat | OpensDeclaration(words, k)
        ensures AfterWords(words).awaitingName
      {
        if k < |words| - 1 {
          assert OpensDeclaration(before, k);
        } else {
          NothingAwaitedAfterAStatement(before);
        }
      }
    }
  }

  lemma ModifiersAreNoStatements(word: string)
    ensures IsModifier(word) ==> word != "schema" && !IsSchemaStatement(word)
    ensures word == "schema" ==> !IsSchemaStatement(word)
  {
    assert "create"[0] == 'c' && "drop"[0] == 'd' && "alter"[1] == 'l';
    assert "if"[0] == 'i' && "not"[0] == 'n' && "exists"[0] == 'e' && "authorization"[1] == 'u' && "schema"[0] == 's';
  }

  lemma EmptyIsNoStatement()
    ensures !IsSchemaStatement("")
  {
  }

  /** Right after a statement's own word no declaration is open. */
  lemma NothingOpenAfterAStatement(words: seq<string>, k: nat)
    requires words != [] && IsSchemaStatement(Lower(words[|words| - 1]))
    ensures !OpensDeclaration(words, k)
  {
    hide IsModifier, IsSchemaStatement, Lower;
    var word := Lower(words[|words| - 1]);
    ModifiersAreNoStatements(word);
    assert OpensDeclaration(words, k) && k < |words| - 1 ==> IsModifier(word);
  }

  lemma NothingAwaitedAfterAStatement(words: seq<string>)
    requires words != [] && IsSchemaStatement(Lower(words[|words| - 1]))
    requires AfterWords(words).awaitingName ==> exists k :: OpensDeclaration(words, k)
    ensures !AfterWords(words).awaitingName
  {
    hide OpensDeclaration, IsSchemaStatement, AfterWords;
    if AfterWords(words).awaitingName {
      var k: nat :| OpensDeclaration(words, k);
      NothingOpenAfterAStatement(words, k);
      assert false;
    }
  }

  class SchemaDeclarationTracker {
    var previousWord: string
    var awaitingName: bool

    constructor ()
      ensures State() == INITIAL
    {
      previousWord, awaitingName := "", false;
    }

    function State(): TrackerState
      reads this
    {
      TrackerState(previousWord, awaitingName)
    }

    method DeclaresTheSchema(word: string) returns (declares: bool)
      modifies this
      ensures declares == Declares(old(State()), word) && State() == AfterWord(old(State()), word)
    {
      var lowercased := Lower(word);
      declares := awaitingName && lowercased !in SCHEMA_NAME_MODIFIERS;
      if declares {
        awaitingName := false;
      } else if lowercased == "schema" && previousWord in SCHEMA_STATEMENTS {
        awaitingName := true;
      }
      previousWord := lowercased;
    }
  }

  // ---- rewriting code

  predicate Replaces(code: string, i: nat, t: TrackerState)
    requires i <= |code|
  {
    var end := WordEnd(code, i);
    Lower(code[i..end]) == SHIPPED_SCHEMA_NAME && (DotFollows(code, end) || Declares(t, code[i..end]))
  }

  /** The code from i on, rewritten. */
  function Rewritten(code: string, i: nat, schema: string, t: TrackerState): string
    requires i <= |code|
    decreases |code| - i
  {
    if i == |code| then ""
    else if !IsWordStart(code[i]) then [code[i]] + Rewritten(code, i + 1, schema, t)
    else
      var end := WordEnd(code, i);
      (if Replaces(code, i, t) then schema else code[i..end])
      + Rewritten(code, end, schema, AfterWord(t, code[i..end]))
  }

  /** The tracker after the code from i on, whatever replaces the name. */
  function Tracked(code: string, i: nat, t: TrackerState): TrackerState
    requires i <= |code|
    decreases |code| - i
  {
    if i == |code| then t
    else if !IsWordStart(code[i]) then Tracked(code, i + 1, t)
    else Tracked(code, WordEnd(code, i), AfterWord(t, code[i..WordEnd(code, i)]))
  }

  /** What the loop holds at its index. */
  ghost predicate HasRewritten(code: string, schema: string, before: TrackerState, index: nat, rewritten: string, t: TrackerState)
    requires index <= |code|
  {
    && rewritten + Rewritten(code, index, schema, t) == Rewritten(code, 0, schema, before)
    && Tracked(code, index, t) == Tracked(code, 0, before)
  }

  lemma NothingRewritten(code: string, schema: string, before: TrackerState)
    ensures HasRewritten(code, schema, before, 0, "", before)
  {
  }

  lemma OneCharacter(code: string, schema: string, before: TrackerState, index: nat, rewritten: string, t: TrackerState)
    requires index < |code| && !IsWordStart(code[index]) && HasRewritten(code, schema, before, index, rewritten, t)
    ensures HasRewritten(code, schema, before, index + 1, rewritten + [code[index]], t)
  {
    Associate(rewritten, [code[index]], Rewritten(code, index + 1, schema, t));
  }

  lemma OneWord(code: string, schema: string, before: TrackerState, index: nat, rewritten: string, t: TrackerState)
    requires index < |code| && IsWordStart(code[index]) && HasRewritten(code, schema, before, index, rewritten, t)
    ensures index < WordEnd(code, index)
    ensures var end := WordEnd(code, index); var word := code[index..end];
            HasRewritten(code, schema, before, end, rewritten + (if Replaces(code, index, t) then schema else word),
                         AfterWord(t, word))
  {
    hide Declares, AfterWord, Lower, DotFollows, Replaces;
    var end := WordEnd(code, index);
    var word := code[index..end];
    Associate(rewritten, if Replaces(code, index, t) then schema else word,
              Rewritten(code, end, schema, AfterWord(t, word)));
  }

  lemma AllRewritten(code: string, schema: string, before: TrackerState, rewritten: string, t: TrackerState)
    requires HasRewritten(code, schema, before, |code|, rewritten, t)
    ensures rewritten == Rewritten(code, 0, schema, before) && t == Tracked(code, 0, before)
  {
    assert rewritten + "" == rewritten;
  }

  method RewriteCode(code: string, schema: string, tracker: SchemaDeclarationTracker) returns (rewritten: string)
    modifies tracker
    ensures rewritten == Rewritten(code, 0, schema, old(tracker.State()))
    ensures tracker.State() == Tracked(code, 0, old(tracker.State()))
  {
    hide Declares, AfterWord, Lower, DotFollows, HasRewritten, Rewritten, Tracked, WordEnd;
    rewritten := "";
    var index := 0;
    ghost var before := tracker.State();
    NothingRewritten(code, schema, before);
    while index < |code|
      invariant index <= |code| && HasRewritten(code, schema, before, index, rewritten, tracker.State())
    {
      var character := code[index];
      if !IsWordStart(character) {
        OneCharacter(code, schema, before, index, rewritten, tracker.State());
        rewritten := rewritten + [character];
        index := index + 1;
        continue;
      }
      OneWord(code, schema, before, index, rewritten, tracker.State());
      var word := ReadWord(code, index);
      var isShippedName := Lower(word) == SHIPPED_SCHEMA_NAME;
      var declaresTheSchema := tracker.DeclaresTheSchema(word);
      var next := NextSignificantCharacter(code, index + |word|);
      var qualifiesSomething := next == Some('.');
      rewritten := rewritten + (if isShippedName && (qualifiesSomething || declaresTheSchema) then schema else word);
      index := index + |word|;
    }
    AllRewritten(code, schema, before, rewritten, tracker.State());
  }

  // ---- rewriting a text

  /** The regions' texts, with the code rewritten and everything else as it was. */
  function RewrittenRegions(regions: seq<Region>, schema: string, t: TrackerState): (rs: seq<Region>)
    ensures |rs| == |regions| && forall k | 0 <= k < |rs| ::
      rs[k].kind == regions[k].kind && (rs[k].kind != Code ==> rs[k] == regions[k])
  {
    if regions == [] then []
    else if regions[0].kind != Code then [regions[0]] + RewrittenRegions(regions[1..], schema, t)
    else
      var code := regions[0].text;
      [Region(Code, Rewritten(code, 0, schema, t))] + RewrittenRegions(regions[1..], schema, Tracked(code, 0, t))
  }

  function SchemaApplied(sql: string, schema: string): string {
    if schema == SHIPPED_SCHEMA_NAME then sql else Texts(RewrittenRegions(Regions(sql), schema, INITIAL))
  }

  lemma FirstTextRewritten(regions: seq<Region>, k: nat, schema: string, t: TrackerState)
    requires k < |regions|
    ensures Texts(RewrittenRegions(regions[k..], schema, t))
      == if regions[k].kind != Code then regions[k].text + Texts(RewrittenRegions(regions[k + 1..], schema, t))
         else Rewritten(regions[k].text, 0, schema, t)
              + Texts(RewrittenRegions(regions[k + 1..], schema, Tracked(regions[k].text, 0, t)))
  {
    hide Rewritten, Tracked;
    assert regions[k..][1..] == regions[k + 1..];
    var after := if regions[k].kind == Code then Tracked(regions[k].text, 0, t) else t;
    assert RewrittenRegions(regions[k..], schema, t)[1..] == RewrittenRegions(regions[k + 1..], schema, after);
  }

  lemma NoTextsLeft(regions: seq<Region>, schema: string, t: TrackerState)
    ensures Texts(RewrittenRegions(regions[|regions|..], schema, t)) == ""
  {
  }

  method ApplySchemaName(sql: string, schema: string) returns (text: string)
    ensures text == SchemaApplied(sql, schema)
  {
    hide Rewritten, Tracked, RewrittenRegions, Texts;
    if schema == SHIPPED_SCHEMA_NAME {
      return sql;
    }
    var tracker := new SchemaDeclarationTracker();
    var regions := SplitIntoRegions(sql);
    text := "";
    assert regions[0..] == regions && "" + Texts(RewrittenRegions(regions, schema, INITIAL)) == SchemaApplied(sql, schema);
    for k := 0 to |regions|
      invariant text + Texts(RewrittenRegions(regions[k..], schema, tracker.State())) == SchemaApplied(sql, schema)
    {
      FirstTextRewritten(regions, k, schema, tracker.State());
      var rewritten := regions[k].text;
      if regions[k].kind == Code {
        rewritten := RewriteCode(regions[k].text, schema, tracker);
      }
      Associate(text, rewritten, Texts(RewrittenRegions(regions[k + 1..], schema, tracker.State())));
      text := text + rewritten;
    }
    NoTextsLeft(regions, schema, tracker.State());
    assert text + "" == text;
  }

  /** Whether rewriting to the probe changes some code region. */
  predicate NamesIn(regions: seq<Region>, t: TrackerState) {
    regions != []
    && if regions[0].kind != Code then NamesIn(regions[1..], t)
       else Rewritten(regions[0].text, 0, REWRITE_PROBE, t) != regions[0].text
            || NamesIn(regions[1..], Tracked(regions[0].text, 0, t))
  }

  predicate Names(sql: string) {
    NamesIn(Regions(sql), INITIAL)
  }

  /** The search stops at the first region that changes. */
  method NamesTheShippedSchema(sql: string) returns (names: bool)
    ensures names == Names(sql)
  {
    hide Rewritten, Tracked;
    var tracker := new SchemaDeclarationTracker();
    var regions := SplitIntoRegions(sql);
    for k := 0 to |regions|
      invariant NamesIn(regions[k..], tracker.State()) == Names(sql)
    {
      assert regions[k..][1..] == regions[k + 1..];
      if regions[k].kind == Code {
        var rewritten := RewriteCode(regions[k].text, REWRITE_PROBE, tracker);
        if rewritten != regions[k].text {
          return true;
        }
      }
    }
    names := false;
  }

  // ---- the probe finds every name

  /** How many names the code from i on holds. */
  function Replacements(code: string, i: nat, t: TrackerState): nat
    requires i <= |code|
    decreases |code| - i
  {
    if i == |code| then 0
    else if !IsWordStart(code[i]) then Replacements(code, i + 1, t)
    else
      var end := WordEnd(code, i);
      (if Replaces(code, i, t) then 1 else 0) + Replacements(code, end, AfterWord(t, code[i..end]))
  }

  /** The probe is longer than the name by six characters. */
  lemma {:induction false} ProbeLengthens(code: string, i: nat, t: TrackerState)
    requires i <= |code|
    ensures |Rewritten(code, i, REWRITE_PROBE, t)| == |code| - i + 6 * Replacements(code, i, t)
    decreases |code| - i
  {
    hide Declares, AfterWord, DotFollows;
    if i < |code| {
      if !IsWordStart(code[i]) {
        ProbeLengthens(code, i + 1, t);
      } else {
        var end := WordEnd(code, i);
        ProbeLengthens(code, end, AfterWord(t, code[i..end]));
        assert Replaces(code, i, t) ==> |Lower(code[i..end])| == 5;
      }
    }
  }

  lemma {:induction false} NothingReplaced(code: string, i: nat, schema: string, t: TrackerState)
    requires i <= |code| && Replacements(code, i, t) == 0
    ensures Rewritten(code, i, schema, t) == code[i..]
    decreases |code| - i
  {
    hide Declares, AfterWord, DotFollows, Lower;
    if i < |code| {
      if !IsWordStart(code[i]) {
        NothingReplaced(code, i + 1, schema, t);
        assert code[i..] == [code[i]] + code[i + 1..];
      } else {
        var end := WordEnd(code, i);
        NothingReplaced(code, end, schema, AfterWord(t, code[i..end]));
        assert code[i..] == code[i..end] + code[end..];
      }
    }
  }

  lemma ProbeFindsNames(code: string, schema: string, t: TrackerState)
    ensures Rewritten(code, 0, REWRITE_PROBE, t) == code ==> Rewritten(code, 0, schema, t) == code
    ensures |Rewritten(code, 0, REWRITE_PROBE, t)| >= |code|
    ensures Rewritten(code, 0, REWRITE_PROBE, t) != code ==> |Rewritten(code, 0, REWRITE_PROBE, t)| > |code|
  {
    hide Rewritten, Replacements;
    ProbeLengthens(code, 0, t);
    assert code[0..] == code;
    if Replacements(code, 0, t) == 0 {
      NothingReplaced(code, 0, schema, t);
      NothingReplaced(code, 0, REWRITE_PROBE, t);
    }
  }

  lemma {:induction false} UnnamedStays(regions: seq<Region>, schema: string, t: TrackerState)
    requires !NamesIn(regions, t)
    ensures RewrittenRegions(regions, schema, t) == regions
    decreases regions
  {
    hide Rewritten, Tracked;
    if regions != [] {
      if regions[0].kind == Code {
        ProbeFindsNames(regions[0].text, schema, t);
        UnnamedStays(regions[1..], schema, Tracked(regions[0].text, 0, t));
      } else {
        UnnamedStays(regions[1..], schema, t);
      }
      assert regions == [regions[0]] + regions[1..];
    }
  }

  lemma {:induction false} ProbedIsLonger(regions: seq<Region>, t: TrackerState)
    ensures |Texts(RewrittenRegions(regions, REWRITE_PROBE, t))| >= |Texts(regions)|
    ensures NamesIn(regions, t) ==> |Texts(RewrittenRegions(regions, REWRITE_PROBE, t))| > |Texts(regions)|
    decreases regions
  {
    hide Rewritten, Tracked;
    if regions != [] {
      var rewritten := RewrittenRegions(regions, REWRITE_PROBE, t);
      if regions[0].kind == Code {
        var after := Tracked(regions[0].text, 0, t);
        ProbeFindsNames(regions[0].text, REWRITE_PROBE, t);
        ProbedIsLonger(regions[1..], after);
        assert rewritten[1..] == RewrittenRegions(regions[1..], REWRITE_PROBE, after);
      } else {
        ProbedIsLonger(regions[1..], t);
        assert rewritten[1..] == RewrittenRegions(regions[1..], REWRITE_PROBE, t);
      }
    }
  }

  /** A text in which the probe finds no name is left as it is for every schema, and only such a text is. */
  lemma NamesMeaning(sql: string)
    ensures !Names(sql) <==> forall schema :: SchemaApplied(sql, schema) == sql
  {
    hide Rewritten, Tracked, RewrittenRegions;
    RegionsCoverTheText(sql, 0);
    assert sql[0..] == sql;
    if Names(sql) {
      ProbedIsLonger(Regions(sql), INITIAL);
      assert SchemaApplied(sql, REWRITE_PROBE) != sql;
    } else {
      forall schema
        ensures SchemaApplied(sql, schema) == sql
      {
        UnnamedStays(Regions(sql), schema, INITIAL);
      }
    }
  }

  // ---- dollar-quoted bodies

  function BodyOf(text: string): string {
    var tag := if TagEnd(text, 0).Some? then TagEnd(text, 0).value else 0;
    if |text| - tag < tag then "" else text[tag..|text| - tag]
  }

  predicate BodiesAreFree(sql: string) {
    forall r | r in Regions(sql) && r.kind == DollarQuoted :: !Names(BodyOf(r.text))
  }

  /** Refuses a migration that names the schema where rewriting does not reach. */
  method AssertNoSchemaNameInsideDollarQuoting(sql: string, schema: string) returns (accepted: bool)
    ensures accepted <==> (schema == SHIPPED_SCHEMA_NAME || BodiesAreFree(sql))
  {
    hide Names;
    if schema == SHIPPED_SCHEMA_NAME {
      return true;
    }
    var regions := SplitIntoRegions(sql);
    for k := 0 to |regions|
      invariant forall j | 0 <= j < k && regions[j].kind == DollarQuoted :: !Names(BodyOf(regions[j].text))
    {
      if regions[k].kind == DollarQuoted {
        var names := NamesTheShippedSchema(BodyOf(regions[k].text));
        if names {
          assert regions[k] in regions;
          return false;
        }
      }
    }
    accepted := true;
  }

  /** In an accepted migration, leaving a dollar-quoted body alone is what rewriting it would have done. */
  lemma AcceptedBodiesNeedNoRewriting(sql: string, schema: string)
    requires BodiesAreFree(sql)
    ensures forall r | r in Regions(sql) && r.kind == DollarQuoted ::
      SchemaApplied(BodyOf(r.text), schema) == BodyOf(r.text)
  {
    hide Names, SchemaApplied;
    forall r | r in Regions(sql) && r.kind == DollarQuoted
      ensures SchemaApplied(BodyOf(r.text), schema) == BodyOf(r.text)
    {
      NamesMeaning(BodyOf(r.text));
    }
  }
}

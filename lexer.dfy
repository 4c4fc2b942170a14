/** The tokenizer driver `lexer` of `main.rs`: it trims the input, reads it a character at a time,
    and after each character runs the matchers over the dough; a final pass and a last String token
    take what is left over. */
module Lexer {
  import opened Errors
  import opened Strings
  import opened AlbaTypes
  import opened LexerFunctions

  /** What one matcher does to the shared state: the tokens it pushes, the dough it leaves, and
      how many characters it takes from the iterator. Matchers only ever push to the result and
      only ever advance the iterator. */
  datatype Effect = Effect(pushed: seq<Token>, dough: string, taken: nat)

  /** The nine matchers the main loop of `lexer` runs after pushing a character onto the dough,
      in the order it runs them. `Tokenizer` assembles the ones the source calls. */
  datatype Matchers = Matchers(
    comments: Lexing -> Effect,
    keyword: Lexing -> Effect,
    subcommand: Lexing -> Result<Effect>,
    group: Lexing -> Effect,
    boolean: Lexing -> Effect,
    number: Lexing -> Effect,
    operator: Lexing -> Effect,
    str: Lexing -> Effect,
    bytes: Lexing -> Effect)

  /** The matchers the driver calls that are not stated exactly here: comment skipping,
      subcommands (which lex their inner text and may fail), groups, numbers, quoted strings
      and base64 bytes. */
  datatype OtherMatchers = OtherMatchers(
    comments: Lexing -> Effect,
    subcommand: Lexing -> Result<Effect>,
    group: Lexing -> Effect,
    number: Lexing -> Effect,
    str: Lexing -> Effect,
    bytes: Lexing -> Effect)

  function Apply(st: Lexing, e: Effect): (r: Lexing)
    ensures r.result == st.result + e.pushed && r.dough == e.dough && |r.rest| <= |st.rest|
  {
    if e.pushed == [] && e.taken == 0 then st.(dough := e.dough)
    else
      var taken := if e.taken <= |st.rest| then e.taken else |st.rest|;
      Lexing(st.result + e.pushed, e.dough, st.rest[taken..])
  }

  /** The effect of a matcher that does not fire. */
  function Idle(st: Lexing): Effect {
    Effect([], st.dough, 0)
  }

  lemma ApplyIdle(st: Lexing)
    ensures Apply(st, Idle(st)) == st
  {
  }

  /** The effect that takes st to after, when after only adds tokens and takes characters. */
  function Change(st: Lexing, after: Lexing): Effect {
    if |st.result| <= |after.result| && |after.rest| <= |st.rest| then
      Effect(after.result[|st.result|..], after.dough, |st.rest| - |after.rest|)
    else Idle(st)
  }

  lemma ApplyChange(st: Lexing, after: Lexing, n: nat)
    requires st.result <= after.result && n <= |st.rest| && after.rest == st.rest[n..]
    ensures Apply(st, Change(st, after)) == after
  {
    assert st.result + after.result[|st.result|..] == after.result;
  }

  /** `lexer_keyword_match` as an effect on the state, its verdict dropped. */
  function KeywordEffect(st: Lexing): Effect {
    Change(st, KeywordMatch(st).1)
  }

  /** `lexer_boolean_match` as an effect on the state, its verdict dropped. */
  function BooleanEffect(st: Lexing): Effect {
    Change(st, BooleanMatch(st).1)
  }

  /** `lexer_operator_match` as an effect on the state, its verdict dropped. */
  function OperatorEffect(st: Lexing): Effect {
    Change(st, OperatorMatch(st).1)
  }

  /** The matchers of `lexer`: keywords, booleans and operators as this model states them, and
      the others as given. */
  function Tokenizer(o: OtherMatchers): Matchers {
    Matchers(o.comments, KeywordEffect, o.subcommand, o.group, BooleanEffect, o.number,
             OperatorEffect, o.str, o.bytes)
  }

  predicate LeadsWith(dough: string, c: char) {
    dough != [] && dough[0] == c
  }

  /** Each matcher outside this model looks only at dough that starts with its own lead
      character and otherwise leaves everything as it is: `/` for comments, `(` for
      subcommands, `[` for groups, a digit or `-` for numbers, a space or a quote for strings,
      `§` for bytes. */
  ghost predicate Guarded(o: OtherMatchers) {
    && (forall st: Lexing :: !LeadsWith(st.dough, '/') ==> o.comments(st) == Idle(st))
    && (forall st: Lexing :: !LeadsWith(st.dough, '(') ==> o.subcommand(st) == Ok(Idle(st)))
    && (forall st: Lexing :: !LeadsWith(st.dough, '[') ==> o.group(st) == Idle(st))
    && (forall st: Lexing :: !(st.dough != [] && (IsDigit(st.dough[0]) || st.dough[0] == '-'))
          ==> o.number(st) == Idle(st))
    && (forall st: Lexing :: !(LeadsWith(st.dough, ' ') || LeadsWith(st.dough, '\'') || LeadsWith(st.dough, '"'))
          ==> o.str(st) == Idle(st))
    && (forall st: Lexing :: !LeadsWith(st.dough, '§') ==> o.bytes(st) == Idle(st))
  }

  /** One matcher run on the state. */
  function Run(st: Lexing, matcher: Lexing -> Effect): (r: Lexing)
    ensures |r.rest| <= |st.rest|
  {
    Apply(st, matcher(st))
  }

  /** The tokenizer's keyword matcher is `lexer_keyword_match`, its verdict dropped. */
  lemma KeywordRuns(o: OtherMatchers, st: Lexing)
    ensures Run(st, Tokenizer(o).keyword) == KeywordMatch(st).1
  {
    ApplyChange(st, KeywordMatch(st).1, 0);
  }

  /** The tokenizer's boolean matcher is `lexer_boolean_match`, its verdict dropped. */
  lemma BooleanRuns(o: OtherMatchers, st: Lexing)
    ensures Run(st, Tokenizer(o).boolean) == BooleanMatch(st).1
  {
    var after := BooleanMatch(st).1;
    assert st.result <= after.result && after.rest == st.rest;
    ApplyChange(st, after, 0);
  }

  /** The tokenizer's operator matcher is `lexer_operator_match`, its verdict dropped. */
  lemma OperatorRuns(o: OtherMatchers, st: Lexing)
    ensures Run(st, Tokenizer(o).operator) == OperatorMatch(st).1
  {
    if OperatorMatch(st).0 {
      var n: nat :| n <= |st.rest| && OperatorMatch(st).1.rest == st.rest[n..]
        && st.result <= OperatorMatch(st).1.result;
      ApplyChange(st, OperatorMatch(st).1, n);
    } else {
      ApplyChange(st, st, 0);
    }
  }

  /** The matchers of the main loop after a subcommand did not fail. */
  function AfterSubcommand(st: Lexing, m: Matchers): (r: Lexing)
    ensures |r.rest| <= |st.rest|
  {
    var st4 := Run(st, m.group);
    var st5 := Run(st4, m.boolean);
    var st6 := Run(st5, m.number);
    var st7 := Run(st6, m.operator);
    var st8 := Run(st7, m.str);
    Run(st8, m.bytes)
  }

  /** The matchers the main loop runs after pushing a character onto the dough, in their order. */
  function Matching(st: Lexing, m: Matchers): (r: Result<Lexing>)
    ensures r.Ok? ==> |r.value.rest| <= |st.rest|
  {
    var st2 := Run(Run(st, m.comments), m.keyword);
    var sub :- m.subcommand(st2);
    Ok(AfterSubcommand(Apply(st2, sub), m))
  }

  /** One turn of the main loop: the next character is read; a `?` becomes an Argument token and
      never reaches the dough, any other character is pushed onto the dough and the matchers run. */
  function MainPass(st: Lexing, m: Matchers): (r: Result<Lexing>)
    requires st.rest != []
    ensures r.Ok? ==> |r.value.rest| < |st.rest|
    ensures st.rest[0] == '?' ==> r == Ok(Lexing(st.result + [Argument], st.dough, st.rest[1..]))
  {
    var c := st.rest[0];
    if c == '?' then Ok(st.(result := st.result + [Argument], rest := st.rest[1..]))
    else Matching(Lexing(st.result, st.dough + [c], st.rest[1..]), m)
  }

  /** The main loop, until the iterator is exhausted or a subcommand fails. */
  function MainLoop(st: Lexing, m: Matchers): (r: Result<Lexing>)
    ensures r.Ok? ==> r.value.rest == []
    decreases |st.rest|
  {
    if st.rest == [] then Ok(st)
    else
      var next :- MainPass(st, m);
      MainLoop(next, m)
  }

  /** The pass after the loop, run only when the dough is not blank; it skips comments, and it
      tries operators before numbers, the reverse of the main loop. */
  function FinalPass(st: Lexing, m: Matchers): (r: Result<Lexing>)
    ensures Trim(st.dough) == [] ==> r == Ok(st)
  {
    if Trim(st.dough) == [] then Ok(st)
    else
      var st2 := Run(st, m.keyword);
      var sub :- m.subcommand(st2);
      Ok(FinalAfterSubcommand(Apply(st2, sub), m))
  }

  /** The matchers of the final pass after a subcommand did not fail. */
  function FinalAfterSubcommand(st: Lexing, m: Matchers): Lexing {
    var st4 := Run(st, m.group);
    var st5 := Run(st4, m.boolean);
    var st6 := Run(st5, m.operator);
    var st7 := Run(st6, m.number);
    var st8 := Run(st7, m.str);
    Run(st8, m.bytes)
  }

  // ---- tokens once pushed stay ----

  lemma RunKeeps(st: Lexing, f: Lexing -> Effect)
    ensures st.result <= Run(st, f).result
  {
  }

  lemma PrefixTransitive(a: seq<Token>, b: seq<Token>, c: seq<Token>)
    requires a <= b && b <= c
    ensures a <= c
  {
  }

  /** The matchers after a subcommand only add tokens. */
  lemma AfterSubcommandKeeps(st: Lexing, m: Matchers)
    ensures st.result <= AfterSubcommand(st, m).result
  {
    var st4 := Run(st, m.group);
    var st5 := Run(st4, m.boolean);
    var st6 := Run(st5, m.number);
    var st7 := Run(st6, m.operator);
    var st8 := Run(st7, m.str);
    RunKeeps(st, m.group);
    RunKeeps(st4, m.boolean);
    PrefixTransitive(st.result, st4.result, st5.result);
    RunKeeps(st5, m.number);
    PrefixTransitive(st.result, st5.result, st6.result);
    RunKeeps(st6, m.operator);
    PrefixTransitive(st.result, st6.result, st7.result);
    RunKeeps(st7, m.str);
    PrefixTransitive(st.result, st7.result, st8.result);
    RunKeeps(st8, m.bytes);
    PrefixTransitive(st.result, st8.result, Run(st8, m.bytes).result);
  }

  /** The matchers of the final pass only add tokens. */
  lemma FinalAfterSubcommandKeeps(st: Lexing, m: Matchers)
    ensures st.result <= FinalAfterSubcommand(st, m).result
  {
    var st4 := Run(st, m.group);
    var st5 := Run(st4, m.boolean);
    var st6 := Run(st5, m.operator);
    var st7 := Run(st6, m.number);
    var st8 := Run(st7, m.str);
    RunKeeps(st, m.group);
    RunKeeps(st4, m.boolean);
    PrefixTransitive(st.result, st4.result, st5.result);
    RunKeeps(st5, m.operator);
    PrefixTransitive(st.result, st5.result, st6.result);
    RunKeeps(st6, m.number);
    PrefixTransitive(st.result, st6.result, st7.result);
    RunKeeps(st7, m.str);
    PrefixTransitive(st.result, st7.result, st8.result);
    RunKeeps(st8, m.bytes);
    PrefixTransitive(st.result, st8.result, Run(st8, m.bytes).result);
  }

  /** A pass of the main loop only adds tokens. */
  lemma MainPassKeeps(st: Lexing, m: Matchers)
    requires st.rest != [] && MainPass(st, m).Ok?
    ensures st.result <= MainPass(st, m).value.result
  {
    if st.rest[0] != '?' {
      var st0 := Lexing(st.result, st.dough + [st.rest[0]], st.rest[1..]);
      var st1 := Run(st0, m.comments);
      var st2 := Run(st1, m.keyword);
      assert MainPass(st, m) == Matching(st0, m);
      assert m.subcommand(st2).Ok?;
      var st3 := Apply(st2, m.subcommand(st2).value);
      RunKeeps(st0, m.comments);
      RunKeeps(st1, m.keyword);
      PrefixTransitive(st.result, st1.result, st2.result);
      PrefixTransitive(st.result, st2.result, st3.result);
      AfterSubcommandKeeps(st3, m);
      PrefixTransitive(st.result, st3.result, AfterSubcommand(st3, m).result);
    }
  }

  /** The main loop only adds tokens. */
  lemma {:induction false} MainLoopKeeps(st: Lexing, m: Matchers)
    requires MainLoop(st, m).Ok?
    ensures st.result <= MainLoop(st, m).value.result
    decreases |st.rest|
  {
    if st.rest != [] {
      var next := MainPass(st, m).value;
      MainPassKeeps(st, m);
      MainLoopKeeps(next, m);
      PrefixTransitive(st.result, next.result, MainLoop(next, m).value.result);
    }
  }

  /** The final pass only adds tokens. */
  lemma FinalPassKeeps(st: Lexing, m: Matchers)
    requires FinalPass(st, m).Ok?
    ensures st.result <= FinalPass(st, m).value.result
  {
    if Trim(st.dough) != [] {
      var st2 := Run(st, m.keyword);
      var st3 := Apply(st2, m.subcommand(st2).value);
      RunKeeps(st, m.keyword);
      PrefixTransitive(st.result, st2.result, st3.result);
      FinalAfterSubcommandKeeps(st3, m);
      PrefixTransitive(st.result, st3.result, FinalAfterSubcommand(st3, m).result);
    }
  }

  const NO_TOKENS := Error(InvalidInput, "The given input did not produced tokens")
  const BLANK_INPUT := Error(InvalidInput, "Input cannot be blank")

  /** The end of `lexer`: dough still not blank becomes one String token, as it is (untrimmed);
      a lexer that produced nothing fails. */
  function Finish(st: Lexing): (r: Result<seq<Token>>)
    ensures r.Ok? <==> st.result != [] || Trim(st.dough) != []
    ensures r.Err? ==> r.error == NO_TOKENS
    ensures r.Ok? ==> r.value != [] && st.result <= r.value
    ensures Trim(st.dough) != [] ==> r == Ok(st.result + [String(st.dough)])
  {
    var result := if Trim(st.dough) != [] then st.result + [String(st.dough)] else st.result;
    if result == [] then Err(NO_TOKENS) else Ok(result)
  }

  function Start(input: string): Lexing {
    Lexing([], "", Trim(input))
  }

  /** `lexer` as a function of its input and of the matchers outside this model. */
  function LexSpec(input: string, m: Matchers): (r: Result<seq<Token>>)
    ensures input == [] ==> r == Err(BLANK_INPUT)
    ensures r.Ok? ==> r.value != []
  {
    if input == [] then Err(BLANK_INPUT)
    else
      var looped :- MainLoop(Start(input), m);
      var final :- FinalPass(looped, m);
      Finish(final)
  }

  /** `lexer`: the loop over the characters of the trimmed input. */
  method Lex(input: string, m: Matchers) returns (r: Result<seq<Token>>)
    ensures r == LexSpec(input, m)
  {
    if input == [] {
      return Err(BLANK_INPUT);
    }
    var characters := Trim(input);
    var result: seq<Token> := [];
    var dough := "";
    while characters != []
      invariant MainLoop(Lexing(result, dough, characters), m) == MainLoop(Start(input), m)
      decreases |characters|
    {
      ghost var before := Lexing(result, dough, characters);
      var c := characters[0];
      characters := characters[1..];
      if c == '?' {
        result := result + [Argument];
        assert MainPass(before, m) == Ok(Lexing(result, dough, characters));
        continue;
      }
      dough := dough + [c];
      var passed := Matching(Lexing(result, dough, characters), m);
      assert MainPass(before, m) == passed;
      if passed.Err? {
        return Err(passed.error);
      }
      result, dough, characters := passed.value.result, passed.value.dough, passed.value.rest;
    }
    var final := FinalPass(Lexing(result, dough, characters), m);
    if final.Err? {
      return Err(final.error);
    }
    result, dough := final.value.result, final.value.dough;
    if Trim(dough) != [] {
      result := result + [String(dough)];
    }
    if result == [] {
      return Err(NO_TOKENS);
    }
    return Ok(result);
  }

  /** Input that is not empty but only whitespace produces no tokens and fails. */
  lemma BlankInputFails(input: string, m: Matchers)
    requires input != [] && IsBlank(input)
    ensures LexSpec(input, m) == Err(NO_TOKENS)
  {
    TrimEmptyIffBlank(input);
  }

  /** Input that starts with `?` (after trimming) and lexes starts with an Argument token. */
  lemma LeadingArgument(input: string, m: Matchers)
    requires Trim(input) != [] && Trim(input)[0] == '?' && LexSpec(input, m).Ok?
    ensures LexSpec(input, m).value[0] == Argument
  {
    var start := Start(input);
    assert start.result == [] && start.dough == [] && start.rest == Trim(input);
    assert start.result + [Argument] == [Argument];
    var next := Lexing([Argument], "", Trim(input)[1..]);
    assert MainPass(start, m) == Ok(next);
    MainLoopStep(start, m);
    var looped := MainLoop(next, m).value;
    MainLoopKeeps(next, m);
    LexSpecExtends(input, m, looped);
    PrefixTransitive([Argument], looped.result, LexSpec(input, m).value);
  }

  /** A turn that does not fail leaves the rest of the loop to do. */
  lemma MainLoopStep(st: Lexing, m: Matchers)
    requires st.rest != [] && MainPass(st, m).Ok?
    ensures MainLoop(st, m) == MainLoop(MainPass(st, m).value, m)
  {
  }

  /** The tokens of the main loop start the tokens of the lexer. */
  lemma LexSpecExtends(input: string, m: Matchers, looped: Lexing)
    requires input != [] && MainLoop(Start(input), m) == Ok(looped) && LexSpec(input, m).Ok?
    ensures looped.result <= LexSpec(input, m).value
  {
    var final := FinalPass(looped, m).value;
    assert LexSpec(input, m) == Finish(final);
    FinalPassKeeps(looped, m);
    PrefixTransitive(looped.result, final.result, LexSpec(input, m).value);
  }

  /** Dough left over, not blank, after the final pass ends the tokens as one String token. */
  lemma LeftoverDoughIsString(input: string, m: Matchers, looped: Lexing, final: Lexing)
    requires input != [] && MainLoop(Start(input), m) == Ok(looped) && FinalPass(looped, m) == Ok(final)
    requires Trim(final.dough) != []
    ensures LexSpec(input, m) == Ok(final.result + [String(final.dough)])
    ensures LexSpec(input, m).value[|LexSpec(input, m).value| - 1] == String(final.dough)
  {
  }

  /** Every keyword starts with a capital letter. */
  lemma KeywordsStartWithLetter(k: string)
    requires k in KeywordList()
    ensures k != [] && 'A' <= k[0] <= 'Z'
  {
    FirstKeywordsStartWithLetter();
    LastKeywordsStartWithLetter();
  }

  lemma FirstKeywordsStartWithLetter()
    ensures forall i :: 0 <= i < 16 ==> KeywordList()[i] != [] && 'A' <= KeywordList()[i][0] <= 'Z'
  {
  }

  lemma LastKeywordsStartWithLetter()
    ensures forall i :: 16 <= i < |KeywordList()| ==> KeywordList()[i] != [] && 'A' <= KeywordList()[i][0] <= 'Z'
  {
  }

  /** Dough that is a keyword cannot start with `/`. */
  lemma KeywordDoughNotComment(d: string)
    requires IsKeyword(Upper(d))
    ensures !LeadsWith(d, '/')
  {
    KeywordsStartWithLetter(Upper(d));
  }

  /** With guarded matchers, a character that completes a keyword in the dough turns the dough
      into that one Keyword token and nothing else happens in that pass. */
  lemma KeywordPass(st: Lexing, o: OtherMatchers)
    requires Guarded(o) && st.rest != [] && st.rest[0] != '?'
    requires IsKeyword(Upper(st.dough + [st.rest[0]]))
    ensures MainPass(st, Tokenizer(o)) == Ok(Lexing(st.result + [Keyword(Upper(st.dough + [st.rest[0]]))], "", st.rest[1..]))
  {
    var d := st.dough + [st.rest[0]];
    var st0 := Lexing(st.result, d, st.rest[1..]);
    var st2 := Lexing(st.result + [Keyword(Upper(d))], "", st.rest[1..]);
    KeywordDoughNotComment(d);
    assert o.comments(st0) == Idle(st0);
    ApplyIdle(st0);
    KeywordRuns(o, st0);
    GuardedStill(o, st2);
    QuietPass(st, Tokenizer(o), st2);
  }

  /** No matcher from the subcommand matcher on changes st. */
  predicate Still(m: Matchers, st: Lexing) {
    && m.subcommand(st) == Ok(Idle(st))
    && m.group(st) == Idle(st) && m.boolean(st) == Idle(st) && m.number(st) == Idle(st)
    && m.operator(st) == Idle(st) && m.str(st) == Idle(st) && m.bytes(st) == Idle(st)
  }

  /** A pass in which the comment and keyword matchers take the state to one that no later
      matcher changes ends there. */
  lemma QuietPass(st: Lexing, m: Matchers, st2: Lexing)
    requires st.rest != [] && st.rest[0] != '?'
    requires Run(Run(Lexing(st.result, st.dough + [st.rest[0]], st.rest[1..]), m.comments), m.keyword) == st2
    requires Still(m, st2)
    ensures MainPass(st, m) == Ok(st2)
  {
    var st0 := Lexing(st.result, st.dough + [st.rest[0]], st.rest[1..]);
    assert MainPass(st, m) == Matching(st0, m);
    ApplyIdle(st2);
    assert AfterSubcommand(st2, m) == st2;
  }

  /** With guarded matchers, no matcher of the tokenizer from the subcommand matcher on changes
      a state with no dough. */
  lemma GuardedStill(o: OtherMatchers, st: Lexing)
    requires Guarded(o) && st.dough == []
    ensures Still(Tokenizer(o), st)
  {
    assert o.subcommand(st) == Ok(Idle(st));
    assert o.group(st) == Idle(st) && o.number(st) == Idle(st);
    assert o.str(st) == Idle(st) && o.bytes(st) == Idle(st);
    NoMatchOnEmptyDough(st);
    ChangeNothing(st);
    assert BooleanEffect(st) == Idle(st) && OperatorEffect(st) == Idle(st);
  }

  lemma ChangeNothing(st: Lexing)
    ensures Change(st, st) == Idle(st)
  {
    assert st.result[|st.result|..] == [];
  }

  /** Neither the boolean nor the operator matcher fires on a state with no dough. */
  lemma NoMatchOnEmptyDough(st: Lexing)
    requires st.dough == []
    ensures BooleanMatch(st).1 == st && OperatorMatch(st).1 == st
  {
    assert Trim(st.dough) == [];
    assert Lower([]) == [];
  }
}

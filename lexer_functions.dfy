/** The matchers of the tokenizer (`lexer_functions.rs`) that this model states exactly: keywords,
    operators and booleans, and the splitting of a group's text into its arguments. */
module LexerFunctions {
  import opened Errors
  import opened Strings
  import opened AlbaTypes

  /** The state the matchers share with the driver: the tokens produced so far, the dough (the
      characters read but not yet turned into a token) and the characters the iterator has not
      yet yielded. A matcher that peeks or reads ahead takes characters from the front of rest. */
  datatype Lexing = Lexing(result: seq<Token>, dough: string, rest: string)

  /** The words `lexer_keyword_match` recognises. */
  function KeywordList(): seq<string> {
    [ "CREATE", "COMMIT", "ROLLBACK", "DELETE", "EDIT", "SEARCH", "WHERE", "ROW", "CONTAINER", "ON",
      "USING", "INT", "BIGINT", "TEXT", "BOOL", "FLOAT", "AND", "OR",
      "NANO-STRING", "SMALL-STRING", "MEDIUM-STRING", "BIG-STRING", "LARGE-STRING",
      "NANO-BYTES", "SMALL-BYTES", "MEDIUM-BYTES", "BIG-BYTES", "LARGE-BYTES",
      "QYCNPVS", "QYCNNXT", "QYCNEXT" ]
  }

  // ---- keywords ----

  /** w is one of the keywords (stated by position, which keeps the list itself out of the way
      of proofs that never look inside it). */
  predicate IsKeyword(w: string) {
    exists i :: 0 <= i < |KeywordList()| && KeywordList()[i] == w
  }

  /** `lexer_keyword_match`: it fires exactly when the upper-cased dough is a keyword; it then
      pushes that keyword once, in upper case, and clears the dough. When it does not fire it
      changes nothing. */
  function KeywordMatch(st: Lexing): (r: (bool, Lexing))
    ensures r.0 <==> IsKeyword(Upper(st.dough))
    ensures r.0 ==> r.1 == Lexing(st.result + [Keyword(Upper(st.dough))], "", st.rest)
    ensures !r.0 ==> r.1 == st
  {
    var keyword := Upper(st.dough);
    CaseMappingsAbsorb(st.dough);
    if IsKeyword(keyword) then (true, st.(result := st.result + [Keyword(Upper(keyword))], dough := ""))
    else (false, st)
  }

  predicate NoLowerCase(s: string) {
    forall k :: 0 <= k < |s| ==> !('a' <= s[k] <= 'z')
  }

  lemma UpperOfNoLowerCase(s: string)
    requires NoLowerCase(s)
    ensures Upper(s) == s
  {
  }

  lemma KeywordsAreUpperCase(k: string)
    requires k in KeywordList()
    ensures Upper(k) == k
  {
    FirstKeywordsUpperCase();
    LastKeywordsUpperCase();
    UpperOfNoLowerCase(k);
  }

  lemma FirstKeywordsUpperCase()
    ensures forall i :: 0 <= i < 16 ==> NoLowerCase(KeywordList()[i])
  {
  }

  lemma LastKeywordsUpperCase()
    ensures forall i :: 16 <= i < |KeywordList()| ==> NoLowerCase(KeywordList()[i])
  {
  }

  /** A keyword is recognised in any ASCII letter case, and nothing else is. */
  lemma KeywordMatchAnyCase(st: Lexing)
    ensures KeywordMatch(st).0 <==> exists k :: k in KeywordList() && EqIgnoreAsciiCase(st.dough, k)
  {
    var d := st.dough;
    CaseMappingsAbsorb(d);
    if KeywordMatch(st).0 {
      var k := Upper(d);
      CaseMappingsAbsorb(k);
      assert EqIgnoreAsciiCase(d, k);
    }
    if exists k :: k in KeywordList() && EqIgnoreAsciiCase(d, k) {
      var k :| k in KeywordList() && EqIgnoreAsciiCase(d, k);
      KeywordsAreUpperCase(k);
      CaseMappingsAbsorb(k);
      assert Upper(d) == Upper(Lower(d)) == Upper(Lower(k)) == k;
    }
  }

  // ---- operators ----

  function OperatorList(): seq<string> {
    [ ">=", ">", "<=", "<", "&&&>", "&&&", "&&>", "&&", "&>", "&",
      "==", "=", "+", "*", "-", "/", "%", "!=", "!" ]
  }

  /** o is one of the operators. */
  predicate IsOperator(o: string) {
    exists i :: 0 <= i < |OperatorList()| && OperatorList()[i] == o
  }

  /** The characters an operator can start with. */
  predicate StartsOperator(c: char) {
    c == '>' || c == '<' || c == '&' || c == '=' || c == '+' || c == '*' || c == '-' || c == '/'
    || c == '%' || c == '!'
  }

  /** The operator `lexer_operator_match` reads when the dough starts with first and the
      iterator still holds rest, with the number of characters it takes from rest. */
  function ReadOperator(first: char, rest: string): (r: Option<(string, nat)>)
    ensures r.Some? <==> StartsOperator(first)
    ensures r.Some? ==> r.value.1 <= |rest| && r.value.0 == [first] + rest[..r.value.1]
  {
    var next := if |rest| > 0 then Some(rest[0]) else None;
    match first
    case '>' => if next == Some('=') then Some((">=", 1)) else Some((">", 0))
    case '<' => if next == Some('=') then Some(("<=", 1)) else Some(("<", 0))
    case '&' =>
      if next == Some('&') then
        if |rest| > 1 && rest[1] == '&' then
          if |rest| > 2 && rest[2] == '>' then Some(("&&&>", 3)) else Some(("&&&", 2))
        else if |rest| > 1 && rest[1] == '>' then Some(("&&>", 2))
        else Some(("&&", 1))
      else if next == Some('>') then Some(("&>", 1))
      else Some(("&", 0))
    case '=' => if next == Some('=') then Some(("==", 1)) else Some(("=", 0))
    case '+' => Some(("+", 0))
    case '*' => Some(("*", 0))
    case '-' => Some(("-", 0))
    case '/' => Some(("/", 0))
    case '%' => Some(("%", 0))
    case '!' => if next == Some('=') then Some(("!=", 1)) else Some(("!", 0))
    case _ => None
  }

  /** `lexer_operator_match`: it fires exactly when the dough starts with an operator character.
      It then pushes one of the operators and clears the dough. That operator is spelled by the
      character and by the characters it takes from the iterator. When it does not fire it
      changes nothing. */
  function OperatorMatch(st: Lexing): (r: (bool, Lexing))
    ensures r.0 <==> st.dough != [] && StartsOperator(st.dough[0])
    ensures !r.0 ==> r.1 == st
    ensures r.0 ==>
      exists n: nat :: (&& n <= |st.rest|
                   && r.1 == Lexing(st.result + [Operator([st.dough[0]] + st.rest[..n])], "", st.rest[n..])
                   && IsOperator([st.dough[0]] + st.rest[..n]))
  {
    if st.dough == [] then (false, st)
    else
      match ReadOperator(st.dough[0], st.rest)
      case None => (false, st)
      case Some((op, n)) =>
        ReadOperatorKnown(st.dough[0], st.rest);
        (true, Lexing(st.result + [Operator(op)], "", st.rest[n..]))
  }

  /** Every operator read is one of the operators. */
  lemma ReadOperatorKnown(first: char, rest: string)
    requires ReadOperator(first, rest).Some?
    ensures IsOperator(ReadOperator(first, rest).value.0)
  {
    var o := ReadOperator(first, rest).value.0;
    assert o in OperatorList();
  }

  /** The operator read is the longest operator the characters spell. */
  lemma OperatorIsLongest(first: char, rest: string, o: string)
    requires ReadOperator(first, rest).Some?
    requires o in OperatorList() && |o| <= 1 + |rest| && o == ([first] + rest)[..|o|]
    ensures |o| <= |ReadOperator(first, rest).value.0|
  {
    var spelled := [first] + rest;
    assert o[0] == first;
    if |o| >= 2 {
      assert o[1] == rest[0];
    }
    if |o| >= 3 {
      assert o[2] == rest[1];
    }
    if |o| == 4 {
      assert o[3] == rest[2];
    }
  }

  /** Each operator, followed by nothing, is read whole. */
  lemma OperatorReadsItself(o: string)
    requires o in OperatorList()
    ensures ReadOperator(o[0], o[1..]) == Some((o, |o| - 1))
  {
    var i :| 0 <= i < |OperatorList()| && OperatorList()[i] == o;
    if i < 4 {
      OperatorsReadThemselves(i, 0, 4);
    } else if i < 10 {
      OperatorsReadThemselves(i, 4, 10);
    } else {
      OperatorsReadThemselves(i, 10, |OperatorList()|);
    }
  }

  lemma OperatorsReadThemselves(i: nat, lo: nat, hi: nat)
    requires lo <= i < hi <= |OperatorList()|
    requires (lo, hi) in {(0, 4), (4, 10), (10, |OperatorList()|)}
    ensures var o := OperatorList()[i]; ReadOperator(o[0], o[1..]).Some? && ReadOperator(o[0], o[1..]).value == (o, |o| - 1)
  {
  }

  // ---- booleans ----

  /** `lexer_boolean_match`: when the trimmed dough is "true" or "false" in any ASCII letter case,
      push the boolean and clear the dough; otherwise change nothing. */
  function BooleanMatch(st: Lexing): (r: (bool, Lexing))
    ensures !r.0 ==> r.1 == st
    ensures r.0 ==> r.1 == Lexing(st.result + [Token.Bool(Lower(Trim(st.dough)) == "true")], "", st.rest)
  {
    var trimmed := Trim(st.dough);
    LowerCaseWords();
    if EqIgnoreAsciiCase(trimmed, "true") then (true, st.(result := st.result + [Token.Bool(true)], dough := ""))
    else if EqIgnoreAsciiCase(trimmed, "false") then (true, st.(result := st.result + [Token.Bool(false)], dough := ""))
    else (false, st)
  }

  lemma LowerOfNoUpperCase(s: string)
    requires forall k :: 0 <= k < |s| ==> !('A' <= s[k] <= 'Z')
    ensures Lower(s) == s
  {
  }

  lemma LowerCaseWords()
    ensures Lower("true") == "true" && Lower("false") == "false"
  {
    LowerOfNoUpperCase("true");
    LowerOfNoUpperCase("false");
  }

  /** The matcher accepts exactly the two words, in any ASCII letter case and between blanks. */
  lemma BooleanMatchWords(st: Lexing)
    ensures BooleanMatch(st).0 <==> Lower(Trim(st.dough)) == "true" || Lower(Trim(st.dough)) == "false"
  {
    LowerCaseWords();
  }

  /** The boolean pushed is the one the text denotes when it is stored in a BOOL column. */
  lemma BooleanMatchAgreesWithColumns(st: Lexing)
    requires BooleanMatch(st).0
    ensures ParseBool(st.dough) == Some(BooleanMatch(st).1.result[|st.result|].flag)
  {
    BooleanMatchWords(st);
  }

  /** Of the other spellings a BOOL column takes ("0", "1", "f", "t"), the matcher accepts none:
      each is a single character. */
  lemma BooleanMatchShortSpellings(st: Lexing)
    requires !BooleanMatch(st).0 && ParseBool(st.dough).Some?
    ensures |Trim(st.dough)| == 1
  {
    BooleanMatchWords(st);
    var t := Lower(Trim(st.dough));
    assert t == "0" || t == "f" || t == "1" || t == "t";
  }

  // ---- group arguments ----

  /** The state of the loop of `split_group_args`: the parts so far, the text of the current part,
      whether a quoted string is open and which quote opened it, the depth of open parentheses,
      and whether the previous character was a backslash. */
  datatype SplitState = SplitState(parts: seq<string>, current: string, inString: bool, quote: char,
                                   parens: nat, escape: bool)

  const SPLIT_START: SplitState := SplitState([], "", false, '\0', 0, false)

  /** A part is kept trimmed, and only when it is not blank. */
  function Flush(parts: seq<string>, current: string): (r: seq<string>)
    ensures Trim(current) == [] ==> r == parts
    ensures Trim(current) != [] ==> r == parts + [Trim(current)]
  {
    if Trim(current) == [] then parts else parts + [Trim(current)]
  }

  /** One character of `split_group_args`. Only a comma read outside quotes and parentheses and
      not after a backslash ends a part; it flushes the current part. Every other character is
      appended to the current part. */
  function SplitStep(s: SplitState, c: char): (r: SplitState)
    ensures r.parts == if Open(s) && c == ',' then Flush(s.parts, s.current) else s.parts
    ensures r.current == if Open(s) && c == ',' then [] else s.current + [c]
  {
    if s.escape then s.(current := s.current + [c], escape := false)
    else if c == '\\' then s.(current := s.current + [c], escape := true)
    else if c == '\'' || c == '"' then
      if !s.inString then s.(inString := true, quote := c, current := s.current + [c])
      else if c == s.quote then s.(inString := false, current := s.current + [c])
      else s.(current := s.current + [c])
    else if c == '(' && !s.inString then s.(parens := s.parens + 1, current := s.current + [c])
    else if c == ')' && !s.inString then
      s.(parens := if s.parens > 0 then s.parens - 1 else 0, current := s.current + [c])
    else if c == ',' && !s.inString && s.parens == 0 then s.(parts := Flush(s.parts, s.current), current := "")
    else s.(current := s.current + [c])
  }

  /** The loop of `split_group_args` run over text from state s. Parts are only ever added, and
      clean parts stay clean. */
  function ScanFrom(s: SplitState, text: string): (r: SplitState)
    ensures |s.parts| <= |r.parts| && r.parts[..|s.parts|] == s.parts
    ensures Clean(s.parts) ==> Clean(r.parts)
  {
    if text == [] then s
    else
      var mid := ScanFrom(s, text[..|text| - 1]);
      var c := text[|text| - 1];
      StepKeepsClean(mid, c);
      assert SplitStep(mid, c).parts[..|mid.parts|] == mid.parts;
      SplitStep(mid, c)
  }

  /** `split_group_args`: the loop, then the last part. No part is blank or untrimmed. */
  function SplitArgs(input: string): (r: seq<string>)
    ensures Clean(r)
  {
    var end := ScanFrom(SPLIT_START, input);
    FlushClean(end.parts, end.current);
    Flush(end.parts, end.current)
  }

  /** `split_group_args` as the loop it is. */
  method SplitGroupArgs(input: string) returns (parts: seq<string>)
    ensures parts == SplitArgs(input)
  {
    parts := [];
    var current := "";
    var inString, quote, parens, escape := false, '\0', 0, false;
    var i := 0;
    while i < |input|
      invariant i <= |input|
      invariant ScanFrom(SPLIT_START, input[..i]) == SplitState(parts, current, inString, quote, parens, escape)
    {
      var c := input[i];
      assert input[..i + 1][..i] == input[..i];
      if escape {
        current := current + [c];
        escape := false;
      } else if c == '\\' {
        escape := true;
        current := current + [c];
      } else if c == '\'' || c == '"' {
        if !inString {
          inString := true;
          quote := c;
        } else if c == quote {
          inString := false;
        }
        current := current + [c];
      } else if c == '(' && !inString {
        parens := parens + 1;
        current := current + [c];
      } else if c == ')' && !inString {
        if parens > 0 {
          parens := parens - 1;
        }
        current := current + [c];
      } else if c == ',' && !inString && parens == 0 {
        var t := Trim(current);
        if t != [] {
          parts := parts + [t];
        }
        current := "";
      } else {
        current := current + [c];
      }
      i := i + 1;
    }
    assert input[..|input|] == input;
    var t := Trim(current);
    if t != [] {
      parts := parts + [t];
    }
  }

  /** Every part is non-blank and trimmed. */
  predicate Clean(parts: seq<string>) {
    forall k :: 0 <= k < |parts| ==> parts[k] != [] && Trim(parts[k]) == parts[k]
  }

  lemma FlushClean(parts: seq<string>, current: string)
    requires Clean(parts)
    ensures Clean(Flush(parts, current))
  {
    var t := Trim(current);
    if t != [] {
      TrimOfTrimmed(t);
      var r := parts + [t];
      assert forall k :: 0 <= k < |parts| ==> r[k] == parts[k];
      assert r[|parts|] == t;
    }
  }

  lemma StepKeepsClean(s: SplitState, c: char)
    ensures Clean(s.parts) ==> Clean(SplitStep(s, c).parts)
  {
    if Clean(s.parts) && Open(s) && c == ',' {
      FlushClean(s.parts, s.current);
    }
  }

  /** Outside any string and any parentheses, and not after a backslash: a comma read here
      ends a part. */
  predicate Open(s: SplitState) {
    !s.escape && !s.inString && s.parens == 0
  }

  /** The comma at position i of the input ends a part. */
  predicate SplitsAt(input: string, i: nat) {
    i < |input| && input[i] == ',' && Open(ScanFrom(SPLIT_START, input[..i]))
  }

  /** Up to a position with no comma that ends a part before it, the scan keeps one part. */
  lemma {:induction false} ScanWithoutSplits(input: string, n: nat)
    requires n <= |input| && forall i :: 0 <= i < |input| ==> !SplitsAt(input, i)
    ensures ScanFrom(SPLIT_START, input[..n]).parts == [] && ScanFrom(SPLIT_START, input[..n]).current == input[..n]
  {
    if n > 0 {
      ScanWithoutSplits(input, n - 1);
      var s := ScanFrom(SPLIT_START, input[..n - 1]);
      assert !SplitsAt(input, n - 1);
      assert input[..n][..n - 1] == input[..n - 1];
      assert ScanFrom(SPLIT_START, input[..n]) == SplitStep(s, input[n - 1]);
      assert input[..n - 1] + [input[n - 1]] == input[..n];
    }
  }

  /** Commas inside quotes or parentheses, or after a backslash, do not split: without a comma
      that ends a part the whole input is one argument, or none when it is blank. */
  lemma SplitSheltered(input: string)
    requires forall i :: 0 <= i < |input| ==> !SplitsAt(input, i)
    ensures SplitArgs(input) == if Trim(input) == [] then [] else [Trim(input)]
  {
    ScanWithoutSplits(input, |input|);
    assert input[..|input|] == input;
  }

  /** Scanning one more character is one more step. */
  lemma ScanFromSnoc(s: SplitState, x: string, c: char)
    ensures ScanFrom(s, x + [c]) == SplitStep(ScanFrom(s, x), c)
  {
    assert (x + [c])[..|x|] == x;
  }

  lemma {:induction false} ScanFromAppend(s: SplitState, a: string, b: string)
    ensures ScanFrom(s, a + b) == ScanFrom(ScanFrom(s, a), b)
  {
    if b == [] {
      assert a + b == a;
    } else {
      var b', c := b[..|b| - 1], b[|b| - 1];
      assert b == b' + [c];
      assert a + b == (a + b') + [c];
      ScanFromAppend(s, a, b');
      ScanFromSnoc(s, a + b', c);
      ScanFromSnoc(ScanFrom(s, a), b', c);
    }
  }

  /** s1 is s2 after the parts pre: the same state but for the parts already split off, and
      but for the quote, which only matters inside a string. */
  predicate After(s1: SplitState, s2: SplitState, pre: seq<string>) {
    && s1.parts == pre + s2.parts && s1.current == s2.current && s1.inString == s2.inString
    && (s1.inString ==> s1.quote == s2.quote) && s1.parens == s2.parens && s1.escape == s2.escape
  }

  lemma StepAfter(s1: SplitState, s2: SplitState, pre: seq<string>, c: char)
    requires After(s1, s2, pre)
    ensures After(SplitStep(s1, c), SplitStep(s2, c), pre)
  {
    if Open(s2) && c == ',' {
      FlushAfter(pre, s2.parts, s2.current);
    }
    StepAlike(s1, s2, c);
  }

  /** Two states alike but for their parts, and for the quote outside a string, step alike. */
  lemma StepAlike(s1: SplitState, s2: SplitState, c: char)
    requires && s1.current == s2.current && s1.inString == s2.inString && (s1.inString ==> s1.quote == s2.quote)
             && s1.parens == s2.parens && s1.escape == s2.escape
    ensures var t1, t2 := SplitStep(s1, c), SplitStep(s2, c);
      && t1.current == t2.current && t1.inString == t2.inString && (t1.inString ==> t1.quote == t2.quote)
      && t1.parens == t2.parens && t1.escape == t2.escape
  {
    if !s1.escape && c != '\\' && (c == '\'' || c == '"') && s1.inString {
      assert s1.quote == s2.quote;
    }
  }

  lemma {:induction false} ScanAfter(s1: SplitState, s2: SplitState, pre: seq<string>, text: string)
    requires After(s1, s2, pre)
    ensures After(ScanFrom(s1, text), ScanFrom(s2, text), pre)
  {
    if text != [] {
      var t := text[..|text| - 1];
      ScanAfter(s1, s2, pre, t);
      StepAfter(ScanFrom(s1, t), ScanFrom(s2, t), pre, text[|text| - 1]);
    }
  }

  /** A comma that ends a part splits the input into the arguments before it and those after it. */
  lemma SplitAtComma(a: string, b: string)
    requires Open(ScanFrom(SPLIT_START, a))
    ensures SplitArgs(a + [','] + b) == SplitArgs(a) + SplitArgs(b)
  {
    ResumeAfterComma(a, b);
    var e := ScanFrom(SPLIT_START, b);
    FlushAfter(SplitArgs(a), e.parts, e.current);
  }

  lemma FlushAfter(pre: seq<string>, parts: seq<string>, current: string)
    ensures Flush(pre + parts, current) == pre + Flush(parts, current)
  {
  }

  /** After a comma that ends a part, the scan goes on as a fresh one, behind the parts so far. */
  lemma ResumeAfterComma(a: string, b: string)
    requires Open(ScanFrom(SPLIT_START, a))
    ensures After(ScanFrom(SPLIT_START, a + [','] + b), ScanFrom(SPLIT_START, b), SplitArgs(a))
  {
    var sa := ScanFrom(SPLIT_START, a);
    var pre := Flush(sa.parts, sa.current);
    var resumed := sa.(parts := pre, current := "");
    CommaEndsPart(a, sa);
    ScanFromAppend(SPLIT_START, a + [','], b);
    assert ScanFrom(SPLIT_START, a + [','] + b) == ScanFrom(resumed, b);
    ResumedIsFresh(sa);
    ScanAfter(resumed, SPLIT_START, pre, b);
  }

  lemma ResumedIsFresh(sa: SplitState)
    requires Open(sa)
    ensures var pre := Flush(sa.parts, sa.current); After(sa.(parts := pre, current := ""), SPLIT_START, pre)
  {
    var pre := Flush(sa.parts, sa.current);
    assert pre + [] == pre;
  }

  lemma CommaEndsPart(a: string, sa: SplitState)
    requires sa == ScanFrom(SPLIT_START, a) && Open(sa)
    ensures ScanFrom(SPLIT_START, a + [',']) == sa.(parts := Flush(sa.parts, sa.current), current := "")
  {
    ScanFromSnoc(SPLIT_START, a, ',');
    OpenComma(sa);
  }

  /** Where it is open, a comma flushes the current part. */
  lemma OpenComma(s: SplitState)
    requires Open(s)
    ensures SplitStep(s, ',') == s.(parts := Flush(s.parts, s.current), current := "")
  {
    assert !s.escape && !s.inString && s.parens == 0;
  }
}

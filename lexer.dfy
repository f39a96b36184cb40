/**
  The tokenizer: an ordered list of rules, each a greedy pattern anchored at the
  current position; at every position the first rule in list order that matches
  produces the next token, and a position where no rule matches is a lexing error.
 */
module Lexer {

  datatype Kind =
    | RomanMark        // `~`
    | TeletypeMark     // a backquote
    | BoldItalicsMark  // `***`
    | BoldMark         // `**`
    | ItalicsMark      // `*`
    | Modifier         // `#`, one or more of `+`/`-`, an optional space
    | OpenBrace        // `{`
    | CloseBrace       // `}`
    | ColourTag        // a backslash, `c`, six decimal digits
    | Break            // a newline
    | FRun             // one or more `f`
    | StringRun        // one or more characters none of which starts another rule

  datatype Token = Token(kind: Kind, value: string)

  datatype LexError = LexError(position: nat)

  datatype Result<T> = Ok(value: T) | Err(error: LexError)

  /** The rules in the order they are tried. */
  const Rules: seq<Kind> := [RomanMark, TeletypeMark, BoldItalicsMark, BoldMark, ItalicsMark, Modifier,
                             OpenBrace, CloseBrace, ColourTag, Break, FRun, StringRun]

  predicate IsSign(c: char) { c == '+' || c == '-' }

  predicate IsDigit(c: char) { '0' <= c <= '9' }

  /** Characters a string run may hold: anything but a backslash, `*`, a newline, braces, a backquote, `~` and `f`. */
  predicate IsStringChar(c: char) {
    c != '\\' && c != '*' && c != '\n' && c != '{' && c != '}' && c != '`' && c != '~' && c != 'f'
  }

  /** The character classes a greedy run is made of. */
  datatype Class = Signs | Fs | StringChars

  predicate InClass(c: char, k: Class) {
    match k
    case Signs => IsSign(c)
    case Fs => c == 'f'
    case StringChars => IsStringChar(c)
  }

  /**
    Length of the longest run of class-`k` characters starting at position `pos` of
    `s` (a greedy `[...]+` or `[...]*` anchored at `pos`).
   */
  function Run(s: string, pos: nat, k: Class): (n: nat)
    requires pos <= |s|
    ensures pos + n <= |s|
    ensures forall i :: pos <= i < pos + n ==> InClass(s[i], k)
    ensures pos + n < |s| ==> !InClass(s[pos + n], k)
    decreases |s| - pos
  {
    if pos == |s| || !InClass(s[pos], k) then 0 else 1 + Run(s, pos + 1, k)
  }

  function Single(s: string, pos: nat, c: char): nat {
    if pos < |s| && s[pos] == c then 1 else 0
  }

  /** `n` stars at `pos`, matched as a literal. */
  function Stars(s: string, pos: nat, n: nat): nat {
    if pos + n <= |s| && forall i :: pos <= i < pos + n ==> s[i] == '*' then n else 0
  }

  /** Length of the match of rule `k` at position `pos` of `s`, 0 when it does not match. */
  function MatchLen(k: Kind, s: string, pos: nat): (n: nat)
    requires pos <= |s|
    ensures pos + n <= |s|
  {
    match k
    case RomanMark => Single(s, pos, '~')
    case TeletypeMark => Single(s, pos, '`')
    case BoldItalicsMark => Stars(s, pos, 3)
    case BoldMark => Stars(s, pos, 2)
    case ItalicsMark => Stars(s, pos, 1)
    case Modifier =>
      if pos == |s| || s[pos] != '#' then 0
      else
        var signs := Run(s, pos + 1, Signs);
        if signs == 0 then 0
        else if pos + 1 + signs < |s| && s[pos + 1 + signs] == ' ' then 2 + signs
        else 1 + signs
    case OpenBrace => Single(s, pos, '{')
    case CloseBrace => Single(s, pos, '}')
    case ColourTag =>
      if pos + 8 <= |s| && s[pos] == '\\' && s[pos + 1] == 'c' && forall i :: pos + 2 <= i < pos + 8 ==> IsDigit(s[i])
      then 8 else 0
    case Break => Single(s, pos, '\n')
    case FRun => Run(s, pos, Fs)
    case StringRun => Run(s, pos, StringChars)
  }

  /** The first rule of `rules` that matches at position `pos` of `s`, with its match. */
  function FirstMatch(s: string, pos: nat, rules: seq<Kind>): (t: Option<Token>)
    requires pos <= |s|
    ensures t.Some? ==>
      t.value.kind in rules && 0 < |t.value.value| && pos + |t.value.value| <= |s|
      && t.value.value == s[pos..pos + |t.value.value|]
  {
    if rules == [] then None
    else if MatchLen(rules[0], s, pos) > 0 then Some(Token(rules[0], s[pos..pos + MatchLen(rules[0], s, pos)]))
    else FirstMatch(s, pos, rules[1..])
  }

  /**
    The rule chosen is the earliest in the list that matches, and its token is that
    rule's whole match: `j` is that rule's index.
   */
  lemma {:induction false} FirstMatchIsFirst(s: string, pos: nat, rules: seq<Kind>) returns (j: nat)
    requires pos <= |s|
    requires FirstMatch(s, pos, rules).Some?
    ensures j < |rules| && rules[j] == FirstMatch(s, pos, rules).value.kind
    ensures MatchLen(rules[j], s, pos) == |FirstMatch(s, pos, rules).value.value|
    ensures forall i :: 0 <= i < j ==> MatchLen(rules[i], s, pos) == 0
  {
    if MatchLen(rules[0], s, pos) == 0 {
      var j' := FirstMatchIsFirst(s, pos, rules[1..]);
      j := j' + 1;
      assert rules[j] == rules[1..][j'];
      forall i | 1 <= i < j
        ensures MatchLen(rules[i], s, pos) == 0
      {
        assert rules[i] == rules[1..][i - 1];
      }
    } else {
      j := 0;
    }
  }

  /** No token at all exactly when no rule matches. */
  lemma {:induction false} NoMatchIffNoRule(s: string, pos: nat, rules: seq<Kind>)
    requires pos <= |s|
    ensures FirstMatch(s, pos, rules).None? <==> forall i :: 0 <= i < |rules| ==> MatchLen(rules[i], s, pos) == 0
  {
    if rules != [] && MatchLen(rules[0], s, pos) == 0 {
      NoMatchIffNoRule(s, pos, rules[1..]);
      assert forall i :: 1 <= i < |rules| ==> rules[i] == rules[1..][i - 1];
    }
  }

  datatype Option<T> = None | Some(value: T)

  /**
    The token stream of `s` from position `pos` on under the rule list `rules`: the
    lexer walks an index through the input, matching each rule at that index.
   */
  function TokenizeFrom(s: string, pos: nat, rules: seq<Kind>): (r: Result<seq<Token>>)
    requires pos <= |s|
    ensures r.Ok? ==> |r.value| <= |s| - pos
    ensures r.Ok? ==> forall i :: 0 <= i < |r.value| ==> r.value[i].kind in rules && r.value[i].value != []
    decreases |s| - pos
  {
    if pos == |s| then Ok([])
    else
      var m := FirstMatch(s, pos, rules);
      if m.None? then Err(LexError(pos))
      else
        var rest := TokenizeFrom(s, pos + |m.value.value|, rules);
        if rest.Err? then rest else Ok([m.value] + rest.value)
  }

  function Tokenize(s: string): Result<seq<Token>> {
    TokenizeFrom(s, 0, Rules)
  }

  function Values(ts: seq<Token>): string {
    if ts == [] then [] else ts[0].value + Values(ts[1..])
  }

  /** Concatenating the token values gives back the input from the starting position on. */
  lemma {:induction false} RoundTrip(s: string, pos: nat, rules: seq<Kind>, ts: seq<Token>)
    requires pos <= |s|
    requires TokenizeFrom(s, pos, rules) == Ok(ts)
    ensures Values(ts) == s[pos..]
    decreases |s| - pos
  {
    if pos < |s| {
      var t := FirstMatch(s, pos, rules).value;
      var n := |t.value|;
      var rest := TokenizeFrom(s, pos + n, rules);
      RoundTrip(s, pos + n, rules, rest.value);
      assert ts == [t] + rest.value;
      assert ts[0] == t && ts[1..] == rest.value;
      SplitAt(s, pos, pos + n);
    }
  }

  lemma SplitAt(s: string, i: nat, j: nat)
    requires i <= j <= |s|
    ensures s[i..] == s[i..j] + s[j..]
  {
  }

  /** A token's value is what its own rule matches at the token's position. */
  predicate Lexeme(t: Token) {
    |t.value| > 0
    && (t.kind == StringRun ==> forall i :: 0 <= i < |t.value| ==> IsStringChar(t.value[i]))
    && (t.kind == FRun ==> forall i :: 0 <= i < |t.value| ==> t.value[i] == 'f')
    && (t.kind == ColourTag ==>
          |t.value| == 8 && t.value[..2] == "\\c" && forall i :: 2 <= i < 8 ==> IsDigit(t.value[i]))
  }

  lemma FirstMatchLexeme(s: string, pos: nat, rules: seq<Kind>)
    requires pos <= |s|
    requires FirstMatch(s, pos, rules).Some?
    ensures Lexeme(FirstMatch(s, pos, rules).value)
  {
    var j := FirstMatchIsFirst(s, pos, rules);
    var t := FirstMatch(s, pos, rules).value;
    assert forall i :: 0 <= i < |t.value| ==> t.value[i] == s[pos + i];
    if t.kind == ColourTag {
      assert t.value[..2] == [s[pos], s[pos + 1]];
    }
  }

  /**
    Every token is non-empty and its value is what its rule accepts: string runs hold
    none of the characters that start another rule, `f`-runs hold only `f`, colour tags
    are a backslash, `c` and six digits.
   */
  lemma {:induction false} TokensAreLexemes(s: string, pos: nat, rules: seq<Kind>, ts: seq<Token>)
    requires pos <= |s|
    requires TokenizeFrom(s, pos, rules) == Ok(ts)
    ensures forall i :: 0 <= i < |ts| ==> Lexeme(ts[i])
    decreases |s| - pos
  {
    if pos < |s| {
      var t := FirstMatch(s, pos, rules).value;
      var rest := TokenizeFrom(s, pos + |t.value|, rules);
      assert rest.Ok? && ts == [t] + rest.value;
      FirstMatchLexeme(s, pos, rules);
      TokensAreLexemes(s, pos + |t.value|, rules, rest.value);
      forall i | 0 <= i < |ts|
        ensures Lexeme(ts[i])
      {
        if i > 0 {
          assert ts[i] == rest.value[i - 1];
        }
      }
    }
  }

  /** Away from a backslash some rule always matches: the index of one that does. */
  lemma StartRule(s: string, pos: nat) returns (k: nat)
    requires pos < |s| && s[pos] != '\\'
    ensures k < |Rules| && MatchLen(Rules[k], s, pos) > 0
  {
    var c := s[pos];
    if IsStringChar(c) {
      k := 11;
    } else if c == '*' {
      k := 4;
    } else if c == 'f' {
      k := 10;
    } else if c == '\n' {
      k := 9;
    } else if c == '{' {
      k := 6;
    } else if c == '}' {
      k := 7;
    } else if c == '`' {
      k := 1;
    } else {
      k := 0;
    }
  }

  /** At a backslash, every rule but the colour tag fails. */
  lemma BackslashOnlyColour(s: string, pos: nat)
    requires pos < |s| && s[pos] == '\\'
    ensures forall k :: k != ColourTag ==> MatchLen(k, s, pos) == 0
  {
  }

  /** No rule matches exactly where a backslash does not begin a colour tag. */
  lemma NoRuleIffStrayBackslash(s: string, pos: nat)
    requires pos < |s|
    ensures FirstMatch(s, pos, Rules).None? <==> s[pos] == '\\' && MatchLen(ColourTag, s, pos) == 0
  {
    NoMatchIffNoRule(s, pos, Rules);
    if s[pos] != '\\' {
      var k := StartRule(s, pos);
    } else {
      BackslashOnlyColour(s, pos);
      assert Rules[8] == ColourTag;
    }
  }

  /** A lexing error names a position, inside the input, where no rule matches. */
  lemma {:induction false} ErrorWhereNoRule(s: string, pos: nat, rules: seq<Kind>, e: LexError)
    requires pos <= |s|
    requires TokenizeFrom(s, pos, rules) == Err(e)
    ensures pos <= e.position < |s|
    ensures FirstMatch(s, e.position, rules).None?
    decreases |s| - pos
  {
    var m := FirstMatch(s, pos, rules);
    if m.Some? {
      ErrorWhereNoRule(s, pos + |m.value.value|, rules, e);
    }
  }

  /** A lexing error names the position of a backslash that does not begin a colour tag. */
  lemma ErrorAtStrayBackslash(s: string, e: LexError)
    requires Tokenize(s) == Err(e)
    ensures e.position < |s|
    ensures s[e.position] == '\\' && MatchLen(ColourTag, s, e.position) == 0
  {
    ErrorWhereNoRule(s, 0, Rules, e);
    NoRuleIffStrayBackslash(s, e.position);
  }

  /** Rules are tried in order: three stars are one bold-italics mark, not bold then italics. */
  lemma ThreeStarsAreBoldItalics(s: string, pos: nat)
    requires pos + 3 <= |s| && s[pos] == '*' && s[pos + 1] == '*' && s[pos + 2] == '*'
    ensures FirstMatch(s, pos, Rules) == Some(Token(BoldItalicsMark, "***"))
  {
    FirstRules();
    SkipRule(s, pos, Rules);
    SkipRule(s, pos, Rules[1..]);
    ThreeStarsMatch(s, pos);
    TakeRule(s, pos, Rules[2..]);
    StarsSlice(s, pos);
  }

  lemma FirstRules()
    ensures Rules[0] == RomanMark && Rules[1..][0] == TeletypeMark
    ensures Rules[1..][1..] == Rules[2..] && Rules[2..][0] == BoldItalicsMark
  {
  }

  lemma SkipRule(s: string, pos: nat, rules: seq<Kind>)
    requires pos <= |s| && rules != [] && MatchLen(rules[0], s, pos) == 0
    ensures FirstMatch(s, pos, rules) == FirstMatch(s, pos, rules[1..])
  {
  }

  lemma TakeRule(s: string, pos: nat, rules: seq<Kind>)
    requires pos <= |s| && rules != [] && MatchLen(rules[0], s, pos) > 0
    ensures FirstMatch(s, pos, rules) == Some(Token(rules[0], s[pos..pos + MatchLen(rules[0], s, pos)]))
  {
  }

  lemma ThreeStarsMatch(s: string, pos: nat)
    requires pos + 3 <= |s| && s[pos] == '*' && s[pos + 1] == '*' && s[pos + 2] == '*'
    ensures MatchLen(BoldItalicsMark, s, pos) == 3
  {
    forall i | pos <= i < pos + 3
      ensures s[i] == '*'
    {
      assert i == pos || i == pos + 1 || i == pos + 2;
    }
  }

  lemma StarsSlice(s: string, pos: nat)
    requires pos + 3 <= |s| && s[pos] == '*' && s[pos + 1] == '*' && s[pos + 2] == '*'
    ensures s[pos..pos + 3] == "***"
  {
  }

  /** A colour directive takes decimal digits only: a hexadecimal code cannot be lexed. */
  lemma HexColourIsError()
    ensures Tokenize("\\c00FF00**bold**") == Err(LexError(0))
  {
    var s := "\\c00FF00**bold**";
    assert s[0] == '\\' && !IsDigit(s[4]);
    assert MatchLen(ColourTag, s, 0) == 0;
    NoRuleIffStrayBackslash(s, 0);
  }
}

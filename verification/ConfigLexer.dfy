/** The tokenizer of the configuration parser: one character at a time, with one `unget`. */
module ConfigLexer {
  import opened Streams

  datatype TokenType = START | NORMAL | START_BLOCK | END_BLOCK | COMMENT | STATEMENT_END | EOF | ERROR

  datatype Lexeme = Lexeme(kind: TokenType, text: string, rest: string)

  const BLANKS: set<char> := {' ', '\t', '\n', '\r'}
  const NEWLINES: set<char> := {'\n', '\r'}
  // A carriage return does not end a bare word, but it may follow a closing quote.
  const WORD_ENDS: set<char> := {' ', '\t', '\n', ';', '{', '}'}
  const QUOTE_ENDS: set<char> := {' ', '\t', '\n', '\r', ';', '{', '}'}
  const SPECIAL: set<char> := {'{', '}', ';', '#', '"', '\'', ' ', '\t', '\n', '\r'}

  /** A text that begins with a quote: the quote has to be closed, and what follows must end the token. */
  function LexQuoted(s: string): (lx: Lexeme)
    requires s != ""
    ensures lx.kind == ERROR || (lx.kind == NORMAL && |lx.rest| < |s|)
  {
    var n := 1 + Span(s[1..], {s[0]});
    if n + 1 >= |s| then Lexeme(ERROR, s, "")
    else if s[n + 1] in QUOTE_ENDS then Lexeme(NORMAL, s[..n + 1], s[n + 1..])
    else Lexeme(ERROR, s[..n + 1], s[n + 2..])
  }

  /** The first token of `s`, read off declaratively, and the text that follows it. */
  function Lex(s: string): (lx: Lexeme)
    ensures lx.kind !in {EOF, ERROR} ==> |lx.rest| < |s|
    ensures lx.kind != START
  {
    if s == "" then Lexeme(EOF, "", "")
    else if s[0] in BLANKS then Lex(s[1..])
    else if s[0] == '{' then Lexeme(START_BLOCK, "{", s[1..])
    else if s[0] == '}' then Lexeme(END_BLOCK, "}", s[1..])
    else if s[0] == ';' then Lexeme(STATEMENT_END, ";", s[1..])
    else if s[0] == '#' then
      var n := Span(s, NEWLINES);
      if n == |s| then Lexeme(EOF, s, "") else Lexeme(COMMENT, s[..n], s[n + 1..])
    else if s[0] == '"' || s[0] == '\'' then LexQuoted(s)
    else
      var n := Span(s, WORD_ENDS);
      if n == |s| then Lexeme(EOF, s, "") else Lexeme(NORMAL, s[..n], s[n..])
  }

  /** The texts a NORMAL token can have: a bare word, or a quoted string with its quotes. */
  predicate Lexable(t: string) {
    BareWord(t) || QuotedText(t)
  }

  predicate BareWord(t: string) {
    t != "" && t[0] !in SPECIAL && forall c | c in t :: c !in WORD_ENDS
  }

  predicate QuotedText(t: string) {
    |t| >= 2 && (t[0] == '"' || t[0] == '\'') && t[|t| - 1] == t[0] && t[0] !in t[1..|t| - 1]
  }

  // What the loop of ParseToken has read so far, by state.
  datatype TokenState = WHITESPACE | SINGLE_QUOTE | DOUBLE_QUOTE | IN_COMMENT | IN_WORD

  ghost predicate Pending(state: TokenState, value: string) {
    match state
    case WHITESPACE => value == ""
    case SINGLE_QUOTE => value != "" && value[0] == '\'' && '\'' !in value[1..]
    case DOUBLE_QUOTE => value != "" && value[0] == '"' && '"' !in value[1..]
    case IN_COMMENT => value != "" && value[0] == '#' && forall c | c in value :: c !in NEWLINES
    case IN_WORD => BareWord(value)
  }

  predicate Quoting(state: TokenState) {
    state == SINGLE_QUOTE || state == DOUBLE_QUOTE
  }

  /** The state entered by a character that starts a token of its own kind. */
  function Entered(c: char): TokenState {
    if c == '#' then IN_COMMENT
    else if c == '"' then DOUBLE_QUOTE
    else if c == '\'' then SINGLE_QUOTE
    else IN_WORD
  }

  /** An input that ends inside a token is an error inside quotes and plain end of file elsewhere. */
  lemma LexAtEnd(state: TokenState, value: string)
    requires Pending(state, value)
    ensures Lex(value) == Lexeme(if Quoting(state) then ERROR else EOF, value, "")
  {
    hide Span;
    if Quoting(state) {
      assert forall i | 0 <= i < |value[1..]| :: value[1..][i] in value[1..];
      SpanUnique(value[1..], {value[0]}, |value| - 1);
    } else if state == IN_COMMENT {
      SpanUnique(value, NEWLINES, |value|);
    } else if state == IN_WORD {
      SpanUnique(value, WORD_ENDS, |value|);
    }
  }

  lemma LexAtQuote(s: string)
    requires s != "" && (s[0] == '"' || s[0] == '\'')
    ensures Lex(s) == LexQuoted(s)
  {
    hide LexQuoted, Span;
  }

  lemma LexQuoteAt(s: string, n: nat)
    requires 0 < n < |s| && (s[0] == '"' || s[0] == '\'') && s[n] == s[0]
    requires forall i | 0 < i < n :: s[i] != s[0]
    ensures Lex(s) ==
              if n + 1 == |s| then Lexeme(ERROR, s, "")
              else if s[n + 1] in QUOTE_ENDS then Lexeme(NORMAL, s[..n + 1], s[n + 1..])
              else Lexeme(ERROR, s[..n + 1], s[n + 2..])
  {
    hide Span, Lex;
    LexAtQuote(s);
    assert forall i | 0 <= i < n - 1 :: s[1..][i] == s[i + 1];
    SpanUnique(s[1..], {s[0]}, n - 1);
  }

  lemma LexQuote(state: TokenState, value: string, rest: string)
    requires Quoting(state) && Pending(state, value)
    ensures var closed := value + [value[0]];
            Lex(closed + rest) ==
              if rest == "" then Lexeme(ERROR, closed, "")
              else if rest[0] in QUOTE_ENDS then Lexeme(NORMAL, closed, rest)
              else Lexeme(ERROR, closed, rest[1..])
  {
    var closed := value + [value[0]];
    var s := closed + rest;
    assert forall i | 0 < i < |value| :: s[i] == value[1..][i - 1];
    LexQuoteAt(s, |value|);
    assert s[..|closed|] == closed && s[|closed|..] == rest;
    assert rest != "" ==> s[|closed| + 1..] == rest[1..] && s[|closed|] == rest[0];
  }

  lemma LexWord(value: string, rest: string)
    requires BareWord(value) && rest != "" && rest[0] in WORD_ENDS
    ensures Lex(value + rest) == Lexeme(NORMAL, value, rest)
  {
    var s := value + rest;
    assert forall i | 0 <= i < |value| :: s[i] == value[i] && value[i] in value;
    SpanUnique(s, WORD_ENDS, |value|);
    assert s[..|value|] == value && s[|value|..] == rest;
  }

  lemma LexComment(value: string, rest: string)
    requires Pending(IN_COMMENT, value) && rest != "" && rest[0] in NEWLINES
    ensures Lex(value + rest) == Lexeme(COMMENT, value, rest[1..])
  {
    var s := value + rest;
    assert forall i | 0 <= i < |value| :: s[i] == value[i] && value[i] in value;
    SpanUnique(s, NEWLINES, |value|);
    assert s[..|value|] == value && s[|value| + 1..] == rest[1..];
  }

  /** The text of every NORMAL token is lexable. */
  lemma {:induction false} LexNormalText(s: string)
    ensures Lex(s).kind == NORMAL ==> Lexable(Lex(s).text)
  {
    hide LexQuoted, Span, BareWord, QuotedText;
    if s == "" {
    } else if s[0] in BLANKS {
      LexNormalText(s[1..]);
    } else if s[0] == '"' || s[0] == '\'' {
      QuotedIsText(s);
    } else if s[0] !in SPECIAL {
      WordIsText(s);
    }
  }

  lemma QuotedIsText(s: string)
    requires s != "" && (s[0] == '"' || s[0] == '\'')
    ensures LexQuoted(s).kind == NORMAL ==> QuotedText(LexQuoted(s).text)
  {
    hide Span;
    var n := 1 + Span(s[1..], {s[0]});
    if n + 1 < |s| {
      var t := s[..n + 1];
      assert t[n] == s[1..][n - 1] == t[0];
      assert forall i | 0 <= i < n - 1 :: t[1..n][i] == s[1..][i];
    }
  }

  lemma WordIsText(s: string)
    requires s != "" && s[0] !in SPECIAL
    ensures BareWord(s[..Span(s, WORD_ENDS)])
  {
    hide Span;
    var n := Span(s, WORD_ENDS);
    assert n > 0 && s[..n][0] == s[0];
  }

  /** Every lexable text, followed by a blank or `;`, is read back as exactly that token. */
  lemma LexLexable(t: string, rest: string)
    requires Lexable(t) && rest != "" && rest[0] in WORD_ENDS
    ensures Lex(t + rest) == Lexeme(NORMAL, t, rest)
  {
    if BareWord(t) {
      LexWord(t, rest);
    } else {
      var body := t[..|t| - 1];
      assert t == body + [t[0]] && body[1..] == t[1..|t| - 1];
      LexQuote(if t[0] == '"' then DOUBLE_QUOTE else SINGLE_QUOTE, body, rest);
    }
  }

  /** A backslash in front of the closing quote does not keep the text open. */
  lemma BackslashEscapesNothing(q: char, text: string, rest: string)
    requires q in {'"', '\''} && q !in text && rest != "" && rest[0] in WORD_ENDS
    ensures Lex([q] + text + ['\\'] + [q] + rest) == Lexeme(NORMAL, [q] + text + ['\\'] + [q], rest)
  {
    hide Lex;
    var t := [q] + text + ['\\'] + [q];
    assert t[1..|t| - 1] == text + ['\\'];
    LexLexable(t, rest);
  }

  // The same in character codes, without the sets that the tokenizer and `Lexable` share.

  /** A word without quotes: not begun by white space, a quote, `#`, `;` or a brace, nor holding what ends it. */
  predicate BareCodes(w: string) {
    && w != "" && w[0] as int !in {9, 10, 13, 32, 34, 35, 39, 59, 123, 125}
    && forall c | c in w :: c as int !in {9, 10, 32, 59, 123, 125}
  }

  /** A text in single or double quotes that holds no quote of that kind. */
  predicate QuotedCodes(w: string) {
    |w| >= 2 && w[0] as int in {34, 39} && w[|w| - 1] == w[0] && w[0] !in w[1..|w| - 1]
  }

  lemma LexableCodes(w: string)
    ensures BareWord(w) <==> BareCodes(w)
    ensures QuotedText(w) <==> QuotedCodes(w)
  {
    forall c: char
      ensures c in WORD_ENDS <==> c as int in {9, 10, 32, 59, 123, 125}
      ensures c in SPECIAL <==> c as int in {9, 10, 13, 32, 34, 35, 39, 59, 123, 125}
    {
    }
  }

  /** The texts that are one word in front of a `;`. */
  lemma WordTexts(w: string)
    ensures Lex(w + ";") == Lexeme(NORMAL, w, ";") <==> BareCodes(w) || QuotedCodes(w)
  {
    hide Lex, BareWord, QuotedText, BareCodes, QuotedCodes;
    LexableCodes(w);
    LexNormalText(w + ";");
    if Lexable(w) {
      LexLexable(w, ";");
    }
  }

  /** The characters that end a word; a carriage return only ends a quoted one. */
  lemma WordEnds(w: string, c: char)
    requires BareCodes(w) || QuotedCodes(w)
    ensures Lex(w + [c]) == Lexeme(NORMAL, w, [c]) <==>
            c as int in {9, 10, 32, 59, 123, 125} || (c as int == 13 && QuotedCodes(w))
  {
    hide Lex;
    LexableCodes(w);
    if BareWord(w) {
      BareEnds(w, c);
    } else {
      var quote := w[..|w| - 1];
      assert w == quote + [w[0]] && quote[1..] == w[1..|w| - 1];
      LexQuote(if w[0] == '"' then DOUBLE_QUOTE else SINGLE_QUOTE, quote, [c]);
    }
  }

  lemma BareEnds(w: string, c: char)
    requires BareWord(w)
    ensures Lex(w + [c]) == Lexeme(NORMAL, w, [c]) <==> c in WORD_ENDS
    ensures !QuotedText(w)
  {
    if c in WORD_ENDS {
      LexWord(w, [c]);
    } else {
      var s := w + [c];
      assert forall i | 0 <= i < |w| :: s[i] == w[i] && w[i] in w;
      SpanUnique(s, WORD_ENDS, |s|);
    }
  }

  /** White space in front of a token is skipped, and three characters are tokens of their own. */
  lemma FirstCharacters(c: char, rest: string)
    ensures c as int in {9, 10, 13, 32} ==> Lex([c] + rest) == Lex(rest)
    ensures c as int == 123 ==> Lex([c] + rest) == Lexeme(START_BLOCK, [c], rest)
    ensures c as int == 125 ==> Lex([c] + rest) == Lexeme(END_BLOCK, [c], rest)
    ensures c as int == 59 ==> Lex([c] + rest) == Lexeme(STATEMENT_END, [c], rest)
  {
    hide Span, LexQuoted;
    assert ([c] + rest)[1..] == rest;
  }

  /** A word that the input cuts off is dropped as the end of the file; a quoted text that nothing ends is an error. */
  lemma CutOff(w: string)
    ensures BareCodes(w) ==> Lex(w) == Lexeme(EOF, w, "")
    ensures QuotedCodes(w) ==> Lex(w) == Lexeme(ERROR, w, "")
    ensures w != "" && w[0] as int in {34, 39} && w[0] !in w[1..] ==> Lex(w) == Lexeme(ERROR, w, "")
  {
    hide Lex, BareWord, BareCodes, QuotedCodes;
    LexableCodes(w);
    if BareWord(w) {
      LexAtEnd(IN_WORD, w);
    }
    if w != "" && w[0] as int in {34, 39} {
      if w[0] !in w[1..] {
        LexAtEnd(if w[0] == '"' then DOUBLE_QUOTE else SINGLE_QUOTE, w);
      }
      if QuotedText(w) {
        var quote := w[..|w| - 1];
        assert w == quote + [w[0]] && quote[1..] == w[1..|w| - 1];
        assert quote + [quote[0]] + "" == w;
        LexQuote(if w[0] == '"' then DOUBLE_QUOTE else SINGLE_QUOTE, quote, "");
      }
    }
    QuotedIsNotEmpty(w);
  }

  lemma QuotedIsNotEmpty(w: string)
    ensures QuotedCodes(w) ==> w != "" && w[0] as int in {34, 39}
  {
  }

  /** Anything else behind a closing quote is an error and is consumed. */
  lemma QuoteNeedsEnd(w: string, c: char, rest: string)
    requires QuotedCodes(w) && c as int !in {9, 10, 13, 32, 59, 123, 125}
    ensures Lex(w + ([c] + rest)) == Lexeme(ERROR, w, rest)
  {
    hide Lex;
    var quote := w[..|w| - 1];
    assert w == quote + [w[0]] && quote[1..] == w[1..|w| - 1];
    LexQuote(if w[0] == '"' then DOUBLE_QUOTE else SINGLE_QUOTE, quote, [c] + rest);
    assert ([c] + rest)[1..] == rest;
  }

  /** A comment runs from `#` to a line feed or carriage return, or to the end of the input. */
  lemma Comments(text: string, c: char, rest: string)
    requires (forall d | d in text :: d as int !in {10, 13}) && c as int in {10, 13}
    ensures Lex("#" + text + [c] + rest) == Lexeme(COMMENT, "#" + text, rest)
    ensures Lex("#" + text) == Lexeme(EOF, "#" + text, "")
  {
    hide Lex;
    var value := "#" + text;
    LexComment(value, [c] + rest);
    LexAtEnd(IN_COMMENT, value);
    assert value + ([c] + rest) == "#" + text + [c] + rest && ([c] + rest)[1..] == rest;
  }

  /** The token a loop that stands in `state` with `value` still has to deliver. */
  ghost function Continue(state: TokenState, value: string, rest: string): Lexeme {
    Lex(value + rest)
  }

  lemma Start(s: string)
    ensures Pending(WHITESPACE, "")
    ensures Continue(WHITESPACE, "", s) == Lex(s)
  {
    assert "" + s == s;
  }

  lemma AtEnd(state: TokenState, value: string)
    requires Pending(state, value)
    ensures Continue(state, value, "") == Lexeme(if Quoting(state) then ERROR else EOF, value, "")
  {
    assert value + "" == value;
    LexAtEnd(state, value);
  }

  lemma AdvanceBetween(c: char, rest: string)
    ensures Continue(WHITESPACE, "", [c] + rest) ==
              if c == '{' then Lexeme(START_BLOCK, [c], rest)
              else if c == '}' then Lexeme(END_BLOCK, [c], rest)
              else if c == ';' then Lexeme(STATEMENT_END, [c], rest)
              else if c in BLANKS then Continue(WHITESPACE, "", rest)
              else Continue(Entered(c), [c], rest)
    ensures c !in BLANKS && c !in {'{', '}', ';'} ==> Pending(Entered(c), [c])
  {
    hide Span, LexQuoted;
    var s := [c] + rest;
    assert "" + s == s && "" + rest == rest && s[1..] == rest;
  }

  lemma AdvanceInside(state: TokenState, value: string, c: char, rest: string)
    requires Pending(state, value) && state != WHITESPACE
    ensures value != "" && (Quoting(state) ==> value[0] == if state == DOUBLE_QUOTE then '"' else '\'')
    ensures Continue(state, value, [c] + rest) ==
              if state == IN_WORD && c in WORD_ENDS then Lexeme(NORMAL, value, [c] + rest)
              else if state == IN_COMMENT && c in NEWLINES then Lexeme(COMMENT, value, rest)
              else if Quoting(state) && c == value[0] then
                if rest == "" then Lexeme(ERROR, value + [c], "")
                else if rest[0] in QUOTE_ENDS then Lexeme(NORMAL, value + [c], rest)
                else Lexeme(ERROR, value + [c], rest[1..])
              else Continue(state, value + [c], rest)
    ensures state == IN_WORD && c !in WORD_ENDS ==> Pending(state, value + [c])
    ensures state == IN_COMMENT && c !in NEWLINES ==> Pending(state, value + [c])
    ensures Quoting(state) && c != value[0] ==> Pending(state, value + [c])
  {
    var s := [c] + rest;
    assert value + s == (value + [c]) + rest;
    if state == IN_WORD && c in WORD_ENDS {
      LexWord(value, s);
    } else if state == IN_COMMENT && c in NEWLINES {
      LexComment(value, s);
      assert s[1..] == rest;
    } else if Quoting(state) {
      assert (value + [c])[1..] == value[1..] + [c];
      if c == value[0] {
        LexQuote(state, value, rest);
      }
    }
  }

  /** Looks at the character behind a closing quote: a blank, a brace or `;` is put back. */
  method AfterQuote(input: InputStream) returns (kind: TokenType)
    requires input.Valid() && input.Good()
    modifies input`pos, input`eof, input`fail
    ensures input.Valid()
    ensures var rest := old(input.Remaining());
            && (input.Good() <==> rest != "")
            && kind == (if rest != "" && rest[0] in QUOTE_ENDS then NORMAL else ERROR)
            && (rest != "" ==> input.Remaining() == if kind == NORMAL then rest else rest[1..])
  {
    var afterC := input.Get();
    kind := ERROR;
    if input.Good() {
      if afterC != '\0' {
        if afterC == ' ' || afterC == '\t' || afterC == '\n' || afterC == '\r' ||
           afterC == '{' || afterC == '}' || afterC == ';' {
          input.Unget();
          kind := NORMAL;
        }
      }
    }
  }

  /**
   A character met between tokens: it is a token by itself, starts one, or is skipped.
   The kind START stands for going on with the loop.
   */
  method FirstCharacter(c: char, value: string) returns (kind: TokenType, state: TokenState, newValue: string)
    requires value == ""
    ensures kind == (if c == '{' then START_BLOCK else if c == '}' then END_BLOCK
                     else if c == ';' then STATEMENT_END else START)
    ensures state == if kind != START || c in BLANKS then WHITESPACE else Entered(c)
    ensures newValue == if kind == START && c in BLANKS then "" else [c]
  {
    kind, state, newValue := START, WHITESPACE, value;
    if c == '{' {
      kind, newValue := START_BLOCK, [c];
    } else if c == '}' {
      kind, newValue := END_BLOCK, [c];
    } else if c == '#' {
      newValue, state := [c], IN_COMMENT;
    } else if c == '"' {
      newValue, state := [c], DOUBLE_QUOTE;
    } else if c == '\'' {
      newValue, state := [c], SINGLE_QUOTE;
    } else if c == ';' {
      kind, newValue := STATEMENT_END, [c];
    } else if c == ' ' || c == '\t' || c == '\n' || c == '\r' {
    } else {
      newValue, state := newValue + [c], IN_WORD;
    }
  }

  /**
   The tokenizer loop. `value` starts empty, as the only caller passes it. A backslash inside
   quotes pops the character just appended and appends it again.
   */
  method ParseToken(input: InputStream) returns (kind: TokenType, value: string)
    requires input.Valid()
    modifies input`pos, input`eof, input`fail
    ensures input.Valid()
    ensures Lexeme(kind, value, input.Remaining()) == Lex(old(input.Remaining()))
    ensures kind !in {EOF, ERROR} ==> input.Good()
  {
    hide Lex, Pending, Continue;
    ghost var s := input.Remaining();
    var state := WHITESPACE;
    value := "";
    Start(s);
    AtEnd(state, value);
    while input.Good()
      invariant input.Valid() && (state == WHITESPACE ==> value == "")
      invariant input.Good() ==> Pending(state, value) && Lex(s) == Continue(state, value, input.Remaining())
      invariant !input.Good() ==> Lex(s) == Lexeme(if Quoting(state) then ERROR else EOF, value, "")
      decreases input.Good(), |input.Remaining()|
    {
      var c := input.Get();
      if !input.Good() {
        AtEnd(state, value);
        break;
      }
      if state == WHITESPACE {
        AdvanceBetween(c, input.Remaining());
      } else {
        AdvanceInside(state, value, c, input.Remaining());
      }
      match state {
        case WHITESPACE =>
          kind, state, value := FirstCharacter(c, value);
          if kind != START {
            return;
          }
        case SINGLE_QUOTE | DOUBLE_QUOTE =>
          // The two quote states differ only in the character that closes them.
          var quote := if state == SINGLE_QUOTE then '\'' else '"';
          value := value + [c];
          if c == quote {
            kind := AfterQuote(input);
            if input.Good() {
              return kind, value;
            }
          } else if c == '\\' {
            ghost var appended := value;
            value := value[..|value| - 1];
            value := value + [c];
            assert value == appended;
          }
        case IN_COMMENT =>
          if c == '\n' || c == '\r' {
            return COMMENT, value;
          }
          value := value + [c];
        case IN_WORD =>
          if c == ' ' || c == '\t' || c == '\n' || c == ';' || c == '{' || c == '}' {
            input.Unget();
            return NORMAL, value;
          }
          value := value + [c];
      }
    }
    if state == SINGLE_QUOTE || state == DOUBLE_QUOTE {
      return ERROR, value;
    }
    kind := EOF;
  }
}

/** The pretty-printer of configurations, and its round trips with the parser. */
module ConfigPrinter {
  import opened Segments
  import opened ConfigLexer
  import opened ConfigMachine
  import opened ConfigGrammar

  function Indent(depth: int): (r: string)
    ensures forall c | c in r :: c == ' '
    decreases if depth < 0 then 0 else depth
  {
    if depth <= 0 then "" else "  " + Indent(depth - 1)
  }

  function Spaced(tokens: seq<string>): string {
    if tokens == [] then ""
    else if |tokens| == 1 then tokens[0]
    else tokens[0] + " " + Spaced(tokens[1..])
  }

  function Print(v: seq<Statement>, depth: int): string
    decreases v
  {
    if v == [] then "" else PrintStatement(v[0], depth) + Print(v[1..], depth)
  }

  function PrintStatement(st: Statement, depth: int): string
    decreases st
  {
    Indent(depth) + Spaced(st.tokens) +
    (if st.child.Absent? then ";"
     else " {\n" + Print(st.child.block, depth + 1) + Indent(depth) + "}") + "\n"
  }

  /** Every statement has words, and every word is a text the tokenizer delivers. */
  ghost predicate Proper(v: seq<Statement>)
    decreases v
  {
    forall st | st in v :: ProperStatement(st)
  }

  ghost predicate ProperStatement(st: Statement)
    decreases st
  {
    && st.tokens != []
    && (forall t | t in st.tokens :: Lexable(t))
    && (st.child.Child? ==> Proper(st.child.block))
  }

  /** The derivation tree of a printed statement: every statement ends in `;` or `}`. */
  function Derivation(v: seq<Statement>): (items: seq<Item>)
    ensures |items| == |v|
    decreases v
  {
    if v == [] then [] else [DerivationOf(v[0])] + Derivation(v[1..])
  }

  function DerivationOf(st: Statement): Item
    decreases st
  {
    if st.child.Absent? then Simple(st.tokens) else Block(st.tokens, Derivation(st.child.block), [])
  }

  lemma {:induction false} DerivationMeans(v: seq<Statement>)
    ensures MeaningAll(Derivation(v)) == v
    ensures Proper(v) ==> AllWellFormed(Derivation(v))
    decreases v, 1
  {
    if v != [] {
      DerivationOfMeans(v[0]);
      DerivationMeans(v[1..]);
    }
  }

  lemma {:induction false} DerivationOfMeans(st: Statement)
    ensures Meaning(DerivationOf(st)) == st
    ensures ProperStatement(st) ==> WellFormed(DerivationOf(st))
    decreases st, 0
  {
    if st.child.Child? {
      DerivationMeans(st.child.block);
      assert MeaningAll(Derivation(st.child.block)) + [] == st.child.block;
    }
  }

  // ---------------------------------------------------------------- reading a printed text

  /** Text `p` reads as the tokens `ts`, whatever text follows it. */
  ghost predicate Reads(p: string, ts: seq<Token>) {
    forall rest: string :: Tokens(p + rest) == (ts + Tokens(rest).0, Tokens(rest).1)
  }

  lemma ReadsConcat(p: string, a: seq<Token>, q: string, b: seq<Token>)
    requires Reads(p, a) && Reads(q, b)
    ensures Reads(p + q, a + b)
  {
    hide Tokens;
    forall rest: string
      ensures Tokens(p + q + rest) == (a + b + Tokens(rest).0, Tokens(rest).1)
    {
      assert p + q + rest == p + (q + rest);
      assert a + (b + Tokens(rest).0) == a + b + Tokens(rest).0;
    }
  }

  lemma {:induction false} TokensBlank(blank: string, rest: string)
    requires forall c | c in blank :: c in BLANKS
    ensures Tokens(blank + rest) == Tokens(rest)
  {
    if blank == "" {
      assert blank + rest == rest;
    } else {
      assert (blank + rest)[1..] == blank[1..] + rest;
      TokensBlank(blank[1..], rest);
    }
  }

  lemma ReadsBlank(blank: string)
    requires forall c | c in blank :: c in BLANKS
    ensures Reads(blank, [])
  {
    hide Tokens;
    forall rest: string
      ensures Tokens(blank + rest) == ([] + Tokens(rest).0, Tokens(rest).1)
    {
      TokensBlank(blank, rest);
      assert [] + Tokens(rest).0 == Tokens(rest).0;
    }
  }

  lemma ReadsMark(c: char, t: Token)
    requires (c == ';' && t == Semi) || (c == '{' && t == Open) || (c == '}' && t == Close)
    ensures Reads([c], [t])
  {
    forall rest: string
      ensures Tokens([c] + rest) == ([t] + Tokens(rest).0, Tokens(rest).1)
    {
      assert ([c] + rest)[1..] == rest;
    }
  }

  lemma TokensWord(t: string, rest: string)
    requires Lexable(t) && rest != "" && rest[0] in WORD_ENDS
    ensures Tokens(t + rest) == ([Word(t)] + Tokens(rest).0, Tokens(rest).1)
  {
    hide Lex, Lexable;
    LexLexable(t, rest);
  }

  /** A word and the blank or mark behind it. */
  lemma ReadsWord(t: string, q: string, ts: seq<Token>)
    requires Lexable(t) && Reads(q, ts) && q != "" && q[0] in WORD_ENDS
    ensures Reads(t + q, [Word(t)] + ts)
  {
    hide Tokens, Lexable;
    forall rest: string
      ensures Tokens(t + q + rest) == ([Word(t)] + ts + Tokens(rest).0, Tokens(rest).1)
    {
      assert t + q + rest == t + (q + rest);
      TokensWord(t, q + rest);
      assert [Word(t)] + (ts + Tokens(rest).0) == [Word(t)] + ts + Tokens(rest).0;
    }
  }

  lemma {:induction false} ReadsSpaced(ws: seq<string>, q: string, ts: seq<Token>)
    requires ws != [] && (forall t | t in ws :: Lexable(t))
    requires Reads(q, ts) && q != "" && q[0] in WORD_ENDS
    ensures Reads(Spaced(ws) + q, Words(ws) + ts)
    decreases |ws|
  {
    hide Reads, Lexable;
    if |ws| == 1 {
      ReadsWord(ws[0], q, ts);
      assert Words(ws) == [Word(ws[0])];
    } else {
      assert forall t | t in ws[1..] :: t in ws;
      ReadsSpaced(ws[1..], q, ts);
      ReadsJoined(ws[0], Spaced(ws[1..]) + q, Words(ws[1..]) + ts);
      assert ws[0] + (" " + (Spaced(ws[1..]) + q)) == Spaced(ws) + q;
      assert [Word(ws[0])] + (Words(ws[1..]) + ts) == Words(ws) + ts;
    }
  }

  /** A word, a space, and text that reads as `ts`. */
  lemma ReadsJoined(w: string, q: string, ts: seq<Token>)
    requires Lexable(w) && Reads(q, ts)
    ensures Reads(w + (" " + q), [Word(w)] + ts)
  {
    hide Reads, Lexable;
    ReadsBlank(" ");
    ReadsConcat(" ", [], q, ts);
    assert [] + ts == ts;
    ReadsWord(w, " " + q, ts);
  }

  lemma {:induction false} ReadsPrint(v: seq<Statement>, depth: int)
    requires Proper(v)
    ensures Reads(Print(v, depth), YieldAll(Derivation(v)))
    decreases v, 1
  {
    hide Reads, ProperStatement, PrintStatement, DerivationOf, Yield;
    if v == [] {
      ReadsBlank("");
    } else {
      ReadsPrintStatement(v[0], depth);
      ReadsPrint(v[1..], depth);
      ReadsConcat(PrintStatement(v[0], depth), Yield(DerivationOf(v[0])),
                  Print(v[1..], depth), YieldAll(Derivation(v[1..])));
    }
  }

  lemma {:induction false} ReadsPrintStatement(st: Statement, depth: int)
    requires ProperStatement(st)
    ensures Reads(PrintStatement(st, depth), Yield(DerivationOf(st)))
    decreases st, 0
  {
    hide Reads, Lexable, Proper;
    var indent := Indent(depth);
    ReadsBlank(indent);
    if st.child.Absent? {
      ReadsMark(';', Semi);
      ReadsLine(st.tokens, indent, ";", [Semi]);
      assert PrintStatement(st, depth) == indent + (Spaced(st.tokens) + ";") + "\n";
    } else {
      ReadsPrint(st.child.block, depth + 1);
      ReadsBlock(st, depth);
    }
  }

  lemma ReadsBlock(st: Statement, depth: int)
    requires ProperStatement(st) && st.child.Child?
    requires Reads(Print(st.child.block, depth + 1), YieldAll(Derivation(st.child.block)))
    ensures Reads(PrintStatement(st, depth), Yield(DerivationOf(st)))
  {
    hide Reads, Lexable, Proper, Print, Derivation, Indent;
    var indent, ws := Indent(depth), Words(st.tokens);
    var body, inner := Print(st.child.block, depth + 1), YieldAll(Derivation(st.child.block));
    ReadsBlank(indent);
    ReadsMark('{', Open);
    ReadsBlank(" ");
    ReadsConcat(" ", [], "{", [Open]);
    assert " " + "{" == " {" && [] + [Open] == [Open];
    ReadsLine(st.tokens, indent, " {", [Open]);
    var head := indent + (Spaced(st.tokens) + " {") + "\n";
    ReadsConcat(head, ws + [Open], body, inner);
    ReadsEnd(indent);
    ReadsConcat(head + body, ws + [Open] + inner, indent + "}" + "\n", [Close]);
    assert PrintStatement(st, depth) == head + body + (indent + "}" + "\n");
    assert Words([]) == [];
    assert ws + [Open] + inner + [Close] == Yield(DerivationOf(st));
  }

  lemma ReadsEnd(indent: string)
    requires Reads(indent, [])
    ensures Reads(indent + "}" + "\n", [Close])
  {
    hide Reads;
    ReadsMark('}', Close);
    ReadsConcat(indent, [], "}", [Close]);
    ReadsBlank("\n");
    ReadsConcat(indent + "}", [] + [Close], "\n", []);
    assert [] + [Close] + [] == [Close];
  }

  lemma ReadsLine(ws: seq<string>, indent: string, mark: string, ts: seq<Token>)
    requires ws != [] && (forall t | t in ws :: Lexable(t))
    requires Reads(indent, []) && Reads(mark, ts) && mark != "" && mark[0] in WORD_ENDS
    ensures Reads(indent + (Spaced(ws) + mark) + "\n", Words(ws) + ts)
  {
    hide Reads, Lexable;
    ReadsSpaced(ws, mark, ts);
    ReadsBlank("\n");
    ReadsConcat(indent, [], Spaced(ws) + mark, Words(ws) + ts);
    ReadsConcat(indent + (Spaced(ws) + mark), [] + (Words(ws) + ts), "\n", []);
    assert [] + (Words(ws) + ts) + [] == Words(ws) + ts;
  }

  // ---------------------------------------------------------------- the round trips

  /** The words of every tree the parser builds from a text are texts of the tokenizer. */
  lemma {:induction false} TokenTexts(s: string)
    ensures forall t | t in Tokens(s).0 :: t.Word? ==> Lexable(t.text)
    decreases |s|
  {
    hide Lex, Lexable;
    LexNormalText(s);
    var lx := Lex(s);
    if lx.kind !in {EOF, ERROR} {
      TokenTexts(lx.rest);
    }
  }

  ghost predicate LexableWords(ts: seq<Token>) {
    forall t | t in ts :: t.Word? ==> Lexable(t.text)
  }

  lemma LexablePart(ts: seq<Token>, i: nat, j: nat, part: seq<Token>)
    requires LexableWords(ts) && i <= j <= |ts| && part == ts[i..j]
    ensures LexableWords(part)
  {
  }

  lemma ProperConcat(a: seq<Statement>, b: seq<Statement>)
    requires Proper(a) && Proper(b)
    ensures Proper(a + b)
  {
  }

  lemma WordsLexable(ws: seq<string>)
    requires LexableWords(Words(ws))
    ensures forall t | t in ws :: Lexable(t)
  {
    forall t | t in ws
      ensures Lexable(t)
    {
      var i :| 0 <= i < |ws| && ws[i] == t;
      assert Words(ws)[i] in Words(ws);
    }
  }

  lemma {:induction false} MeaningProper(items: seq<Item>)
    requires AllWellFormed(items) && LexableWords(YieldAll(items))
    ensures Proper(MeaningAll(items))
    decreases items, 1
  {
    hide Lexable;
    if items != [] {
      assert YieldAll(items) == Yield(items[0]) + YieldAll(items[1..]);
      MeaningProperItem(items[0]);
      MeaningProper(items[1..]);
    }
  }

  lemma {:induction false} MeaningProperItem(item: Item)
    requires WellFormed(item) && LexableWords(Yield(item))
    ensures ProperStatement(Meaning(item))
    decreases item, 0
  {
    hide Lexable;
    var ts := Yield(item);
    LexablePart(ts, 0, |item.words|, Words(item.words));
    WordsLexable(item.words);
    if item.Block? {
      var k := |item.words| + 1;
      var j := k + |YieldAll(item.body)|;
      LexablePart(ts, k, j, YieldAll(item.body));
      LexablePart(ts, j, j + |item.dangling|, Words(item.dangling));
      MeaningProper(item.body);
      WordsLexable(item.dangling);
      ProperConcat(MeaningAll(item.body), Unfinished(item.dangling));
    }
  }

  /** Every tree the parser accepts is proper and not empty. */
  lemma AcceptedIsProper(s: string, v: seq<Statement>)
    requires ParseText(s) == Accepted(v)
    ensures Proper(v) && v != []
  {
    hide Proper, Lexable;
    var ts := Tokens(s).0;
    AcceptsExactlyTheGrammar(ts, v);
    var items: seq<Item> :| DerivedBy(ts, v, items);
    TokenTexts(s);
    MeaningProper(items);
  }

  /** Printing and parsing again gives the tree back for proper non-empty trees, and for no others. */
  lemma PrintParseRoundTrip(v: seq<Statement>, depth: int)
    ensures ParseText(Print(v, depth)) == Accepted(v) <==> Proper(v) && v != []
  {
    hide Proper, Run, Finish, Print, Derivation;
    if ParseText(Print(v, depth)) == Accepted(v) {
      AcceptedIsProper(Print(v, depth), v);
    }
    if Proper(v) && v != [] {
      var p := Print(v, depth);
      ReadsPrint(v, depth);
      assert p + "" == p;
      assert Tokens("") == ([], true);
      var ts := YieldAll(Derivation(v));
      assert ts + [] == ts;
      assert Tokens(p) == (ts, true);
      DerivationMeans(v);
      SentencesAreAccepted(Derivation(v));
    }
  }

  /** Parse, print, parse: an accepted text and its printed form have the same tree. */
  lemma ParsePrintParse(s: string, v: seq<Statement>, depth: int)
    requires ParseText(s) == Accepted(v)
    ensures ParseText(Print(v, depth)) == ParseText(s)
  {
    AcceptedIsProper(s, v);
    PrintParseRoundTrip(v, depth);
  }

  // ---------------------------------------------------------------- layout

  function Blanks(n: nat): string {
    seq(n, _ => ' ')
  }

  lemma {:induction false} IndentBlanks(depth: nat)
    ensures Indent(depth) == Blanks(2 * depth)
    decreases depth
  {
    if depth > 0 {
      IndentBlanks(depth - 1);
      assert "  " + Blanks(2 * (depth - 1)) == Blanks(2 * depth);
    }
  }

  lemma {:induction false} SpacedJoins(ws: seq<string>)
    requires ws != []
    ensures Spaced(ws) == Join(ws, " ")
    decreases |ws|
  {
    if |ws| > 1 {
      SpacedJoins(ws[1..]);
    }
  }

  /**
   The layout: two blanks for each level, the words with one blank between them, and `;` or the
   block in braces, whose statements stand one level deeper on lines of their own.
   */
  lemma Layout(words: seq<string>, block: seq<Statement>, depth: nat)
    requires words != []
    ensures Print([Statement(words, Absent)], depth) == Blanks(2 * depth) + Join(words, " ") + ";" + "\n"
    ensures Print([Statement(words, Child(block))], depth) ==
            Blanks(2 * depth) + Join(words, " ") + (" {\n" + Print(block, depth + 1) + Blanks(2 * depth) + "}") + "\n"
  {
    IndentBlanks(depth);
    SpacedJoins(words);
    PrintOne(Statement(words, Absent), depth);
    PrintOne(Statement(words, Child(block)), depth);
  }

  lemma PrintOne(st: Statement, depth: int)
    ensures Print([st], depth) == PrintStatement(st, depth)
  {
    hide PrintStatement;
    assert [st][1..] == [];
    assert PrintStatement(st, depth) + "" == PrintStatement(st, depth);
  }

  /** Statements are printed one behind the other. */
  lemma {:induction false} PrintConcat(a: seq<Statement>, b: seq<Statement>, depth: int)
    ensures Print(a + b, depth) == Print(a, depth) + Print(b, depth)
    decreases |a|
  {
    hide PrintStatement;
    if a == [] {
      assert a + b == b;
    } else {
      assert (a + b)[0] == a[0] && (a + b)[1..] == a[1..] + b;
      PrintConcat(a[1..], b, depth);
      var first := PrintStatement(a[0], depth);
      assert first + (Print(a[1..], depth) + Print(b, depth)) == Print(a, depth) + Print(b, depth);
    }
  }
}

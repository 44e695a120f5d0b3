/**
 The grammar of configuration files, given by derivation trees, and the proof that the stack
 machine accepts exactly the sentences of the grammar and builds the tree they mean.

   file    = item+
   item    = word+ ";"  |  word+ "{" body "}"
   body    = item* [ word+ ]        -- the last statement of a block may lack its ";"
 */
module ConfigGrammar {
  import opened Sequences
  import opened ConfigLexer
  import opened ConfigMachine

  datatype Item =
    | Simple(words: seq<string>)
    | Block(words: seq<string>, body: seq<Item>, dangling: seq<string>)

  predicate WellFormed(item: Item) {
    && item.words != []
    && (item.Block? ==> forall i | 0 <= i < |item.body| :: WellFormed(item.body[i]))
  }

  predicate AllWellFormed(items: seq<Item>) {
    forall i | 0 <= i < |items| :: WellFormed(items[i])
  }

  function Words(ws: seq<string>): (ts: seq<Token>)
    ensures |ts| == |ws| && forall i | 0 <= i < |ws| :: ts[i] == Word(ws[i])
  {
    seq(|ws|, i requires 0 <= i < |ws| => Word(ws[i]))
  }

  /** The sentence a derivation tree derives. */
  function Yield(item: Item): seq<Token> {
    match item
    case Simple(words) => Words(words) + [Semi]
    case Block(words, body, dangling) => Words(words) + [Open] + YieldAll(body) + Words(dangling) + [Close]
  }

  function YieldAll(items: seq<Item>): seq<Token> {
    if items == [] then [] else Yield(items[0]) + YieldAll(items[1..])
  }

  /** The statement a derivation tree stands for. */
  function Meaning(item: Item): Statement {
    match item
    case Simple(words) => Statement(words, Absent)
    case Block(words, body, dangling) => Statement(words, Child(MeaningAll(body) + Unfinished(dangling)))
  }

  function MeaningAll(items: seq<Item>): (v: seq<Statement>)
    ensures |v| == |items|
  {
    if items == [] then [] else [Meaning(items[0])] + MeaningAll(items[1..])
  }

  function Unfinished(words: seq<string>): seq<Statement> {
    if words == [] then [] else [Statement(words, Absent)]
  }

  /** `ts` is a file of the grammar and `v` is its tree. */
  ghost predicate Derives(ts: seq<Token>, v: seq<Statement>) {
    exists items: seq<Item> :: DerivedBy(ts, v, items)
  }

  ghost predicate DerivedBy(ts: seq<Token>, v: seq<Statement>, items: seq<Item>) {
    items != [] && AllWellFormed(items) && ts == YieldAll(items) && v == MeaningAll(items)
  }

  lemma {:induction false} YieldConcat(a: seq<Item>, b: seq<Item>)
    ensures YieldAll(a + b) == YieldAll(a) + YieldAll(b)
    ensures MeaningAll(a + b) == MeaningAll(a) + MeaningAll(b)
  {
    if a == [] {
      assert a + b == b;
    } else {
      assert (a + b)[0] == a[0] && (a + b)[1..] == a[1..] + b;
      YieldConcat(a[1..], b);
      assert Yield(a[0]) + (YieldAll(a[1..]) + YieldAll(b)) == YieldAll(a) + YieldAll(b);
    }
  }

  lemma YieldSnoc(a: seq<Item>, item: Item)
    ensures YieldAll(a + [item]) == YieldAll(a) + Yield(item)
    ensures MeaningAll(a + [item]) == MeaningAll(a) + [Meaning(item)]
  {
    YieldConcat(a, [item]);
    assert [item][1..] == [];
    assert YieldAll([item]) == Yield(item) + YieldAll([]);
    assert MeaningAll([item]) == [Meaning(item)] + MeaningAll([]);
  }

  // ---------------------------------------------------------------- every sentence is accepted

  /** A configuration in which the next statement may begin. */
  ghost predicate Between(m: Machine) {
    Consistent(m) && m.Running? && m.frames != [] && m.last != NORMAL
  }

  /** `m` after adding `vs` to its innermost block, `last` being the last token read. */
  function Extended(m: Machine, vs: seq<Statement>, last: TokenType): Machine
    requires m.Running? && m.frames != []
  {
    m.(frames := Front(m.frames) + [Last(m.frames) + vs], last := last)
  }

  lemma ExtendNone(m: Machine)
    requires m.Running? && m.frames != []
    ensures Extended(m, [], m.last) == m
  {
    assert Last(m.frames) + [] == Last(m.frames);
    assert Front(m.frames) + [Last(m.frames)] == m.frames;
  }

  lemma ExtendsLast(m: Machine, vs: seq<Statement>, last: TokenType)
    requires m.Running? && m.frames != []
    ensures Extended(m, vs, last).Running? && Extended(m, vs, last).frames != []
    ensures Extended(m, vs, last).last == last
  {
  }

  lemma ExtendTwice(m: Machine, a: seq<Statement>, b: seq<Statement>, l1: TokenType, l2: TokenType)
    requires m.Running? && m.frames != []
    ensures Extended(Extended(m, a, l1), b, l2) == Extended(m, a + b, l2)
  {
    var once := Extended(m, a, l1);
    assert Front(once.frames) == Front(m.frames);
    assert Last(once.frames) + b == Last(m.frames) + (a + b);
  }

  lemma {:induction false} RunWords(m: Machine, ws: seq<string>)
    requires Between(m) && ws != []
    ensures Run(m, Words(ws)) == Extended(m, [Statement(ws, Absent)], NORMAL)
    decreases |ws|
  {
    hide Consistent, Step, Run, Extended;
    var n := |ws| - 1;
    assert Words(ws) == Words(ws[..n]) + [Word(ws[n])];
    RunSnoc(m, Words(ws[..n]), Word(ws[n]));
    if n == 0 {
      assert Words(ws[..n]) == [] && [ws[0]] == ws;
      RunNone(m);
      FirstWord(m, ws[0]);
    } else {
      RunWords(m, ws[..n]);
      NextWord(m, ws[..n], ws[n]);
      assert ws[..n] + [ws[n]] == ws;
    }
  }

  lemma FirstWord(m: Machine, w: string)
    requires Between(m)
    ensures Step(m, Word(w)) == Extended(m, [Statement([w], Absent)], NORMAL)
  {
    hide Consistent;
  }

  lemma NextWord(m: Machine, ws: seq<string>, w: string)
    requires m.Running? && m.frames != []
    requires Consistent(Extended(m, [Statement(ws, Absent)], NORMAL))
    ensures Step(Extended(m, [Statement(ws, Absent)], NORMAL), Word(w)) ==
            Extended(m, [Statement(ws + [w], Absent)], NORMAL)
  {
    hide Consistent;
    var before := Extended(m, [Statement(ws, Absent)], NORMAL);
    assert Last(before.frames) == Last(m.frames) + [Statement(ws, Absent)];
    assert Front(Last(before.frames)) == Last(m.frames);
    assert Front(before.frames) == Front(m.frames);
  }

  lemma {:induction false} RunItem(m: Machine, item: Item)
    requires Between(m) && WellFormed(item)
    ensures Run(m, Yield(item)) ==
              Extended(m, [Meaning(item)], if item.Simple? then STATEMENT_END else END_BLOCK)
    decreases item, 0
  {
    hide Consistent, Step, Run, Extended, YieldAll, MeaningAll;
    var words := Words(item.words);
    RunWords(m, item.words);
    OpenedStatement(m, item.words);
    var named := Extended(m, [Statement(item.words, Absent)], NORMAL);
    if item.Simple? {
      RunSnoc(m, words, Semi);
    } else {
      RunSnoc(m, words, Open);
      var entered := Step(named, Open);
      RunConcat(m, words + [Open], YieldAll(item.body));
      RunItems(entered, item.body);
      var filled := Run(entered, YieldAll(item.body));
      var inside := words + [Open] + YieldAll(item.body);
      RunConcat(m, inside, Words(item.dangling));
      RunDangling(filled, item.dangling);
      RunSnoc(m, inside + Words(item.dangling), Close);
      RunClose(m, item.words, entered, MeaningAll(item.body), item.dangling, Run(filled, Words(item.dangling)));
    }
  }

  /** What `;` and `{` do behind the words of a new statement. */
  lemma OpenedStatement(m: Machine, words: seq<string>)
    requires Between(m) && words != []
    requires Consistent(Extended(m, [Statement(words, Absent)], NORMAL))
    ensures var named := Extended(m, [Statement(words, Absent)], NORMAL);
            && Step(named, Semi) == Extended(m, [Statement(words, Absent)], STATEMENT_END)
            && Step(named, Open) == Entered(m, words)
            && Between(Step(named, Open)) && Step(named, Open).last == START_BLOCK
            && Consistent(m)
  {
  }

  function Entered(m: Machine, words: seq<string>): Machine
    requires m.Running? && m.frames != []
  {
    Running(Extended(m, [Statement(words, Absent)], NORMAL).frames + [[]], START_BLOCK, m.starts + 1, m.ends - 1)
  }

  lemma RunDangling(m: Machine, words: seq<string>)
    requires Between(m)
    ensures Run(m, Words(words)) == Extended(m, Unfinished(words), if words == [] then m.last else NORMAL)
  {
    if words == [] {
      assert Words(words) == [];
      ExtendNone(m);
    } else {
      RunWords(m, words);
    }
  }

  /** Closing a block that was opened behind `words` hangs it under those words. */
  lemma RunClose(m: Machine, words: seq<string>, entered: Machine, body: seq<Statement>, dangling: seq<string>,
                 full: Machine)
    requires Between(m) && words != [] && entered == Entered(m, words)
    requires Consistent(full) && exists l1, l2 | l1 != START && l2 != START ::
               full == Extended(Extended(entered, body, l1), Unfinished(dangling), l2)
    ensures Step(full, Close) == Extended(m, [Statement(words, Child(body + Unfinished(dangling)))], END_BLOCK)
  {
    var block := body + Unfinished(dangling);
    FullFrames(m, words, entered, body, dangling, full);
    var below := Front(full.frames);
    assert Front(below) == Front(m.frames);
    assert Front(Last(below)) == Last(m.frames);
    assert Last(Last(below)) == Statement(words, Absent);
  }

  lemma FullFrames(m: Machine, words: seq<string>, entered: Machine, body: seq<Statement>, dangling: seq<string>,
                   full: Machine)
    requires m.Running? && m.frames != [] && entered == Entered(m, words)
    requires exists l1, l2 | l1 != START && l2 != START ::
               full == Extended(Extended(entered, body, l1), Unfinished(dangling), l2)
    ensures full.Running? && full.last != START
    ensures Front(full.frames) == Front(m.frames) + [Last(m.frames) + [Statement(words, Absent)]]
    ensures Last(full.frames) == body + Unfinished(dangling)
    ensures full.starts == m.starts + 1 && full.ends == m.ends - 1
  {
    var l1, l2 :| l1 != START && l2 != START &&
                  full == Extended(Extended(entered, body, l1), Unfinished(dangling), l2);
    ExtendTwice(entered, body, Unfinished(dangling), l1, l2);
    assert Last(entered.frames) == [];
    assert Front(entered.frames) == Extended(m, [Statement(words, Absent)], NORMAL).frames;
    assert [] + (body + Unfinished(dangling)) == body + Unfinished(dangling);
  }

  lemma {:induction false} RunItems(m: Machine, items: seq<Item>)
    requires Between(m) && AllWellFormed(items)
    ensures var m' := Run(m, YieldAll(items));
            && Between(m')
            && m' == Extended(m, MeaningAll(items), m'.last)
            && m'.last in {STATEMENT_END, END_BLOCK, m.last}
            && (items != [] ==> m'.last != m.last || m.last in {STATEMENT_END, END_BLOCK})
    decreases items
  {
    hide Step, Consistent, Yield, Meaning, WellFormed, Run, Extended;
    if items == [] {
      RunNone(m);
      ExtendNone(m);
    } else {
      RunConcat(m, Yield(items[0]), YieldAll(items[1..]));
      RunItem(m, items[0]);
      ExtendsLast(m, [Meaning(items[0])], if items[0].Simple? then STATEMENT_END else END_BLOCK);
      var next := Run(m, Yield(items[0]));
      RunItems(next, items[1..]);
      ExtendTwice(m, [Meaning(items[0])], MeaningAll(items[1..]), next.last, Run(next, YieldAll(items[1..])).last);
    }
  }

  lemma FinishBetween(m: Machine)
    requires Between(m) && m.starts == 0 && m.last in {STATEMENT_END, END_BLOCK}
    ensures Finish(m, true) == Accepted(Last(m.frames))
  {
  }

  /** Completeness: a sentence of the grammar is accepted with the tree it means. */
  lemma SentencesAreAccepted(items: seq<Item>)
    requires items != [] && AllWellFormed(items)
    ensures Finish(Run(INITIAL, YieldAll(items)), true) == Accepted(MeaningAll(items))
  {
    hide Run, Step, Consistent, WellFormed, YieldAll, MeaningAll;
    InitialConsistent();
    RunItems(INITIAL, items);
    var m := Run(INITIAL, YieldAll(items));
    FinishBetween(m);
    assert Front(INITIAL.frames) == [] && Last(INITIAL.frames) == [];
    assert [] + MeaningAll(items) == MeaningAll(items);
  }

  /** Words in front of `}` need no `;` and are a statement of the block all the same. */
  lemma UnfinishedStatementKept(words: seq<string>, inner: seq<string>)
    requires words != [] && inner != []
    ensures Finish(Run(INITIAL, Words(words) + [Open] + Words(inner) + [Close]), true) ==
            Accepted([Statement(words, Child([Statement(inner, Absent)]))])
  {
    hide Run, Step, Finish, Consistent;
    var item := Block(words, [], inner);
    OneBlock(words, inner);
    SentencesAreAccepted([item]);
  }

  lemma OneBlock(words: seq<string>, inner: seq<string>)
    requires words != [] && inner != []
    ensures var item := Block(words, [], inner);
            && AllWellFormed([item])
            && YieldAll([item]) == Words(words) + [Open] + Words(inner) + [Close]
            && MeaningAll([item]) == [Statement(words, Child([Statement(inner, Absent)]))]
  {
    var item := Block(words, [], inner);
    assert [item][1..] == [] && YieldAll([]) == [] && MeaningAll([]) == [];
    assert Words(words) + [Open] + [] == Words(words) + [Open];
    assert Yield(item) == Words(words) + [Open] + Words(inner) + [Close];
    assert Yield(item) + [] == Yield(item);
    assert [] + [Statement(inner, Absent)] == [Statement(inner, Absent)];
    assert Meaning(item) == Statement(words, Child([Statement(inner, Absent)]));
  }

  // ---------------------------------------------------------------- only sentences are accepted

  /** What has been read of one block: whole items, then words not yet followed by `;` or `{`. */
  datatype Partial = Partial(items: seq<Item>, words: seq<string>)

  function BlockOf(p: Partial): seq<Statement> {
    MeaningAll(p.items) + Unfinished(p.words)
  }

  function ReadOf(p: Partial): seq<Token> {
    YieldAll(p.items) + Words(p.words)
  }

  function ReadOfAll(ps: seq<Partial>): seq<Token> {
    if ps == [] then [] else ReadOfAll(Front(ps)) + ReadOf(Last(ps)) + [Open]
  }

  lemma PartialNone()
    ensures ReadOf(Partial([], [])) == [] && BlockOf(Partial([], [])) == []
  {
  }

  /** `ps`, one entry for each frame, explains how `m` arose from reading `ts`. */
  ghost predicate Explains(ps: seq<Partial>, m: Machine, ts: seq<Token>) {
    && Consistent(m) && m.Running? && |ps| == |m.frames| > 0
    && (forall i | 0 <= i < |ps| :: AllWellFormed(ps[i].items) && m.frames[i] == BlockOf(ps[i]))
    && (forall i | 0 <= i < |ps| - 1 :: ps[i].words != [])
    && (Last(ps).words != [] <==> m.last == NORMAL)
    && ts == ReadAll(ps)
  }

  function ReadAll(ps: seq<Partial>): seq<Token>
    requires ps != []
  {
    ReadOfAll(Front(ps)) + ReadOf(Last(ps))
  }

  lemma ExplainWord(ps: seq<Partial>, m: Machine, ts: seq<Token>, text: string) returns (ps': seq<Partial>)
    requires Explains(ps, m, ts)
    ensures Explains(ps', Step(m, Word(text)), ts + [Word(text)])
  {
    hide Consistent, Step, YieldAll, MeaningAll, BlockOf, ReadOf, ReadOfAll;
    var p := Last(ps);
    ps' := Front(ps) + [p.(words := p.words + [text])];
    assert Front(ps') == Front(ps);
    WordRead(p, text);
    WordMeans(p, m, text);
    assert ReadOfAll(Front(ps)) + (ReadOf(p) + [Word(text)]) == ts + [Word(text)];
  }

  lemma WordRead(p: Partial, text: string)
    ensures ReadOf(p.(words := p.words + [text])) == ReadOf(p) + [Word(text)]
  {
    hide YieldAll;
    assert Words(p.words + [text]) == Words(p.words) + [Word(text)];
  }

  lemma WordMeans(p: Partial, m: Machine, text: string)
    requires Consistent(m) && m.Running? && m.frames != [] && Last(m.frames) == BlockOf(p)
    requires p.words != [] <==> m.last == NORMAL
    ensures var m' := Step(m, Word(text));
            && m'.Running? && m'.last == NORMAL
            && m'.frames == Front(m.frames) + [BlockOf(p.(words := p.words + [text]))]
  {
    hide Consistent, MeaningAll;
    if m.last != NORMAL {
      assert p.words + [text] == [text];
      assert MeaningAll(p.items) + [] == MeaningAll(p.items);
    } else {
      assert Front(Last(m.frames)) == MeaningAll(p.items);
    }
  }

  lemma ExplainSemi(ps: seq<Partial>, m: Machine, ts: seq<Token>) returns (ps': seq<Partial>)
    requires Explains(ps, m, ts) && m.last == NORMAL
    ensures Explains(ps', Step(m, Semi), ts + [Semi])
  {
    hide Consistent, YieldAll, MeaningAll, BlockOf, ReadOf, ReadOfAll;
    var p := Last(ps);
    var p' := Partial(p.items + [Simple(p.words)], []);
    ps' := Front(ps) + [p'];
    assert Front(ps') == Front(ps);
    SemiRead(p);
    assert m.frames == Front(m.frames) + [BlockOf(p')];
    assert ReadOfAll(Front(ps)) + (ReadOf(p) + [Semi]) == ts + [Semi];
  }

  lemma SemiRead(p: Partial)
    requires p.words != []
    ensures var p' := Partial(p.items + [Simple(p.words)], []);
            ReadOf(p') == ReadOf(p) + [Semi] && BlockOf(p') == BlockOf(p)
  {
    hide YieldAll, MeaningAll;
    YieldSnoc(p.items, Simple(p.words));
    assert Words([]) == [];
  }

  lemma ExplainOpen(ps: seq<Partial>, m: Machine, ts: seq<Token>) returns (ps': seq<Partial>)
    requires Explains(ps, m, ts) && m.last == NORMAL
    ensures Explains(ps', Step(m, Open), ts + [Open])
  {
    hide Consistent, YieldAll, MeaningAll;
    ps' := ps + [Partial([], [])];
    assert Front(ps') == ps;
    PartialNone();
    assert ReadOfAll(ps) + [] == ts + [Open];
  }

  /** `ps` after the innermost block has been closed. */
  function Folded(ps: seq<Partial>): seq<Partial>
    requires |ps| > 1
  {
    var inner, outer := Last(ps), Last(Front(ps));
    Front(Front(ps)) + [Partial(outer.items + [Block(outer.words, inner.items, inner.words)], [])]
  }

  lemma FoldedReads(ps: seq<Partial>)
    requires |ps| > 1
    ensures ReadAll(Folded(ps)) == ReadAll(ps) + [Close]
  {
    hide YieldAll, MeaningAll;
    var inner, outer := Last(ps), Last(Front(ps));
    var item := Block(outer.words, inner.items, inner.words);
    YieldSnoc(outer.items, item);
    assert Front(Folded(ps)) == Front(Front(ps));
    assert Words([]) == [];
    assert ReadOf(Last(Folded(ps))) == ReadOf(outer) + [Open] + ReadOf(inner) + [Close];
  }

  lemma ExplainClose(ps: seq<Partial>, m: Machine, ts: seq<Token>) returns (ps': seq<Partial>)
    requires Explains(ps, m, ts) && |ps| > 1 && m.last != START
    ensures Explains(ps', Step(m, Close), ts + [Close])
  {
    hide Consistent, Step, YieldAll, MeaningAll, ReadAll, BlockOf;
    ps' := Folded(ps);
    FoldedReads(ps);
    FoldedMeans(ps, m);
    WellFormedSnoc(ps);
  }

  lemma WellFormedSnoc(ps: seq<Partial>)
    requires |ps| > 1 && AllWellFormed(Last(ps).items)
    requires AllWellFormed(Last(Front(ps)).items) && Last(Front(ps)).words != []
    ensures AllWellFormed(Last(Folded(ps)).items)
  {
  }

  /** Closing the innermost block gives the machine the frames that the folded explanation has. */
  lemma FoldedMeans(ps: seq<Partial>, m: Machine)
    requires Consistent(m) && m.Running? && |ps| == |m.frames| > 1 && m.last != START
    requires Last(m.frames) == BlockOf(Last(ps)) && Last(Front(m.frames)) == BlockOf(Last(Front(ps)))
    requires Last(Front(ps)).words != []
    ensures Step(m, Close).Running? && Step(m, Close).last == END_BLOCK
    ensures Step(m, Close).frames == Front(Front(m.frames)) + [BlockOf(Last(Folded(ps)))]
  {
    hide Consistent, YieldAll, MeaningAll;
    var inner, outer := Last(ps), Last(Front(ps));
    var item := Block(outer.words, inner.items, inner.words);
    YieldSnoc(outer.items, item);
    assert Front(Last(Front(m.frames))) == MeaningAll(outer.items);
    assert BlockOf(Last(Folded(ps))) == MeaningAll(outer.items) + [Meaning(item)];
  }

  lemma StepKeepsRunning(m: Machine, t: Token)
    requires Consistent(m) && Step(m, t).Running? && Step(m, t).frames != []
    ensures m.Running? && m.frames != []
    ensures t in {Semi, Open} ==> m.last == NORMAL
    ensures t == Close ==> |m.frames| > 1 && m.last != START
  {
  }

  lemma FinishAccepts(m: Machine, v: seq<Statement>)
    requires Consistent(m) && Finish(m, true) == Accepted(v)
    ensures m.Running? && m.frames == [v] && m.last != NORMAL && v != []
  {
  }

  /** Every run that has neither failed nor closed the outermost block has an explanation. */
  lemma {:induction false} Explain(ts: seq<Token>) returns (ps: seq<Partial>)
    requires Run(INITIAL, ts).Running? && Run(INITIAL, ts).frames != []
    ensures Explains(ps, Run(INITIAL, ts), ts)
    decreases |ts|
  {
    hide Consistent, Step, YieldAll, MeaningAll;
    InitialConsistent();
    if ts == [] {
      ps := [Partial([], [])];
      PartialNone();
      RunNone(INITIAL);
    } else {
      var before, t := ts[..|ts| - 1], ts[|ts| - 1];
      assert ts == before + [t];
      RunSnoc(INITIAL, before, t);
      var m := Run(INITIAL, before);
      StepKeepsRunning(m, t);
      ps := Explain(before);
      match t {
        case Word(text) => ps := ExplainWord(ps, m, before, text);
        case Semi => ps := ExplainSemi(ps, m, before);
        case Open => ps := ExplainOpen(ps, m, before);
        case Close => ps := ExplainClose(ps, m, before);
      }
    }
  }

  /** The machine accepts exactly the files of the grammar, each with the tree it means. */
  lemma AcceptsExactlyTheGrammar(ts: seq<Token>, v: seq<Statement>)
    ensures Finish(Run(INITIAL, ts), true) == Accepted(v) <==> Derives(ts, v)
  {
    hide Consistent, Step, Finish, YieldAll;
    InitialConsistent();
    if Finish(Run(INITIAL, ts), true) == Accepted(v) {
      FinishAccepts(Run(INITIAL, ts), v);
      var ps := Explain(ts);
      assert Words([]) == [] && ReadOfAll([]) == [] && Front(ps) == [];
      assert DerivedBy(ts, v, ps[0].items);
    }
    if Derives(ts, v) {
      var items: seq<Item> :| DerivedBy(ts, v, items);
      SentencesAreAccepted(items);
    }
  }

  /** Two derivations of one sentence mean the same tree. */
  lemma GrammarIsUnambiguous(ts: seq<Token>, v: seq<Statement>, w: seq<Statement>)
    requires Derives(ts, v) && Derives(ts, w)
    ensures v == w
  {
    AcceptsExactlyTheGrammar(ts, v);
    AcceptsExactlyTheGrammar(ts, w);
  }

  // ---------------------------------------------------------------- counters and faults

  function Depth(ts: seq<Token>): int {
    if ts == [] then 0
    else Depth(Front(ts)) + Change(Last(ts))
  }

  function KindOf(t: Token): TokenType {
    match t
    case Word(_) => NORMAL
    case Semi => STATEMENT_END
    case Open => START_BLOCK
    case Close => END_BLOCK
  }

  function Change(t: Token): int {
    if t == Open then 1 else if t == Close then -1 else 0
  }

  lemma StepMoves(m: Machine, t: Token)
    requires Consistent(m) && Step(m, t).Running?
    ensures var m' := Step(m, t);
            m.Running? && m'.last == KindOf(t) && m'.starts == m.starts + Change(t) && m'.ends == -m'.starts
            && |m'.frames| == 1 + m'.starts
  {
  }

  lemma StepFaults(m: Machine, t: Token)
    requires Consistent(m) && m.Running?
    ensures Step(m, t).Faulted? <==>
              (t == Open && m.last == START_BLOCK) || ((t.Word? || t == Close) && m.starts < 0)
  {
  }

  /** The two counters both hold the brace depth, with opposite signs. */
  lemma {:induction false} CountersHoldDepth(ts: seq<Token>)
    requires Run(INITIAL, ts).Running?
    ensures var m := Run(INITIAL, ts);
            && m.starts == Depth(ts) && m.ends == -Depth(ts) && |m.frames| == 1 + Depth(ts)
            && m.last == if ts == [] then START else KindOf(Last(ts))
    decreases |ts|
  {
    hide Consistent, Step;
    InitialConsistent();
    if ts == [] {
      RunNone(INITIAL);
    } else {
      assert ts == Front(ts) + [Last(ts)];
      RunSnoc(INITIAL, Front(ts), Last(ts));
      StepMoves(Run(INITIAL, Front(ts)), Last(ts));
      CountersHoldDepth(Front(ts));
    }
  }

  lemma StepRejects(m: Machine, t: Token)
    requires Consistent(m) && m.Running?
    ensures Step(m, t).Rejected? <==>
              match t
              case Word(_) => false
              case Semi => m.last != NORMAL
              case Open => m.last != NORMAL && m.last != START_BLOCK
              case Close => m.last == START
  {
  }

  /** Behind `ts`, the token `t` has no defined meaning. */
  predicate FaultPlace(ts: seq<Token>, t: Token) {
    || (t == Open && ts != [] && Last(ts) == Open)
    || ((t.Word? || t == Close) && Depth(ts) < 0)
  }

  /** Behind `ts`, the parser refuses the token `t`. */
  predicate RejectPlace(ts: seq<Token>, t: Token) {
    match t
    case Word(_) => false
    case Semi => ts == [] || !Last(ts).Word?
    case Open => ts == [] || !(Last(ts).Word? || Last(ts) == Open)
    case Close => ts == []
  }

  lemma NextFails(ts: seq<Token>, t: Token)
    requires Run(INITIAL, ts).Running?
    ensures Run(INITIAL, ts + [t]).Faulted? <==> FaultPlace(ts, t)
    ensures Run(INITIAL, ts + [t]).Rejected? <==> RejectPlace(ts, t)
  {
    hide Consistent, Step;
    InitialConsistent();
    CountersHoldDepth(ts);
    RunSnoc(INITIAL, ts, t);
    StepFaults(Run(INITIAL, ts), t);
    StepRejects(Run(INITIAL, ts), t);
  }

  predicate FaultAt(ts: seq<Token>, n: nat) {
    n < |ts| && FaultPlace(ts[..n], ts[n])
  }

  predicate RejectAt(ts: seq<Token>, n: nat) {
    n < |ts| && RejectPlace(ts[..n], ts[n])
  }

  /** Somewhere a token has no defined meaning and none before it is refused. */
  ghost predicate MeetsFault(ts: seq<Token>) {
    exists n: nat :: FaultAt(ts, n) && forall k: nat | k < n :: !RejectAt(ts, k)
  }

  lemma PlacesOfFront(ts: seq<Token>)
    requires ts != []
    ensures forall n: nat | n < |ts| - 1 :: FaultAt(ts, n) == FaultAt(Front(ts), n)
    ensures forall n: nat | n < |ts| - 1 :: RejectAt(ts, n) == RejectAt(Front(ts), n)
    ensures FaultAt(ts, |ts| - 1) == FaultPlace(Front(ts), Last(ts))
    ensures RejectAt(ts, |ts| - 1) == RejectPlace(Front(ts), Last(ts))
  {
    assert forall n: nat | n < |ts| - 1 :: Front(ts)[..n] == ts[..n];
  }

  /** A run goes on exactly while there is neither place, and faults exactly if a fault comes first. */
  lemma {:induction false} RunFails(ts: seq<Token>)
    ensures Run(INITIAL, ts).Running? <==> forall n: nat :: !FaultAt(ts, n) && !RejectAt(ts, n)
    ensures Run(INITIAL, ts).Faulted? <==> MeetsFault(ts)
    decreases |ts|
  {
    hide Consistent, Step, FaultAt, RejectAt, FaultPlace, RejectPlace;
    InitialConsistent();
    PlacesEnd(ts);
    if ts == [] {
      RunNone(INITIAL);
    } else {
      var front, t := Front(ts), Last(ts);
      assert ts == front + [t];
      RunFails(front);
      PlacesEnd(front);
      PlacesOfFront(ts);
      RunSnoc(INITIAL, front, t);
      FailureStays(Run(INITIAL, front), t);
      if Run(INITIAL, front).Running? {
        NextFails(front, t);
      } else if Run(INITIAL, front).Faulted? {
        FaultStays(ts);
      } else {
        RejectionStays(ts);
      }
    }
  }

  lemma PlacesEnd(ts: seq<Token>)
    ensures forall n: nat | |ts| <= n :: !FaultAt(ts, n) && !RejectAt(ts, n)
  {
  }

  lemma FailureStays(m: Machine, t: Token)
    requires Consistent(m)
    ensures !m.Running? ==> Step(m, t) == m
  {
  }

  lemma FaultStays(ts: seq<Token>)
    requires ts != [] && MeetsFault(Front(ts))
    ensures MeetsFault(ts)
  {
    hide FaultPlace, RejectPlace;
    PlacesOfFront(ts);
    var n: nat :| FaultAt(Front(ts), n) && forall k: nat | k < n :: !RejectAt(Front(ts), k);
    assert FaultAt(ts, n);
  }

  lemma RejectionStays(ts: seq<Token>)
    requires ts != [] && !MeetsFault(Front(ts)) && exists n: nat :: FaultAt(Front(ts), n) || RejectAt(Front(ts), n)
    ensures !MeetsFault(ts) && exists n: nat :: FaultAt(ts, n) || RejectAt(ts, n)
  {
    hide FaultPlace, RejectPlace;
    PlacesOfFront(ts);
    PlacesEnd(Front(ts));
    var p: nat :| FaultAt(Front(ts), p) || RejectAt(Front(ts), p);
    assert FaultAt(ts, p) || RejectAt(ts, p);
    var r: nat := p;
    if !RejectAt(Front(ts), p) {
      r :| r < p && RejectAt(Front(ts), r);
    }
    assert RejectAt(ts, r);
    forall n: nat | FaultAt(ts, n)
      ensures exists k: nat :: k < n && RejectAt(ts, k)
    {
      PlacesEnd(ts);
      if n < |ts| - 1 {
        assert FaultAt(Front(ts), n);
        var k: nat :| k < n && RejectAt(Front(ts), k);
        assert RejectAt(ts, k);
      }
    }
  }

  /**
   A text meets undefined behaviour exactly when one of its tokens is a `{` right behind a `{`, or
   a word or `}` when more blocks were closed than opened, and no token before it is refused.
   */
  lemma FaultsExactly(s: string)
    ensures ParseText(s) == Fault <==> MeetsFault(Tokens(s).0)
  {
    hide Tokens, Run, Step, Consistent, MeetsFault;
    InitialConsistent();
    RunFails(Tokens(s).0);
    FinishFaults(Run(INITIAL, Tokens(s).0), Tokens(s).1);
  }

  lemma FinishFaults(m: Machine, clean: bool)
    requires Consistent(m)
    ensures Finish(m, clean) == Fault <==> m.Faulted?
  {
  }

  /** Two opening braces in a row. */
  lemma TwoBracesFault()
    ensures ParseText("a {{") == Fault
  {
    hide Lex;
    assert "a {{" == "a" + " {{";
    LexLexable("a", " {{");
    LexBraces();
    var ts := [Word("a"), Open, Open];
    TokensOfBraces();
    assert ts[..2] == [Word("a"), Open];
    assert FaultAt(ts, 2);
    assert ts[..0] == [] && ts[..1] == [Word("a")];
    assert !RejectAt(ts, 0) && !RejectAt(ts, 1);
    FaultsExactly("a {{");
  }

  lemma LexBraces()
    ensures Lex(" {{") == Lexeme(START_BLOCK, "{", "{") && Lex("{") == Lexeme(START_BLOCK, "{", "")
    ensures Lex("") == Lexeme(EOF, "", "")
  {
    assert " {{"[1..] == "{{" && "{{"[1..] == "{" && "{"[1..] == "";
  }

  lemma TokensOfBraces()
    requires Lex("a {{") == Lexeme(NORMAL, "a", " {{")
    ensures Tokens("a {{").0 == [Word("a"), Open, Open]
  {
    hide Lex;
    LexBraces();
    assert Tokens("").0 == [];
    assert Tokens("{").0 == [Open];
    assert Tokens(" {{").0 == [Open, Open];
  }
}

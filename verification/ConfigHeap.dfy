/**
 The configuration parser and printer on the heap: tree nodes that are filled in place through
 a stack of references, proved against the machine on values.
 */
module ConfigHeap {
  import opened Sequences
  import opened Streams
  import opened ConfigLexer
  import opened ConfigMachine
  import opened ConfigPrinter

  class NginxConfigStatement {
    var tokens: seq<string>
    var child: NginxConfig?

    constructor ()
      ensures tokens == [] && child == null
    {
      tokens, child := [], null;
    }

    method ToString(depth: int, ghost st: Statement, ghost region: set<object>) returns (r: string)
      requires IsStatement(this, st, region)
      ensures r == PrintStatement(st, depth)
      decreases st
    {
      hide Print, Indent, Spaced, AreStatements, PrintStatement;
      r := AppendIndent("", depth);
      r := AppendTokens(r, tokens);
      if child != null {
        r := r + " {\n";
        var body := child.ToString(depth + 1, st.child.block, region);
        r := r + body;
        r := AppendIndent(r, depth);
        r := r + "}";
        r := r + "\n";
        PrintedBlock(st, depth);
      } else {
        r := r + ";";
        r := r + "\n";
        PrintedSimple(st, depth);
      }
    }
  }

  lemma PrintedSimple(st: Statement, depth: int)
    requires st.child.Absent?
    ensures PrintStatement(st, depth) == "" + Indent(depth) + Spaced(st.tokens) + ";" + "\n"
  {
  }

  lemma PrintedBlock(st: Statement, depth: int)
    requires st.child.Child?
    ensures PrintStatement(st, depth) ==
            "" + Indent(depth) + Spaced(st.tokens) + " {\n" + Print(st.child.block, depth + 1) + Indent(depth) +
            "}" + "\n"
  {
    hide Print, Indent, Spaced;
    var i, s, b := Indent(depth), Spaced(st.tokens), Print(st.child.block, depth + 1);
    assert i + s + (" {\n" + b + i + "}") + "\n" == "" + i + s + " {\n" + b + i + "}" + "\n";
  }

  /** The indentation loop, which both ends of a block run. */
  method AppendIndent(text: string, depth: int) returns (r: string)
    ensures r == text + Indent(depth)
  {
    r := text;
    var i := 0;
    while i < depth
      invariant i == 0 || i <= depth
      invariant r + Indent(depth - i) == text + Indent(depth)
    {
      r := r + "  ";
      i := i + 1;
    }
  }

  /** The token loop, with a space in front of every token but the first. */
  method AppendTokens(text: string, tokens: seq<string>) returns (r: string)
    ensures r == text + Spaced(tokens)
  {
    hide Spaced;
    r := text;
    var i := 0;
    SpacedNone();
    assert tokens[..0] == [] && text + "" == text;
    while i < |tokens|
      invariant 0 <= i <= |tokens|
      invariant r == text + Spaced(tokens[..i])
    {
      SpacedSnoc(tokens[..i], tokens[i]);
      assert tokens[..i + 1] == tokens[..i] + [tokens[i]];
      if i != 0 {
        assert text + (Spaced(tokens[..i]) + " " + tokens[i]) == text + Spaced(tokens[..i]) + " " + tokens[i];
        r := r + " ";
      }
      r := r + tokens[i];
      i := i + 1;
    }
    assert tokens[..i] == tokens;
  }

  lemma SpacedNone()
    ensures Spaced([]) == ""
  {
  }

  lemma {:induction false} SpacedSnoc(ws: seq<string>, w: string)
    ensures Spaced(ws + [w]) == if ws == [] then w else Spaced(ws) + " " + w
    decreases |ws|
  {
    if |ws| > 0 {
      assert (ws + [w])[1..] == ws[1..] + [w];
      SpacedSnoc(ws[1..], w);
    }
  }

  class NginxConfig {
    var statements: seq<NginxConfigStatement>

    constructor ()
      ensures statements == []
    {
      statements := [];
    }

    method ToString(depth: int, ghost v: seq<Statement>, ghost region: set<object>) returns (r: string)
      requires AreStatements(statements, v, region)
      ensures r == Print(v, depth)
      decreases v
    {
      r := "";
      for i := 0 to |statements|
        invariant r + Print(v[i..], depth) == Print(v, depth)
      {
        var line := statements[i].ToString(depth, v[i], region);
        assert v[i..][0] == v[i] && v[i..][1..] == v[i + 1..];
        r := r + line;
      }
      assert v[|statements|..] == [];
    }
  }

  /** The nodes `xs` hold the tree `v`; everything below them lies in `region`. */
  ghost predicate AreStatements(xs: seq<NginxConfigStatement>, v: seq<Statement>, region: set<object>)
    reads region
    decreases v
  {
    |xs| == |v| && forall i | 0 <= i < |v| :: IsStatement(xs[i], v[i], region)
  }

  ghost predicate IsStatement(x: NginxConfigStatement, st: Statement, region: set<object>)
    reads region
    decreases st
  {
    && x in region
    && x.tokens == st.tokens
    && match st.child {
      case Absent => x.child == null
      case Child(block) => x.child != null && x.child in region && AreStatements(x.child.statements, block, region)
    }
  }

  lemma {:induction false} MoreStatements(xs: seq<NginxConfigStatement>, v: seq<Statement>,
                                          region: set<object>, larger: set<object>)
    requires AreStatements(xs, v, region) && region <= larger
    ensures AreStatements(xs, v, larger)
    decreases v
  {
    forall i | 0 <= i < |v|
      ensures IsStatement(xs[i], v[i], larger)
    {
      if v[i].child.Child? {
        MoreStatements(xs[i].child.statements, v[i].child.block, region, larger);
      }
    }
  }

  // ---------------------------------------------------------------- the shape of the heap

  /** A block that waits for its last statement, `opener`, to get its child finished. */
  datatype Level = Level(config: NginxConfig, done: seq<NginxConfigStatement>, opener: NginxConfigStatement)

  /**
   What the stack of references means: the levels below the top, the finished statements of
   the top block, and the statement that still collects words, if any. `closed` holds all
   finished nodes, which are never written again; `owned` all nodes the parser allocated.
   */
  datatype View = View(levels: seq<Level>, done: seq<NginxConfigStatement>, pending: NginxConfigStatement?,
                       closed: set<object>, owned: set<object>)

  ghost predicate LevelHolds(l: Level, base: seq<NginxConfigStatement>, block: seq<Statement>,
                             next: NginxConfig, closed: set<object>)
    reads l.config, l.opener, closed
  {
    && OpenEnded(block)
    && l.config.statements == base + l.done + [l.opener]
    && AreStatements(l.done, Front(block), closed)
    && l.opener.tokens == Last(block).tokens
    && l.opener.child == next
  }

  ghost predicate TopHolds(config: NginxConfig, base: seq<NginxConfigStatement>, block: seq<Statement>, w: View)
    reads config, w.pending, w.closed
  {
    if w.pending == null then
      config.statements == base + w.done && AreStatements(w.done, block, w.closed)
    else
      && OpenEnded(block)
      && config.statements == base + w.done + [w.pending]
      && AreStatements(w.done, Front(block), w.closed)
      && w.pending.tokens == Last(block).tokens
      && w.pending.child == null
  }

  ghost predicate Separate(stack: seq<NginxConfig>, w: View)
    requires stack != []
  {
    && w.closed <= w.owned
    && stack[0] !in w.owned
    && (forall i | 0 < i < |stack| :: stack[i] in w.owned)
    && (forall i | 0 <= i < |stack| :: stack[i] !in w.closed)
    && (forall i, j | 0 <= i < j < |stack| :: stack[i] != stack[j])
    && (forall i | 0 <= i < |w.levels| :: w.levels[i].opener in w.owned && w.levels[i].opener !in w.closed)
    && (forall i, j | 0 <= i < j < |w.levels| :: w.levels[i].opener != w.levels[j].opener)
    && (w.pending != null ==> w.pending in w.owned && w.pending !in w.closed)
    && (forall i | 0 <= i < |w.levels| :: w.levels[i].opener != w.pending)
  }

  function LevelNodes(levels: seq<Level>): set<object> {
    (set i | 0 <= i < |levels| :: levels[i].config as object) +
    (set i | 0 <= i < |levels| :: levels[i].opener as object)
  }

  /** The statements a block had before parsing: only the caller's block may have some. */
  function BaseOf(base: seq<NginxConfigStatement>, i: int): seq<NginxConfigStatement> {
    if i == 0 then base else []
  }

  ghost predicate LevelsHold(levels: seq<Level>, stack: seq<NginxConfig>, base: seq<NginxConfigStatement>,
                             frames: seq<seq<Statement>>, closed: set<object>)
    requires |frames| == |stack| == |levels| + 1
    reads LevelNodes(levels), closed
  {
    forall i | 0 <= i < |levels| ::
      LevelHolds(levels[i], BaseOf(base, i), frames[i], stack[i + 1], closed)
  }

  /**
   The heap invariant. Each stack entry is the child of the last statement of the entry below
   it, the innermost block is on top, and all finished parts hold the frames of the machine.
   */
  ghost predicate Shape(stack: seq<NginxConfig>, base: seq<NginxConfigStatement>, m: Machine, w: View)
    reads stack, w.pending, w.closed, LevelNodes(w.levels)
  {
    && Consistent(m) && m.Running?
    && (m.last == NORMAL <==> w.pending != null)
    && FramesHold(stack, base, m.frames, w)
  }

  ghost predicate FramesHold(stack: seq<NginxConfig>, base: seq<NginxConfigStatement>,
                             frames: seq<seq<Statement>>, w: View)
    reads stack, w.pending, w.closed, LevelNodes(w.levels)
  {
    && |frames| == |stack| == |w.levels| + 1
    && Separate(stack, w)
    && (forall i | 0 <= i < |w.levels| :: w.levels[i].config == stack[i])
    && LevelsHold(w.levels, stack, base, frames, w.closed)
    && TopHolds(Last(stack), BaseOf(base, |stack| - 1), Last(frames), w)
  }

  /** The levels depend on no frame but their own. */
  lemma SameLevels(levels: seq<Level>, stack: seq<NginxConfig>, base: seq<NginxConfigStatement>,
                   frames: seq<seq<Statement>>, frames': seq<seq<Statement>>, closed: set<object>)
    requires |frames| == |frames'| == |stack| == |levels| + 1 && Front(frames') == Front(frames)
    requires LevelsHold(levels, stack, base, frames, closed)
    ensures LevelsHold(levels, stack, base, frames', closed)
  {
    hide LevelHolds;
    forall i | 0 <= i < |levels|
      ensures frames'[i] == frames[i]
    {
      assert Front(frames')[i] == Front(frames)[i];
    }
  }

  lemma PushLevel(stack: seq<NginxConfig>, base: seq<NginxConfigStatement>, frames: seq<seq<Statement>>,
                  w: View, next: NginxConfig)
    requires |frames| == |stack| == |w.levels| + 1 && w.pending != null
    requires LevelsHold(w.levels, stack, base, frames, w.closed)
    requires LevelHolds(Level(Last(stack), w.done, w.pending), BaseOf(base, |stack| - 1), Last(frames), next, w.closed)
    ensures LevelsHold(w.levels + [Level(Last(stack), w.done, w.pending)], stack + [next], base, frames + [[]],
                       w.closed)
  {
    hide LevelHolds;
    var levels' := w.levels + [Level(Last(stack), w.done, w.pending)];
    forall i | 0 <= i < |levels'|
      ensures LevelHolds(levels'[i], BaseOf(base, i), frames[i], (stack + [next])[i + 1], w.closed)
    {
      if i < |w.levels| {
        assert levels'[i] == w.levels[i];
      }
    }
  }

  lemma SeparateWith(stack: seq<NginxConfig>, w: View, x: NginxConfigStatement)
    requires stack != [] && Separate(stack, w) && x !in w.owned
    requires forall i | 0 <= i < |w.levels| :: w.levels[i].opener != x
    ensures stack[0] != x as object
    ensures Separate(stack, w.(pending := x, owned := w.owned + {x}))
  {
  }

  lemma WordStep(m: Machine, text: string)
    requires Consistent(m) && m.Running? && m.frames != []
    ensures var m' := Step(m, Word(text));
            var block, top := Last(m.frames), Last(m'.frames);
            && m'.Running? && m'.last == NORMAL && |m'.frames| == |m.frames| && Front(m'.frames) == Front(m.frames)
            && OpenEnded(top)
            && if m.last != NORMAL then Front(top) == block && Last(top).tokens == [text]
               else Front(top) == Front(block) && Last(top).tokens == Last(block).tokens + [text]
  {
  }

  /** A NORMAL token: starts a statement of the top block or joins the one that is open. */
  method AddWord(stack: seq<NginxConfig>, last: TokenType, token: string,
                 ghost base: seq<NginxConfigStatement>, ghost m: Machine, ghost w: View) returns (ghost w': View)
    requires Shape(stack, base, m, w) && last == m.last
    modifies Last(stack), w.pending
    ensures Shape(stack, base, Step(m, Word(token)), w')
    ensures w.owned <= w'.owned && fresh(w'.owned - w.owned)
  {
    hide LevelsHold, Consistent, AreStatements, OpenEnded, Step, Separate;
    WordStep(m, token);
    ghost var m' := Step(m, Word(token));
    var top := Last(stack);
    TopApart(stack, w);
    w' := w;
    if last != NORMAL {
      var x := new NginxConfigStatement();
      top.statements := top.statements + [x];
      SeparateWith(stack, w, x);
      w' := w.(pending := x, owned := w.owned + {x});
    }
    var back := top.statements[|top.statements| - 1];
    back.tokens := back.tokens + [token];
    assert LevelsHold(w.levels, stack, base, m.frames, w.closed);
    SameLevels(w.levels, stack, base, m.frames, m'.frames, w.closed);
  }

  /** The nodes at the top of the stack occur neither below it nor in finished parts. */
  lemma TopApart(stack: seq<NginxConfig>, w: View)
    requires stack != [] && |stack| == |w.levels| + 1 && Separate(stack, w)
    requires forall i | 0 <= i < |w.levels| :: w.levels[i].config == stack[i]
    ensures Last(stack) !in LevelNodes(w.levels) && Last(stack) !in w.closed
    ensures w.pending != null ==> w.pending !in LevelNodes(w.levels) && w.pending !in w.closed
    ensures LevelNodes(w.levels) <= w.owned + {stack[0]}
  {
  }

  lemma OpenStep(m: Machine)
    requires Consistent(m) && m.Running? && m.last == NORMAL
    ensures Step(m, Open) ==
            m.(frames := m.frames + [[]], last := START_BLOCK, starts := m.starts + 1, ends := m.ends - 1)
  {
  }

  lemma SeparateOpen(stack: seq<NginxConfig>, w: View, next: NginxConfig, level: Level, w': View)
    requires stack != [] && Separate(stack, w) && next !in w.owned && next != stack[0] && w.pending != null
    requires level.opener == w.pending
    requires w'.levels == w.levels + [level] && w'.pending == null
    requires w'.closed == w.closed && w'.owned == w.owned + {next}
    ensures Separate(stack + [next], w')
  {
  }

  /** `{`: the open statement gets a new, empty block, which becomes the top of the stack. */
  method OpenBlock(stack: seq<NginxConfig>, ghost base: seq<NginxConfigStatement>, ghost m: Machine, ghost w: View)
    returns (stack': seq<NginxConfig>, ghost w': View)
    requires Shape(stack, base, m, w) && m.last == NORMAL
    modifies w.pending
    ensures Shape(stack', base, Step(m, Open), w')
    ensures stack <= stack' && |stack'| == |stack| + 1
    ensures w.owned <= w'.owned && fresh(w'.owned - w.owned)
  {
    hide LevelsHold, Consistent, IsStatement, Step, Separate;
    OpenStep(m);
    TopApart(stack, w);
    var top := Last(stack);
    var newConfig := new NginxConfig();
    var back := top.statements[|top.statements| - 1];
    back.child := newConfig;
    stack' := stack + [newConfig];
    ghost var level := Level(top, w.done, back);
    w' := View(w.levels + [level], [], null, w.closed, w.owned + {newConfig});
    assert LevelsHold(w.levels, stack, base, m.frames, w.closed);
    assert AreStatements(w.done, Front(Last(m.frames)), w.closed);
    PushLevel(stack, base, m.frames, w, newConfig);
    SeparateOpen(stack, w, newConfig, level, w');
  }

  lemma {:induction false} MoreLevels(levels: seq<Level>, stack: seq<NginxConfig>, base: seq<NginxConfigStatement>,
                                      frames: seq<seq<Statement>>, closed: set<object>, larger: set<object>)
    requires |frames| == |stack| == |levels| + 1 && closed <= larger
    requires LevelsHold(levels, stack, base, frames, closed)
    ensures LevelsHold(levels, stack, base, frames, larger)
  {
    hide AreStatements;
    forall i | 0 <= i < |levels|
      ensures LevelHolds(levels[i], BaseOf(base, i), frames[i], stack[i + 1], larger)
    {
      MoreStatements(levels[i].done, Front(frames[i]), closed, larger);
    }
  }

  /** `View` with the open statement of the top block counted as finished. */
  ghost function Settled(w: View): View {
    if w.pending == null then w
    else w.(done := w.done + [w.pending], pending := null, closed := w.closed + {w.pending})
  }

  /** The open statement may be taken as finished at any time: nothing is written for that. */
  lemma Settle(stack: seq<NginxConfig>, base: seq<NginxConfigStatement>, frames: seq<seq<Statement>>, w: View)
    requires FramesHold(stack, base, frames, w)
    ensures FramesHold(stack, base, frames, Settled(w))
  {
    hide LevelsHold, Separate;
    if w.pending != null {
      var w', block := Settled(w), Last(frames);
      MoreLevels(w.levels, stack, base, frames, w.closed, w'.closed);
      MoreStatements(w.done, Front(block), w.closed, w'.closed);
      assert IsStatement(w.pending, Last(block), w'.closed);
      assert BaseOf(base, |stack| - 1) + w.done + [w.pending] == BaseOf(base, |stack| - 1) + w'.done;
      SeparateSettled(stack, w);
    }
  }

  lemma SeparateSettled(stack: seq<NginxConfig>, w: View)
    requires stack != [] && Separate(stack, w) && w.pending != null
    ensures Separate(stack, Settled(w))
  {
  }

  function FoldedFrames(frames: seq<seq<Statement>>): seq<seq<Statement>>
    requires |frames| > 1 && Last(Front(frames)) != []
  {
    var below := Front(frames);
    Front(below) + [Front(Last(below)) + [Last(Last(below)).(child := Child(Last(frames)))]]
  }

  ghost function FoldedView(top: NginxConfig, w: View): View
    requires w.levels != []
  {
    var l := Last(w.levels);
    View(Front(w.levels), l.done + [l.opener], null, w.closed + {top, l.opener}, w.owned)
  }

  lemma SeparateFolded(stack: seq<NginxConfig>, w: View)
    requires |stack| == |w.levels| + 1 > 1 && Separate(stack, w) && w.pending == null
    ensures Separate(Front(stack), FoldedView(Last(stack), w))
  {
  }

  lemma FoldedLevels(stack: seq<NginxConfig>, base: seq<NginxConfigStatement>, frames: seq<seq<Statement>>, w: View)
    requires |frames| == |stack| == |w.levels| + 1 > 1
    requires LevelsHold(w.levels, stack, base, frames, w.closed)
    ensures LevelHolds(Last(w.levels), BaseOf(base, |stack| - 2), Last(Front(frames)), Last(stack), w.closed)
    ensures LevelsHold(Front(w.levels), Front(stack), base, FoldedFrames(frames), FoldedView(Last(stack), w).closed)
  {
    hide LevelHolds;
    var k := |w.levels| - 1;
    assert LevelHolds(w.levels[k], BaseOf(base, k), frames[k], stack[k + 1], w.closed);
    OpenAtLevel(w.levels[k], BaseOf(base, k), frames[k], stack[k + 1], w.closed);
    var levels', stack', frames' := Front(w.levels), Front(stack), FoldedFrames(frames);
    forall i | 0 <= i < |levels'|
      ensures LevelHolds(levels'[i], BaseOf(base, i), frames'[i], stack'[i + 1], w.closed)
    {
      assert LevelHolds(w.levels[i], BaseOf(base, i), frames[i], stack[i + 1], w.closed);
    }
    MoreLevels(levels', stack', base, frames', w.closed, FoldedView(Last(stack), w).closed);
  }

  lemma OpenAtLevel(l: Level, base: seq<NginxConfigStatement>, block: seq<Statement>, next: NginxConfig,
                    closed: set<object>)
    requires LevelHolds(l, base, block, next, closed)
    ensures block != []
  {
  }

  /** `}`: popping the stack hangs the finished block under the statement that opened it. */
  lemma CloseBlock(stack: seq<NginxConfig>, base: seq<NginxConfigStatement>, frames: seq<seq<Statement>>, w: View)
    requires FramesHold(stack, base, frames, w) && w.pending == null && |stack| > 1
    ensures Last(Front(frames)) != []
    ensures FramesHold(Front(stack), base, FoldedFrames(frames), FoldedView(Last(stack), w))
  {
    hide LevelsHold, Separate;
    var top, l, block := Last(stack), Last(w.levels), Last(Front(frames));
    var w' := FoldedView(top, w);
    FoldedLevels(stack, base, frames, w);
    SeparateFolded(stack, w);
    MoreStatements(l.done, Front(block), w.closed, w'.closed);
    assert [] + w.done == w.done;
    MoreStatements(top.statements, Last(frames), w.closed, w'.closed);
    var st := Last(block).(child := Child(Last(frames)));
    assert IsStatement(l.opener, st, w'.closed);
    assert AreStatements(w'.done, Front(block) + [st], w'.closed);
    var base' := BaseOf(base, |stack| - 2);
    assert base' + l.done + [l.opener] == base' + w'.done;
  }

  // ---------------------------------------------------------------- the parser

  /** The result of `Parse`; `Undefined` stands for running into undefined behaviour. */
  datatype Verdict = Valid | Invalid | Undefined

  function VerdictOf(o: Outcome): Verdict {
    match o
    case Accepted(_) => Valid
    case Refused => Invalid
    case Fault => Undefined
  }

  /** The outcome still to come when the machine stands in `m` before the text `s`. */
  ghost function Rest(m: Machine, s: string): Outcome
    requires Consistent(m)
  {
    Finish(Run(m, Tokens(s).0), Tokens(s).1)
  }

  lemma {:induction false} RunStuck(m: Machine, ts: seq<Token>)
    requires !m.Running?
    ensures Run(m, ts) == m
    decreases |ts|
  {
    if ts != [] {
      RunStuck(m, ts[1..]);
    }
  }

  lemma RestStep(m: Machine, s: string)
    requires Consistent(m) && m.Running?
    ensures var lx := Lex(s);
            Rest(m, s) ==
              if lx.kind == EOF then Finish(m, true)
              else if lx.kind == ERROR then Refused
              else if lx.kind == COMMENT then Rest(m, lx.rest)
              else
                var m' := Step(m, TokenOf(lx));
                if m'.Rejected? then Refused else if m'.Faulted? then Fault else Rest(m', lx.rest)
  {
    hide Lex, Consistent, Step;
    var lx := Lex(s);
    if lx.kind == EOF || lx.kind == ERROR {
      RunNone(m);
    } else if lx.kind != COMMENT {
      var m', more := Step(m, TokenOf(lx)), Tokens(lx.rest).0;
      assert ([TokenOf(lx)] + more)[1..] == more;
      if !m'.Running? {
        RunStuck(m', more);
      }
    }
  }

  // The machine's answer to each token, in the terms of the parser's own tests.

  lemma ConsistentParts(m: Machine)
    requires Consistent(m) && m.Running?
    ensures m.last in {START, NORMAL, STATEMENT_END, START_BLOCK, END_BLOCK}
    ensures |m.frames| == 1 + m.starts && m.ends == -m.starts
    ensures m.frames == [] ==> m.last == END_BLOCK
    ensures m.last == START_BLOCK ==> Last(m.frames) == []
    ensures m.last == NORMAL ==> Last(m.frames) != []
    ensures |m.frames| > 1 ==> Last(Front(m.frames)) != []
  {
  }

  lemma WordAnswers(m: Machine, text: string)
    requires Consistent(m) && m.Running?
    ensures Step(m, Word(text)) == Faulted <==> m.frames == []
    ensures m.frames != [] ==>
              var m' := Step(m, Word(text));
              && m'.Running? && m'.last == NORMAL && |m'.frames| == |m.frames|
              && m'.starts == m.starts && m'.ends == m.ends
    ensures Step(m, Semi) == if m.last == NORMAL then m.(last := STATEMENT_END) else Rejected
  {
    ConsistentParts(m);
    hide Consistent;
  }

  lemma OpenAnswers(m: Machine)
    requires Consistent(m) && m.Running?
    ensures Step(m, Open) ==
              if m.last == NORMAL then
                m.(frames := m.frames + [[]], last := START_BLOCK, starts := m.starts + 1, ends := m.ends - 1)
              else if m.last == START_BLOCK then Faulted
              else Rejected
  {
    ConsistentParts(m);
    hide Consistent;
  }

  lemma CloseAnswers(m: Machine)
    requires Consistent(m) && m.Running?
    ensures m.last == START ==> Step(m, Close) == Rejected
    ensures m.last != START && m.frames == [] ==> Step(m, Close) == Faulted
    ensures m.last != START && |m.frames| == 1 ==>
              Step(m, Close) == Running([], END_BLOCK, m.starts - 1, m.ends + 1)
    ensures m.last != START && |m.frames| > 1 ==>
              && Last(Front(m.frames)) != []
              && Step(m, Close) == Running(FoldedFrames(m.frames), END_BLOCK, m.starts - 1, m.ends + 1)
  {
    ConsistentParts(m);
    hide Consistent;
  }

  // What each token does to the outcome of the whole text, in the terms of the parser's own tests.

  lemma WordRest(m: Machine, s: string, token: string, rest: string)
    requires Consistent(m) && m.Running? && Lex(s) == Lexeme(NORMAL, token, rest)
    ensures m.frames == [] ==> Rest(m, s) == Fault
    ensures m.frames != [] ==>
              var m' := Step(m, Word(token));
              && Rest(m, s) == Rest(m', rest)
              && m'.Running? && m'.last == NORMAL && |m'.frames| == |m.frames|
              && m'.starts == m.starts && m'.ends == m.ends
  {
    hide Lex, Consistent, Step, Rest;
    RestStep(m, s);
    WordAnswers(m, token);
  }

  lemma SemiRest(m: Machine, s: string, token: string, rest: string)
    requires Consistent(m) && m.Running? && Lex(s) == Lexeme(STATEMENT_END, token, rest)
    ensures m.last != NORMAL ==> Rest(m, s) == Refused
    ensures m.last == NORMAL ==> Step(m, Semi) == m.(last := STATEMENT_END) && Rest(m, s) == Rest(Step(m, Semi), rest)
  {
    hide Lex, Consistent, Step, Rest;
    RestStep(m, s);
    WordAnswers(m, token);
  }

  lemma OpenRest(m: Machine, s: string, token: string, rest: string)
    requires Consistent(m) && m.Running? && Lex(s) == Lexeme(START_BLOCK, token, rest)
    ensures m.last != NORMAL ==> Rest(m, s) == if m.last == START_BLOCK then Fault else Refused
    ensures m.last == NORMAL ==>
              var m' := Step(m, Open);
              && Rest(m, s) == Rest(m', rest)
              && m'.Running? && m'.last == START_BLOCK && |m'.frames| == |m.frames| + 1
              && m'.starts == m.starts + 1 && m'.ends == m.ends - 1
  {
    hide Lex, Consistent, Step, Rest;
    RestStep(m, s);
    OpenAnswers(m);
  }

  lemma CloseRest(m: Machine, s: string, token: string, rest: string)
    requires Consistent(m) && m.Running? && Lex(s) == Lexeme(END_BLOCK, token, rest)
    ensures m.last == START ==> Rest(m, s) == Refused
    ensures m.last != START && m.frames == [] ==> Rest(m, s) == Fault
    ensures m.last != START && m.frames != [] ==>
              var m' := Step(m, Close);
              && Rest(m, s) == Rest(m', rest)
              && m'.Running? && m'.last == END_BLOCK && |m'.frames| == |m.frames| - 1
              && m'.starts == m.starts - 1 && m'.ends == m.ends + 1
  {
    hide Lex, Consistent, Step, Rest;
    RestStep(m, s);
    CloseAnswers(m);
  }

  lemma EndRest(m: Machine, s: string, lx: Lexeme)
    requires Consistent(m) && m.Running? && Lex(s) == lx
    ensures lx.kind == ERROR ==> Rest(m, s) == Refused
    ensures lx.kind == COMMENT ==> Rest(m, s) == Rest(m, lx.rest)
    ensures lx.kind == EOF ==>
              Rest(m, s) ==
              if m.last != STATEMENT_END && m.last != END_BLOCK then Refused
              else if m.starts != 0 || m.ends != 0 then Refused
              else Accepted(Last(m.frames))
  {
    hide Lex, Consistent, Step, Rest, Finish;
    RestStep(m, s);
    FinishTests(m);
  }

  lemma FinishTests(m: Machine)
    requires Consistent(m) && m.Running?
    ensures Finish(m, true) ==
              if m.last != STATEMENT_END && m.last != END_BLOCK then Refused
              else if m.starts != 0 || m.ends != 0 then Refused
              else Accepted(Last(m.frames))
  {
  }

  lemma Started(config: NginxConfig, base: seq<NginxConfigStatement>, s: string)
    requires config.statements == base
    ensures Shape([config], base, INITIAL, View([], [], null, {}, {}))
    ensures Rest(INITIAL, s) == ParseText(s) && Consistent(INITIAL) && INITIAL.Running?
  {
    var w := View([], [], null, {}, {});
    assert base + [] == base;
    assert AreStatements([], [], {});
    assert TopHolds(config, base, [], w);
    assert FramesHold([config], base, [[]], w) by {
      hide TopHolds;
    }
  }

  lemma SemiShape(stack: seq<NginxConfig>, base: seq<NginxConfigStatement>, m: Machine, w: View)
    requires stack != [] && Shape(stack, base, m, w) && m.last == NORMAL
    ensures Shape(stack, base, Step(m, Semi), Settled(w))
    ensures Settled(w).owned == w.owned
  {
    hide FramesHold, Consistent;
    Settle(stack, base, m.frames, w);
    WordAnswers(m, "");
  }

  lemma OpeningShape(stack: seq<NginxConfig>, base: seq<NginxConfigStatement>, m: Machine, w: View)
    requires Consistent(m) && m.Running? && |m.frames| == |stack| && m.last in {NORMAL, START_BLOCK}
    requires stack != [] ==> Shape(stack, base, m, w)
    ensures stack != []
    ensures m.last == NORMAL <==> Last(stack).statements != []
  {
  }

  lemma ClosingShape(stack: seq<NginxConfig>, base: seq<NginxConfigStatement>, m: Machine, w: View)
    requires |stack| > 1 && Shape(stack, base, m, w) && m.last != START
    ensures Settled(w).levels != []
    ensures var w' := FoldedView(Last(stack), Settled(w));
            Shape(Front(stack), base, Step(m, Close), w') && w'.owned == w.owned
  {
    hide Consistent, Step;
    Settle(stack, base, m.frames, w);
    CloseBlock(stack, base, m.frames, Settled(w));
    CloseAnswers(m);
  }

  lemma AcceptedShape(stack: seq<NginxConfig>, base: seq<NginxConfigStatement>, m: Machine, w: View)
    requires |stack| == 1 && Shape(stack, base, m, w) && m.last != NORMAL
    ensures w.closed <= w.owned
    ensures base <= stack[0].statements
    ensures AreStatements(stack[0].statements[|base|..], Last(m.frames), w.closed)
  {
  }

  lemma OwnedParts(stack: seq<NginxConfig>, base: seq<NginxConfigStatement>, m: Machine, w: View)
    requires stack != [] && Shape(stack, base, m, w)
    ensures w.closed <= w.owned && LevelNodes(w.levels) <= w.owned + {stack[0]}
    ensures Last(stack) == stack[0] || Last(stack) in w.owned
    ensures forall x | x in stack :: x == stack[0] || x in w.owned
    ensures w.pending != null ==> w.pending in w.owned
    ensures m.last == NORMAL <==> w.pending != null
  {
  }

  lemma BaseKept(stack: seq<NginxConfig>, base: seq<NginxConfigStatement>, m: Machine, w: View)
    requires stack != [] && Shape(stack, base, m, w)
    ensures base <= stack[0].statements
  {
    if |stack| > 1 {
      assert LevelHolds(w.levels[0], BaseOf(base, 0), m.frames[0], stack[1], w.closed);
    }
  }

  method Parse(configFile: InputStream, config: NginxConfig) returns (verdict: Verdict, ghost region: set<object>)
    requires configFile.Valid()
    modifies config, configFile`pos, configFile`eof, configFile`fail
    ensures configFile.Valid()
    ensures verdict == VerdictOf(ParseText(old(configFile.Remaining())))
    ensures old(config.statements) <= config.statements
    ensures verdict == Valid ==>
              && fresh(region)
              && AreStatements(config.statements[|old(config.statements)|..],
                               ParseText(old(configFile.Remaining())).tree, region)
  {
    hide Lex, Tokens, Consistent, Step, Finish, FramesHold, Rest, AreStatements, IsStatement, Shape, FoldedView,
      ParseText, Run, Settled;
    ghost var s, base := configFile.Remaining(), config.statements;
    ghost var m, w := INITIAL, View([], [], null, {}, {});
    var configStack := [config];
    var lastTokenType := START;
    var blockStartCount, blockEndCount := 0, 0;
    region := {};
    Started(config, base, s);
    while true
      invariant configFile.Valid()
      invariant Consistent(m) && m.Running? && Rest(m, configFile.Remaining()) == ParseText(s)
      invariant m.last == lastTokenType && m.starts == blockStartCount && m.ends == blockEndCount
      invariant |m.frames| == |configStack|
      invariant configStack != [] ==> configStack[0] == config && Shape(configStack, base, m, w)
      invariant fresh(w.owned) && base <= config.statements
      decreases |configFile.Remaining()|
    {
      ghost var text := configFile.Remaining();
      ghost var lx := Lex(text);
      ConsistentParts(m);
      EndRest(m, text, lx);
      if configStack != [] {
        OwnedParts(configStack, base, m, w);
      }
      var tokenType, token := ParseToken(configFile);
      assert configStack != [] ==> Shape(configStack, base, m, w);
      if tokenType == ERROR {
        break;
      }
      if tokenType == COMMENT {
        continue;
      }
      if tokenType == START {
        break;
      } else if tokenType == NORMAL {
        WordRest(m, text, token, lx.rest);
        if lastTokenType in {START, STATEMENT_END, START_BLOCK, END_BLOCK, NORMAL} {
          if configStack == [] {
            return Undefined, {};
          }
          w := AddWord(configStack, lastTokenType, token, base, m, w);
          m := Step(m, Word(token));
          BaseKept(configStack, base, m, w);
        } else {
          break;
        }
      } else if tokenType == STATEMENT_END {
        SemiRest(m, text, token, lx.rest);
        if lastTokenType != NORMAL {
          break;
        }
        SemiShape(configStack, base, m, w);
        m := Step(m, Semi);
        w := Settled(w);
      } else if tokenType == START_BLOCK {
        blockStartCount := blockStartCount + 1;
        blockEndCount := blockEndCount - 1;
        OpenRest(m, text, token, lx.rest);
        if lastTokenType != NORMAL && lastTokenType != START_BLOCK {
          break;
        }
        OpeningShape(configStack, base, m, w);
        if configStack == [] || Last(configStack).statements == [] {
          return Undefined, {};
        }
        configStack, w := OpenBlock(configStack, base, m, w);
        m := Step(m, Open);
      } else if tokenType == END_BLOCK {
        blockStartCount := blockStartCount - 1;
        blockEndCount := blockEndCount + 1;
        CloseRest(m, text, token, lx.rest);
        if lastTokenType != STATEMENT_END && lastTokenType != START_BLOCK &&
           lastTokenType != END_BLOCK && lastTokenType != NORMAL {
          break;
        }
        if configStack == [] {
          return Undefined, {};
        }
        if |configStack| > 1 {
          ClosingShape(configStack, base, m, w);
          w := FoldedView(Last(configStack), Settled(w));
        }
        configStack := Front(configStack);
        m := Step(m, Close);
      } else if tokenType == EOF {
        if lastTokenType != STATEMENT_END && lastTokenType != END_BLOCK {
          break;
        }
        if blockStartCount != 0 {
          break;
        }
        if blockEndCount != 0 {
          break;
        }
        AcceptedShape(configStack, base, m, w);
        return Valid, w.closed;
      } else {
        break;
      }
      lastTokenType := tokenType;
    }
    verdict := Invalid;
  }
}

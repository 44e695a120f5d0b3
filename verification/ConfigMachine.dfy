/**
 The configuration parser on values: a stack of blocks under construction, the last token
 type and the two brace counters, moved by one token at a time.
 */
module ConfigMachine {
  import opened Sequences
  import opened ConfigLexer

  /** A statement: its words and, when it opened braces, the statements between them. */
  datatype Statement = Statement(tokens: seq<string>, child: Child)

  datatype Child = Absent | Child(block: seq<Statement>)

  datatype Token = Word(text: string) | Semi | Open | Close

  /**
   `Running.frames` is the stack, outermost block first; the statement that opened a frame is
   the last one of the frame below and gets its child when the frame is closed. `Faulted` is
   reached where the original reads past an empty container.
   */
  datatype Machine =
    | Running(frames: seq<seq<Statement>>, last: TokenType, starts: int, ends: int)
    | Rejected
    | Faulted

  datatype Outcome = Accepted(tree: seq<Statement>) | Refused | Fault

  const INITIAL := Running([[]], START, 0, 0)

  lemma InitialConsistent()
    ensures Consistent(INITIAL) && INITIAL.frames == [[]]
  {
  }

  /** What every reachable configuration of the machine satisfies. */
  ghost predicate Consistent(m: Machine) {
    m.Running? ==>
      && |m.frames| == 1 + m.starts
      && m.ends == -m.starts
      && m.last in {START, NORMAL, STATEMENT_END, START_BLOCK, END_BLOCK}
      && (m.frames == [] ==> m.last == END_BLOCK)
      && (m.last == START ==> m.frames == [[]])
      && (m.last == START_BLOCK ==> |m.frames| > 1 && Last(m.frames) == [])
      && (m.last == NORMAL ==> OpenEnded(Last(m.frames)))
      && (m.last in {STATEMENT_END, END_BLOCK} && m.frames != [] ==> Last(m.frames) != [])
      && Spine(m.frames)
  }

  /** Every block but the innermost ends in the statement that waits for the next block. */
  ghost predicate Spine(frames: seq<seq<Statement>>) {
    forall i | 0 <= i < |frames| - 1 :: OpenEnded(frames[i])
  }

  /** The last statement of the block has words but no child yet. */
  predicate OpenEnded(block: seq<Statement>) {
    block != [] && block[|block| - 1].tokens != [] && block[|block| - 1].child.Absent?
  }

  function Step(m: Machine, t: Token): (m': Machine)
    requires Consistent(m)
    ensures Consistent(m')
  {
    if !m.Running? then m else
    match t
    case Word(text) =>
      if m.frames == [] then Faulted else
      var top := Last(m.frames);
      var top' :=
        if m.last != NORMAL then top + [Statement([text], Absent)]
        else Front(top) + [Last(top).(tokens := Last(top).tokens + [text])];
      m.(frames := Front(m.frames) + [top'], last := NORMAL)
    case Semi =>
      if m.last != NORMAL then Rejected else m.(last := STATEMENT_END)
    case Open =>
      if m.last != NORMAL && m.last != START_BLOCK then Rejected
      else if Last(m.frames) == [] then Faulted
      else m.(frames := m.frames + [[]], last := START_BLOCK, starts := m.starts + 1, ends := m.ends - 1)
    case Close =>
      if m.last == START then Rejected
      else if m.frames == [] then Faulted
      else
        var below := Front(m.frames);
        var below' :=
          if below == [] then []
          else Front(below) + [Front(Last(below)) + [Last(Last(below)).(child := Child(Last(m.frames)))]];
        m.(frames := below', last := END_BLOCK, starts := m.starts - 1, ends := m.ends + 1)
  }

  /** The verdict at the end of the input; `clean` is false when it ended in a bad token. */
  function Finish(m: Machine, clean: bool): Outcome
    requires Consistent(m)
  {
    if m.Faulted? then Fault
    else if m.Rejected? || !clean then Refused
    else if m.last != STATEMENT_END && m.last != END_BLOCK then Refused
    else if m.starts != 0 then Refused
    else if m.ends != 0 then Refused
    else Accepted(Last(m.frames))
  }

  function Run(m: Machine, ts: seq<Token>): (m': Machine)
    requires Consistent(m)
    ensures Consistent(m')
    decreases |ts|
  {
    if ts == [] then m else Run(Step(m, ts[0]), ts[1..])
  }

  lemma {:induction false} RunConcat(m: Machine, a: seq<Token>, b: seq<Token>)
    requires Consistent(m)
    ensures Run(m, a + b) == Run(Run(m, a), b)
    decreases |a|
  {
    if a == [] {
      assert a + b == b;
    } else {
      assert (a + b)[1..] == a[1..] + b;
      RunConcat(Step(m, a[0]), a[1..], b);
    }
  }

  lemma RunSnoc(m: Machine, a: seq<Token>, t: Token)
    requires Consistent(m)
    ensures Run(m, a + [t]) == Step(Run(m, a), t)
  {
    RunConcat(m, a, [t]);
    assert [t][1..] == [];
    assert Run(Run(m, a), [t]) == Run(Step(Run(m, a), t), []);
  }

  lemma RunNone(m: Machine)
    requires Consistent(m)
    ensures Run(m, []) == m
  {
  }

  /** The tokens of a text without its comments, and whether it ended without a bad token. */
  function Tokens(s: string): (r: (seq<Token>, bool))
    decreases |s|
  {
    var lx := Lex(s);
    if lx.kind == EOF then ([], true)
    else if lx.kind == ERROR then ([], false)
    else if lx.kind == COMMENT then Tokens(lx.rest)
    else
      var (more, clean) := Tokens(lx.rest);
      ([TokenOf(lx)] + more, clean)
  }

  function TokenOf(lx: Lexeme): Token
    requires lx.kind in {NORMAL, START_BLOCK, END_BLOCK, STATEMENT_END}
  {
    match lx.kind
    case NORMAL => Word(lx.text)
    case START_BLOCK => Open
    case END_BLOCK => Close
    case _ => Semi
  }

  /** What the parser makes of a text. */
  function ParseText(s: string): Outcome {
    var (ts, clean) := Tokens(s);
    Finish(Run(INITIAL, ts), clean)
  }
}

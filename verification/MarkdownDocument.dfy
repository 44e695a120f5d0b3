/** Rendering a whole markdown file, through the intermediate HTML file. */
module MarkdownDocument {
  import opened Streams
  import opened Sequences
  import opened Markdown
  import opened MarkdownLaws

  datatype LineKind = H3 | H2 | H1 | FENCE | PARAGRAPH

  function KindOf(line: string): LineKind {
    if |line| >= 4 && line[..3] == "###" && line[3] == ' ' then H3
    else if |line| >= 3 && line[..2] == "##" && line[2] == ' ' then H2
    else if |line| >= 2 && line[..1] == "#" && line[1] == ' ' then H1
    else if |line| >= 3 && line[..3] == "```" then FENCE
    else PARAGRAPH
  }

  /** The inline stages never change what kind of block a line is. */
  lemma KindKept(line: string)
    ensures KindOf(Inline(line)) == KindOf(line)
  {
    hide Inline;
    InlinePrefix(line, "### ");
    InlinePrefix(line, "## ");
    InlinePrefix(line, "# ");
    FencePrefix(line);
    KindByPrefix(line);
    KindByPrefix(Inline(line));
  }

  lemma KindByPrefix(line: string)
    ensures KindOf(line) ==
              if "### " <= line then H3 else if "## " <= line then H2 else if "# " <= line then H1
              else if "```" <= line then FENCE else PARAGRAPH
  {
  }

  datatype Fragment = Heading(level: LineKind, text: string) | CodeOpen | CodeClose | Text(text: string)

  /** The fragment of a line whose inline stages are done; `inside` tells of an open code block. */
  function FragmentOf(line: string, inside: bool): Fragment {
    match KindOf(line)
    case H3 => Heading(H3, line[4..])
    case H2 => Heading(H2, line[3..])
    case H1 => Heading(H1, line[2..])
    case FENCE => if inside then CodeClose else CodeOpen
    case PARAGRAPH => Text(line)
  }

  function Fragments(lines: seq<string>, inside: bool): (fs: seq<Fragment>)
    ensures |fs| == |lines|
  {
    if lines == [] then []
    else
      var fence := KindOf(lines[0]) == FENCE;
      [FragmentOf(Inline(lines[0]), inside)] + Fragments(lines[1..], if fence then !inside else inside)
  }

  const H1_OPEN := "<h1 style=\"white-space: pre\">"
  const H2_OPEN := "<h2 style=\"white-space: pre\">"
  const H3_OPEN := "<h3 style=\"white-space: pre\">"
  const P_OPEN := "<p style=\"white-space: pre\">"

  /** What a fragment looks like in the page. */
  function Shown(f: Fragment): string {
    match f
    case Heading(H3, text) => H3_OPEN + text + "</h3>"
    case Heading(H2, text) => H2_OPEN + text + "</h2>"
    case Heading(_, text) => H1_OPEN + text + "</h1>"
    case CodeOpen => P_OPEN + "<code>"
    case CodeClose => "</code></p>"
    case Text(text) => P_OPEN + text + "</p>"
  }

  /** What is written to the file: all fragments but an opening fence end the line. */
  function Written(f: Fragment): string {
    if f.CodeOpen? then Shown(f) else Shown(f) + "\n"
  }

  function ShownAll(fs: seq<Fragment>): string {
    if fs == [] then "" else Shown(fs[0]) + ShownAll(fs[1..])
  }

  function WrittenAll(fs: seq<Fragment>): string {
    if fs == [] then "" else Written(fs[0]) + WrittenAll(fs[1..])
  }

  /** The lines of a text; a final newline starts no further line. */
  function Lines(s: string): seq<string>
    decreases |s|
  {
    if s == "" then []
    else
      var n := Span(s, {'\n'});
      if n == |s| then [s] else [s[..n]] + Lines(s[n + 1..])
  }

  lemma {:induction false} LinesHaveNoNewline(s: string)
    ensures forall l | l in Lines(s) :: '\n' !in l
    decreases |s|
  {
    hide Span;
    if s != "" {
      var n := Span(s, {'\n'});
      BeforeNewline(s);
      if n < |s| {
        LinesHaveNoNewline(s[n + 1..]);
      }
    }
  }

  lemma BeforeNewline(s: string)
    ensures '\n' !in s[..Span(s, {'\n'})]
  {
  }

  function WithoutNewlines(s: string): string {
    if s == "" then "" else (if s[0] == '\n' then "" else [s[0]]) + WithoutNewlines(s[1..])
  }

  lemma {:induction false} WithoutNewlinesConcat(a: string, b: string)
    ensures WithoutNewlines(a + b) == WithoutNewlines(a) + WithoutNewlines(b)
  {
    if a == "" {
      assert a + b == b;
    } else {
      assert (a + b)[1..] == a[1..] + b;
      WithoutNewlinesConcat(a[1..], b);
    }
  }

  lemma {:induction false} WithoutNewlinesNone(s: string)
    requires '\n' !in s
    ensures WithoutNewlines(s) == s
  {
    if s != "" {
      WithoutNewlinesNone(s[1..]);
    }
  }

  predicate OneLine(f: Fragment) {
    '\n' !in Shown(f)
  }

  lemma WrittenShown(f: Fragment)
    requires OneLine(f)
    ensures WithoutNewlines(Written(f)) == Shown(f)
  {
    hide Shown;
    WithoutNewlinesNone(Shown(f));
    if !f.CodeOpen? {
      WithoutNewlinesConcat(Shown(f), "\n");
      assert WithoutNewlines("\n") == "";
    }
  }

  lemma {:induction false} FragmentsAreLines(lines: seq<string>, inside: bool)
    requires forall l | l in lines :: '\n' !in l
    ensures forall f | f in Fragments(lines, inside) :: OneLine(f)
    decreases |lines|
  {
    hide Inline, KindOf;
    if lines != [] {
      var l := Inline(lines[0]);
      OtherCharactersKept(lines[0], '\n');
      CountIn(lines[0], '\n');
      CountIn(l, '\n');
      assert '\n' !in l;
      FragmentIsLine(l, inside);
      FragmentsAreLines(lines[1..], if KindOf(lines[0]) == FENCE then !inside else inside);
    }
  }

  lemma NoNewlineIn(a: string, b: string)
    requires '\n' !in a && '\n' !in b
    ensures '\n' !in a + b
  {
  }

  lemma TextIsLine(before: string, text: string, after: string)
    requires '\n' !in before && '\n' !in text && '\n' !in after
    ensures '\n' !in before + text + after
  {
    NoNewlineIn(before, text);
    NoNewlineIn(before + text, after);
  }

  lemma FragmentIsLine(l: string, inside: bool)
    requires '\n' !in l
    ensures OneLine(FragmentOf(l, inside))
  {
    hide KindOf, OneLine;
    var f := FragmentOf(l, inside);
    match KindOf(l) {
      case H3 | H2 | H1 => assert forall c | c in f.text :: c in l;
      case _ =>
    }
    ShownIsLine(f);
  }

  lemma HeadingsAreLines()
    ensures '\n' !in H1_OPEN && '\n' !in H2_OPEN && '\n' !in H3_OPEN
  {
  }

  lemma ParagraphIsLine()
    ensures '\n' !in P_OPEN
  {
  }

  lemma ClosingTagsAreLines()
    ensures '\n' !in "</h1>" && '\n' !in "</h2>" && '\n' !in "</h3>" && '\n' !in "</p>"
    ensures '\n' !in "<code>" && '\n' !in "</code></p>"
  {
  }

  lemma ShownIsLine(f: Fragment)
    requires f.Heading? || f.Text? ==> '\n' !in f.text
    ensures OneLine(f)
  {
    HeadingsAreLines();
    ParagraphIsLine();
    ClosingTagsAreLines();
    match f {
      case Heading(H3, text) => TextIsLine(H3_OPEN, text, "</h3>");
      case Heading(H2, text) => TextIsLine(H2_OPEN, text, "</h2>");
      case Heading(_, text) => TextIsLine(H1_OPEN, text, "</h1>");
      case CodeOpen => NoNewlineIn(P_OPEN, "<code>");
      case CodeClose =>
      case Text(text) => TextIsLine(P_OPEN, text, "</p>");
    }
  }

  /** The page: all fragments one after the other. */
  function Page(s: string): string {
    ShownAll(Fragments(Lines(s), false))
  }

  /** Reading the file back line by line drops exactly the newlines that ended the fragments. */
  lemma {:induction false} WrittenIsPage(fs: seq<Fragment>)
    requires forall f | f in fs :: OneLine(f)
    ensures WithoutNewlines(WrittenAll(fs)) == ShownAll(fs)
  {
    hide Shown, Written, OneLine;
    if fs != [] {
      WrittenShown(fs[0]);
      WithoutNewlinesConcat(Written(fs[0]), WrittenAll(fs[1..]));
      WrittenIsPage(fs[1..]);
    }
  }

  lemma {:induction false} WrittenSnoc(fs: seq<Fragment>, f: Fragment)
    ensures WrittenAll(fs + [f]) == WrittenAll(fs) + Written(f)
  {
    hide Written;
    if fs == [] {
      assert [f][1..] == [];
      assert Written(f) + "" == "" + Written(f);
    } else {
      assert (fs + [f])[1..] == fs[1..] + [f];
      WrittenSnoc(fs[1..], f);
    }
  }

  // ---------------------------------------------------------------- code blocks

  function Fences(lines: seq<string>): nat {
    if lines == [] then 0 else (if KindOf(lines[0]) == FENCE then 1 else 0) + Fences(lines[1..])
  }

  function BlockDepth(fs: seq<Fragment>): int {
    if fs == [] then 0
    else (if fs[0].CodeOpen? then 1 else if fs[0].CodeClose? then -1 else 0) + BlockDepth(fs[1..])
  }

  /** After any number of lines, a code block is open exactly when the fences so far are odd in number. */
  lemma {:induction false} CodeBlockParity(lines: seq<string>, inside: bool, k: nat)
    requires k <= |lines|
    ensures var d := if inside then 1 else 0;
            d + BlockDepth(Fragments(lines, inside)[..k]) == (d + Fences(lines[..k])) % 2
    decreases |lines|
  {
    hide Inline, KindOf, Fences, BlockDepth;
    if k == 0 {
      NoBlocks();
    } else {
      var inside' := if KindOf(lines[0]) == FENCE then !inside else inside;
      CodeBlockParity(lines[1..], inside', k - 1);
      FirstFragment(lines, inside, k);
      var rest := Fences(lines[1..][..k - 1]);
      assert inside ==> (rest + 2) % 2 == rest % 2;
    }
  }

  lemma NoBlocks()
    ensures BlockDepth([]) == 0 && Fences([]) == 0
  {
  }

  /** What the first of `k` lines adds to the two counts. */
  lemma FirstFragment(lines: seq<string>, inside: bool, k: nat)
    requires 0 < k <= |lines|
    ensures var fence := KindOf(lines[0]) == FENCE;
            var rest := Fragments(lines[1..], if fence then !inside else inside)[..k - 1];
            && BlockDepth(Fragments(lines, inside)[..k]) ==
               (if !fence then 0 else if inside then -1 else 1) + BlockDepth(rest)
            && Fences(lines[..k]) == (if fence then 1 else 0) + Fences(lines[1..][..k - 1])
  {
    hide Inline, KindOf;
    KindKept(lines[0]);
    var fs := Fragments(lines, inside);
    assert fs[..k][1..] == fs[1..][..k - 1] && fs[..k][0] == fs[0];
    assert lines[..k][1..] == lines[1..][..k - 1] && lines[..k][0] == lines[0];
  }

  // ---------------------------------------------------------------- the handler

  lemma LinesStep(s: string, line: string, rest: string, good: bool)
    requires LineRead(s, true, line, rest, good)
    ensures Lines(s) == [line] + Lines(rest)
  {
    var n := Span(s, {'\n'});
    if good {
      assert s[n + 1..] == rest;
    }
  }

  lemma PageLine(line: string, rest: string)
    requires WithoutNewlines(line) == line
    ensures WithoutNewlines(line + "\n" + rest) == line + WithoutNewlines(rest)
  {
    hide WithoutNewlines;
    WithoutNewlinesConcat(line + "\n", rest);
    WithoutNewlinesConcat(line, "\n");
    NewlineAlone();
    assert line + "" == line;
  }

  lemma PageStep(s: string, line: string, rest: string, good: bool)
    requires LineRead(s, true, line, rest, good)
    ensures WithoutNewlines(s) == line + WithoutNewlines(rest)
  {
    hide WithoutNewlines, Span;
    LineOf(s, line);
    if good {
      PageLine(line, rest);
    } else {
      NoLines();
      assert line + "" == line;
    }
  }

  lemma NewlineAlone()
    ensures WithoutNewlines("\n") == ""
  {
  }

  method ReadLines(file: InputStream) returns (lines: seq<string>)
    requires file.Valid()
    modifies file`pos, file`eof, file`fail
    ensures lines == Lines(old(file.Remaining()))
  {
    hide LineRead, Lines;
    ghost var all := file.Remaining();
    lines := [];
    while true
      invariant file.Valid()
      invariant lines + Lines(file.Remaining()) == Lines(all)
      decreases |file.Remaining()|
    {
      ghost var before := file.Remaining();
      var ok, line := file.GetLine();
      LineReadShrinks(before, ok, line, file.Remaining(), file.Good());
      if !ok {
        break;
      }
      LinesStep(before, line, file.Remaining(), file.Good());
      ConcatAssociates(lines, [line], Lines(file.Remaining()));
      lines := lines + [line];
    }
    NoLines();
  }

  lemma NoLines()
    ensures Lines("") == [] && WithoutNewlines("") == ""
  {
  }

  /** Writes the fragment of one line; `insideCodeSnippet` is toggled by each fence. */
  method WriteFragment(line: string, inside: bool, htmlFile: string) returns (html: string, inside': bool)
    ensures html == htmlFile + Written(FragmentOf(line, inside))
    ensures inside' == if KindOf(line) == FENCE then !inside else inside
  {
    html, inside' := htmlFile, inside;
    if |line| >= 4 && line[..3] == "###" && line[3] == ' ' {
      html := html + (H3_OPEN + line[4..] + "</h3>" + "\n");
    } else if |line| >= 3 && line[..2] == "##" && line[2] == ' ' {
      html := html + (H2_OPEN + line[3..] + "</h2>" + "\n");
    } else if |line| >= 2 && line[..1] == "#" && line[1] == ' ' {
      html := html + (H1_OPEN + line[2..] + "</h1>" + "\n");
    } else if |line| >= 3 && line[..3] == "```" {
      if inside' {
        inside' := !inside';
        html := html + ("</code></p>" + "\n");
      } else {
        inside' := !inside';
        html := html + (P_OPEN + "<code>");
      }
    } else {
      html := html + (P_OPEN + line + "</p>" + "\n");
    }
  }

  method RenderLines(allLines: seq<string>) returns (html: string)
    ensures html == WrittenAll(Fragments(allLines, false))
  {
    hide Inline, KindOf, FragmentOf, Fragments, Written, WrittenAll;
    var lines := allLines;
    html := "";
    var insideCodeSnippet := false;
    ghost var done := [];
    NoFragments(false);
    assert [] + Fragments(allLines, false) == Fragments(allLines, false);
    for i := 0 to |lines|
      invariant |lines| == |allLines| && lines[i..] == allLines[i..]
      invariant html == WrittenAll(done)
      invariant Fragments(allLines, false) == done + Fragments(allLines[i..], insideCodeSnippet)
    {
      assert lines[i] == lines[i..][0] == allLines[i..][0];
      ghost var line := lines[i];
      var rendered := RenderInline(lines[i]);
      lines := lines[i := rendered];
      KindKept(line);
      ghost var f := FragmentOf(rendered, insideCodeSnippet);
      FragmentsStep(allLines[i..], insideCodeSnippet, done);
      html, insideCodeSnippet := WriteFragment(lines[i], insideCodeSnippet, html);
      WrittenSnoc(done, f);
      assert allLines[i..][1..] == allLines[i + 1..];
      done := done + [f];
      assert lines[i + 1..] == allLines[i + 1..];
    }
    assert allLines[|lines|..] == [];
    NoFragments(insideCodeSnippet);
    assert done + [] == done;
  }

  lemma NoFragments(inside: bool)
    ensures Fragments([], inside) == [] && WrittenAll([]) == ""
  {
  }

  lemma FragmentsStep(lines: seq<string>, inside: bool, done: seq<Fragment>)
    requires lines != []
    ensures var fence := KindOf(lines[0]) == FENCE;
            done + Fragments(lines, inside) ==
            done + [FragmentOf(Inline(lines[0]), inside)] + Fragments(lines[1..], if fence then !inside else inside)
  {
    hide Inline, KindOf, FragmentOf;
  }

  /** Reads a file line by line into a body, as the handler reads its own HTML file back. */
  method ReadBack(file: InputStream) returns (body: string)
    requires file.Valid()
    modifies file`pos, file`eof, file`fail
    ensures body == WithoutNewlines(old(file.Remaining()))
  {
    hide LineRead, WithoutNewlines;
    ghost var all := file.Remaining();
    body := "";
    while true
      invariant file.Valid()
      invariant body + WithoutNewlines(file.Remaining()) == WithoutNewlines(all)
      decreases |file.Remaining()|
    {
      ghost var before := file.Remaining();
      var ok, line := file.GetLine();
      LineReadShrinks(before, ok, line, file.Remaining(), file.Good());
      if !ok {
        break;
      }
      PageStep(before, line, file.Remaining(), file.Good());
      ConcatAssociates(body, line, WithoutNewlines(file.Remaining()));
      body := body + line;
    }
    NoLines();
    assert body + "" == body;
  }

  lemma LineOf(s: string, line: string)
    requires line == s[..Span(s, {'\n'})]
    ensures WithoutNewlines(line) == line
  {
    assert '\n' !in line;
    WithoutNewlinesNone(line);
  }

  /** From the markdown file to the page: read, render to the HTML file, read that back. */
  method Render(mdFile: InputStream) returns (body: string)
    requires mdFile.Valid()
    modifies mdFile`pos, mdFile`eof, mdFile`fail
    ensures body == Page(old(mdFile.Remaining()))
  {
    var lines := ReadLines(mdFile);
    var html := RenderLines(lines);
    var htmlFile := new InputStream(html);
    body := ReadBack(htmlFile);
    LinesHaveNoNewline(old(mdFile.Remaining()));
    FragmentsAreLines(lines, false);
    WrittenIsPage(Fragments(lines, false));
  }
}

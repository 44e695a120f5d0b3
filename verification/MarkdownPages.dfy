/** What a reader finds in the page: the elements of single lines, and the text of whole files. */
module MarkdownPages {
  import opened Sequences
  import opened Streams
  import opened Segments
  import opened Markdown
  import opened MarkdownTags
  import opened MarkdownDocument
  import opened MarkdownCounts

  // ---------------------------------------------------------------- lines of a file

  lemma FirstLine(line: string, rest: string)
    requires '\n' !in line
    ensures Lines(line + "\n" + rest) == [line] + Lines(rest)
    ensures Lines(line) == if line == "" then [] else [line]
  {
    var s := line + "\n" + rest;
    assert s[|line|] == '\n' && s[|line| + 1..] == rest && s[..|line|] == line;
    assert forall i | 0 <= i < |line| :: s[i] == line[i] && line[i] in line;
    SpanUnique(s, {'\n'}, |line|);
    SpanUnique(line, {'\n'}, |line|);
  }

  /** A file as its lines, each ended by a newline. */
  function FileOf(lines: seq<string>): string {
    if lines == [] then "" else lines[0] + "\n" + FileOf(lines[1..])
  }

  lemma {:induction false} LinesOfFile(lines: seq<string>)
    requires forall l | l in lines :: '\n' !in l
    ensures Lines(FileOf(lines)) == lines
  {
    hide Lines;
    if lines == [] {
      NoLines();
    } else {
      FirstLine(lines[0], FileOf(lines[1..]));
      LinesOfFile(lines[1..]);
    }
  }

  // ---------------------------------------------------------------- single lines

  /** The element of a line, by its beginning; `inside` tells of an open code block. */
  function Element(line: string, inside: bool): string {
    if "### " <= line then "<h3 style=\"white-space: pre\">" + Inline(line[4..]) + "</h3>"
    else if "## " <= line then "<h2 style=\"white-space: pre\">" + Inline(line[3..]) + "</h2>"
    else if "# " <= line then "<h1 style=\"white-space: pre\">" + Inline(line[2..]) + "</h1>"
    else if "```" <= line then
      if inside then "</code></p>" else "<p style=\"white-space: pre\"><code>"
    else "<p style=\"white-space: pre\">" + Inline(line) + "</p>"
  }

  lemma HeadingText(x: string, line: string)
    requires x in {"# ", "## ", "### "} && x <= line
    ensures Inline(line) == x + Inline(line[|x|..]) && Inline(line)[|x|..] == Inline(line[|x|..])
  {
    hide Inline;
    assert line == x + line[|x|..];
    InlineBehind(x, line[|x|..]);
  }

  lemma ElementShown(line: string, inside: bool)
    ensures Shown(FragmentOf(Inline(line), inside)) == Element(line, inside)
  {
    hide Inline, KindOf;
    KindByPrefix(line);
    KindKept(line);
    CodeTagLetters();
    if "### " <= line {
      HeadingText("### ", line);
    } else if "## " <= line {
      HeadingText("## ", line);
    } else if "# " <= line {
      HeadingText("# ", line);
    }
  }

  lemma CodeTagLetters()
    ensures P_OPEN + "<code>" == "<p style=\"white-space: pre\"><code>"
  {
  }

  /** The elements of all lines, a fence opening a block of code or closing the one that is open. */
  function Elements(lines: seq<string>, inside: bool): string {
    if lines == [] then ""
    else Element(lines[0], inside) + Elements(lines[1..], if KindOf(lines[0]) == FENCE then !inside else inside)
  }

  lemma {:induction false} ElementsShown(lines: seq<string>, inside: bool)
    ensures ShownAll(Fragments(lines, inside)) == Elements(lines, inside)
  {
    hide Inline, KindOf, Shown, FragmentOf, Element;
    if lines != [] {
      ElementShown(lines[0], inside);
      ElementsShown(lines[1..], if KindOf(lines[0]) == FENCE then !inside else inside);
      var fs := Fragments(lines, inside);
      assert fs[1..] == Fragments(lines[1..], if KindOf(lines[0]) == FENCE then !inside else inside);
    }
  }

  lemma ElementsStep(lines: seq<string>, inside: bool)
    requires lines != []
    ensures Elements(lines, inside) ==
            Element(lines[0], inside) + Elements(lines[1..], if KindOf(lines[0]) == FENCE then !inside else inside)
    ensures Fences(lines) == (if KindOf(lines[0]) == FENCE then 1 else 0) + Fences(lines[1..])
  {
  }

  lemma NoElements(inside: bool)
    ensures Elements([], inside) == "" && Fences([]) == 0
  {
  }

  /** Lines behind others are inside a code block exactly if the fences before them are odd in number. */
  lemma {:induction false} ElementsConcat(a: seq<string>, b: seq<string>, inside: bool)
    ensures Elements(a + b, inside) == Elements(a, inside) + Elements(b, inside != (Fences(a) % 2 == 1))
    decreases |a|
  {
    hide KindOf, Element, Elements, Fences;
    if a == [] {
      NoElements(inside);
      assert a + b == b;
    } else {
      assert (a + b)[0] == a[0] && (a + b)[1..] == a[1..] + b;
      ElementsStep(a, inside);
      ElementsStep(a + b, inside);
      var inside' := if KindOf(a[0]) == FENCE then !inside else inside;
      ElementsConcat(a[1..], b, inside');
      OneFenceMore(Fences(a[1..]));
      ConcatAssociates(Element(a[0], inside), Elements(a[1..], inside'),
                       Elements(b, inside != (Fences(a) % 2 == 1)));
    }
  }

  lemma OneFenceMore(n: nat)
    ensures (1 + n) % 2 == 1 <==> n % 2 == 0
  {
  }

  /** The page of a file is the sequence of the elements of its lines. */
  lemma PageOfFile(lines: seq<string>)
    requires forall l | l in lines :: '\n' !in l
    ensures Page(FileOf(lines)) == Elements(lines, false)
  {
    hide Lines, Elements, ShownAll, Fragments, FileOf;
    LinesOfFile(lines);
    ElementsShown(lines, false);
  }

  /** A file of one line, with or without a newline at its end. */
  lemma PageOfLine(line: string)
    requires '\n' !in line
    ensures line != "" ==> Page(line) == Element(line, false)
    ensures Page(line + "\n") == Element(line, false)
  {
    hide Lines, Element, ShownAll, Fragments, KindOf;
    FirstLine(line, "");
    NoLines();
    assert line + "\n" + "" == line + "\n" && [line] + [] == [line];
    ElementsShown([line], false);
    assert [line][1..] == [];
    assert Element(line, false) + "" == Element(line, false);
  }

  /** A line of text becomes a paragraph, with its markers replaced. */
  lemma ParagraphPage(t: string)
    requires '\n' !in t && t != ""
    requires !("# " <= t) && !("## " <= t) && !("### " <= t) && !("```" <= t)
    ensures Page(t) == "<p style=\"white-space: pre\">" + Inline(t) + "</p>"
  {
    hide Page, Inline;
    PageOfLine(t);
  }

  /** One to three `#` and a space make a heading of that size. */
  lemma HeadingPage(t: string)
    requires '\n' !in t
    ensures Page("# " + t) == "<h1 style=\"white-space: pre\">" + Inline(t) + "</h1>"
    ensures Page("## " + t) == "<h2 style=\"white-space: pre\">" + Inline(t) + "</h2>"
    ensures Page("### " + t) == "<h3 style=\"white-space: pre\">" + Inline(t) + "</h3>"
  {
    hide Page, Inline;
    PageOfLine("# " + t);
    PageOfLine("## " + t);
    PageOfLine("### " + t);
    HeadingLetters(t);
  }

  lemma HeadingLetters(t: string)
    ensures "# " <= "# " + t && !("## " <= "# " + t) && !("### " <= "# " + t) && ("# " + t)[2..] == t
    ensures "## " <= "## " + t && !("### " <= "## " + t) && ("## " + t)[3..] == t
    ensures "### " <= "### " + t && ("### " + t)[4..] == t
  {
    assert ("# " + t)[1] == ' ' && ("## " + t)[2] == ' ';
  }

  /** Two fences make a block of code around the lines between them; their own texts are dropped. */
  lemma CodeBlockPage(before: string, t: string, after: string)
    requires '\n' !in before && '\n' !in t && '\n' !in after
    requires !("# " <= t) && !("## " <= t) && !("### " <= t) && !("```" <= t)
    ensures Page(FileOf(["```" + before, t, "```" + after])) ==
            "<p style=\"white-space: pre\"><code>" +
            ("<p style=\"white-space: pre\">" + Inline(t) + "</p>") + "</code></p>"
  {
    hide Page, Inline, KindOf, Elements;
    var open, close := "```" + before, "```" + after;
    var lines := [open, t, close];
    PageOfFile(lines);
    FenceLetters(before);
    FenceLetters(after);
    KindByPrefix(open);
    KindByPrefix(t);
    KindByPrefix(close);
    assert lines[1..] == [t, close] && [t, close][1..] == [close] && [close][1..] == [];
    ElementsStep(lines, false);
    ElementsStep([t, close], true);
    ElementsStep([close], true);
    NoElements(false);
    var o, p, c := Element(open, false), Element(t, true), Element(close, true);
    assert o + (p + (c + "")) == o + p + c;
  }

  lemma FenceLetters(t: string)
    ensures var l := "```" + t; "```" <= l && !("# " <= l) && !("## " <= l) && !("### " <= l)
  {
    assert ("```" + t)[0] == '`';
  }

  // ---------------------------------------------------------------- the text of a page

  /** The text outside of everything between `<` and the next `>`. */
  function Untagged(s: string): string
    decreases |s|
  {
    if s == "" then ""
    else if s[0] == '<' then
      var n := Span(s, {'>'});
      if n == |s| then "" else Untagged(s[n + 1..])
    else [s[0]] + Untagged(s[1..])
  }

  lemma {:induction false} TextUntagged(t: string, rest: string)
    requires '<' !in t
    ensures Untagged(t + rest) == t + Untagged(rest)
  {
    if t == "" {
      assert t + rest == rest;
    } else {
      assert t[0] in t;
      assert (t + rest)[1..] == t[1..] + rest;
      TextUntagged(t[1..], rest);
      assert [t[0]] + (t[1..] + Untagged(rest)) == t + Untagged(rest);
    }
  }

  /** A text of the form `<...>`. */
  predicate TagLike(t: string) {
    |t| >= 2 && t[0] == '<' && t[|t| - 1] == '>' && forall i | 0 <= i < |t| - 1 :: t[i] != '>'
  }

  lemma TagDropped(tag: string, rest: string)
    requires TagLike(tag)
    ensures Untagged(tag + rest) == Untagged(rest)
  {
    hide Span;
    var s, n := tag + rest, |tag| - 1;
    assert forall i | 0 <= i < n :: s[i] == tag[i];
    SpanUnique(s, {'>'}, n);
    assert s[n + 1..] == rest;
  }

  lemma TagForm(t: string)
    requires IsTag(t)
    ensures TagLike(t)
  {
    assert t == TAGS[0] || t == TAGS[1] || t == TAGS[2] || t == TAGS[3] || t == TAGS[4] || t == TAGS[5];
  }

  lemma {:induction false} UnmarkedConcat(a: string, b: string)
    ensures Unmarked(a + b) == Unmarked(a) + Unmarked(b)
  {
    if a == "" {
      assert a + b == b;
    } else {
      assert (a + b)[1..] == a[1..] + b;
      UnmarkedConcat(a[1..], b);
    }
  }

  /** In a text whose `<` all begin inline tags, dropping what is between `<` and `>` drops just those tags. */
  lemma {:induction false} CleanUntagged(x: string, rest: string)
    requires Clean(x)
    ensures Unmarked(Untagged(x + rest)) == Plain(x) + Unmarked(Untagged(rest))
    decreases |x|
  {
    hide Clean, IsTag, TagLength, Unmarked, Untagged, Plain;
    PlainStep(x);
    if x == "" {
      assert x + rest == rest;
    } else if TagLength(x) > 0 {
      var n := TagLength(x);
      var tag := x[..n];
      assert x + rest == tag + (x[n..] + rest);
      TagForm(tag);
      TagDropped(tag, x[n..] + rest);
      CleanDrop(x, n);
      CleanUntagged(x[n..], rest);
    } else {
      NoTagHere(x);
      assert x + rest == [x[0]] + (x[1..] + rest);
      TextUntagged([x[0]], x[1..] + rest);
      UnmarkedConcat([x[0]], Untagged(x[1..] + rest));
      UnmarkedOne(x[0]);
      CleanDrop(x, 1);
      CleanUntagged(x[1..], rest);
      var p, u := Plain(x[1..]), Unmarked(Untagged(rest));
      assert Unmarked([x[0]]) + (p + u) == Unmarked([x[0]]) + p + u;
    }
  }

  lemma PlainStep(x: string)
    ensures x == "" ==> Plain(x) == ""
    ensures x != "" && TagLength(x) > 0 ==> Plain(x) == Plain(x[TagLength(x)..])
    ensures x != "" && TagLength(x) == 0 ==> Plain(x) == Unmarked([x[0]]) + Plain(x[1..])
  {
    hide TagLength;
    if x != "" {
      UnmarkedOne(x[0]);
    }
  }

  lemma UnmarkedOne(c: char)
    ensures Unmarked([c]) == if IsMarker(c) then "" else [c]
  {
    assert [c][1..] == "";
  }

  lemma NoTagHere(x: string)
    requires x != "" && Clean(x) && TagLength(x) == 0
    ensures x[0] != '<'
  {
    hide TagLength;
    assert x[0] == '<' ==> TagAt(x, 0);
  }

  /** What a line contributes to the text of the page: headings lose their marks, fences everything. */
  function LineText(line: string): string {
    if "### " <= line then line[4..]
    else if "## " <= line then line[3..]
    else if "# " <= line then line[2..]
    else if "```" <= line then ""
    else line
  }

  function TextOfLines(lines: seq<string>): string {
    if lines == [] then "" else Unmarked(LineText(lines[0])) + TextOfLines(lines[1..])
  }

  lemma Enclosed(open: string, text: string, close: string, rest: string)
    requires TagLike(open) && TagLike(close) && '<' !in text
    ensures Unmarked(Untagged(open + Inline(text) + close + rest)) == Unmarked(text) + Unmarked(Untagged(rest))
  {
    hide Inline, Untagged, Unmarked, Plain, Clean, TagLike;
    var x := Inline(text);
    assert open + x + close + rest == open + (x + (close + rest));
    TagDropped(open, x + (close + rest));
    InlineProfile(text, "<strong>", "</strong>") by {
      TagsKnown();
    }
    CleanUntagged(x, close + rest);
    TextConservation(text);
    TagDropped(close, rest);
  }

  lemma ElementText(line: string, inside: bool, rest: string)
    requires '<' !in line
    ensures Unmarked(Untagged(Element(line, inside) + rest)) == Unmarked(LineText(line)) + Unmarked(Untagged(rest))
  {
    hide Inline, Untagged, Unmarked, TagLike;
    HeadingForms();
    BlockForms();
    if "### " <= line {
      Enclosed("<h3 style=\"white-space: pre\">", line[4..], "</h3>", rest);
    } else if "## " <= line {
      Enclosed("<h2 style=\"white-space: pre\">", line[3..], "</h2>", rest);
    } else if "# " <= line {
      Enclosed("<h1 style=\"white-space: pre\">", line[2..], "</h1>", rest);
    } else if "```" <= line {
      FenceText(inside, rest);
      NothingToRead();
    } else {
      Enclosed("<p style=\"white-space: pre\">", line, "</p>", rest);
    }
  }

  lemma HeadingForms()
    ensures TagLike("<h1 style=\"white-space: pre\">") && TagLike("<h2 style=\"white-space: pre\">")
    ensures TagLike("<h3 style=\"white-space: pre\">")
    ensures TagLike("</h1>") && TagLike("</h2>") && TagLike("</h3>")
  {
  }

  lemma BlockForms()
    ensures TagLike("<p style=\"white-space: pre\">") && TagLike("</p>") && TagLike("<code>") && TagLike("</code>")
  {
  }

  lemma FenceText(inside: bool, rest: string)
    ensures Untagged((if inside then "</code></p>" else "<p style=\"white-space: pre\"><code>") + rest) ==
            Untagged(rest)
  {
    hide Untagged, TagLike;
    BlockForms();
    CodeTagLetters();
    if inside {
      assert "</code></p>" + rest == "</code>" + ("</p>" + rest);
      TagDropped("</code>", "</p>" + rest);
      TagDropped("</p>", rest);
    } else {
      assert P_OPEN + "<code>" + rest == P_OPEN + ("<code>" + rest);
      TagDropped(P_OPEN, "<code>" + rest);
      TagDropped("<code>", rest);
    }
  }

  lemma {:induction false} ElementsText(lines: seq<string>, inside: bool)
    requires forall l | l in lines :: '<' !in l
    ensures Unmarked(Untagged(Elements(lines, inside))) == TextOfLines(lines)
  {
    hide Element, Untagged, Unmarked, KindOf, LineText;
    if lines == [] {
      NothingToRead();
    } else {
      var inside' := if KindOf(lines[0]) == FENCE then !inside else inside;
      assert lines[0] in lines;
      ElementText(lines[0], inside, Elements(lines[1..], inside'));
      ElementsText(lines[1..], inside');
    }
  }

  lemma NothingToRead()
    ensures Unmarked(Untagged("")) == "" && Unmarked("") == ""
  {
  }

  /**
   The text of a page. For a file without `<`, the page without tags and markers is the text
   of the lines without markers, headings without their marks and fences left out.
   */
  lemma PageText(s: string)
    requires '<' !in s
    ensures Unmarked(Untagged(Page(s))) == TextOfLines(Lines(s))
  {
    hide Element, Untagged, Unmarked, KindOf, LineText, Lines, Shown, FragmentOf;
    LinesHaveOnly(s, '<');
    ElementsShown(Lines(s), false);
    ElementsText(Lines(s), false);
  }

  lemma {:induction false} LinesHaveOnly(s: string, c: char)
    requires c !in s
    ensures forall l | l in Lines(s) :: c !in l
    decreases |s|
  {
    hide Span;
    if s != "" {
      var n := Span(s, {'\n'});
      if n < |s| {
        LinesHaveOnly(s[n + 1..], c);
      }
    }
  }
}

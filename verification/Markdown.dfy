/** The inline stages of the markdown handler: bold, italics and in-line code. */
module Markdown {
  import opened Segments

  /** A marker that shares no character with the tags it turns into. */
  predicate Marker(m: string, open: string, close: string) {
    m != "" && open != "" && close != "" && Disjoint(open, m) && Disjoint(close, m)
  }

  /** Segments woven with alternating tags; an odd last match stays as it is. */
  function Weave(segs: seq<string>, m: string, open: string, close: string): string
    requires segs != []
  {
    if |segs| == 1 then segs[0]
    else if |segs| == 2 then segs[0] + m + segs[1]
    else segs[0] + open + segs[1] + close + Weave(segs[2..], m, open, close)
  }

  /** One left-to-right pass that replaces the matches of `m` pair by pair. */
  function Pass(s: string, m: string, open: string, close: string): string
    requires m != ""
  {
    Weave(Split(s, m), m, open, close)
  }

  /** The matches of `m` pair up: their number, one less than that of the segments, is even. */
  predicate PairsUp(s: string, m: string)
    requires m != ""
  {
    |Split(s, m)| % 2 == 1
  }

  /** A pass for the first marker, and one for the second exactly if the matches of the first pair up. */
  function TwoPasses(s: string, m1: string, m2: string, open: string, close: string): string
    requires m1 != "" && m2 != ""
  {
    var a := Pass(s, m1, open, close);
    if PairsUp(s, m1) then Pass(a, m2, open, close) else a
  }

  function Bold(s: string): string {
    TwoPasses(s, "**", "__", "<strong>", "</strong>")
  }

  function Italics(s: string): string {
    TwoPasses(s, "*", "_", "<em>", "</em>")
  }

  function InlineCode(s: string): string {
    if Find(s, "```") >= 0 then s else Pass(s, "`", "<code>", "</code>")
  }

  function Inline(s: string): string {
    InlineCode(Italics(Bold(s)))
  }

  // ---------------------------------------------------------------- pairing

  /** The segments are the texts between the matches: none of them holds the marker. */
  lemma {:induction false} SegmentsHaveNone(s: string, m: string)
    requires m != ""
    ensures forall seg | seg in Split(s, m) :: !Has(seg, m)
    decreases |s|
  {
    hide Has, Find, Split;
    SplitFind(s, m);
    var i := Find(s, m);
    if i >= 0 {
      FindSplits(s, m);
      SegmentsHaveNone(s[i + |m|..], m);
    } else {
      FindHas(s, m);
    }
  }

  lemma {:induction false} WeaveLeaves(segs: seq<string>, m: string, open: string, close: string)
    requires segs != [] && Marker(m, open, close) && forall seg | seg in segs :: !Has(seg, m)
    ensures Has(Weave(segs, m, open, close), m) <==> |segs| % 2 == 0
    decreases |segs|
  {
    hide Has, Disjoint;
    if |segs| == 1 {
      assert segs[0] in segs;
    } else if |segs| == 2 {
      MarkerFound(m);
      HasPart(segs[0], m, segs[1], m);
    } else {
      assert segs[0] in segs && segs[1] in segs;
      WeaveLeaves(segs[2..], m, open, close);
      HasAcross(segs[0] + open + segs[1], close, Weave(segs[2..], m, open, close), m);
      HasAcross(segs[0], open, segs[1], m);
    }
  }

  lemma MarkerFound(m: string)
    ensures Has(m, m)
  {
    assert m[0..|m|] == m && MatchAt(m, m, 0);
  }

  /** A pass leaves no match of its marker exactly if the matches pair up. */
  lemma PassLeavesNone(s: string, m: string, open: string, close: string)
    requires Marker(m, open, close)
    ensures Find(Pass(s, m, open, close), m) < 0 <==> PairsUp(s, m)
  {
    hide Has, Find, Split, Weave, Disjoint;
    SegmentsHaveNone(s, m);
    WeaveLeaves(Split(s, m), m, open, close);
    FindHas(Pass(s, m, open, close), m);
  }

  /** What an odd last match leaves: everything before it is paired, the match and the text behind it stay. */
  lemma {:induction false} OddMatchStays(segs: seq<string>, m: string, open: string, close: string)
    requires segs != [] && |segs| % 2 == 0
    ensures Weave(segs, m, open, close) == Weave(segs[..|segs| - 1], m, open, close) + m + segs[|segs| - 1]
    decreases |segs|
  {
    var front := segs[..|segs| - 1];
    if |segs| > 2 {
      OddMatchStays(segs[2..], m, open, close);
      assert segs[2..][..|segs| - 3] == front[2..];
      var x, w, last := segs[0] + open + segs[1] + close, Weave(front[2..], m, open, close), segs[|segs| - 1];
      assert x + (w + m + last) == x + w + m + last;
    }
  }

  // ---------------------------------------------------------------- one replacement

  lemma WeaveBehind(x: string, segs: seq<string>, m: string, open: string, close: string)
    requires segs != []
    ensures Weave([x + segs[0]] + segs[1..], m, open, close) == x + Weave(segs, m, open, close)
  {
    var segs' := [x + segs[0]] + segs[1..];
    if |segs| == 2 {
      assert x + segs[0] + m + segs[1] == x + (segs[0] + m + segs[1]);
    } else if |segs| > 2 {
      assert segs'[2..] == segs[2..];
      var w := Weave(segs[2..], m, open, close);
      assert x + segs[0] + open + segs[1] + close + w == x + (segs[0] + open + segs[1] + close + w);
    }
  }

  lemma PassWithout(s: string, m: string, open: string, close: string)
    requires m != "" && !Has(s, m)
    ensures Pass(s, m, open, close) == s && PairsUp(s, m)
  {
    SplitFind(s, m);
  }

  lemma WeavePair(a: string, b: string, segs: seq<string>, m: string, open: string, close: string)
    requires segs != []
    ensures Weave([a] + ([b] + segs), m, open, close) == a + open + b + close + Weave(segs, m, open, close)
  {
    assert ([a] + ([b] + segs))[2..] == segs;
  }

  /** `line` has its first two matches of `m` around `b`; in `newLine` they are replaced. */
  ghost predicate Replaced(line: string, newLine: string, m: string, open: string, close: string,
                           a: string, b: string, c: string) {
    && line == a + m + (b + m + c) && newLine == a + open + b + close + c
    && !Has(a, m) && !Has(b, m)
    && Find(line, m) == |a| && Find(b + m + c, m) == |b|
  }

  lemma SplitAt(a: string, rest: string, m: string)
    requires m != "" && Find(a + m + rest, m) == |a|
    ensures Split(a + m + rest, m) == [a] + Split(rest, m)
  {
    var s := a + m + rest;
    SplitFind(s, m);
    assert s[..|a|] == a && s[|a| + |m|..] == rest;
  }

  lemma LastForeign(x: string, m: string)
    requires x != "" && Disjoint(x, m)
    ensures x[|x| - 1] !in m
  {
  }

  lemma NoneInEmpty(m: string)
    requires m != ""
    ensures !Has("", m)
  {
  }

  lemma NoneInPair(a: string, b: string, m: string, open: string, close: string)
    requires Marker(m, open, close) && !Has(a, m) && !Has(b, m)
    ensures !Has(a + open + b + close, m)
  {
    hide Has;
    HasAcross(a, open, b, m);
    NoneInEmpty(m);
    HasAcross(a + open + b, close, "", m);
    assert a + open + b + close + "" == a + open + b + close;
  }

  /** Replacing a pair by hand does not change what the pass makes of the line. */
  lemma PassPair(line: string, newLine: string, m: string, open: string, close: string,
                 a: string, b: string, c: string)
    requires Marker(m, open, close) && Replaced(line, newLine, m, open, close, a, b, c)
    ensures Pass(newLine, m, open, close) == Pass(line, m, open, close)
    ensures |Split(newLine, m)| == |Split(line, m)| - 2
  {
    hide Has, Find, Split, Weave, Disjoint;
    SplitAt(a, b + m + c, m);
    SplitAt(b, c, m);
    var segs := Split(c, m);
    WeavePair(a, b, segs, m, open, close);
    var x := a + open + b + close;
    NoneInPair(a, b, m, open, close);
    LastForeign(close, m);
    assert x[|x| - 1] == close[|close| - 1];
    SplitBehind(x, c, m);
    WeaveBehind(x, segs, m, open, close);
  }

  /**
   The body of all replacement loops: find the marker, put the opening tag there, find the
   marker again from the beginning, put the closing tag there. Nothing is kept if the second
   search fails.
   */
  method ReplacePair(line: string, m: string, open: string, close: string)
    returns (paired: bool, newLine: string, ghost a: string, ghost b: string, ghost c: string)
    requires Marker(m, open, close) && Find(line, m) >= 0
    ensures paired ==> Replaced(line, newLine, m, open, close, a, b, c)
    ensures !paired ==> newLine == line && Pass(line, m, open, close) == line && !PairsUp(line, m)
  {
    hide Has, MatchAt, Disjoint, Pass;
    newLine := line;
    var idx := Find(newLine, m);
    FindSplits(line, m);
    a, b, c := line[..idx], "", "";
    ghost var rest := line[idx + |m|..];
    newLine := newLine[..idx] + open + newLine[idx + |m|..];
    FindAcross(a, open, rest, m);
    idx := Find(newLine, m);
    if idx != -1 {
      FindSplits(rest, m);
      ghost var k := Find(rest, m);
      b, c := rest[..k], rest[k + |m|..];
      assert newLine[..idx] == a + open + b && newLine[idx + |m|..] == c;
      newLine := newLine[..idx] + close + newLine[idx + |m|..];
      paired := true;
    } else {
      PassUnpaired(a, rest, m, open, close);
      paired, newLine := false, line;
    }
  }

  lemma PassUnpaired(a: string, rest: string, m: string, open: string, close: string)
    requires m != "" && Find(a + m + rest, m) == |a| && Find(rest, m) < 0
    ensures Pass(a + m + rest, m, open, close) == a + m + rest && !PairsUp(a + m + rest, m)
  {
    SplitAt(a, rest, m);
    SplitFind(rest, m);
  }

  /** The first match cuts the text in two; what comes before it has no match. */
  lemma FindSplits(s: string, m: string)
    requires m != "" && Find(s, m) >= 0
    ensures var i := Find(s, m); i + |m| <= |s| && s == s[..i] + m + s[i + |m|..] && !Has(s[..i], m)
  {
    var i := Find(s, m);
    SliceOut(s, m, i);
    forall j
      ensures !MatchAt(s[..i], m, j)
    {
      hide MatchAt;
      MatchInPrefix(s, i, m, j);
      NoNegativeMatch(s, m, j);
    }
  }

  // ---------------------------------------------------------------- the loops

  /** Replacing pairs of one marker creates no match of another one. */
  lemma ReplacedKeepsAbsent(line: string, newLine: string, m: string, open: string, close: string,
                            a: string, b: string, c: string, other: string)
    requires Replaced(line, newLine, m, open, close, a, b, c)
    requires Marker(other, open, close) && !Has(line, other)
    ensures !Has(newLine, other)
  {
    hide Has, Find, Disjoint;
    PartsOf(a, m, b, c);
    HasPart("", a, m + (b + m + c), other);
    HasPart(a + m, b, m + c, other);
    HasPart(a + m + b + m, c, "", other);
    NoneInPair(a, b, other, open, close);
    HasPart("", a + open + b, close, other);
    assert "" + (a + open + b) + close == a + open + b + close;
    HasAcross(a + open + b, close, c, other);
  }

  lemma PartsOf(a: string, m: string, b: string, c: string)
    ensures var line := a + m + (b + m + c);
            line == "" + a + (m + (b + m + c)) && line == a + m + b + (m + c) && line == a + m + b + m + c + ""
  {
  }

  /**
   The loop of the bold and of the italics stage, which differ only in markers and tags: the
   first marker is looked for before the second one, and an unpaired match ends the loop.
   */
  method ReplaceMarkers(line: string, m1: string, m2: string, open: string, close: string) returns (r: string)
    requires Marker(m1, open, close) && Marker(m2, open, close)
    ensures r == TwoPasses(line, m1, m2, open, close)
  {
    hide Has, MatchAt, Pass, Replaced, Disjoint, Split;
    r := line;
    while Find(r, m1) != -1 || Find(r, m2) != -1
      invariant TwoPasses(r, m1, m2, open, close) == TwoPasses(line, m1, m2, open, close)
      decreases |Split(r, m1)|, |Split(r, m2)|
    {
      if Find(r, m1) != -1 {
        var paired, newLine, a, b, c := ReplacePair(r, m1, open, close);
        if paired {
          PassPair(r, newLine, m1, open, close, a, b, c);
          r := newLine;
        } else {
          break;
        }
      } else {
        PassWithout(r, m1, open, close);
        SplitFind(r, m1);
        var paired, newLine, a, b, c := ReplacePair(r, m2, open, close);
        if paired {
          ReplacedKeepsAbsent(r, newLine, m2, open, close, a, b, c, m1);
          PassPair(r, newLine, m2, open, close, a, b, c);
          PassWithout(newLine, m1, open, close);
          FindHas(newLine, m1);
          SplitFind(newLine, m1);
          r := newLine;
        } else {
          break;
        }
      }
    }
    if Find(r, m1) == -1 {
      PassWithout(r, m1, open, close);
      if Find(r, m2) == -1 {
        PassWithout(r, m2, open, close);
      }
    }
  }

  method RenderBold(line: string) returns (r: string)
    ensures r == Bold(line)
  {
    r := ReplaceMarkers(line, "**", "__", "<strong>", "</strong>");
  }

  method RenderItalics(line: string) returns (r: string)
    ensures r == Italics(line)
  {
    r := ReplaceMarkers(line, "*", "_", "<em>", "</em>");
  }

  method RenderInlineCode(line: string) returns (r: string)
    ensures r == InlineCode(line)
  {
    hide Has, MatchAt, Pass, Replaced, Split;
    r := line;
    while Find(r, "`") != -1 && Find(r, "```") == -1
      invariant InlineCode(r) == InlineCode(line)
      decreases |Split(r, "`")|
    {
      var paired, newLine, a, b, c := ReplacePair(r, "`", "<code>", "</code>");
      if paired {
        ReplacedKeepsAbsent(r, newLine, "`", "<code>", "</code>", a, b, c, "```");
        FindHas(newLine, "```");
        PassPair(r, newLine, "`", "<code>", "</code>", a, b, c);
        r := newLine;
      } else {
        break;
      }
    }
    if Find(r, "`") == -1 {
      PassWithout(r, "`", "<code>", "</code>");
    }
  }

  /** The three inline loops in the order in which the handler runs them. */
  method RenderInline(line: string) returns (r: string)
    ensures r == Inline(line)
  {
    r := RenderBold(line);
    r := RenderItalics(r);
    r := RenderInlineCode(r);
  }
}

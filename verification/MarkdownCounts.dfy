/** What the inline stages write: single pairs of markers, and the number of tags on any line. */
module MarkdownCounts {
  import opened Segments
  import opened Markdown
  import opened MarkdownLaws
  import opened MarkdownTags

  /** A text without marker characters. */
  predicate Unmarkable(s: string) {
    '*' !in s && '_' !in s && '`' !in s
  }

  // ---------------------------------------------------------------- texts without markers

  lemma AbsentMatch(s: string, m: string)
    requires m != "" && m[0] !in s
    ensures !Has(s, m) && Find(s, m) < 0
  {
    hide Find;
    FindHas(s, m);
    forall i
      ensures !MatchAt(s, m, i)
    {
      if 0 <= i && i + |m| <= |s| {
        assert s[i..i + |m|][0] == s[i] && s[i] in s;
      }
    }
  }

  lemma PassAbsent(s: string, m: string, open: string, close: string)
    requires m != "" && m[0] !in s
    ensures Pass(s, m, open, close) == s && PairsUp(s, m)
  {
    hide Pass, Has, PairsUp;
    AbsentMatch(s, m);
    PassWithout(s, m, open, close);
  }

  lemma BoldAbsent(s: string)
    requires '*' !in s && '_' !in s
    ensures Bold(s) == s
  {
    hide Pass, PairsUp;
    PassAbsent(s, "**", "<strong>", "</strong>");
    PassAbsent(s, "__", "<strong>", "</strong>");
  }

  lemma ItalicsAbsent(s: string)
    requires '*' !in s && '_' !in s
    ensures Italics(s) == s
  {
    hide Pass, PairsUp;
    PassAbsent(s, "*", "<em>", "</em>");
    PassAbsent(s, "_", "<em>", "</em>");
  }

  lemma CodeAbsent(s: string)
    requires '`' !in s
    ensures InlineCode(s) == s
  {
    hide Pass, PairsUp, Find;
    PassAbsent(s, "`", "<code>", "</code>");
  }

  /** A text without markers is left as it is. */
  lemma PlainTextStays(s: string)
    requires Unmarkable(s)
    ensures Inline(s) == s
  {
    hide Bold, Italics, InlineCode;
    BoldAbsent(s);
    ItalicsAbsent(s);
    CodeAbsent(s);
  }

  // ---------------------------------------------------------------- one pair of markers

  lemma FirstMatch(a: string, m: string, rest: string)
    requires m != "" && m[0] !in a
    ensures Find(a + m + rest, m) == |a|
  {
    hide Find;
    var s := a + m + rest;
    assert s[|a|..|a| + |m|] == m && MatchAt(s, m, |a|);
    forall j | 0 <= j < |a|
      ensures !MatchAt(s, m, j)
    {
      assert s[j] == a[j] && a[j] in a;
      if j + |m| <= |s| {
        assert s[j..j + |m|][0] == s[j];
      }
    }
    FindUnique(s, m, |a|);
  }

  lemma PairSplit(a: string, b: string, c: string, m: string)
    requires m != "" && m[0] !in a && m[0] !in b && m[0] !in c
    ensures Split(a + m + (b + m + c), m) == [a] + ([b] + [c])
  {
    hide Split, Find, Has;
    FirstMatch(a, m, b + m + c);
    SplitAt(a, b + m + c, m);
    FirstMatch(b, m, c);
    SplitAt(b, c, m);
    AbsentMatch(c, m);
    SplitFind(c, m);
  }

  lemma PassPairAlone(a: string, b: string, c: string, m: string, open: string, close: string)
    requires m != "" && m[0] !in a && m[0] !in b && m[0] !in c
    ensures Pass(a + m + (b + m + c), m, open, close) == a + open + b + close + c
    ensures PairsUp(a + m + (b + m + c), m)
  {
    hide Split, Weave;
    PairSplit(a, b, c, m);
    WeavePair(a, b, [c], m, open, close);
    WeaveOne(c, m, open, close);
  }

  lemma WeaveOne(c: string, m: string, open: string, close: string)
    ensures Weave([c], m, open, close) == c
  {
  }

  lemma PassSingle(a: string, rest: string, m: string, open: string, close: string)
    requires m != "" && m[0] !in a && m[0] !in rest
    ensures Pass(a + m + rest, m, open, close) == a + m + rest && !PairsUp(a + m + rest, m)
  {
    hide Pass, PairsUp, Find, Has;
    FirstMatch(a, m, rest);
    AbsentMatch(rest, m);
    PassUnpaired(a, rest, m, open, close);
  }

  /** The line with a pair of markers around `b`. */
  function Marked(a: string, m: string, b: string, c: string): string {
    a + m + (b + m + c)
  }

  function Tagged(a: string, open: string, b: string, close: string, c: string): string {
    a + open + b + close + c
  }

  lemma TaggedHas(a: string, open: string, b: string, close: string, c: string, x: char)
    requires x !in a && x !in b && x !in c && x !in open && x !in close
    ensures x !in Tagged(a, open, b, close, c)
  {
  }

  lemma MarkedHas(a: string, m: string, b: string, c: string, x: char)
    requires x !in a && x !in b && x !in c && x !in m
    ensures x !in Marked(a, m, b, c)
  {
  }

  /** `**` around a text makes it strong. */
  lemma StarsAreBold(a: string, b: string, c: string)
    requires Unmarkable(a) && Unmarkable(b) && Unmarkable(c)
    ensures Inline(a + "**" + (b + "**" + c)) == a + "<strong>" + b + "</strong>" + c
  {
    hide Pass, PairsUp, Italics, InlineCode;
    var line, r := Marked(a, "**", b, c), Tagged(a, "<strong>", b, "</strong>", c);
    PassPairAlone(a, b, c, "**", "<strong>", "</strong>");
    TaggedHas(a, "<strong>", b, "</strong>", c, '*');
    TaggedHas(a, "<strong>", b, "</strong>", c, '_');
    TaggedHas(a, "<strong>", b, "</strong>", c, '`');
    PassAbsent(r, "__", "<strong>", "</strong>");
    ItalicsAbsent(r);
    CodeAbsent(r);
  }

  /** So does `__`. */
  lemma UnderscoresAreBold(a: string, b: string, c: string)
    requires Unmarkable(a) && Unmarkable(b) && Unmarkable(c)
    ensures Inline(a + "__" + (b + "__" + c)) == a + "<strong>" + b + "</strong>" + c
  {
    hide Pass, PairsUp, Italics, InlineCode;
    var line, r := Marked(a, "__", b, c), Tagged(a, "<strong>", b, "</strong>", c);
    MarkedHas(a, "__", b, c, '*');
    PassAbsent(line, "**", "<strong>", "</strong>");
    PassPairAlone(a, b, c, "__", "<strong>", "</strong>");
    TaggedHas(a, "<strong>", b, "</strong>", c, '*');
    TaggedHas(a, "<strong>", b, "</strong>", c, '_');
    TaggedHas(a, "<strong>", b, "</strong>", c, '`');
    ItalicsAbsent(r);
    CodeAbsent(r);
  }

  lemma NoDouble(a: string, x: char, b: string, c: string)
    requires x !in a && x !in b && x !in c && b != ""
    ensures !Has(Marked(a, [x], b, c), [x, x])
  {
    var s := Marked(a, [x], b, c);
    assert s == a + [x] + b + [x] + c;
    forall i
      ensures !MatchAt(s, [x, x], i)
    {
      MatchLetter(s, [x, x], i, 0);
      MatchLetter(s, [x, x], i, 1);
      OnlyTwo(a, x, b, c, i);
      OnlyTwo(a, x, b, c, i + 1);
    }
  }

  lemma MatchLetter(s: string, m: string, i: int, k: nat)
    requires k < |m|
    ensures MatchAt(s, m, i) ==> 0 <= i && i + |m| <= |s| && s[i + k] == m[k]
  {
    assert MatchAt(s, m, i) ==> s[i + k] == s[i..i + |m|][k];
  }

  lemma OnlyTwo(a: string, x: char, b: string, c: string, i: int)
    requires x !in a && x !in b && x !in c
    ensures var s := a + [x] + b + [x] + c;
            0 <= i < |s| && s[i] == x ==> i == |a| || i == |a| + 1 + |b|
  {
    var s := a + [x] + b + [x] + c;
    if 0 <= i < |s| {
      if i < |a| {
        assert s[i] == a[i] && a[i] in a;
      } else if |a| < i < |a| + 1 + |b| {
        assert s[i] == b[i - |a| - 1] && b[i - |a| - 1] in b;
      } else if |a| + 1 + |b| < i {
        assert s[i] == c[i - |a| - |b| - 2] && c[i - |a| - |b| - 2] in c;
      }
    }
  }

  /** A pair of single markers passes the bold stage unchanged, whatever is between them. */
  lemma SinglePairStays(a: string, x: char, b: string, c: string)
    requires Unmarkable(a) && Unmarkable(b) && Unmarkable(c) && x in {'*', '_'}
    ensures Bold(Marked(a, [x], b, c)) == Marked(a, [x], b, c)
  {
    hide Pass, PairsUp, Has, Find;
    var line, double := Marked(a, [x], b, c), [x, x];
    var other := if x == '*' then "__" else "**";
    MarkedHas(a, [x], b, c, other[0]);
    PassAbsent(line, other, "<strong>", "</strong>");
    assert double == (if x == '*' then "**" else "__");
    if b == "" {
      assert line == a + double + c;
      PassSingle(a, c, double, "<strong>", "</strong>");
    } else {
      NoDouble(a, x, b, c);
      PassWithout(line, double, "<strong>", "</strong>");
    }
  }

  /** `*` around a text makes it emphasised. */
  lemma StarIsItalic(a: string, b: string, c: string)
    requires Unmarkable(a) && Unmarkable(b) && Unmarkable(c)
    ensures Inline(a + "*" + (b + "*" + c)) == a + "<em>" + b + "</em>" + c
  {
    hide Pass, PairsUp, Bold, InlineCode;
    var line, r := Marked(a, "*", b, c), Tagged(a, "<em>", b, "</em>", c);
    assert "*" == ['*'];
    SinglePairStays(a, '*', b, c);
    PassPairAlone(a, b, c, "*", "<em>", "</em>");
    TaggedHas(a, "<em>", b, "</em>", c, '_');
    TaggedHas(a, "<em>", b, "</em>", c, '`');
    PassAbsent(r, "_", "<em>", "</em>");
    CodeAbsent(r);
  }

  /** So does `_`. */
  lemma UnderscoreIsItalic(a: string, b: string, c: string)
    requires Unmarkable(a) && Unmarkable(b) && Unmarkable(c)
    ensures Inline(a + "_" + (b + "_" + c)) == a + "<em>" + b + "</em>" + c
  {
    hide Pass, PairsUp, Bold, InlineCode;
    var line, r := Marked(a, "_", b, c), Tagged(a, "<em>", b, "</em>", c);
    assert "_" == ['_'];
    SinglePairStays(a, '_', b, c);
    MarkedHas(a, "_", b, c, '*');
    PassAbsent(line, "*", "<em>", "</em>");
    PassPairAlone(a, b, c, "_", "<em>", "</em>");
    TaggedHas(a, "<em>", b, "</em>", c, '`');
    CodeAbsent(r);
  }

  /** Backticks around a text make it code. */
  lemma BackticksAreCode(a: string, b: string, c: string)
    requires Unmarkable(a) && Unmarkable(b) && Unmarkable(c)
    ensures Inline(a + "`" + (b + "`" + c)) == a + "<code>" + b + "</code>" + c
  {
    hide Pass, PairsUp, Bold, Italics, Find, Has;
    var line := Marked(a, "`", b, c);
    MarkedHas(a, "`", b, c, '*');
    MarkedHas(a, "`", b, c, '_');
    BoldAbsent(line);
    ItalicsAbsent(line);
    PassPairAlone(a, b, c, "`", "<code>", "</code>");
    NoTriple(a, b, c);
    FindHas(line, "```");
  }

  lemma NoTriple(a: string, b: string, c: string)
    requires '`' !in a && '`' !in b && '`' !in c
    ensures !Has(Marked(a, "`", b, c), "```")
  {
    var s := Marked(a, "`", b, c);
    assert s == a + ['`'] + b + ['`'] + c;
    forall i
      ensures !MatchAt(s, "```", i)
    {
      MatchLetter(s, "```", i, 0);
      MatchLetter(s, "```", i, 1);
      MatchLetter(s, "```", i, 2);
      OnlyTwo(a, '`', b, c, i);
      OnlyTwo(a, '`', b, c, i + 1);
      OnlyTwo(a, '`', b, c, i + 2);
    }
  }

  // ---------------------------------------------------------------- any number of markers

  /**
   The line as a scanner with a toggle writes it: `open` says whether the last tag written is
   still open. Behind a closed tag, a match that is the last one has no partner and stays.
   */
  function Scan(segs: seq<string>, m: string, left: string, right: string, open: bool): string
    requires segs != []
  {
    if |segs| == 1 then segs[0]
    else segs[0] + (if open then right else if |segs| == 2 then m else left) + Scan(segs[1..], m, left, right, !open)
  }

  lemma {:induction false} WeaveScans(segs: seq<string>, m: string, left: string, right: string)
    requires segs != []
    ensures Weave(segs, m, left, right) == Scan(segs, m, left, right, false)
    decreases |segs|
  {
    if |segs| > 2 {
      WeaveScans(segs[2..], m, left, right);
      assert segs[1..][1..] == segs[2..];
      var w := Weave(segs[2..], m, left, right);
      assert segs[0] + left + (segs[1] + right + w) == segs[0] + left + segs[1] + right + w;
    }
  }

  function ScanLine(s: string, m: string, left: string, right: string): string
    requires m != ""
  {
    Scan(Split(s, m), m, left, right, false)
  }

  /** Each stage is such a scan over the line, with a second scan where the first markers pair up. */
  lemma StagesScan(s: string)
    ensures Bold(s) ==
              var a := ScanLine(s, "**", "<strong>", "</strong>");
              if |Split(s, "**")| % 2 == 1 then ScanLine(a, "__", "<strong>", "</strong>") else a
    ensures Italics(s) ==
              var a := ScanLine(s, "*", "<em>", "</em>");
              if |Split(s, "*")| % 2 == 1 then ScanLine(a, "_", "<em>", "</em>") else a
    ensures InlineCode(s) == if Has(s, "```") then s else ScanLine(s, "`", "<code>", "</code>")
  {
    hide Split, Weave, Scan, Find, Has;
    FindHas(s, "```");
    LineScans(s, "`", "<code>", "</code>");
    LineScans(s, "**", "<strong>", "</strong>");
    LineScans(Pass(s, "**", "<strong>", "</strong>"), "__", "<strong>", "</strong>");
    LineScans(s, "*", "<em>", "</em>");
    LineScans(Pass(s, "*", "<em>", "</em>"), "_", "<em>", "</em>");
  }

  lemma LineScans(s: string, m: string, left: string, right: string)
    requires m != ""
    ensures Pass(s, m, left, right) == ScanLine(s, m, left, right)
  {
    WeaveScans(Split(s, m), m, left, right);
  }

  // ---------------------------------------------------------------- text in front of a line

  lemma PassBehind(x: string, t: string, m: string, open: string, close: string)
    requires m != "" && forall c | c in x :: c !in m
    ensures Pass(x + t, m, open, close) == x + Pass(t, m, open, close)
    ensures PairsUp(x + t, m) == PairsUp(t, m)
  {
    hide Split, Weave, Has;
    if x == "" {
      assert x + t == t && x + Pass(t, m, open, close) == Pass(t, m, open, close);
    } else {
      assert x[|x| - 1] in x && m[0] in m;
      assert m[0] !in x;
      AbsentMatch(x, m);
      SplitBehind(x, t, m);
      WeaveBehind(x, Split(t, m), m, open, close);
    }
  }

  lemma TwoPassesBehind(x: string, t: string, m1: string, m2: string, open: string, close: string)
    requires m1 != "" && m2 != "" && forall c | c in x :: c !in m1 && c !in m2
    ensures TwoPasses(x + t, m1, m2, open, close) == x + TwoPasses(t, m1, m2, open, close)
  {
    hide Pass, PairsUp;
    PassBehind(x, t, m1, open, close);
    PassBehind(x, Pass(t, m1, open, close), m2, open, close);
  }

  /** Text without markers in front of a line stays in front of it. */
  lemma InlineBehind(x: string, t: string)
    requires Unmarkable(x)
    ensures Inline(x + t) == x + Inline(t)
  {
    hide TwoPasses, Pass, Find, Has, PairsUp;
    TwoPassesBehind(x, t, "**", "__", "<strong>", "</strong>");
    TwoPassesBehind(x, Bold(t), "*", "_", "<em>", "</em>");
    var i := Italics(Bold(t));
    PassBehind(x, i, "`", "<code>", "</code>");
    FindHas(x + i, "```");
    FindHas(i, "```");
    FencesBehind(x, i);
  }

  lemma FencesBehind(x: string, t: string)
    requires Unmarkable(x)
    ensures Has(x + t, "```") <==> Has(t, "```")
  {
    hide Has;
    if x == "" {
      assert x + t == t;
    } else {
      assert "" + x + t == x + t;
      HasAcross("", x, t, "```");
      NoneInEmpty("```");
    }
  }

  // ---------------------------------------------------------------- the number of tags

  /** The number of pairs of non-overlapping matches of `m`, read from left to right. */
  function Pairs(s: string, m: string): nat
    requires m != ""
  {
    (|Split(s, m)| - 1) / 2
  }

  lemma {:induction false} WeaveTags(segs: seq<string>, m: string, u: string, v: string, t: string)
    requires segs != [] && Foreign(m) && TagPair(u, v) && IsTag(t) && Clean(Join(segs, m))
    ensures Occurrences(Weave(segs, m, u, v), t) ==
            Occurrences(Join(segs, m), t) + if t == u || t == v then (|segs| - 1) / 2 else 0
    decreases |segs|
  {
    hide Clean, IsTag, Occurrences, Foreign;
    if |segs| == 2 {
      assert Join(segs[1..], m) == segs[1];
    } else if |segs| > 2 {
      var a, b, j, w := segs[0], segs[1], Join(segs[2..], m), Weave(segs[2..], m, u, v);
      assert segs[1..][1..] == segs[2..];
      CleanParts(a, m, b + m + j);
      CleanParts(b, m, j);
      WeaveTags(segs[2..], m, u, v, t);
      MarkedTags(a, m, b, j, t);
      TaggedTags(a, u, b, v, w, t);
    }
  }

  lemma MarkedTags(a: string, m: string, b: string, j: string, t: string)
    requires Foreign(m) && IsTag(t) && Clean(a) && Clean(b) && Clean(j)
    ensures Occurrences(a + m + (b + m + j), t) == Occurrences(a, t) + Occurrences(b, t) + Occurrences(j, t)
  {
    hide Clean, IsTag, Occurrences, Foreign;
    ForeignHasNoTag(m);
    OccurrencesNone(m, t);
    CleanConcat(a, m);
    OccurrencesConcat(a + m, b + m + j, t);
    OccurrencesConcat(a, m, t);
    CleanConcat(b, m);
    OccurrencesConcat(b + m, j, t);
    OccurrencesConcat(b, m, t);
  }

  lemma TaggedTags(a: string, u: string, b: string, v: string, w: string, t: string)
    requires TagPair(u, v) && IsTag(t) && Clean(a) && Clean(b)
    ensures Occurrences(a + u + b + v + w, t) ==
            Occurrences(a, t) + Occurrences(b, t) + Occurrences(w, t) + if t == u || t == v then 1 else 0
  {
    hide Clean, IsTag, Occurrences;
    CleanTag(u);
    CleanTag(v);
    CleanConcat(a, u);
    CleanConcat(a + u, b);
    CleanConcat(a + u + b, v);
    OccurrencesConcat(a + u + b + v, w, t);
    OccurrencesConcat(a + u + b, v, t);
    OccurrencesConcat(a + u, b, t);
    OccurrencesConcat(a, u, t);
    OccurrencesInTag(u, t, u);
    OccurrencesInTag(v, t, v);
  }

  lemma PassTags(s: string, m: string, u: string, v: string, t: string)
    requires Foreign(m) && Kind(u, v) && IsTag(t) && Clean(s)
    ensures Occurrences(Pass(s, m, u, v), t) == Occurrences(s, t) + if t == u || t == v then Pairs(s, m) else 0
    ensures Clean(Pass(s, m, u, v))
  {
    hide Clean, IsTag, Occurrences, Split, Weave, Join;
    KindsApart(u, v, u, v);
    JoinSplit(s, m);
    WeaveTags(Split(s, m), m, u, v, t);
    PassPlain(s, m, u, v);
  }

  // ---------------------------------------------------------------- matches of the other marker

  /** Matches on both sides of a foreign text add up. */
  lemma {:induction false} MatchesAcross(x: string, y: string, z: string, m: string)
    requires y != "" && m != "" && Disjoint(y, m)
    ensures |Split(x + y + z, m)| == |Split(x, m)| + |Split(z, m)| - 1
    decreases |x|
  {
    hide Split, MatchAt, Has, Disjoint;
    var s := x + y + z;
    SplitStep(s, m);
    SplitStep(x, m);
    if x == "" {
      ForeignHasNone(y, m);
      assert s == y + z;
      SplitBehind(y, z, m);
    } else {
      MatchAcross(x, y, z, m, 0);
      NoNegativeMatch(z, m, 0 - |x| - |y|);
      MatchLength(x, m);
      if MatchAt(x, m, 0) {
        assert s[0 + |m|..] == x[|m|..] + y + z;
        MatchesAcross(x[|m|..], y, z, m);
      } else {
        assert s[1..] == x[1..] + y + z;
        MatchesAcross(x[1..], y, z, m);
      }
    }
  }

  lemma MatchLength(x: string, m: string)
    ensures MatchAt(x, m, 0) ==> |m| <= |x|
  {
  }

  lemma ForeignHasNone(y: string, m: string)
    requires y != "" && m != "" && Disjoint(y, m)
    ensures !Has(y, m) && y[|y| - 1] !in m
  {
    assert y[|y| - 1] in y && m[0] in m;
    assert m[0] !in y;
    AbsentMatch(y, m);
  }

  /** Replacing one kind of marker by tags neither makes nor breaks matches of another. */
  lemma {:induction false} WeaveMatches(segs: seq<string>, m: string, open: string, close: string, other: string)
    requires segs != [] && m != "" && Disjoint(m, other) && Marker(other, open, close)
    ensures |Split(Weave(segs, m, open, close), other)| == |Split(Join(segs, m), other)|
    decreases |segs|
  {
    hide Split, Disjoint;
    if |segs| == 2 {
      assert Join(segs[1..], m) == segs[1];
    } else if |segs| > 2 {
      assert segs[1..][1..] == segs[2..];
      var a, b, j, w := segs[0], segs[1], Join(segs[2..], m), Weave(segs[2..], m, open, close);
      WeaveMatches(segs[2..], m, open, close, other);
      MatchesAcross(a, m, b + m + j, other);
      MatchesAcross(b, m, j, other);
      assert a + open + b + close + w == a + open + (b + close + w);
      MatchesAcross(a, open, b + close + w, other);
      MatchesAcross(b, close, w, other);
    }
  }

  lemma PassMatches(s: string, m: string, open: string, close: string, other: string)
    requires m != "" && Disjoint(m, other) && Marker(other, open, close)
    ensures Pairs(Pass(s, m, open, close), other) == Pairs(s, other)
    ensures PairsUp(Pass(s, m, open, close), other) == PairsUp(s, other)
  {
    hide Split, Weave, Join, Disjoint;
    JoinSplit(s, m);
    WeaveMatches(Split(s, m), m, open, close, other);
  }

  /** A pass removes the markers of its pairs and nothing else of what markers are made of. */
  lemma {:induction false} WeaveDrops(segs: seq<string>, m: string, open: string, close: string, c: char)
    requires segs != [] && c !in open && c !in close
    ensures Count(Weave(segs, m, open, close), c) ==
            Count(Join(segs, m), c) - 2 * Count(m, c) * ((|segs| - 1) / 2)
    decreases |segs|
  {
    hide Count;
    if |segs| == 2 {
      assert Join(segs[1..], m) == segs[1];
    } else if |segs| > 2 {
      assert segs[1..][1..] == segs[2..];
      var a, b, j, w := segs[0], segs[1], Join(segs[2..], m), Weave(segs[2..], m, open, close);
      WeaveDrops(segs[2..], m, open, close, c);
      CountThree(a, m, b + m + j, c);
      CountThree(b, m, j, c);
      CountThree(a + open + b, close, w, c);
      CountThree(a, open, b, c);
      CountForeign(open, c);
      CountForeign(close, c);
      OneMore(Count(m, c), (|segs[2..]| - 1) / 2);
    }
  }

  lemma OneMore(k: nat, n: nat)
    ensures 2 * k * (n + 1) == 2 * k * n + 2 * k
  {
  }

  lemma PassDrops(s: string, m: string, open: string, close: string, c: char)
    requires m != "" && c !in open && c !in close
    ensures Count(Pass(s, m, open, close), c) == Count(s, c) - 2 * Count(m, c) * Pairs(s, m)
  {
    hide Count, Split, Weave, Join;
    JoinSplit(s, m);
    WeaveDrops(Split(s, m), m, open, close, c);
  }

  lemma {:induction false} SingleMatches(s: string, c: char)
    ensures |Split(s, [c])| == Count(s, c) + 1
    decreases |s|
  {
    hide Split, MatchAt;
    SplitStep(s, [c]);
    if s != "" {
      SingleMatch(s, c);
      SingleMatches(s[1..], c);
    }
  }

  lemma SingleMatch(s: string, c: char)
    requires s != ""
    ensures MatchAt(s, [c], 0) <==> s[0] == c
  {
    assert s[0..1] == [s[0]];
  }

  lemma MarkerCounts()
    ensures Count("**", '*') == 2 && Count("**", '_') == 0 && Count("__", '_') == 2 && Count("__", '*') == 0
  {
    assert "**"[1..] == "*" && "*"[1..] == "" && "__"[1..] == "_" && "_"[1..] == "";
  }

  // ---------------------------------------------------------------- the three stages

  /** The number of pairs of tags the bold stage writes. */
  function BoldPairs(s: string): nat {
    Pairs(s, "**") + if PairsUp(s, "**") then Pairs(s, "__") else 0
  }

  /** The stars and the underscores that the bold stage leaves. */
  function StarsBehindBold(s: string): int {
    Count(s, '*') - 4 * Pairs(s, "**")
  }

  function UnderscoresBehindBold(s: string): int {
    Count(s, '_') - if PairsUp(s, "**") then 4 * Pairs(s, "__") else 0
  }

  lemma BoldLeaves(s: string)
    ensures Count(Bold(s), '*') == StarsBehindBold(s) && Count(Bold(s), '_') == UnderscoresBehindBold(s)
  {
    hide Count, Pass, PairsUp, Pairs;
    var a := Pass(s, "**", "<strong>", "</strong>");
    MarkerCounts();
    PassDrops(s, "**", "<strong>", "</strong>", '*');
    PassDrops(s, "**", "<strong>", "</strong>", '_');
    PassDrops(a, "__", "<strong>", "</strong>", '*');
    PassDrops(a, "__", "<strong>", "</strong>", '_');
    PassMatches(s, "**", "<strong>", "</strong>", "__");
  }

  lemma TagsKnown()
    ensures Kind("<strong>", "</strong>") && Kind("<em>", "</em>") && Kind("<code>", "</code>")
    ensures IsTag("<strong>") && IsTag("</strong>") && IsTag("<em>") && IsTag("</em>")
    ensures IsTag("<code>") && IsTag("</code>")
    ensures Foreign("**") && Foreign("__") && Foreign("*") && Foreign("_") && Foreign("`")
  {
    assert TAGS[0] == "<strong>" && TAGS[1] == "</strong>" && TAGS[2] == "<em>";
    assert TAGS[3] == "</em>" && TAGS[4] == "<code>" && TAGS[5] == "</code>";
  }

  lemma BoldTags(s: string, t: string)
    requires Clean(s) && IsTag(t)
    ensures Clean(Bold(s))
    ensures Occurrences(Bold(s), t) == Occurrences(s, t) + if t in {"<strong>", "</strong>"} then BoldPairs(s) else 0
  {
    hide Clean, IsTag, Occurrences, Pass, PairsUp, Pairs, Kind, Foreign;
    TagsKnown();
    var a := Pass(s, "**", "<strong>", "</strong>");
    PassTags(s, "**", "<strong>", "</strong>", t);
    PassTags(a, "__", "<strong>", "</strong>", t);
    PassMatches(s, "**", "<strong>", "</strong>", "__");
  }

  /** The number of pairs of tags the italics stage writes on a line with so many single markers. */
  function ItalicsPairs(stars: int, underscores: int): int {
    stars / 2 + if stars % 2 == 0 then underscores / 2 else 0
  }

  lemma SinglePairs(s: string, c: char)
    ensures Pairs(s, [c]) == Count(s, c) / 2 && (PairsUp(s, [c]) <==> Count(s, c) % 2 == 0)
  {
    SingleMatches(s, c);
  }

  lemma ItalicsTags(s: string, t: string)
    requires Clean(s) && IsTag(t)
    ensures Clean(Italics(s))
    ensures Occurrences(Italics(s), t) ==
            Occurrences(s, t) + if t in {"<em>", "</em>"} then ItalicsPairs(Count(s, '*'), Count(s, '_')) else 0
  {
    hide Clean, IsTag, Occurrences, Pass, PairsUp, Pairs, Kind, Foreign, Count;
    TagsKnown();
    assert "*" == ['*'] && "_" == ['_'];
    var a := Pass(s, "*", "<em>", "</em>");
    PassTags(s, "*", "<em>", "</em>", t);
    PassTags(a, "_", "<em>", "</em>", t);
    PassMatches(s, "*", "<em>", "</em>", "_");
    SinglePairs(s, '*');
    SinglePairs(s, '_');
  }

  lemma CodeTags(s: string, t: string)
    requires Clean(s) && IsTag(t)
    ensures Occurrences(InlineCode(s), t) ==
            Occurrences(s, t) + if t in {"<code>", "</code>"} && !Has(s, "```") then Count(s, '`') / 2 else 0
  {
    hide Clean, IsTag, Occurrences, Pass, Pairs, Kind, Foreign, Count, Has, Find;
    TagsKnown();
    assert "`" == ['`'];
    FindHas(s, "```");
    PassTags(s, "`", "<code>", "</code>", t);
    SinglePairs(s, '`');
  }

  /**
   The number of tags. A line without `<` gets as many pairs of `<strong>` as it has pairs of
   `**`, and those of `__` as well if the `**` pair up; the single markers that are left become
   pairs of `<em>` in the same way; and two backticks make one pair of `<code>` unless three
   stand together somewhere.
   */
  lemma TagCounts(s: string)
    requires '<' !in s
    ensures Occurrences(Inline(s), "<strong>") == Occurrences(Inline(s), "</strong>") ==
            Pairs(s, "**") + (if PairsUp(s, "**") then Pairs(s, "__") else 0)
    ensures Occurrences(Inline(s), "<em>") == Occurrences(Inline(s), "</em>") ==
            ItalicsPairs(Count(s, '*') - 4 * Pairs(s, "**"),
                         Count(s, '_') - if PairsUp(s, "**") then 4 * Pairs(s, "__") else 0)
    ensures Occurrences(Inline(s), "<code>") == Occurrences(Inline(s), "</code>") ==
            if Has(s, "```") then 0 else Count(s, '`') / 2
  {
    hide Inline, Occurrences, Count, Has, Split, Pairs, PairsUp, ItalicsPairs, IsTag, Kind, Foreign;
    TagsKnown();
    TagCount(s, "<strong>");
    TagCount(s, "</strong>");
    TagCount(s, "<em>");
    TagCount(s, "</em>");
    TagCount(s, "<code>");
    TagCount(s, "</code>");
  }

  lemma TagCount(s: string, t: string)
    requires '<' !in s && IsTag(t)
    ensures Occurrences(Inline(s), t) ==
            if t in {"<strong>", "</strong>"} then BoldPairs(s)
            else if t in {"<em>", "</em>"} then ItalicsPairs(StarsBehindBold(s), UnderscoresBehindBold(s))
            else if Has(s, "```") then 0 else Count(s, '`') / 2
  {
    hide Clean, IsTag, Occurrences, Bold, Italics, InlineCode, Count, Has, BoldPairs, StarsBehindBold,
      UnderscoresBehindBold, ItalicsPairs;
    CleanWithout(s);
    OccurrencesNone(s, t);
    BoldTags(s, t);
    BoldLeaves(s);
    BoldCount(s, '`');
    ItalicsTags(Bold(s), t);
    ItalicsCount(Bold(s));
    FencesKept(s);
    CodeTags(Italics(Bold(s)), t);
    KnownTag(t);
  }

  lemma KnownTag(t: string)
    requires IsTag(t)
    ensures t in {"<strong>", "</strong>", "<em>", "</em>", "<code>", "</code>"}
  {
  }
}

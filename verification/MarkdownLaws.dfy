/** What the inline stages keep: marker parities, tag depths and the text between the tags. */
module MarkdownLaws {
  import opened Segments
  import opened Markdown

  // ---------------------------------------------------------------- marker counts

  function Count(s: string, c: char): nat {
    if s == "" then 0 else (if s[0] == c then 1 else 0) + Count(s[1..], c)
  }

  lemma {:induction false} CountConcat(a: string, b: string, c: char)
    ensures Count(a + b, c) == Count(a, c) + Count(b, c)
  {
    if a == "" {
      assert a + b == b;
    } else {
      assert (a + b)[1..] == a[1..] + b;
      CountConcat(a[1..], b, c);
    }
  }

  lemma {:induction false} CountForeign(s: string, c: char)
    requires c !in s
    ensures Count(s, c) == 0
  {
    if s != "" {
      CountForeign(s[1..], c);
    }
  }

  function SegmentCount(segs: seq<string>, c: char): nat {
    if segs == [] then 0 else Count(segs[0], c) + SegmentCount(segs[1..], c)
  }

  lemma SegmentCountTwo(segs: seq<string>, c: char)
    requires |segs| >= 2
    ensures SegmentCount(segs, c) == Count(segs[0], c) + Count(segs[1], c) + SegmentCount(segs[2..], c)
  {
    assert segs[1..][1..] == segs[2..];
  }

  /** Weaving drops markers in pairs and keeps an odd last one. */
  lemma {:induction false} WeaveCount(segs: seq<string>, m: string, open: string, close: string, c: char)
    requires segs != [] && c !in open && c !in close
    ensures var w := Weave(segs, m, open, close);
            && Count(w, c) == SegmentCount(segs, c) + (if |segs| % 2 == 0 then Count(m, c) else 0)
            && Count(w, c) <= Count(Join(segs, m), c)
            && (Count(Join(segs, m), c) - Count(w, c)) % 2 == 0
    decreases |segs|
  {
    hide Count;
    if |segs| == 1 {
      assert segs[1..] == [];
    } else {
      SegmentCountTwo(segs, c);
      assert segs[1..][1..] == segs[2..];
      if |segs| == 2 {
        assert Join(segs[1..], m) == segs[1] && segs[2..] == [];
        CountThree(segs[0], m, segs[1], c);
      } else {
        var j, rest := Join(segs[2..], m), Weave(segs[2..], m, open, close);
        CountThree(segs[0], m, segs[1] + m + j, c);
        CountThree(segs[1], m, j, c);
        WeaveCount(segs[2..], m, open, close, c);
        CountThree(segs[0] + open + segs[1], close, rest, c);
        CountThree(segs[0], open, segs[1], c);
        CountForeign(open, c);
        CountForeign(close, c);
      }
    }
  }

  lemma CountThree(x: string, y: string, z: string, c: char)
    ensures Count(x + y + z, c) == Count(x, c) + Count(y, c) + Count(z, c)
  {
    CountConcat(x + y, z, c);
    CountConcat(x, y, c);
  }

  lemma PassCount(s: string, m: string, open: string, close: string, c: char)
    requires m != "" && c !in open && c !in close
    ensures Count(Pass(s, m, open, close), c) <= Count(s, c)
    ensures (Count(s, c) - Count(Pass(s, m, open, close), c)) % 2 == 0
    ensures c !in m ==> Count(Pass(s, m, open, close), c) == Count(s, c)
  {
    hide Count, SegmentCount, Weave, Split, Join;
    WeaveCount(Split(s, m), m, open, close, c);
    JoinSplit(s, m);
    if c !in m {
      JoinCount(Split(s, m), m, c);
      CountForeign(m, c);
    }
  }

  lemma {:induction false} JoinCount(segs: seq<string>, m: string, c: char)
    requires segs != [] && c !in m
    ensures Count(Join(segs, m), c) == SegmentCount(segs, c)
    decreases |segs|
  {
    if |segs| == 1 {
      assert segs[1..] == [];
    } else {
      CountConcat(segs[0] + m, Join(segs[1..], m), c);
      CountConcat(segs[0], m, c);
      CountForeign(m, c);
      JoinCount(segs[1..], m, c);
    }
  }

  /** A one-character marker is left once or not at all, by parity. */
  lemma SinglePassCount(s: string, c: char, open: string, close: string)
    requires c !in open && c !in close
    ensures Count(Pass(s, [c], open, close), c) == Count(s, c) % 2
  {
    hide Count, Weave, Split, Join;
    WeaveCount(Split(s, [c]), [c], open, close, c);
    JoinSplit(s, [c]);
    SingleSegments(s, c);
    CountOne(c);
  }

  lemma CountOne(c: char)
    ensures Count([c], c) == 1
  {
    assert [c][1..] == [];
  }

  lemma {:induction false} SingleSegments(s: string, c: char)
    ensures SegmentCount(Split(s, [c]), c) == 0
    decreases |s|
  {
    var segs := Split(s, [c]);
    if s == "" {
      assert segs[1..] == [];
    } else if MatchAt(s, [c], 0) {
      SingleSegments(s[1..], c);
      assert segs[1..] == Split(s[1..], [c]);
    } else {
      assert s[0..1] == [s[0]];
      var tail := Split(s[1..], [c]);
      SingleSegments(s[1..], c);
      assert segs[0][1..] == tail[0] && segs[1..] == tail[1..];
    }
  }

  lemma {:induction false} CountPresent(s: string, c: char)
    ensures Count(s, c) > 0 <==> Has(s, [c])
  {
    if s == "" {
    } else {
      CountPresent(s[1..], c);
      MatchTail(s, [c]);
      assert s[0..1] == [s[0]];
    }
  }

  /** Counts after the bold stage: parities of `*` and `_` are kept, backticks untouched. */
  lemma BoldCount(s: string, c: char)
    requires c in {'*', '_', '`'}
    ensures (Count(s, c) - Count(Bold(s), c)) % 2 == 0
    ensures c == '`' ==> Count(Bold(s), c) == Count(s, c)
  {
    hide Pass;
    var a := Pass(s, "**", "<strong>", "</strong>");
    PassCount(s, "**", "<strong>", "</strong>", c);
    PassCount(a, "__", "<strong>", "</strong>", c);
  }

  lemma StarsLeft(s: string)
    ensures Has(Pass(s, "*", "<em>", "</em>"), "*") <==> !PairsUp(s, "*")
  {
    hide Pass, Find, PairsUp, Has;
    PassLeavesNone(s, "*", "<em>", "</em>");
    FindHas(Pass(s, "*", "<em>", "</em>"), "*");
  }

  lemma ItalicsCount(s: string)
    ensures Count(Italics(s), '*') == Count(s, '*') % 2
    ensures (Count(s, '_') - Count(Italics(s), '_')) % 2 == 0
    ensures Count(s, '*') % 2 == 0 ==> Count(Italics(s), '_') == Count(s, '_') % 2
    ensures Count(s, '*') % 2 == 1 ==> Count(Italics(s), '_') == Count(s, '_')
    ensures Count(Italics(s), '`') == Count(s, '`')
  {
    hide Pass, Count, Has, Find, PairsUp;
    var a := Pass(s, "*", "<em>", "</em>");
    assert "*" == ['*'] && "_" == ['_'];
    SinglePassCount(s, '*', "<em>", "</em>");
    SinglePassCount(a, '_', "<em>", "</em>");
    PassCount(s, "*", "<em>", "</em>", '_');
    PassCount(a, "_", "<em>", "</em>", '*');
    PassCount(s, "*", "<em>", "</em>", '`');
    PassCount(a, "_", "<em>", "</em>", '`');
    PassCount(a, "_", "<em>", "</em>", '_');
    StarsLeft(s);
    CountPresent(a, '*');
  }

  lemma CodeCount(s: string, c: char)
    requires c in {'*', '_', '`'}
    ensures c != '`' ==> Count(InlineCode(s), c) == Count(s, c)
    ensures !Has(s, "```") ==> Count(InlineCode(s), '`') == Count(s, '`') % 2
    ensures Has(s, "```") ==> InlineCode(s) == s
  {
    hide Pass, Count, Has;
    FindHas(s, "```");
    assert "`" == ['`'];
    SinglePassCount(s, '`', "<code>", "</code>");
    PassCount(s, "`", "<code>", "</code>", c);
  }

  // ---------------------------------------------------------------- triple backticks

  lemma {:induction false} WeaveHas(segs: seq<string>, m: string, open: string, close: string, t: string)
    requires segs != [] && m != "" && t != "" && Disjoint(m, t) && Marker(t, open, close)
    ensures Has(Weave(segs, m, open, close), t) <==> Has(Join(segs, m), t)
    decreases |segs|
  {
    hide Has, Disjoint;
    if |segs| > 1 {
      assert segs[1..][1..] == segs[2..];
      if |segs| == 2 {
        assert Join(segs[1..], m) == segs[1];
      } else {
        var j, w := Join(segs[2..], m), Weave(segs[2..], m, open, close);
        WeaveHas(segs[2..], m, open, close, t);
        HasAcross(segs[0], m, segs[1] + m + j, t);
        HasAcross(segs[1], m, j, t);
        assert segs[0] + open + segs[1] + close + w == segs[0] + open + (segs[1] + close + w);
        HasAcross(segs[0], open, segs[1] + close + w, t);
        HasAcross(segs[1], close, w, t);
      }
    }
  }

  lemma PassHas(s: string, m: string, open: string, close: string, t: string)
    requires m != "" && t != "" && Disjoint(m, t) && Marker(t, open, close)
    ensures Has(Pass(s, m, open, close), t) <==> Has(s, t)
  {
    hide Has, Disjoint;
    WeaveHas(Split(s, m), m, open, close, t);
    JoinSplit(s, m);
  }

  lemma FencesKept(s: string)
    ensures Has(Italics(Bold(s)), "```") <==> Has(s, "```")
  {
    hide Has, Pass;
    var a := Pass(s, "**", "<strong>", "</strong>");
    PassHas(s, "**", "<strong>", "</strong>", "```");
    PassHas(a, "__", "<strong>", "</strong>", "```");
    var b := Pass(Bold(s), "*", "<em>", "</em>");
    PassHas(Bold(s), "*", "<em>", "</em>", "```");
    PassHas(b, "_", "<em>", "</em>", "```");
  }

  /** Conservation of markers through all inline stages. */
  lemma MarkerConservation(s: string)
    ensures Count(Inline(s), '*') == Count(s, '*') % 2
    ensures Count(Inline(s), '_') % 2 == Count(s, '_') % 2
    ensures Count(s, '*') % 2 == 0 ==> Count(Inline(s), '_') <= 1
    ensures !Has(s, "```") ==> Count(Inline(s), '`') == Count(s, '`') % 2
    ensures Has(s, "```") ==> Count(Inline(s), '`') == Count(s, '`')
  {
    hide Count, Has, Bold, Italics, InlineCode;
    BoldCount(s, '*');
    BoldCount(s, '_');
    BoldCount(s, '`');
    ItalicsCount(Bold(s));
    FencesKept(s);
    CodeCount(Italics(Bold(s)), '*');
    CodeCount(Italics(Bold(s)), '_');
  }

  /** A character that is in no marker and no tag is neither dropped nor added. */
  lemma OtherCharactersKept(s: string, c: char)
    requires c !in {'*', '_', '`', '<', '>', '/', 's', 't', 'r', 'o', 'n', 'g', 'e', 'm', 'c', 'd'}
    ensures Count(Inline(s), c) == Count(s, c)
  {
    hide Pass, Count, Has;
    var a := Pass(s, "**", "<strong>", "</strong>");
    PassCount(s, "**", "<strong>", "</strong>", c);
    PassCount(a, "__", "<strong>", "</strong>", c);
    var b := Pass(Bold(s), "*", "<em>", "</em>");
    PassCount(Bold(s), "*", "<em>", "</em>", c);
    PassCount(b, "_", "<em>", "</em>", c);
    PassCount(Italics(Bold(s)), "`", "<code>", "</code>", c);
  }

  lemma {:induction false} CountIn(s: string, c: char)
    ensures c in s <==> Count(s, c) > 0
  {
    if s != "" {
      CountIn(s[1..], c);
      assert c in s <==> c == s[0] || c in s[1..];
    }
  }

  // ---------------------------------------------------------------- the beginning of a line

  /** A beginning made of characters the pass does not touch is there before and after it. */
  lemma {:induction false} PassPrefix(s: string, m: string, open: string, close: string, p: string)
    requires m != "" && open != "" && m[0] !in p && open[0] !in p
    ensures p <= Pass(s, m, open, close) <==> p <= s
    decreases |s|
  {
    if p == "" || s == "" {
    } else if MatchAt(s, m, 0) {
      assert p[0] in p && s[0] == s[0..|m|][0] == m[0];
      WeaveStart(Split(s[|m|..], m), m, open, close);
    } else {
      WeaveBehind([s[0]], Split(s[1..], m), m, open, close);
      assert Pass(s, m, open, close) == [s[0]] + Pass(s[1..], m, open, close);
      assert forall c | c in p[1..] :: c in p;
      PassPrefix(s[1..], m, open, close, p[1..]);
      var r := Pass(s[1..], m, open, close);
      assert p <= [s[0]] + r <==> p[0] == s[0] && p[1..] <= r;
      assert p <= s <==> p[0] == s[0] && p[1..] <= s[1..];
    }
  }

  lemma WeaveStart(segs: seq<string>, m: string, open: string, close: string)
    requires segs != [] && m != "" && open != ""
    ensures var w := Weave([""] + segs, m, open, close); w != "" && w[0] in {m[0], open[0]}
  {
  }

  lemma TwoPassesPrefix(s: string, m1: string, m2: string, open: string, close: string, p: string)
    requires m1 != "" && m2 != "" && open != "" && m1[0] !in p && m2[0] !in p && open[0] !in p
    ensures p <= TwoPasses(s, m1, m2, open, close) <==> p <= s
  {
    hide Pass, Find;
    PassPrefix(s, m1, open, close, p);
    PassPrefix(Pass(s, m1, open, close), m2, open, close, p);
  }

  lemma InlinePrefix(s: string, p: string)
    requires '*' !in p && '_' !in p && '`' !in p && '<' !in p
    ensures p <= Inline(s) <==> p <= s
  {
    hide TwoPasses, Pass, Find;
    TwoPassesPrefix(s, "**", "__", "<strong>", "</strong>", p);
    TwoPassesPrefix(Bold(s), "*", "_", "<em>", "</em>", p);
    PassPrefix(Italics(Bold(s)), "`", "<code>", "</code>", p);
  }

  lemma FencePrefix(s: string)
    ensures "```" <= Inline(s) <==> "```" <= s
  {
    hide TwoPasses, Pass, Count, Has;
    var t := Italics(Bold(s));
    TwoPassesPrefix(s, "**", "__", "<strong>", "</strong>", "```");
    TwoPassesPrefix(Bold(s), "*", "_", "<em>", "</em>", "```");
    CodeCount(t, '`');
    if "```" <= Inline(s) {
      FenceCount(Inline(s));
    }
    if "```" <= t {
      FenceHas(t);
    }
  }

  lemma FenceHas(s: string)
    requires "```" <= s
    ensures Has(s, "```")
  {
    assert s[0..3] == "```";
    assert MatchAt(s, "```", 0);
  }

  lemma FenceCount(s: string)
    requires "```" <= s
    ensures Count(s, '`') >= 3
  {
    assert s == "```" + s[3..];
    CountConcat("```", s[3..], '`');
    assert "```"[1..] == "``" && "``"[1..] == "`" && "`"[1..] == "";
    assert Count("```", '`') == 1 + Count("``", '`') == 2 + Count("`", '`') == 3;
  }
}

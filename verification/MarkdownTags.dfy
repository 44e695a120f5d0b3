/** Tags in the rendered lines: how deep they nest, and the text they stand around. */
module MarkdownTags {
  import opened Segments
  import opened Markdown

  const TAGS: seq<string> := ["<strong>", "</strong>", "<em>", "</em>", "<code>", "</code>"]

  predicate IsTag(t: string) {
    t in TAGS
  }

  /** The six tags are told apart by their first letters, and `<` stands only in front. */
  lemma TagShape(t: string)
    requires IsTag(t)
    ensures |t| >= 4 && t[0] == '<' && forall i | 0 < i < |t| :: t[i] != '<'
    ensures forall c | c in t :: c !in {'*', '_', '`'}
  {
    assert t == TAGS[0] || t == TAGS[1] || t == TAGS[2] || t == TAGS[3] || t == TAGS[4] || t == TAGS[5];
  }

  lemma TagLetters(t: string, u: string)
    requires IsTag(t) && IsTag(u) && |t| >= 4 && |u| >= 4 && t[1] == u[1] && t[2] == u[2]
    ensures t == u
  {
    assert t == TAGS[0] || t == TAGS[1] || t == TAGS[2] || t == TAGS[3] || t == TAGS[4] || t == TAGS[5];
    assert u == TAGS[0] || u == TAGS[1] || u == TAGS[2] || u == TAGS[3] || u == TAGS[4] || u == TAGS[5];
  }

  /** At most one tag stands at any place. */
  lemma OneTag(s: string, t: string, u: string, i: int)
    requires IsTag(t) && IsTag(u) && MatchAt(s, t, i) && MatchAt(s, u, i)
    ensures t == u
  {
    TagShape(t);
    TagShape(u);
    assert s[i..i + |t|][1] == s[i + 1] == s[i..i + |u|][1];
    assert s[i..i + |t|][2] == s[i + 2] == s[i..i + |u|][2];
    TagLetters(t, u);
  }

  /** Every `<` in the text begins one of the tags. */
  ghost predicate Clean(s: string) {
    forall i | 0 <= i < |s| && s[i] == '<' :: TagAt(s, i)
  }

  ghost predicate TagAt(s: string, i: int) {
    exists t :: IsTag(t) && MatchAt(s, t, i)
  }

  lemma CleanConcat(x: string, y: string)
    requires Clean(x) && Clean(y)
    ensures Clean(x + y)
  {
    hide IsTag;
    forall i | 0 <= i < |x + y| && (x + y)[i] == '<'
      ensures TagAt(x + y, i)
    {
      if i < |x| {
        assert TagAt(x, i);
        var t :| IsTag(t) && MatchAt(x, t, i);
        assert (x + y)[i..i + |t|] == x[i..i + |t|];
      } else {
        assert TagAt(y, i - |x|);
        var t :| IsTag(t) && MatchAt(y, t, i - |x|);
        assert (x + y)[i..i + |t|] == y[i - |x|..i - |x| + |t|];
      }
    }
  }

  /** Characters that occur in none of the tags. */
  predicate Foreign(m: string) {
    m != "" && forall c | c in m :: c in {'*', '_', '`'}
  }

  lemma ForeignToTags(m: string, t: string)
    requires Foreign(m) && IsTag(t)
    ensures m != "" && Disjoint(m, t) && |t| >= 4
  {
    TagShape(t);
  }

  lemma CleanParts(x: string, m: string, y: string)
    requires Clean(x + m + y) && Foreign(m)
    ensures Clean(x) && Clean(y)
  {
    hide IsTag, MatchAt, Foreign;
    var s := x + m + y;
    forall i | 0 <= i < |x| && x[i] == '<'
      ensures TagAt(x, i)
    {
      assert s[i] == '<' && TagAt(s, i);
      var t :| IsTag(t) && MatchAt(s, t, i);
      ForeignToTags(m, t);
      MatchAcross(x, m, y, t, i);
      NoNegativeMatch(y, t, i - |x| - |m|);
    }
    forall i | 0 <= i < |y| && y[i] == '<'
      ensures TagAt(y, i)
    {
      var k := |x| + |m| + i;
      assert s[k] == '<' && TagAt(s, k);
      var t :| IsTag(t) && MatchAt(s, t, k);
      ForeignToTags(m, t);
      MatchAcross(x, m, y, t, k);
      NoLateMatch(x, t, k);
    }
  }

  lemma NoLateMatch(s: string, m: string, i: int)
    requires |s| <= i && m != ""
    ensures !MatchAt(s, m, i)
  {
  }

  lemma CleanTag(t: string)
    requires IsTag(t)
    ensures Clean(t)
  {
    TagShape(t);
    assert t[0..|t|] == t && MatchAt(t, t, 0);
  }

  lemma CleanWithout(s: string)
    requires '<' !in s
    ensures Clean(s)
  {
  }

  // ---------------------------------------------------------------- depth

  /** The number of places where `t` stands in `s`. */
  function Occurrences(s: string, t: string): nat {
    if s == "" then 0 else (if MatchAt(s, t, 0) then 1 else 0) + Occurrences(s[1..], t)
  }

  function Depth(s: string, open: string, close: string): int {
    Occurrences(s, open) - Occurrences(s, close)
  }

  lemma CleanTail(x: string)
    requires x != "" && Clean(x)
    ensures Clean(x[1..])
  {
    hide IsTag;
    forall i | 0 <= i < |x| - 1 && x[1..][i] == '<'
      ensures TagAt(x[1..], i)
    {
      assert TagAt(x, i + 1);
      var t :| IsTag(t) && MatchAt(x, t, i + 1);
      assert x[1..][i..i + |t|] == x[i + 1..i + 1 + |t|];
    }
  }

  lemma TagInFront(x: string, y: string, t: string)
    requires IsTag(t) && x != "" && Clean(x)
    ensures MatchAt(x + y, t, 0) <==> MatchAt(x, t, 0)
  {
    hide IsTag;
    TagShape(t);
    var s := x + y;
    if MatchAt(x, t, 0) {
      assert s[0..|t|] == x[0..|t|];
    }
    if MatchAt(s, t, 0) {
      assert s[0..|t|][0] == x[0];
      assert TagAt(x, 0);
      var u :| IsTag(u) && MatchAt(x, u, 0);
      assert s[0..|u|] == x[0..|u|];
      OneTag(s, t, u, 0);
    }
  }

  lemma {:induction false} OccurrencesConcat(x: string, y: string, t: string)
    requires IsTag(t) && Clean(x)
    ensures Occurrences(x + y, t) == Occurrences(x, t) + Occurrences(y, t)
  {
    hide IsTag, MatchAt, Clean;
    if x == "" {
      assert x + y == y;
    } else {
      TagInFront(x, y, t);
      CleanTail(x);
      assert (x + y)[1..] == x[1..] + y;
      OccurrencesConcat(x[1..], y, t);
    }
  }

  lemma {:induction false} OccurrencesNone(s: string, t: string)
    requires IsTag(t) && '<' !in s
    ensures Occurrences(s, t) == 0
  {
    TagShape(t);
    if s != "" {
      assert s[0] in s;
      assert |s| >= |t| ==> s[0..|t|][0] == s[0];
      OccurrencesNone(s[1..], t);
    }
  }

  lemma OccurrencesInTag(s: string, t: string, u: string)
    requires IsTag(t) && IsTag(u) && s <= u
    ensures Occurrences(s, t) == if s == u == t then 1 else 0
  {
    TagShape(u);
    if s != "" {
      assert forall i | 0 <= i < |s| - 1 :: s[1..][i] == u[i + 1];
      OccurrencesNone(s[1..], t);
      if MatchAt(s, t, 0) {
        assert u[0..|t|] == s[0..|t|] && u[0..|u|] == u;
        OneTag(u, t, u, 0);
      }
      assert s[0..|s|] == s;
    }
  }

  ghost predicate TagPair(open: string, close: string) {
    IsTag(open) && IsTag(close) && open != close
  }

  /** Every prefix of `s` has a depth between `lo` and `hi`. */
  ghost predicate Within(s: string, open: string, close: string, lo: int, hi: int) {
    forall n | 0 <= n <= |s| :: lo <= Depth(s[..n], open, close) <= hi
  }

  lemma DepthConcat(x: string, y: string, open: string, close: string)
    requires TagPair(open, close) && Clean(x)
    ensures Depth(x + y, open, close) == Depth(x, open, close) + Depth(y, open, close)
  {
    OccurrencesConcat(x, y, open);
    OccurrencesConcat(x, y, close);
  }

  lemma WithinConcat(x: string, y: string, open: string, close: string, lo: int, hi: int)
    requires TagPair(open, close) && Clean(x)
    ensures var d := Depth(x, open, close);
            Within(x + y, open, close, lo, hi) <==>
            Within(x, open, close, lo, hi) && Within(y, open, close, lo - d, hi - d)
  {
    hide TagPair, Depth, Clean;
    var s, d := x + y, Depth(x, open, close);
    forall n | 0 <= n <= |y|
      ensures Depth(s[..|x| + n], open, close) == d + Depth(y[..n], open, close)
    {
      assert s[..|x| + n] == x + y[..n];
      DepthConcat(x, y[..n], open, close);
    }
    assert forall n | 0 <= n <= |x| :: s[..n] == x[..n];
    if Within(s, open, close, lo, hi) {
      forall n | 0 <= n <= |x|
        ensures lo <= Depth(x[..n], open, close) <= hi
      {
        assert s[..n] == x[..n];
      }
      forall n | 0 <= n <= |y|
        ensures lo - d <= Depth(y[..n], open, close) <= hi - d
      {
        var k := |x| + n;
        assert lo <= Depth(s[..k], open, close) <= hi;
      }
    }
    if Within(x, open, close, lo, hi) && Within(y, open, close, lo - d, hi - d) {
      forall n | 0 <= n <= |s|
        ensures lo <= Depth(s[..n], open, close) <= hi
      {
        if n > |x| {
          var k := n - |x|;
          assert lo - d <= Depth(y[..k], open, close) <= hi - d;
          assert Depth(s[..|x| + k], open, close) == d + Depth(y[..k], open, close);
        }
      }
    }
  }

  /** The depth profile of one tag. */
  lemma TagProfile(u: string, open: string, close: string)
    requires TagPair(open, close) && IsTag(u)
    ensures var d := if u == open then 1 else if u == close then -1 else 0;
            && Depth(u, open, close) == d
            && Within(u, open, close, if d < 0 then -1 else 0, if d > 0 then 1 else 0)
  {
    forall n | 0 <= n <= |u|
      ensures Depth(u[..n], open, close) ==
              if n < |u| then 0 else if u == open then 1 else if u == close then -1 else 0
    {
      OccurrencesInTag(u[..n], open, u);
      OccurrencesInTag(u[..n], close, u);
    }
    assert u[..|u|] == u;
  }

  lemma NoTagProfile(s: string, open: string, close: string)
    requires TagPair(open, close) && '<' !in s
    ensures Depth(s, open, close) == 0 && Within(s, open, close, 0, 0)
  {
    forall n | 0 <= n <= |s|
      ensures Depth(s[..n], open, close) == 0
    {
      OccurrencesNone(s[..n], open);
      OccurrencesNone(s[..n], close);
    }
    assert s[..|s|] == s;
  }

  lemma Wider(s: string, open: string, close: string, lo: int, hi: int, lo': int, hi': int)
    requires Within(s, open, close, lo, hi) && lo' <= lo && hi <= hi'
    ensures Within(s, open, close, lo', hi')
  {
  }

  lemma WithinEnds(s: string, open: string, close: string, lo: int, hi: int)
    requires Within(s, open, close, lo, hi)
    ensures lo <= Depth(s, open, close) <= hi && lo <= 0 <= hi
  {
    assert s[..|s|] == s && s[..0] == "";
    assert Depth(s[..0], open, close) == 0;
  }

  /** Inserting one pair of tags around `b` adds at most one level for its own kind. */
  lemma PairProfile(a: string, b: string, w: string, u: string, v: string,
                    open: string, close: string, lo: int, hi: int)
    requires TagPair(open, close) && TagPair(u, v) && (u == open <==> v == close) && u != close && v != open
    requires Clean(a) && Clean(b)
    requires Within(a, open, close, lo, hi)
    requires var d := Depth(a, open, close); Within(b, open, close, lo - d, hi - d)
    requires var e := Depth(a, open, close) + Depth(b, open, close);
             Within(w, open, close, lo - e, (if u == open then hi + 1 else hi) - e)
    ensures Within(a + u + b + v + w, open, close, lo, if u == open then hi + 1 else hi)
    ensures Depth(a + u + b + v + w, open, close) ==
            Depth(a, open, close) + Depth(b, open, close) + Depth(w, open, close)
  {
    hide Within, Depth, Clean, IsTag;
    var bump := if u == open then 1 else 0;
    var hi' := hi + bump;
    var d := Depth(a, open, close);
    var e := d + Depth(b, open, close);
    TagProfile(u, open, close);
    TagProfile(v, open, close);
    CleanTag(u);
    CleanTag(v);
    WithinEnds(a, open, close, lo, hi);
    WithinEnds(b, open, close, lo - d, hi - d);
    // from the right: v + w, then b + (v + w), and so on
    Wider(v, open, close, if v == close then -1 else 0, 0, lo - e - bump, hi' - e - bump);
    WithinConcat(v, w, open, close, lo - e - bump, hi' - e - bump);
    DepthConcat(v, w, open, close);
    Wider(b, open, close, lo - d, hi - d, lo - d - bump, hi' - d - bump);
    WithinConcat(b, v + w, open, close, lo - d - bump, hi' - d - bump);
    DepthConcat(b, v + w, open, close);
    Wider(u, open, close, 0, bump, lo - d, hi' - d);
    WithinConcat(u, b + (v + w), open, close, lo - d, hi' - d);
    DepthConcat(u, b + (v + w), open, close);
    Wider(a, open, close, lo, hi, lo, hi');
    WithinConcat(a, u + (b + (v + w)), open, close, lo, hi');
    DepthConcat(a, u + (b + (v + w)), open, close);
    assert a + (u + (b + (v + w))) == a + u + b + v + w;
  }

  /** Opening and closing tag of one kind. */
  predicate Kind(open: string, close: string) {
    (open, close) in {("<strong>", "</strong>"), ("<em>", "</em>"), ("<code>", "</code>")}
  }

  lemma KindsApart(u: string, v: string, open: string, close: string)
    requires Kind(u, v) && Kind(open, close)
    ensures TagPair(u, v) && TagPair(open, close) && (u == open <==> v == close) && u != close && v != open
  {
    assert u == TAGS[0] || u == TAGS[2] || u == TAGS[4];
    assert v == TAGS[1] || v == TAGS[3] || v == TAGS[5];
    assert open == TAGS[0] || open == TAGS[2] || open == TAGS[4];
    assert close == TAGS[1] || close == TAGS[3] || close == TAGS[5];
  }

  lemma CleanPair(a: string, u: string, b: string, v: string, w: string)
    requires IsTag(u) && IsTag(v) && Clean(a) && Clean(b) && Clean(w)
    ensures Clean(a + u + b + v + w)
  {
    hide Clean, IsTag;
    CleanTag(u);
    CleanTag(v);
    CleanConcat(a, u);
    CleanConcat(a + u, b);
    CleanConcat(a + u + b, v);
    CleanConcat(a + u + b + v, w);
  }

  lemma ForeignHasNoTag(m: string)
    requires Foreign(m)
    ensures '<' !in m && Clean(m)
  {
  }

  /** One pass over clean text: one level more for its own kind of tag, none for the others. */
  lemma {:induction false} WeaveProfile(segs: seq<string>, m: string, u: string, v: string,
                                        open: string, close: string, lo: int, hi: int)
    requires segs != [] && Foreign(m) && Kind(u, v) && Kind(open, close)
    requires Clean(Join(segs, m)) && Within(Join(segs, m), open, close, lo, hi)
    ensures var w := Weave(segs, m, u, v);
            && Clean(w) && Depth(w, open, close) == Depth(Join(segs, m), open, close)
            && Within(w, open, close, lo, if u == open then hi + 1 else hi)
    decreases |segs|
  {
    hide Clean, Within, Depth, Kind, TagPair, Foreign;
    KindsApart(u, v, open, close);
    var hi' := if u == open then hi + 1 else hi;
    if |segs| <= 2 {
      if |segs| == 2 {
        assert Join(segs[1..], m) == segs[1];
      }
      Wider(Join(segs, m), open, close, lo, hi, lo, hi');
    } else {
      var a, b, j := segs[0], segs[1], Join(segs[2..], m);
      assert segs[1..][1..] == segs[2..];
      JoinProfile(a, b, j, m, open, close, lo, hi);
      var e := Depth(a, open, close) + Depth(b, open, close);
      WeaveProfile(segs[2..], m, u, v, open, close, lo - e, hi - e);
      var w := Weave(segs[2..], m, u, v);
      PairProfile(a, b, w, u, v, open, close, lo, hi);
      PairTags(u, v);
      CleanPair(a, u, b, v, w);
    }
  }

  /** Markers count for nothing: each text between them stays within what the texts before it leave. */
  lemma JoinProfile(a: string, b: string, j: string, m: string, open: string, close: string, lo: int, hi: int)
    requires Foreign(m) && TagPair(open, close)
    requires Clean(a + m + (b + m + j)) && Within(a + m + (b + m + j), open, close, lo, hi)
    ensures Clean(a) && Clean(b) && Clean(j)
    ensures var d := Depth(a, open, close);
            var e := d + Depth(b, open, close);
            && Within(a, open, close, lo, hi)
            && Within(b, open, close, lo - d, hi - d)
            && Within(j, open, close, lo - e, hi - e)
            && Depth(a + m + (b + m + j), open, close) == e + Depth(j, open, close)
  {
    hide Clean, Within, Depth, TagPair, Foreign;
    var d := Depth(a, open, close);
    ForeignHasNoTag(m);
    CleanParts(a, m, b + m + j);
    CleanParts(b, m, j);
    MarkedProfile(a, b + m + j, m, open, close, lo, hi);
    MarkedProfile(b, j, m, open, close, lo - d, hi - d);
  }

  lemma MarkedProfile(a: string, rest: string, m: string, open: string, close: string, lo: int, hi: int)
    requires Foreign(m) && TagPair(open, close) && Clean(a) && Clean(m) && Clean(rest)
    requires Within(a + m + rest, open, close, lo, hi)
    ensures var d := Depth(a, open, close);
            && Within(a, open, close, lo, hi) && Within(rest, open, close, lo - d, hi - d)
            && Depth(a + m + rest, open, close) == d + Depth(rest, open, close)
  {
    hide Clean, Within, Depth, TagPair, Foreign;
    var d := Depth(a, open, close);
    ForeignHasNoTag(m);
    NoTagProfile(m, open, close);
    assert a + m + rest == a + (m + rest);
    WithinConcat(a, m + rest, open, close, lo, hi);
    DepthConcat(a, m + rest, open, close);
    WithinConcat(m, rest, open, close, lo - d, hi - d);
    DepthConcat(m, rest, open, close);
  }

  lemma PairTags(u: string, v: string)
    requires TagPair(u, v)
    ensures IsTag(u) && IsTag(v)
  {
  }

  lemma PassProfile(s: string, m: string, u: string, v: string, open: string, close: string, hi: int)
    requires Foreign(m) && m != "" && Kind(u, v) && Kind(open, close)
    requires Clean(s) && Balanced(s, open, close, hi)
    ensures Clean(Pass(s, m, u, v)) && Balanced(Pass(s, m, u, v), open, close, if u == open then hi + 1 else hi)
  {
    JoinSplit(s, m);
    WeaveProfile(Split(s, m), m, u, v, open, close, 0, hi);
  }

  /** Opens never fall behind closes, never lead by more than `hi`, and are equal at the end. */
  ghost predicate Balanced(s: string, open: string, close: string, hi: int) {
    Within(s, open, close, 0, hi) && Depth(s, open, close) == 0
  }

  lemma BalancedWider(s: string, open: string, close: string, hi: int, hi': int)
    requires Balanced(s, open, close, hi) && hi <= hi'
    ensures Balanced(s, open, close, hi')
  {
  }

  lemma TwoPassesProfile(s: string, m1: string, m2: string, u: string, v: string,
                         open: string, close: string, hi: int)
    requires Foreign(m1) && Foreign(m2) && m1 != "" && m2 != "" && Kind(u, v) && Kind(open, close)
    requires Clean(s) && Balanced(s, open, close, hi)
    ensures Clean(TwoPasses(s, m1, m2, u, v))
    ensures Balanced(TwoPasses(s, m1, m2, u, v), open, close, if u == open then hi + 2 else hi)
  {
    hide Balanced, Clean, Kind, Foreign, Pass, Find;
    var a := Pass(s, m1, u, v);
    var hi1 := if u == open then hi + 1 else hi;
    PassProfile(s, m1, u, v, open, close, hi);
    BalancedWider(a, open, close, hi1, if u == open then hi + 2 else hi);
    PassProfile(a, m2, u, v, open, close, hi1);
  }

  lemma InlineProfile(s: string, open: string, close: string)
    requires '<' !in s && Kind(open, close)
    ensures Clean(Inline(s))
    ensures Balanced(Inline(s), open, close, if open == "<code>" then 1 else 2)
  {
    hide Balanced, Clean, Pass, TwoPasses;
    CleanWithout(s);
    KindsApart(open, close, open, close);
    BalancedStart(s, open, close);
    var b, i := Bold(s), Italics(Bold(s));
    TwoPassesProfile(s, "**", "__", "<strong>", "</strong>", open, close, 0);
    TwoPassesProfile(b, "*", "_", "<em>", "</em>", open, close, if open == "<strong>" then 2 else 0);
    var hi := if open == "<code>" then 0 else 2;
    PassProfile(i, "`", "<code>", "</code>", open, close, hi);
    BalancedWider(i, open, close, hi, if open == "<code>" then 1 else 2);
  }

  lemma BalancedStart(s: string, open: string, close: string)
    requires TagPair(open, close) && '<' !in s
    ensures Balanced(s, open, close, 0)
  {
    NoTagProfile(s, open, close);
  }

  /**
   Tag depths. On a line without `<`, every prefix of the rendered line has opened each kind of
   tag at least as often as it has closed it, `<strong>` and `<em>` at most twice more and
   `<code>` at most once more, and all are closed at the end of the line.
   */
  lemma TagDepths(s: string)
    requires '<' !in s
    ensures forall n | 0 <= n <= |Inline(s)| ::
              && 0 <= Depth(Inline(s)[..n], "<strong>", "</strong>") <= 2
              && 0 <= Depth(Inline(s)[..n], "<em>", "</em>") <= 2
              && 0 <= Depth(Inline(s)[..n], "<code>", "</code>") <= 1
    ensures Depth(Inline(s), "<strong>", "</strong>") == 0
    ensures Depth(Inline(s), "<em>", "</em>") == 0
    ensures Depth(Inline(s), "<code>", "</code>") == 0
  {
    hide Inline, Depth;
    InlineProfile(s, "<strong>", "</strong>");
    InlineProfile(s, "<em>", "</em>");
    InlineProfile(s, "<code>", "</code>");
  }

  // ---------------------------------------------------------------- the text between the tags

  predicate IsMarker(c: char) {
    c == '*' || c == '_' || c == '`'
  }

  function TagLength(s: string): (n: nat)
    ensures n <= |s|
    ensures n > 0 ==> IsTag(s[..n])
    ensures n == 0 ==> forall t | IsTag(t) :: !MatchAt(s, t, 0)
  {
    TagLengthCases(s);
    if MatchAt(s, "<strong>", 0) then 8
    else if MatchAt(s, "</strong>", 0) then 9
    else if MatchAt(s, "<em>", 0) then 4
    else if MatchAt(s, "</em>", 0) then 5
    else if MatchAt(s, "<code>", 0) then 6
    else if MatchAt(s, "</code>", 0) then 7
    else 0
  }

  lemma TagLengthCases(s: string)
    ensures forall n | 0 <= n <= |s| :: s[0..n] == s[..n]
    ensures forall t | IsTag(t) ::
              t in {"<strong>", "</strong>", "<em>", "</em>", "<code>", "</code>"}
    ensures IsTag("<strong>") && IsTag("</strong>") && IsTag("<em>") && IsTag("</em>")
    ensures IsTag("<code>") && IsTag("</code>")
  {
    assert TAGS[0] == "<strong>" && TAGS[1] == "</strong>" && TAGS[2] == "<em>";
    assert TAGS[3] == "</em>" && TAGS[4] == "<code>" && TAGS[5] == "</code>";
  }

  /** The text without tags and without marker characters. */
  function Plain(s: string): string
    decreases |s|
  {
    if s == "" then ""
    else if TagLength(s) > 0 then Plain(s[TagLength(s)..])
    else if IsMarker(s[0]) then Plain(s[1..])
    else [s[0]] + Plain(s[1..])
  }

  lemma TagLengthConcat(x: string, y: string)
    requires x != "" && Clean(x)
    ensures TagLength(x + y) == TagLength(x)
  {
    hide IsTag, Clean;
    TagLengthCases(x);
    forall t | IsTag(t)
      ensures MatchAt(x + y, t, 0) <==> MatchAt(x, t, 0)
    {
      TagInFront(x, y, t);
    }
  }

  lemma CleanDrop(x: string, n: nat)
    requires Clean(x) && n <= |x|
    ensures Clean(x[n..])
  {
    hide IsTag;
    forall i | 0 <= i < |x| - n && x[n..][i] == '<'
      ensures TagAt(x[n..], i)
    {
      assert TagAt(x, i + n);
      var t :| IsTag(t) && MatchAt(x, t, i + n);
      assert x[n..][i..i + |t|] == x[i + n..i + n + |t|];
    }
  }

  lemma {:induction false} PlainConcat(x: string, y: string)
    requires Clean(x)
    ensures Plain(x + y) == Plain(x) + Plain(y)
    decreases |x|
  {
    hide Clean, TagLength;
    if x == "" {
      assert x + y == y;
    } else {
      TagLengthConcat(x, y);
      var n := if TagLength(x) > 0 then TagLength(x) else 1;
      assert (x + y)[n..] == x[n..] + y;
      CleanDrop(x, n);
      PlainConcat(x[n..], y);
    }
  }

  lemma {:induction false} PlainMarker(m: string)
    requires forall c | c in m :: IsMarker(c)
    ensures Plain(m) == ""
  {
    if m != "" {
      assert m[0] in m;
      var n := TagLength(m);
      if n > 0 {
        TagShape(m[..n]);
      }
      PlainMarker(m[1..]);
    }
  }

  lemma PlainTag(t: string)
    requires IsTag(t)
    ensures Plain(t) == ""
  {
    TagShape(t);
    assert t[0..|t|] == t && MatchAt(t, t, 0);
    var n := TagLength(t);
    assert t[..n] == t[0..n];
    OneTag(t, t, t[..n], 0);
    assert t[n..] == "";
  }

  lemma PlainThree(x: string, y: string, z: string)
    requires Clean(x) && Clean(y) && Plain(y) == ""
    ensures Plain(x + y + z) == Plain(x) + Plain(z)
  {
    hide Clean;
    CleanConcat(x, y);
    PlainConcat(x + y, z);
    PlainConcat(x, y);
    assert Plain(x) + "" == Plain(x);
  }

  lemma {:induction false} WeavePlain(segs: seq<string>, m: string, u: string, v: string)
    requires segs != [] && Foreign(m) && TagPair(u, v) && Clean(Join(segs, m))
    ensures Plain(Weave(segs, m, u, v)) == Plain(Join(segs, m)) && Clean(Weave(segs, m, u, v))
    decreases |segs|
  {
    hide Clean, Plain, IsTag;
    if |segs| == 2 {
      assert Join(segs[1..], m) == segs[1];
    } else if |segs| > 2 {
      var a, b, j := segs[0], segs[1], Join(segs[2..], m);
      assert segs[1..][1..] == segs[2..];
      ForeignHasNoTag(m);
      PlainMarker(m);
      CleanParts(a, m, b + m + j);
      CleanParts(b, m, j);
      WeavePlain(segs[2..], m, u, v);
      var w := Weave(segs[2..], m, u, v);
      PlainThree(a, m, b + m + j);
      PlainThree(b, m, j);
      PlainTag(u);
      PlainTag(v);
      CleanTag(u);
      CleanTag(v);
      assert a + u + b + v + w == a + u + (b + v + w);
      PlainThree(a, u, b + v + w);
      PlainThree(b, v, w);
      CleanPair(a, u, b, v, w);
    }
  }

  lemma PassPlain(s: string, m: string, u: string, v: string)
    requires Foreign(m) && m != "" && Kind(u, v) && Clean(s)
    ensures Plain(Pass(s, m, u, v)) == Plain(s) && Clean(Pass(s, m, u, v))
  {
    KindsApart(u, v, u, v);
    JoinSplit(s, m);
    WeavePlain(Split(s, m), m, u, v);
  }

  /** Without tags in it, the plain text of a line is the line with the markers deleted. */
  lemma {:induction false} PlainDeletesMarkers(s: string)
    requires '<' !in s
    ensures Plain(s) == Unmarked(s)
  {
    if s != "" {
      if TagLength(s) > 0 {
        TagShape(s[..TagLength(s)]);
      }
      PlainDeletesMarkers(s[1..]);
    }
  }

  function Unmarked(s: string): string {
    if s == "" then "" else (if IsMarker(s[0]) then "" else [s[0]]) + Unmarked(s[1..])
  }

  /**
   The inline stages keep the text: the rendered line without markers and tags
   is the line without markers.
   */
  lemma TextConservation(s: string)
    requires '<' !in s
    ensures Plain(Inline(s)) == Plain(s) == Unmarked(s)
  {
    hide Clean, Plain, Pass, Find;
    CleanWithout(s);
    PlainDeletesMarkers(s);
    PassPlain(s, "**", "<strong>", "</strong>");
    PassPlain(Pass(s, "**", "<strong>", "</strong>"), "__", "<strong>", "</strong>");
    var b := Bold(s);
    PassPlain(b, "*", "<em>", "</em>");
    PassPlain(Pass(b, "*", "<em>", "</em>"), "_", "<em>", "</em>");
    PassPlain(Italics(b), "`", "<code>", "</code>");
  }
}

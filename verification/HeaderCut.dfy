/**
 Where two components meet: the byte at which the request parser stops is the byte at which
 the CRUD handler cuts the header section off the body.
 */
module HeaderCut {
  import opened Wrappers
  import opened Segments
  import opened RequestParser
  import opened RequestGrammar
  import opened Crud
  import opened Bodies

  /** An empty line brings the parser to a verdict from every state. */
  lemma BlankLineDecides(m: Config)
    requires Coherent(m)
    ensures Feed(m, BLANK_LINE).result != INDETERMINATE
  {
    hide Step, Feed;
    var s3: string := ['\n'];
    var s2 := ['\r'] + s3;
    var s1 := ['\n'] + s2;
    assert BLANK_LINE == ['\r'] + s1 && s3 == ['\n'] + "";
    FeedOne(m, '\r', s1);
    var m1 := Step(m, '\r').0;
    FeedOne(m1, '\n', s2);
    var m2 := Step(m1, '\n').0;
    FeedOne(m2, '\r', s3);
    FeedOne(Step(m2, '\r').0, '\n', "");
    LineBreak(m);
    AtLineStart(m2);
  }

  lemma FeedOne(m: Config, c: char, rest: string)
    requires Coherent(m)
    ensures var (m', result) := Step(m, c);
            Feed(m, [c] + rest).result == if result == INDETERMINATE then Feed(m', rest).result else result
  {
    assert ([c] + rest)[1..] == rest;
  }

  /** A line break leads to the start of a header line or to a verdict. */
  lemma LineBreak(m: Config)
    requires Coherent(m)
    ensures var (m1, r1) := Step(m, '\r');
            var (m2, r2) := Step(m1, '\n');
            r1 == INDETERMINATE && r2 == INDETERMINATE ==> m2.state == HEADER_LINE_START
  {
  }

  lemma AtLineStart(m: Config)
    requires Coherent(m)
    ensures m.state == HEADER_LINE_START ==> Step(Step(m, '\r').0, '\n').1 == GOOD
  {
  }

  lemma AcceptedStopsAtBlankLine(m: Config, s: string, i: nat)
    requires Coherent(m) && Accepts(m, s) && MatchAt(s, BLANK_LINE, i)
    ensures i + 4 == |s|
  {
    hide Feed;
    assert s == s[..i] + s[i..];
    FeedConcat(m, s[..i], s[i..]);
    FeedBounds(m, s[..i]);
    var mid := Feed(m, s[..i]).config;
    var rest := s[i + 4..];
    assert s[i..] == s[i..i + 4] + rest;
    BlankLineDecides(mid);
    FeedConcat(mid, BLANK_LINE, rest);
    FeedBounds(mid, BLANK_LINE);
  }

  lemma FeedBounds(m: Config, s: string)
    requires Coherent(m)
    ensures Coherent(Feed(m, s).config) && Feed(m, s).consumed <= |s|
  {
  }

  lemma {:induction false} NoNul(m: Config, s: string)
    requires Coherent(m) && Final(m, s).Some?
    ensures '\0' !in s
    decreases |s|
  {
    var (m', result) := Step(m, s[0]);
    NulIsBad(m);
    if |s| > 1 {
      NoNul(m', s[1..]);
    }
    assert s == [s[0]] + s[1..];
  }

  lemma NulIsBad(m: Config)
    requires Coherent(m)
    ensures Step(m, '\0').1 == BAD
  {
  }

  predicate EndsLine(s: string) {
    |s| >= 2 && s[|s| - 2..] == "\r\n"
  }

  lemma EndsLineConcat(a: string, b: string)
    requires EndsLine(b)
    ensures EndsLine(a + b)
  {
  }

  lemma {:induction false} FoldsEnd(fs: seq<Fold>)
    ensures fs == [] || EndsLine(FoldsText(fs))
  {
    if fs != [] {
      FoldsEnd(fs[1..]);
      var head := fs[0].blanks + fs[0].text + "\r\n";
      if fs[1..] == [] {
        assert FoldsText(fs) == head + "" == head;
      } else {
        EndsLineConcat(head, FoldsText(fs[1..]));
      }
    }
  }

  lemma {:induction false} LinesEnd(ls: seq<HeaderLine>)
    ensures ls == [] || EndsLine(LinesText(ls))
  {
    if ls != [] {
      LinesEnd(ls[1..]);
      FoldsEnd(ls[0].folds);
      var head := ls[0].name + ": " + ls[0].text + "\r\n";
      if ls[0].folds == [] {
        assert LineText(ls[0]) == head + "" == head;
      } else {
        EndsLineConcat(head, FoldsText(ls[0].folds));
      }
      if ls[1..] == [] {
        assert LinesText(ls) == LineText(ls[0]) + "" == LineText(ls[0]);
      } else {
        EndsLineConcat(LineText(ls[0]), LinesText(ls[1..]));
      }
    }
  }

  lemma TextEnds(d: RequestText)
    ensures |Text(d)| >= 4 && MatchAt(Text(d), BLANK_LINE, |Text(d)| - 4)
  {
    hide LinesText;
    var before := d.method_ + " " + d.uri + " HTTP/" + d.major + "." + d.minor;
    LinesEnd(d.lines);
    SectionBehind(before + "\r\n", d.lines);
    BreakEnds(before);
    BlankLineEnds(before + "\r\n" + LinesText(d.lines));
  }

  lemma BreakEnds(s: string)
    ensures EndsLine(s + "\r\n")
  {
  }

  lemma SectionBehind(line: string, ls: seq<HeaderLine>)
    requires ls == [] || EndsLine(LinesText(ls))
    ensures line + SectionText(ls) == line + LinesText(ls) + "\r\n"
    ensures EndsLine(line) ==> EndsLine(line + LinesText(ls))
  {
    if ls == [] {
      assert line + LinesText(ls) == line;
    } else {
      EndsLineConcat(line, LinesText(ls));
    }
  }

  lemma BlankLineEnds(head: string)
    requires EndsLine(head)
    ensures MatchAt(head + "\r\n", BLANK_LINE, |head| - 2)
  {
    var n := |head|;
    assert (head + "\r\n")[n - 2..n + 2] == head[n - 2..] + "\r\n";
  }

  /** In an accepted text the only empty line is at the end, and there is no NUL byte. */
  lemma AcceptedShape(major: int, minor: int, s: string)
    requires Accepts(Fresh(major, minor), s)
    ensures |s| >= 4 && Find(s, BLANK_LINE) == |s| - 4 && '\0' !in s
  {
    hide Feed, Final, Find, MatchAt, Text, Proper;
    var m := Fresh(major, minor);
    FinalIsFeed(m, s);
    NoNul(m, s);
    var d := ReadText(major, minor, s);
    TextEnds(d);
    forall j | 0 <= j < |s| - 4
      ensures !MatchAt(s, BLANK_LINE, j)
    {
      if MatchAt(s, BLANK_LINE, j) {
        AcceptedStopsAtBlankLine(m, s, j);
      }
    }
    FindUnique(s, BLANK_LINE, |s| - 4);
  }

  /**
   The cut. Whatever is received, if the parser accepts a request that ends after `n` bytes,
   then the first empty line ends there too, and what the handler stores is what follows it,
   up to the first NUL byte. The session already passes the text on as a C string.
   */
  lemma PayloadStartsWhereParserStops(major: int, minor: int, received: string)
    requires Feed(Fresh(major, minor), received).result == GOOD
    ensures var n := Feed(Fresh(major, minor), received).consumed;
            && Find(received, BLANK_LINE) + 4 == n
            && '\0' !in received[..n]
            && Payload(CString(received)) == Some(CString(received[n..]))
  {
    hide Feed, Find;
    var m := Fresh(major, minor);
    var n := Feed(m, received).consumed;
    FeedBounds(m, received);
    GoodIffPrefixAccepted(m, received, n);
    AcceptedShape(major, minor, received[..n]);
    FindInPrefix(received, n, BLANK_LINE);
    var head, tail := received[..n], received[n..];
    assert received == head + tail;
    CStringConcat(head, tail);
    CStringTwice(received);
    var data := CString(received);
    assert data[..n] == head && data[n..] == CString(tail);
    FindInPrefix(data, n, BLANK_LINE);
  }

  lemma {:induction false} CStringTwice(s: string)
    ensures CString(CString(s)) == CString(s)
  {
    if s != "" && s[0] != '\0' {
      CStringTwice(s[1..]);
    }
  }
}

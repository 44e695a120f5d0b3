/**
 The texts the request parser takes, in character codes and without the predicates that the
 machine and the grammar share, and how early it refuses the others.
 */
module RequestTexts {
  import opened Wrappers
  import opened RequestParser
  import opened RequestGrammar

  /** The codes of the characters that may stand in a method or in the name of a header. */
  predicate TokenCode(n: int) {
    n in {33, 42, 43, 45, 46, 124, 126} || 35 <= n <= 39 || 48 <= n <= 57 || 65 <= n <= 90 || 94 <= n <= 122
  }

  /** The codes of the characters that may stand in a URI, if not the space, and in a value. */
  predicate TextCode(n: int) {
    32 <= n && n != 127
  }

  predicate TokenCodes(w: string) {
    w != "" && forall c | c in w :: TokenCode(c as int)
  }

  predicate TextCodes(w: string) {
    forall c | c in w :: TextCode(c as int)
  }

  lemma CharacterCodes(c: char)
    ensures IsTokenChar(c) <==> TokenCode(c as int)
    ensures IsCtl(c) <==> !TextCode(c as int)
    ensures IsBlank(c) <==> c as int in {9, 32}
  {
  }

  lemma StringCodes(w: string)
    ensures IsToken(w) <==> TokenCodes(w)
    ensures IsText(w) <==> TextCodes(w)
  {
    hide IsTokenChar, IsCtl, TokenCode, TextCode;
    forall c | c in w
      ensures IsTokenChar(c) <==> TokenCode(c as int)
      ensures IsCtl(c) <==> !TextCode(c as int)
    {
      CharacterCodes(c);
    }
  }

  /** The parser, new like its request, says good at the last byte of `s` and not before. */
  predicate Taken(major: int, minor: int, s: string) {
    Feed(Fresh(major, minor), s).result == GOOD && Feed(Fresh(major, minor), s).consumed == |s|
  }

  lemma TakenIsFinal(major: int, minor: int, s: string)
    ensures Taken(major, minor, s) <==> Final(Fresh(major, minor), s).Some?
  {
    hide Feed, Final;
    FinalIsFeed(Fresh(major, minor), s);
  }

  /** Two ways to cut a text at the first `c` are the same. */
  lemma FirstCut(a: string, b: string, x: string, y: string, c: char)
    requires a + [c] + x == b + [c] + y && c !in a && c !in b
    ensures a == b && x == y
  {
    var s := a + [c] + x;
    assert s[|a|] == c && s[|b|] == c;
    assert forall i | 0 <= i < |a| :: s[i] == a[i] && s[i] in a;
    assert forall i | 0 <= i < |b| :: s[i] == b[i] && s[i] in b;
    assert |a| == |b|;
    assert a == s[..|a|] && x == s[|a| + 1..] && y == s[|b| + 1..];
  }

  // ---------------------------------------------------------------- the request line

  lemma SimpleText(method_: string, uri: string)
    ensures Text(RequestText(method_, uri, "1", "0", [])) == method_ + " " + (uri + " " + "HTTP/1.0\r\n\r\n")
  {
    var d := RequestText(method_, uri, "1", "0", []);
    hide RequestLine;
    LineParts(d, SectionText([]));
    assert SectionText([]) == "\r\n";
    VersionLetters();
  }

  lemma VersionLetters()
    ensures "HTTP/" + ("1" + "." + ("0" + "\r\n" + "\r\n")) == "HTTP/1.0\r\n\r\n"
  {
  }

  lemma SimpleTaken(major: int, minor: int, method_: string, uri: string)
    requires TokenCodes(method_) && TextCodes(uri) && ' ' !in uri
    ensures Taken(major, minor, method_ + " " + (uri + " " + "HTTP/1.0\r\n\r\n"))
  {
    hide Taken, Text, IsToken, IsText, TokenCodes, TextCodes;
    StringCodes(method_);
    StringCodes(uri);
    var d := RequestText(method_, uri, "1", "0", []);
    SimpleText(method_, uri);
    TextsAreAccepted(d, major, minor);
    TakenIsFinal(major, minor, Text(d));
  }

  /** Which characters a method may hold. */
  lemma MethodCharacters(major: int, minor: int, w: string)
    requires forall i | 0 < i < |w| :: w[i] != ' '
    ensures Taken(major, minor, w + " " + ("/" + " " + "HTTP/1.0\r\n\r\n")) <==> TokenCodes(w)
  {
    hide Taken, Final, IsToken, TokenCodes;
    var rest := "/" + " " + "HTTP/1.0\r\n\r\n";
    var s := w + " " + rest;
    TakenIsFinal(major, minor, s);
    if TokenCodes(w) {
      SimpleTaken(major, minor, w, "/");
    }
    if Taken(major, minor, s) {
      var method_, tail := ReadMethod(Fresh(major, minor), s);
      StringCodes(method_);
      NoSpaceInToken(method_);
      FirstOfMethod(method_, tail, w, rest);
      FirstCut(w, method_, rest, tail, ' ');
    }
  }

  lemma NoSpaceInToken(w: string)
    requires IsToken(w)
    ensures ' ' !in w && ':' !in w && '\r' !in w && w != ""
  {
  }

  lemma FirstOfMethod(method_: string, tail: string, w: string, rest: string)
    requires method_ + " " + tail == w + " " + rest && method_ != "" && ' ' !in method_
    requires forall i | 0 < i < |w| :: w[i] != ' '
    ensures ' ' !in w
    ensures w + [' '] + rest == method_ + [' '] + tail
  {
    assert (method_ + " " + tail)[0] == method_[0] && method_[0] in method_;
    if w != "" {
      assert (w + " " + rest)[0] == w[0];
    }
  }

  /** Which characters a URI may hold. */
  lemma UriCharacters(major: int, minor: int, w: string)
    requires ' ' !in w || |w| == 1
    ensures Taken(major, minor, "GET" + " " + (w + " " + "HTTP/1.0\r\n\r\n")) <==> TextCodes(w) && ' ' !in w
  {
    hide Taken, Final, IsToken, IsText, TokenCodes, TextCodes;
    var version := "HTTP/1.0\r\n\r\n";
    var rest := w + " " + version;
    var s := "GET" + " " + rest;
    TakenIsFinal(major, minor, s);
    assert TokenCodes("GET") by {
      GetIsToken();
    }
    if TextCodes(w) && ' ' !in w {
      SimpleTaken(major, minor, "GET", w);
    }
    if Taken(major, minor, s) {
      var m := Fresh(major, minor);
      var method_, r1 := ReadMethod(m, s);
      NoSpaceInToken(method_);
      NoSpaceInToken("GET") by {
        StringCodes("GET");
      }
      FirstCut("GET", method_, rest, r1, ' ');
      var uri, r2 := ReadUri(Config(URI, m.req.(method_ := m.req.method_ + method_)), r1);
      var named := m.req.(method_ := m.req.method_ + method_);
      var tail := ReadHttp(Config(HTTP_VERSION_H, named.(uri := named.uri + uri)), r2);
      SpaceIsNoVersion(w, version, uri, r2, tail);
      FirstCut(w, uri, version, r2, ' ');
      StringCodes(uri);
    }
  }

  lemma GetIsToken()
    ensures TokenCodes("GET")
  {
  }

  lemma SpaceIsNoVersion(w: string, version: string, uri: string, rest: string, tail: string)
    requires w + " " + version == uri + " " + rest && rest == "HTTP/" + tail && ' ' !in uri
    requires ' ' !in w || |w| == 1
    ensures ' ' !in w
  {
    var s := w + " " + version;
    assert uri != "" ==> s[0] == uri[0] && uri[0] in uri;
    assert uri == "" ==> s[1] == rest[0] == 'H';
    assert |w| == 1 ==> s[0] == w[0] && s[1] == ' ';
  }

  // ---------------------------------------------------------------- headers

  const LINE := RequestText("GET", "/", "1", "0", [])

  lemma LineLetters()
    ensures RequestLine(LINE) == "GET / HTTP/1.0\r\n"
  {
  }

  lemma LineIsProper()
    ensures Proper(LINE)
  {
    GetIsToken();
    StringCodes("GET");
  }

  /** Behind the request line, the header section decides. */
  lemma SectionDecides(major: int, minor: int, section: string)
    ensures Proper(LINE)
    ensures Taken(major, minor, "GET / HTTP/1.0\r\n" + section) <==>
            Final(BehindLine(Fresh(major, minor).req, LINE), section).Some?
    ensures BehindLine(Fresh(major, minor).req, LINE).req.headers == []
    ensures BehindLine(Fresh(major, minor).req, LINE).state == HEADER_LINE_START
  {
    hide Taken, Final, RequestLine, Proper, IsToken, IsText;
    LineIsProper();
    LineLetters();
    TakenIsFinal(major, minor, "GET / HTTP/1.0\r\n" + section);
    RunLine(Fresh(major, minor).req, LINE, section);
  }

  lemma OneHeader(m: Config, name: string, text: string)
    requires m.state == HEADER_LINE_START && TokenCodes(name) && TextCodes(text)
    ensures Final(m, HeadText(name, text) + "\r\n").Some?
  {
    hide Final, Step, IsToken, IsText, TokenCodes, TextCodes;
    StringCodes(name);
    StringCodes(text);
    RunHeader(m, name, text, "\r\n");
    RunSectionEnd(At(m, HEADER_LINE_START, m.req.headers + [Header(name, text)]));
  }

  lemma StartsHeader(m: Config, s: string)
    requires m.state == HEADER_LINE_START && m.req.headers == [] && Final(m, s).Some?
    ensures s == "\r\n" || (s != "" && IsTokenChar(s[0]))
  {
    hide Final, Step;
    FinalNotEmpty(m, s);
    if !IsTokenChar(s[0]) {
      ReadSectionEnd(m, s);
    }
  }

  /** Which characters the name of a header may hold. */
  lemma HeaderNameCharacters(major: int, minor: int, w: string)
    requires forall i | 0 < i < |w| :: w[i] != ':'
    ensures Taken(major, minor, "GET / HTTP/1.0\r\n" + (w + ": v\r\n\r\n")) <==> TokenCodes(w)
  {
    hide Taken, Final, Proper, IsToken, IsText, TokenCodes, TextCodes, IsTokenChar, HeadText, BehindLine;
    var section := w + ": v\r\n\r\n";
    var m := BehindLine(Fresh(major, minor).req, LINE) by {
      LineIsProper();
    }
    SectionDecides(major, minor, section);
    NameParts(w, "v");
    if TokenCodes(w) {
      ValueV();
      OneHeader(m, w, "v");
    }
    if Final(m, section).Some? {
      StartsHeader(m, section);
      LongSection(w);
      var name, text, rest := ReadHeader(m, section);
      StringCodes(name);
      NoSpaceInToken(name);
      NameLetters(name, text, rest, w);
      FirstCut(w, name, " v\r\n\r\n", " " + text + "\r\n" + rest, ':');
    }
  }

  lemma ValueV()
    ensures TextCodes("v")
  {
  }

  lemma LongSection(w: string)
    ensures w + ": v\r\n\r\n" != "\r\n"
  {
    assert |w + ": v\r\n\r\n"| > 2;
  }

  lemma NameParts(w: string, text: string)
    ensures HeadText(w, text) + "\r\n" == w + ": " + text + "\r\n\r\n"
    ensures w + ": " + "v" + "\r\n\r\n" == w + ": v\r\n\r\n"
  {
    assert "\r\n" + "\r\n" == "\r\n\r\n";
    assert ": " + "v" + "\r\n\r\n" == ": v\r\n\r\n";
  }

  lemma NameLetters(name: string, text: string, rest: string, w: string)
    requires w + ": v\r\n\r\n" == HeadText(name, text) + rest && name != "" && ':' !in name
    requires forall i | 0 < i < |w| :: w[i] != ':'
    ensures ':' !in w
    ensures w + [':'] + " v\r\n\r\n" == name + [':'] + (" " + text + "\r\n" + rest)
  {
    var s := w + ": v\r\n\r\n";
    assert s == w + [':'] + " v\r\n\r\n" by {
      assert ": v\r\n\r\n" == [':'] + " v\r\n\r\n";
    }
    assert HeadText(name, text) + rest == name + [':'] + (" " + text + "\r\n" + rest) by {
      assert ": " == [':'] + " ";
    }
    assert s[0] == name[0] && name[0] in name;
    assert w != "" ==> s[0] == w[0];
  }

  /** Which characters the value of a header may hold. */
  lemma HeaderValueCharacters(major: int, minor: int, w: string)
    requires '\r' !in w || |w| == 1
    ensures Taken(major, minor, "GET / HTTP/1.0\r\n" + ("A" + ": " + w + "\r\n\r\n")) <==> TextCodes(w)
  {
    hide Taken, Final, Proper, IsToken, IsText, TokenCodes, TextCodes, IsTokenChar, HeadText, BehindLine;
    var section := "A" + ": " + w + "\r\n\r\n";
    var m := BehindLine(Fresh(major, minor).req, LINE) by {
      LineIsProper();
    }
    SectionDecides(major, minor, section);
    NameParts("A", w);
    NameA();
    if TextCodes(w) {
      OneHeader(m, "A", w);
    }
    if Final(m, section).Some? {
      StringCodes("A");
      NoSpaceInToken("A");
      FirstLetterA(w);
      var name, text, rest := ReadHeader(m, section);
      StringCodes(text);
      NoSpaceInToken(name);
      ValueLetters(name, text, rest, w);
      NoReturnInText(text);
      ReturnNotDoubled(w, text, rest);
      FirstCut(w, text, "\n\r\n", "\n" + rest, '\r');
    }
  }

  lemma NameA()
    ensures TokenCodes("A")
  {
  }

  lemma FirstLetterA(w: string)
    requires IsToken("A")
    ensures var s := "A" + ": " + w + "\r\n\r\n"; s != "" && IsTokenChar(s[0])
  {
    assert "A"[0] in "A";
    assert ("A" + ": " + w + "\r\n\r\n")[0] == 'A';
  }

  lemma NoReturnInText(w: string)
    requires IsText(w)
    ensures '\r' !in w
  {
  }

  lemma ValueLetters(name: string, text: string, rest: string, w: string)
    requires "A" + ": " + w + "\r\n\r\n" == HeadText(name, text) + rest && ':' !in name
    ensures w + ['\r'] + "\n\r\n" == text + ['\r'] + ("\n" + rest)
  {
    var s := "A" + ": " + w + "\r\n\r\n";
    var tail := text + "\r\n" + rest;
    assert s == "A" + [':'] + (" " + w + "\r\n\r\n") by {
      assert ": " == [':'] + " ";
    }
    assert s == name + [':'] + (" " + tail) by {
      assert ": " == [':'] + " ";
      assert HeadText(name, text) + rest == name + [':'] + (" " + tail);
    }
    FirstCut("A", name, " " + w + "\r\n\r\n", " " + tail, ':');
    assert w + "\r\n\r\n" == (" " + w + "\r\n\r\n")[1..];
    assert tail == (" " + tail)[1..];
    assert "\r\n\r\n" == ['\r'] + "\n\r\n" && "\r\n" == ['\r'] + "\n";
    assert w + "\r\n\r\n" == w + ['\r'] + "\n\r\n" && tail == text + ['\r'] + ("\n" + rest);
  }

  lemma ReturnNotDoubled(w: string, text: string, rest: string)
    requires w + ['\r'] + "\n\r\n" == text + ['\r'] + ("\n" + rest) && '\r' !in text
    requires '\r' !in w || |w| == 1
    ensures '\r' !in w
  {
    var s := w + ['\r'] + "\n\r\n";
    assert text != "" ==> s[0] == text[0] && text[0] in text;
    assert text == "" ==> s[1] == '\n';
    assert |w| == 1 ==> s[0] == w[0] && s[1] == '\r';
  }

  lemma FoldAtLineStart(m: Config, c: char)
    requires m.state == HEADER_LINE_START && m.req.headers == [Header("A", "v")]
    ensures Final(m, [c] + "w\r\n\r\n").Some? <==> c as int in {9, 32}
    ensures c as int in {9, 32} ==> Final(m, [c] + "w\r\n\r\n").value.headers == [Header("A", "vw")]
  {
    hide Final, Step, FoldText, HeadText, FoldsText, SectionText, IsTokenChar;
    CharacterCodes(c);
    var s := [c] + "w\r\n\r\n";
    if c as int in {9, 32} {
      var f := Fold([c], "w");
      BlankFold(m, f);
    }
    if Final(m, s).Some? {
      StartsLine(m, s);
      FoldLetters(c);
    }
  }

  /** A line without a colon continues the header above it exactly if it begins with a space or a tab. */
  lemma FoldCharacters(major: int, minor: int, c: char)
    ensures var s := "GET / HTTP/1.0\r\n" + ("A" + ": " + "v" + "\r\n" + ([c] + "w\r\n\r\n"));
            && (Taken(major, minor, s) <==> c as int in {9, 32})
            && (c as int in {9, 32} ==> Feed(Fresh(major, minor), s).config.req.headers == [Header("A", "vw")])
  {
    hide Taken, Feed, Final, Proper, IsToken, IsText, HeadText, BehindLine;
    var tail := [c] + "w\r\n\r\n";
    var section := "A" + ": " + "v" + "\r\n" + tail;
    var s := "GET / HTTP/1.0\r\n" + section;
    SectionDecides(major, minor, section);
    var m := BehindLine(Fresh(major, minor).req, LINE);
    NameA();
    ValueV();
    StringCodes("A");
    StringCodes("v");
    assert section == HeadText("A", "v") + tail by {
      HeadLetters(tail);
    }
    RunHeader(m, "A", "v", tail);
    assert [] + [Header("A", "v")] == [Header("A", "v")];
    FoldAtLineStart(At(m, HEADER_LINE_START, [Header("A", "v")]), c);
    LineLetters();
    RunLine(Fresh(major, minor).req, LINE, section);
    FinalIsFeed(Fresh(major, minor), s);
  }

  lemma HeadLetters(tail: string)
    ensures HeadText("A", "v") + tail == "A" + ": " + "v" + "\r\n" + tail
  {
  }

  /** What an accepted rest begins with at the start of a line: a blank, the empty line or a name and a colon. */
  lemma StartsLine(m: Config, s: string)
    requires m.state == HEADER_LINE_START && m.req.headers != [] && Final(m, s).Some?
    ensures s != "" && (IsBlank(s[0]) || s == "\r\n" || ':' in s[1..])
  {
    hide Final, Step, IsTokenChar, HeadText;
    FinalNotEmpty(m, s);
    if !IsBlank(s[0]) {
      if s[0] != '\r' && IsTokenChar(s[0]) {
        var name, text, rest := ReadHeader(m, s);
        ColonBehind(name, text, rest, s);
      } else {
        ReadSectionEnd(m, s);
      }
    }
  }

  lemma ColonBehind(name: string, text: string, rest: string, s: string)
    requires s == HeadText(name, text) + rest && name != ""
    ensures ':' in s[1..]
  {
    assert s[1..][|name| - 1] == s[|name|] == ':';
  }

  lemma FoldLetters(c: char)
    ensures var s := [c] + "w\r\n\r\n"; s[0] == c && |s| == 6 && ':' !in s[1..]
  {
    assert ([c] + "w\r\n\r\n")[1..] == "w\r\n\r\n";
  }

  lemma BlankFold(m: Config, f: Fold)
    requires m.state == HEADER_LINE_START && m.req.headers == [Header("A", "v")]
    requires f.text == "w" && |f.blanks| == 1 && f.blanks[0] as int in {9, 32}
    ensures Final(m, f.blanks + "w\r\n\r\n") == Some(m.req.(headers := [Header("A", "vw")]))
  {
    hide Final, Step;
    RunFold(m, f, "\r\n");
    assert FoldText(f) + "\r\n" == f.blanks + "w\r\n\r\n" by {
      assert "w" + "\r\n" + "\r\n" == "w\r\n\r\n";
    }
    FoldedOnce(m.req.headers, f);
    RunSectionEnd(At(m, HEADER_LINE_START, WithFolds(m.req.headers, [f])));
  }

  lemma FoldedOnce(hs: seq<Header>, f: Fold)
    requires hs == [Header("A", "v")] && f.text == "w"
    ensures WithFolds(hs, [f]) == [Header("A", "vw")]
  {
    assert Folded("v", [f]) == Folded("v" + "w", [f][1..]);
    assert "v" + "w" == "vw" && [f][1..] == [];
  }

  // ---------------------------------------------------------------- how early a text is refused

  function NextCharacter(s: State): char {
    match s
    case METHOD_START => 'A'
    case METHOD => ' '
    case URI => ' '
    case HTTP_VERSION_H => 'H'
    case HTTP_VERSION_T_1 => 'T'
    case HTTP_VERSION_T_2 => 'T'
    case HTTP_VERSION_P => 'P'
    case HTTP_VERSION_SLASH => '/'
    case HTTP_VERSION_MAJOR_START => '0'
    case HTTP_VERSION_MAJOR => '.'
    case HTTP_VERSION_MINOR_START => '0'
    case HTTP_VERSION_MINOR => '\r'
    case EXPECTING_NEWLINE_1 => '\n'
    case HEADER_LINE_START => '\r'
    case HEADER_LWS => '\r'
    case HEADER_NAME => ':'
    case SPACE_BEFORE_HEADER_VALUE => ' '
    case HEADER_VALUE => '\r'
    case EXPECTING_NEWLINE_2 => '\n'
    case EXPECTING_NEWLINE_3 => '\n'
  }

  /** How far a state is from the end of the shortest way to a request. */
  function Distance(s: State): nat {
    match s
    case METHOD_START => 17
    case METHOD => 16
    case URI => 15
    case HTTP_VERSION_H => 14
    case HTTP_VERSION_T_1 => 13
    case HTTP_VERSION_T_2 => 12
    case HTTP_VERSION_P => 11
    case HTTP_VERSION_SLASH => 10
    case HTTP_VERSION_MAJOR_START => 9
    case HTTP_VERSION_MAJOR => 8
    case HTTP_VERSION_MINOR_START => 7
    case HTTP_VERSION_MINOR => 6
    case HEADER_NAME => 6
    case SPACE_BEFORE_HEADER_VALUE => 5
    case HEADER_LWS => 4
    case HEADER_VALUE => 4
    case EXPECTING_NEWLINE_1 => 3
    case EXPECTING_NEWLINE_2 => 3
    case HEADER_LINE_START => 2
    case EXPECTING_NEWLINE_3 => 1
  }

  lemma StepCloser(m: Config)
    requires Coherent(m)
    ensures var (m', result) := Step(m, NextCharacter(m.state));
            if m.state == EXPECTING_NEWLINE_3 then result == GOOD
            else result == INDETERMINATE && Distance(m'.state) < Distance(m.state)
  {
  }

  /** From every state some text leads to a request. */
  lemma {:induction false} Completion(m: Config) returns (t: string)
    requires Coherent(m)
    ensures Final(m, t).Some?
    decreases Distance(m.state)
  {
    hide Step, NextCharacter, Distance;
    StepCloser(m);
    var c := NextCharacter(m.state);
    var m' := Step(m, c).0;
    if m.state == EXPECTING_NEWLINE_3 {
      t := [c];
    } else {
      var rest := Completion(m');
      t := [c] + rest;
      assert t[1..] == rest;
    }
  }

  /** A verdict consumes its byte and leaves parser and request as the bytes before it left them. */
  lemma VerdictsChangeNothing(m: Config, s: string, c: char)
    requires Coherent(m) && Feed(m, s).result == INDETERMINATE && Step(Feed(m, s).config, c).1 != INDETERMINATE
    ensures Feed(m, s + [c]) == Fed(Step(Feed(m, s).config, c).1, Feed(m, s).config, |s| + 1)
  {
    hide Step, Feed;
    FeedConcat(m, s, [c]);
    FeedSingle(Feed(m, s).config, c);
    VerdictKeeps(Feed(m, s).config, c);
  }

  lemma FeedSingle(m: Config, c: char)
    requires Coherent(m)
    ensures Feed(m, [c]) == Fed(Step(m, c).1, Step(m, c).0, 1)
  {
    hide Step;
    assert [c][0] == c && [c][1..] == "";
    assert Feed(Step(m, c).0, "") == Fed(INDETERMINATE, Step(m, c).0, 0);
  }

  lemma VerdictKeeps(m: Config, c: char)
    requires Coherent(m)
    ensures Step(m, c).1 != INDETERMINATE ==> Step(m, c).0 == m
  {
  }

  /** The parser goes on exactly while the input is the beginning of a request: it never refuses late. */
  lemma RefusesEarly(m: Config, s: string)
    requires Coherent(m)
    ensures Feed(m, s).result == INDETERMINATE <==> exists t: string :: t != "" && Accepts(m, s + t)
  {
    hide Feed, Final;
    if Feed(m, s).result == INDETERMINATE {
      var m' := Feed(m, s).config;
      var t := Completion(m');
      FinalNotEmpty(m', t);
      FinalIsFeed(m', t);
      FeedConcat(m, s, t);
      assert Accepts(m, s + t);
    }
    forall t: string | t != "" && Accepts(m, s + t)
      ensures Feed(m, s).result == INDETERMINATE
    {
      FeedConcat(m, s, t);
    }
  }
}

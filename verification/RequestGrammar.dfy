/**
 The language of the request parser as a grammar, by derivations, and the proof that the
 machine accepts exactly that language and fills the request with what the derivation says.

   request = method SP uri SP "HTTP/" 1*DIGIT "." 1*DIGIT CRLF *header CRLF
   header  = name ":" SP text CRLF *( 1*( SP | HT ) text CRLF )

 This is the request line of section 5.1 and the headers of section 4.2 of RFC 2616, except
 that the URI may be empty, exactly one space must follow the colon, a tab may stand only in
 front of folded text, and folded text joins the value without a separator.
 */
module RequestGrammar {
  import opened Wrappers
  import opened Sequences
  import opened Decimal
  import opened RequestParser

  /** A continuation line: its leading blanks and the text after them. */
  datatype Fold = Fold(blanks: string, text: string)

  datatype HeaderLine = HeaderLine(name: string, text: string, folds: seq<Fold>)

  datatype RequestText =
    RequestText(method_: string, uri: string, major: string, minor: string, lines: seq<HeaderLine>)

  predicate IsBlank(c: char) {
    c == ' ' || c == '\t'
  }

  predicate IsToken(s: string) {
    s != "" && forall c | c in s :: IsTokenChar(c)
  }

  predicate IsText(s: string) {
    forall c | c in s :: !IsCtl(c)
  }

  predicate ProperFold(f: Fold) {
    f.blanks != "" && (forall c | c in f.blanks :: IsBlank(c)) && IsText(f.text) && (f.text != "" ==> f.text[0] != ' ')
  }

  predicate ProperLine(l: HeaderLine) {
    IsToken(l.name) && IsText(l.text) && forall f | f in l.folds :: ProperFold(f)
  }

  predicate Proper(d: RequestText) {
    && IsToken(d.method_)
    && IsText(d.uri) && ' ' !in d.uri
    && d.major != "" && AllDigits(d.major)
    && d.minor != "" && AllDigits(d.minor)
    && forall l | l in d.lines :: ProperLine(l)
  }

  // The text each derivation derives.

  function FoldText(f: Fold): string {
    f.blanks + f.text + "\r\n"
  }

  function FoldsText(fs: seq<Fold>): string {
    if fs == [] then "" else FoldText(fs[0]) + FoldsText(fs[1..])
  }

  function HeadText(name: string, text: string): string {
    name + ": " + text + "\r\n"
  }

  function LineText(l: HeaderLine): string {
    HeadText(l.name, l.text) + FoldsText(l.folds)
  }

  function LinesText(ls: seq<HeaderLine>): string {
    if ls == [] then "" else LineText(ls[0]) + LinesText(ls[1..])
  }

  function SectionText(ls: seq<HeaderLine>): string {
    LinesText(ls) + "\r\n"
  }

  function RequestLine(d: RequestText): string {
    d.method_ + " " + d.uri + " HTTP/" + d.major + "." + d.minor + "\r\n"
  }

  function Text(d: RequestText): string {
    RequestLine(d) + SectionText(d.lines)
  }

  // The request each derivation stands for.

  function Folded(value: string, fs: seq<Fold>): string
    decreases |fs|
  {
    if fs == [] then value else Folded(value + fs[0].text, fs[1..])
  }

  function HeaderOf(l: HeaderLine): Header {
    Header(l.name, Folded(l.text, l.folds))
  }

  function HeadersOf(ls: seq<HeaderLine>): (hs: seq<Header>)
    ensures |hs| == |ls|
  {
    if ls == [] then [] else [HeaderOf(ls[0])] + HeadersOf(ls[1..])
  }

  function FieldsOf(d: RequestText): Fields
    requires Proper(d)
  {
    Fields(d.method_, d.uri, Value(d.major), Value(d.minor), HeadersOf(d.lines))
  }

  // ---------------------------------------------------------------- acceptance, by recursion

  /** The request if the machine says good at the last byte of `s` and not before. */
  function Final(m: Config, s: string): Option<Fields>
    requires Coherent(m)
    decreases |s|
  {
    if s == "" then None else
    var (m', result) := Step(m, s[0]);
    if result == GOOD then (if |s| == 1 then Some(m'.req) else None)
    else if result == BAD then None
    else Final(m', s[1..])
  }

  lemma {:induction false} FinalIsFeed(m: Config, s: string)
    requires Coherent(m)
    ensures Final(m, s) == if Accepts(m, s) then Some(Feed(m, s).config.req) else None
    decreases |s|
  {
    if s != "" {
      var (m', result) := Step(m, s[0]);
      if result == INDETERMINATE {
        FinalIsFeed(m', s[1..]);
      }
    }
  }

  // ---------------------------------------------------------------- states that loop

  /** The bytes that leave the state as it is. */
  predicate Absorbs(s: State, c: char) {
    match s
    case METHOD => IsTokenChar(c)
    case URI => !IsCtl(c) && c != ' '
    case HTTP_VERSION_MAJOR => IsDigit(c)
    case HTTP_VERSION_MINOR => IsDigit(c)
    case HEADER_NAME => IsTokenChar(c)
    case HEADER_LWS => IsBlank(c)
    case HEADER_VALUE => !IsCtl(c)
    case _ => false
  }

  predicate AbsorbsAll(s: State, w: string) {
    forall c | c in w :: Absorbs(s, c)
  }

  function AppendedName(hs: seq<Header>, w: string): seq<Header>
    requires hs != []
  {
    hs[|hs| - 1 := Last(hs).(name := Last(hs).name + w)]
  }

  function AppendedValue(hs: seq<Header>, w: string): seq<Header>
    requires hs != []
  {
    hs[|hs| - 1 := Last(hs).(value := Last(hs).value + w)]
  }

  function Digits(n: int, w: string): int
    requires AllDigits(w)
    decreases |w|
  {
    if w == "" then n else Digits(n * 10 + DigitValue(w[0]), w[1..])
  }

  /** What a loop has done after the bytes `w`. */
  function Absorbed(m: Config, w: string): (m': Config)
    requires Coherent(m) && AbsorbsAll(m.state, w)
    ensures Coherent(m') && m'.state == m.state
  {
    var req := m.req;
    match m.state
    case METHOD => m.(req := req.(method_ := req.method_ + w))
    case URI => m.(req := req.(uri := req.uri + w))
    case HTTP_VERSION_MAJOR => m.(req := req.(major := Digits(req.major, w)))
    case HTTP_VERSION_MINOR => m.(req := req.(minor := Digits(req.minor, w)))
    case HEADER_NAME => m.(req := req.(headers := AppendedName(req.headers, w)))
    case HEADER_VALUE => m.(req := req.(headers := AppendedValue(req.headers, w)))
    case _ => m
  }

  lemma AbsorbedNone(m: Config)
    requires Coherent(m)
    ensures Absorbed(m, "") == m
  {
    if InHeader(m.state) {
      assert Last(m.req.headers).name + "" == Last(m.req.headers).name;
      assert Last(m.req.headers).value + "" == Last(m.req.headers).value;
    }
    assert m.req.method_ + "" == m.req.method_ && m.req.uri + "" == m.req.uri;
  }

  lemma AbsorbedCons(m: Config, w: string)
    requires Coherent(m) && w != "" && AbsorbsAll(m.state, w)
    ensures AbsorbsAll(m.state, w[1..])
    ensures var (m', result) := Step(m, w[0]);
            result == INDETERMINATE && m'.state == m.state && Absorbed(m', w[1..]) == Absorbed(m, w)
  {
    assert w[0] in w && w == [w[0]] + w[1..];
    var req := m.req;
    assert req.method_ + [w[0]] + w[1..] == req.method_ + w;
    assert req.uri + [w[0]] + w[1..] == req.uri + w;
    if InHeader(m.state) {
      var h := Last(req.headers);
      assert h.name + [w[0]] + w[1..] == h.name + w;
      assert h.value + [w[0]] + w[1..] == h.value + w;
      assert AppendedName(WithName(req.headers, w[0]), w[1..]) == AppendedName(req.headers, w);
      assert AppendedValue(WithValue(req.headers, w[0]), w[1..]) == AppendedValue(req.headers, w);
    }
  }

  lemma {:induction false} RunLoop(m: Config, w: string, rest: string)
    requires Coherent(m) && AbsorbsAll(m.state, w)
    ensures Final(m, w + rest) == Final(Absorbed(m, w), rest)
    decreases |w|
  {
    hide Step, Absorbed, AbsorbsAll;
    if w == "" {
      assert w + rest == rest;
      AbsorbedNone(m);
    } else {
      assert (w + rest)[0] == w[0] && (w + rest)[1..] == w[1..] + rest;
      AbsorbedCons(m, w);
      RunLoop(Step(m, w[0]).0, w[1..], rest);
    }
  }

  /** Cuts off what a looping state takes. */
  lemma {:induction false} Cut(m: Config, s: string) returns (w: string, rest: string)
    requires Coherent(m) && Final(m, s).Some?
    ensures s == w + rest && AbsorbsAll(m.state, w)
    ensures rest != "" && !Absorbs(m.state, rest[0])
    ensures Final(m, s) == Final(Absorbed(m, w), rest)
  {
    hide Step, Absorbs, Absorbed;
    var n := 0;
    while n < |s| && Absorbs(m.state, s[n])
      invariant 0 <= n <= |s| && AbsorbsAll(m.state, s[..n])
    {
      n := n + 1;
    }
    w, rest := s[..n], s[n..];
    assert s == w + rest;
    RunLoop(m, w, rest);
  }

  lemma FinalStep(m: Config, c: char, rest: string)
    requires Coherent(m)
    ensures Step(m, c).1 == INDETERMINATE ==> Final(m, [c] + rest) == Final(Step(m, c).0, rest)
    ensures Step(m, c).1 == BAD ==> Final(m, [c] + rest) == None
  {
    assert ([c] + rest)[1..] == rest;
  }

  lemma {:induction false} DigitsValue(d: string, w: string)
    requires AllDigits(d) && AllDigits(w)
    ensures AllDigits(d + w) && Digits(Value(d), w) == Value(d + w)
    decreases |w|
  {
    if w == "" {
      assert d + w == d;
    } else {
      ValueSnoc(d, w[0]);
      DigitsValue(d + [w[0]], w[1..]);
      assert d + [w[0]] + w[1..] == d + w;
    }
  }

  // ---------------------------------------------------------------- the header section

  /** The headers after the folded lines `fs` have joined the last one. */
  function WithFolds(hs: seq<Header>, fs: seq<Fold>): seq<Header>
    requires fs != [] ==> hs != []
  {
    if fs == [] then hs else hs[|hs| - 1 := Last(hs).(value := Folded(Last(hs).value, fs))]
  }

  function At(m: Config, state: State, hs: seq<Header>): Config {
    Config(state, m.req.(headers := hs))
  }

  lemma RunLineEnd(m: Config, rest: string)
    requires Coherent(m) && m.state in {HEADER_VALUE, HEADER_LWS}
    ensures Final(m, "\r\n" + rest) == Final(m.(state := HEADER_LINE_START), rest)
  {
    hide Final, Step;
    BreakLetters(rest);
    StepLineEnd(m);
    FinalStep(m, '\r', ['\n'] + rest);
    FinalStep(m.(state := EXPECTING_NEWLINE_2), '\n', rest);
  }

  lemma BreakLetters(rest: string)
    ensures "\r\n" + rest == ['\r'] + (['\n'] + rest)
  {
  }

  lemma StepLineEnd(m: Config)
    requires Coherent(m) && m.state in {HEADER_VALUE, HEADER_LWS}
    ensures Step(m, '\r') == (m.(state := EXPECTING_NEWLINE_2), INDETERMINATE)
    ensures Step(m.(state := EXPECTING_NEWLINE_2), '\n') == (m.(state := HEADER_LINE_START), INDETERMINATE)
  {
  }

  lemma RunValue(m: Config, text: string, rest: string)
    requires Coherent(m) && m.state == HEADER_VALUE && IsText(text)
    ensures Final(m, text + "\r\n" + rest) == Final(At(m, HEADER_LINE_START, AppendedValue(m.req.headers, text)), rest)
  {
    hide Final, Step;
    assert text + "\r\n" + rest == text + ("\r\n" + rest);
    RunLoop(m, text, "\r\n" + rest);
    RunLineEnd(Absorbed(m, text), rest);
  }

  lemma RunFold(m: Config, f: Fold, rest: string)
    requires m.state == HEADER_LINE_START && m.req.headers != [] && ProperFold(f)
    ensures Final(m, FoldText(f) + rest) == Final(At(m, HEADER_LINE_START, WithFolds(m.req.headers, [f])), rest)
  {
    hide Final, Step;
    var tail := f.text + "\r\n" + rest;
    assert f.blanks[0] in f.blanks;
    assert f.blanks + f.text + "\r\n" + rest == [f.blanks[0]] + (f.blanks[1..] + tail);
    FinalStep(m, f.blanks[0], f.blanks[1..] + tail);
    var lws := m.(state := HEADER_LWS);
    StepBlank(m, f.blanks[0]);
    RunLoop(lws, f.blanks[1..], tail);
    var hs := m.req.headers;
    assert Folded(Last(hs).value, [f]) == Folded(Last(hs).value + f.text, [f][1..]) == Last(hs).value + f.text;
    if f.text == "" {
      assert tail == "\r\n" + rest;
      RunLineEnd(lws, rest);
      assert Last(hs).value + "" == Last(hs).value;
      assert WithFolds(hs, [f]) == hs;
    } else {
      assert tail == [f.text[0]] + (f.text[1..] + "\r\n" + rest);
      assert f.text[0] in f.text;
      FinalStep(lws, f.text[0], f.text[1..] + "\r\n" + rest);
      StepFoldText(lws, f.text[0]);
      RunValue(At(m, HEADER_VALUE, WithValue(hs, f.text[0])), f.text[1..], rest);
      assert Last(hs).value + [f.text[0]] + f.text[1..] == Last(hs).value + f.text;
      assert AppendedValue(WithValue(hs, f.text[0]), f.text[1..]) == WithFolds(hs, [f]);
    }
  }

  lemma StepBlank(m: Config, c: char)
    requires m.state == HEADER_LINE_START && m.req.headers != [] && IsBlank(c)
    ensures Step(m, c) == (m.(state := HEADER_LWS), INDETERMINATE)
  {
  }

  lemma StepFoldText(m: Config, c: char)
    requires Coherent(m) && m.state == HEADER_LWS && !IsCtl(c) && c != ' '
    ensures Step(m, c) == (At(m, HEADER_VALUE, WithValue(m.req.headers, c)), INDETERMINATE)
  {
  }

  lemma RunHeader(m: Config, name: string, text: string, rest: string)
    requires m.state == HEADER_LINE_START && IsToken(name) && IsText(text)
    ensures Final(m, HeadText(name, text) + rest) ==
            Final(At(m, HEADER_LINE_START, m.req.headers + [Header(name, text)]), rest)
  {
    hide Final, Step;
    var tail := text + "\r\n" + rest;
    var c := name[0];
    assert c in name;
    assert name + ": " + text + "\r\n" + rest == [c] + (name[1..] + ([':'] + ([' '] + tail)));
    FinalStep(m, c, name[1..] + ([':'] + ([' '] + tail)));
    StepNameStart(m, c);
    var inName := At(m, HEADER_NAME, m.req.headers + [Header([c], "")]);
    RunLoop(inName, name[1..], [':'] + ([' '] + tail));
    var named := Absorbed(inName, name[1..]);
    assert [c] + name[1..] == name;
    assert named.req.headers == m.req.headers + [Header(name, "")];
    StepColon(named);
    FinalStep(named, ':', [' '] + tail);
    FinalStep(named.(state := SPACE_BEFORE_HEADER_VALUE), ' ', tail);
    RunValue(named.(state := HEADER_VALUE), text, rest);
    assert "" + text == text;
    assert AppendedValue(named.req.headers, text) == m.req.headers + [Header(name, text)];
  }

  lemma StepNameStart(m: Config, c: char)
    requires m.state == HEADER_LINE_START && IsTokenChar(c)
    ensures Step(m, c) == (At(m, HEADER_NAME, m.req.headers + [Header([c], "")]), INDETERMINATE)
  {
  }

  lemma StepColon(m: Config)
    requires Coherent(m) && m.state == HEADER_NAME
    ensures Step(m, ':') == (m.(state := SPACE_BEFORE_HEADER_VALUE), INDETERMINATE)
    ensures Step(m.(state := SPACE_BEFORE_HEADER_VALUE), ' ') == (m.(state := HEADER_VALUE), INDETERMINATE)
  {
  }

  lemma RunSectionEnd(m: Config)
    requires m.state == HEADER_LINE_START
    ensures Final(m, "\r\n") == Some(m.req)
  {
    hide Final;
    FinalStep(m, '\r', "\n");
    FinalNewline(m.(state := EXPECTING_NEWLINE_3));
    assert "\r\n" == ['\r'] + "\n";
  }

  lemma FinalNewline(m: Config)
    requires m.state == EXPECTING_NEWLINE_3
    ensures Final(m, "\n") == Some(m.req)
  {
  }

  lemma SectionFold(fs: seq<Fold>, ls: seq<HeaderLine>)
    requires fs != []
    ensures FoldsText(fs) + SectionText(ls) == FoldText(fs[0]) + (FoldsText(fs[1..]) + SectionText(ls))
    ensures FoldText(fs[0]) != ""
  {
    hide SectionText;
  }

  lemma SectionLine(ls: seq<HeaderLine>)
    requires ls != []
    ensures FoldsText([]) + SectionText(ls) ==
            HeadText(ls[0].name, ls[0].text) + (FoldsText(ls[0].folds) + SectionText(ls[1..]))
    ensures HeadText(ls[0].name, ls[0].text) != ""
  {
    assert FoldsText([]) == "";
    assert forall a: string :: "" + a == a;
  }

  lemma SectionEnd()
    ensures FoldsText([]) + SectionText([]) == "\r\n"
  {
  }

  lemma JoinFold(hs: seq<Header>, fs: seq<Fold>)
    requires hs != [] && fs != []
    ensures WithFolds(hs, [fs[0]]) != []
    ensures WithFolds(WithFolds(hs, [fs[0]]), fs[1..]) == WithFolds(hs, fs)
  {
    assert Folded(Last(hs).value, [fs[0]]) == Folded(Last(hs).value + fs[0].text, [fs[0]][1..]);
  }

  lemma JoinLine(hs: seq<Header>, ls: seq<HeaderLine>)
    requires ls != []
    ensures WithFolds(hs + [Header(ls[0].name, ls[0].text)], ls[0].folds) + HeadersOf(ls[1..]) == hs + HeadersOf(ls)
  {
    hide WithFolds, HeaderOf;
    JoinFolds(hs, ls[0]);
    ConcatAssociates(hs, [HeaderOf(ls[0])], HeadersOf(ls[1..]));
    assert HeadersOf(ls) == [HeaderOf(ls[0])] + HeadersOf(ls[1..]);
  }

  lemma JoinFolds(hs: seq<Header>, l: HeaderLine)
    ensures WithFolds(hs + [Header(l.name, l.text)], l.folds) == hs + [HeaderOf(l)]
  {
    if l.folds != [] {
      assert (hs + [Header(l.name, l.text)])[|hs| := HeaderOf(l)] == hs + [HeaderOf(l)];
    }
  }

  /** Completeness for header sections, entered in the middle of a list of headers. */
  lemma {:induction false} RunSection(m: Config, fs: seq<Fold>, ls: seq<HeaderLine>)
    requires m.state == HEADER_LINE_START && (fs != [] ==> m.req.headers != [])
    requires (forall f | f in fs :: ProperFold(f)) && (forall l | l in ls :: ProperLine(l))
    ensures Final(m, FoldsText(fs) + SectionText(ls)) ==
            Some(m.req.(headers := WithFolds(m.req.headers, fs) + HeadersOf(ls)))
    decreases |FoldsText(fs) + SectionText(ls)|
  {
    hide Final, Step, ProperFold, IsToken, IsText, FoldText, FoldsText, HeadText, SectionText, HeadersOf, WithFolds;
    var hs := m.req.headers;
    if fs != [] {
      SectionFold(fs, ls);
      JoinFold(hs, fs);
      RunFold(m, fs[0], FoldsText(fs[1..]) + SectionText(ls));
      RunSection(At(m, HEADER_LINE_START, WithFolds(hs, [fs[0]])), fs[1..], ls);
    } else if ls != [] {
      var l := ls[0];
      assert l in ls && ProperLine(l);
      SectionLine(ls);
      JoinLine(hs, ls);
      RunHeader(m, l.name, l.text, FoldsText(l.folds) + SectionText(ls[1..]));
      NoFolds(hs);
      RunSection(At(m, HEADER_LINE_START, hs + [Header(l.name, l.text)]), l.folds, ls[1..]);
    } else {
      SectionEnd();
      RunSectionEnd(m);
      NoFolds(hs);
    }
  }

  lemma NoFolds(hs: seq<Header>)
    ensures WithFolds(hs, []) == hs && hs + HeadersOf([]) == hs
  {
  }

  lemma ReadLineEnd(m: Config, s: string) returns (rest: string)
    requires Coherent(m) && m.state in {HEADER_VALUE, HEADER_LWS} && Final(m, s).Some?
    requires s != "" && s[0] == '\r'
    ensures s == "\r\n" + rest && Final(m.(state := HEADER_LINE_START), rest).Some?
  {
    var m' := m.(state := EXPECTING_NEWLINE_2);
    assert Final(m', s[1..]) == Final(m, s);
    assert s[1] == '\n';
    rest := s[2..];
    assert s == "\r\n" + rest && s[1..][1..] == rest;
  }

  lemma ReadValue(m: Config, s: string) returns (text: string, rest: string)
    requires Coherent(m) && m.state == HEADER_VALUE && Final(m, s).Some?
    ensures s == text + "\r\n" + rest && IsText(text)
    ensures Final(At(m, HEADER_LINE_START, AppendedValue(m.req.headers, text)), rest).Some?
  {
    var tail;
    text, tail := Cut(m, s);
    assert tail[0] == '\r';
    rest := ReadLineEnd(Absorbed(m, text), tail);
  }

  lemma ReadFold(m: Config, s: string) returns (f: Fold, rest: string)
    requires m.state == HEADER_LINE_START && m.req.headers != [] && s != "" && Final(m, s).Some? && IsBlank(s[0])
    ensures s == FoldText(f) + rest && |rest| < |s| && ProperFold(f)
    ensures Final(At(m, HEADER_LINE_START, WithFolds(m.req.headers, [f])), rest).Some?
  {
    hide Final, Step, FoldText, WithFolds;
    var lws := m.(state := HEADER_LWS);
    StepBlank(m, s[0]);
    assert s == [s[0]] + s[1..];
    FinalStep(m, s[0], s[1..]);
    var w, tail := Cut(lws, s[1..]);
    var blanks := [s[0]] + w;
    assert s == blanks + tail;
    if tail[0] == '\r' {
      rest := ReadLineEnd(lws, tail);
      f := Fold(blanks, "");
      assert tail == f.text + "\r\n" + rest;
    } else {
      StepLwsOther(lws, tail[0]);
      assert tail == [tail[0]] + tail[1..];
      FinalStep(lws, tail[0], tail[1..]);
      var text;
      text, rest := ReadValue(At(m, HEADER_VALUE, WithValue(m.req.headers, tail[0])), tail[1..]);
      f := Fold(blanks, [tail[0]] + text);
      assert tail == f.text + "\r\n" + rest;
    }
    FoldParts(f, rest);
    RunFold(m, f, rest);
  }

  lemma FoldParts(f: Fold, rest: string)
    ensures FoldText(f) + rest == f.blanks + (f.text + "\r\n" + rest)
  {
  }

  lemma StepLwsOther(m: Config, c: char)
    requires Coherent(m) && m.state == HEADER_LWS && !IsBlank(c) && c != '\r'
    ensures Step(m, c) ==
            if IsCtl(c) then (m, BAD) else (At(m, HEADER_VALUE, WithValue(m.req.headers, c)), INDETERMINATE)
  {
  }

  lemma ReadHeader(m: Config, s: string) returns (name: string, text: string, rest: string)
    requires m.state == HEADER_LINE_START && s != "" && Final(m, s).Some? && IsTokenChar(s[0])
    ensures s == HeadText(name, text) + rest && |rest| < |s| && IsToken(name) && IsText(text)
    ensures Final(At(m, HEADER_LINE_START, m.req.headers + [Header(name, text)]), rest).Some?
  {
    hide Final, Step, IsTokenChar;
    assert s == [s[0]] + s[1..];
    StepNameStart(m, s[0]);
    FinalStep(m, s[0], s[1..]);
    var inName := At(m, HEADER_NAME, m.req.headers + [Header([s[0]], "")]);
    var w, tail := Cut(inName, s[1..]);
    name := [s[0]] + w;
    var named := Absorbed(inName, w);
    var value := ReadColon(named, tail);
    text, rest := ReadValue(named.(state := HEADER_VALUE), value);
    assert s == name + ": " + text + "\r\n" + rest;
    RunHeader(m, name, text, rest);
  }

  lemma ReadColon(m: Config, s: string) returns (rest: string)
    requires Coherent(m) && m.state == HEADER_NAME && Final(m, s).Some? && !IsTokenChar(s[0])
    ensures s == ": " + rest && Final(m.(state := HEADER_VALUE), rest).Some?
  {
    assert s[0] == ':';
    var m' := m.(state := SPACE_BEFORE_HEADER_VALUE);
    assert Final(m', s[1..]) == Final(m, s);
    assert s[1] == ' ';
    rest := s[2..];
    assert s[1..][1..] == rest;
  }

  lemma ReadSectionEnd(m: Config, s: string)
    requires m.state == HEADER_LINE_START && Final(m, s).Some?
    requires s[0] == '\r' || !((m.req.headers != [] && IsBlank(s[0])) || IsTokenChar(s[0]))
    ensures s == "\r\n"
  {
    assert s[0] == '\r';
    var m' := m.(state := EXPECTING_NEWLINE_3);
    assert Final(m', s[1..]) == Final(m, s);
  }

  /** Soundness for header sections: what is accepted has a derivation. */
  lemma {:induction false} ReadSection(m: Config, s: string) returns (fs: seq<Fold>, ls: seq<HeaderLine>)
    requires m.state == HEADER_LINE_START && Final(m, s).Some?
    ensures s == FoldsText(fs) + SectionText(ls) && (fs != [] ==> m.req.headers != [])
    ensures (forall f | f in fs :: ProperFold(f)) && (forall l | l in ls :: ProperLine(l))
    decreases |s|
  {
    hide Step, ProperFold, IsToken, IsText, IsTokenChar, FoldText, FoldsText, HeadText, SectionText, WithFolds;
    FinalNotEmpty(m, s);
    var hs := m.req.headers;
    if s[0] != '\r' && hs != [] && IsBlank(s[0]) {
      var f, rest := ReadFold(m, s);
      var fs', ls' := ReadSection(At(m, HEADER_LINE_START, WithFolds(hs, [f])), rest);
      fs, ls := [f] + fs', ls';
      assert fs[1..] == fs';
      SectionFold(fs, ls);
    } else if s[0] != '\r' && IsTokenChar(s[0]) {
      var name, text, rest := ReadHeader(m, s);
      var fs', ls' := ReadSection(At(m, HEADER_LINE_START, hs + [Header(name, text)]), rest);
      fs, ls := [], [HeaderLine(name, text, fs')] + ls';
      assert ls[1..] == ls';
      SectionLine(ls);
    } else {
      ReadSectionEnd(m, s);
      fs, ls := [], [];
      SectionEnd();
    }
  }

  // ---------------------------------------------------------------- the request line

  function Fresh(major: int, minor: int): Config {
    Config(METHOD_START, Fields("", "", major, minor, []))
  }

  lemma RunHttp(m: Config, rest: string)
    requires m.state == HTTP_VERSION_H
    ensures Final(m, "HTTP/" + rest) ==
            Final(Config(HTTP_VERSION_MAJOR_START, m.req.(major := 0, minor := 0)), rest)
  {
    hide Final, Step;
    var r4 := ['/'] + rest;
    var r3 := ['P'] + r4;
    var r2 := ['T'] + r3;
    HttpLetters(rest);
    StepHttp(m);
    FinalStep(m, 'H', ['T'] + r2);
    FinalStep(m.(state := HTTP_VERSION_T_1), 'T', r2);
    FinalStep(m.(state := HTTP_VERSION_T_2), 'T', r3);
    FinalStep(m.(state := HTTP_VERSION_P), 'P', r4);
    FinalStep(m.(state := HTTP_VERSION_SLASH), '/', rest);
  }

  lemma HttpLetters(rest: string)
    ensures "HTTP/" + rest == ['H'] + (['T'] + (['T'] + (['P'] + (['/'] + rest))))
  {
  }

  lemma StepHttp(m: Config)
    requires m.state == HTTP_VERSION_H
    ensures Step(m, 'H') == (m.(state := HTTP_VERSION_T_1), INDETERMINATE)
    ensures Step(m.(state := HTTP_VERSION_T_1), 'T') == (m.(state := HTTP_VERSION_T_2), INDETERMINATE)
    ensures Step(m.(state := HTTP_VERSION_T_2), 'T') == (m.(state := HTTP_VERSION_P), INDETERMINATE)
    ensures Step(m.(state := HTTP_VERSION_P), 'P') == (m.(state := HTTP_VERSION_SLASH), INDETERMINATE)
    ensures Step(m.(state := HTTP_VERSION_SLASH), '/') ==
            (Config(HTTP_VERSION_MAJOR_START, m.req.(major := 0, minor := 0)), INDETERMINATE)
  {
  }

  lemma RunMethod(m: Config, method_: string, rest: string)
    requires m.state == METHOD_START && IsToken(method_)
    ensures Final(m, method_ + " " + rest) == Final(Config(URI, m.req.(method_ := m.req.method_ + method_)), rest)
  {
    hide Final;
    assert method_[0] in method_;
    assert method_ + " " + rest == [method_[0]] + (method_[1..] + ([' '] + rest));
    FinalStep(m, method_[0], method_[1..] + ([' '] + rest));
    var m' := Config(METHOD, m.req.(method_ := m.req.method_ + [method_[0]]));
    RunLoop(m', method_[1..], [' '] + rest);
    assert m.req.method_ + [method_[0]] + method_[1..] == m.req.method_ + method_;
    FinalStep(Absorbed(m', method_[1..]), ' ', rest);
  }

  lemma RunUri(m: Config, uri: string, rest: string)
    requires m.state == URI && IsText(uri) && ' ' !in uri
    ensures Final(m, uri + " " + rest) == Final(Config(HTTP_VERSION_H, m.req.(uri := m.req.uri + uri)), rest)
  {
    hide Final;
    assert uri + " " + rest == uri + ([' '] + rest);
    RunLoop(m, uri, [' '] + rest);
    FinalStep(Absorbed(m, uri), ' ', rest);
  }

  lemma DigitsFromZero(d: string)
    requires d != "" && AllDigits(d)
    ensures Digits(DigitValue(d[0]), d[1..]) == Value(d)
  {
    assert [d[0]][..0] == "" && Value([d[0]]) == DigitValue(d[0]);
    DigitsValue([d[0]], d[1..]);
    assert [d[0]] + d[1..] == d;
  }

  lemma RunMajor(m: Config, major: string, rest: string)
    requires m.state == HTTP_VERSION_MAJOR_START && m.req.major == 0 && major != "" && AllDigits(major)
    ensures Final(m, major + "." + rest) == Final(Config(HTTP_VERSION_MINOR_START, m.req.(major := Value(major))), rest)
  {
    hide Final;
    assert major + "." + rest == [major[0]] + (major[1..] + (['.'] + rest));
    FinalStep(m, major[0], major[1..] + (['.'] + rest));
    var m' := Config(HTTP_VERSION_MAJOR, m.req.(major := DigitValue(major[0])));
    RunLoop(m', major[1..], ['.'] + rest);
    DigitsFromZero(major);
    FinalStep(Absorbed(m', major[1..]), '.', rest);
  }

  lemma RunMinor(m: Config, minor: string, rest: string)
    requires m.state == HTTP_VERSION_MINOR_START && m.req.minor == 0 && minor != "" && AllDigits(minor)
    ensures Final(m, minor + "\r\n" + rest) == Final(Config(HEADER_LINE_START, m.req.(minor := Value(minor))), rest)
  {
    hide Final;
    var tail := ['\r'] + (['\n'] + rest);
    assert minor + "\r\n" + rest == [minor[0]] + (minor[1..] + tail);
    FinalStep(m, minor[0], minor[1..] + tail);
    var m' := Config(HTTP_VERSION_MINOR, m.req.(minor := DigitValue(minor[0])));
    RunLoop(m', minor[1..], tail);
    DigitsFromZero(minor);
    var m2 := Absorbed(m', minor[1..]);
    FinalStep(m2, '\r', ['\n'] + rest);
    FinalStep(m2.(state := EXPECTING_NEWLINE_1), '\n', rest);
  }

  /**
   What a parser in its first state makes of a request that already holds `r`: method and URI
   are added to those that are there, the versions are read anew, and the headers follow the old
   ones, the last of which the lines `fs` in front of the first header continue.
   */
  function Joined(r: Fields, fs: seq<Fold>, d: RequestText): Fields
    requires Proper(d) && (fs != [] ==> r.headers != [])
  {
    Fields(r.method_ + d.method_, r.uri + d.uri, Value(d.major), Value(d.minor),
           WithFolds(r.headers, fs) + HeadersOf(d.lines))
  }

  ghost predicate ProperFolds(r: Fields, fs: seq<Fold>) {
    (fs != [] ==> r.headers != []) && forall f | f in fs :: ProperFold(f)
  }

  /** Where the parser stands behind a request line: method and URI added, versions read anew. */
  function BehindLine(r: Fields, d: RequestText): Config
    requires Proper(d)
  {
    Config(HEADER_LINE_START, Fields(r.method_ + d.method_, r.uri + d.uri, Value(d.major), Value(d.minor), r.headers))
  }

  lemma RunLine(r: Fields, d: RequestText, rest: string)
    requires Proper(d)
    ensures Final(Config(METHOD_START, r), RequestLine(d) + rest) == Final(BehindLine(r, d), rest)
  {
    hide Final, Step, IsToken, IsText, ProperLine, RequestLine, Value;
    var r4 := d.minor + "\r\n" + rest;
    var r3 := d.major + "." + r4;
    var r2 := "HTTP/" + r3;
    var r1 := d.uri + " " + r2;
    LineParts(d, rest);
    RunMethod(Config(METHOD_START, r), d.method_, r1);
    var named := r.(method_ := r.method_ + d.method_);
    RunUri(Config(URI, named), d.uri, r2);
    var addressed := named.(uri := r.uri + d.uri);
    RunHttp(Config(HTTP_VERSION_H, addressed), r3);
    RunMajor(Config(HTTP_VERSION_MAJOR_START, addressed.(major := 0, minor := 0)), d.major, r4);
    RunMinor(Config(HTTP_VERSION_MINOR_START, addressed.(major := Value(d.major), minor := 0)), d.minor, rest);
  }

  /** Completeness: every text of the grammar is accepted with the fields it stands for. */
  lemma TextsAreJoined(r: Fields, fs: seq<Fold>, d: RequestText)
    requires Proper(d) && ProperFolds(r, fs)
    ensures Final(Config(METHOD_START, r), RequestLine(d) + (FoldsText(fs) + SectionText(d.lines))) ==
            Some(Joined(r, fs, d))
  {
    hide Final, Step, IsToken, IsText, ProperLine, ProperFold, RequestLine, SectionText, FoldsText, HeadersOf,
      WithFolds, Value;
    RunLine(r, d, FoldsText(fs) + SectionText(d.lines));
    RunSection(BehindLine(r, d), fs, d.lines);
  }

  lemma NothingBefore(ls: seq<HeaderLine>)
    ensures FoldsText([]) + SectionText(ls) == SectionText(ls)
    ensures WithFolds([], []) + HeadersOf(ls) == HeadersOf(ls)
  {
    hide SectionText, HeadersOf;
    assert "" + SectionText(ls) == SectionText(ls);
  }

  /** For a new request, and in front of no folded lines, that is what the derivation stands for. */
  lemma JoinedNew(d: RequestText, major: int, minor: int)
    requires Proper(d)
    ensures Joined(Fresh(major, minor).req, [], d) == FieldsOf(d)
    ensures RequestLine(d) + (FoldsText([]) + SectionText(d.lines)) == Text(d)
  {
    hide RequestLine, SectionText, FoldsText, HeadersOf, WithFolds, Value;
    NothingBefore(d.lines);
    assert "" + d.method_ == d.method_ && "" + d.uri == d.uri;
  }

  lemma TextsAreAccepted(d: RequestText, major: int, minor: int)
    requires Proper(d)
    ensures Final(Fresh(major, minor), Text(d)) == Some(FieldsOf(d))
  {
    hide Final, Proper, Text, FieldsOf, Joined, RequestLine, SectionText, FoldsText;
    TextsAreJoined(Fresh(major, minor).req, [], d);
    JoinedNew(d, major, minor);
  }

  lemma LineParts(d: RequestText, section: string)
    ensures RequestLine(d) + section ==
            d.method_ + " " + (d.uri + " " + ("HTTP/" + (d.major + "." + (d.minor + "\r\n" + section))))
  {
    assert RequestLine(d) + section ==
           d.method_ + " " + (d.uri + " HTTP/" + d.major + "." + d.minor + "\r\n" + section);
    UriLetters(d.uri, d.major, d.minor + "\r\n" + section);
    assert d.uri + " HTTP/" + d.major + "." + d.minor + "\r\n" + section ==
           d.uri + " HTTP/" + d.major + "." + (d.minor + "\r\n" + section);
  }

  lemma UriLetters(uri: string, major: string, rest: string)
    ensures uri + " HTTP/" + major + "." + rest == uri + " " + ("HTTP/" + (major + "." + rest))
  {
  }

  lemma ReadMethod(m: Config, s: string) returns (method_: string, rest: string)
    requires m.state == METHOD_START && Final(m, s).Some?
    ensures s == method_ + " " + rest && IsToken(method_)
    ensures Final(Config(URI, m.req.(method_ := m.req.method_ + method_)), rest).Some?
  {
    var m' := Config(METHOD, m.req.(method_ := m.req.method_ + [s[0]]));
    assert Final(m, s) == Final(m', s[1..]);
    var w, tail := Cut(m', s[1..]);
    assert tail[0] == ' ';
    method_, rest := [s[0]] + w, tail[1..];
    assert s == method_ + " " + rest;
    RunMethod(m, method_, rest);
  }

  lemma ReadUri(m: Config, s: string) returns (uri: string, rest: string)
    requires m.state == URI && Final(m, s).Some?
    ensures s == uri + " " + rest && IsText(uri) && ' ' !in uri
    ensures Final(Config(HTTP_VERSION_H, m.req.(uri := m.req.uri + uri)), rest).Some?
  {
    var tail;
    uri, tail := Cut(m, s);
    assert tail[0] == ' ';
    rest := tail[1..];
    assert s == uri + " " + rest;
    RunUri(m, uri, rest);
  }

  lemma ReadLetter(m: Config, s: string, wanted: char, next: State)
    requires Coherent(m) && Final(m, s).Some? && Step(m, s[0]) == Expect(m, s[0], wanted, next) && s != ""
    ensures s[0] == wanted && (Coherent(m.(state := next)) ==> Final(m.(state := next), s[1..]).Some?)
  {
  }

  lemma ReadHttp(m: Config, s: string) returns (rest: string)
    requires m.state == HTTP_VERSION_H && Final(m, s).Some?
    ensures s == "HTTP/" + rest
    ensures Final(Config(HTTP_VERSION_MAJOR_START, m.req.(major := 0, minor := 0)), rest).Some?
  {
    hide Final;
    FinalNotEmpty(m, s);
    ReadLetter(m, s, 'H', HTTP_VERSION_T_1);
    FinalNotEmpty(m.(state := HTTP_VERSION_T_1), s[1..]);
    ReadLetter(m.(state := HTTP_VERSION_T_1), s[1..], 'T', HTTP_VERSION_T_2);
    FinalNotEmpty(m.(state := HTTP_VERSION_T_2), s[1..][1..]);
    ReadLetter(m.(state := HTTP_VERSION_T_2), s[1..][1..], 'T', HTTP_VERSION_P);
    FinalNotEmpty(m.(state := HTTP_VERSION_P), s[1..][1..][1..]);
    ReadLetter(m.(state := HTTP_VERSION_P), s[1..][1..][1..], 'P', HTTP_VERSION_SLASH);
    var t := s[1..][1..][1..][1..];
    var slash := m.(state := HTTP_VERSION_SLASH);
    FinalNotEmpty(slash, t);
    assert t == [t[0]] + t[1..];
    FinalStep(slash, t[0], t[1..]);
    rest := t[1..];
    assert s == "HTTP/" + rest;
    RunHttp(m, rest);
  }

  lemma FinalNotEmpty(m: Config, s: string)
    requires Coherent(m) && Final(m, s).Some?
    ensures s != ""
  {
  }

  lemma ReadMajor(m: Config, s: string) returns (major: string, rest: string)
    requires m.state == HTTP_VERSION_MAJOR_START && m.req.major == 0 && Final(m, s).Some?
    ensures s == major + "." + rest && major != "" && AllDigits(major)
    ensures Final(Config(HTTP_VERSION_MINOR_START, m.req.(major := Value(major))), rest).Some?
  {
    var m' := Config(HTTP_VERSION_MAJOR, m.req.(major := DigitValue(s[0])));
    assert Final(m, s) == Final(m', s[1..]);
    var w, tail := Cut(m', s[1..]);
    assert tail[0] == '.';
    major, rest := [s[0]] + w, tail[1..];
    assert s == major + "." + rest;
    RunMajor(m, major, rest);
  }

  lemma ReadMinor(m: Config, s: string) returns (minor: string, rest: string)
    requires m.state == HTTP_VERSION_MINOR_START && m.req.minor == 0 && Final(m, s).Some?
    ensures s == minor + "\r\n" + rest && minor != "" && AllDigits(minor)
    ensures Final(Config(HEADER_LINE_START, m.req.(minor := Value(minor))), rest).Some?
  {
    var m' := Config(HTTP_VERSION_MINOR, m.req.(minor := DigitValue(s[0])));
    assert Final(m, s) == Final(m', s[1..]);
    var w, tail := Cut(m', s[1..]);
    assert tail[0] == '\r';
    var m2 := Absorbed(m', w).(state := EXPECTING_NEWLINE_1);
    assert Final(m2, tail[1..]).Some?;
    assert tail[1] == '\n';
    minor, rest := [s[0]] + w, tail[2..];
    assert s == minor + "\r\n" + rest;
    RunMinor(m, minor, rest);
  }

  /** Soundness: every accepted text has a derivation, whatever the request held. */
  lemma ReadJoined(r: Fields, s: string) returns (fs: seq<Fold>, d: RequestText)
    requires Final(Config(METHOD_START, r), s).Some?
    ensures Proper(d) && ProperFolds(r, fs) && s == RequestLine(d) + (FoldsText(fs) + SectionText(d.lines))
  {
    hide Final, Step, IsToken, IsText, ProperLine, ProperFold, RequestLine, SectionText, FoldsText, Value;
    var method_, r1 := ReadMethod(Config(METHOD_START, r), s);
    var named := r.(method_ := r.method_ + method_);
    var uri, r2 := ReadUri(Config(URI, named), r1);
    var addressed := named.(uri := r.uri + uri);
    var r3 := ReadHttp(Config(HTTP_VERSION_H, addressed), r2);
    var high, r4 := ReadMajor(Config(HTTP_VERSION_MAJOR_START, addressed.(major := 0, minor := 0)), r3);
    var low, r5 := ReadMinor(Config(HTTP_VERSION_MINOR_START, addressed.(major := Value(high), minor := 0)), r4);
    var ls;
    fs, ls := ReadSection(Config(HEADER_LINE_START, addressed.(major := Value(high), minor := Value(low))), r5);
    d := RequestText(method_, uri, high, low, ls);
    LineParts(d, r5);
  }

  lemma ReadText(major: int, minor: int, s: string) returns (d: RequestText)
    requires Final(Fresh(major, minor), s).Some?
    ensures Proper(d) && s == Text(d)
  {
    hide Final, Proper, Text, RequestLine, SectionText, FoldsText;
    var fs;
    fs, d := ReadJoined(Fresh(major, minor).req, s);
    JoinedNew(d, major, minor);
  }

  ghost predicate DerivedBy(s: string, r: Fields, d: RequestText) {
    Proper(d) && s == Text(d) && r == FieldsOf(d)
  }

  /**
   The exact language of the parser. Whatever the version fields held, `parse` on a new parser
   and request returns good after `n` bytes with request `r` exactly when the first `n` bytes
   are a text of the grammar that stands for `r`.
   */
  lemma ExactLanguage(major: int, minor: int, s: string, n: nat, r: Fields)
    requires n <= |s|
    ensures var f := Feed(Fresh(major, minor), s);
            (f.result == GOOD && f.consumed == n && f.config.req == r) <==>
            (exists d: RequestText :: DerivedBy(s[..n], r, d))
  {
    hide Final, Feed, Proper, Text, FieldsOf;
    var m := Fresh(major, minor);
    GoodIffPrefixAccepted(m, s, n);
    FinalIsFeed(m, s[..n]);
    if Accepts(m, s[..n]) {
      var d := ReadText(major, minor, s[..n]);
      TextsAreAccepted(d, major, minor);
      assert DerivedBy(s[..n], FieldsOf(d), d);
    }
    forall d: RequestText | DerivedBy(s[..n], r, d)
      ensures Accepts(m, s[..n]) && Feed(m, s[..n]).config.req == r
    {
      TextsAreAccepted(d, major, minor);
    }
  }

  // ---------------------------------------------------------------- a parser that was reset

  ghost predicate JoinedBy(s: string, before: Fields, r: Fields, fs: seq<Fold>, d: RequestText) {
    && Proper(d) && ProperFolds(before, fs)
    && s == RequestLine(d) + (FoldsText(fs) + SectionText(d.lines)) && r == Joined(before, fs, d)
  }

  /**
   `reset` does not touch the request. After it, `parse` on a request that still holds `before`
   returns good after `n` bytes with request `r` exactly when the first `n` bytes are a text of
   the grammar, possibly with folded lines in front of its headers, joined to `before`.
   */
  lemma ResetLanguage(before: Fields, s: string, n: nat, r: Fields)
    requires n <= |s|
    ensures var f := Feed(Config(METHOD_START, before), s);
            (f.result == GOOD && f.consumed == n && f.config.req == r) <==>
            (exists fs: seq<Fold>, d: RequestText :: JoinedBy(s[..n], before, r, fs, d))
  {
    hide Final, Feed, Proper, ProperFolds, RequestLine, FoldsText, SectionText, Joined;
    var m := Config(METHOD_START, before);
    GoodIffPrefixAccepted(m, s, n);
    FinalIsFeed(m, s[..n]);
    if Accepts(m, s[..n]) {
      var fs, d := ReadJoined(before, s[..n]);
      TextsAreJoined(before, fs, d);
      assert JoinedBy(s[..n], before, Feed(m, s[..n]).config.req, fs, d);
    }
    forall fs: seq<Fold>, d: RequestText | JoinedBy(s[..n], before, r, fs, d)
      ensures Accepts(m, s[..n]) && Feed(m, s[..n]).config.req == r
    {
      TextsAreJoined(before, fs, d);
    }
  }

  /** Parsing again after a reset, in the terms of the object. */
  method ParseAfterReset(parser: Parser, req: Request, input: string) returns (result: Result, next: nat)
    modifies parser, req
    ensures next <= |input|
    ensures result == GOOD <==>
            exists fs: seq<Fold>, d: RequestText :: JoinedBy(input[..next], old(req.View()), req.View(), fs, d)
  {
    hide Feed, JoinedBy;
    ghost var before := req.View();
    parser.Reset();
    assert input[0..|input|] == input;
    result, next := parser.Parse(req, input, 0, |input|);
    ResetLanguage(before, input, next, req.View());
  }

  // ---------------------------------------------------------------- version numbers

  /** Every intermediate result of the digit loop, before `- '0'`, fits a 32-bit `int`. */
  predicate NoOverflow(d: string)
    requires AllDigits(d)
    decreases |d|
  {
    d == "" ||
    var n := |d| - 1;
    NoOverflow(d[..n]) && Value(d[..n]) * 10 + d[n] as int <= INT_MAX
  }

  /** The loop stays within `int` exactly when the number is at least 48 below the largest one. */
  lemma {:induction false} NoOverflowExactly(d: string)
    requires d != "" && AllDigits(d)
    ensures NoOverflow(d) <==> Value(d) + 48 <= INT_MAX
    decreases |d|
  {
    var n := |d| - 1;
    assert Value(d) == Value(d[..n]) * 10 + DigitValue(d[n]);
    if n > 0 {
      NoOverflowExactly(d[..n]);
    }
  }

  /** Up to nine digits never overflow, and stay below the power of ten of their number. */
  lemma NineDigitsFit(d: string)
    requires d != "" && AllDigits(d) && |d| <= 9
    ensures NoOverflow(d) && Value(d) < Pow10(|d|)
  {
    ValueBound(d);
    assert Pow10(|d|) <= 1_000_000_000 by {
      Pow10Monotone(|d|, 9);
      assert Pow10(9) == 1_000_000_000;
    }
    NoOverflowExactly(d);
  }

  lemma {:induction false} Pow10Monotone(a: nat, b: nat)
    requires a <= b
    ensures Pow10(a) <= Pow10(b)
    decreases b - a
  {
    if a < b {
      Pow10Monotone(a + 1, b);
      assert Pow10(a + 1) == 10 * Pow10(a);
    }
  }
}

/** The incremental HTTP request parser: one byte at a time through twenty states. */
module RequestParser {
  import opened Sequences
  import opened Decimal

  datatype Header = Header(name: string, value: string)

  /** The fields of a request, as a value. */
  datatype Fields = Fields(method_: string, uri: string, major: int, minor: int, headers: seq<Header>)

  datatype State =
    | METHOD_START | METHOD | URI
    | HTTP_VERSION_H | HTTP_VERSION_T_1 | HTTP_VERSION_T_2 | HTTP_VERSION_P | HTTP_VERSION_SLASH
    | HTTP_VERSION_MAJOR_START | HTTP_VERSION_MAJOR | HTTP_VERSION_MINOR_START | HTTP_VERSION_MINOR
    | EXPECTING_NEWLINE_1 | HEADER_LINE_START | HEADER_LWS | HEADER_NAME
    | SPACE_BEFORE_HEADER_VALUE | HEADER_VALUE | EXPECTING_NEWLINE_2 | EXPECTING_NEWLINE_3

  datatype Result = GOOD | BAD | INDETERMINATE

  // Section 2.2 of RFC 1945. Bytes above 127 are negative or large as `int`; here they are
  // characters above 127, which fail the same tests.
  predicate IsChar(c: char) {
    0 <= c as int <= 127
  }

  predicate IsCtl(c: char) {
    c as int <= 31 || c as int == 127
  }

  predicate IsTspecial(c: char) {
    c in {'(', ')', '<', '>', '@', ',', ';', ':', '\\', '"', '/', '[', ']', '?', '=', '{', '}', ' ', '\t'}
  }

  predicate IsTokenChar(c: char) {
    IsChar(c) && !IsCtl(c) && !IsTspecial(c)
  }

  /** The parser state together with the request it is filling. */
  datatype Config = Config(state: State, req: Fields)

  /** States in which the request has at least one header, the one being read. */
  predicate InHeader(s: State) {
    s in {HEADER_LWS, HEADER_NAME, SPACE_BEFORE_HEADER_VALUE, HEADER_VALUE, EXPECTING_NEWLINE_2}
  }

  predicate Coherent(c: Config) {
    InHeader(c.state) ==> c.req.headers != []
  }

  function WithName(hs: seq<Header>, c: char): seq<Header>
    requires hs != []
  {
    hs[|hs| - 1 := Last(hs).(name := Last(hs).name + [c])]
  }

  function WithValue(hs: seq<Header>, c: char): seq<Header>
    requires hs != []
  {
    hs[|hs| - 1 := Last(hs).(value := Last(hs).value + [c])]
  }

  function Expect(m: Config, seen: char, wanted: char, next: State): (Config, Result) {
    if seen == wanted then (m.(state := next), INDETERMINATE) else (m, BAD)
  }

  /** One step of the machine. */
  function Step(m: Config, c: char): (r: (Config, Result))
    requires Coherent(m)
    ensures Coherent(r.0)
  {
    var req := m.req;
    match m.state
    case METHOD_START =>
      if !IsTokenChar(c) then (m, BAD)
      else (Config(METHOD, req.(method_ := req.method_ + [c])), INDETERMINATE)
    case METHOD =>
      if c == ' ' then (m.(state := URI), INDETERMINATE)
      else if !IsTokenChar(c) then (m, BAD)
      else (m.(req := req.(method_ := req.method_ + [c])), INDETERMINATE)
    case URI =>
      if c == ' ' then (m.(state := HTTP_VERSION_H), INDETERMINATE)
      else if IsCtl(c) then (m, BAD)
      else (m.(req := req.(uri := req.uri + [c])), INDETERMINATE)
    case HTTP_VERSION_H => Expect(m, c, 'H', HTTP_VERSION_T_1)
    case HTTP_VERSION_T_1 => Expect(m, c, 'T', HTTP_VERSION_T_2)
    case HTTP_VERSION_T_2 => Expect(m, c, 'T', HTTP_VERSION_P)
    case HTTP_VERSION_P => Expect(m, c, 'P', HTTP_VERSION_SLASH)
    case HTTP_VERSION_SLASH =>
      if c == '/' then (Config(HTTP_VERSION_MAJOR_START, req.(major := 0, minor := 0)), INDETERMINATE)
      else (m, BAD)
    case HTTP_VERSION_MAJOR_START =>
      if IsDigit(c) then (Config(HTTP_VERSION_MAJOR, req.(major := req.major * 10 + DigitValue(c))), INDETERMINATE)
      else (m, BAD)
    case HTTP_VERSION_MAJOR =>
      if c == '.' then (m.(state := HTTP_VERSION_MINOR_START), INDETERMINATE)
      else if IsDigit(c) then (m.(req := req.(major := req.major * 10 + DigitValue(c))), INDETERMINATE)
      else (m, BAD)
    case HTTP_VERSION_MINOR_START =>
      if IsDigit(c) then (Config(HTTP_VERSION_MINOR, req.(minor := req.minor * 10 + DigitValue(c))), INDETERMINATE)
      else (m, BAD)
    case HTTP_VERSION_MINOR =>
      if c == '\r' then (m.(state := EXPECTING_NEWLINE_1), INDETERMINATE)
      else if IsDigit(c) then (m.(req := req.(minor := req.minor * 10 + DigitValue(c))), INDETERMINATE)
      else (m, BAD)
    case EXPECTING_NEWLINE_1 => Expect(m, c, '\n', HEADER_LINE_START)
    case HEADER_LINE_START =>
      if c == '\r' then (m.(state := EXPECTING_NEWLINE_3), INDETERMINATE)
      else if req.headers != [] && (c == ' ' || c == '\t') then (m.(state := HEADER_LWS), INDETERMINATE)
      else if !IsTokenChar(c) then (m, BAD)
      else (Config(HEADER_NAME, req.(headers := req.headers + [Header([c], "")])), INDETERMINATE)
    case HEADER_LWS =>
      if c == '\r' then (m.(state := EXPECTING_NEWLINE_2), INDETERMINATE)
      else if c == ' ' || c == '\t' then (m, INDETERMINATE)
      else if IsCtl(c) then (m, BAD)
      else (Config(HEADER_VALUE, req.(headers := WithValue(req.headers, c))), INDETERMINATE)
    case HEADER_NAME =>
      if c == ':' then (m.(state := SPACE_BEFORE_HEADER_VALUE), INDETERMINATE)
      else if !IsTokenChar(c) then (m, BAD)
      else (m.(req := req.(headers := WithName(req.headers, c))), INDETERMINATE)
    case SPACE_BEFORE_HEADER_VALUE => Expect(m, c, ' ', HEADER_VALUE)
    case HEADER_VALUE =>
      if c == '\r' then (m.(state := EXPECTING_NEWLINE_2), INDETERMINATE)
      else if IsCtl(c) then (m, BAD)
      else (m.(req := req.(headers := WithValue(req.headers, c))), INDETERMINATE)
    case EXPECTING_NEWLINE_2 => Expect(m, c, '\n', HEADER_LINE_START)
    case EXPECTING_NEWLINE_3 => (m, if c == '\n' then GOOD else BAD)
  }

  /** What `parse` makes of an input: the result, the new configuration, the bytes consumed. */
  datatype Fed = Fed(result: Result, config: Config, consumed: nat)

  function Feed(m: Config, s: string): (f: Fed)
    requires Coherent(m)
    ensures Coherent(f.config)
    ensures f.consumed <= |s|
    ensures f.result == INDETERMINATE ==> f.consumed == |s|
    ensures f.result != INDETERMINATE ==> 0 < f.consumed
    decreases |s|
  {
    if s == "" then Fed(INDETERMINATE, m, 0) else
    var (m', result) := Step(m, s[0]);
    if result != INDETERMINATE then Fed(result, m', 1) else
    var f := Feed(m', s[1..]);
    f.(consumed := f.consumed + 1)
  }

  // ---------------------------------------------------------------- chunks

  function Flatten(chunks: seq<string>): string {
    if chunks == [] then "" else chunks[0] + Flatten(chunks[1..])
  }

  /** Feeding piece after piece to one parser, stopping at the first definite result. */
  function FeedChunks(m: Config, chunks: seq<string>): Fed
    requires Coherent(m)
    decreases |chunks|
  {
    if chunks == [] then Fed(INDETERMINATE, m, 0) else
    var f := Feed(m, chunks[0]);
    if f.result != INDETERMINATE then f else
    var g := FeedChunks(f.config, chunks[1..]);
    g.(consumed := f.consumed + g.consumed)
  }

  lemma {:induction false} FeedConcat(m: Config, a: string, b: string)
    requires Coherent(m)
    ensures var f := Feed(m, a);
            Feed(m, a + b) ==
              if f.result != INDETERMINATE then f
              else var g := Feed(f.config, b); g.(consumed := |a| + g.consumed)
    decreases |a|
  {
    if a == "" {
      assert a + b == b;
    } else {
      assert (a + b)[0] == a[0] && (a + b)[1..] == a[1..] + b;
      var (m', result) := Step(m, a[0]);
      if result == INDETERMINATE {
        FeedConcat(m', a[1..], b);
      }
    }
  }

  /** How the input is cut into pieces makes no difference. */
  lemma {:induction false} ChunkIndependence(m: Config, chunks: seq<string>)
    requires Coherent(m)
    ensures FeedChunks(m, chunks) == Feed(m, Flatten(chunks))
    decreases |chunks|
  {
    if chunks != [] {
      FeedConcat(m, chunks[0], Flatten(chunks[1..]));
      if Feed(m, chunks[0]).result == INDETERMINATE {
        ChunkIndependence(Feed(m, chunks[0]).config, chunks[1..]);
      }
    }
  }

  /** The whole of `s`, and no shorter prefix, is accepted. */
  predicate Accepts(m: Config, s: string)
    requires Coherent(m)
  {
    Feed(m, s).result == GOOD && Feed(m, s).consumed == |s|
  }

  lemma {:induction false} ConsumedPrefix(m: Config, s: string)
    requires Coherent(m) && Feed(m, s).result != INDETERMINATE
    ensures var f := Feed(m, s); Feed(m, s[..f.consumed]) == f
    decreases |s|
  {
    var (m', result) := Step(m, s[0]);
    if result == INDETERMINATE {
      ConsumedPrefix(m', s[1..]);
      var n := Feed(m', s[1..]).consumed;
      assert s[..n + 1][1..] == s[1..][..n];
    }
  }

  /** `parse` returns good after `n` bytes exactly when the first `n` bytes are accepted. */
  lemma GoodIffPrefixAccepted(m: Config, s: string, n: nat)
    requires Coherent(m) && n <= |s|
    ensures Feed(m, s).result == GOOD && Feed(m, s).consumed == n <==> Accepts(m, s[..n])
    ensures Accepts(m, s[..n]) ==> Feed(m, s) == Feed(m, s[..n])
  {
    if Feed(m, s).result == GOOD && Feed(m, s).consumed == n {
      ConsumedPrefix(m, s);
    }
    if Accepts(m, s[..n]) {
      assert s == s[..n] + s[n..];
      FeedConcat(m, s[..n], s[n..]);
    }
  }

  /** No accepted text continues another one. */
  lemma AcceptedTextsArePrefixFree(m: Config, a: string, b: string)
    requires Coherent(m) && Accepts(m, a) && Accepts(m, b) && a <= b
    ensures a == b
  {
    assert b == a + b[|a|..];
    FeedConcat(m, a, b[|a|..]);
  }

  // ---------------------------------------------------------------- the parser object

  class Request {
    var method_: string
    var uri: string
    var http_version_major: int
    var http_version_minor: int
    var headers: seq<Header>

    /** The version fields start with whatever the memory held. */
    constructor (major: int, minor: int)
      ensures View() == Fields("", "", major, minor, [])
    {
      method_, uri, headers := "", "", [];
      http_version_major, http_version_minor := major, minor;
    }

    function View(): Fields
      reads this
    {
      Fields(method_, uri, http_version_major, http_version_minor, headers)
    }
  }

  class Parser {
    var state: State

    constructor ()
      ensures state == METHOD_START
    {
      state := METHOD_START;
    }

    method Reset()
      modifies this
      ensures state == METHOD_START
    {
      state := METHOD_START;
    }

    function With(req: Request): Config
      reads this, req
    {
      Config(state, req.View())
    }

    /** Handles the next byte of input. */
    method Consume(req: Request, input: char) returns (result: Result)
      requires Coherent(With(req))
      modifies this, req
      ensures (With(req), result) == Step(old(With(req)), input)
    {
      result := BAD;
      match state {
        case METHOD_START =>
          if IsTokenChar(input) {
            state := METHOD;
            req.method_ := req.method_ + [input];
            result := INDETERMINATE;
          }
        case METHOD =>
          if input == ' ' {
            state := URI;
            result := INDETERMINATE;
          } else if IsTokenChar(input) {
            req.method_ := req.method_ + [input];
            result := INDETERMINATE;
          }
        case URI =>
          if input == ' ' {
            state := HTTP_VERSION_H;
            result := INDETERMINATE;
          } else if !IsCtl(input) {
            req.uri := req.uri + [input];
            result := INDETERMINATE;
          }
        case HTTP_VERSION_H =>
          if input == 'H' {
            state := HTTP_VERSION_T_1;
            result := INDETERMINATE;
          }
        case HTTP_VERSION_T_1 =>
          if input == 'T' {
            state := HTTP_VERSION_T_2;
            result := INDETERMINATE;
          }
        case HTTP_VERSION_T_2 =>
          if input == 'T' {
            state := HTTP_VERSION_P;
            result := INDETERMINATE;
          }
        case HTTP_VERSION_P =>
          if input == 'P' {
            state := HTTP_VERSION_SLASH;
            result := INDETERMINATE;
          }
        case HTTP_VERSION_SLASH =>
          if input == '/' {
            req.http_version_major := 0;
            req.http_version_minor := 0;
            state := HTTP_VERSION_MAJOR_START;
            result := INDETERMINATE;
          }
        case HTTP_VERSION_MAJOR_START =>
          if IsDigit(input) {
            req.http_version_major := req.http_version_major * 10 + input as int - '0' as int;
            state := HTTP_VERSION_MAJOR;
            result := INDETERMINATE;
          }
        case HTTP_VERSION_MAJOR =>
          if input == '.' {
            state := HTTP_VERSION_MINOR_START;
            result := INDETERMINATE;
          } else if IsDigit(input) {
            req.http_version_major := req.http_version_major * 10 + input as int - '0' as int;
            result := INDETERMINATE;
          }
        case HTTP_VERSION_MINOR_START =>
          if IsDigit(input) {
            req.http_version_minor := req.http_version_minor * 10 + input as int - '0' as int;
            state := HTTP_VERSION_MINOR;
            result := INDETERMINATE;
          }
        case HTTP_VERSION_MINOR =>
          if input == '\r' {
            state := EXPECTING_NEWLINE_1;
            result := INDETERMINATE;
          } else if IsDigit(input) {
            req.http_version_minor := req.http_version_minor * 10 + input as int - '0' as int;
            result := INDETERMINATE;
          }
        case EXPECTING_NEWLINE_1 =>
          if input == '\n' {
            state := HEADER_LINE_START;
            result := INDETERMINATE;
          }
        case HEADER_LINE_START =>
          if input == '\r' {
            state := EXPECTING_NEWLINE_3;
            result := INDETERMINATE;
          } else if req.headers != [] && (input == ' ' || input == '\t') {
            state := HEADER_LWS;
            result := INDETERMINATE;
          } else if IsTokenChar(input) {
            req.headers := req.headers + [Header([input], "")];
            state := HEADER_NAME;
            result := INDETERMINATE;
          }
        case HEADER_LWS =>
          if input == '\r' {
            state := EXPECTING_NEWLINE_2;
            result := INDETERMINATE;
          } else if input == ' ' || input == '\t' {
            result := INDETERMINATE;
          } else if !IsCtl(input) {
            state := HEADER_VALUE;
            req.headers := WithValue(req.headers, input);
            result := INDETERMINATE;
          }
        case HEADER_NAME =>
          if input == ':' {
            state := SPACE_BEFORE_HEADER_VALUE;
            result := INDETERMINATE;
          } else if IsTokenChar(input) {
            req.headers := WithName(req.headers, input);
            result := INDETERMINATE;
          }
        case SPACE_BEFORE_HEADER_VALUE =>
          if input == ' ' {
            state := HEADER_VALUE;
            result := INDETERMINATE;
          }
        case HEADER_VALUE =>
          if input == '\r' {
            state := EXPECTING_NEWLINE_2;
            result := INDETERMINATE;
          } else if !IsCtl(input) {
            req.headers := WithValue(req.headers, input);
            result := INDETERMINATE;
          }
        case EXPECTING_NEWLINE_2 =>
          if input == '\n' {
            state := HEADER_LINE_START;
            result := INDETERMINATE;
          }
        case EXPECTING_NEWLINE_3 =>
          result := if input == '\n' then GOOD else BAD;
      }
    }

    /** Feeds `input[begin..end]`; `next` is the position behind the last byte consumed. */
    method Parse(req: Request, input: string, begin: nat, end: nat) returns (result: Result, next: nat)
      requires Coherent(With(req)) && begin <= end <= |input|
      modifies this, req
      ensures begin <= next <= end
      ensures Fed(result, With(req), next - begin) == Feed(old(With(req)), input[begin..end])
    {
      next := begin;
      while next != end
        invariant begin <= next <= end
        invariant Coherent(With(req))
        invariant var f := Feed(With(req), input[next..end]);
                  Feed(old(With(req)), input[begin..end]) == f.(consumed := f.consumed + (next - begin))
      {
        ghost var rest := input[next..end];
        assert rest[0] == input[next] && rest[1..] == input[next + 1..end];
        var r := Consume(req, input[next]);
        next := next + 1;
        if r == GOOD || r == BAD {
          return r, next;
        }
      }
      result := INDETERMINATE;
    }
  }
}

/** Replies: the buffers that go on the wire, and what the request parser reads from them. */
module Replies {
  import opened Decimal
  import opened RequestParser
  import opened RequestGrammar

  datatype Status = OK | BAD_REQUEST | NOT_FOUND | INTERNAL_SERVER_ERROR

  function StatusLine(status: Status): string {
    match status
    case OK => "HTTP/1.0 200 OK\r\n"
    case BAD_REQUEST => "HTTP/1.0 400 Bad Request\r\n"
    case NOT_FOUND => "HTTP/1.0 404 Not Found\r\n"
    case INTERNAL_SERVER_ERROR => "HTTP/1.0 500 Internal Server Error\r\n"
  }

  /** The number of a status, as the enumeration of the original gives it. */
  function Code(status: Status): nat {
    match status
    case OK => 200
    case BAD_REQUEST => 400
    case NOT_FOUND => 404
    case INTERNAL_SERVER_ERROR => 500
  }

  /** The reason phrases of section 6.1.1 of RFC 1945 for these numbers. */
  function Reason(code: nat): string {
    if code == 200 then "OK"
    else if code == 400 then "Bad Request"
    else if code == 404 then "Not Found"
    else "Internal Server Error"
  }

  /** The status line is that of section 6.1 of RFC 1945 for the number of the status. */
  lemma StatusLineForm(status: Status)
    ensures StatusLine(status) == "HTTP/1.0 " + Numeral(Code(status)) + " " + Reason(Code(status)) + "\r\n"
  {
    hide Numeral;
    CodeNumerals();
    match status {
      case OK => OkLetters();
      case BAD_REQUEST => BadRequestLetters();
      case NOT_FOUND => NotFoundLetters();
      case INTERNAL_SERVER_ERROR => ServerErrorLetters();
    }
  }

  lemma OkLetters()
    ensures "HTTP/1.0 " + "200" + " " + "OK" + "\r\n" == "HTTP/1.0 200 OK\r\n"
  {
  }

  lemma BadRequestLetters()
    ensures "HTTP/1.0 " + "400" + " " + "Bad Request" + "\r\n" == "HTTP/1.0 400 Bad Request\r\n"
  {
  }

  lemma NotFoundLetters()
    ensures "HTTP/1.0 " + "404" + " " + "Not Found" + "\r\n" == "HTTP/1.0 404 Not Found\r\n"
  {
  }

  lemma ServerErrorLetters()
    ensures "HTTP/1.0 " + "500" + " " + "Internal Server Error" + "\r\n" ==
            "HTTP/1.0 500 Internal Server Error\r\n"
  {
  }

  lemma CodeNumerals()
    ensures Numeral(200) == "200" && Numeral(400) == "400" && Numeral(404) == "404" && Numeral(500) == "500"
  {
    assert Numeral(2) == "2" && Numeral(4) == "4" && Numeral(5) == "5";
    assert Numeral(20) == "20" && Numeral(40) == "40" && Numeral(50) == "50";
  }

  function PrintHeader(h: Header): string {
    h.name + ": " + h.value + "\r\n"
  }

  function PrintHeaders(hs: seq<Header>): string {
    if hs == [] then "" else PrintHeader(hs[0]) + PrintHeaders(hs[1..])
  }

  /** The header section: the header lines and the empty line that ends them. */
  function PrintSection(hs: seq<Header>): string {
    PrintHeaders(hs) + "\r\n"
  }

  lemma {:induction false} FlattenSnoc(chunks: seq<string>, c: string)
    ensures Flatten(chunks + [c]) == Flatten(chunks) + c
  {
    if chunks == [] {
      assert [c][1..] == [];
      assert c + "" == c && "" + c == c;
    } else {
      assert (chunks + [c])[1..] == chunks[1..] + [c];
      FlattenSnoc(chunks[1..], c);
    }
  }

  lemma {:induction false} PrintHeadersSnoc(hs: seq<Header>, h: Header)
    ensures PrintHeaders(hs + [h]) == PrintHeaders(hs) + PrintHeader(h)
  {
    if hs == [] {
      assert [h][1..] == [];
      assert PrintHeader(h) + "" == "" + PrintHeader(h);
    } else {
      assert (hs + [h])[1..] == hs[1..] + [h];
      PrintHeadersSnoc(hs[1..], h);
    }
  }

  lemma FlattenOne(c: string)
    ensures Flatten([c]) == c + PrintHeaders([])
  {
    FlattenSnoc([], c);
    assert [] + [c] == [c];
  }

  lemma FlattenHeader(chunks: seq<string>, h: Header)
    ensures Flatten(chunks + [h.name] + [": "] + [h.value] + ["\r\n"]) == Flatten(chunks) + PrintHeader(h)
  {
    FlattenSnoc(chunks, h.name);
    FlattenSnoc(chunks + [h.name], ": ");
    FlattenSnoc(chunks + [h.name] + [": "], h.value);
    FlattenSnoc(chunks + [h.name] + [": "] + [h.value], "\r\n");
    assert Flatten(chunks) + h.name + ": " + h.value + "\r\n" == Flatten(chunks) + PrintHeader(h);
  }

  class Reply {
    var status: Status
    var headers: seq<Header>
    var content: string

    constructor (status: Status, headers: seq<Header>, content: string)
      ensures this.status == status && this.headers == headers && this.content == content
    {
      this.status, this.headers, this.content := status, headers, content;
    }

    /** The buffers to send, in order: four for each header between the status line and the content. */
    method ToBuffers() returns (buffers: seq<string>)
      ensures Flatten(buffers) == StatusLine(status) + PrintSection(headers) + content
      ensures |buffers| == 4 * |headers| + 3
      ensures buffers[|buffers| - 1] == content
    {
      hide Flatten, PrintHeaders, PrintHeader, StatusLine;
      buffers := [StatusLine(status)];
      FlattenOne(StatusLine(status));
      for i := 0 to |headers|
        invariant |buffers| == 4 * i + 1
        invariant Flatten(buffers) == StatusLine(status) + PrintHeaders(headers[..i])
      {
        var h := headers[i];
        ghost var before := buffers;
        buffers := buffers + [h.name];
        buffers := buffers + [": "];
        buffers := buffers + [h.value];
        buffers := buffers + ["\r\n"];
        FlattenHeader(before, h);
        PrintHeadersSnoc(headers[..i], h);
        assert headers[..i + 1] == headers[..i] + [h];
      }
      assert headers[..|headers|] == headers;
      FlattenSnoc(buffers, "\r\n");
      FlattenSnoc(buffers + ["\r\n"], content);
      buffers := buffers + ["\r\n"];
      buffers := buffers + [content];
    }
  }

  // ---------------------------------------------------------------- the header round trip

  predicate ProperHeader(h: Header) {
    IsToken(h.name) && IsText(h.value)
  }

  predicate ProperHeaders(hs: seq<Header>) {
    forall h | h in hs :: ProperHeader(h)
  }

  function Unfolded(hs: seq<Header>): (ls: seq<HeaderLine>)
    ensures |ls| == |hs| && forall i | 0 <= i < |hs| :: ls[i] == HeaderLine(hs[i].name, hs[i].value, [])
  {
    seq(|hs|, i requires 0 <= i < |hs| => HeaderLine(hs[i].name, hs[i].value, []))
  }

  lemma {:induction false} UnfoldedPrints(hs: seq<Header>)
    ensures LinesText(Unfolded(hs)) == PrintHeaders(hs) && HeadersOf(Unfolded(hs)) == hs
  {
    if hs != [] {
      assert Unfolded(hs)[1..] == Unfolded(hs[1..]);
      UnfoldedPrints(hs[1..]);
      assert LineText(Unfolded(hs)[0]) == PrintHeader(hs[0]) + "" == PrintHeader(hs[0]);
      assert Folded(hs[0].value, []) == hs[0].value;
      assert HeaderOf(Unfolded(hs)[0]) == hs[0];
      assert [hs[0]] + hs[1..] == hs;
    }
  }

  lemma {:induction false} LinesProper(ls: seq<HeaderLine>)
    requires forall l | l in ls :: ProperLine(l)
    ensures ProperHeaders(HeadersOf(ls))
  {
    hide IsToken, IsText;
    if ls != [] {
      assert ls[0] in ls && ProperLine(ls[0]);
      FoldedIsText(ls[0].text, ls[0].folds);
      LinesProper(ls[1..]);
    }
  }

  lemma {:induction false} FoldedIsText(value: string, fs: seq<Fold>)
    requires IsText(value) && forall f | f in fs :: ProperFold(f)
    ensures IsText(Folded(value, fs))
    decreases |fs|
  {
    if fs != [] {
      assert fs[0] in fs;
      FoldedIsText(value + fs[0].text, fs[1..]);
    }
  }

  /** The parser, at the start of a header line with no headers yet, gets the list back. */
  ghost predicate ReadBack(req: Fields, hs: seq<Header>, content: string) {
    var m := Config(HEADER_LINE_START, req.(headers := []));
    Feed(m, PrintSection(hs) + content) ==
    Fed(GOOD, Config(EXPECTING_NEWLINE_3, req.(headers := hs)), |PrintSection(hs)|)
  }

  /**
   The header round trip. The printed header section is read back as the same list, stopping
   at the first byte of the content, exactly when all names are non-empty tokens and no value
   holds a control character.
   */
  lemma HeaderRoundTrip(req: Fields, hs: seq<Header>, content: string)
    ensures ReadBack(req, hs, content) <==> ProperHeaders(hs)
  {
    hide Final, ProperLine, IsToken, IsText;
    var m := Config(HEADER_LINE_START, req.(headers := []));
    var s, n := PrintSection(hs) + content, |PrintSection(hs)|;
    assert s[..n] == PrintSection(hs);
    GoodIffPrefixAccepted(m, s, n);
    FinalIsFeed(m, s[..n]);
    if ReadBack(req, hs, content) {
      var fs, ls := ReadSection(m, s[..n]);
      RunSection(m, fs, ls);
      assert [] + HeadersOf(ls) == HeadersOf(ls);
      LinesProper(ls);
    }
    if ProperHeaders(hs) {
      UnfoldedPrints(hs);
      UnfoldedProper(hs);
      assert "" + SectionText(Unfolded(hs)) == PrintSection(hs);
      RunSection(m, [], Unfolded(hs));
      assert [] + hs == hs;
      GoodState(m, s[..n]);
    }
  }

  lemma UnfoldedProper(hs: seq<Header>)
    requires ProperHeaders(hs)
    ensures forall l | l in Unfolded(hs) :: ProperLine(l)
  {
    hide IsToken, IsText;
    forall l | l in Unfolded(hs)
      ensures ProperLine(l)
    {
      var i :| 0 <= i < |hs| && Unfolded(hs)[i] == l;
      assert ProperHeader(hs[i]);
    }
  }

  /** The parser stays in its last state after good. */
  lemma {:induction false} GoodState(m: Config, s: string)
    requires Coherent(m) && Feed(m, s).result == GOOD
    ensures Feed(m, s).config.state == EXPECTING_NEWLINE_3
    decreases |s|
  {
    if Step(m, s[0]).1 == INDETERMINATE {
      GoodState(Step(m, s[0]).0, s[1..]);
    }
  }
}

/**
 * The request text a client sends, built from its parts, and what the
 * parsing front of `process_request` (`Router.ReadRequest`, `Router.Route`)
 * makes of it: the request-line, header and body rules stated on the wire
 * format rather than on the parser's own steps.
 */
module Wire {
  import opened Wrappers
  import opened Text
  import opened TodoStore
  import opened Router

  /** A part of the request line: nonempty, without whitespace. */
  predicate IsToken(t: string) {
    t != [] && NoWhitespace(t)
  }

  /** A header whose name holds no ": " and which spans one line. */
  predicate IsHeader(h: (string, string)) {
    !Contains(h.0, ": ") && '\n' !in h.0 && '\n' !in h.1
  }

  /**
   * A request head the server reads past its parsing steps: three tokens on
   * the request line, a supported version, headers of the `key: value` shape.
   */
  predicate WellFormedHead(verb: string, path: string, version: string, headers: seq<(string, string)>) {
    && IsToken(verb) && IsToken(path) && IsToken(version) && SupportedVersion(version)
    && forall i :: 0 <= i < |headers| ==> IsHeader(headers[i])
  }

  function HeaderLine(h: (string, string)): string {
    h.0 + ": " + h.1
  }

  /** The request line and the given headers, one per line. */
  function MessageHead(verb: string, path: string, version: string, headers: seq<(string, string)>): seq<string> {
    [Join([verb, path, version], " ")] + HeaderLines(headers)
  }

  /** The request line, the given headers and a `Content-Length` header, one per line. */
  function RequestHead(verb: string, path: string, version: string, headers: seq<(string, string)>, length: nat): seq<string> {
    MessageHead(verb, path, version, headers) + [LengthLine(length)]
  }

  function HeaderLines(headers: seq<(string, string)>): seq<string> {
    seq(|headers|, i requires 0 <= i < |headers| => HeaderLine(headers[i]))
  }

  /** The `Content-Length` header, with the length in decimal. */
  function LengthLine(length: nat): string {
    HeaderLine(("Content-Length", Decimal(length)))
  }

  /** A request with any headers: the head lines ended by CRLF, an empty line, the body. */
  function MessageText(verb: string, path: string, version: string, headers: seq<(string, string)>, body: string): string {
    Join(MessageHead(verb, path, version, headers), "\r\n") + "\r\n\r\n" + body
  }

  /** A request as a client writes it, its last header declaring the body length. */
  function RequestText(verb: string, path: string, version: string, headers: seq<(string, string)>, length: nat, body: string): string {
    Join(RequestHead(verb, path, version, headers, length), "\r\n") + "\r\n\r\n" + body
  }

  // ---------------------------------------------------------------- lines of the wire format

  lemma TokenHasNoLineFeed(t: string)
    requires NoWhitespace(t)
    ensures '\n' !in t
  {
    forall i | 0 <= i < |t| ensures t[i] != '\n' {
      assert !IsWhitespace(t[i]);
    }
  }

  lemma NoColonNoSeparator(key: string)
    requires ':' !in key
    ensures !Contains(key, ": ")
  {
    forall i | 0 <= i < |key| ensures !OccursAt(key, ": ", i) {
      assert key[i] in key;
      if i + 2 <= |key| {
        assert key[i..i + 2][0] == key[i];
      }
    }
  }

  /** A nonempty text without line feeds is one line. */
  lemma OneLine(s: string)
    requires s != [] && '\n' !in s
    ensures Lines(s) == [s]
  {
    assert forall j :: 0 <= j < |s| ==> s[j] != '\n' by {
      forall j | 0 <= j < |s| ensures s[j] != '\n' { assert s[j] in s; }
    }
  }

  /** Lines joined by CRLF and followed by CRLF come back ahead of the lines of the rest. */
  lemma {:induction false} LinesThen(ls: seq<string>, rest: string)
    requires ls != []
    requires forall i :: 0 <= i < |ls| ==> '\n' !in ls[i]
    ensures Lines(Join(ls, "\r\n") + "\r\n" + rest) == ls + Lines(rest)
  {
    if |ls| == 1 {
      LinesCons(ls[0], rest);
    } else {
      var joined := Join(ls[1..], "\r\n");
      var tail := joined + "\r\n" + rest;
      assert '\n' !in ls[0];
      calc {
        Lines(Join(ls, "\r\n") + "\r\n" + rest);
        { assert Join(ls, "\r\n") + "\r\n" + rest == ls[0] + "\r\n" + tail; }
        Lines(ls[0] + "\r\n" + tail);
        { LinesCons(ls[0], tail); }
        [ls[0]] + Lines(tail);
        { LinesThen(ls[1..], rest); }
        [ls[0]] + (ls[1..] + Lines(rest));
        { assert ls == [ls[0]] + ls[1..]; }
        ls + Lines(rest);
      }
    }
  }

  lemma HeadHasNoLineFeed(verb: string, path: string, version: string, headers: seq<(string, string)>, length: nat)
    requires IsToken(verb) && IsToken(path) && IsToken(version)
    requires forall i :: 0 <= i < |headers| ==> IsHeader(headers[i])
    ensures var head := RequestHead(verb, path, version, headers, length);
      forall i :: 0 <= i < |head| ==> '\n' !in head[i]
  {
    var head := RequestHead(verb, path, version, headers, length);
    TokenHasNoLineFeed(verb);
    TokenHasNoLineFeed(path);
    TokenHasNoLineFeed(version);
    JoinAvoids([verb, path, version], " ", '\n');
    var d := Decimal(length);
    assert '\n' !in d by {
      forall j | 0 <= j < |d| ensures d[j] != '\n' { assert IsDigit(d[j]); }
    }
    forall i | 0 <= i < |head| ensures '\n' !in head[i] {
      if 1 <= i <= |headers| {
        assert head[i] == HeaderLine(headers[i - 1]);
        assert IsHeader(headers[i - 1]);
      }
    }
  }

  /** The lines the parser sees in a well-formed request text: the head, an empty line, the body's lines. */
  lemma RequestLines(verb: string, path: string, version: string, headers: seq<(string, string)>, length: nat, body: string)
    requires IsToken(verb) && IsToken(path) && IsToken(version)
    requires forall i :: 0 <= i < |headers| ==> IsHeader(headers[i])
    ensures var head := RequestHead(verb, path, version, headers, length);
      Lines(RequestText(verb, path, version, headers, length, body)) == head + [""] + Lines(body)
  {
    var head := RequestHead(verb, path, version, headers, length);
    HeadHasNoLineFeed(verb, path, version, headers, length);
    var joined := Join(head, "\r\n");
    calc {
      Lines(RequestText(verb, path, version, headers, length, body));
      { assert RequestText(verb, path, version, headers, length, body) == joined + "\r\n" + ("\r\n" + body); }
      Lines(joined + "\r\n" + ("\r\n" + body));
      { LinesThen(head, "\r\n" + body); }
      head + Lines("\r\n" + body);
      { LinesCons("", body); assert "" + "\r\n" + body == "\r\n" + body; }
      head + ([""] + Lines(body));
      head + [""] + Lines(body);
    }
  }

  // ---------------------------------------------------------------- parsing a well-formed request

  /**
   * The body as the parser rebuilds it: the text after the empty line is
   * split into lines (dropping the CR of each CRLF and a final line feed)
   * and joined again with line feeds.
   */
  function ReadBody(body: string): string {
    Join(Lines(body), "\n")
  }

  /** A body without line feeds is rebuilt as it is. */
  lemma ReadBodyOneLine(body: string)
    requires '\n' !in body
    ensures ReadBody(body) == body
  {
    if body != [] {
      OneLine(body);
    }
  }

  /** A CRLF inside the body comes out as a bare line feed. */
  lemma ReadBodyCrlf(first: string, rest: string)
    requires '\n' !in first && '\n' !in rest && rest != []
    ensures ReadBody(first + "\r\n" + rest) == first + "\n" + rest
  {
    LinesCons(first, rest);
    OneLine(rest);
    assert Lines(first + "\r\n" + rest) == [first, rest];
    assert Join([first, rest], "\n") == first + "\n" + Join([rest], "\n");
  }

  /** A final line feed is dropped from the body. */
  lemma ReadBodyFinalLineFeed(body: string)
    requires '\n' !in body && (body == [] || body[|body| - 1] != '\r')
    ensures ReadBody(body + "\n") == body
  {
    var s := body + "\n";
    assert forall j :: 0 <= j < |body| ==> s[j] != '\n' by {
      forall j | 0 <= j < |body| ensures s[j] != '\n' { assert s[j] == body[j]; assert body[j] in body; }
    }
    assert s[|body|] == '\n';
    var k := IndexOf(s, '\n', 0);
    IndexOfFirst(s, '\n', 0);
    assert k == |body|;
    assert s[..k] == body;
    assert s[k + 1..] == [];
  }

  /**
   * A well-formed request is read as its method, its path and the first
   * `length` bytes of its rebuilt body; a declared length beyond that body
   * or inside a character makes the handler panic. Extra headers do not
   * matter, whatever their names.
   */
  lemma ReadsRequest(verb: string, path: string, version: string, headers: seq<(string, string)>, length: nat, body: string)
    requires WellFormedHead(verb, path, version, headers)
    requires length <= USIZE_MAX
    ensures var cut := SliceBytes(ReadBody(body), length);
      && (cut.None? ==> ReadRequest(RequestText(verb, path, version, headers, length, body)) == Err(Abort))
      && (cut.Some? ==> ReadRequest(RequestText(verb, path, version, headers, length, body)) == Ok(Request(verb, path, cut.value)))
  {
    var head := RequestHead(verb, path, version, headers, length);
    var lines := Lines(RequestText(verb, path, version, headers, length, body));
    RequestLines(verb, path, version, headers, length, body);
    SplitJoinRoundTrip([verb, path, version]);
    var n := |head|;
    HeaderBlock(lines, lines[0], headers, length, lines[n + 1..]);
    assert lines[n + 1..] == Lines(body);
  }

  /**
   * The lines of a request with any headers: the header block ends at the
   * empty line, is well formed, and each line splits into its header.
   */
  lemma MessageLines(verb: string, path: string, version: string, headers: seq<(string, string)>, body: string)
    requires WellFormedHead(verb, path, version, headers)
    ensures var lines := Lines(MessageText(verb, path, version, headers, body));
      && lines == MessageHead(verb, path, version, headers) + [""] + Lines(body)
      && BlankLine(lines, 1) == |headers| + 1
      && HeadersWellFormed(lines, 1, |headers| + 1)
      && SplitsInto(lines, headers)
  {
    var line := Join([verb, path, version], " ");
    var ls := HeaderLines(headers);
    TokenHasNoLineFeed(verb);
    TokenHasNoLineFeed(path);
    TokenHasNoLineFeed(version);
    JoinAvoids([verb, path, version], " ", '\n');
    forall i | 0 <= i < |ls| ensures ls[i] != [] && '\n' !in ls[i] && Contains(ls[i], ": ")
                              && SplitOnce(ls[i], ": ") == Some(headers[i]) {
      var h := headers[i];
      assert IsHeader(h);
      SplitOnceHeader(h.0, h.1);
      SplitOnceSpec(ls[i], ": ");
    }
    HeaderBlockLines(line, ls, body);
    var lines := Lines(MessageText(verb, path, version, headers, body));
    forall i | 0 <= i < |headers| ensures SplitOnce(lines[i + 1], ": ") == Some(headers[i]) {
      assert lines[i + 1] == ls[i];
    }
  }

  /** The request line splits back into method, path and version. */
  lemma RequestLineParts(verb: string, path: string, version: string)
    requires IsToken(verb) && IsToken(path) && IsToken(version)
    ensures SplitWhitespace(Join([verb, path, version], " ")) == [verb, path, version]
  {
    var ts := [verb, path, version];
    forall i | 0 <= i < |ts| ensures ts[i] != [] && NoWhitespace(ts[i]) {
      assert IsToken(ts[i]);
    }
    SplitJoinRoundTrip(ts);
  }

  /**
   * A request with any headers is read as its method, its path and its
   * rebuilt body cut to the length its header lines declare (0 when none).
   */
  lemma ReadsMessage(verb: string, path: string, version: string, headers: seq<(string, string)>, body: string)
    requires WellFormedHead(verb, path, version, headers)
    ensures var lines := Lines(MessageText(verb, path, version, headers, body));
      && SplitsInto(lines, headers) && HeadersWellFormed(lines, 1, |headers| + 1)
      && ReadRequest(MessageText(verb, path, version, headers, body))
         == match SliceBytes(ReadBody(body), DeclaredLength(lines, 1, |headers| + 1).GetOr(0))
            case None => Err(Abort)
            case Some(cut) => Ok(Request(verb, path, cut))
  {
    RequestLineParts(verb, path, version);
    MessageLines(verb, path, version, headers, body);
    var lines := Lines(MessageText(verb, path, version, headers, body));
    var n := |headers| + 1;
    assert lines[0] == Join([verb, path, version], " ");
    assert ReadRequest(MessageText(verb, path, version, headers, body)) == ReadMessage(lines, verb, path);
    assert lines[n + 1..] == Lines(body);
  }

  /** Lines `1..|headers|` of `lines` split into `headers`, in order. */
  predicate SplitsInto(lines: seq<string>, headers: seq<(string, string)>) {
    |headers| < |lines| && forall i :: 0 <= i < |headers| ==> SplitOnce(lines[i + 1], ": ") == Some(headers[i])
  }

  /** Header lines that split into `headers`, none of them named Content-Length, declare no length. */
  lemma UndeclaredByHeaders(lines: seq<string>, headers: seq<(string, string)>)
    requires SplitsInto(lines, headers) && HeadersWellFormed(lines, 1, |headers| + 1)
    requires forall i :: 0 <= i < |headers| ==> !IsContentLength(headers[i].0)
    ensures DeclaredLength(lines, 1, |headers| + 1) == None
  {
    forall i | 1 <= i < |headers| + 1 ensures !ContentLengthAt(lines, i) {
      HeaderAt(lines, headers, i - 1);
    }
    DeclaredLengthSpec(lines, 1, |headers| + 1);
  }

  /** The line of header `i`. */
  lemma HeaderAt(lines: seq<string>, headers: seq<(string, string)>, i: nat)
    requires SplitsInto(lines, headers) && i < |headers|
    ensures SplitOnce(lines[i + 1], ": ") == Some(headers[i])
    ensures ContentLengthAt(lines, i + 1) <==> IsContentLength(headers[i].0)
  {
    assert headers[i] == headers[i];
  }

  /**
   * Header lines that split into `headers` declare the value of their last
   * Content-Length header, 0 when it does not parse.
   */
  lemma DeclaredByHeaders(lines: seq<string>, headers: seq<(string, string)>, k: nat)
    requires SplitsInto(lines, headers) && HeadersWellFormed(lines, 1, |headers| + 1)
    requires k < |headers| && IsContentLength(headers[k].0)
    requires forall j :: k < j < |headers| ==> !IsContentLength(headers[j].0)
    ensures DeclaredLength(lines, 1, |headers| + 1) == Some(ParseUsize(headers[k].1).GetOr(0))
  {
    var n := |headers| + 1;
    HeaderAt(lines, headers, k);
    assert DeclaredLength(lines, 1, n).Some? by {
      DeclaredLengthSpec(lines, 1, n);
    }
    var i := DeclaredLengthValue(lines, 1, n);
    HeaderAt(lines, headers, i - 1);
    assert IsContentLength(headers[i - 1].0);
    assert i <= k + 1;
    assert ContentLengthAt(lines, k + 1);
    assert i == k + 1;
    assert SplitOnce(lines[i], ": ").value == headers[k];
  }

  /** Without a Content-Length header, a request is read with the empty body, whatever follows. */
  lemma NoLengthHeader(verb: string, path: string, version: string, headers: seq<(string, string)>, body: string)
    requires WellFormedHead(verb, path, version, headers)
    requires forall i :: 0 <= i < |headers| ==> !IsContentLength(headers[i].0)
    ensures ReadRequest(MessageText(verb, path, version, headers, body)) == Ok(Request(verb, path, ""))
  {
    ReadsMessage(verb, path, version, headers, body);
    UndeclaredByHeaders(Lines(MessageText(verb, path, version, headers, body)), headers);
  }

  /**
   * The last Content-Length header sets the body length, whatever headers
   * come after it; a value that does not parse as a `usize` counts as 0, so
   * the request is read with the empty body.
   */
  lemma LastLengthHeader(verb: string, path: string, version: string, headers: seq<(string, string)>, k: nat, body: string)
    requires WellFormedHead(verb, path, version, headers)
    requires k < |headers| && IsContentLength(headers[k].0)
    requires forall j :: k < j < |headers| ==> !IsContentLength(headers[j].0)
    ensures var cut := SliceBytes(ReadBody(body), ParseUsize(headers[k].1).GetOr(0));
      && (cut.None? ==> ReadRequest(MessageText(verb, path, version, headers, body)) == Err(Abort))
      && (cut.Some? ==> ReadRequest(MessageText(verb, path, version, headers, body)) == Ok(Request(verb, path, cut.value)))
    ensures ParseUsize(headers[k].1).None? ==>
      ReadRequest(MessageText(verb, path, version, headers, body)) == Ok(Request(verb, path, ""))
  {
    ReadsMessage(verb, path, version, headers, body);
    DeclaredByHeaders(Lines(MessageText(verb, path, version, headers, body)), headers, k);
  }

  /**
   * The header lines up to the empty line are well formed, and the last
   * `Content-Length` header, which is the one `LengthLine` adds, sets the body length.
   */
  lemma HeaderBlock(lines: seq<string>, first: string, headers: seq<(string, string)>, length: nat, after: seq<string>)
    requires forall i :: 0 <= i < |headers| ==> IsHeader(headers[i])
    requires lines == [first] + HeaderLines(headers) + [LengthLine(length)] + [""] + after
    requires length <= USIZE_MAX
    ensures BlankLine(lines, 1) == |headers| + 2
    ensures HeadersWellFormed(lines, 1, |headers| + 2)
    ensures DeclaredLength(lines, 1, |headers| + 2) == Some(length)
  {
    var ls := HeaderLines(headers) + [LengthLine(length)];
    NoColonNoSeparator("Content-Length");
    forall i | 0 <= i < |ls| ensures ls[i] != [] && Contains(ls[i], ": ") {
      var h := if i < |headers| then headers[i] else ("Content-Length", Decimal(length));
      assert ls[i] == HeaderLine(h);
      SplitOnceHeader(h.0, h.1);
      SplitOnceSpec(ls[i], ": ");
    }
    assert lines[1..|ls| + 1] == ls;
    HeaderBlockShape(lines, ls);
    LengthHeader(lines, |ls| + 1, length);
  }

  /** A well-formed header block whose last line is `LengthLine(length)` declares `length`. */
  lemma LengthHeader(lines: seq<string>, n: nat, length: nat)
    requires 2 <= n <= |lines| && HeadersWellFormed(lines, 1, n)
    requires lines[n - 1] == LengthLine(length) && length <= USIZE_MAX
    ensures DeclaredLength(lines, 1, n) == Some(length)
  {
    NoColonNoSeparator("Content-Length");
    SplitOnceHeader("Content-Length", Decimal(length));
    EqIgnoreAsciiCaseRefl("Content-Length");
    ParseDecimal(length);
  }

  /** Declaring the body's own byte length delivers the whole body. */
  lemma WholeBody(body: string)
    requires 4 * |body| <= USIZE_MAX
    ensures ByteLen(body) <= USIZE_MAX && SliceBytes(body, ByteLen(body)) == Some(body)
  {
    ByteLenBounds(body);
    SliceWhole(body);
  }

  /**
   * With an ASCII body, a shorter declared length cuts the body to that many
   * characters and a longer one makes the handler panic.
   */
  lemma AsciiBodyLength(verb: string, path: string, version: string, headers: seq<(string, string)>, length: nat, body: string,
                        parse: string -> Option<Json.JVal>)
    requires WellFormedHead(verb, path, version, headers)
    requires '\n' !in body && Ascii(body) && length <= USIZE_MAX
    ensures Route(RequestText(verb, path, version, headers, length, body), parse)
      == if length <= |body| then Dispatch(verb, path, body[..length], parse) else Abort
  {
    ReadsRequest(verb, path, version, headers, length, body);
    ReadBodyOneLine(body);
    SliceAscii(body, length);
  }

  // ---------------------------------------------------------------- the errors of the parsing steps

  /** Every refusal `Dispatch` makes is a 400, 404 or 405 with one of the routing messages. */
  lemma DispatchRefusals(verb: string, path: string, body: string, parse: string -> Option<Json.JVal>)
    ensures var a := Dispatch(verb, path, body, parse);
      a.Refuse? ==>
        && a.status in {BAD_REQUEST, NOT_FOUND, METHOD_NOT_ALLOWED}
        && a.message in {INVALID_ID, ENDPOINT_NOT_FOUND, METHOD_NOT_ALLOWED_MESSAGE, INVALID_JSON,
                         TITLE_REQUIRED, TITLE_EMPTY, DESERIALIZATION_ERROR, COMPLETED_NOT_BOOL}
  {
  }

  /** A refusal with one of the parsing messages comes from the parsing steps, never from `Dispatch`. */
  lemma ParsingRefusal(request: string, parse: string -> Option<Json.JVal>, status: string, message: string)
    requires message in {INVALID_REQUEST, INVALID_REQUEST_LINE, VERSION_UNSUPPORTED, INVALID_HEADER}
    ensures Route(request, parse) == Refuse(status, message) <==> ReadRequest(request) == Err(Refuse(status, message))
  {
    match ReadRequest(request)
    case Err(_) =>
    case Ok(Request(verb, path, body)) => DispatchRefusals(verb, path, body, parse);
  }

  /** Only the empty text is answered "Invalid request.". */
  lemma EmptyRequest(request: string, parse: string -> Option<Json.JVal>)
    ensures Route(request, parse) == Refuse(BAD_REQUEST, INVALID_REQUEST) <==> request == []
  {
    ParsingRefusal(request, parse, BAD_REQUEST, INVALID_REQUEST);
  }

  /**
   * The request line (the text before the first CRLF) must split into
   * exactly three parts, else 400; with three, the third must be a supported
   * version, else 505. Whatever follows the line does not matter.
   */
  lemma RequestLineRules(line: string, rest: string, parse: string -> Option<Json.JVal>)
    requires '\n' !in line
    ensures var parts := SplitWhitespace(line);
      && (Route(line + "\r\n" + rest, parse) == Refuse(BAD_REQUEST, INVALID_REQUEST_LINE) <==> |parts| != 3)
      && (Route(line + "\r\n" + rest, parse) == Refuse(VERSION_NOT_SUPPORTED, VERSION_UNSUPPORTED)
          <==> |parts| == 3 && !SupportedVersion(parts[2]))
  {
    var text := line + "\r\n" + rest;
    LinesCons(line, rest);
    RequestLineChecks(text);
    ParsingRefusal(text, parse, BAD_REQUEST, INVALID_REQUEST_LINE);
    ParsingRefusal(text, parse, VERSION_NOT_SUPPORTED, VERSION_UNSUPPORTED);
  }

  /** The request-line refusals of `ReadRequest`, in terms of the parts of the first line. */
  lemma RequestLineChecks(text: string)
    requires text != []
    ensures var parts := SplitWhitespace(Lines(text)[0]);
      && (ReadRequest(text) == Err(Refuse(BAD_REQUEST, INVALID_REQUEST_LINE)) <==> |parts| != 3)
      && (|parts| == 3 ==>
            (ReadRequest(text) == Err(Refuse(VERSION_NOT_SUPPORTED, VERSION_UNSUPPORTED)) <==> !SupportedVersion(parts[2])))
  {
  }

  /**
   * After a valid request line, the header lines (up to the first empty
   * line) are refused exactly when one of them holds no ": ".
   */
  lemma HeaderRule(line: string, ls: seq<string>, rest: string, parse: string -> Option<Json.JVal>)
    requires '\n' !in line && |SplitWhitespace(line)| == 3 && SupportedVersion(SplitWhitespace(line)[2])
    requires forall i :: 0 <= i < |ls| ==> ls[i] != [] && '\n' !in ls[i]
    ensures Route(Join([line] + ls, "\r\n") + "\r\n\r\n" + rest, parse) == Refuse(BAD_REQUEST, INVALID_HEADER)
      <==> exists i :: 0 <= i < |ls| && !Contains(ls[i], ": ")
  {
    ReadHeaderBlock(line, ls, rest);
    ParsingRefusal(Join([line] + ls, "\r\n") + "\r\n\r\n" + rest, parse, BAD_REQUEST, INVALID_HEADER);
  }

  /** The header step of `ReadRequest` on a block of nonempty header lines. */
  lemma ReadHeaderBlock(line: string, ls: seq<string>, rest: string)
    requires '\n' !in line && |SplitWhitespace(line)| == 3 && SupportedVersion(SplitWhitespace(line)[2])
    requires forall i :: 0 <= i < |ls| ==> ls[i] != [] && '\n' !in ls[i]
    ensures ReadRequest(Join([line] + ls, "\r\n") + "\r\n\r\n" + rest) == Err(Refuse(BAD_REQUEST, INVALID_HEADER))
      <==> exists i :: 0 <= i < |ls| && !Contains(ls[i], ": ")
  {
    var head := [line] + ls;
    var request := Join(head, "\r\n") + "\r\n\r\n" + rest;
    var lines := Lines(request);
    HeaderBlockLines(line, ls, rest);
    var parts := SplitWhitespace(line);
    assert ReadRequest(request) == ReadMessage(lines, parts[0], parts[1]);
  }

  /** How the lines of a request with a header block fall, and when the block is well formed. */
  lemma HeaderBlockLines(line: string, ls: seq<string>, rest: string)
    requires '\n' !in line
    requires forall i :: 0 <= i < |ls| ==> ls[i] != [] && '\n' !in ls[i]
    ensures var lines := Lines(Join([line] + ls, "\r\n") + "\r\n\r\n" + rest);
      && lines == [line] + ls + [""] + Lines(rest)
      && BlankLine(lines, 1) == |ls| + 1
      && (HeadersWellFormed(lines, 1, |ls| + 1) <==> forall i :: 0 <= i < |ls| ==> Contains(ls[i], ": "))
  {
    HeaderBlockSplits(line, ls, rest);
    HeaderBlockShape([line] + ls + [""] + Lines(rest), ls);
  }

  /** A request whose head is followed by an empty line splits into the head, that empty line and the rest. */
  lemma HeaderBlockSplits(line: string, ls: seq<string>, rest: string)
    requires '\n' !in line
    requires forall i :: 0 <= i < |ls| ==> '\n' !in ls[i]
    ensures Lines(Join([line] + ls, "\r\n") + "\r\n\r\n" + rest) == [line] + ls + [""] + Lines(rest)
  {
    var head := [line] + ls;
    var request := Join(head, "\r\n") + "\r\n\r\n" + rest;
    assert forall i :: 0 <= i < |head| ==> '\n' !in head[i] by {
      forall i | 0 <= i < |head| ensures '\n' !in head[i] {
        if i > 0 { assert head[i] == ls[i - 1]; }
      }
    }
    calc {
      Lines(request);
      { assert request == Join(head, "\r\n") + "\r\n" + ("\r\n" + rest); LinesThen(head, "\r\n" + rest); }
      head + Lines("\r\n" + rest);
      { LinesCons("", rest); assert "" + "\r\n" + rest == "\r\n" + rest; }
      head + ([""] + Lines(rest));
    }
  }

  /** The header block of `lines` runs up to the empty line after `ls`, and is well formed when each of `ls` is. */
  lemma HeaderBlockShape(lines: seq<string>, ls: seq<string>)
    requires forall i :: 0 <= i < |ls| ==> ls[i] != []
    requires |lines| > |ls| + 1 && lines[|ls| + 1] == [] && lines[1..|ls| + 1] == ls
    ensures BlankLine(lines, 1) == |ls| + 1
    ensures HeadersWellFormed(lines, 1, |ls| + 1) <==> forall i :: 0 <= i < |ls| ==> Contains(ls[i], ": ")
  {
    var n := |ls| + 1;
    forall i | 1 <= i < n ensures lines[i] == ls[i - 1] {
      assert lines[1..n][i - 1] == lines[i];
    }
    assert BlankLine(lines, 1) == n;
    forall i | 0 <= i < |ls| ensures SplitOnce(lines[i + 1], ": ").Some? <==> Contains(ls[i], ": ") {
      SplitOnceSpec(ls[i], ": ");
    }
    HeadersWellFormedAll(lines, 1, n);
    if HeadersWellFormed(lines, 1, n) {
      forall i | 0 <= i < |ls| ensures Contains(ls[i], ": ") {
        assert SplitOnce(lines[i + 1], ": ").Some?;
      }
    }
  }
}

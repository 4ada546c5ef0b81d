/** The part of `request` that turns the received response text into a header
    map and a body. The head of the response ends at the first blank line;
    its first line is the status line, split into at most three fields on
    spaces; every other line is a header field cut at its first colon. A
    panic of the source (an index out of bounds, the failed status assertion)
    is a `Failure` here. */
module HttpResponse {
  import opened Wrappers
  import opened RustStr

  const HeaderEnd: string := "\r\n\r\n"
  const LineEnd: string := "\r\n"
  const StatusOk: string := "200"

  datatype Response = Response(headers: map<string, string>, body: string)

  datatype ResponseError =
    | MissingBody                                       // no blank line: `response_vec[1]`
    | MissingStatus                                     // no space in the status line
    | MissingExplanation                                // one space in the status line
    | ServerError(status: string, explanation: string)  // the status is not `200`
    | MalformedHeader(line: string)                     // a header line without `:`

  /** A header line cut at its first `:`, both sides trimmed and lower-cased;
      `None` for a line with no `:`. */
  function HeaderField(line: string): (r: Option<(string, string)>)
    ensures r.None? <==> ':' !in line
  {
    SplitNTwoCharCount(line, ':');
    var headerLine := SplitN(line, 2, ":");
    if |headerLine| < 2 then None
    else Some((Lower(Trim(headerLine[0])), Lower(Trim(headerLine[1]))))
  }

  /** Both sides of a header field are trimmed and lower-case. */
  lemma HeaderFieldNormalized(line: string)
    requires ':' in line
    ensures Normal(HeaderField(line).value.0) && Normal(HeaderField(line).value.1)
  {
    SplitNTwoCharCount(line, ':');
    var headerLine := SplitN(line, 2, ":");
    LowerSpec(Trim(headerLine[0]));
    LowerSpec(Trim(headerLine[1]));
  }

  /** The cut is at the first `:`, so the value may itself hold colons. */
  lemma HeaderFieldAt(name: string, value: string)
    requires ':' !in name
    ensures HeaderField(name + ":" + value) == Some((Lower(Trim(name)), Lower(Trim(value))))
  {
    SplitNAtChar(name, ':', value, 2);
  }

  /** A header line parser: the name and the value of a line, or `None` for
      a line that is not a header field. `HeaderField` is the one `request`
      uses. */
  type LineParser = string -> Option<(string, string)>

  /** Neither end is whitespace and there is no ASCII upper-case letter. */
  predicate Normal(s: string) {
    Trimmed(s) && NoAsciiUpper(s)
  }

  /** `line` is a header line whose name is `name`. */
  predicate Names(parse: LineParser, line: string, name: string) {
    parse(line).Some? && parse(line).value.0 == name
  }

  /** Lines 120-124: the `for` loop over the header lines, starting from the
      map `headers`: each line is cut by `parse` and its field inserted in
      turn, so a later one replaces an earlier one with the same name. */
  function InsertHeaders(parse: LineParser, lines: seq<string>, headers: map<string, string>): (r: Result<map<string, string>, ResponseError>)
    ensures r.Failure? ==> r.error.MalformedHeader? && r.error.line in lines && parse(r.error.line).None?
    decreases |lines|
  {
    if lines == [] then Success(headers)
    else match parse(lines[0])
      case None => Failure(MalformedHeader(lines[0]))
      case Some((name, value)) => InsertHeaders(parse, lines[1..], headers[name := value])
  }

  /** Lines 118-124: the header map built from the lines after the status
      line; a failure names one of those lines, and it has no `:`. */
  function HeaderMap(lines: seq<string>): (r: Result<map<string, string>, ResponseError>)
    ensures r.Failure? ==> r.error.MalformedHeader? && r.error.line in lines && ':' !in r.error.line
  {
    InsertHeaders(HeaderField, lines, map[])
  }

  /** The loop completes exactly when every line parses. */
  lemma {:induction false} InsertHeadersSucceeds(parse: LineParser, lines: seq<string>, headers: map<string, string>)
    ensures InsertHeaders(parse, lines, headers).Success? <==> forall j :: 0 <= j < |lines| ==> parse(lines[j]).Some?
    decreases |lines|
  {
    if lines != [] && parse(lines[0]).Some? {
      var field := parse(lines[0]).value;
      InsertHeadersSucceeds(parse, lines[1..], headers[field.0 := field.1]);
      forall j | 0 <= j < |lines[1..]|
        ensures lines[1..][j] == lines[j + 1]
      {
      }
    }
  }

  /** Otherwise it stops at the first line that does not parse. */
  lemma {:induction false} InsertHeadersFails(parse: LineParser, lines: seq<string>, headers: map<string, string>, i: nat)
    requires i < |lines| && parse(lines[i]).None?
    requires forall j :: 0 <= j < i ==> parse(lines[j]).Some?
    ensures InsertHeaders(parse, lines, headers) == Failure(MalformedHeader(lines[i]))
    decreases |lines|
  {
    if i > 0 {
      var field := parse(lines[0]).value;
      forall j | 0 <= j < i - 1
        ensures parse(lines[1..][j]).Some?
      {
        assert lines[1..][j] == lines[j + 1];
      }
      assert lines[1..][i - 1] == lines[i];
      InsertHeadersFails(parse, lines[1..], headers[field.0 := field.1], i - 1);
    }
  }

  /** The names in the map are those already there and those of the lines. */
  lemma {:induction false} InsertHeadersKeys(parse: LineParser, lines: seq<string>, headers: map<string, string>, name: string)
    requires InsertHeaders(parse, lines, headers).Success?
    ensures name in InsertHeaders(parse, lines, headers).value <==>
      name in headers || exists i :: 0 <= i < |lines| && Names(parse, lines[i], name)
    decreases |lines|
  {
    if lines != [] {
      var field := parse(lines[0]).value;
      InsertHeadersKeys(parse, lines[1..], headers[field.0 := field.1], name);
      if exists i :: 0 <= i < |lines[1..]| && Names(parse, lines[1..][i], name) {
        var i :| 0 <= i < |lines[1..]| && Names(parse, lines[1..][i], name);
        assert Names(parse, lines[i + 1], name);
      }
      if exists i :: 0 <= i < |lines| && Names(parse, lines[i], name) {
        var i :| 0 <= i < |lines| && Names(parse, lines[i], name);
        if i > 0 {
          assert Names(parse, lines[1..][i - 1], name);
        }
      }
    }
  }

  /** A name no line gives keeps its earlier value. */
  lemma {:induction false} InsertHeadersKeeps(parse: LineParser, lines: seq<string>, headers: map<string, string>, name: string)
    requires InsertHeaders(parse, lines, headers).Success? && name in headers
    requires forall j :: 0 <= j < |lines| ==> !Names(parse, lines[j], name)
    ensures name in InsertHeaders(parse, lines, headers).value
    ensures InsertHeaders(parse, lines, headers).value[name] == headers[name]
    decreases |lines|
  {
    if lines != [] {
      var field := parse(lines[0]).value;
      assert !Names(parse, lines[0], name);
      forall j | 0 <= j < |lines[1..]|
        ensures !Names(parse, lines[1..][j], name)
      {
        assert lines[1..][j] == lines[j + 1];
      }
      InsertHeadersKeeps(parse, lines[1..], headers[field.0 := field.1], name);
    }
  }

  /** The last line with a given name decides its value. */
  lemma {:induction false} InsertHeadersLastWins(parse: LineParser, lines: seq<string>, headers: map<string, string>, i: nat)
    requires InsertHeaders(parse, lines, headers).Success?
    requires i < |lines| && parse(lines[i]).Some?
    requires forall j :: i < j < |lines| ==> !Names(parse, lines[j], parse(lines[i]).value.0)
    ensures var (name, value) := parse(lines[i]).value;
      name in InsertHeaders(parse, lines, headers).value && InsertHeaders(parse, lines, headers).value[name] == value
    decreases |lines|
  {
    var field := parse(lines[0]).value;
    var next := headers[field.0 := field.1];
    var name := parse(lines[i]).value.0;
    forall j | i <= j < |lines[1..]|
      ensures !Names(parse, lines[1..][j], name)
    {
      assert lines[1..][j] == lines[j + 1];
    }
    if i == 0 {
      InsertHeadersKeeps(parse, lines[1..], next, name);
    } else {
      assert lines[1..][i - 1] == lines[i];
      InsertHeadersLastWins(parse, lines[1..], next, i - 1);
    }
  }

  /** When every field the lines give is normal, so is every name and value
      in the map. */
  lemma {:induction false} InsertHeadersNormalized(parse: LineParser, lines: seq<string>, headers: map<string, string>)
    requires InsertHeaders(parse, lines, headers).Success?
    requires forall k :: k in headers ==> Normal(k) && Normal(headers[k])
    requires forall j :: 0 <= j < |lines| && parse(lines[j]).Some? ==>
      Normal(parse(lines[j]).value.0) && Normal(parse(lines[j]).value.1)
    ensures var m := InsertHeaders(parse, lines, headers).value;
      forall k :: k in m ==> Normal(k) && Normal(m[k])
    decreases |lines|
  {
    if lines != [] {
      var field := parse(lines[0]).value;
      forall j | 0 <= j < |lines[1..]| && parse(lines[1..][j]).Some?
        ensures Normal(parse(lines[1..][j]).value.0) && Normal(parse(lines[1..][j]).value.1)
      {
        assert lines[1..][j] == lines[j + 1];
      }
      InsertHeadersNormalized(parse, lines[1..], headers[field.0 := field.1]);
    }
  }

  /** The header map exists exactly when every header line holds a `:`. */
  lemma HeaderMapSucceeds(lines: seq<string>)
    ensures HeaderMap(lines).Success? <==> forall j :: 0 <= j < |lines| ==> ':' in lines[j]
  {
    InsertHeadersSucceeds(HeaderField, lines, map[]);
    assert forall j :: 0 <= j < |lines| ==> (HeaderField(lines[j]).Some? <==> ':' in lines[j]);
  }

  /** Otherwise building it fails on the first line without a `:`. */
  lemma HeaderMapFails(lines: seq<string>, i: nat)
    requires i < |lines| && ':' !in lines[i]
    requires forall j :: 0 <= j < i ==> ':' in lines[j]
    ensures HeaderMap(lines) == Failure(MalformedHeader(lines[i]))
  {
    assert forall j :: 0 <= j < i ==> HeaderField(lines[j]).Some?;
    InsertHeadersFails(HeaderField, lines, map[], i);
  }

  /** Every name and every value in the header map is trimmed and
      lower-case. */
  lemma HeaderMapNormalized(lines: seq<string>)
    requires HeaderMap(lines).Success?
    ensures var m := HeaderMap(lines).value;
      forall k :: k in m ==> Normal(k) && Normal(m[k])
  {
    forall j | 0 <= j < |lines| && HeaderField(lines[j]).Some?
      ensures Normal(HeaderField(lines[j]).value.0) && Normal(HeaderField(lines[j]).value.1)
    {
      HeaderFieldNormalized(lines[j]);
    }
    InsertHeadersNormalized(HeaderField, lines, map[]);
  }

  /** Lines 110-113: the status line split into at most three fields on
      spaces; the second or the third may be missing. */
  function StatusFieldsOf(statusLine: string): (r: Result<(string, string, string), ResponseError>)
    ensures r.Failure? ==> r.error == MissingStatus || r.error == MissingExplanation
  {
    var fields := SplitN(statusLine, 3, " ");
    if |fields| < 2 then Failure(MissingStatus)
    else if |fields| < 3 then Failure(MissingExplanation)
    else Success((fields[0], fields[1], fields[2]))
  }

  /** Lines 108-124: the head of the response, checked for status `200` and
      turned into the header map. */
  function ParsedHead(rawHeaders: string): (r: Result<map<string, string>, ResponseError>)
    ensures r.Failure? ==> !r.error.MissingBody?
    ensures r.Failure? && r.error.ServerError? ==> r.error.status != StatusOk
  {
    var headerLines := Split(rawHeaders, LineEnd);
    match StatusFieldsOf(headerLines[0])
    case Failure(e) => Failure(e)
    case Success((_, status, explanation)) =>
      if status != StatusOk then Failure(ServerError(status, explanation))
      else HeaderMap(headerLines[1..])
  }

  /** Lines 103-124: the block of `request` that reads the response text. A
      server error never reports status `200`, and a malformed header line
      is one without a `:`. */
  function ParsedResponse(response: string): (r: Result<Response, ResponseError>)
    ensures r.Failure? && r.error.ServerError? ==> r.error.status != StatusOk
    ensures r.Failure? && r.error.MalformedHeader? ==> ':' !in r.error.line
  {
    var responseVec := Split(response, HeaderEnd);
    if |responseVec| < 2 then Failure(MissingBody)
    else match ParsedHead(responseVec[0])
      case Failure(e) => Failure(e)
      case Success(headers) => Success(Response(headers, responseVec[1]))
  }

  /** The same block as the source runs it: drop the status line from the
      list of lines, then insert the header fields one by one. */
  method ParseResponse(response: string) returns (r: Result<Response, ResponseError>)
    ensures r == ParsedResponse(response)
  {
    var responseVec := Split(response, HeaderEnd);
    if |responseVec| < 2 {
      return Failure(MissingBody);
    }
    var rawHeaders := responseVec[0];
    var body := responseVec[1];
    var headerLines := Split(rawHeaders, LineEnd);
    var statusLine := SplitN(headerLines[0], 3, " ");
    if |statusLine| < 2 {
      return Failure(MissingStatus);
    }
    if |statusLine| < 3 {
      return Failure(MissingExplanation);
    }
    if statusLine[1] != StatusOk {
      return Failure(ServerError(statusLine[1], statusLine[2]));
    }
    headerLines := headerLines[1..];
    var headers: map<string, string> := map[];
    for i := 0 to |headerLines|
      invariant HeaderMap(headerLines) == InsertHeaders(HeaderField, headerLines[i..], headers)
    {
      assert headerLines[i..][1..] == headerLines[i + 1..];
      var field := HeaderField(headerLines[i]);
      if field.None? {
        return Failure(MalformedHeader(headerLines[i]));
      }
      headers := headers[field.value.0 := field.value.1];
    }
    assert headerLines[|headerLines|..] == [];
    return Success(Response(headers, body));
  }

  /** `response` is `head`, the first blank line, then `rest`. */
  predicate HeadThenRest(response: string, head: string, rest: string) {
    response == head + HeaderEnd + rest && NoneBetween(response, HeaderEnd, 0, |head|)
  }

  /** The split of a response at its first blank line. */
  lemma SplitAtHead(response: string, head: string, rest: string)
    requires HeadThenRest(response, head, rest)
    ensures Split(response, HeaderEnd) == [head] + Split(rest, HeaderEnd)
  {
    assert response[|head|..|head| + 4] == HeaderEnd;
    assert FirstPiece(response, HeaderEnd, head);
    SplitAt(response, HeaderEnd, head);
    assert response[|head| + 4..] == rest;
  }

  /** Parsing fails for want of a body exactly when there is no blank line. */
  lemma MissingBodyIff(response: string)
    ensures ParsedResponse(response) == Failure(MissingBody) <==> NoneBetween(response, HeaderEnd, 0, |response| + 1)
  {
    var f := Find(response, HeaderEnd);
    FindSpec(response, HeaderEnd);
    if f.None? {
      assert Split(response, HeaderEnd) == [response];
    } else {
      assert |Split(response, HeaderEnd)| >= 2;
      assert !NoneBetween(response, HeaderEnd, 0, |response| + 1) by {
        assert OccursAt(response, HeaderEnd, f.value);
      }
    }
  }

  /** The body is the text after the first blank line up to the second one,
      or to the end. */
  lemma BodyBetweenSeparators(response: string, head: string, rest: string)
    requires HeadThenRest(response, head, rest)
    ensures ParsedResponse(response) != Failure(MissingBody)
    ensures ParsedResponse(response).Success? ==>
      FirstPiece(rest, HeaderEnd, ParsedResponse(response).value.body)
  {
    SplitAtHead(response, head, rest);
    var parts := Split(response, HeaderEnd);
    assert |parts| >= 2 && parts[1] == Split(rest, HeaderEnd)[0];
    SplitHead(rest, HeaderEnd);
  }

  /** The status line splits into version, status and explanation at its
      first two spaces; the explanation may hold more spaces. */
  lemma StatusFields(version: string, status: string, explanation: string)
    requires ' ' !in version && ' ' !in status
    ensures SplitN(version + " " + status + " " + explanation, 3, " ") == [version, status, explanation]
  {
    var tail := status + " " + explanation;
    assert version + " " + status + " " + explanation == version + [' '] + tail;
    SplitNAtChar(version, ' ', tail, 3);
    SplitNAtChar(status, ' ', explanation, 2);
  }

  /** The first line of the head is the status line. */
  lemma StatusLineOfHead(response: string, head: string, rest: string, statusLine: string)
    requires HeadThenRest(response, head, rest)
    requires FirstPiece(head, LineEnd, statusLine)
    ensures |Split(response, HeaderEnd)| >= 2 && Split(response, HeaderEnd)[0] == head
    ensures Split(head, LineEnd)[0] == statusLine
  {
    SplitAtHead(response, head, rest);
    SplitHead(head, LineEnd);
    FirstPieceUnique(head, LineEnd, statusLine, Split(head, LineEnd)[0]);
  }

  /** Only the status `200` is accepted; any other status is a server error
      that reports the status and the explanation. With status `200` the
      result is the header map of the lines after the status line and the
      body, or the header map's own failure. */
  lemma StatusMustBeOk(response: string, head: string, rest: string,
                       version: string, status: string, explanation: string)
    requires HeadThenRest(response, head, rest)
    requires FirstPiece(head, LineEnd, version + " " + status + " " + explanation)
    requires ' ' !in version && ' ' !in status
    ensures status != StatusOk ==> ParsedResponse(response) == Failure(ServerError(status, explanation))
    ensures status == StatusOk ==>
      ParsedResponse(response) ==
        (match HeaderMap(Split(head, LineEnd)[1..])
         case Success(headers) => Success(Response(headers, Split(rest, HeaderEnd)[0]))
         case Failure(e) => Failure(e))
  {
    var line := version + " " + status + " " + explanation;
    StatusLineOfHead(response, head, rest, line);
    StatusFields(version, status, explanation);
    assert StatusFieldsOf(line) == Success((version, status, explanation));
    assert ParsedHead(head) == if status != StatusOk then Failure(ServerError(status, explanation))
      else HeaderMap(Split(head, LineEnd)[1..]);
    SplitAtHead(response, head, rest);
  }

  /** A response with status `200` is accepted exactly when every line
      after the status line holds a `:`. */
  lemma OkResponseSucceeds(response: string, head: string, rest: string,
                           version: string, explanation: string)
    requires HeadThenRest(response, head, rest)
    requires FirstPiece(head, LineEnd, version + " " + StatusOk + " " + explanation)
    requires ' ' !in version
    ensures var lines := Split(head, LineEnd)[1..];
      ParsedResponse(response).Success? <==> forall j :: 0 <= j < |lines| ==> ':' in lines[j]
  {
    StatusMustBeOk(response, head, rest, version, StatusOk, explanation);
    HeaderMapSucceeds(Split(head, LineEnd)[1..]);
  }

  /** A status line without a space has no status field. */
  lemma StatusLineWithoutSpace(response: string, head: string, rest: string, statusLine: string)
    requires HeadThenRest(response, head, rest)
    requires FirstPiece(head, LineEnd, statusLine)
    requires ' ' !in statusLine
    ensures ParsedResponse(response) == Failure(MissingStatus)
  {
    StatusLineOfHead(response, head, rest, statusLine);
    FirstPieceChar(statusLine, ' ', statusLine);
    SplitNWhole(statusLine, 3, " ");
    SplitAtHead(response, head, rest);
  }

  /** A status line with one space has no explanation field, even when its
      status is `200`. */
  lemma StatusLineWithOneSpace(response: string, head: string, rest: string,
                               version: string, status: string)
    requires HeadThenRest(response, head, rest)
    requires FirstPiece(head, LineEnd, version + " " + status)
    requires ' ' !in version && ' ' !in status
    ensures ParsedResponse(response) == Failure(MissingExplanation)
  {
    var line := version + " " + status;
    StatusLineOfHead(response, head, rest, line);
    SplitNAtChar(version, ' ', status, 3);
    FirstPieceChar(status, ' ', status);
    SplitNWhole(status, 2, " ");
    SplitAtHead(response, head, rest);
  }

  /** The header map is built from the lines after the status line only. */
  lemma HeadersAfterStatusLine(response: string, head: string, rest: string,
                               statusLine: string, fields: string)
    requires HeadThenRest(response, head, rest)
    requires head == statusLine + LineEnd + fields && NoneBetween(head, LineEnd, 0, |statusLine|)
    requires ParsedResponse(response).Success?
    ensures HeaderMap(Split(fields, LineEnd)).Success?
    ensures ParsedResponse(response).value.headers == HeaderMap(Split(fields, LineEnd)).value
  {
    assert head[|statusLine|..|statusLine| + 2] == LineEnd;
    assert FirstPiece(head, LineEnd, statusLine);
    SplitAt(head, LineEnd, statusLine);
    assert head[|statusLine| + 2..] == fields;
    assert Split(head, LineEnd)[1..] == Split(fields, LineEnd);
    SplitAtHead(response, head, rest);
    assert Split(response, HeaderEnd)[0] == head;
  }

  /** A response whose head is only the status line has no headers. */
  lemma NoHeaderLines(response: string, head: string, rest: string)
    requires HeadThenRest(response, head, rest)
    requires NoneBetween(head, LineEnd, 0, |head| + 1)
    requires ParsedResponse(response).Success?
    ensures ParsedResponse(response).value.headers == map[]
  {
    SplitWhole(head, LineEnd);
    SplitAtHead(response, head, rest);
  }
}

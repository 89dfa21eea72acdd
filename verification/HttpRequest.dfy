/** The HTTP request parser: lines by compressed splitting, a first line of three parts, headers at the
    first colon and blank, the last line as body. */
module HttpRequest {
  import opened Text

  type Header = (string, string)

  datatype Parsed = Parsed(method_: string, uri_path: string, http_version: string, headers: seq<Header>, body: string)

  const LINE_ENDS := {'\r', '\n'}

  /** The parts of a well-formed first line. */
  function FirstLine(line: string): Option<(string, string, string)> {
    var comps := Split(line, {' '});
    if |comps| == 3 && (comps[0] == "GET" || comps[0] == "POST") && Find(comps[2], "HTTP/1.1").Some?
    then Some((comps[0], comps[1], comps[2]))
    else None
  }

  function HeaderOf(line: string): seq<Header> {
    match Find(line, ": ")
    case None => []
    case Some(i) => [(line[..i], line[i+2..])]
  }

  function HeadersOf(lines: seq<string>): seq<Header> {
    if lines == [] then [] else HeadersOf(lines[..|lines|-1]) + HeaderOf(lines[|lines|-1])
  }

  /** The lines of a request; None when it has no line end at all. */
  function LinesOf(raw: string): Option<seq<string>> {
    if Find(raw, "\r\n\r\n").Some? then Some(Split(raw, LINE_ENDS))
    else if Find(raw, "\n").Some? then Some(Split(raw, {'\n'}))
    else None
  }

  /** What the request parses to; None when it is malformed. */
  function ParsedRequest(raw: string): Option<Parsed> {
    match LinesOf(raw)
    case None => None
    case Some(lines) =>
      match FirstLine(lines[0])
      case None => None
      case Some((m, u, v)) =>
        var inner := if |lines| >= 2 then lines[1..|lines|-1] else [];
        Some(Parsed(m, u, v, HeadersOf(inner), lines[|lines|-1]))
  }

  /** The request handed on: the parsed one, or the one for the page of malformed requests. */
  function Handled(raw: string): Parsed {
    match ParsedRequest(raw)
    case Some(p) => p
    case None => Parsed("GET", "/bad", "HTTP/1.1", [], "")
  }

  class Request {
    var req_: string
    var method_: string
    var uri_path_: string
    var http_version_: string
    var body_: string
    var header_fields_: seq<Header>

    ghost function Fields(): Parsed reads this {
      Parsed(method_, uri_path_, http_version_, header_fields_, body_)
    }

    constructor (req: string)
      ensures req_ == req && Fields() == Parsed("", "", "", [], "")
    {
      req_ := req;
      method_, uri_path_, http_version_, body_ := "", "", "", "";
      header_fields_ := [];
    }

    method check_first_request_line(req_line: string) returns (ok: bool)
      modifies this
      ensures req_ == old(req_)
      ensures match FirstLine(req_line)
              case None => !ok && Fields() == old(Fields())
              case Some((m, u, v)) => ok && Fields() == old(Fields()).(method_ := m, uri_path := u, http_version := v)
    {
      hide Split, Find;
      var req_comps := Split(req_line, {' '});
      if |req_comps| != 3 {
        return false;
      }
      if req_comps[0] != "GET" && req_comps[0] != "POST" {
        return false;
      }
      if Find(req_comps[2], "HTTP/1.1") == None {
        return false;
      }
      method_ := req_comps[0];
      uri_path_ := req_comps[1];
      http_version_ := req_comps[2];
      return true;
    }

    method parse_request() returns (ok: bool)
      requires header_fields_ == [] && body_ == ""
      modifies this
      ensures match ParsedRequest(req_)
              case None => !ok && Fields() == old(Fields())
              case Some(p) => ok && Fields() == p
      ensures req_ == old(req_)
    {
      hide Split, Find, FirstLine, HeadersOf;
      var req_lines;
      if Find(req_, "\r\n\r\n").Some? {
        req_lines := Split(req_, LINE_ENDS);
      } else if Find(req_, "\n").Some? {
        req_lines := Split(req_, {'\n'});
      } else {
        return false;
      }
      ok := check_first_request_line(req_lines[0]);
      if !ok {
        return;
      }
      ghost var first := Fields();
      NoHeaders();
      assert |req_lines| >= 2 ==> req_lines[1..1] == [];
      var i := 1;
      while i < |req_lines| - 1
        invariant 1 <= i && (i <= |req_lines| - 1 || i == 1)
        invariant req_ == old(req_)
        invariant Fields() == first.(headers := if i < |req_lines| then HeadersOf(req_lines[1..i]) else [])
      {
        HeadersStep(req_lines, i);
        var colon_index := Find(req_lines[i], ": ");
        if colon_index.Some? {
          var header_key := req_lines[i][..colon_index.value];
          var header_value := req_lines[i][colon_index.value+2..];
          header_fields_ := header_fields_ + [(header_key, header_value)];
        }
        i := i + 1;
      }
      body_ := req_lines[|req_lines|-1];
      return true;
    }

    static method request_handler(raw_req: string) returns (request: Request)
      ensures fresh(request) && request.req_ == raw_req && request.Fields() == Handled(raw_req)
      ensures (forall m, u, v :: !StartsRequest(raw_req, m, u, v)) ==>
                request.Fields() == Parsed("GET", "/bad", "HTTP/1.1", [], "")
      ensures forall m, u, v :: StartsRequest(raw_req, m, u, v) ==>
                request.method_ == m && request.uri_path_ == u && request.http_version_ == v
    {
      hide StartsRequest, ParsedRequest;
      RequestExactly(raw_req);
      request := new Request(raw_req);
      var ok := request.parse_request();
      if !ok {
        request.method_ := "GET";
        request.uri_path_ := "/bad";
        request.http_version_ := "HTTP/1.1";
      }
    }
  }

  lemma NoHeaders()
    ensures HeadersOf([]) == []
  {
  }

  lemma HeadersStep(lines: seq<string>, i: nat)
    requires 1 <= i < |lines|
    ensures HeadersOf(lines[1..i+1]) == HeadersOf(lines[1..i]) + HeaderOf(lines[i])
  {
    assert lines[1..i+1][..i-1] == lines[1..i];
  }

  /** Every request handed on has one of the two methods, a path without blanks that is not empty, and
      a version part that holds "HTTP/1.1"; one that was parsed has no line feed in its body. */
  lemma HandledShape(raw: string)
    ensures var p := Handled(raw);
            && (p.method_ == "GET" || p.method_ == "POST")
            && p.uri_path != "" && Free(p.uri_path, {' '})
            && Contains(p.http_version, "HTTP/1.1")
            && Free(p.body, {'\n'})
  {
    hide Split, Find;
    match ParsedRequest(raw)
    case None =>
      ContainsPrefix("HTTP/1.1", "HTTP/1.1");
    case Some(p) =>
      var lines := LinesOf(raw).value;
      SplitPieces(lines[0], {' '});
      SplitPieces(raw, LINE_ENDS);
      SplitPieces(raw, {'\n'});
      assert Free(lines[|lines|-1], {'\n'});
  }

  // ---------- what is a request, in terms of the text ----------

  predicate Blanks(s: string) { s != "" && forall i | 0 <= i < |s| :: s[i] == ' ' }

  /** The line is three parts with blanks between them: a method, a target, and a part that holds the version. */
  ghost predicate RequestLine(line: string, m: string, u: string, v: string) {
    && (m == "GET" || m == "POST")
    && u != "" && (forall i | 0 <= i < |u| :: u[i] != ' ')
    && Contains(v, "HTTP/1.1") && (forall i | 0 <= i < |v| :: v[i] != ' ')
    && exists b, c :: Blanks(b) && Blanks(c) && line == m + (b + (u + (c + v)))
  }

  /** The text starts with the line: up to the first carriage return or line feed when there is an empty line with
      CRLFs somewhere, up to the first line feed otherwise. */
  ghost predicate StartsWithLine(raw: string, line: string) {
    && |line| < |raw| && raw[..|line|] == line
    && if Contains(raw, "\r\n\r\n") then
         (raw[|line|] == '\r' || raw[|line|] == '\n') && forall i | 0 <= i < |line| :: line[i] != '\r' && line[i] != '\n'
       else
         raw[|line|] == '\n' && forall i | 0 <= i < |line| :: line[i] != '\n'
  }

  ghost predicate StartsRequest(raw: string, m: string, u: string, v: string) {
    exists line :: StartsWithLine(raw, line) && RequestLine(line, m, u, v)
  }

  /** A text with two pieces or more is its first piece, a run of delimiters, and a text with the other pieces. */
  lemma SplitApart(s: string, d: set<char>) returns (run: string, rest: string)
    requires |Split(s, d)| > 1
    ensures run != "" && (forall i | 0 <= i < |run| :: run[i] in d)
    ensures s == Split(s, d)[0] + (run + rest) && Split(s, d) == [Split(s, d)[0]] + Split(rest, d)
  {
    SplitUnfolds(s, d);
    hide Split, Skip, Span;
    var k := Span(s, d);
    rest := Skip(s[k+1..], d);
    run := RunUpTo(s, d, k, rest);
  }

  lemma RunUpTo(s: string, d: set<char>, k: nat, rest: string) returns (run: string)
    requires k < |s| && s[k] in d && rest == Skip(s[k+1..], d)
    ensures run != "" && (forall i | 0 <= i < |run| :: run[i] in d) && s == s[..k] + (run + rest)
  {
    hide Skip;
    var tail := s[k+1..];
    var n := |tail| - |rest|;
    assert tail[n..] == rest;
    run := [s[k]] + tail[..n];
    OneAndSome(s, k, n);
  }

  lemma OneAndSome(s: string, k: nat, n: nat)
    requires k < |s| && n <= |s| - k - 1
    ensures s == s[..k] + ([s[k]] + s[k+1..][..n] + s[k+1..][n..])
  {
    var tail := s[k+1..];
    assert tail == tail[..n] + tail[n..];
    Regroup([s[k]], tail[..n], tail[n..]);
    assert s[k..] == [s[k]] + tail;
    assert s == s[..k] + s[k..];
  }

  lemma BlanksOf(run: string)
    requires run != "" && forall i | 0 <= i < |run| :: run[i] in {' '}
    ensures Blanks(run)
  {
  }

  /** The check of the first line accepts exactly the request lines, and takes their parts. */
  lemma FirstLineIs(line: string, m: string, u: string, v: string)
    ensures FirstLine(line) == Some((m, u, v)) <==> RequestLine(line, m, u, v)
  {
    if FirstLine(line) == Some((m, u, v)) {
      FirstLineApart(line, m, u, v);
    }
    if RequestLine(line, m, u, v) {
      var b, c :| Blanks(b) && Blanks(c) && line == m + (b + (u + (c + v)));
      FirstLineJoined(m, b, u, c, v);
    }
  }

  lemma FirstLineApart(line: string, m: string, u: string, v: string)
    requires FirstLine(line) == Some((m, u, v))
    ensures RequestLine(line, m, u, v)
  {
    hide Split, Find, Contains;
    assert Split(line, {' '}) == [m, u, v];
    SplitPieces(line, {' '});
    var b, c := ThreePieces(line, m, u, v);
    assert Free(u, {' '}) && Free(v, {' '}) && u != "" by {
      assert Split(line, {' '})[1] == u && Split(line, {' '})[2] == v;
    }
  }

  lemma ThreePieces(line: string, m: string, u: string, v: string) returns (b: string, c: string)
    requires Split(line, {' '}) == [m, u, v]
    ensures Blanks(b) && Blanks(c) && line == m + (b + (u + (c + v)))
  {
    hide Split, Blanks;
    var rest, last;
    b, rest := SplitApart(line, {' '});
    TailOfPieces(m, Split(rest, {' '}), [u, v]);
    c, last := SplitApart(rest, {' '});
    TailOfPieces(u, Split(last, {' '}), [v]);
    OnePiece(last, {' '});
    BlanksOf(b);
    BlanksOf(c);
  }

  lemma TailOfPieces(first: string, a: seq<string>, b: seq<string>)
    requires [first] + a == [first] + b
    ensures a == b
  {
    assert ([first] + a)[1..] == a && ([first] + b)[1..] == b;
  }

  lemma OnePiece(s: string, d: set<char>)
    requires |Split(s, d)| == 1
    ensures Split(s, d) == [s]
  {
    SplitUnfolds(s, d);
    hide Split, Span, Skip;
  }

  lemma FirstLineJoined(m: string, b: string, u: string, c: string, v: string)
    requires RequestLine(m + (b + (u + (c + v))), m, u, v) && Blanks(b) && Blanks(c)
    ensures FirstLine(m + (b + (u + (c + v)))) == Some((m, u, v))
  {
    hide Split, Find;
    var tail := u + (c + v);
    assert Free(m, {' '}) && tail[0] == u[0];
    Regroup(m, b, tail);
    SplitStep(m, b, tail, {' '});
    VersionNotEmpty(v);
    Regroup(u, c, v);
    SplitStep(u, c, v, {' '});
    SplitWhole(v, {' '});
  }

  /** The first line read is the line the text starts with; there is none exactly when there is no line feed. */
  lemma FirstOfLines(raw: string, line: string)
    ensures LinesOf(raw).Some? && LinesOf(raw).value[0] == line && |LinesOf(raw).value| > 1 <==> StartsWithLine(raw, line)
    ensures LinesOf(raw).Some? ==> |LinesOf(raw).value| > 1
  {
    hide Split, Find;
    LineFeedInBlankLine(raw);
    if Contains(raw, "\r\n\r\n") {
      var i: nat :| OccursAt(raw, "\r\n\r\n", i);
      assert raw[i] == raw[i..][0] == '\r';
      FirstPieceIs(raw, LINE_ENDS, i, line);
    } else if Contains(raw, "\n") {
      var i: nat :| OccursAt(raw, "\n", i);
      assert raw[i] == raw[i..][0] == '\n';
      FirstPieceIs(raw, {'\n'}, i, line);
    } else {
      NoLineFeed(raw, line);
    }
  }

  lemma NoLineFeed(raw: string, line: string)
    requires !Contains(raw, "\n")
    ensures !StartsWithLine(raw, line)
  {
    LineFeedInBlankLine(raw);
    hide Contains;
    forall i | 0 <= i < |raw| ensures raw[i] != '\n' { LetterOccurs(raw, i); }
  }

  lemma LetterOccurs(s: string, i: nat)
    requires i < |s|
    ensures Contains(s, [s[i]])
  {
    assert s[i..][0] == s[i];
    assert OccursAt(s, [s[i]], i);
  }

  lemma LineFeedInBlankLine(raw: string)
    ensures Contains(raw, "\r\n\r\n") ==> Contains(raw, "\n")
  {
    if i: nat :| OccursAt(raw, "\r\n\r\n", i) {
      assert raw[i..][1] == '\n' && raw[i..][1..] == raw[i+1..];
      assert OccursAt(raw, "\n", i + 1);
    }
  }

  lemma FirstPieceIs(s: string, d: set<char>, i: nat, line: string)
    requires i < |s| && s[i] in d
    ensures |Split(s, d)| > 1
    ensures Split(s, d)[0] == line <==> |line| < |s| && s[..|line|] == line && s[|line|] in d && Free(line, d)
  {
    SplitUnfolds(s, d);
    hide Split, Skip;
    assert Span(s, d) < |s|;
    SpanPrefix(s, d, line);
    hide Span, Free;
  }

  lemma SpanPrefix(s: string, d: set<char>, line: string)
    requires Span(s, d) < |s|
    ensures s[..Span(s, d)] == line <==> |line| < |s| && s[..|line|] == line && s[|line|] in d && Free(line, d)
  {
    if |line| < |s| && s[..|line|] == line && s[|line|] in d && Free(line, d) {
      assert forall j | 0 <= j < |line| :: s[j] == line[j];
      SpanIs(s, d, |line|);
    }
    hide Span;
    assert forall j | 0 <= j < Span(s, d) :: s[..Span(s, d)][j] == s[j];
  }

  /** A text is a request exactly when it starts with a request line, and then has that line's parts. Every other
      text becomes the request for the page of malformed requests. */
  lemma RequestExactly(raw: string)
    ensures forall m, u, v :: StartsRequest(raw, m, u, v) ==>
              Handled(raw).method_ == m && Handled(raw).uri_path == u && Handled(raw).http_version == v
    ensures (forall m, u, v :: !StartsRequest(raw, m, u, v)) ==> Handled(raw) == Parsed("GET", "/bad", "HTTP/1.1", [], "")
    ensures ParsedRequest(raw).Some? <==> exists m, u, v :: StartsRequest(raw, m, u, v)
  {
    hide LinesOf, FirstLine, HeadersOf, RequestLine, StartsWithLine;
    forall m, u, v | StartsRequest(raw, m, u, v)
      ensures ParsedRequest(raw).Some?
      ensures Handled(raw).method_ == m && Handled(raw).uri_path == u && Handled(raw).http_version == v
    {
      var line :| StartsWithLine(raw, line) && RequestLine(line, m, u, v);
      FirstOfLines(raw, line);
      FirstLineIs(line, m, u, v);
    }
    match ParsedRequest(raw)
    case None =>
    case Some(p) =>
      FirstOfLines(raw, "");
      var line := LinesOf(raw).value[0];
      FirstOfLines(raw, line);
      FirstLineIs(line, p.method_, p.uri_path, p.http_version);
      assert StartsRequest(raw, p.method_, p.uri_path, p.http_version);
  }

  /** Headers are read line by line, and a line without a colon-blank counts for nothing. */
  lemma {:induction false} HeadersAppend(a: seq<string>, b: seq<string>)
    ensures HeadersOf(a + b) == HeadersOf(a) + HeadersOf(b)
  {
    hide HeaderOf;
    if b == [] {
      assert a + b == a;
    } else {
      var n := |b| - 1;
      assert (a + b)[..|a|+n] == a + b[..n] && (a + b)[|a|+n] == b[n];
      HeadersAppend(a, b[..n]);
      assert HeadersOf(a + b) == HeadersOf(a + b[..n]) + HeaderOf(b[n]);
    }
  }

  lemma BadLineDisregarded(a: seq<string>, line: string, b: seq<string>)
    requires !Contains(line, ": ")
    ensures HeadersOf(a + [line] + b) == HeadersOf(a + b)
  {
    hide HeadersOf, Contains;
    HeadersAppend(a + [line], b);
    HeadersAppend(a, [line]);
    HeadersAppend(a, b);
    NoHeaders();
    HeadersSnoc([line]);
    assert [line][..0] == [];
  }

  /** Lines with a run of line ends behind each, and a last one without. */
  function WithRuns(lines: seq<string>, runs: seq<string>, body: string): string
    requires |runs| == |lines|
  {
    if lines == [] then body else lines[0] + runs[0] + WithRuns(lines[1..], runs[1..], body)
  }

  lemma {:induction false} SplitRuns(lines: seq<string>, runs: seq<string>, body: string, d: set<char>)
    requires |runs| == |lines| && forall i | 0 <= i < |lines| :: lines[i] != "" && Free(lines[i], d)
    requires forall i | 0 <= i < |runs| :: runs[i] != "" && forall j | 0 <= j < |runs[i]| :: runs[i][j] in d
    requires Free(body, d)
    ensures Split(WithRuns(lines, runs, body), d) == lines + [body]
  {
    hide Split;
    if lines == [] {
      SplitWhole(body, d);
    } else {
      var rest := WithRuns(lines[1..], runs[1..], body);
      RunsStart(lines[1..], runs[1..], body, d);
      SplitStep(lines[0], runs[0], rest, d);
      SplitRuns(lines[1..], runs[1..], body, d);
    }
  }

  lemma RunsStart(lines: seq<string>, runs: seq<string>, body: string, d: set<char>)
    requires |runs| == |lines| && forall i | 0 <= i < |lines| :: lines[i] != "" && Free(lines[i], d)
    requires Free(body, d)
    ensures var s := WithRuns(lines, runs, body); s != "" ==> s[0] !in d
  {
  }

  /** How a text is read: its first line gives method, target and version, the lines between give the headers, and
      the last line is the body. Lines end with line feeds alone, unless there is an empty line with CRLFs
      somewhere; then carriage returns end them too. Empty lines count for nothing. */
  lemma TextIsRead(lines: seq<string>, runs: seq<string>, body: string, m: string, u: string, v: string)
    requires |runs| == |lines| > 0
    requires var raw := WithRuns(lines, runs, body);
             var d := if Contains(raw, "\r\n\r\n") then {'\r', '\n'} else {'\n'};
             && (forall i | 0 <= i < |lines| :: lines[i] != "" && Free(lines[i], d))
             && (forall i | 0 <= i < |runs| :: runs[i] != "" && forall j | 0 <= j < |runs[i]| :: runs[i][j] in d)
             && Free(body, d)
    requires RequestLine(lines[0], m, u, v)
    ensures ParsedRequest(WithRuns(lines, runs, body)) == Some(Parsed(m, u, v, HeadersOf(lines[1..]), body))
  {
    hide Split, Find, FirstLine, HeadersOf, RequestLine;
    var raw := WithRuns(lines, runs, body);
    var d := if Contains(raw, "\r\n\r\n") then {'\r', '\n'} else {'\n'};
    SplitRuns(lines, runs, body, d);
    HasLineEnd(lines, runs, body);
    hide WithRuns;
    if !Contains(raw, "\r\n\r\n") {
      assert runs[0][0] in d;
      LetterOccurs(raw, |lines[0]|);
    }
    FirstLineIs(lines[0], m, u, v);
    var all := lines + [body];
    assert all[1..|all|-1] == lines[1..];
  }

  lemma HasLineEnd(lines: seq<string>, runs: seq<string>, body: string)
    requires |runs| == |lines| > 0 && runs[0] != ""
    ensures var raw := WithRuns(lines, runs, body); |lines[0]| < |raw| && raw[|lines[0]|] == runs[0][0]
  {
  }

  // ---------- serialised requests ----------

  function HeaderLine(h: Header): string { h.0 + ": " + h.1 }

  function HeaderLines(hs: seq<Header>): (lines: seq<string>)
    ensures |lines| == |hs| && forall i | 0 <= i < |hs| :: lines[i] == HeaderLine(hs[i])
  {
    seq(|hs|, i requires 0 <= i < |hs| => HeaderLine(hs[i]))
  }

  /** Lines, each with its CRLF, an empty line, and the body. */
  function Lines(lines: seq<string>, body: string): string {
    if lines == [] then "\r\n" + body else lines[0] + "\r\n" + Lines(lines[1..], body)
  }

  function Serialised(p: Parsed): string {
    Lines([p.method_ + " " + p.uri_path + " " + p.http_version] + HeaderLines(p.headers), p.body)
  }

  /** The parts a request line and headers may be made of (sections 3.1.1 and 3.2 of RFC 7230, for the two
      methods the server knows). */
  ghost predicate Sendable(p: Parsed) {
    && (p.method_ == "GET" || p.method_ == "POST")
    && p.uri_path != "" && Free(p.uri_path, {' ', '\r', '\n'})
    && Free(p.http_version, {' ', '\r', '\n'}) && Contains(p.http_version, "HTTP/1.1")
    && forall i | 0 <= i < |p.headers| :: SendableHeader(p.headers[i])
  }

  ghost predicate SendableHeader(h: Header) {
    Free(h.0, LINE_ENDS) && Free(h.1, LINE_ENDS)
  }

  lemma {:induction false} SplitLines(lines: seq<string>, body: string)
    requires lines != [] && forall i | 0 <= i < |lines| :: lines[i] != "" && Free(lines[i], LINE_ENDS)
    requires Free(body, LINE_ENDS)
    ensures Split(Lines(lines, body), LINE_ENDS) == lines + [body]
  {
    hide Split;
    var first := lines[0];
    if |lines| == 1 {
      assert Lines(lines, body) == first + "\r\n\r\n" + body by { OneLine(first, body); assert lines == [first]; }
      assert body != "" ==> body[0] !in LINE_ENDS;
      SplitStep(first, "\r\n\r\n", body, LINE_ENDS);
      SplitWhole(body, LINE_ENDS);
    } else {
      var rest := Lines(lines[1..], body);
      assert rest[0] == lines[1][0] && lines[1][0] !in LINE_ENDS;
      SplitStep(first, "\r\n", rest, LINE_ENDS);
      SplitLines(lines[1..], body);
    }
  }

  lemma OneLine(first: string, body: string)
    ensures Lines([first], body) == first + "\r\n\r\n" + body
  {
    assert Lines([], body) == "\r\n" + body;
    assert [first][1..] == [];
  }

  lemma {:induction false} BlankLineFound(lines: seq<string>, body: string)
    requires lines != []
    ensures Contains(Lines(lines, body), "\r\n\r\n")
  {
    var text := Lines(lines, body);
    if |lines| == 1 {
      assert lines == [lines[0]];
      OneLine(lines[0], body);
      assert text[|lines[0]|..] == "\r\n\r\n" + body;
      assert OccursAt(text, "\r\n\r\n", |lines[0]|);
    } else {
      BlankLineFound(lines[1..], body);
      var rest := Lines(lines[1..], body);
      var i: nat :| OccursAt(rest, "\r\n\r\n", i);
      var n := |lines[0] + "\r\n"|;
      assert text[n..] == rest;
      assert text[n+i..] == rest[i..];
      assert OccursAt(text, "\r\n\r\n", n + i);
    }
  }

  lemma FirstLineBack(m: string, u: string, v: string)
    requires (m == "GET" || m == "POST") && u != "" && Free(u, {' '}) && Free(v, {' '}) && Contains(v, "HTTP/1.1")
    ensures FirstLine(m + " " + u + " " + v) == Some((m, u, v))
  {
    hide Split, Find;
    var line := m + " " + u + " " + v;
    assert line == m + " " + (u + " " + v);
    assert Free(m, {' '});
    assert (u + " " + v)[0] == u[0];
    SplitStep(m, " ", u + " " + v, {' '});
    VersionNotEmpty(v);
    SplitStep(u, " ", v, {' '});
    SplitWhole(v, {' '});
  }

  lemma VersionNotEmpty(v: string)
    requires Contains(v, "HTTP/1.1")
    ensures v != ""
  {
  }

  /** A header line is split back into its name and value exactly when the name holds no colon-blank; it
      always gives one header. */
  lemma HeaderBack(h: Header)
    ensures |HeaderOf(HeaderLine(h))| == 1
    ensures HeaderOf(HeaderLine(h)) == [h] <==> !Contains(h.0, ": ")
  {
    var (k, line) := (h.0, HeaderLine(h));
    assert line[|k|..] == ": " + h.1;
    assert OccursAt(line, ": ", |k|);
    assert line[..|k|] == k && line[|k|+2..] == h.1;
    forall j: nat | j < |k| ensures OccursAt(line, ": ", j) <==> OccursAt(k, ": ", j) {
      ColonInName(h, j);
    }
    if Contains(k, ": ") {
      var j: nat :| OccursAt(k, ": ", j);
      ColonAt(k, j);
      assert Find(line, ": ").value <= j;
    } else {
      assert forall j: nat :: !OccursAt(k, ": ", j);
      FindIs(line, ": ", |k|);
    }
  }

  lemma ColonInName(h: Header, j: nat)
    requires j < |h.0|
    ensures OccursAt(HeaderLine(h), ": ", j) <==> OccursAt(h.0, ": ", j)
  {
    var (k, line) := (h.0, HeaderLine(h));
    ColonAt(line, j);
    ColonAt(k, j);
    assert line[j] == k[j] && line[j+1] == if j + 1 < |k| then k[j+1] else ':';
  }

  lemma ColonAt(s: string, i: nat)
    ensures OccursAt(s, ": ", i) <==> i + 2 <= |s| && s[i] == ':' && s[i+1] == ' '
  {
    if i + 2 <= |s| {
      assert s[i..][..2] == [s[i], s[i+1]];
    }
  }

  /** Headers come back as they were exactly when no name holds a colon-blank. */
  lemma {:induction false} HeadersBack(hs: seq<Header>)
    ensures |HeadersOf(HeaderLines(hs))| == |hs|
    ensures HeadersOf(HeaderLines(hs)) == hs <==> forall i | 0 <= i < |hs| :: !Contains(hs[i].0, ": ")
  {
    hide HeaderOf, HeaderLine, Contains, HeadersOf, HeaderLines;
    if hs == [] {
      NoHeaders();
      NoHeaderLines();
    } else {
      var (before, last) := (hs[..|hs|-1], hs[|hs|-1]);
      HeadersBack(before);
      HeaderBack(last);
      HeaderLinesSnoc(hs);
      HeadersSnoc(HeaderLines(hs));
      assert hs == before + [last];
      SameFront(HeadersOf(HeaderLines(before)), HeaderOf(HeaderLine(last)), before, [last]);
    }
  }

  lemma NoHeaderLines()
    ensures HeaderLines([]) == []
  {
  }

  lemma HeadersSnoc(lines: seq<string>)
    requires lines != []
    ensures HeadersOf(lines) == HeadersOf(lines[..|lines|-1]) + HeaderOf(lines[|lines|-1])
  {
  }

  lemma HeaderLinesSnoc(hs: seq<Header>)
    requires hs != []
    ensures HeaderLines(hs)[..|hs|-1] == HeaderLines(hs[..|hs|-1])
  {
  }

  lemma LinesAreClean(p: Parsed)
    requires Sendable(p)
    ensures var lines := [p.method_ + " " + p.uri_path + " " + p.http_version] + HeaderLines(p.headers);
            forall i | 0 <= i < |lines| :: lines[i] != "" && Free(lines[i], LINE_ENDS)
  {
    var lines := [p.method_ + " " + p.uri_path + " " + p.http_version] + HeaderLines(p.headers);
    forall i | 0 <= i < |lines| ensures lines[i] != "" && Free(lines[i], LINE_ENDS) {
      if i > 0 {
        assert SendableHeader(p.headers[i-1]) && lines[i] == HeaderLine(p.headers[i-1]);
      }
    }
  }

  lemma CleanBodyBack(p: Parsed)
    requires Sendable(p) && Free(p.body, LINE_ENDS)
    ensures ParsedRequest(Serialised(p)) == Some(p.(headers := HeadersOf(HeaderLines(p.headers))))
  {
    hide Split, Find, Lines, FirstLine, HeadersOf;
    var first := p.method_ + " " + p.uri_path + " " + p.http_version;
    var lines := [first] + HeaderLines(p.headers);
    LinesAreClean(p);
    BlankLineFound(lines, p.body);
    SplitLines(lines, p.body);
    FirstLineBack(p.method_, p.uri_path, p.http_version);
    var all := lines + [p.body];
    assert all[1..|all|-1] == HeaderLines(p.headers);
  }

  /** A serialised request is parsed back whole exactly when its body holds no line end, since the body is read
      as the last line, and no header name holds a colon-blank. */
  lemma RequestRoundTrip(p: Parsed)
    requires Sendable(p)
    ensures ParsedRequest(Serialised(p)) == Some(p) <==>
            Free(p.body, LINE_ENDS) && forall i | 0 <= i < |p.headers| :: !Contains(p.headers[i].0, ": ")
  {
    hide Split, Find, Lines, FirstLine, HeadersOf, Contains;
    if Free(p.body, LINE_ENDS) {
      CleanBodyBack(p);
      HeadersBack(p.headers);
    } else if ParsedRequest(Serialised(p)) == Some(p) {
      BodyIsLastLine(p);
      assert false;
    }
  }

  lemma BodyIsLastLine(p: Parsed)
    requires Sendable(p) && ParsedRequest(Serialised(p)).Some?
    ensures Free(ParsedRequest(Serialised(p)).value.body, LINE_ENDS)
  {
    hide Split, Find, Lines, FirstLine, HeadersOf;
    var lines := [p.method_ + " " + p.uri_path + " " + p.http_version] + HeaderLines(p.headers);
    BlankLineFound(lines, p.body);
    SplitPieces(Serialised(p), LINE_ENDS);
  }

  /** The request the proxy handler builds. */
  function ProxyRequest(path: string, host: string): string {
    "GET " + path + " HTTP/1.1\r\n" + "Host: " + host + "\r\n" + "Accept: */*\r\n" + "Connection: close\r\n\r\n"
  }

  lemma ProxyRequestParses(path: string, host: string)
    requires path != "" && Free(path, {' ', '\r', '\n'}) && Free(host, LINE_ENDS)
    ensures ParsedRequest(ProxyRequest(path, host)) ==
            Some(Parsed("GET", path, "HTTP/1.1", [("Host", host), ("Accept", "*/*"), ("Connection", "close")], ""))
  {
    hide ParsedRequest;
    hide Contains;
    var p := Parsed("GET", path, "HTTP/1.1", [("Host", host), ("Accept", "*/*"), ("Connection", "close")], "");
    ProxySendable(path, host);
    ProxySerialised(path, host);
    NoColon("Host");
    NoColon("Accept");
    NoColon("Connection");
    RequestRoundTrip(p);
  }

  lemma NoColon(s: string)
    requires Free(s, {':'})
    ensures !Contains(s, ": ")
  {
    forall i: nat ensures !OccursAt(s, ": ", i) { ColonAt(s, i); }
  }

  lemma PlainHeader(key: string, value: string)
    requires Free(key, LINE_ENDS) && Free(value, LINE_ENDS)
    ensures SendableHeader((key, value))
  {
  }

  lemma ProxySendable(path: string, host: string)
    requires path != "" && Free(path, {' ', '\r', '\n'}) && Free(host, LINE_ENDS)
    ensures Sendable(Parsed("GET", path, "HTTP/1.1", [("Host", host), ("Accept", "*/*"), ("Connection", "close")], ""))
  {
    hide SendableHeader;
    PlainHeader("Host", host);
    PlainHeader("Accept", "*/*");
    PlainHeader("Connection", "close");
    ContainsPrefix("HTTP/1.1", "HTTP/1.1");
    assert Free("HTTP/1.1", {' ', '\r', '\n'});
  }

  lemma LinesCons(first: string, rest: seq<string>, body: string)
    ensures Lines([first] + rest, body) == first + "\r\n" + Lines(rest, body)
  {
    assert ([first] + rest)[1..] == rest;
  }

  lemma ProxySerialised(path: string, host: string)
    ensures Serialised(Parsed("GET", path, "HTTP/1.1", [("Host", host), ("Accept", "*/*"), ("Connection", "close")], "")) ==
            ProxyRequest(path, host)
  {
    var (l1, l2, l3, l4) := ("GET" + " " + path + " " + "HTTP/1.1", "Host: " + host, "Accept: */*", "Connection: close");
    var hs := [("Host", host), ("Accept", "*/*"), ("Connection", "close")];
    assert HeaderLines(hs) == [l2, l3, l4] by {
      assert HeaderLine(hs[0]) == l2 && HeaderLine(hs[1]) == l3 && HeaderLine(hs[2]) == l4;
    }
    assert [l1] + [l2, l3, l4] == [l1, l2, l3, l4];
    hide Lines, HeaderLines;
    LinesCons(l1, [l2, l3, l4], "");
    assert [l2] + [l3, l4] == [l2, l3, l4];
    LinesCons(l2, [l3, l4], "");
    assert [l3] + [l4] == [l3, l4];
    LinesCons(l3, [l4], "");
    OneLine(l4, "");
    ProxyRegroup(path, host);
  }

  lemma ProxyRegroup(path: string, host: string)
    ensures "GET" + " " + path + " " + "HTTP/1.1" + "\r\n" +
            ("Host: " + host + "\r\n" + ("Accept: */*" + "\r\n" + ("Connection: close" + "\r\n\r\n" + ""))) ==
            ProxyRequest(path, host)
  {
    assert "GET " + path + " HTTP/1.1\r\n" == "GET" + " " + path + " " + "HTTP/1.1" + "\r\n";
    assert "Accept: */*\r\n" == "Accept: */*" + "\r\n";
    assert "Connection: close\r\n\r\n" == "Connection: close" + "\r\n\r\n" + "";
  }
}

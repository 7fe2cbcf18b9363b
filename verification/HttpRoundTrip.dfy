/** Whole requests: what is printed is what is parsed (http/http_request_parser.h,
    http/http_header_map.h). */
module HttpRoundTrips {
  import opened ByteArrays
  import opened HttpParsing
  import opened HttpPrinting

  // ---- Header maps --------------------------------------------------------------------

  /** The header maps that survive printing: lower-case keys free of controls, blanks and colons, values
      free of NUL that do not start with a blank and whose CRs, if any, cannot end the line. */
  ghost predicate HeadersFit(h: Headers) {
    forall key | key in h :: KeyFits(key) && ToLower(key) == key && ValueFits(h[key]) && 0 !in h[key]
  }

  lemma LineOfFits(h: Headers, order: seq<Bytes>, i: nat)
    requires HeadersFit(h) && KeysIn(order, h) && i < |order|
    ensures LinesOf(h, order)[i] == Named(order[i], [SP], h[order[i]]) && LineFits(LinesOf(h, order)[i])
  {
    assert order[i] in order;
  }

  lemma FirstLine(h: Headers, order: seq<Bytes>, start: Block)
    requires HeadersFit(h) && KeysIn(order, h) && order != [] && order[0] !in start.headers
    ensures order[0] in h && KeysIn(order[1..], h)
    ensures BlockOf(start, LinesOf(h, order))
         == BlockOf(Block(start.headers[order[0] := h[order[0]]], order[0]), LinesOf(h, order[1..]))
  {
    var key := order[0];
    var lines := LinesOf(h, order);
    assert key in order;
    LineOfFits(h, order, 0);
    assert ToLower(key) == key;
    hide HeadersFit, LineFits, ToLower, CString;
    assert lines[1..] == LinesOf(h, order[1..]);
  }

  lemma FirstOfDistinct(order: seq<Bytes>)
    requires order != [] && forall i, j | 0 <= i < j < |order| :: order[i] != order[j]
    ensures order[0] !in order[1..] && forall k :: k in order <==> k == order[0] || k in order[1..]
  {
    assert order == [order[0]] + order[1..];
  }

  lemma {:induction false} BlockOfDistinct(h: Headers, order: seq<Bytes>, start: Block)
    requires HeadersFit(h) && KeysIn(order, h)
    requires forall i, j | 0 <= i < j < |order| :: order[i] != order[j]
    requires forall key | key in order :: key !in start.headers
    ensures var r := BlockOf(start, LinesOf(h, order)).headers;
            && (forall key :: key in r <==> key in start.headers || key in order)
            && (forall key | key in r :: r[key] == if key in order then h[key] else start.headers[key])
    decreases |order|
  {
    if order == [] {
    } else {
      var key := order[0];
      var next := Block(start.headers[key := h[key]], key);
      FirstLine(h, order, start);
      hide HeadersFit, LinesOf, BlockOf;
      FirstOfDistinct(order);
      BlockOfDistinct(h, order[1..], next);
    }
  }

  lemma LinesFit(h: Headers, order: seq<Bytes>)
    requires HeadersFit(h) && KeysIn(order, h)
    ensures forall line | line in LinesOf(h, order) :: LineFits(line) && line.Named?
  {
    hide HeadersFit, LineFits, CString;
    var lines := LinesOf(h, order);
    forall line | line in lines ensures LineFits(line) && line.Named? {
      var i :| 0 <= i < |lines| && lines[i] == line;
      LineOfFits(h, order, i);
    }
  }

  lemma SameMap(h: Headers, r: Headers)
    requires forall key :: key in r <==> key in h
    requires forall key | key in r :: r[key] == h[key]
    ensures r == h
  {
  }

  /** The lines of a header map mean the map, whatever the order. */
  lemma MapLines(h: Headers, order: seq<Bytes>, lastKey: Bytes)
    requires HeadersFit(h) && IsOrder(h, order)
    ensures BlockOf(Block(map[], lastKey), LinesOf(h, order)).headers == h
    ensures forall line | line in LinesOf(h, order) :: LineFits(line) && line.Named?
  {
    LinesFit(h, order);
    BlockOfDistinct(h, order, Block(map[], lastKey));
    hide HeadersFit, LineFits, BlockOf, LinesOf;
    SameMap(h, BlockOf(Block(map[], lastKey), LinesOf(h, order)).headers);
  }

  /** The parser's header states read a printed header map back, whatever order it was printed in. */
  lemma HeaderRoundTrip(env: HttpEnv, p: State, h: Headers, order: seq<Bytes>)
    requires HeadersFit(h) && IsOrder(h, order)
    requires AtLineStart(p) && p.request.headers == map[]
    ensures exists q :: AtLineStart(q) && Reaches(env, p, PrintLines(LinesOf(h, order)), q)
                        && q.request == p.request.(headers := h)
  {
    var lines := LinesOf(h, order);
    hide HeadersFit, LineFits, Reaches, AtLineStart, BlockOf, PrintLines;
    MapLines(h, order, p.headerKey);
    LinesReach(env, p, lines);
  }

  // ---- Requests -----------------------------------------------------------------------

  function PrintVersion(req: Request): Bytes
    requires req.majorVersion < 10 && req.minorVersion < 10
  {
    [CHAR_H, CHAR_T, CHAR_T, CHAR_P, SLASH, 48 + req.majorVersion, DOT, 48 + req.minorVersion, CR, LF]
  }

  function PrintRequestLine(req: Request): Bytes
    requires req.majorVersion < 10 && req.minorVersion < 10
  {
    req.verb + [SP] + req.uri + [SP] + PrintVersion(req)
  }

  function PrintRequest(req: Request, lines: seq<HeaderLine>): Bytes
    requires req.majorVersion < 10 && req.minorVersion < 10
  {
    PrintRequestLine(req) + PrintLines(lines) + CRLF + req.payload
  }

  predicate RequestLineFits(env: HttpEnv, req: Request) {
    && (forall b | b in req.verb :: IsUpper(b)) && env.knownMethod(req.verb)
    && req.uri != [] && (forall b | b in req.uri :: IsUrlByte(b))
    && req.majorVersion < 10 && req.minorVersion < 10
  }

  /** The payload is as long as the headers declare and within the limit. */
  predicate PayloadFits(env: HttpEnv, req: Request) {
    DeclaredLength(env, req.headers) == Some(|req.payload|) && (req.payload == [] || |req.payload| <= env.max)
  }

  lemma VerbPushed(env: HttpEnv, p: State, verb: Bytes)
    requires p.at == METHOD && p.buffer == [] && forall b | b in verb :: IsUpper(b)
    ensures Reaches(env, p, verb, p.(buffer := verb))
  {
    forall i | 0 <= i < |verb|
      ensures Step(env, p.(buffer := p.buffer + verb[..i]), verb[i])
           == GoOn(p.(buffer := p.buffer + verb[..i] + [verb[i]]))
    {
      assert verb[i] in verb;
    }
    hide Step, IsUpper;
    PushedReaches(env, p, verb);
    assert p.buffer + verb == verb;
  }

  lemma UriPushed(env: HttpEnv, p: State, uri: Bytes)
    requires p.at == URI && p.buffer == [] && forall b | b in uri :: IsUrlByte(b)
    ensures Reaches(env, p, uri, p.(buffer := uri))
  {
    forall i | 0 <= i < |uri|
      ensures Step(env, p.(buffer := p.buffer + uri[..i]), uri[i])
           == GoOn(p.(buffer := p.buffer + uri[..i] + [uri[i]]))
    {
      assert uri[i] in uri;
    }
    hide Step, IsUrlByte;
    PushedReaches(env, p, uri);
    assert p.buffer + uri == uri;
  }

  lemma VerbReaches(env: HttpEnv, verb: Bytes)
    requires (forall b | b in verb :: IsUpper(b)) && env.knownMethod(verb)
    ensures Reaches(env, BEGIN, verb + [SP], BEGIN.(at := URI, request := NO_REQUEST.(verb := verb)))
  {
    VerbPushed(env, BEGIN, verb);
    var p := BEGIN.(buffer := verb);
    var q := BEGIN.(at := URI, request := NO_REQUEST.(verb := verb));
    OneByte(env, p, SP, q);
    Then(env, BEGIN, verb, p, [SP], q);
  }

  lemma UriReaches(env: HttpEnv, p: State, uri: Bytes)
    requires p.at == URI && p.buffer == [] && uri != [] && forall b | b in uri :: IsUrlByte(b)
    ensures Reaches(env, p, uri + [SP], p.(at := HTTP_H, request := p.request.(uri := uri)))
  {
    UriPushed(env, p, uri);
    var q := p.(buffer := uri);
    var r := p.(at := HTTP_H, request := p.request.(uri := uri));
    OneByte(env, q, SP, r);
    Then(env, p, uri, q, [SP], r);
  }

  lemma VersionReaches(env: HttpEnv, p: State, req: Request)
    requires p.at == HTTP_H && req.majorVersion < 10 && req.minorVersion < 10
    ensures Reaches(env, p, PrintVersion(req), p.(at := HEADER_KEY, request :=
                      p.request.(majorVersion := req.majorVersion, minorVersion := req.minorVersion)))
  {
    var major := p.request.(majorVersion := req.majorVersion);
    var minor := major.(minorVersion := req.minorVersion);
    PathReaches(env,
      [p, p.(at := HTTP_HT), p.(at := HTTP_HTT), p.(at := HTTP_HTTP), p.(at := HTTP_HTTP_SLASH),
       p.(at := MAJOR_VERSION), p.(at := VERSION_DOT, request := major), p.(at := MINOR_VERSION, request := major),
       p.(at := NEW_LINE_CR, request := minor), p.(at := NEW_LINE_CRLF, request := minor),
       p.(at := HEADER_KEY, request := minor)],
      PrintVersion(req));
  }

  lemma RequestLineReaches(env: HttpEnv, req: Request)
    requires RequestLineFits(env, req)
    ensures Reaches(env, BEGIN, PrintRequestLine(req),
                    BEGIN.(at := HEADER_KEY, request := req.(headers := map[], payload := [])))
  {
    var a := BEGIN.(at := URI, request := NO_REQUEST.(verb := req.verb));
    var b := a.(at := HTTP_H, request := a.request.(uri := req.uri));
    var c := BEGIN.(at := HEADER_KEY, request := req.(headers := map[], payload := []));
    VerbReaches(env, req.verb);
    UriReaches(env, a, req.uri);
    VersionReaches(env, b, req);
    hide Reaches, RequestLineFits, PrintVersion;
    Then(env, BEGIN, req.verb + [SP], a, req.uri + [SP], b);
    Then(env, BEGIN, req.verb + [SP] + (req.uri + [SP]), b, PrintVersion(req), c);
    assert req.verb + [SP] + (req.uri + [SP]) == req.verb + [SP] + req.uri + [SP];
  }

  /** The payload state takes exactly the bytes that are still missing. */
  lemma {:induction false} PayloadCompletes(env: HttpEnv, p: State, s: Bytes, rest: Bytes)
    requires p.at == PAYLOAD && s != [] && |p.request.payload| + |s| == p.contentLength
    ensures Scan(env, p, s + rest)
         == ScanResult(p.(request := p.request.(payload := p.request.payload + s)), Complete, |s|)
    decreases |s|
  {
    assert (s + rest)[0] == s[0] && (s + rest)[1..] == s[1..] + rest;
    var q := p.(request := p.request.(payload := p.request.payload + [s[0]]));
    assert p.request.payload + s == q.request.payload + s[1..];
    assert Step(env, p, s[0]) == Stepped(q, if |s| == 1 then Complete else Incomplete);
    hide Step;
    if |s| == 1 {
    } else {
      PayloadCompletes(env, q, s[1..], rest);
    }
  }

  lemma EmptyLineReaches(env: HttpEnv, p: State, payload: Bytes)
    requires AtLineStart(p) && PayloadFits(env, p.request.(payload := payload))
    ensures var q := p.(at := NEW_LINE_CRLF_END);
            && Reaches(env, p, [CR], q)
            && Step(env, q, LF) == if payload == [] then Stepped(q, Complete)
                                   else GoOn(q.(at := PAYLOAD, contentLength := |payload|))
  {
    OneByte(env, p, CR, p.(at := NEW_LINE_CRLF_END));
  }

  /** From the start of a line, the empty line and the payload end the request. */
  lemma EndCompletes(env: HttpEnv, p: State, payload: Bytes, rest: Bytes)
    requires AtLineStart(p) && p.request.payload == []
    requires PayloadFits(env, p.request.(payload := payload))
    ensures var r := Scan(env, p, CRLF + (payload + rest));
            r.result == Complete && r.size == 2 + |payload| && r.state.request == p.request.(payload := payload)
  {
    EmptyLineReaches(env, p, payload);
    hide Step, AtLineStart, PayloadFits;
    var q := p.(at := NEW_LINE_CRLF_END);
    var tail := [LF] + (payload + rest);
    assert tail[0] == LF && tail[1..] == payload + rest;
    Resumable(env, p, [CR], tail);
    assert [CR] + tail == CRLF + (payload + rest);
    if payload != [] {
      var r := q.(at := PAYLOAD, contentLength := |payload|);
      PayloadCompletes(env, r, payload, rest);
    }
  }

  lemma HeadReaches(env: HttpEnv, req: Request, lines: seq<HeaderLine>)
    requires RequestLineFits(env, req)
    requires forall line | line in lines :: LineFits(line)
    requires lines != [] ==> lines[0].Named?
    requires BlockOf(NO_HEADERS, lines).headers == req.headers
    ensures exists q :: && AtLineStart(q) && q.request == req.(payload := [])
                        && Reaches(env, BEGIN, PrintRequestLine(req) + PrintLines(lines), q)
  {
    var p := BEGIN.(at := HEADER_KEY, request := req.(headers := map[], payload := []));
    RequestLineReaches(env, req);
    assert AtLineStart(p);
    hide RequestLineFits, LineFits, BlockOf, PrintRequestLine, PrintLines, Reaches, AtLineStart;
    LinesReach(env, p, lines);
    var q := Holding(p, BlockOf(NO_HEADERS, lines));
    Then(env, BEGIN, PrintRequestLine(req), p, PrintLines(lines), q);
    assert q.request == req.(payload := []);
  }

  /** A printed request is parsed back whole, and not a byte of what follows it is touched, whichever
      header lines express its headers. */
  lemma RequestRoundTrip(env: HttpEnv, req: Request, lines: seq<HeaderLine>, rest: Bytes)
    requires RequestLineFits(env, req) && PayloadFits(env, req)
    requires forall line | line in lines :: LineFits(line)
    requires lines != [] ==> lines[0].Named?
    requires BlockOf(NO_HEADERS, lines).headers == req.headers
    ensures var r := Scan(env, BEGIN, PrintRequest(req, lines) + rest);
            r.result == Complete && r.size == |PrintRequest(req, lines)| && r.state.request == req
  {
    HeadReaches(env, req, lines);
    hide RequestLineFits, LineFits, BlockOf, PrintRequestLine, PrintLines, AtLineStart, PayloadFits, Scan;
    var head := PrintRequestLine(req) + PrintLines(lines);
    var q :| AtLineStart(q) && q.request == req.(payload := []) && Reaches(env, BEGIN, head, q);
    assert q.request.(payload := req.payload) == req;
    EndCompletes(env, q, req.payload, rest);
    Resumable(env, BEGIN, head, CRLF + (req.payload + rest));
    ConcatAssoc4(head, CRLF, req.payload, rest);
  }

  /** The same for a header map printed in any order of its keys. */
  lemma RequestWithMapRoundTrip(env: HttpEnv, req: Request, order: seq<Bytes>, rest: Bytes)
    requires RequestLineFits(env, req) && PayloadFits(env, req)
    requires HeadersFit(req.headers) && IsOrder(req.headers, order)
    ensures var s := PrintRequest(req, LinesOf(req.headers, order));
            var r := Scan(env, BEGIN, s + rest);
            r.result == Complete && r.size == |s| && r.state.request == req
  {
    hide HeadersFit, RequestLineFits, LineFits, PayloadFits, BlockOf, Scan, PrintRequest;
    MapLines(req.headers, order, []);
    RequestRoundTrip(env, req, LinesOf(req.headers, order), rest);
  }
}

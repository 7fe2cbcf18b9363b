/** Exactly which bytes the request parser accepts (http/http_request_parser.h). */
module HttpAcceptance {
  import opened ByteArrays
  import opened HttpParsing
  import opened HttpPrinting
  import opened HttpRoundTrips

  /** A whole request is found in the input. */
  predicate Completes(env: HttpEnv, p: State, s: Bytes) {
    Scan(env, p, s).result == Complete
  }

  /** What is left after a part the parser takes must complete the request. */
  lemma RestCompletes(env: HttpEnv, p: State, a: Bytes, q: State, s: Bytes)
    requires Completes(env, p, s) && a <= s && Reaches(env, p, a, q)
    ensures Completes(env, q, s[|a|..]) && s[|a|..] != []
  {
    Resumable(env, p, a, s[|a|..]);
    assert s == a + s[|a|..];
  }

  lemma NextByte(env: HttpEnv, p: State, s: Bytes)
    requires Completes(env, p, s)
    ensures s != []
    ensures var t := Step(env, p, s[0]);
            t.result != ParseError && (t.result == Incomplete ==> Completes(env, t.next, s[1..]))
  {
    hide Step;
  }

  // ---- Runs ---------------------------------------------------------------------------

  /** The longest beginning made of letters A to Z. */
  function UpperPrefix(s: Bytes): (r: Bytes)
    ensures r <= s && (forall b | b in r :: IsUpper(b)) && (|r| < |s| ==> !IsUpper(s[|r|]))
  {
    if s == [] || !IsUpper(s[0]) then [] else [s[0]] + UpperPrefix(s[1..])
  }

  function UrlPrefix(s: Bytes): (r: Bytes)
    ensures r <= s && (forall b | b in r :: IsUrlByte(b)) && (|r| < |s| ==> !IsUrlByte(s[|r|]))
  {
    if s == [] || !IsUrlByte(s[0]) then [] else [s[0]] + UrlPrefix(s[1..])
  }

  function BlankPrefix(s: Bytes): (r: Bytes)
    ensures r <= s && Blank(r) && (|r| < |s| ==> !IsLWSP(s[|r|]))
  {
    if s == [] || !IsLWSP(s[0]) then [] else [s[0]] + BlankPrefix(s[1..])
  }

  predicate IsKeyByte(b: byte) { !IsCtl(b) && !IsLWSP(b) && b != COLON }

  function KeyPrefix(s: Bytes): (r: Bytes)
    ensures r <= s && (r != [] ==> KeyFits(r)) && (|r| < |s| ==> !IsKeyByte(s[|r|]))
  {
    if s == [] || !IsKeyByte(s[0]) then [] else [s[0]] + KeyPrefix(s[1..])
  }

  /** In the middle of a value, what follows must be the rest of the value and the end of its line. */
  lemma {:induction false} ValueEnds(env: HttpEnv, p: State, s: Bytes) returns (value: Bytes)
    requires p.at == HEADER_VALUE && Completes(env, p, s)
    requires p.buffer == [] && s != [] ==> !IsLWSP(s[0])
    ensures CrSafe(value) && value + CRLF <= s && (p.buffer == [] && value != [] ==> !IsLWSP(value[0]))
    decreases |s|
  {
    NextByte(env, p, s);
    if s[0] == CR {
      NextByte(env, p.(at := NEW_LINE_LF), s[1..]);
      if s[1] == LF {
        value := [];
      } else {
        hide Completes;
        var rest := ValueEnds(env, p.(buffer := p.buffer + [CR, s[1]]), s[2..]);
        assert s[1..][1..] == s[2..];
        value := [CR, s[1]] + rest;
        assert value[2..] == rest && value + CRLF == [CR, s[1]] + (rest + CRLF);
      }
    } else {
      hide Completes;
      var rest := ValueEnds(env, p.(buffer := p.buffer + [s[0]]), s[1..]);
      value := [s[0]] + rest;
      assert value[1..] == rest && value + CRLF == [s[0]] + (rest + CRLF);
    }
  }

  /** From the colon or the leading blank on: blanks, the value and the end of the line. */
  lemma BlanksAndValue(env: HttpEnv, p: State, s: Bytes) returns (blanks: Bytes, value: Bytes)
    requires p.at == HEADER_VALUE && p.buffer == [] && Completes(env, p, s)
    ensures Blank(blanks) && ValueFits(value) && blanks + value + CRLF <= s
  {
    hide Completes, Reaches, IsLWSP, Blank;
    blanks := BlankPrefix(s);
    BlanksReach(env, p, blanks);
    RestCompletes(env, p, blanks, p, s);
    value := ValueEnds(env, p, s[|blanks|..]);
    assert s == blanks + s[|blanks|..] && blanks + value + CRLF == blanks + (value + CRLF);
  }

  // ---- Lines --------------------------------------------------------------------------

  lemma AfterKey(env: HttpEnv, p: State, key: Bytes, b: byte)
    requires AtLineStart(p) && KeyFits(key) && !IsKeyByte(b)
    ensures var t := Step(env, p.(buffer := key), b);
            t.result != ParseError ==> b == COLON && t == GoOn(p.(at := HEADER_VALUE, headerKey := key))
  {
  }

  lemma ColonFollows(env: HttpEnv, p: State, key: Bytes, s: Bytes)
    requires AtLineStart(p) && Completes(env, p, s)
    requires KeyFits(key) && key <= s && (|key| < |s| ==> !IsKeyByte(s[|key|]))
    ensures key + [COLON] <= s && Completes(env, p.(at := HEADER_VALUE, headerKey := key), s[|key| + 1..])
  {
    hide KeyFits, Completes, Reaches, Step, IsKeyByte;
    var n := |key|;
    var q := p.(buffer := key);
    KeyReaches(env, p, key);
    assert p.buffer + key == key;
    RestCompletes(env, p, key, q, s);
    NextByte(env, q, s[n..]);
    AfterKey(env, p, key, s[n]);
    assert s[n..][0] == s[n] && s[n..][1..] == s[n + 1..];
    assert s[..n + 1] == key + [COLON];
  }

  /** What a line that is not the empty line starts with, and where its blanks and value begin. */
  lemma LineBegins(env: HttpEnv, p: State, s: Bytes) returns (folded: bool, key: Bytes)
    requires AtLineStart(p) && Completes(env, p, s) && s[..1] != [CR]
    ensures folded ==> s != [] && IsLWSP(s[0])
                       && Completes(env, p.(at := HEADER_VALUE, continueHeader := true), s[1..])
    ensures !folded ==> KeyFits(key) && key + [COLON] <= s
                        && Completes(env, p.(at := HEADER_VALUE, headerKey := key), s[|key| + 1..])
  {
    NextByte(env, p, s);
    folded, key := IsLWSP(s[0]), [];
    if !folded {
      key := KeyPrefix(s);
      assert s[0] != CR;
      assert key != [];
      hide KeyFits, Completes;
      ColonFollows(env, p, key, s);
    }
  }

  /** A folded line with no header before it is an error. */
  lemma ContinuesSomething(env: HttpEnv, p: State, line: HeaderLine, s: Bytes)
    requires AtLineStart(p) && Completes(env, p, s)
    requires line.Folded? && LineFits(line) && PrintLine(line) <= s
    ensures p.headerKey != []
  {
    var a := AtValue(p, line);
    var b := a.(buffer := line.value);
    var c := b.(at := NEW_LINE_LF);
    LineHeadReaches(env, p, line);
    assert a.buffer + line.value == line.value;
    ValueReaches(env, a, line.value);
    OneByte(env, b, CR, c);
    var head := line.blanks + line.value + [CR];
    assert LineHead(line) + line.blanks == line.blanks;
    Then(env, p, line.blanks, a, line.value, b);
    Then(env, p, line.blanks + line.value, b, [CR], c);
    assert PrintLine(line) == head + [LF];
    RestCompletes(env, p, head, c, s);
    NextByte(env, c, s[|head|..]);
    assert s[|head|] == LF;
  }

  lemma LineInPlace(line: HeaderLine, head: Bytes, blanks: Bytes, s: Bytes)
    requires head <= s && LineHead(line) + line.blanks == head + blanks
    requires blanks + line.value + CRLF <= s[|head|..]
    ensures PrintLine(line) <= s
  {
    hide LineHead;
    assert s == head + s[|head|..];
    assert head + blanks + line.value + CRLF == head + (blanks + line.value + CRLF);
  }

  lemma LineFound(env: HttpEnv, p: State, s: Bytes) returns (line: HeaderLine)
    requires AtLineStart(p) && Completes(env, p, s) && s[..1] != [CR]
    ensures LineFits(line) && PrintLine(line) <= s && (line.Folded? ==> p.headerKey != [])
  {
    var folded, key := LineBegins(env, p, s);
    hide Completes, KeyFits, ValueFits, AtLineStart;
    if folded {
      var blanks, value := BlanksAndValue(env, p.(at := HEADER_VALUE, continueHeader := true), s[1..]);
      line := Folded([s[0]] + blanks, value);
      LineInPlace(line, [s[0]], blanks, s);
      ContinuesSomething(env, p, line, s);
    } else {
      var blanks, value := BlanksAndValue(env, p.(at := HEADER_VALUE, headerKey := key), s[|key| + 1..]);
      line := Named(key, blanks, value);
      LineInPlace(line, key + [COLON], blanks, s);
    }
  }

  lemma EmptyLineFound(env: HttpEnv, p: State, s: Bytes)
    requires AtLineStart(p) && Completes(env, p, s) && s[..1] == [CR]
    ensures CRLF <= s
  {
    NextByte(env, p, s);
    NextByte(env, p.(at := NEW_LINE_CRLF_END), s[1..]);
    hide Completes;
    assert s[1..][0] == s[1];
  }

  lemma FirstLineFound(env: HttpEnv, p: State, s: Bytes) returns (line: HeaderLine, q: State, first: Bytes)
    requires AtLineStart(p) && Completes(env, p, s) && s[..1] != [CR]
    ensures LineFits(line) && (line.Folded? ==> p.headerKey != [])
    ensures first == PrintLine(line) && first <= s && first != []
    ensures AtLineStart(q) && q.headerKey != [] && Completes(env, q, s[|first|..])
  {
    line := LineFound(env, p, s);
    first := PrintLine(line);
    assert |first| >= 2;
    LineReaches(env, p, line);
    q := Holding(p, BlockOf(Block(p.request.headers, p.headerKey), [line]));
    assert [line][1..] == [];
    hide AtLineStart, Completes, Reaches, WithLine;
    RestCompletes(env, p, first, q, s);
  }

  lemma Prepend(first: Bytes, more: Bytes, s: Bytes)
    requires first <= s && more + CRLF <= s[|first|..]
    ensures first + more + CRLF <= s
  {
    assert s == first + s[|first|..];
    assert first + more + CRLF == first + (more + CRLF);
  }

  /** Header lines up to the empty line. */
  lemma {:induction false} LinesFound(env: HttpEnv, p: State, s: Bytes) returns (lines: seq<HeaderLine>)
    requires AtLineStart(p) && Completes(env, p, s)
    ensures forall line | line in lines :: LineFits(line)
    ensures lines != [] && lines[0].Folded? ==> p.headerKey != []
    ensures PrintLines(lines) + CRLF <= s
    decreases |s|
  {
    if s[..1] == [CR] {
      lines := [];
      EmptyLineFound(env, p, s);
    } else {
      hide AtLineStart, Completes, LineFits, PrintLine;
      var line, q, first := FirstLineFound(env, p, s);
      var rest := LinesFound(env, q, s[|first|..]);
      lines := [line] + rest;
      assert lines[1..] == rest;
      Prepend(first, PrintLines(rest), s);
    }
  }

  // ---- The request line ------------------------------------------------------------------

  lemma VerbFound(env: HttpEnv, s: Bytes) returns (verb: Bytes)
    requires Completes(env, BEGIN, s)
    ensures verb + [SP] <= s && (forall b | b in verb :: IsUpper(b)) && env.knownMethod(verb)
    ensures Completes(env, BEGIN.(at := URI, request := NO_REQUEST.(verb := verb)), s[|verb| + 1..])
  {
    verb := UpperPrefix(s);
    var n := |verb|;
    VerbPushed(env, BEGIN, verb);
    var q := BEGIN.(buffer := verb);
    RestCompletes(env, BEGIN, verb, q, s);
    NextByte(env, q, s[n..]);
    hide Completes, Reaches;
    assert s[n..][0] == s[n];
    assert s[n] == SP;
    assert s[n..][1..] == s[n + 1..];
  }

  lemma UriFound(env: HttpEnv, p: State, s: Bytes) returns (uri: Bytes)
    requires p.at == URI && p.buffer == [] && Completes(env, p, s)
    ensures uri != [] && uri + [SP] <= s && (forall b | b in uri :: IsUrlByte(b))
    ensures Completes(env, p.(at := HTTP_H, request := p.request.(uri := uri)), s[|uri| + 1..])
  {
    uri := UrlPrefix(s);
    var n := |uri|;
    UriPushed(env, p, uri);
    var q := p.(buffer := uri);
    RestCompletes(env, p, uri, q, s);
    NextByte(env, q, s[n..]);
    hide Completes, Reaches;
    assert s[n..][0] == s[n];
    assert s[n] == SP;
    assert s[n..][1..] == s[n + 1..];
  }

  /** A fixed character of the request line. */
  lemma FixedByte(env: HttpEnv, p: State, s: Bytes)
    requires Literal(p.at).Some? && Completes(env, p, s)
    ensures s != [] && s[0] == Literal(p.at).value.0
    ensures Completes(env, p.(at := Literal(p.at).value.1), s[1..])
  {
    NextByte(env, p, s);
    hide Completes;
  }

  lemma ProtocolFound(env: HttpEnv, p: State, s: Bytes)
    requires p.at == HTTP_H && Completes(env, p, s)
    ensures [CHAR_H, CHAR_T, CHAR_T, CHAR_P, SLASH] <= s && Completes(env, p.(at := MAJOR_VERSION), s[5..])
  {
    hide Completes;
    FixedByte(env, p, s);
    FixedByte(env, p.(at := HTTP_HT), s[1..]);
    assert s[1..][1..] == s[2..];
    FixedByte(env, p.(at := HTTP_HTT), s[2..]);
    assert s[2..][1..] == s[3..];
    FixedByte(env, p.(at := HTTP_HTTP), s[3..]);
    assert s[3..][1..] == s[4..];
    FixedByte(env, p.(at := HTTP_HTTP_SLASH), s[4..]);
    assert s[4..][1..] == s[5..];
  }

  /** A digit of the version. */
  lemma DigitFound(env: HttpEnv, p: State, s: Bytes) returns (digit: nat, q: State)
    requires (p.at == MAJOR_VERSION || p.at == MINOR_VERSION) && Completes(env, p, s)
    ensures digit < 10 && s != [] && s[0] == 48 + digit && Completes(env, q, s[1..])
    ensures q.at == if p.at == MAJOR_VERSION then VERSION_DOT else NEW_LINE_CR
  {
    NextByte(env, p, s);
    hide Completes;
    digit := s[0] - ZERO;
    q := Step(env, p, s[0]).next;
  }

  lemma NumbersFound(env: HttpEnv, p: State, s: Bytes) returns (major: nat, minor: nat)
    requires p.at == MAJOR_VERSION && Completes(env, p, s)
    ensures major < 10 && minor < 10 && [48 + major, DOT, 48 + minor, CR, LF] <= s
  {
    hide Completes;
    var p1, p3;
    major, p1 := DigitFound(env, p, s);
    FixedByte(env, p1, s[1..]);
    assert s[1..][1..] == s[2..];
    minor, p3 := DigitFound(env, p1.(at := MINOR_VERSION), s[2..]);
    assert s[2..][1..] == s[3..];
    FixedByte(env, p3, s[3..]);
    assert s[3..][1..] == s[4..];
    FixedByte(env, p3.(at := NEW_LINE_CRLF), s[4..]);
  }

  lemma VersionFound(env: HttpEnv, p: State, s: Bytes) returns (major: nat, minor: nat)
    requires p.at == HTTP_H && Completes(env, p, s)
    ensures major < 10 && minor < 10
    ensures PrintVersion(p.request.(majorVersion := major, minorVersion := minor)) <= s
  {
    ProtocolFound(env, p, s);
    hide Completes;
    major, minor := NumbersFound(env, p.(at := MAJOR_VERSION), s[5..]);
    assert s == s[..5] + s[5..];
  }

  lemma RequestLineFound(env: HttpEnv, s: Bytes) returns (req: Request)
    requires Completes(env, BEGIN, s)
    ensures RequestLineFits(env, req) && req.headers == map[] && req.payload == []
    ensures PrintRequestLine(req) <= s
  {
    var verb := VerbFound(env, s);
    var p := BEGIN.(at := URI, request := NO_REQUEST.(verb := verb));
    var rest := s[|verb| + 1..];
    var uri := UriFound(env, p, rest);
    var q := p.(at := HTTP_H, request := p.request.(uri := uri));
    var last := rest[|uri| + 1..];
    var major, minor := VersionFound(env, q, last);
    req := Request(verb, uri, major, minor, map[], []);
    hide Completes, IsUpper, IsUrlByte;
    assert s == verb + [SP] + rest && rest == uri + [SP] + last;
    assert s == verb + [SP] + uri + [SP] + last;
  }

  // ---- The whole request -------------------------------------------------------------------

  /** Too few bytes for the payload leave the request unfinished. */
  lemma {:induction false} PayloadNeedsMore(env: HttpEnv, p: State, s: Bytes)
    requires p.at == PAYLOAD && |p.request.payload| + |s| < p.contentLength
    ensures !Completes(env, p, s)
    decreases |s|
  {
    if s == [] {
    } else {
      PayloadNeedsMore(env, p.(request := p.request.(payload := p.request.payload + [s[0]])), s[1..]);
    }
  }

  lemma EnoughBytes(env: HttpEnv, p: State, s: Bytes)
    requires p.at == PAYLOAD && Completes(env, p, s)
    ensures |p.request.payload| + |s| >= p.contentLength
  {
    if |p.request.payload| + |s| < p.contentLength {
      PayloadNeedsMore(env, p, s);
    }
  }

  lemma PayloadFound(env: HttpEnv, p: State, s: Bytes) returns (payload: Bytes)
    requires AtLineStart(p) && p.request.payload == [] && Completes(env, p, s) && CRLF <= s
    ensures PayloadFits(env, p.request.(payload := payload)) && CRLF + payload <= s
  {
    var q := p.(at := NEW_LINE_CRLF_END);
    NextByte(env, p, s);
    NextByte(env, q, s[1..]);
    var length := DeclaredLength(env, p.request.headers).value;
    payload := [];
    if length > 0 {
      var r := q.(at := PAYLOAD, contentLength := length);
      assert s[1..][1..] == s[2..] && Completes(env, r, s[2..]);
      EnoughBytes(env, r, s[2..]);
      payload := s[2..2 + length];
    }
  }

  /** A request as text: request line, header lines, empty line, payload. */
  ghost predicate IsText(env: HttpEnv, text: Bytes, req: Request, lines: seq<HeaderLine>) {
    && RequestLineFits(env, req) && PayloadFits(env, req)
    && (forall line | line in lines :: LineFits(line))
    && (lines != [] ==> lines[0].Named?)
    && BlockOf(NO_HEADERS, lines).headers == req.headers
    && text == PrintRequest(req, lines)
  }

  lemma BehindLines(env: HttpEnv, p: State, q: State, block: Bytes, s: Bytes) returns (payload: Bytes)
    requires Completes(env, p, s) && Reaches(env, p, block, q) && block + CRLF <= s
    requires AtLineStart(q) && q.request.payload == []
    ensures PayloadFits(env, q.request.(payload := payload)) && block + CRLF + payload <= s
  {
    hide Completes, Reaches, AtLineStart;
    RestCompletes(env, p, block, q, s);
    var rest := s[|block|..];
    assert s == block + rest;
    payload := PayloadFound(env, q, rest);
    assert block + CRLF + payload == block + (CRLF + payload);
  }

  /** From the start of the first line on: header lines, the empty line and the payload. */
  lemma RestFound(env: HttpEnv, p: State, s: Bytes) returns (lines: seq<HeaderLine>, payload: Bytes)
    requires AtLineStart(p) && p.headerKey == [] && p.request.headers == map[] && p.request.payload == []
    requires Completes(env, p, s)
    ensures (forall line | line in lines :: LineFits(line)) && (lines != [] ==> lines[0].Named?)
    ensures PayloadFits(env, p.request.(headers := BlockOf(NO_HEADERS, lines).headers, payload := payload))
    ensures PrintLines(lines) + CRLF + payload <= s
  {
    hide Completes;
    lines := LinesFound(env, p, s);
    LinesReach(env, p, lines);
    hide BlockOf, PrintLines;
    payload := BehindLines(env, p, Holding(p, BlockOf(NO_HEADERS, lines)), PrintLines(lines), s);
  }

  lemma PrefixAfter(a: Bytes, b: Bytes, c: Bytes, d: Bytes, s: Bytes)
    requires a <= s && b + c + d <= s[|a|..]
    ensures a + b + c + d <= s
  {
    assert a + b + c + d == a + (b + c + d);
    assert s == a + s[|a|..];
  }

  lemma PutTogether(env: HttpEnv, line: Request, lines: seq<HeaderLine>, payload: Bytes, s: Bytes)
      returns (n: nat, req: Request)
    requires RequestLineFits(env, line) && PrintRequestLine(line) <= s
    requires (forall line | line in lines :: LineFits(line)) && (lines != [] ==> lines[0].Named?)
    requires PayloadFits(env, line.(headers := BlockOf(NO_HEADERS, lines).headers, payload := payload))
    requires PrintLines(lines) + CRLF + payload <= s[|PrintRequestLine(line)|..]
    ensures n <= |s| && IsText(env, s[..n], req, lines)
  {
    req := line.(headers := BlockOf(NO_HEADERS, lines).headers, payload := payload);
    assert PrintRequestLine(req) == PrintRequestLine(line) && RequestLineFits(env, req);
    hide PrintRequestLine, LineFits, BlockOf, PrintLines, PayloadFits;
    var text := PrintRequest(req, lines);
    PrefixAfter(PrintRequestLine(req), PrintLines(lines), CRLF, payload, s);
    n := |text|;
    assert s[..n] == text;
  }

  lemma TextFound(env: HttpEnv, s: Bytes) returns (n: nat, req: Request, lines: seq<HeaderLine>)
    requires Completes(env, BEGIN, s)
    ensures n <= |s| && IsText(env, s[..n], req, lines)
  {
    var line := RequestLineFound(env, s);
    var head := PrintRequestLine(line);
    var p := BEGIN.(at := HEADER_KEY, request := line);
    RequestLineReaches(env, line);
    RestCompletes(env, BEGIN, head, p, s);
    var payload;
    hide *;
    lines, payload := RestFound(env, p, s[|head|..]);
    n, req := PutTogether(env, line, lines, payload, s);
  }

  lemma TextAccepted(env: HttpEnv, s: Bytes, n: nat, req: Request, lines: seq<HeaderLine>)
    requires n <= |s| && IsText(env, s[..n], req, lines)
    ensures var r := Scan(env, BEGIN, s);
            r.result == Complete && r.size == n && r.state.request == req
  {
    assert s == s[..n] + s[n..];
    RequestRoundTrip(env, req, lines, s[n..]);
  }

  /** A request is accepted, with these headers and this payload and ending here, exactly when the bytes up
      to here are its text in some choice of header lines. */
  lemma AcceptedExactly(env: HttpEnv, s: Bytes, n: nat, req: Request)
    ensures var r := Scan(env, BEGIN, s);
            r.result == Complete && r.size == n && r.state.request == req <==>
              n <= |s| && exists lines :: IsText(env, s[..n], req, lines)
  {
    if Completes(env, BEGIN, s) {
      var k, found, lines := TextFound(env, s);
      TextAccepted(env, s, k, found, lines);
    }
    if n <= |s| && exists lines :: IsText(env, s[..n], req, lines) {
      var lines :| IsText(env, s[..n], req, lines);
      TextAccepted(env, s, n, req, lines);
    }
  }
}

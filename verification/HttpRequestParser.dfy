/** The incremental HTTP request parser (http/http_request_parser.h) and the header map it fills
    (http/http_header_map.h). */
module HttpParsing {
  import opened ByteArrays

  const HTAB: byte := 9
  const LF: byte := 10
  const CR: byte := 13
  const SP: byte := 32
  const COMMA: byte := 44
  const DOT: byte := 46
  const SLASH: byte := 47
  const ZERO: byte := 48
  const COLON: byte := 58
  const CHAR_H: byte := 72
  const CHAR_P: byte := 80
  const CHAR_T: byte := 84

  predicate IsUpper(b: byte) { 65 <= b <= 90 }

  predicate IsLower(b: byte) { 97 <= b <= 122 }

  predicate IsNumber(b: byte) { 48 <= b <= 57 }

  predicate IsLWSP(b: byte) { b == SP || b == HTAB }

  /** Bytes from 128 on are negative characters and count as no control. */
  predicate IsCtl(b: byte) { b <= 31 || b == 127 }

  /** - . _ ~ : / ? # [ ] @ ! $ & ' ( ) * + , ; % = */
  const URL_SPECIAL: set<byte> :=
    {45, 46, 95, 126, 58, 47, 63, 35, 91, 93, 64, 33, 36, 38, 39, 40, 41, 42, 43, 44, 59, 37, 61}

  predicate IsUrlByte(b: byte) { IsUpper(b) || IsLower(b) || IsNumber(b) || b in URL_SPECIAL }

  // ---- The header map -------------------------------------------------------------

  type Headers = map<Bytes, Bytes>

  function LowerByte(b: byte): byte { if IsUpper(b) then b + 32 else b }

  function ToLower(s: Bytes): (r: Bytes)
    ensures |r| == |s|
  {
    seq(|s|, i requires 0 <= i < |s| => LowerByte(s[i]))
  }

  function ValueOrDefault(h: Headers, key: Bytes, default: Bytes): Bytes {
    if ToLower(key) in h then h[ToLower(key)] else default
  }

  /** The map after one more line for the key: a folded line is joined with a blank, a repeated header with
      a comma and a blank. */
  function WithLine(h: Headers, key: Bytes, folded: bool, value: Bytes): Headers {
    var k := ToLower(key);
    if k in h then h[k := h[k] + (if folded then [SP] else [COMMA, SP]) + value] else h[k := value]
  }

  // ---- Requests and parser states -----------------------------------------------------

  /** The method is kept by name and the URI as the text handed to the URI parser. */
  datatype Request = Request(
    verb: Bytes, uri: Bytes, majorVersion: nat, minorVersion: nat, headers: Headers, payload: Bytes)

  const NO_REQUEST := Request([], [], 0, 0, map[], [])

  datatype ParseState =
    | METHOD | URI | HTTP_H | HTTP_HT | HTTP_HTT | HTTP_HTTP | HTTP_HTTP_SLASH
    | MAJOR_VERSION | VERSION_DOT | MINOR_VERSION | HEADER_KEY | HEADER_VALUE
    | NEW_LINE_CR | NEW_LINE_LF | NEW_LINE_CRLF | NEW_LINE_CRLF_END | PAYLOAD

  /** The limit, the method table and the reading of a content length, which throws on what is no number. */
  datatype HttpEnv = HttpEnv(max: nat, knownMethod: Bytes -> bool, stoull: Bytes -> Option<nat>)

  /** "content-length" in ASCII. */
  const CONTENT_LENGTH: Bytes := [99, 111, 110, 116, 101, 110, 116, 45, 108, 101, 110, 103, 116, 104]

  function DeclaredLength(env: HttpEnv, h: Headers): Option<nat> {
    env.stoull(ValueOrDefault(h, CONTENT_LENGTH, [ZERO]))
  }

  datatype State = State(
    at: ParseState, buffer: Bytes, headerKey: Bytes, continueHeader: bool, contentLength: nat, request: Request)

  const BEGIN := State(METHOD, [], [], false, 0, NO_REQUEST)

  /** What one byte does: the parser goes on, has a whole request, or fails. An exception, which an empty URI
      and a content length that is no number raise, is a failure too: nothing is parsed after it either. */
  datatype Stepped = Stepped(next: State, result: ParseResult)

  function GoOn(p: State): Stepped { Stepped(p, Incomplete) }

  function Fail(p: State): Stepped { Stepped(p, ParseError) }

  /** The fixed characters of the request line. */
  function Literal(at: ParseState): Option<(byte, ParseState)> {
    match at
    case HTTP_H => Some((CHAR_H, HTTP_HT))
    case HTTP_HT => Some((CHAR_T, HTTP_HTT))
    case HTTP_HTT => Some((CHAR_T, HTTP_HTTP))
    case HTTP_HTTP => Some((CHAR_P, HTTP_HTTP_SLASH))
    case HTTP_HTTP_SLASH => Some((SLASH, MAJOR_VERSION))
    case VERSION_DOT => Some((DOT, MINOR_VERSION))
    case NEW_LINE_CR => Some((CR, NEW_LINE_CRLF))
    case NEW_LINE_CRLF => Some((LF, HEADER_KEY))
    case _ => None
  }

  function StepLine(env: HttpEnv, p: State, b: byte): Stepped {
    match p.at
    case METHOD =>
      if IsUpper(b) then GoOn(p.(buffer := p.buffer + [b]))
      else if b == SP && env.knownMethod(p.buffer) then
        GoOn(p.(at := URI, buffer := [], request := p.request.(verb := p.buffer)))
      else Fail(p)
    case URI =>
      if IsUrlByte(b) then GoOn(p.(buffer := p.buffer + [b]))
      else if b == SP && p.buffer != [] then
        GoOn(p.(at := HTTP_H, buffer := [], request := p.request.(uri := p.buffer)))
      else Fail(p)
    case MAJOR_VERSION =>
      if IsNumber(b) then GoOn(p.(at := VERSION_DOT, request := p.request.(majorVersion := b - ZERO))) else Fail(p)
    case MINOR_VERSION =>
      if IsNumber(b) then GoOn(p.(at := NEW_LINE_CR, request := p.request.(minorVersion := b - ZERO))) else Fail(p)
    case _ =>
      match Literal(p.at)
      case Some((c, next)) => if b == c then GoOn(p.(at := next)) else Fail(p)
      case None => Fail(p)
  }

  function StepHeader(p: State, b: byte): Stepped {
    match p.at
    case HEADER_KEY =>
      if IsLWSP(b) then
        if p.buffer != [] then Fail(p) else GoOn(p.(at := HEADER_VALUE, continueHeader := true))
      else if b == COLON then
        if p.buffer == [] then Fail(p) else GoOn(p.(at := HEADER_VALUE, headerKey := p.buffer, buffer := []))
      else if !IsCtl(b) then GoOn(p.(buffer := p.buffer + [b]))
      else if b == CR && p.buffer == [] then GoOn(p.(at := NEW_LINE_CRLF_END))
      else Fail(p)
    case HEADER_VALUE =>
      if IsLWSP(b) then GoOn(if p.buffer == [] then p else p.(buffer := p.buffer + [b]))
      else if b == CR then GoOn(p.(at := NEW_LINE_LF))
      else GoOn(p.(buffer := p.buffer + [b]))
    case _ =>
      if b != LF then GoOn(p.(at := HEADER_VALUE, buffer := p.buffer + [CR, b]))
      else if p.headerKey == [] then Fail(p)
      else
        var h := p.request.headers;
        GoOn(p.(at := HEADER_KEY, buffer := [],
                continueHeader := p.continueHeader && ToLower(p.headerKey) !in h,
                request := p.request.(headers := WithLine(h, p.headerKey, p.continueHeader, p.buffer))))
  }

  function StepBody(env: HttpEnv, p: State, b: byte): Stepped {
    if p.at == NEW_LINE_CRLF_END then
      var length := DeclaredLength(env, p.request.headers);
      if b != LF || length.None? then Fail(p)
      else if length.value == 0 then Stepped(p, Complete)
      else if env.max < length.value then Fail(p)
      else GoOn(p.(at := PAYLOAD, contentLength := length.value))
    else
      var p' := p.(request := p.request.(payload := p.request.payload + [b]));
      Stepped(p', if |p'.request.payload| == p.contentLength then Complete else Incomplete)
  }

  predicate InHeader(at: ParseState) { at == HEADER_KEY || at == HEADER_VALUE || at == NEW_LINE_LF }

  predicate InBody(at: ParseState) { at == NEW_LINE_CRLF_END || at == PAYLOAD }

  function Step(env: HttpEnv, p: State, b: byte): Stepped {
    if InHeader(p.at) then StepHeader(p, b)
    else if InBody(p.at) then StepBody(env, p, b)
    else StepLine(env, p, b)
  }

  /** A whole input: where it leaves the parser, the result and the bytes consumed for it. */
  datatype ScanResult = ScanResult(state: State, result: ParseResult, size: nat)

  function Scan(env: HttpEnv, p: State, s: Bytes): (r: ScanResult)
    ensures r.size <= |s| && (r.result == Incomplete ==> r.size == |s|) && (r.result != Incomplete ==> r.size > 0)
    decreases |s|
  {
    if s == [] then ScanResult(p, Incomplete, 0)
    else
      var t := Step(env, p, s[0]);
      if t.result != Incomplete then ScanResult(t.next, t.result, 1)
      else
        var r := Scan(env, t.next, s[1..]);
        ScanResult(r.state, r.result, r.size + 1)
  }

  // ---- Resuming ---------------------------------------------------------------------

  /** Parsing in two parts leaves the same state, request, result and total count as parsing at once;
      once there is a whole request or an error, what follows does not matter. */
  lemma {:induction false} Resumable(env: HttpEnv, p: State, a: Bytes, b: Bytes)
    ensures var first := Scan(env, p, a);
            var whole := Scan(env, p, a + b);
            if first.result == Incomplete then
              var second := Scan(env, first.state, b);
              whole == ScanResult(second.state, second.result, |a| + second.size)
            else whole == first
    decreases |a|
  {
    hide Step;
    if a == [] {
      assert a + b == b;
    } else {
      assert (a + b)[0] == a[0] && (a + b)[1..] == a[1..] + b;
      var t := Step(env, p, a[0]);
      if t.result == Incomplete {
        Resumable(env, t.next, a[1..], b);
      }
    }
  }

  // ---- What a whole request satisfies ---------------------------------------------------

  /** What every state reached from the beginning satisfies. A folded line always finds the header it
      continues: outside the first line the last key is in the map. */
  ghost predicate Sound(env: HttpEnv, p: State) {
    && (forall k | k in p.request.headers :: ToLower(k) == k)
    && (p.at == HEADER_KEY ==> !p.continueHeader)
    && (p.at == HEADER_KEY && p.headerKey != [] ==> ToLower(p.headerKey) in p.request.headers)
    && ((p.at == HEADER_VALUE || p.at == NEW_LINE_LF) && p.continueHeader && p.headerKey != [] ==>
          ToLower(p.headerKey) in p.request.headers)
    && (!InHeader(p.at) && !InBody(p.at) ==> !p.continueHeader && p.headerKey == [] && p.request.headers == map[])
    && (p.at == NEW_LINE_CRLF_END || !InBody(p.at) ==> p.request.payload == [])
    && (p.at == PAYLOAD ==>
          && |p.request.payload| < p.contentLength <= env.max
          && DeclaredLength(env, p.request.headers) == Some(p.contentLength))
  }

  lemma LowerTwice(s: Bytes)
    ensures ToLower(ToLower(s)) == ToLower(s)
  {
  }

  lemma LineKeepsSound(env: HttpEnv, p: State, b: byte)
    requires Sound(env, p) && !InHeader(p.at) && !InBody(p.at) && StepLine(env, p, b).result == Incomplete
    ensures Sound(env, StepLine(env, p, b).next)
  {
    hide ToLower, IsUrlByte;
  }

  lemma HeaderKeepsSound(env: HttpEnv, p: State, b: byte)
    requires Sound(env, p) && InHeader(p.at) && StepHeader(p, b).result == Incomplete
    ensures Sound(env, StepHeader(p, b).next)
  {
    LowerTwice(p.headerKey);
    hide ToLower;
  }

  lemma StepKeepsSound(env: HttpEnv, p: State, b: byte)
    requires Sound(env, p) && Step(env, p, b).result == Incomplete
    ensures Sound(env, Step(env, p, b).next)
  {
    if InHeader(p.at) {
      hide StepHeader, Sound;
      HeaderKeepsSound(env, p, b);
    } else if InBody(p.at) {
      hide ToLower;
    } else {
      hide StepLine, Sound;
      LineKeepsSound(env, p, b);
    }
  }

  /** A whole request has exactly the declared number of payload bytes, no more than the limit. */
  lemma {:induction false} CompleteMeansDeclared(env: HttpEnv, p: State, s: Bytes)
    requires Sound(env, p)
    ensures var r := Scan(env, p, s);
            && (r.result == Incomplete ==> Sound(env, r.state))
            && (r.result == Complete ==>
                  && DeclaredLength(env, r.state.request.headers) == Some(|r.state.request.payload|)
                  && (r.state.request.payload == [] || |r.state.request.payload| <= env.max)
                  && forall k | k in r.state.request.headers :: ToLower(k) == k)
    decreases |s|
  {
    if s == [] {
    } else {
      var t := Step(env, p, s[0]);
      if t.result == Incomplete {
        hide Step, Sound;
        StepKeepsSound(env, p, s[0]);
        CompleteMeansDeclared(env, t.next, s[1..]);
      }
    }
  }

  /** A folded line extends the header it follows: it is never taken for a new header. */
  lemma FoldedLineFindsItsHeader(env: HttpEnv, p: State)
    requires Sound(env, p) && p.at == NEW_LINE_LF && p.continueHeader
    ensures var t := Step(env, p, LF);
            if p.headerKey == [] then t.result == ParseError
            else
              var k := ToLower(p.headerKey);
              && t.result == Incomplete && k in p.request.headers && !t.next.continueHeader
              && t.next.request.headers == p.request.headers[k := p.request.headers[k] + [SP] + p.buffer]
  {
  }

  // ---- The parser object ------------------------------------------------------------

  class HttpRequestParser {
    const env: HttpEnv
    var result: ParseResult
    var state: ParseState
    var buffer: Bytes
    var currentHeaderKey: Bytes
    var continueHeader: bool
    var contentLength: nat
    var frame: Request

    constructor (env: HttpEnv)
      ensures this.env == env && Value() == BEGIN && result == Incomplete
    {
      this.env := env;
      result := Incomplete;
      state, buffer, currentHeaderKey, continueHeader, contentLength := METHOD, [], [], false, 0;
      frame := NO_REQUEST;
    }

    function Value(): State
      reads this
    {
      State(state, buffer, currentHeaderKey, continueHeader, contentLength, frame)
    }

    /** The byte was handled as the step function says; after an error the state no longer matters. */
    twostate predicate Handles(b: byte, res: ParseResult)
      reads this
    {
      var t := Step(env, old(Value()), b);
      res == t.result && (res != ParseError ==> Value() == t.next) && result == old(result)
    }

    method OnRequestLine(input: byte) returns (res: ParseResult)
      requires !InHeader(state) && !InBody(state)
      modifies this
      ensures Handles(input, res)
    {
      match state {
        case METHOD =>
          if IsUpper(input) {
            buffer := buffer + [input];
          } else if input == SP {
            if !env.knownMethod(buffer) {
              return ParseError;
            }
            frame := frame.(verb := buffer);
            buffer := [];
            state := URI;
          } else {
            return ParseError;
          }
        case URI =>
          if IsUrlByte(input) {
            buffer := buffer + [input];
          } else if input == SP {
            if buffer == [] {
              return ParseError;
            }
            frame := frame.(uri := buffer);
            buffer := [];
            state := HTTP_H;
          } else {
            return ParseError;
          }
        case HTTP_H =>
          if input != CHAR_H {
            return ParseError;
          }
          state := HTTP_HT;
        case HTTP_HT =>
          if input != CHAR_T {
            return ParseError;
          }
          state := HTTP_HTT;
        case HTTP_HTT =>
          if input != CHAR_T {
            return ParseError;
          }
          state := HTTP_HTTP;
        case HTTP_HTTP =>
          if input != CHAR_P {
            return ParseError;
          }
          state := HTTP_HTTP_SLASH;
        case HTTP_HTTP_SLASH =>
          if input != SLASH {
            return ParseError;
          }
          state := MAJOR_VERSION;
        case MAJOR_VERSION =>
          if !IsNumber(input) {
            return ParseError;
          }
          frame := frame.(majorVersion := input - ZERO);
          state := VERSION_DOT;
        case VERSION_DOT =>
          if input != DOT {
            return ParseError;
          }
          state := MINOR_VERSION;
        case MINOR_VERSION =>
          if !IsNumber(input) {
            return ParseError;
          }
          frame := frame.(minorVersion := input - ZERO);
          state := NEW_LINE_CR;
        case NEW_LINE_CR =>
          if input != CR {
            return ParseError;
          }
          state := NEW_LINE_CRLF;
        case NEW_LINE_CRLF =>
          if input != LF {
            return ParseError;
          }
          state := HEADER_KEY;
      }
      return Incomplete;
    }

    method OnHeader(input: byte) returns (res: ParseResult)
      requires InHeader(state)
      modifies this
      ensures Handles(input, res)
    {
      match state {
        case HEADER_KEY =>
          if IsLWSP(input) {
            if buffer != [] {
              return ParseError;
            }
            continueHeader := true;
            state := HEADER_VALUE;
          } else if input == COLON {
            if buffer == [] {
              return ParseError;
            }
            currentHeaderKey := buffer;
            buffer := [];
            state := HEADER_VALUE;
          } else if !IsCtl(input) {
            buffer := buffer + [input];
          } else if input == CR && buffer == [] {
            state := NEW_LINE_CRLF_END;
          } else {
            return ParseError;
          }
        case HEADER_VALUE =>
          if IsLWSP(input) {
            if buffer != [] {
              buffer := buffer + [input];
            }
          } else if input == CR {
            state := NEW_LINE_LF;
          } else {
            buffer := buffer + [input];
          }
        case NEW_LINE_LF =>
          if input == LF {
            if currentHeaderKey == [] {
              return ParseError;
            }
            OnHeaderLine();
            buffer := [];
            state := HEADER_KEY;
          } else {
            buffer := buffer + [CR];
            buffer := buffer + [input];
            state := HEADER_VALUE;
          }
      }
      return Incomplete;
    }

    /** A header line is complete: store it, or join it to the value already there. */
    method OnHeaderLine()
      modifies this`frame, this`continueHeader
      ensures var h := old(frame.headers);
              && frame == old(frame).(headers := WithLine(h, currentHeaderKey, old(continueHeader), buffer))
              && continueHeader == (old(continueHeader) && ToLower(currentHeaderKey) !in h)
    {
      var key := ToLower(currentHeaderKey);
      var headers := frame.headers;
      if key in headers {
        if continueHeader {
          headers := headers[key := headers[key] + [SP]];
        } else {
          headers := headers[key := headers[key] + [COMMA, SP]];
        }
        headers := headers[key := headers[key] + buffer];
        continueHeader := false;
      } else {
        headers := headers[key := buffer];
      }
      assert headers == WithLine(frame.headers, currentHeaderKey, old(continueHeader), buffer);
      frame := frame.(headers := headers);
    }

    method OnBody(input: byte) returns (res: ParseResult)
      requires InBody(state)
      modifies this
      ensures Handles(input, res)
    {
      if state == NEW_LINE_CRLF_END {
        if input != LF {
          return ParseError;
        }
        var parsed := env.stoull(ValueOrDefault(frame.headers, CONTENT_LENGTH, [ZERO]));
        if parsed.None? {
          return ParseError;
        }
        var length := parsed.value;
        if length == 0 {
          return Complete;
        } else if env.max < length {
          return ParseError;
        }
        contentLength := length;
        state := PAYLOAD;
      } else {
        frame := frame.(payload := frame.payload + [input]);
        if |frame.payload| == contentLength {
          return Complete;
        }
      }
      return Incomplete;
    }

    method Consume(input: Bytes) returns (res: ParseResult, nparsed: nat)
      modifies this
      ensures result == old(result)
      ensures var r := Scan(env, old(Value()), input);
              res == r.result && nparsed == r.size && (res != ParseError ==> Value() == r.state)
    {
      hide Step;
      nparsed := 0;
      while nparsed < |input|
        invariant nparsed <= |input| && result == old(result)
        invariant var r := Scan(env, Value(), input[nparsed..]);
                  Scan(env, old(Value()), input) == ScanResult(r.state, r.result, nparsed + r.size)
      {
        ghost var rest := input[nparsed..];
        var b := input[nparsed];
        nparsed := nparsed + 1;
        assert rest[0] == b && rest[1..] == input[nparsed..];
        if InHeader(state) {
          res := OnHeader(b);
        } else if InBody(state) {
          res := OnBody(b);
        } else {
          res := OnRequestLine(b);
        }
        if res != Incomplete {
          return;
        }
      }
      res := Incomplete;
    }

    /** One call. An error is permanent and leaves the caller's count alone. */
    method Parse(input: Bytes, count: nat) returns (res: ParseResult, nparsed: nat)
      modifies this
      ensures result == res
      ensures old(result) == ParseError ==> res == ParseError && nparsed == count
      ensures old(result) != ParseError ==>
                var r := Scan(env, old(Value()), input);
                res == r.result && nparsed == r.size && (res != ParseError ==> Value() == r.state)
    {
      if result == ParseError {
        return ParseError, count;
      }
      res, nparsed := Consume(input);
      result := res;
    }
  }
}

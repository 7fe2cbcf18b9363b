/** When the request parser gives up: as long as it waits, what it has read can still become a request
    (http/http_request_parser.h). */
module HttpErrors {
  import opened ByteArrays
  import opened HttpParsing

  /** Every method is known and every content length reads as zero. */
  function Lenient(env: HttpEnv): HttpEnv {
    env.(knownMethod := _ => true, stoull := _ => Some(0))
  }

  /** The first header line starts with a blank: it continues nothing, but is an error only at its end. */
  predicate Doomed(p: State) {
    (p.at == HEADER_VALUE || p.at == NEW_LINE_LF) && p.headerKey == []
  }

  /** How far a state is from the end of a request without payload. */
  function Distance(p: State): nat {
    match p.at
    case PAYLOAD => 0
    case NEW_LINE_CRLF_END => 1
    case HEADER_KEY => if p.buffer == [] then 2 else 5
    case NEW_LINE_LF => 3
    case HEADER_VALUE => 4
    case NEW_LINE_CRLF => 6
    case NEW_LINE_CR => 7
    case MINOR_VERSION => 8
    case VERSION_DOT => 9
    case MAJOR_VERSION => 10
    case HTTP_HTTP_SLASH => 11
    case HTTP_HTTP => 12
    case HTTP_HTT => 13
    case HTTP_HT => 14
    case HTTP_H => 15
    case URI => if p.buffer == [] then 17 else 16
    case METHOD => 18
  }

  /** A byte that brings the parser closer to the end. */
  function NextByte(p: State): byte {
    match p.at
    case PAYLOAD => ZERO
    case NEW_LINE_CRLF_END => LF
    case HEADER_KEY => if p.buffer == [] then CR else COLON
    case NEW_LINE_LF => LF
    case HEADER_VALUE => CR
    case MINOR_VERSION => ZERO
    case MAJOR_VERSION => ZERO
    case URI => if p.buffer == [] then SLASH else SP
    case METHOD => SP
    case _ => Literal(p.at).value.0
  }

  lemma NothingDeclared(env: HttpEnv, h: Headers)
    ensures DeclaredLength(Lenient(env), h) == Some(0)
  {
  }

  /** The step with the byte that brings the parser closer. */
  ghost predicate Closer(env: HttpEnv, p: State) {
    var t := Step(Lenient(env), p, NextByte(p));
    || t.result == Complete
    || (t.result == Incomplete && t.next.at != PAYLOAD && !Doomed(t.next) && Distance(t.next) < Distance(p))
  }

  lemma CloserInLine(env: HttpEnv, p: State)
    requires !InHeader(p.at) && !InBody(p.at)
    ensures Closer(env, p)
  {
    assert IsUrlByte(SLASH) && !IsUrlByte(SP) && !IsUpper(SP);
    hide IsUrlByte;
  }

  lemma CloserInHeader(env: HttpEnv, p: State)
    requires InHeader(p.at) && !Doomed(p)
    ensures Closer(env, p)
  {
    hide WithLine, ToLower;
  }

  lemma NextByteIsCloser(env: HttpEnv, p: State)
    requires p.at != PAYLOAD && !Doomed(p)
    ensures Closer(env, p)
  {
    if InHeader(p.at) {
      hide Closer;
      CloserInHeader(env, p);
    } else if InBody(p.at) {
      NothingDeclared(env, p.request.headers);
      hide DeclaredLength;
    } else {
      hide Closer;
      CloserInLine(env, p);
    }
  }

  lemma {:induction false} CanComplete(env: HttpEnv, p: State) returns (more: Bytes)
    requires p.at != PAYLOAD && !Doomed(p)
    ensures Scan(Lenient(env), p, more).result == Complete
    decreases Distance(p)
  {
    var b := NextByte(p);
    var t := Step(Lenient(env), p, b);
    NextByteIsCloser(env, p);
    hide Step, Lenient;
    if t.result == Complete {
      more := [b];
    } else {
      var rest := CanComplete(env, t.next);
      more := [b] + rest;
      assert more[0] == b && more[1..] == rest;
    }
  }

  /** The same byte under the lenient environment: the same step, or the request is complete already. */
  lemma LenientStep(env: HttpEnv, p: State, b: byte)
    requires p.at != PAYLOAD && Step(env, p, b).result == Incomplete
    ensures var t := Step(Lenient(env), p, b);
            t.result == Complete || (t == Step(env, p, b) && t.next.at != PAYLOAD)
  {
    NothingDeclared(env, p.request.headers);
    hide WithLine, DeclaredLength;
  }

  lemma {:induction false} LenientScan(env: HttpEnv, p: State, s: Bytes)
    requires p.at != PAYLOAD && Scan(env, p, s).result == Incomplete
    ensures var r := Scan(Lenient(env), p, s);
            r.result == Complete || (r == Scan(env, p, s) && r.state.at != PAYLOAD)
    decreases |s|
  {
    if s == [] {
    } else {
      LenientStep(env, p, s[0]);
      var t := Step(env, p, s[0]);
      hide Step, Lenient;
      if Step(Lenient(env), p, s[0]).result == Incomplete {
        LenientScan(env, t.next, s[1..]);
      }
    }
  }

  /** As long as the parser waits for more, what it has read can still become a request, for some method table and
      some content length, unless its first header line starts with a blank. */
  lemma WaitsOnlyForRequests(env: HttpEnv, s: Bytes)
    requires Scan(env, BEGIN, s).result == Incomplete && !Doomed(Scan(env, BEGIN, s).state)
    ensures exists more :: Scan(Lenient(env), BEGIN, s + more).result == Complete
  {
    LenientScan(env, BEGIN, s);
    var r := Scan(Lenient(env), BEGIN, s);
    hide Scan, Lenient, Doomed;
    if r.result == Complete {
      Resumable(Lenient(env), BEGIN, s, []);
      assert Scan(Lenient(env), BEGIN, s + []).result == Complete;
    } else {
      var more := CanComplete(env, r.state);
      Resumable(Lenient(env), BEGIN, s, more);
    }
  }
}

/** The HTTP front end of a connection and its hand-over to the upgraded protocol (http/http.h). */
module HttpFront {
  import opened ByteArrays
  import opened HttpParsing
  import HttpPrinting
  import HttpRoundTrips

  /** "connection" in ASCII. */
  const CONNECTION: Bytes := [99, 111, 110, 110, 101, 99, 116, 105, 111, 110]

  /** "upgrade" in ASCII. */
  const UPGRADE: Bytes := [117, 112, 103, 114, 97, 100, 101]

  /** "Upgrade" in ASCII. */
  const UPGRADE_CAPITAL: Bytes := [85, 112, 103, 114, 97, 100, 101]

  /** The parser's environment, the names in the factory's table, the handshakes that are answered with
      SWITCHING_PROTOCOLS, and the bytes whose last one makes the upgraded protocol close the connection. */
  datatype FrontEnv = FrontEnv(
    http: HttpEnv, supported: Bytes -> bool, handshakeOk: Request -> bool, hangsUp: Bytes -> bool)

  datatype Reply = BadRequest | UpgradeNotSupported | Handshake(request: Request)

  predicate IsUpgrade(r: Request) {
    ValueOrDefault(r.headers, CONNECTION, []) in {UPGRADE, UPGRADE_CAPITAL}
  }

  function UpgradeName(r: Request): Bytes {
    ValueOrDefault(r.headers, UPGRADE_CAPITAL, [])
  }

  /** The request is handed to a protocol of the table. */
  predicate Routed(env: FrontEnv, r: Request) {
    IsUpgrade(r) && env.supported(UpgradeName(r))
  }

  /** And the protocol accepts it. */
  predicate Accepts(env: FrontEnv, r: Request) {
    Routed(env, r) && env.handshakeOk(r)
  }

  // ---- Byte by byte -------------------------------------------------------------------

  datatype Phase = Reading(parser: State) | Failed | Upgraded

  /** Where the connection stands, the responses handed to `writeBytes`, the bytes given to the upgraded
      protocol, and whether the TCP connection has been closed: then the read at hand is still handled to its
      end, but no other read arrives. */
  datatype Front = Front(phase: Phase, replies: seq<Reply>, forwarded: Bytes, closing: bool)

  const CONNECTED := Front(Reading(BEGIN), [], [], false)

  /** A whole request: only an upgrade request resets the parser, and only a handshake answered with
      SWITCHING_PROTOCOLS leaves the connection open. */
  function OnRequest(env: FrontEnv, f: Front, p: State): Front {
    if !IsUpgrade(p.request) then f.(phase := Reading(p), replies := f.replies + [BadRequest], closing := true)
    else if env.supported(UpgradeName(p.request)) then
      f.(phase := Upgraded, replies := f.replies + [Handshake(p.request)],
         closing := f.closing || !env.handshakeOk(p.request))
    else f.(phase := Reading(BEGIN), replies := f.replies + [UpgradeNotSupported], closing := true)
  }

  function OneByte(env: FrontEnv, f: Front, b: byte): Front {
    match f.phase
    case Upgraded =>
      f.(forwarded := f.forwarded + [b], closing := f.closing || env.hangsUp(f.forwarded + [b]))
    case Failed => f
    case Reading(p) =>
      var t := Step(env.http, p, b);
      match t.result
      case Incomplete => f.(phase := Reading(t.next))
      case ParseError => f.(phase := Failed, closing := true)
      case Complete => OnRequest(env, f, t.next)
  }

  /** Where bytes that are read leave the connection, one byte at a time. */
  function Fold(env: FrontEnv, f: Front, s: Bytes): Front
    decreases |s|
  {
    if s == [] then f else Fold(env, OneByte(env, f, s[0]), s[1..])
  }

  lemma {:induction false} FoldConcat(env: FrontEnv, f: Front, a: Bytes, b: Bytes)
    ensures Fold(env, f, a + b) == Fold(env, Fold(env, f, a), b)
    decreases |a|
  {
    hide OneByte;
    if a == [] {
      assert a + b == b;
    } else {
      assert (a + b)[0] == a[0] && (a + b)[1..] == a[1..] + b;
      FoldConcat(env, OneByte(env, f, a[0]), a[1..], b);
    }
  }

  /** The upgraded protocol, given `more` after `before`, closes the connection. */
  predicate HangsUp(env: FrontEnv, before: Bytes, more: Bytes)
    decreases |more|
  {
    more != [] && (env.hangsUp(before + [more[0]]) || HangsUp(env, before + [more[0]], more[1..]))
  }

  /** Once upgraded, every byte goes to the upgraded protocol; once failed, none does. */
  lemma {:induction false} FoldSettled(env: FrontEnv, f: Front, s: Bytes)
    requires !f.phase.Reading?
    ensures Fold(env, f, s)
         == if f.phase.Upgraded?
            then f.(forwarded := f.forwarded + s, closing := f.closing || HangsUp(env, f.forwarded, s)) else f
    decreases |s|
  {
    if s == [] {
      assert f.forwarded + s == f.forwarded;
    } else {
      FoldSettled(env, OneByte(env, f, s[0]), s[1..]);
      assert f.forwarded + s == f.forwarded + [s[0]] + s[1..];
    }
  }

  /** While reading, one parse decides as far as the end of the first request. */
  lemma {:induction false} FoldScan(env: FrontEnv, f: Front, s: Bytes)
    requires f.phase.Reading?
    ensures var r := Scan(env.http, f.phase.parser, s);
            Fold(env, f, s)
            == match r.result
               case Incomplete => f.(phase := Reading(r.state))
               case ParseError => f.(phase := Failed, closing := true)
               case Complete => Fold(env, OnRequest(env, f, r.state), s[r.size..])
    decreases |s|
  {
    hide Step;
    if s == [] {
    } else {
      var t := Step(env.http, f.phase.parser, s[0]);
      if t.result == Incomplete {
        FoldScan(env, f.(phase := Reading(t.next)), s[1..]);
        var r := Scan(env.http, t.next, s[1..]);
        assert s[1..][r.size..] == s[r.size + 1..];
      } else if t.result == ParseError {
        FoldSettled(env, f.(phase := Failed, closing := true), s[1..]);
      }
    }
  }

  lemma FoldNothing(env: FrontEnv, f: Front)
    ensures Fold(env, f, []) == f
  {
  }

  /** Exactly the bytes of a request lead to the response to it. */
  lemma FoldToRequest(env: FrontEnv, f: Front, s: Bytes)
    requires f.phase.Reading? && Scan(env.http, f.phase.parser, s).result == Complete
    ensures var r := Scan(env.http, f.phase.parser, s);
            Fold(env, f, s[..r.size]) == OnRequest(env, f, r.state)
  {
    hide Step, Fold, OnRequest, Scan;
    var p := f.phase.parser;
    var r := Scan(env.http, p, s);
    var head := s[..r.size];
    assert s == head + s[r.size..];
    Resumable(env.http, p, head, s[r.size..]);
    assert Scan(env.http, p, head) == r;
    FoldScan(env, f, head);
    assert head[r.size..] == [];
    FoldNothing(env, OnRequest(env, f, r.state));
  }

  // ---- Reads ------------------------------------------------------------------------------

  /** Where a sequence of reads leaves the connection. After a close no read arrives. */
  function FoldAll(env: FrontEnv, f: Front, chunks: seq<Bytes>): Front
    decreases |chunks|
  {
    if chunks == [] || f.closing then f else FoldAll(env, Fold(env, f, chunks[0]), chunks[1..])
  }

  /** How many of the reads arrive. */
  function ReadsArriving(env: FrontEnv, f: Front, chunks: seq<Bytes>): (n: nat)
    ensures n <= |chunks|
    decreases |chunks|
  {
    if chunks == [] || f.closing then 0 else 1 + ReadsArriving(env, Fold(env, f, chunks[0]), chunks[1..])
  }

  /** What the reads lead to is what the bytes that arrive lead to: all of them, or those up to the end of the
      first read in which the connection is closed. */
  lemma {:induction false} FoldAllIsFold(env: FrontEnv, f: Front, chunks: seq<Bytes>)
    ensures var n := ReadsArriving(env, f, chunks);
            && FoldAll(env, f, chunks) == Fold(env, f, Flatten(chunks[..n]))
            && (n < |chunks| ==> FoldAll(env, f, chunks).closing)
            && (forall k :: 0 <= k < n ==> !Fold(env, f, Flatten(chunks[..k])).closing)
    decreases |chunks|
  {
    hide OneByte;
    var n := ReadsArriving(env, f, chunks);
    if chunks == [] || f.closing {
      assert chunks[..n] == [];
    } else {
      var g := Fold(env, f, chunks[0]);
      FoldAllIsFold(env, g, chunks[1..]);
      forall k | 1 <= k <= n
        ensures Fold(env, f, Flatten(chunks[..k])) == Fold(env, g, Flatten(chunks[1..][..k - 1]))
      {
        assert chunks[..k][0] == chunks[0] && chunks[..k][1..] == chunks[1..][..k - 1];
        FoldConcat(env, f, chunks[0], Flatten(chunks[1..][..k - 1]));
      }
      forall k | 0 <= k < n ensures !Fold(env, f, Flatten(chunks[..k])).closing {
        if k > 0 {
          assert !Fold(env, g, Flatten(chunks[1..][..k - 1])).closing;
        }
      }
    }
  }

  lemma {:induction false} FoldAllConcat(env: FrontEnv, f: Front, a: seq<Bytes>, b: seq<Bytes>)
    ensures FoldAll(env, f, a + b) == FoldAll(env, FoldAll(env, f, a), b)
    decreases |a|
  {
    hide Fold;
    if a == [] {
      assert a + b == b;
    } else if !f.closing {
      assert (a + b)[0] == a[0] && (a + b)[1..] == a[1..] + b;
      FoldAllConcat(env, Fold(env, f, a[0]), a[1..], b);
    }
  }

  // ---- The first request --------------------------------------------------------------------

  /** The input is a request, the whole of it and nothing more. */
  predicate IsWhole(env: FrontEnv, head: Bytes) {
    Scan(env.http, BEGIN, head).result == Complete && Scan(env.http, BEGIN, head).size == |head|
  }

  function RequestOf(env: FrontEnv, head: Bytes): Request {
    Scan(env.http, BEGIN, head).state.request
  }

  lemma BeforeTheEnd(env: FrontEnv, head: Bytes, a: Bytes)
    requires IsWhole(env, head) && a < head
    ensures !Fold(env, CONNECTED, a).closing
  {
    hide Scan, Step;
    var b := head[|a|..];
    assert head == a + b;
    Resumable(env.http, BEGIN, a, b);
    FoldScan(env, CONNECTED, a);
  }

  /** The reads before the one in which the first request ends all arrive. */
  lemma ReadsBeforeArrive(env: FrontEnv, head: Bytes, before: seq<Bytes>)
    requires IsWhole(env, head) && Flatten(before) < head
    ensures FoldAll(env, CONNECTED, before) == Fold(env, CONNECTED, Flatten(before))
  {
    hide IsWhole, Fold, FoldAll;
    FoldAllIsFold(env, CONNECTED, before);
    var n := ReadsArriving(env, CONNECTED, before);
    FlattenConcat(before[..n], before[n..]);
    assert before == before[..n] + before[n..];
    if n < |before| {
      BeforeTheEnd(env, head, Flatten(before[..n]));
    } else {
      assert before[..n] == before;
    }
  }

  lemma OneRead(env: FrontEnv, f: Front, chunk: Bytes)
    requires !f.closing
    ensures FoldAll(env, f, [chunk]) == Fold(env, f, chunk)
  {
    hide Fold;
    assert [chunk][0] == chunk && [chunk][1..] == [];
  }

  /** The first request is answered at the end of its last byte, the rest of that read is handled, and then the
      later reads, if the connection has not been closed. */
  lemma RequestInReads(
      env: FrontEnv, head: Bytes, tail: Bytes, before: seq<Bytes>, chunk: Bytes, later: seq<Bytes>)
    requires IsWhole(env, head) && Flatten(before) + chunk == head + tail && |Flatten(before)| < |head|
    ensures FoldAll(env, CONNECTED, before + [chunk] + later)
         == FoldAll(env, Fold(env, OnRequest(env, CONNECTED, Scan(env.http, BEGIN, head).state), tail), later)
  {
    hide Fold, FoldAll, OnRequest, Step, Scan;
    var a := Flatten(before);
    assert a < head by {
      assert a == (head + tail)[..|a|] == head[..|a|];
    }
    ReadsBeforeArrive(env, head, before);
    BeforeTheEnd(env, head, a);
    FoldAllConcat(env, CONNECTED, before + [chunk], later);
    FoldAllConcat(env, CONNECTED, before, [chunk]);
    OneRead(env, Fold(env, CONNECTED, a), chunk);
    FoldConcat(env, CONNECTED, a, chunk);
    Resumable(env.http, BEGIN, head, tail);
    FoldScan(env, CONNECTED, head + tail);
    assert (head + tail)[|head|..] == tail;
  }

  /** However a stream is cut, one read holds the last byte of its first request. */
  lemma {:induction false} LastByteRead(head: Bytes, rest: Bytes, chunks: seq<Bytes>)
      returns (before: seq<Bytes>, chunk: Bytes, later: seq<Bytes>, tail: Bytes)
    requires head != [] && Flatten(chunks) == head + rest
    ensures chunks == before + [chunk] + later
    ensures Flatten(before) + chunk == head + tail && |Flatten(before)| < |head| && tail + Flatten(later) == rest
    decreases |chunks|
  {
    var first, others := chunks[0], chunks[1..];
    assert first + Flatten(others) == head + rest;
    if |first| >= |head| {
      before, chunk, later, tail := [], first, others, first[|head|..];
      assert first[..|head|] == (head + rest)[..|head|] == head;
      assert Flatten(before) + chunk == first == head + tail;
      assert tail + Flatten(later) == (first + Flatten(others))[|head|..] == rest;
    } else {
      var head' := head[|first|..];
      assert first == (head + rest)[..|first|] == head[..|first|];
      assert Flatten(others) == (head + rest)[|first|..] == head' + rest;
      before, chunk, later, tail := LastByteRead(head', rest, others);
      assert ([first] + before)[1..] == before;
      assert first + (Flatten(before) + chunk) == first + Flatten(before) + chunk;
      assert head + tail == first + (head' + tail);
      before := [first] + before;
      assert chunks == [first] + others;
    }
  }

  // ---- The hand-over ----------------------------------------------------------------------

  lemma {:induction false} HangsUpConcat(env: FrontEnv, before: Bytes, a: Bytes, b: Bytes)
    ensures HangsUp(env, before, a + b) == (HangsUp(env, before, a) || HangsUp(env, before + a, b))
    decreases |a|
  {
    if a == [] {
      assert a + b == b && before + a == before;
    } else {
      assert (a + b)[0] == a[0] && (a + b)[1..] == a[1..] + b;
      HangsUpConcat(env, before + [a[0]], a[1..], b);
      assert before + a == before + [a[0]] + a[1..];
    }
  }

  /** An upgraded connection forwards read after read until the protocol hangs up. */
  lemma {:induction false} UpgradedReads(env: FrontEnv, f: Front, later: seq<Bytes>)
    requires f.phase.Upgraded? && f.closing == HangsUp(env, [], f.forwarded)
    ensures var g := FoldAll(env, f, later);
            && g.phase.Upgraded? && g.replies == f.replies
            && f.forwarded <= g.forwarded <= f.forwarded + Flatten(later)
            && g.closing == HangsUp(env, [], g.forwarded)
            && (!g.closing ==> g.forwarded == f.forwarded + Flatten(later))
    decreases |later|
  {
    if later == [] {
      assert f.forwarded + Flatten(later) == f.forwarded;
    } else if !f.closing {
      hide Fold, HangsUp;
      FoldSettled(env, f, later[0]);
      HangsUpConcat(env, [], f.forwarded, later[0]);
      assert [] + f.forwarded == f.forwarded;
      assert f.forwarded + later[0] + Flatten(later[1..]) == f.forwarded + Flatten(later);
      var next := f.(forwarded := f.forwarded + later[0], closing := HangsUp(env, [], f.forwarded + later[0]));
      assert FoldAll(env, f, later) == FoldAll(env, next, later[1..]);
      hide FoldAll, Flatten;
      UpgradedReads(env, next, later[1..]);
    }
  }

  /** One complete upgrade request whose handshake succeeds, then anything: however the stream is cut, there is
      one response and the upgraded protocol is given the bytes after the request, in order, and all of them
      unless it has closed the connection itself. */
  lemma UpgradeHandOver(env: FrontEnv, head: Bytes, rest: Bytes, chunks: seq<Bytes>)
    requires IsWhole(env, head) && Accepts(env, RequestOf(env, head)) && Flatten(chunks) == head + rest
    ensures var g := FoldAll(env, CONNECTED, chunks);
            && g.phase.Upgraded? && g.replies == [Handshake(RequestOf(env, head))]
            && g.forwarded <= rest && g.closing == HangsUp(env, [], g.forwarded)
            && (!g.closing ==> g.forwarded == rest)
  {
    var before, chunk, later, tail := LastByteRead(head, rest, chunks);
    RequestInReads(env, head, tail, before, chunk, later);
    var f := OnRequest(env, CONNECTED, Scan(env.http, BEGIN, head).state);
    assert f == Front(Upgraded, [Handshake(RequestOf(env, head))], [], false);
    hide Fold, FoldAll, OnRequest, Scan, HangsUp;
    FoldSettled(env, f, tail);
    assert [] + tail == tail;
    UpgradedReads(env, Fold(env, f, tail), later);
  }

  /** A handshake that is refused closes the connection: of the bytes after the request only those of the same
      read are given to the protocol. */
  lemma RefusedHandshake(
      env: FrontEnv, head: Bytes, tail: Bytes, before: seq<Bytes>, chunk: Bytes, later: seq<Bytes>)
    requires IsWhole(env, head) && Flatten(before) + chunk == head + tail && |Flatten(before)| < |head|
    requires Routed(env, RequestOf(env, head)) && !env.handshakeOk(RequestOf(env, head))
    ensures FoldAll(env, CONNECTED, before + [chunk] + later)
         == Front(Upgraded, [Handshake(RequestOf(env, head))], tail, true)
  {
    RequestInReads(env, head, tail, before, chunk, later);
    var f := OnRequest(env, CONNECTED, Scan(env.http, BEGIN, head).state);
    assert f == Front(Upgraded, [Handshake(RequestOf(env, head))], [], true);
    hide Fold, OnRequest, Scan, HangsUp;
    FoldSettled(env, f, tail);
    assert [] + tail == tail;
  }

  /** The same connection, closed and with more responses before. */
  function Earlier(replies: seq<Reply>, f: Front): Front {
    f.(replies := replies + f.replies, closing := true)
  }

  /** Neither responses already written nor the close influence how a read is handled. */
  lemma {:induction false} FoldKeepsEarlier(env: FrontEnv, replies: seq<Reply>, f: Front, s: Bytes)
    ensures Fold(env, Earlier(replies, f), s) == Earlier(replies, Fold(env, f, s))
    decreases |s|
  {
    if s == [] {
    } else {
      var g := OneByte(env, f, s[0]);
      assert OneByte(env, Earlier(replies, f), s[0]) == Earlier(replies, g) by {
        hide Step, IsUpgrade, Fold;
        assert forall reply: Reply :: replies + (f.replies + [reply]) == replies + f.replies + [reply];
      }
      hide OneByte, Earlier;
      FoldKeepsEarlier(env, replies, g, s[1..]);
    }
  }

  lemma OnRefusal(env: FrontEnv, p: State)
    requires IsUpgrade(p.request) && !Routed(env, p.request)
    ensures OnRequest(env, CONNECTED, p) == Earlier([UpgradeNotSupported], CONNECTED)
  {
    hide IsUpgrade, UpgradeName;
  }

  /** An upgrade request for a protocol the server does not have closes the connection. What follows it in the
      same read is handled as if it were the start of a stream, so for a second try in there a response is still
      handed to `writeBytes`; what comes in later reads is not read. */
  lemma SecondTry(
      env: FrontEnv, head: Bytes, tail: Bytes, before: seq<Bytes>, chunk: Bytes, later: seq<Bytes>)
    requires IsWhole(env, head) && Flatten(before) + chunk == head + tail && |Flatten(before)| < |head|
    requires IsUpgrade(RequestOf(env, head)) && !Routed(env, RequestOf(env, head))
    ensures FoldAll(env, CONNECTED, before + [chunk] + later)
         == Earlier([UpgradeNotSupported], Fold(env, CONNECTED, tail))
  {
    hide Fold, Scan, OnRequest, IsUpgrade, Routed;
    RequestInReads(env, head, tail, before, chunk, later);
    OnRefusal(env, Scan(env.http, BEGIN, head).state);
    FoldKeepsEarlier(env, [UpgradeNotSupported], CONNECTED, tail);
  }

  /** The bytes read before the connection is upgraded or has failed. */
  function Border(env: FrontEnv, f: Front, s: Bytes): (n: nat)
    ensures n <= |s|
    decreases |s|
  {
    if s == [] || !f.phase.Reading? then 0 else 1 + Border(env, OneByte(env, f, s[0]), s[1..])
  }

  /** The last response is to a request of a protocol in the table, and the connection stays open exactly if
      that protocol accepted it and no request was refused before it. */
  ghost predicate JustRouted(env: FrontEnv, was: Front, f: Front) {
    && f.phase.Upgraded? && |f.replies| > |was.replies|
    && var last := f.replies[|f.replies| - 1];
       && last.Handshake? && Routed(env, last.request)
       && (f.closing <==> was.closing || |f.replies| > |was.replies| + 1 || !env.handshakeOk(last.request))
  }

  lemma ReadingStep(env: FrontEnv, f: Front, b: byte)
    requires f.phase.Reading?
    ensures var g := OneByte(env, f, b);
            && g.forwarded == f.forwarded && |f.replies| <= |g.replies| <= |f.replies| + 1
            && (g.phase.Reading? ==> (g.closing <==> f.closing || |g.replies| > |f.replies|))
            && (g.phase.Upgraded? ==> JustRouted(env, f, g))
  {
    hide Step, IsUpgrade, UpgradeName;
  }

  lemma RoutedLater(env: FrontEnv, f: Front, g: Front, at: Front)
    requires |f.replies| <= |g.replies| <= |f.replies| + 1
    requires g.closing <==> f.closing || |g.replies| > |f.replies|
    ensures JustRouted(env, g, at) ==> JustRouted(env, f, at)
  {
    hide Routed;
  }

  /** What one read does: there is at most one border in it, the last byte of a request that is taken. */
  lemma {:induction false} BorderInRead(env: FrontEnv, f: Front, s: Bytes)
    requires f.phase.Reading?
    ensures var n := Border(env, f, s);
            var at := Fold(env, f, s[..n]);
            && (forall k :: 0 <= k < n ==> Fold(env, f, s[..k]).phase.Reading?)
            && at.forwarded == f.forwarded
            && (at.phase.Upgraded? ==> JustRouted(env, f, at))
            && (at.phase.Reading? ==> n == |s|)
            && Fold(env, f, s)
               == if at.phase.Upgraded?
                  then at.(forwarded := f.forwarded + s[n..],
                           closing := at.closing || HangsUp(env, f.forwarded, s[n..]))
                  else at
    decreases |s|
  {
    var n := Border(env, f, s);
    if s == [] {
    } else {
      var g := OneByte(env, f, s[0]);
      ReadingStep(env, f, s[0]);
      hide OneByte, HangsUp;
      forall k | 1 <= k <= |s| ensures Fold(env, f, s[..k]) == Fold(env, g, s[1..][..k - 1]) {
        assert s[..k][0] == s[0] && s[..k][1..] == s[1..][..k - 1];
      }
      if g.phase.Reading? {
        BorderInRead(env, g, s[1..]);
        RoutedLater(env, f, g, Fold(env, g, s[1..][..n - 1]));
        hide JustRouted;
        forall k | 0 <= k < n ensures Fold(env, f, s[..k]).phase.Reading? {
          if k > 0 {
            assert Fold(env, g, s[1..][..k - 1]).phase.Reading?;
          }
        }
        assert s[1..][n - 1..] == s[n..];
      } else {
        hide JustRouted;
        assert Border(env, g, s[1..]) == 0;
        FoldSettled(env, g, s[1..]);
      }
    }
  }

  /** Whatever the stream and however it is cut, there is at most one border in the bytes that arrive: the last
      byte of a request that is taken. Nothing before it is forwarded and everything after it is. */
  lemma OneBorder(env: FrontEnv, chunks: seq<Bytes>)
    ensures var s := Flatten(chunks[..ReadsArriving(env, CONNECTED, chunks)]);
            var n := Border(env, CONNECTED, s);
            var at := Fold(env, CONNECTED, s[..n]);
            var g := FoldAll(env, CONNECTED, chunks);
            && (forall k :: 0 <= k < n ==> Fold(env, CONNECTED, s[..k]).phase.Reading?)
            && g.phase == at.phase && g.replies == at.replies
            && (g.phase.Upgraded? ==> JustRouted(env, CONNECTED, at) && g.forwarded == s[n..])
            && (!g.phase.Upgraded? ==> g.forwarded == [])
  {
    hide Fold, FoldAll, JustRouted, HangsUp;
    FoldAllIsFold(env, CONNECTED, chunks);
    var s := Flatten(chunks[..ReadsArriving(env, CONNECTED, chunks)]);
    BorderInRead(env, CONNECTED, s);
    var n := Border(env, CONNECTED, s);
    assert [] + s[n..] == s[n..];
  }

  // ---- Requests that are no upgrade ---------------------------------------------------------

  /** After a request that is no upgrade the parser is left where it was: past its end. */
  ghost predicate PastRequest(env: FrontEnv, p: State) {
    && !IsUpgrade(p.request)
    && if p.at == PAYLOAD then
         0 < p.contentLength <= |p.request.payload| && DeclaredLength(env.http, p.request.headers) != Some(0)
       else p.at == NEW_LINE_CRLF_END && DeclaredLength(env.http, p.request.headers) == Some(0)
  }

  lemma {:induction false} CompleteIsPast(env: FrontEnv, p: State, s: Bytes)
    requires Sound(env.http, p)
    ensures var r := Scan(env.http, p, s);
            r.result == Complete && !IsUpgrade(r.state.request) ==> PastRequest(env, r.state)
    decreases |s|
  {
    if s == [] {
    } else {
      var t := Step(env.http, p, s[0]);
      if t.result == Incomplete {
        hide Step, Sound, PastRequest, IsUpgrade;
        StepKeepsSound(env.http, p, s[0]);
        CompleteIsPast(env, t.next, s[1..]);
      }
    }
  }

  function LeadingLineFeeds(s: Bytes): nat {
    if s == [] || s[0] != LF then 0 else 1 + LeadingLineFeeds(s[1..])
  }

  function BadRequests(n: nat): seq<Reply> {
    seq(n, _ => BadRequest)
  }

  lemma OneMoreBadRequest(replies: seq<Reply>, n: nat)
    ensures replies + [BadRequest] + BadRequests(n) == replies + BadRequests(1 + n)
    ensures [BadRequest] + BadRequests(n) == BadRequests(1 + n)
  {
    assert BadRequests(1 + n) == [BadRequest] + BadRequests(n);
  }

  lemma PastRequestStep(env: FrontEnv, f: Front, b: byte)
    requires f.phase.Reading? && PastRequest(env, f.phase.parser)
    ensures var g := OneByte(env, f, b);
            if f.phase.parser.at == PAYLOAD then
              && g.phase.Reading? && g.phase.parser.at == PAYLOAD && PastRequest(env, g.phase.parser)
              && g == f.(phase := g.phase)
            else if b == LF then g == f.(replies := f.replies + [BadRequest], closing := true)
            else g == f.(phase := Failed, closing := true)
  {
    hide ValueOrDefault, DeclaredLength;
    if f.phase.parser.at != PAYLOAD && b == LF {
      assert Step(env.http, f.phase.parser, b) == Stepped(f.phase.parser, Complete) by {
        assert DeclaredLength(env.http, f.phase.parser.request.headers) == Some(0);
      }
    }
  }

  /** Past a request without a payload every line feed is taken for its end once more, until another byte is an
      error; past a payload every byte is swallowed. */
  lemma {:induction false} PastRequestReplies(env: FrontEnv, f: Front, s: Bytes)
    requires f.phase.Reading? && PastRequest(env, f.phase.parser)
    ensures var g := Fold(env, f, s);
            && !g.phase.Upgraded? && g.forwarded == f.forwarded
            && g.replies
               == f.replies + BadRequests(if f.phase.parser.at == PAYLOAD then 0 else LeadingLineFeeds(s))
    decreases |s|
  {
    if s == [] {
      assert f.replies + BadRequests(0) == f.replies;
    } else {
      var g := OneByte(env, f, s[0]);
      PastRequestStep(env, f, s[0]);
      hide OneByte, PastRequest;
      if f.phase.parser.at == PAYLOAD {
        PastRequestReplies(env, g, s[1..]);
      } else if s[0] == LF {
        PastRequestReplies(env, g, s[1..]);
        OneMoreBadRequest(f.replies, LeadingLineFeeds(s[1..]));
      } else {
        FoldSettled(env, g, s[1..]);
        assert f.replies + BadRequests(0) == f.replies;
      }
    }
  }

  lemma {:induction false} FoldKeepsClosing(env: FrontEnv, f: Front, s: Bytes)
    ensures var g := Fold(env, f, s);
            (f.closing ==> g.closing) && f.replies <= g.replies && f.forwarded <= g.forwarded
            && (f.phase.Upgraded? ==> g.phase.Upgraded?)
    decreases |s|
  {
    if s == [] {
    } else {
      var g := OneByte(env, f, s[0]);
      assert (f.closing ==> g.closing) && f.replies <= g.replies && f.forwarded <= g.forwarded;
      hide OneByte;
      FoldKeepsClosing(env, g, s[1..]);
    }
  }

  /** What the rest of the read adds to the first 400. */
  lemma AfterRefusal(env: FrontEnv, f: Front, rest: Bytes)
    requires f.phase.Reading? && PastRequest(env, f.phase.parser)
    requires f.replies == [BadRequest] && f.forwarded == [] && f.closing
    ensures var g := Fold(env, f, rest);
            var n := if f.phase.parser.at == PAYLOAD then 0 else LeadingLineFeeds(rest);
            && !g.phase.Upgraded? && g.forwarded == [] && g.closing
            && g.replies == BadRequests(1 + n) && (g.replies == [BadRequest] <==> n == 0)
  {
    hide Fold, PastRequest;
    PastRequestReplies(env, f, rest);
    FoldKeepsClosing(env, f, rest);
    OneMoreBadRequest([], if f.phase.parser.at == PAYLOAD then 0 else LeadingLineFeeds(rest));
  }

  /** A request that is no upgrade closes the connection and is answered with a 400, and with one more for
      every line feed right behind it in the same read if it declares no payload. Nothing is handed over. */
  lemma OtherRequestsAreRefused(
      env: FrontEnv, head: Bytes, tail: Bytes, before: seq<Bytes>, chunk: Bytes, later: seq<Bytes>)
    requires IsWhole(env, head) && Flatten(before) + chunk == head + tail && |Flatten(before)| < |head|
    requires !IsUpgrade(RequestOf(env, head))
    ensures var declared := DeclaredLength(env.http, RequestOf(env, head).headers);
            var g := FoldAll(env, CONNECTED, before + [chunk] + later);
            && !g.phase.Upgraded? && g.forwarded == [] && g.closing
            && g.replies == BadRequests(1 + if declared == Some(0) then LeadingLineFeeds(tail) else 0)
            && (g.replies == [BadRequest] <==> declared != Some(0) || tail == [] || tail[0] != LF)
  {
    var r := Scan(env.http, BEGIN, head);
    CompleteIsPast(env, BEGIN, head);
    hide Scan, Step, IsUpgrade, DeclaredLength, FoldAll, Fold, Flatten, BadRequests;
    RequestInReads(env, head, tail, before, chunk, later);
    var f := Front(Reading(r.state), [BadRequest], [], true);
    assert OnRequest(env, CONNECTED, r.state) == f;
    hide OnRequest, RequestOf;
    AfterRefusal(env, f, tail);
  }

  /** A stream that starts with no request gets no response and is closed, however it is cut. */
  lemma BadStreamCloses(env: FrontEnv, chunks: seq<Bytes>)
    requires Scan(env.http, BEGIN, Flatten(chunks)).result == ParseError
    ensures FoldAll(env, CONNECTED, chunks) == Front(Failed, [], [], true)
  {
    hide Scan, Step;
    var n := ReadsArriving(env, CONNECTED, chunks);
    var a, b := Flatten(chunks[..n]), Flatten(chunks[n..]);
    FoldAllIsFold(env, CONNECTED, chunks);
    FlattenConcat(chunks[..n], chunks[n..]);
    assert chunks == chunks[..n] + chunks[n..];
    Resumable(env.http, BEGIN, a, b);
    FoldScan(env, CONNECTED, a);
    if n == |chunks| {
      assert chunks[..n] == chunks;
    }
  }

  // ---- What depends on the cut ----------------------------------------------------------------

  /** What is observable: whether a protocol took over, the responses handed to `writeBytes`, and the bytes given to
      that protocol. */
  datatype Outcome = Outcome(upgraded: bool, replies: seq<Reply>, forwarded: Bytes)

  function OutcomeOf(f: Front): Outcome {
    Outcome(f.phase.Upgraded?, f.replies, f.forwarded)
  }

  /** The bytes read, if they all came in one read, when the connection is closed. */
  function ClosePoint(env: FrontEnv, f: Front, s: Bytes): (n: nat)
    ensures n <= |s|
    decreases |s|
  {
    if s == [] || f.closing then 0 else 1 + ClosePoint(env, OneByte(env, f, s[0]), s[1..])
  }

  /** Nothing more would be seen if the rest came in the same read: no byte for an upgraded protocol and no
      further whole request. */
  predicate Silent(env: FrontEnv, f: Front, rest: Bytes) {
    match f.phase
    case Failed => true
    case Upgraded => rest == []
    case Reading(p) => Scan(env.http, p, rest).result != Complete
  }

  lemma {:induction false} AtClosePoint(env: FrontEnv, f: Front, s: Bytes)
    ensures var n := ClosePoint(env, f, s);
            && (forall k :: 0 <= k < n ==> !Fold(env, f, s[..k]).closing)
            && (n < |s| ==> Fold(env, f, s[..n]).closing)
    decreases |s|
  {
    hide OneByte;
    if s == [] || f.closing {
    } else {
      var g := OneByte(env, f, s[0]);
      var n := ClosePoint(env, f, s);
      AtClosePoint(env, g, s[1..]);
      forall k | 1 <= k <= |s| ensures Fold(env, f, s[..k]) == Fold(env, g, s[1..][..k - 1]) {
        assert s[..k][0] == s[0] && s[..k][1..] == s[1..][..k - 1];
      }
      forall k | 0 <= k < n ensures !Fold(env, f, s[..k]).closing {
        if k > 0 {
          assert !Fold(env, g, s[1..][..k - 1]).closing;
        }
      }
    }
  }

  /** A silent rest shows nothing, in whole or in part; any other shows something. */
  lemma SilentIff(env: FrontEnv, f: Front, rest: Bytes, j: nat)
    requires j <= |rest|
    ensures Silent(env, f, rest) <==> OutcomeOf(Fold(env, f, rest)) == OutcomeOf(f)
    ensures Silent(env, f, rest) ==> OutcomeOf(Fold(env, f, rest[..j])) == OutcomeOf(f)
  {
    hide Fold, Step, Scan;
    if f.phase.Reading? {
      var p := f.phase.parser;
      var r := Scan(env.http, p, rest);
      FoldScan(env, f, rest);
      if r.result == Complete {
        FoldKeepsClosing(env, OnRequest(env, f, r.state), rest[r.size..]);
      }
      FoldScan(env, f, rest[..j]);
      Resumable(env.http, p, rest[..j], rest[j..]);
      assert rest == rest[..j] + rest[j..];
    } else {
      FoldSettled(env, f, rest);
      FoldSettled(env, f, rest[..j]);
      assert f.forwarded + rest == f.forwarded ==> |rest| == 0;
    }
  }

  /** What is seen of some stream is the same however it is cut. */
  ghost predicate CutFree(env: FrontEnv, s: Bytes) {
    forall chunks: seq<Bytes> :: Flatten(chunks) == s ==>
      OutcomeOf(FoldAll(env, CONNECTED, chunks)) == OutcomeOf(Fold(env, CONNECTED, s))
  }

  lemma PastClosePoint(env: FrontEnv, s: Bytes, n: nat, k: nat)
    requires n <= k <= |s|
    ensures Fold(env, CONNECTED, s[..k]) == Fold(env, Fold(env, CONNECTED, s[..n]), s[n..][..k - n])
  {
    hide Fold;
    FoldConcat(env, CONNECTED, s[..n], s[n..][..k - n]);
    assert s[..k] == s[..n] + s[n..][..k - n];
  }

  /** However the stream is cut, the bytes up to the one that closes the connection are read. */
  lemma ReadAtLeast(env: FrontEnv, s: Bytes, chunks: seq<Bytes>) returns (k: nat)
    requires Flatten(chunks) == s
    ensures ClosePoint(env, CONNECTED, s) <= k <= |s| && FoldAll(env, CONNECTED, chunks) == Fold(env, CONNECTED, s[..k])
  {
    hide Fold, FoldAll;
    AtClosePoint(env, CONNECTED, s);
    FoldAllIsFold(env, CONNECTED, chunks);
    var m := ReadsArriving(env, CONNECTED, chunks);
    FlattenConcat(chunks[..m], chunks[m..]);
    assert chunks == chunks[..m] + chunks[m..];
    k := |Flatten(chunks[..m])|;
    assert Flatten(chunks[..m]) == s[..k];
    if m == |chunks| {
      assert chunks[..m] == chunks;
    }
  }

  lemma SilentForCut(env: FrontEnv, s: Bytes, chunks: seq<Bytes>)
    requires Flatten(chunks) == s
    requires var n := ClosePoint(env, CONNECTED, s); Silent(env, Fold(env, CONNECTED, s[..n]), s[n..])
    ensures OutcomeOf(FoldAll(env, CONNECTED, chunks)) == OutcomeOf(Fold(env, CONNECTED, s))
  {
    hide Fold, FoldAll, Silent, ClosePoint, Flatten;
    var k := ReadAtLeast(env, s, chunks);
    var n := ClosePoint(env, CONNECTED, s);
    SilentIff(env, Fold(env, CONNECTED, s[..n]), s[n..], k - n);
    PastClosePoint(env, s, n, k);
    PastClosePoint(env, s, n, |s|);
    assert s[..|s|] == s && s[n..][..|s| - n] == s[n..];
  }

  lemma TwoChunks(a: Bytes, b: Bytes)
    ensures Flatten([a, b]) == a + b
  {
    assert [a, b][1..] == [b] && [b][1..] == [];
    assert Flatten([b]) == b + [] == b;
  }

  lemma NothingIsSilent(env: FrontEnv, f: Front, rest: Bytes)
    requires !Silent(env, f, rest)
    ensures rest != []
  {
  }

  lemma ClosedReads(env: FrontEnv, f: Front, later: seq<Bytes>)
    requires f.closing
    ensures FoldAll(env, f, later) == f
  {
  }

  /** The cut that shows the difference: the first read ends with the byte that closes the connection. */
  lemma CutAtClosePoint(env: FrontEnv, s: Bytes)
    requires var n := ClosePoint(env, CONNECTED, s); !Silent(env, Fold(env, CONNECTED, s[..n]), s[n..])
    ensures !CutFree(env, s)
  {
    hide Fold, FoldAll, Silent, ClosePoint, OutcomeOf;
    var n := ClosePoint(env, CONNECTED, s);
    var f := Fold(env, CONNECTED, s[..n]);
    AtClosePoint(env, CONNECTED, s);
    SilentIff(env, f, s[n..], 0);
    FoldConcat(env, CONNECTED, s[..n], s[n..]);
    assert s == s[..n] + s[n..];
    var chunks := [s[..n], s[n..]];
    TwoChunks(s[..n], s[n..]);
    NothingIsSilent(env, f, s[n..]);
    FoldAllConcat(env, CONNECTED, [s[..n]], [s[n..]]);
    assert chunks == [s[..n]] + [s[n..]];
    OneRead(env, CONNECTED, s[..n]);
    ClosedReads(env, f, [s[n..]]);
  }

  /** The outcome does not depend on how the stream is cut exactly when nothing after the byte that closes the
      connection would be seen. */
  lemma CutFreeIff(env: FrontEnv, s: Bytes)
    ensures var n := ClosePoint(env, CONNECTED, s);
            CutFree(env, s) <==> Silent(env, Fold(env, CONNECTED, s[..n]), s[n..])
  {
    var n := ClosePoint(env, CONNECTED, s);
    var f := Fold(env, CONNECTED, s[..n]);
    AtClosePoint(env, CONNECTED, s);
    assert s == s[..n] + s[n..];
    FoldConcat(env, CONNECTED, s[..n], s[n..]);
    SilentIff(env, f, s[n..], 0);
    hide Fold, FoldAll, Silent;
    if Silent(env, f, s[n..]) {
      forall chunks: seq<Bytes> | Flatten(chunks) == s
        ensures OutcomeOf(FoldAll(env, CONNECTED, chunks)) == OutcomeOf(Fold(env, CONNECTED, s))
      {
        SilentForCut(env, s, chunks);
      }
    } else {
      CutAtClosePoint(env, s);
    }
  }

  /** "GET" in ASCII. */
  const GET: Bytes := [71, 69, 84]

  /** A GET request for "/" without headers. */
  const PLAIN_GET := Request(GET, [SLASH], 1, 1, map[], [])

  lemma PlainGetIsWhole(env: FrontEnv)
    requires env.http.knownMethod(GET) && env.http.stoull([ZERO]) == Some(0)
    ensures var head := HttpRoundTrips.PrintRequest(PLAIN_GET, []);
            && IsWhole(env, head) && RequestOf(env, head) == PLAIN_GET
            && !IsUpgrade(PLAIN_GET) && DeclaredLength(env.http, PLAIN_GET.headers) == Some(0)
  {
    var head := HttpRoundTrips.PrintRequest(PLAIN_GET, []);
    HttpRoundTrips.RequestRoundTrip(env.http, PLAIN_GET, [], []);
    assert head + [] == head;
  }

  lemma DifferentCut(env: FrontEnv, s: Bytes, chunks: seq<Bytes>)
    requires Flatten(chunks) == s
    requires FoldAll(env, CONNECTED, chunks).replies != Fold(env, CONNECTED, s).replies
    ensures !CutFree(env, s)
  {
    hide Fold, FoldAll;
  }

  /** An example: a plain GET and a line feed are answered twice in one read, once in two. */
  lemma LineFeedAnsweredTwice(env: FrontEnv)
    requires env.http.knownMethod(GET) && env.http.stoull([ZERO]) == Some(0)
    ensures var head := HttpRoundTrips.PrintRequest(PLAIN_GET, []);
            && FoldAll(env, CONNECTED, [head + [LF]]).replies == [BadRequest, BadRequest]
            && FoldAll(env, CONNECTED, [head, [LF]]).replies == [BadRequest]
            && !CutFree(env, head + [LF])
  {
    var head := HttpRoundTrips.PrintRequest(PLAIN_GET, []);
    PlainGetIsWhole(env);
    hide IsWhole, RequestOf, IsUpgrade, DeclaredLength, HttpRoundTrips.PrintRequest;
    hide Fold, FoldAll, Scan, CutFree;
    OtherRequestsAreRefused(env, head, [LF], [], head + [LF], []);
    OtherRequestsAreRefused(env, head, [], [], head, [[LF]]);
    assert [] + [head + [LF]] + [] == [head + [LF]] && [] + [head] + [[LF]] == [head, [LF]];
    assert LeadingLineFeeds([LF]) == 1 && BadRequests(2) == [BadRequest, BadRequest];
    TwoChunks(head, [LF]);
    OneRead(env, CONNECTED, head + [LF]);
    DifferentCut(env, head + [LF], [head, [LF]]);
  }

  // ---- The object -----------------------------------------------------------------------------

  class Http {
    const env: FrontEnv
    var parser: HttpRequestParser
    /** Whether there is an upgraded protocol. */
    var upgrade: bool
    /** Whether the TCP connection has been closed. */
    var closed: bool
    /** The calls made to it, in order. */
    var upgradeCalls: seq<Bytes>
    /** The responses handed to `writeBytes`, in order. */
    var replies: seq<Reply>
    /** All the bytes handled so far. */
    ghost var stream: Bytes
    /** All the reads so far, arriving or not. */
    ghost var chunks: seq<Bytes>

    constructor (env: FrontEnv)
      ensures this.env == env && Valid() && stream == [] && InStep() && chunks == []
      ensures fresh(parser)
    {
      this.env := env;
      parser := new HttpRequestParser(env.http);
      upgrade, closed, upgradeCalls, replies := false, false, [], [];
      stream, chunks := [], [];
    }

    /** The fields and the parser show the connection as given; after an error the parser's own state no
        longer matters. */
    ghost predicate Stands(f: Front)
      reads this, parser
    {
      && parser.env == env.http
      && replies == f.replies && Flatten(upgradeCalls) == f.forwarded && closed == f.closing
      && match f.phase
         case Upgraded => upgrade
         case Failed => !upgrade && closed && parser.result == ParseError
         case Reading(p) => !upgrade && parser.result != ParseError && parser.Value() == p
    }

    /** The object is where the bytes handled leave a connection. */
    ghost predicate Valid()
      reads this, parser
    {
      Stands(Fold(env, CONNECTED, stream))
    }

    /** The bytes handled are those of the reads that arrived. */
    ghost predicate InStep()
      reads this
    {
      Fold(env, CONNECTED, stream) == FoldAll(env, CONNECTED, chunks)
    }

    /** The TCP handler's callback for a read: once the connection is closed nothing reaches the protocol. */
    method OnRead(bytes: Bytes)
      requires Valid() && InStep()
      modifies this, parser
      ensures chunks == old(chunks) + [bytes]
      ensures Valid() && InStep() && Stands(FoldAll(env, CONNECTED, chunks))
      ensures parser == old(parser) || fresh(parser)
    {
      hide Fold, FoldAll;
      ghost var f := Fold(env, CONNECTED, stream);
      FoldAllConcat(env, CONNECTED, chunks, [bytes]);
      chunks := chunks + [bytes];
      if !closed {
        OneRead(env, f, bytes);
        FoldConcat(env, CONNECTED, stream, bytes);
        OnTCPData(bytes);
      } else {
        ClosedReads(env, f, [bytes]);
      }
    }

    /** One read, handled to its end: whole requests, the beginning of one, bytes for the upgraded
        protocol, or all of these in turn. */
    method OnTCPData(bytes: Bytes)
      requires Valid()
      modifies this, parser
      ensures Valid() && stream == old(stream) + bytes && chunks == old(chunks)
      ensures parser == old(parser) || fresh(parser)
      ensures old(upgrade) ==> upgradeCalls == old(upgradeCalls) + [bytes] && replies == old(replies)
      decreases |bytes|
    {
      hide Scan, Fold;
      ghost var f := Fold(env, CONNECTED, stream);
      FoldConcat(env, CONNECTED, stream, bytes);
      if upgrade {
        FoldSettled(env, f, bytes);
        CallUpgrade(bytes);
        stream := stream + bytes;
        return;
      }
      ghost var whole := stream + bytes;
      var res, nparsed := parser.Parse(bytes, 0);
      if res == ParseError {
        closed := true;
      }
      if res == Complete {
        ghost var p := parser.Value();
        FoldToRequest(env, f, bytes);
        FoldConcat(env, CONNECTED, stream, bytes[..nparsed]);
        OnHttpMessage(f);
        stream := stream + bytes[..nparsed];
        assert stream + bytes[nparsed..] == whole;
        if nparsed < |bytes| {
          OnTCPData(bytes[nparsed..]);
        } else {
          assert bytes[nparsed..] == [] && stream == whole;
        }
      } else {
        if f.phase.Reading? {
          FoldScan(env, f, bytes);
        } else {
          FoldSettled(env, f, bytes);
        }
        stream := whole;
      }
    }

    /** The upgraded protocol's handling of the bytes, as far as it concerns this connection. */
    method CallUpgrade(bytes: Bytes)
      modifies this`upgradeCalls, this`closed
      ensures closed == (old(closed) || HangsUp(env, old(Flatten(upgradeCalls)), bytes))
      ensures upgradeCalls == old(upgradeCalls) + [bytes]
      ensures Flatten(upgradeCalls) == old(Flatten(upgradeCalls)) + bytes
    {
      closed := closed || HangsUp(env, Flatten(upgradeCalls), bytes);
      FlattenConcat(upgradeCalls, [bytes]);
      assert Flatten([bytes]) == bytes + Flatten([]);
      upgradeCalls := upgradeCalls + [bytes];
    }

    /** A whole request: the response, and the protocol to go on with. */
    method OnHttpMessage(ghost f: Front)
      requires f.phase.Reading? && parser.env == env.http && !upgrade && parser.result != ParseError
      requires replies == f.replies && Flatten(upgradeCalls) == f.forwarded && closed == f.closing
      modifies this
      ensures Stands(OnRequest(env, f, old(parser.Value())))
      ensures parser == old(parser) || fresh(parser)
      ensures stream == old(stream) && chunks == old(chunks) && upgradeCalls == old(upgradeCalls)
    {
      var request := parser.frame;
      if IsUpgrade(request) {
        OnUpgrade(request);
      } else {
        replies := replies + [BadRequest];
        closed := true;
        return;
      }
      parser := new HttpRequestParser(env.http);
    }

    method OnUpgrade(request: Request)
      modifies this`upgrade, this`replies, this`closed
      ensures closed
           == (old(closed) || !env.supported(UpgradeName(request)) || !env.handshakeOk(request))
      ensures upgrade == (old(upgrade) || env.supported(UpgradeName(request)))
      ensures replies == old(replies)
           + [if env.supported(UpgradeName(request)) then Handshake(request) else UpgradeNotSupported]
    {
      var name := ValueOrDefault(request.headers, UPGRADE_CAPITAL, []);
      if env.supported(name) {
        upgrade := true;
        replies := replies + [Handshake(request)];
        if !env.handshakeOk(request) {
          closed := true;
        }
      } else {
        replies := replies + [UpgradeNotSupported];
        closed := true;
      }
    }
  }
}

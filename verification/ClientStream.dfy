/** A client's whole byte stream, an upgrade request and then WebSocket frames, through the HTTP front end,
    the message parser and the connection (http/http.h, ws/websocket.h, ws/ws_message_parser.h). */
module ClientStreams {
  import opened ByteArrays
  import opened Frames
  import opened Messages
  import opened MessageParsing
  import opened Delivery
  import opened Protocol
  import opened Handling
  import opened Answering
  import H = HttpParsing
  import P = HttpPrinting
  import A = HttpAcceptance
  import F = HttpFront

  /** The text of an upgrade request that the server accepts, followed by anything and cut anywhere, is answered
      once, and what follows its last byte is handed over, all of it unless the upgraded protocol closes. */
  lemma TextHandsOver(
      front: F.FrontEnv, text: Bytes, req: H.Request, lines: seq<P.HeaderLine>, rest: Bytes, chunks: seq<Bytes>)
    requires A.IsText(front.http, text, req, lines) && F.Accepts(front, req)
    requires Flatten(chunks) == text + rest
    ensures var g := F.FoldAll(front, F.CONNECTED, chunks);
            && g.phase.Upgraded? && g.replies == [F.Handshake(req)]
            && g.forwarded <= rest && g.closing == F.HangsUp(front, [], g.forwarded)
            && (!g.closing ==> g.forwarded == rest)
  {
    assert text[..|text|] == text;
    A.TextAccepted(front.http, text, |text|, req, lines);
    hide A.IsText, F.Accepts, F.FoldAll, F.HangsUp, H.Scan;
    F.UpgradeHandOver(front, text, rest, chunks);
  }

  // ---- When the WebSocket side closes ------------------------------------------------------

  /** The upgraded protocol is a WebSocket connection: it closes TCP when a Close frame is complete. */
  ghost predicate ClosesOnCloseFrame(front: F.FrontEnv, env: Env) {
    forall b: Bytes :: front.hangsUp(b) <==> CloseSeen(Scan(env, FRESH, b).events)
  }

  lemma {:induction false} CloseSeenConcat(a: seq<Event>, b: seq<Event>)
    ensures CloseSeen(a + b) <==> CloseSeen(a) || CloseSeen(b)
    decreases |a|
  {
    if a == [] {
      assert a + b == b;
    } else {
      assert (a + b)[0] == a[0] && (a + b)[1..] == a[1..] + b;
      CloseSeenConcat(a[1..], b);
    }
  }

  lemma {:induction false} CloseStopsHearing(endpoint: Endpoint, past: seq<Message>, events: seq<Event>)
    requires CloseSeen(events)
    ensures !StillOpen(endpoint, past, events)
    decreases |events|
  {
    hide Closes;
    if IsCloseEvent(events[0]) {
    } else {
      CloseStopsHearing(endpoint, if events[0].Control? then past else past + [events[0].message], events[1..]);
    }
  }

  lemma MoreEvents(env: Env, a: Bytes, b: Bytes) returns (more: seq<Event>)
    ensures Scan(env, FRESH, a + b).events == Scan(env, FRESH, a).events + more
  {
    hide Scan, Resume;
    ScanResumes(env, FRESH, a, b);
    more := Resume(env, Scan(env, FRESH, a).status, b).events;
  }

  lemma {:induction false} HangUpWasSeen(front: F.FrontEnv, env: Env, before: Bytes, more: Bytes)
    requires ClosesOnCloseFrame(front, env) && F.HangsUp(front, before, more)
    ensures CloseSeen(Scan(env, FRESH, before + more).events)
    decreases |more|
  {
    hide Scan, CloseSeen;
    var next := before + [more[0]];
    assert before + more == next + more[1..];
    if front.hangsUp(next) {
      var events := MoreEvents(env, next, more[1..]);
      CloseSeenConcat(Scan(env, FRESH, next).events, events);
    } else {
      HangUpWasSeen(front, env, next, more[1..]);
    }
  }

  /** Once a Close frame is in, further bytes give the endpoint nothing to hear. */
  lemma NothingHeardAfterClose(env: Env, endpoint: Endpoint, a: Bytes, b: Bytes)
    requires CloseSeen(Scan(env, FRESH, a).events)
    ensures Heard(endpoint, [], Scan(env, FRESH, a + b).events) == Heard(endpoint, [], Scan(env, FRESH, a).events)
  {
    hide Scan, Heard, StillOpen;
    var events := Scan(env, FRESH, a).events;
    var more := MoreEvents(env, a, b);
    CloseStopsHearing(endpoint, [], events);
    HeardConcat(endpoint, [], events, more);
    assert Heard(endpoint, [], events) + [] == Heard(endpoint, [], events);
  }

  // ---- The whole way --------------------------------------------------------------------------

  /** What the endpoint hears of the frames does not change if the front end stops handing over at a hang-up. */
  lemma ForwardedIsEnough(
      front: F.FrontEnv, env: Env, endpoint: Endpoint, fs: seq<Frame>, forwarded: Bytes)
    requires ClosesOnCloseFrame(front, env)
    requires forall f | f in fs :: f.KeyFits() && Readable(env, f)
    requires TakeAll(env, fs).Taken?
    requires forwarded <= EncodeAll(OnWireAll(fs))
    requires F.HangsUp(front, [], forwarded) || forwarded == EncodeAll(OnWireAll(fs))
    ensures Heard(endpoint, [], Scan(env, FRESH, forwarded).events) == Heard(endpoint, [], TakeAll(env, fs).events)
  {
    hide *;
    ScanFrames(env, fs);
    var wire := EncodeAll(OnWireAll(fs));
    if F.HangsUp(front, [], forwarded) {
      HangUpWasSeen(front, env, [], forwarded);
      assert [] + forwarded == forwarded;
      var rest := wire[|forwarded|..];
      assert wire == forwarded + rest;
      NothingHeardAfterClose(env, endpoint, forwarded, rest);
    }
  }

  /** A client sends an upgrade request and frames, masked or not. However the network cuts the stream, and
      whatever calls the front end makes of what it hands over, the endpoint is handed exactly the messages of
      those frames that come before the first close from either side. */
  lemma ClientMessagesArrive(
      front: F.FrontEnv, env: Env, endpoint: Endpoint, text: Bytes, req: H.Request, lines: seq<P.HeaderLine>,
      fs: seq<Frame>, chunks: seq<Bytes>, calls: seq<Bytes>)
    requires A.IsText(front.http, text, req, lines) && F.Accepts(front, req) && ClosesOnCloseFrame(front, env)
    requires forall f | f in fs :: f.KeyFits() && Readable(env, f)
    requires TakeAll(env, fs).Taken?
    requires Flatten(chunks) == text + EncodeAll(OnWireAll(fs))
    requires Flatten(calls) == F.FoldAll(front, F.CONNECTED, chunks).forwarded
    ensures ReadAll(env, endpoint, START, UPGRADED, calls).messages == Heard(endpoint, [], TakeAll(env, fs).events)
  {
    hide *;
    TextHandsOver(front, text, req, lines, EncodeAll(OnWireAll(fs)), chunks);
    HeardWhateverTheCut(env, endpoint, calls);
    ForwardedIsEnough(front, env, endpoint, fs, Flatten(calls));
  }

  /** And queued for the client are exactly the frames of what the endpoint sends in reaction to those messages, in
      order. */
  lemma ClientIsAnswered(
      front: F.FrontEnv, env: Env, endpoint: Endpoint, text: Bytes, req: H.Request, lines: seq<P.HeaderLine>,
      fs: seq<Frame>, chunks: seq<Bytes>, calls: seq<Bytes>)
    requires A.IsText(front.http, text, req, lines) && F.Accepts(front, req) && ClosesOnCloseFrame(front, env)
    requires forall f | f in fs :: f.KeyFits() && Readable(env, f)
    requires TakeAll(env, fs).Taken?
    requires Flatten(chunks) == text + EncodeAll(OnWireAll(fs))
    requires Flatten(calls) == F.FoldAll(front, F.CONNECTED, chunks).forwarded
    ensures Stored(ReadAll(env, endpoint, START, UPGRADED, calls)).queue
         == AllFrames(env.exts, RepliesTo(endpoint, [], Heard(endpoint, [], TakeAll(env, fs).events)))
  {
    hide *;
    TextHandsOver(front, text, req, lines, EncodeAll(OnWireAll(fs)), chunks);
    AnsweredWhateverTheCut(env, endpoint, calls);
    ForwardedIsEnough(front, env, endpoint, fs, Flatten(calls));
  }
}

/** The message parser: a byte stream turned into control frames and messages (ws/ws_message_parser.h). */
module MessageParsing {
  import opened ByteArrays
  import opened Frames
  import opened FrameParsing
  import opened Messages
  import opened Extensions

  /** What the parser is configured with, and the text check as it comes out on this machine. */
  datatype Env = Env(max: nat, textOk: Bytes -> bool, exts: seq<Extension>)

  datatype Event = Control(frame: Frame) | Delivered(message: Message)

  // ---- One frame ------------------------------------------------------------

  /** What a whole frame leads to: at most one event and the message to go on with, or refusal. */
  datatype Taken = Refused | Taken(events: seq<Event>, message: Message)

  function Take(env: Env, m: Message, f: Frame): Taken {
    if f.IsControl() then Taken([Control(f)], m)
    else
      var a := AfterFrame(env.textOk, m, f);
      if !a.ok then Refused
      else if !a.message.complete then Taken([], a.message)
      else
        match Extensions.Decoded(env.exts, |env.exts|, a.message.rsv, a.message.payload)
        case None => Refused
        case Some(p) => Taken([Delivered(a.message.(payload := p))], FRESH)
  }

  // ---- A whole stream ---------------------------------------------------------

  /** Where a stream leaves the parser: reading a frame, or stopped by a bad frame or a bad message. */
  datatype Status = Alive(rest: Bytes, message: Message) | BadFrame | BadMessage

  datatype Scanned = Scanned(events: seq<Event>, status: Status)

  /** The events of a stream read from message `m`, all of it seen at once. */
  function Scan(env: Env, m: Message, s: Bytes): Scanned
    decreases |s|
  {
    match Decode(env.max, s)
    case Need => Scanned([], Alive(s, m))
    case Bad(_) => Scanned([], BadFrame)
    case Got(f, size) =>
      match Take(env, m, f)
      case Refused => Scanned([], BadMessage)
      case Taken(events, m') =>
        DecodeFits(env.max, s);
        var r := Scan(env, m', s[size..]);
        Scanned(events + r.events, r.status)
  }

  /** Reading on from where a stream left off. */
  function Resume(env: Env, st: Status, more: Bytes): Scanned {
    if st.Alive? then Scan(env, st.message, st.rest + more) else Scanned([], st)
  }

  /** The rest of a live stream is the beginning of a frame. */
  lemma {:induction false} RestIsPartial(env: Env, m: Message, s: Bytes)
    ensures Scan(env, m, s).status.Alive? ==> Decode(env.max, Scan(env, m, s).status.rest).Need?
    decreases |s|
  {
    var d := Decode(env.max, s);
    if d.Got? && Take(env, m, d.frame).Taken? {
      DecodeFits(env.max, s);
      RestIsPartial(env, Take(env, m, d.frame).message, s[d.size..]);
    }
  }

  /** A stream read in two parts gives the events of the first part, then those of the second
      read from where the first left off; after an error nothing more comes. */
  lemma {:induction false} ScanResumes(env: Env, m: Message, a: Bytes, b: Bytes)
    ensures var first := Scan(env, m, a);
            var second := Resume(env, first.status, b);
            Scan(env, m, a + b) == Scanned(first.events + second.events, second.status)
    decreases |a|
  {
    hide Decode, Take;
    var d := Decode(env.max, a);
    if d.Need? {
      assert Resume(env, Alive(a, m), b) == Scan(env, m, a + b);
    } else {
      DecodeStable(env.max, a, b);
      DecodeFits(env.max, a);
      if d.Got? {
        var t := Take(env, m, d.frame);
        if t.Taken? {
          ScanResumes(env, t.message, a[d.size..], b);
          assert (a + b)[d.size..] == a[d.size..] + b;
          var inner := Scan(env, t.message, a[d.size..]);
          ConcatAssoc(t.events, inner.events, Resume(env, inner.status, b).events);
        }
      }
    }
  }

  /** One frame's worth of reading on. */
  lemma ResumeStep(env: Env, st: Status, input: Bytes)
    requires st.Alive?
    ensures var whole := st.rest + input;
            var r := Resume(env, st, input);
            match Decode(env.max, whole)
            case Need => r == Scanned([], Alive(whole, st.message))
            case Bad(_) => r == Scanned([], BadFrame)
            case Got(f, size) =>
              && size <= |whole|
              && match Take(env, st.message, f)
                 case Refused => r == Scanned([], BadMessage)
                 case Taken(events, m') =>
                   var next := Resume(env, Alive([], m'), whole[size..]);
                   r == Scanned(events + next.events, next.status)
  {
    hide Decode, Take;
    var d := Decode(env.max, st.rest + input);
    if d.Got? {
      DecodeFits(env.max, st.rest + input);
      assert [] + (st.rest + input)[d.size..] == (st.rest + input)[d.size..];
    }
  }

  /** The bytes of a stream that belong to whole frames, up to a bad one or a refused one. */
  function InFrames(env: Env, m: Message, s: Bytes): (n: nat)
    decreases |s|
  {
    match Decode(env.max, s)
    case Need => 0
    case Bad(_) => 0
    case Got(f, size) =>
      match Take(env, m, f)
      case Refused => size
      case Taken(_, m') =>
        DecodeFits(env.max, s);
        size + InFrames(env, m', s[size..])
  }

  /** The bytes a call reports as parsed: those it adds to whole frames. */
  function Parsed(env: Env, st: Status, input: Bytes): nat {
    if !st.Alive? then 0
    else
      var n := InFrames(env, st.message, st.rest + input);
      if n <= |st.rest| then 0 else n - |st.rest|
  }

  lemma {:induction false} WholeAndRest(env: Env, m: Message, s: Bytes)
    requires Scan(env, m, s).status.Alive?
    ensures InFrames(env, m, s) + |Scan(env, m, s).status.rest| == |s|
    decreases |s|
  {
    hide Take;
    var d := Decode(env.max, s);
    if d.Need? {
    } else {
      DecodeFits(env.max, s);
      hide Decode;
      WholeAndRest(env, Take(env, m, d.frame).message, s[d.size..]);
    }
  }

  /** On a good stream a call counts its bytes up to the frame that is still unfinished, and none if no frame ends in
      it. */
  lemma CountedUpToRest(env: Env, st: Status, input: Bytes)
    requires st.Alive? && Resume(env, st, input).status.Alive?
    ensures var rest := Resume(env, st, input).status.rest;
            Parsed(env, st, input) == if |rest| < |input| then |input| - |rest| else 0
  {
    hide Scan, InFrames;
    WholeAndRest(env, st.message, st.rest + input);
  }

  /** One frame's worth of counting on. */
  lemma ParsedStep(env: Env, st: Status, input: Bytes)
    requires st.Alive? && Decode(env.max, st.rest).Need?
    ensures var whole := st.rest + input;
            match Decode(env.max, whole)
            case Need => Parsed(env, st, input) == 0
            case Bad(_) => Parsed(env, st, input) == 0
            case Got(f, size) =>
              && |st.rest| < size <= |whole|
              && match Take(env, st.message, f)
                 case Refused => Parsed(env, st, input) == size - |st.rest|
                 case Taken(_, m') =>
                   Parsed(env, st, input) == size - |st.rest| + Parsed(env, Alive([], m'), whole[size..])
  {
    hide Decode, Take;
    var d := Decode(env.max, st.rest + input);
    if d.Got? {
      DecodeFits(env.max, st.rest + input);
      DecodeProgress(env.max, st.rest, input);
      assert [] + (st.rest + input)[d.size..] == (st.rest + input)[d.size..];
    }
  }

  lemma ParsedNothing(env: Env, m: Message)
    ensures Parsed(env, Alive([], m), []) == 0
  {
    var none: Bytes := [];
    assert none + none == none;
  }

  lemma ScanNothing(env: Env, m: Message)
    ensures Resume(env, Alive([], m), []) == Scanned([], Alive([], m))
  {
    var none: Bytes := [];
    assert none + none == none;
  }

  // ---- Segmentation -----------------------------------------------------------

  /** The events and status after feeding chunks one call at a time. */
  function FeedAll(env: Env, st: Status, chunks: seq<Bytes>): Scanned
    decreases |chunks|
  {
    if chunks == [] then Scanned([], st)
    else
      var r := Resume(env, st, chunks[0]);
      var rs := FeedAll(env, r.status, chunks[1..]);
      Scanned(r.events + rs.events, rs.status)
  }

  const START := Alive([], FRESH)

  lemma {:induction false} FeedIsScan(env: Env, st: Status, chunks: seq<Bytes>)
    requires st.Alive? ==> Decode(env.max, st.rest).Need?
    ensures FeedAll(env, st, chunks) == Resume(env, st, Flatten(chunks))
    decreases |chunks|
  {
    hide Decode, Take;
    if chunks == [] {
      if st.Alive? {
        assert st.rest + [] == st.rest;
      }
    } else {
      var r := Resume(env, st, chunks[0]);
      if st.Alive? {
        ScanResumes(env, st.message, st.rest + chunks[0], Flatten(chunks[1..]));
        assert st.rest + Flatten(chunks) == st.rest + chunks[0] + Flatten(chunks[1..]);
        RestIsPartial(env, st.message, st.rest + chunks[0]);
      }
      FeedIsScan(env, r.status, chunks[1..]);
    }
  }

  /** Two ways of cutting the same stream give the same events in the same order and the same outcome,
      errors included. */
  lemma SegmentationIndependence(env: Env, a: seq<Bytes>, b: seq<Bytes>)
    requires Flatten(a) == Flatten(b)
    ensures FeedAll(env, START, a) == FeedAll(env, START, b) == Scan(env, FRESH, Flatten(a))
  {
    FeedIsScan(env, START, a);
    FeedIsScan(env, START, b);
    assert [] + Flatten(a) == Flatten(a);
  }

  // ---- What one call reports ----------------------------------------------------

  /** A call on a live parser reports an error only if the first frame to end in it is bad; a call with
      input on a stopped parser always does. */
  predicate Reports(env: Env, st: Status, chunk: Bytes) {
    if !st.Alive? then chunk != []
    else
      match Decode(env.max, st.rest + chunk)
      case Need => false
      case Bad(_) => true
      case Got(f, _) => Take(env, st.message, f).Refused?
  }

  lemma StoppedParsesNothing(env: Env, st: Status, input: Bytes)
    requires !st.Alive?
    ensures Parsed(env, st, input) == 0 && Resume(env, st, input) == Scanned([], st)
    ensures input != [] ==> Reports(env, st, input)
  {
  }

  /** The status before call k. */
  function StatusBefore(env: Env, chunks: seq<Bytes>, k: nat): Status
    requires k <= |chunks|
  {
    FeedAll(env, START, chunks[..k]).status
  }

  lemma {:induction false} FeedSplit(env: Env, st: Status, a: seq<Bytes>, b: seq<Bytes>)
    ensures FeedAll(env, st, a + b).status == FeedAll(env, FeedAll(env, st, a).status, b).status
    decreases |a|
  {
    hide Resume;
    if a == [] {
      assert a + b == b;
    } else {
      FeedSplit(env, Resume(env, st, a[0]).status, a[1..], b);
      assert (a + b)[1..] == a[1..] + b && (a + b)[0] == a[0];
    }
  }

  lemma StatusStep(env: Env, chunks: seq<Bytes>, k: nat)
    requires k < |chunks|
    ensures StatusBefore(env, chunks, k + 1) == Resume(env, StatusBefore(env, chunks, k), chunks[k]).status
  {
    FeedSplit(env, START, chunks[..k], [chunks[k]]);
    assert chunks[..k + 1] == chunks[..k] + [chunks[k]];
  }

  lemma {:induction false} StoppedStays(env: Env, chunks: seq<Bytes>, i: nat, j: nat)
    requires i <= j <= |chunks| && !StatusBefore(env, chunks, i).Alive?
    ensures StatusBefore(env, chunks, j) == StatusBefore(env, chunks, i)
  {
    if i == j {
    } else {
      StoppedStays(env, chunks, i, j - 1);
      StatusStep(env, chunks, j - 1);
    }
  }

  /** Errors may be reported late but are never lost: once the stream has turned bad, every call reports
      an error; a call that reports one leaves the stream bad; so on a good stream no call ever does. */
  lemma ErrorsAreNeverLost(env: Env, chunks: seq<Bytes>)
    requires forall k :: 0 <= k < |chunks| ==> chunks[k] != []
    ensures forall k, j :: 0 <= k <= j < |chunks| && !StatusBefore(env, chunks, k).Alive? ==>
                             Reports(env, StatusBefore(env, chunks, j), chunks[j])
    ensures forall k :: 0 <= k < |chunks| && Reports(env, StatusBefore(env, chunks, k), chunks[k]) ==>
                          !StatusBefore(env, chunks, k + 1).Alive?
    ensures Scan(env, FRESH, Flatten(chunks)).status.Alive? ==>
              forall k :: 0 <= k < |chunks| ==> !Reports(env, StatusBefore(env, chunks, k), chunks[k])
  {
    forall k, j | 0 <= k <= j < |chunks| && !StatusBefore(env, chunks, k).Alive?
      ensures Reports(env, StatusBefore(env, chunks, j), chunks[j])
    {
      StoppedStays(env, chunks, k, j);
    }
    forall k | 0 <= k < |chunks| && Reports(env, StatusBefore(env, chunks, k), chunks[k])
      ensures !StatusBefore(env, chunks, k + 1).Alive? && !StatusBefore(env, chunks, |chunks|).Alive?
    {
      StatusStep(env, chunks, k);
      StoppedStays(env, chunks, k + 1, |chunks|);
    }
    assert chunks[..|chunks|] == chunks;
    SegmentationIndependence(env, chunks, chunks);
  }

  /** An example: a Pong, then a continuation of nothing. The Pong is handled and no error reported,
      though the stream is bad from here on. */
  lemma ErrorReportedLate(env: Env)
    ensures var chunk: Bytes := [0x8A, 0x00, 0x80, 0x00];
            && !Reports(env, START, chunk)
            && Resume(env, START, chunk) == Scanned([Control(InitFrame(PONG, true))], BadMessage)
  {
    var chunk: Bytes := [0x8A, 0x00, 0x80, 0x00];
    var rest: Bytes := [0x80, 0x00];
    var pong, more := InitFrame(PONG, true), InitFrame(CONTINUATION, true);
    assert Encode(pong) == [0x8A, 0x00] && Encode(more) == rest;
    assert Take(env, FRESH, more).Refused?;
    assert [] + chunk == chunk == [0x8A, 0x00] + rest && chunk[2..] == rest && rest + [] == rest;
    hide Decode, Take, Encode;
    RoundTrip(env.max, pong, rest);
    RoundTrip(env.max, more, []);
    assert Scan(env, FRESH, rest) == Scanned([], BadMessage);
  }

  // ---- The parser object --------------------------------------------------------

  class MessageParser {
    const env: Env
    var result: ParseResult
    var message: WebsocketMessage
    var frameParser: FrameParser

    /** The callbacks made so far, in order. */
    var events: seq<Event>
    /** All the bytes of the calls so far. */
    ghost var stream: Bytes

    constructor (env: Env)
      ensures this.env == env
      ensures Valid() && stream == [] && events == []
      ensures fresh(Repr())
    {
      this.env := env;
      result := Incomplete;
      message := new WebsocketMessage();
      frameParser := new FrameParser(env.max);
      events := [];
      stream := [];
    }

    ghost function Repr(): set<object>
      reads this
    {
      {this, message, frameParser}
    }

    /** Where the stream stands, read off the two member objects. */
    ghost predicate StandsAt(st: Status)
      reads Repr()
    {
      && frameParser.maxPayloadLength == env.max
      && frameParser.Valid()
      && match st
         case Alive(rest, m) =>
           && frameParser.result == Incomplete && frameParser.InProgress()
           && frameParser.received == rest && message.Value() == m
         case BadFrame => frameParser.result == ParseError
         case BadMessage => frameParser.result == ParseError || frameParser.Finished()
    }

    ghost predicate Valid()
      reads Repr()
    {
      && events == Scan(env, FRESH, stream).events
      && StandsAt(Scan(env, FRESH, stream).status)
    }

    /** One call: the callbacks fired over all calls are the events of the whole stream. */
    method Parse(input: Bytes) returns (res: ParseResult, nparsed: nat)
      requires Valid()
      modifies Repr()
      ensures Valid() && fresh(Repr() - old(Repr()))
      ensures stream == old(stream) + input
      ensures events == Scan(env, FRESH, stream).events
      ensures old(events) + Resume(env, Scan(env, FRESH, old(stream)).status, input).events == events
      ensures input != [] ==>
                res == if Reports(env, Scan(env, FRESH, old(stream)).status, input) then ParseError else Incomplete
      ensures input == [] ==> res == if old(frameParser.result) == ParseError then ParseError else Incomplete
      ensures nparsed == Parsed(env, Scan(env, FRESH, old(stream)).status, input)
      ensures result == res
    {
      ghost var st := Scan(env, FRESH, stream).status;
      ScanResumes(env, FRESH, stream, input);
      nparsed := 0;
      res, nparsed := Consume(input, nparsed, st);
      result := res;
      stream := stream + input;
    }

    /** The recursive consumer: one frame, its callback, then whatever follows it. The result of the
        inner call is dropped. */
    method Consume(input: Bytes, count: nat, ghost st: Status) returns (res: ParseResult, nparsed: nat)
      requires StandsAt(st)
      modifies Repr()
      ensures fresh(Repr() - old(Repr()))
      ensures stream == old(stream)
      ensures events == old(events) + Resume(env, st, input).events
      ensures StandsAt(Resume(env, st, input).status)
      ensures input != [] ==> res == if Reports(env, st, input) then ParseError else Incomplete
      ensures input == [] ==> res == if old(frameParser.result) == ParseError then ParseError else Incomplete
      ensures nparsed == count + Parsed(env, st, input)
      decreases |input|
    {
      hide Decode, Take, Scan, Resume, Parsed, FrameParser.InProgress, FrameParser.Finished;
      nparsed := count;
      if st.Alive? {
        ResumeStep(env, st, input);
        frameParser.InProgressNeedsMore();
        ParsedStep(env, st, input);
        assert input == [] ==> st.rest + input == st.rest;
      } else {
        StoppedParsesNothing(env, st, input);
      }
      var outcome, fn := frameParser.Parse(input, 0);
      if outcome == ParseError {
        return ParseError, nparsed;
      }
      if outcome == Complete {
        ghost var whole := st.rest + input;
        assert whole[|st.rest| + fn..] == input[fn..];
        nparsed := nparsed + fn;
        var ok := OnFrame(st.message);
        if !ok {
          return ParseError, nparsed;
        }
        frameParser := new FrameParser(env.max);
        ghost var next := Alive([], message.Value());
        ScanNothing(env, message.Value());
        ParsedNothing(env, message.Value());
        if |input| > fn {
          var _, n := Consume(input[fn..], nparsed, next);
          nparsed := n;
        }
      }
      return Incomplete, nparsed;
    }

    /** The callback for the frame just read, with the message reset once it is delivered. */
    method OnFrame(ghost m: Message) returns (ok: bool)
      requires message.Value() == m
      modifies this`events, this`message, message
      ensures message == old(message) || fresh(message)
      ensures match Take(env, m, frameParser.frame)
              case Refused => !ok && events == old(events)
              case Taken(evs, m') => ok && events == old(events) + evs && message.Value() == m'
    {
      if frameParser.frame.IsControl() {
        events := events + [Control(frameParser.frame)];
        return true;
      }
      ok := message.AddFrame(env.textOk, frameParser.frame);
      if !ok {
        return false;
      }
      if message.complete {
        var decoded := ExtensionDecode(env.exts, message.rsv, message.payload);
        if decoded.None? {
          return false;
        }
        message.payload := decoded.value;
        events := events + [Delivered(message.Value())];
        message := new WebsocketMessage();
      }
      return true;
    }
  }
}
